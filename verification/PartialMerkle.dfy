/** Partial Merkle trees: a pre-order bit string and hash list from which a receiver recomputes the root
    and learns which leaves were marked. */
module PartialMerkle {
  import opened Positional
  import opened MerkleLevels
  import opened MerkleTrees

  /** A position is on a level exactly when its first leaf exists. */
  lemma WidthMeaning(n: nat, h: nat, pos: nat)
    ensures pos < Width(n, h) <==> pos * Pow(2, h) < n
  {
    hide *;
    WidthDef(n, h);
    var p := Pow(2, h);
    var w, r := Width(n, h), (n + p - 1) % p;
    assert n + p - 1 == w * p + r;
    if pos < w {
      MulLe(pos + 1, w, p);
      MulAdd(p, pos, 1);
    } else {
      MulLe(w, pos, p);
    }
  }

  function CalcHash<T>(h2: (T, T) -> T, ar: seq<T>, height: nat, pos: nat): T
    requires pos < Width(|ar|, height)
  {
    if height == 0 then
      WidthZero(|ar|);
      ar[pos]
    else
      WidthStep(|ar|, height - 1);
      var left := CalcHash(h2, ar, height - 1, pos * 2);
      var right := if pos * 2 + 1 < Width(|ar|, height - 1) then CalcHash(h2, ar, height - 1, pos * 2 + 1) else left;
      h2(left, right)
  }

  lemma CalcHashDef<T>(h2: (T, T) -> T, ar: seq<T>, h: nat, pos: nat)
    requires h > 0 && pos < Width(|ar|, h)
    ensures pos * 2 < Width(|ar|, h - 1)
    ensures CalcHash(h2, ar, h, pos) == h2(CalcHash(h2, ar, h - 1, pos * 2),
              CalcHash(h2, ar, h - 1, if pos * 2 + 1 < Width(|ar|, h - 1) then pos * 2 + 1 else pos * 2))
  {
    hide Width;
    WidthStep(|ar|, h - 1);
  }

  /** CalcHash is the node of the full tree. */
  lemma {:induction false} CalcHashIsNode<T>(h2: (T, T) -> T, leaves: seq<T>, height: nat, pos: nat)
    requires pos < Width(|leaves|, height)
    ensures pos < |Level(h2, leaves, height)| && CalcHash(h2, leaves, height, pos) == Level(h2, leaves, height)[pos]
  {
    hide Width, Level;
    LevelWidth(h2, leaves, height);
    if height > 0 {
      LevelWidth(h2, leaves, height - 1);
      WidthStep(|leaves|, height - 1);
      CalcHashIsNode(h2, leaves, height - 1, pos * 2);
      if pos * 2 + 1 < Width(|leaves|, height - 1) {
        CalcHashIsNode(h2, leaves, height - 1, pos * 2 + 1);
      }
      LevelAt(h2, leaves, height, pos);
    } else {
      assert Level(h2, leaves, 0) == leaves by { LevelZero(h2, leaves); }
    }
  }

  lemma LevelZero<T>(h2: (T, T) -> T, leaves: seq<T>)
    ensures Level(h2, leaves, 0) == leaves
  {}

  lemma LevelAt<T>(h2: (T, T) -> T, leaves: seq<T>, height: nat, pos: nat)
    requires height > 0 && pos < |Level(h2, leaves, height)|
    ensures 2 * pos < |Level(h2, leaves, height - 1)|
    ensures Level(h2, leaves, height)[pos] == Parent(h2, Level(h2, leaves, height - 1), pos)
  {}

  // ---------- what the builder writes

  /** The leaves below a node: from First up to Last. */
  function First(h: nat, pos: nat): nat { pos * Pow(2, h) }

  function Last(n: nat, h: nat, pos: nat): (r: nat)
    ensures r <= n
  {
    if First(h, pos + 1) < n then First(h, pos + 1) else n
  }

  /** The marked leaves in a range, in order, with their positions. */
  ghost function Marked<T>(leaves: seq<T>, match_: seq<bool>, lo: nat, hi: nat): seq<(nat, T)>
    requires hi <= |leaves| == |match_|
    decreases hi - lo
  {
    if lo >= hi then [] else
      (if match_[lo] then [(lo, leaves[lo])] else []) + Marked(leaves, match_, lo + 1, hi)
  }

  ghost predicate AnyMarked(match_: seq<bool>, lo: nat, hi: nat)
    requires hi <= |match_|
  {
    exists p :: lo <= p < hi && match_[p]
  }

  ghost function EncBits(match_: seq<bool>, h: nat, pos: nat): seq<bool> {
    var n := |match_|;
    var parent := HasMatch(match_, h, pos);
    if h == 0 || !parent then [parent] else
      [true] + EncBits(match_, h - 1, pos * 2)
      + (if pos * 2 + 1 < Width(n, h - 1) then EncBits(match_, h - 1, pos * 2 + 1) else [])
  }

  ghost function EncItems<T>(h2: (T, T) -> T, leaves: seq<T>, match_: seq<bool>, h: nat, pos: nat): seq<T>
    requires |leaves| == |match_| && pos < Width(|leaves|, h)
  {
    var n := |match_|;
    var parent := HasMatch(match_, h, pos);
    if h == 0 || !parent then [CalcHash(h2, leaves, h, pos)] else
      WidthStep(n, h - 1);
      EncItems(h2, leaves, match_, h - 1, pos * 2)
      + (if pos * 2 + 1 < Width(n, h - 1) then EncItems(h2, leaves, match_, h - 1, pos * 2 + 1) else [])
  }

  ghost predicate HasMatch(match_: seq<bool>, h: nat, pos: nat) {
    AnyMarked(match_, First(h, pos), Last(|match_|, h, pos))
  }

  lemma EncStored<T>(h2: (T, T) -> T, leaves: seq<T>, match_: seq<bool>, h: nat, pos: nat)
    requires |leaves| == |match_| && pos < Width(|leaves|, h) && (h == 0 || !HasMatch(match_, h, pos))
    ensures EncBits(match_, h, pos) == [HasMatch(match_, h, pos)]
    ensures EncItems(h2, leaves, match_, h, pos) == [CalcHash(h2, leaves, h, pos)]
  {}

  lemma EncInner<T>(h2: (T, T) -> T, leaves: seq<T>, match_: seq<bool>, h: nat, pos: nat)
    requires |leaves| == |match_| && pos < Width(|leaves|, h) && h > 0 && HasMatch(match_, h, pos)
    ensures pos * 2 < Width(|leaves|, h - 1)
    ensures EncBits(match_, h, pos) == [true] + EncBits(match_, h - 1, pos * 2)
              + (if pos * 2 + 1 < Width(|leaves|, h - 1) then EncBits(match_, h - 1, pos * 2 + 1) else [])
    ensures EncItems(h2, leaves, match_, h, pos) == EncItems(h2, leaves, match_, h - 1, pos * 2)
              + (if pos * 2 + 1 < Width(|leaves|, h - 1) then EncItems(h2, leaves, match_, h - 1, pos * 2 + 1) else [])
  {
    hide Width, Pow, First, Last, AnyMarked;
    WidthStep(|leaves|, h - 1);
  }

  // ---------- what the reader computes

  datatype Reading<T> = Reading(hash: T, bits: nat, items: nat, matched: seq<(nat, T)>)

  /** One pass of the reader from bit nb and hash nh: the node's hash, the counters after it,
      and every matched hash with the leaf position where it was met. */
  ghost function Extract<T>(h2: (T, T) -> T, bits: seq<bool>, items: seq<T>, n: nat, h: nat, pos: nat, nb: nat, nh: nat)
    : Outcome<Reading<T>>
    decreases h
  {
    if nb >= |bits| then Fail
    else if h == 0 || !bits[nb] then
      if nh >= |items| then Fail
      else Ok(Reading(items[nh], nb + 1, nh + 1, if h == 0 && bits[nb] then [(pos, items[nh])] else []))
    else
      match Extract(h2, bits, items, n, h - 1, pos * 2, nb + 1, nh)
      case Fail => Fail
      case Ok(l) =>
        if pos * 2 + 1 < Width(n, h - 1) then
          match Extract(h2, bits, items, n, h - 1, pos * 2 + 1, l.bits, l.items)
          case Fail => Fail
          case Ok(r) => Ok(Reading(h2(l.hash, r.hash), r.bits, r.items, l.matched + r.matched))
        else Ok(Reading(h2(l.hash, l.hash), l.bits, l.items, l.matched))
  }

  // ---------- round trip

  lemma {:induction false} MarkedSplit<T>(leaves: seq<T>, match_: seq<bool>, lo: nat, mid: nat, hi: nat)
    requires lo <= mid <= hi <= |leaves| == |match_|
    ensures Marked(leaves, match_, lo, hi) == Marked(leaves, match_, lo, mid) + Marked(leaves, match_, mid, hi)
    decreases mid - lo
  {
    if lo < mid {
      MarkedSplit(leaves, match_, lo + 1, mid, hi);
    } else {
      assert Marked(leaves, match_, lo, mid) == [];
    }
  }

  lemma {:induction false} NoneMarked<T>(leaves: seq<T>, match_: seq<bool>, lo: nat, hi: nat)
    requires hi <= |leaves| == |match_| && !AnyMarked(match_, lo, hi)
    ensures Marked(leaves, match_, lo, hi) == []
    decreases hi - lo
  {
    if lo < hi {
      NoneMarked(leaves, match_, lo + 1, hi);
    }
  }

  /** The leaves of a node are those of its left child followed by those of its right child, if it has one. */
  lemma ChildRanges(n: nat, h: nat, pos: nat)
    requires h > 0 && pos < Width(n, h)
    ensures pos * 2 < Width(n, h - 1)
    ensures First(h - 1, pos * 2) == First(h, pos)
    ensures if pos * 2 + 1 < Width(n, h - 1)
            then && First(h, pos) <= Last(n, h - 1, pos * 2) == First(h - 1, pos * 2 + 1) <= Last(n, h, pos)
                 && Last(n, h - 1, pos * 2 + 1) == Last(n, h, pos)
            else Last(n, h - 1, pos * 2) == Last(n, h, pos)
  {
    hide Width, Pow;
    WidthStep(n, h - 1);
    WidthMeaning(n, h - 1, pos * 2 + 1);
    WidthMeaning(n, h - 1, pos * 2);
    var q := Pow(2, h - 1);
    PowNext(2, h - 1);
    MulAssoc(pos, 2, q);
    MulAssoc(pos + 1, 2, q);
    MulAdd(q, pos * 2, 1);
    MulAdd(q, pos * 2, 2);
  }

  lemma RangeDef(n: nat, h: nat, pos: nat)
    ensures First(h, pos) == pos * Pow(2, h)
    ensures Last(n, h, pos) == if (pos + 1) * Pow(2, h) < n then (pos + 1) * Pow(2, h) else n
  {}

  lemma LeafRange(n: nat, pos: nat)
    requires pos < Width(n, 0)
    ensures First(0, pos) == pos < n && Last(n, 0, pos) == pos + 1
  {
    WidthZero(n);
    PowZero(2);
  }

  /** What a reading of the encoded node has to be. */
  ghost predicate ReadsBack<T>(h2: (T, T) -> T, leaves: seq<T>, match_: seq<bool>, bits: seq<bool>, items: seq<T>,
                               h: nat, pos: nat, nb: nat, nh: nat)
    requires |leaves| == |match_| && pos < Width(|leaves|, h)
  {
    Extract(h2, bits, items, |leaves|, h, pos, nb, nh)
    == Ok(Reading(CalcHash(h2, leaves, h, pos),
                  nb + |EncBits(match_, h, pos)|, nh + |EncItems(h2, leaves, match_, h, pos)|,
                  Marked(leaves, match_, First(h, pos), Last(|leaves|, h, pos))))
  }

  lemma StoredNodeReads<T>(h2: (T, T) -> T, leaves: seq<T>, match_: seq<bool>, bits: seq<bool>, items: seq<T>,
                           h: nat, pos: nat, nb: nat, nh: nat)
    requires |leaves| == |match_| && pos < Width(|leaves|, h) && nb < |bits| && nh < |items|
    requires h == 0 || !bits[nb]
    requires bits[nb] == HasMatch(match_, h, pos)
    requires items[nh] == CalcHash(h2, leaves, h, pos)
    ensures ReadsBack(h2, leaves, match_, bits, items, h, pos, nb, nh)
  {
    hide Width, Pow, First, Last, EncBits, EncItems;
    EncStored(h2, leaves, match_, h, pos);
    if h == 0 {
      LeafRange(|leaves|, pos);
      OneMarked(leaves, match_, pos);
    } else {
      NoneMarked(leaves, match_, First(h, pos), Last(|leaves|, h, pos));
    }
  }

  lemma OneMarked<T>(leaves: seq<T>, match_: seq<bool>, pos: nat)
    requires pos < |leaves| == |match_|
    ensures AnyMarked(match_, pos, pos + 1) == match_[pos]
    ensures Marked(leaves, match_, pos, pos + 1) == if match_[pos] then [(pos, leaves[pos])] else []
  {
    assert Marked(leaves, match_, pos + 1, pos + 1) == [];
    if match_[pos] {
      assert pos <= pos < pos + 1 && match_[pos];
    }
  }

  lemma InnerNodeReads<T>(h2: (T, T) -> T, leaves: seq<T>, match_: seq<bool>, bits: seq<bool>, items: seq<T>,
                          h: nat, pos: nat, nb: nat, nh: nat)
    requires |leaves| == |match_| && pos < Width(|leaves|, h) && nb < |bits| && h > 0 && bits[nb]
    requires HasMatch(match_, h, pos)
    requires pos * 2 < Width(|leaves|, h - 1) && ReadsBack(h2, leaves, match_, bits, items, h - 1, pos * 2, nb + 1, nh)
    requires pos * 2 + 1 < Width(|leaves|, h - 1) ==>
      ReadsBack(h2, leaves, match_, bits, items, h - 1, pos * 2 + 1, nb + 1 + |EncBits(match_, h - 1, pos * 2)|,
                nh + |EncItems(h2, leaves, match_, h - 1, pos * 2)|)
    ensures ReadsBack(h2, leaves, match_, bits, items, h, pos, nb, nh)
  {
    hide Width, Pow, First, Last, Marked, EncBits, EncItems, CalcHash, HasMatch;
    EncInner(h2, leaves, match_, h, pos);
    CalcHashDef(h2, leaves, h, pos);
    ChildRanges(|leaves|, h, pos);
    if pos * 2 + 1 < Width(|leaves|, h - 1) {
      MarkedSplit(leaves, match_, First(h, pos), First(h - 1, pos * 2 + 1), Last(|leaves|, h, pos));
    }
  }

  /** x stands in s from i on. */
  ghost predicate Stands<T>(s: seq<T>, i: nat, x: seq<T>) {
    i + |x| <= |s| && s[i..i + |x|] == x
  }

  lemma PartsStand<T>(s: seq<T>, i: nat, x: seq<T>, y: seq<T>)
    requires Stands(s, i, x + y)
    ensures Stands(s, i, x) && Stands(s, i + |x|, y)
  {
    var t := s[i..i + |x + y|];
    assert s[i..i + |x|] == t[..|x|] && s[i + |x|..i + |x| + |y|] == t[|x|..];
  }

  lemma OneStands<T>(s: seq<T>, i: nat, x: T)
    requires Stands(s, i, [x])
    ensures i < |s| && s[i] == x
  {
    assert s[i..i + 1][0] == x;
  }

  /** Reading what was written for a node, wherever it stands in the streams. */
  lemma {:induction false} NodeReadsBack<T>(h2: (T, T) -> T, leaves: seq<T>, match_: seq<bool>, bits: seq<bool>, items: seq<T>,
                                            h: nat, pos: nat, nb: nat, nh: nat)
    requires |leaves| == |match_| && pos < Width(|leaves|, h)
    requires Stands(bits, nb, EncBits(match_, h, pos)) && Stands(items, nh, EncItems(h2, leaves, match_, h, pos))
    ensures ReadsBack(h2, leaves, match_, bits, items, h, pos, nb, nh)
    decreases h
  {
    hide Width, Pow, First, Last, Marked, Extract, ReadsBack, CalcHash, EncBits, EncItems, HasMatch, Stands;
    var n := |leaves|;
    if h == 0 || !HasMatch(match_, h, pos) {
      EncStored(h2, leaves, match_, h, pos);
      OneStands(bits, nb, HasMatch(match_, h, pos));
      OneStands(items, nh, CalcHash(h2, leaves, h, pos));
      StoredNodeReads(h2, leaves, match_, bits, items, h, pos, nb, nh);
    } else {
      EncInner(h2, leaves, match_, h, pos);
      var lb, li := EncBits(match_, h - 1, pos * 2), EncItems(h2, leaves, match_, h - 1, pos * 2);
      var right := pos * 2 + 1 < Width(n, h - 1);
      var rb := if right then EncBits(match_, h - 1, pos * 2 + 1) else [];
      var ri := if right then EncItems(h2, leaves, match_, h - 1, pos * 2 + 1) else [];
      PartsStand(bits, nb, [true] + lb, rb);
      PartsStand(bits, nb, [true], lb);
      OneStands(bits, nb, true);
      PartsStand(items, nh, li, ri);
      NodeReadsBack(h2, leaves, match_, bits, items, h - 1, pos * 2, nb + 1, nh);
      if right {
        NodeReadsBack(h2, leaves, match_, bits, items, h - 1, pos * 2 + 1, nb + 1 + |lb|, nh + |li|);
      }
      InnerNodeReads(h2, leaves, match_, bits, items, h, pos, nb, nh);
    }
  }

  /** CalcHash at the top is the root of the full tree. */
  lemma TopIsRoot<T>(h2: (T, T) -> T, leaves: seq<T>)
    requires |leaves| > 0
    ensures 0 < Width(|leaves|, Height(|leaves|)) && CalcHash(h2, leaves, Height(|leaves|), 0) == Root(h2, leaves)
  {
    HeightIsFirst(|leaves|);
    CalcHashIsNode(h2, leaves, Height(|leaves|), 0);
  }

  /** Round trip: reading a freshly built partial tree gives the Merkle root and the marked leaves in order,
      and uses up all bits and all hashes. */
  lemma RoundTrip<T>(h2: (T, T) -> T, leaves: seq<T>, match_: seq<bool>)
    requires |leaves| == |match_| > 0
    ensures var h := Height(|leaves|);
            && 0 < Width(|leaves|, h)
            && var bits, items := EncBits(match_, h, 0), EncItems(h2, leaves, match_, h, 0);
               Extract(h2, bits, items, |leaves|, h, 0, 0, 0)
               == Ok(Reading(Root(h2, leaves), |bits|, |items|, Marked(leaves, match_, 0, |leaves|)))
  {
    hide Width, Pow, Marked, Extract, CalcHash;
    var n, h := |leaves|, Height(|leaves|);
    TopIsRoot(h2, leaves);
    var bits, items := EncBits(match_, h, 0), EncItems(h2, leaves, match_, h, 0);
    assert bits[0..0 + |bits|] == bits && items[0..0 + |items|] == items;
    NodeReadsBack(h2, leaves, match_, bits, items, h, 0, 0, 0);
    HeightIsLog(n);
    assert First(h, 0) == 0 && First(h, 1) == Pow(2, h);
  }

  // ---------- soundness

  /** Every reported leaf lies below the node read, and positions are reported in increasing order. */
  lemma {:induction false} MatchedInRange<T>(h2: (T, T) -> T, bits: seq<bool>, items: seq<T>, n: nat, h: nat, pos: nat,
                                             nb: nat, nh: nat)
    requires pos < Width(n, h) && Extract(h2, bits, items, n, h, pos, nb, nh).Ok?
    ensures var m := Extract(h2, bits, items, n, h, pos, nb, nh).value.matched;
            && (forall i | 0 <= i < |m| :: First(h, pos) <= m[i].0 < Last(n, h, pos))
            && (forall i, j | 0 <= i < j < |m| :: m[i].0 < m[j].0)
    decreases h
  {
    hide Width, Pow, First, Last;
    if h == 0 {
      LeafRange(n, pos);
    } else if bits[nb] {
      ChildRanges(n, h, pos);
      MatchedInRange(h2, bits, items, n, h - 1, pos * 2, nb + 1, nh);
      var l := Extract(h2, bits, items, n, h - 1, pos * 2, nb + 1, nh).value;
      if pos * 2 + 1 < Width(n, h - 1) {
        MatchedInRange(h2, bits, items, n, h - 1, pos * 2 + 1, l.bits, l.items);
      }
    }
  }

  /** Soundness: with a collision-free h2, whatever bits and hashes lead to the true hash of a node,
      every hash reported as matched is the leaf at its position. */
  lemma {:induction false} MatchedAreLeaves<T(!new)>(h2: (T, T) -> T, leaves: seq<T>, bits: seq<bool>, items: seq<T>,
                                                     h: nat, pos: nat, nb: nat, nh: nat)
    requires Injective(h2) && pos < Width(|leaves|, h)
    requires var r := Extract(h2, bits, items, |leaves|, h, pos, nb, nh); r.Ok? && r.value.hash == CalcHash(h2, leaves, h, pos)
    ensures forall m | m in Extract(h2, bits, items, |leaves|, h, pos, nb, nh).value.matched :: m.0 < |leaves| && leaves[m.0] == m.1
    decreases h
  {
    hide Width, Pow;
    if h == 0 {
      WidthZero(|leaves|);
    } else if bits[nb] {
      WidthStep(|leaves|, h - 1);
      var l := Extract(h2, bits, items, |leaves|, h - 1, pos * 2, nb + 1, nh).value;
      MatchedAreLeaves(h2, leaves, bits, items, h - 1, pos * 2, nb + 1, nh);
      if pos * 2 + 1 < Width(|leaves|, h - 1) {
        MatchedAreLeaves(h2, leaves, bits, items, h - 1, pos * 2 + 1, l.bits, l.items);
      }
    }
  }

  /** The same at the top: a reading that arrives at the Merkle root reports only leaves of that tree. */
  lemma ExtractionIsSound<T(!new)>(h2: (T, T) -> T, leaves: seq<T>, bits: seq<bool>, items: seq<T>)
    requires Injective(h2) && |leaves| > 0
    requires var r := Extract(h2, bits, items, |leaves|, Height(|leaves|), 0, 0, 0); r.Ok? && r.value.hash == Root(h2, leaves)
    ensures forall m | m in Extract(h2, bits, items, |leaves|, Height(|leaves|), 0, 0, 0).value.matched ::
              m.0 < |leaves| && leaves[m.0] == m.1
  {
    TopIsRoot(h2, leaves);
    MatchedAreLeaves(h2, leaves, bits, items, Height(|leaves|), 0, 0, 0);
  }

  // ---------- the class

  class PartialMerkleTree<T> {
    var Bitset: seq<bool>
    var NItems: nat
    var Items: seq<T>
    const h2: (T, T) -> T

    constructor (h2: (T, T) -> T, nItems: nat)
      ensures this.h2 == h2 && NItems == nItems && Bitset == [] && Items == []
    {
      this.h2, NItems, Bitset, Items := h2, nItems, [], [];
    }

    /** The first height with at most one node, found by counting up. */
    method CalcTreeHeight() returns (r: nat)
      ensures r == Height(NItems)
    {
      hide Width;
      HeightIsFirst(NItems);
      r := 0;
      while Width(NItems, r) > 1
        invariant r <= Height(NItems)
        decreases Height(NItems) - r
      {
        r := r + 1;
      }
    }

    method AddHash(height: nat, pos: nat, ar: seq<T>)
      requires |ar| == NItems && pos < Width(NItems, height)
      modifies this`Items
      ensures Items == old(Items) + [CalcHash(h2, ar, height, pos)]
    {
      Items := Items + [CalcHash(h2, ar, height, pos)];
    }

    method TraverseAndBuild(height: nat, pos: nat, ar: seq<T>, vMatch: seq<bool>)
      requires |ar| == |vMatch| == NItems && pos < Width(NItems, height)
      modifies this`Bitset, this`Items
      ensures Bitset == old(Bitset) + EncBits(vMatch, height, pos)
      ensures Items == old(Items) + EncItems(h2, ar, vMatch, height, pos)
      decreases height
    {
      hide Width, Pow, CalcHash, EncBits, EncItems, First, Last;
      RangeDef(NItems, height, pos);
      var fParentOfMatch := false;
      var p := pos * Pow(2, height);
      ghost var lo := p;
      while p < (pos + 1) * Pow(2, height) && p < NItems
        invariant lo <= p && (p > lo ==> p <= Last(NItems, height, pos))
        invariant fParentOfMatch <==> p <= NItems && AnyMarked(vMatch, lo, p)
      {
        fParentOfMatch := fParentOfMatch || vMatch[p];
        p := p + 1;
      }
      WidthMeaning(NItems, height, pos);
      assert fParentOfMatch == HasMatch(vMatch, height, pos);
      Bitset := Bitset + [fParentOfMatch];
      if height == 0 || !fParentOfMatch {
        EncStored(h2, ar, vMatch, height, pos);
        AddHash(height, pos, ar);
      } else {
        EncInner(h2, ar, vMatch, height, pos);
        TraverseAndBuild(height - 1, pos * 2, ar, vMatch);
        if pos * 2 + 1 < Width(NItems, height - 1) {
          TraverseAndBuild(height - 1, pos * 2 + 1, ar, vMatch);
        }
      }
    }

    /** Reads one node; the counters and the list of matched hashes move on. */
    method TraverseAndExtract(height: nat, pos: nat, nBitsUsed: nat, nHashUsed: nat, vMatch: seq<T>)
      returns (hash: Outcome<T>, nBits: nat, nHash: nat, found: seq<T>)
      ensures var r := Extract(h2, Bitset, Items, NItems, height, pos, nBitsUsed, nHashUsed);
              if r.Fail? then hash.Fail? else
                hash == Ok(r.value.hash) && nBits == r.value.bits && nHash == r.value.items
                && found == vMatch + Hashes(r.value.matched)
      decreases height
    {
      hide Width;
      nBits, nHash, found := nBitsUsed, nHashUsed, vMatch;
      if nBits >= |Bitset| {
        return Fail, nBits, nHash, found;
      }
      var fParentOfMatch := Bitset[nBits];
      nBits := nBits + 1;
      if height == 0 || !fParentOfMatch {
        if nHash >= |Items| {
          return Fail, nBits, nHash, found;
        }
        hash := Ok(Items[nHash]);
        nHash := nHash + 1;
        if height == 0 && fParentOfMatch {
          found := found + [hash.value];
        }
      } else {
        var left, right: Outcome<T>;
        left, nBits, nHash, found := TraverseAndExtract(height - 1, pos * 2, nBits, nHash, found);
        if left.Fail? {
          return Fail, nBits, nHash, found;
        }
        right := left;
        if pos * 2 + 1 < Width(NItems, height - 1) {
          right, nBits, nHash, found := TraverseAndExtract(height - 1, pos * 2 + 1, nBits, nHash, found);
          if right.Fail? {
            return Fail, nBits, nHash, found;
          }
        }
        hash := Ok(h2(left.value, right.value));
      }
    }
  }

  ghost function Hashes<T>(m: seq<(nat, T)>): (r: seq<T>)
    ensures |r| == |m|
  {
    seq(|m|, i requires 0 <= i < |m| => m[i].1)
  }

  /** Build, then read back: the root, and the marked leaves. */
  method BuildAndExtract<T>(h2: (T, T) -> T, leaves: seq<T>, vMatch: seq<bool>)
    returns (tree: PartialMerkleTree<T>, root: T, found: seq<T>)
    requires |leaves| == |vMatch| > 0
    ensures root == Root(h2, leaves) && found == Hashes(Marked(leaves, vMatch, 0, |leaves|))
  {
    tree := new PartialMerkleTree(h2, |leaves|);
    var height := tree.CalcTreeHeight();
    HeightIsFirst(|leaves|);
    tree.TraverseAndBuild(height, 0, leaves, vMatch);
    assert tree.Bitset == EncBits(vMatch, height, 0) && tree.Items == EncItems(h2, leaves, vMatch, height, 0);
    RoundTrip(h2, leaves, vMatch);
    var hash, nBits, nHash, matched := tree.TraverseAndExtract(height, 0, 0, 0, []);
    root, found := hash.value, matched;
  }
}
