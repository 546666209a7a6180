/** IntrusiveList: a circular doubly linked list through the elements themselves, with a sentinel inside the list object. */
module IntrusiveLists {
  import opened Sequences

  class Node {
    var Next: Node?
    var Prev: Node?

    constructor () {
      Next, Prev := null, null;
    }
  }

  function Up(i: nat, n: nat): (r: nat)
    requires i < n
    ensures r < n
  {
    if i + 1 == n then 0 else i + 1
  }

  /** Next and Prev go round the ring, each undoing the other. */
  ghost predicate Linked(ring: seq<Node>)
    reads ring
  {
    forall i | 0 <= i < |ring| :: ring[i].Next == ring[Up(i, |ring|)] && ring[Up(i, |ring|)].Prev == ring[i]
  }

  /** x placed before position `at`. */
  function Inserted(s: seq<Node>, at: nat, x: Node): (r: seq<Node>)
    requires at <= |s|
    ensures |r| == |s| + 1
  {
    s[..at] + [x] + s[at..]
  }

  function Erased(s: seq<Node>, at: nat): (r: seq<Node>)
    requires at < |s|
    ensures |r| == |s| - 1
  {
    s[..at] + s[at + 1..]
  }

  /** Element f moved before the element that stood at position w; w is the length for the end. */
  function Moved(s: seq<Node>, f: nat, w: nat): (r: seq<Node>)
    requires f < |s| && w <= |s|
  {
    if w <= f then s[..w] + [s[f]] + s[w..f] + s[f + 1..]
    else s[..f] + s[f + 1..w] + [s[f]] + s[w..]
  }

  class IntrusiveList {
    const base: Node
    var m_size: nat
    ghost var elements: seq<Node>

    /** The sentinel and then the elements. */
    ghost function Ring(): seq<Node>
      reads this
    {
      [base] + elements
    }

    ghost predicate Valid()
      reads this, Ring()
    {
      && m_size == |elements|
      && NoDup(Ring())
      && Linked(Ring())
    }

    /** The node an iterator at position k points to: the sentinel stands for the end. */
    ghost function At(k: nat): Node
      requires k <= |elements|
      reads this
    {
      if k < |elements| then elements[k] else base
    }

    constructor ()
      ensures Valid() && fresh(base) && elements == []
    {
      base := new Node();
      m_size, elements := 0, [];
      new;
      base.Prev, base.Next := base, base;
    }

    method Empty() returns (r: bool)
      requires Valid()
      ensures r <==> elements == []
    {
      assert Ring()[0] == base;
      if elements != [] {
        assert Ring()[1] == elements[0];
      }
      r := base.Next == base;
    }

    /** insert: v goes before the element the iterator points to. */
    method Insert(it: Node, v: Node, ghost k: nat)
      requires Valid() && k <= |elements| && it == At(k) && v !in Ring()
      modifies this, Ring(), v
      ensures Valid() && elements == Inserted(old(elements), k, v)
    {
      hide Linked, NoDup, Up, Inserted;
      ghost var ring := Ring();
      Neighbours(ring, k);
      AllLinks(ring);
      Distinct(ring, k);
      var p := it.Prev;
      it.Prev := v;
      v.Prev := p;
      v.Next := it;
      p.Next := v;
      LinkedAfterInsert(ring, k + 1, v);
      NoDupAfterInsert(ring, k + 1, v);
      m_size := m_size + 1;
      elements := Inserted(elements, k, v);
      RingInserted(base, old(elements), k, v);
    }

    /** erase: the neighbours of the element are joined. Its own links are left as they are. */
    method Erase(it: Node, ghost k: nat)
      requires Valid() && k < |elements| && it == elements[k]
      modifies this, Ring()
      ensures Valid() && elements == Erased(old(elements), k)
    {
      hide Linked, NoDup, Up, Erased;
      ghost var ring := Ring();
      Neighbours(ring, k);
      AllLinks(ring);
      Distinct(ring, k);
      Distinct(ring, k + 1);
      var n, p := it.Next, it.Prev;
      p.Next := n;
      n.Prev := p;
      LinkedAfterErase(ring, k + 1);
      NoDupAfterErase(ring, k + 1);
      m_size := m_size - 1;
      elements := Erased(elements, k);
      RingErased(base, old(elements), k);
    }

    method PushBack(v: Node)
      requires Valid() && v !in Ring()
      modifies this, Ring(), v
      ensures Valid() && elements == old(elements) + [v]
    {
      Insert(base, v, |elements|);
      assert Inserted(old(elements), |old(elements)|, v) == old(elements) + [v];
    }

    /** splice from another list: its element at position f comes before this list's position w. */
    method SpliceFrom(where: Node, right: IntrusiveList, first: Node, ghost w: nat, ghost f: nat)
      requires Valid() && w <= |elements| && where == At(w)
      requires right != this && right.Valid() && f < |right.elements| && first == right.elements[f]
      requires forall x <- Ring() :: x !in right.Ring()
      modifies this, Ring(), right, right.Ring()
      ensures Valid() && elements == Inserted(old(elements), w, first)
      ensures right.Valid() && right.elements == Erased(old(right.elements), f)
    {
      hide NoDup, Inserted, Erased;
      ghost var ring := right.Ring();
      assert ring[f + 1] == first;
      OutAfterErase(ring, f + 1);
      assert first in ring && first !in Ring();
      assert forall i | 0 <= i < |Ring()| :: Ring()[i] in Ring();
      right.Erase(first, f);
      RingErased(right.base, old(right.elements), f);
      ErasedWithin(ring, f + 1);
      Insert(where, first, w);
    }

    /** splice within the list: the element at position f moves before the one at position w. */
    method SpliceWithin(where: Node, first: Node, ghost w: nat, ghost f: nat)
      requires Valid() && w <= |elements| && where == At(w)
      requires f < |elements| && first == elements[f]
      modifies this, Ring()
      ensures Valid() && elements == Moved(old(elements), f, w)
    {
      hide Linked, NoDup, Inserted, Erased, Moved;
      ghost var s, ring := elements, Ring();
      Neighbours(ring, f);
      SamePlace(ring, f + 1, if w < |s| then w + 1 else 0);
      SamePlace(ring, if f + 2 < |ring| then f + 2 else 0, if w < |s| then w + 1 else 0);
      var last := first.Next;
      if where != first && where != last {
        OutAfterErase(ring, f + 1);
        ErasedWithin(ring, f + 1);
        assert first == ring[f + 1];
        RingErased(base, s, f);
        Erase(first, f);
        ErasedAt(s, f, w);
        Insert(where, first, if w < f then w else w - 1);
      }
      MovedIs(s, f, w);
    }

    /** clear: the elements are let go without being touched. */
    method Clear()
      requires Valid()
      modifies this, base
      ensures Valid() && elements == []
    {
      m_size, elements := 0, [];
      base.Prev, base.Next := base, base;
    }
  }

  // ---------- rings

  /** The neighbours of position k + 1 as the links give them. */
  lemma Neighbours(ring: seq<Node>, k: nat)
    requires |ring| > k && Linked(ring)
    ensures var n := |ring|; var it := ring[if k + 1 < n then k + 1 else 0];
            it.Prev == ring[k] && (k + 1 < n ==> it.Next == ring[if k + 2 < n then k + 2 else 0])
  {
    var n := |ring|;
    assert ring[Up(k, n)].Prev == ring[k];
    if k + 1 < n {
      assert ring[k + 1].Next == ring[Up(k + 1, n)];
    }
  }

  lemma AllLinks(ring: seq<Node>)
    requires Linked(ring)
    ensures forall j | 0 <= j < |ring| :: ring[j].Next == ring[Up(j, |ring|)] && ring[Up(j, |ring|)].Prev == ring[j]
  {}

  /** The nodes of the ring are told apart from the one at position k and the one after next. */
  lemma Distinct(ring: seq<Node>, k: nat)
    requires NoDup(ring) && k < |ring|
    ensures forall j | 0 <= j < |ring| :: ring[j] == ring[k] <==> j == k
    ensures forall j | 0 <= j < |ring| :: ring[Up(j, |ring|)] == ring[Up(k, |ring|)] <==> j == k
    ensures Up(k, |ring|) == if k + 1 < |ring| then k + 1 else 0
  {
    forall j | 0 <= j < |ring| ensures Up(j, |ring|) == Up(k, |ring|) <==> j == k {
    }
  }

  lemma RingInserted(b: Node, s: seq<Node>, k: nat, v: Node)
    requires k <= |s|
    ensures [b] + Inserted(s, k, v) == Inserted([b] + s, k + 1, v)
  {}

  lemma RingErased(b: Node, s: seq<Node>, k: nat)
    requires k < |s|
    ensures [b] + Erased(s, k) == Erased([b] + s, k + 1)
  {}

  lemma OutAfterErase(s: seq<Node>, at: nat)
    requires NoDup(s) && at < |s|
    ensures s[at] !in Erased(s, at)
  {}

  lemma ErasedWithin(s: seq<Node>, at: nat)
    requires at < |s|
    ensures forall i | 0 <= i < |Erased(s, at)| :: Erased(s, at)[i] in s
  {}

  lemma SamePlace(s: seq<Node>, i: nat, j: nat)
    requires NoDup(s) && i < |s| && j < |s|
    ensures s[i] == s[j] <==> i == j
  {}

  /** Where an element stands once another one is gone. */
  lemma ErasedAt(s: seq<Node>, f: nat, w: nat)
    requires f < |s| && w <= |s| && w != f
    ensures w < |s| ==> Erased(s, f)[if w < f then w else w - 1] == s[w]
  {}

  lemma MovedIs(s: seq<Node>, f: nat, w: nat)
    requires f < |s| && w <= |s|
    ensures Moved(s, f, w) == if w == f || w == f + 1 then s else Inserted(Erased(s, f), if w < f then w else w - 1, s[f])
  {
    hide Erased;
    if w < f {
      ErasedAround(s, f, w);
      assert Moved(s, f, w) == s[..w] + [s[f]] + (s[w..f] + s[f + 1..]);
    } else if w > f + 1 {
      ErasedAround(s, f, w - 1);
      assert Moved(s, f, w) == s[..f] + s[f + 1..w] + [s[f]] + s[w..];
    } else {
      hide *;
      MovedNowhere(s, f, w);
    }
  }

  lemma MovedNowhere(s: seq<Node>, f: nat, w: nat)
    requires f < |s| && (w == f || w == f + 1)
    ensures Moved(s, f, w) == s
  {}

  /** A sequence without its element f, in two parts. */
  lemma ErasedAround(s: seq<Node>, f: nat, k: nat)
    requires f < |s| && k < |s|
    ensures k <= f ==> Erased(s, f)[..k] == s[..k] && Erased(s, f)[k..] == s[k..f] + s[f + 1..]
    ensures k >= f ==> Erased(s, f)[..k] == s[..f] + s[f + 1..k + 1] && Erased(s, f)[k..] == s[k + 1..]
  {}

  lemma NoDupAfterInsert(ring: seq<Node>, at: nat, v: Node)
    requires NoDup(ring) && v !in ring && at <= |ring|
    ensures NoDup(Inserted(ring, at, v))
  {}

  lemma NoDupAfterErase(ring: seq<Node>, at: nat)
    requires NoDup(ring) && at < |ring|
    ensures NoDup(Erased(ring, at))
  {}

  /** If exactly the two links round the gap lead to v, v closes it. */
  lemma LinkedAfterInsert(ring: seq<Node>, at: nat, v: Node)
    requires 0 < at <= |ring|
    requires forall j | 0 <= j < |ring| :: ring[j].Next == if j == at - 1 then v else ring[Up(j, |ring|)]
    requires forall j | 0 <= j < |ring| :: ring[Up(j, |ring|)].Prev == if j == at - 1 then v else ring[j]
    requires v.Prev == ring[at - 1] && v.Next == ring[Up(at - 1, |ring|)]
    ensures Linked(Inserted(ring, at, v))
  {
    var s, n := Inserted(ring, at, v), |ring|;
    forall q | 0 <= q < n + 1 ensures s[q].Next == s[Up(q, n + 1)] && s[Up(q, n + 1)].Prev == s[q] {
      var j := if q < at then q else q - 1;
      assert s[q] == if q < at then ring[q] else if q == at then v else ring[j];
      var u := Up(q, n + 1);
      assert s[u] == if u < at then ring[u] else if u == at then v else ring[u - 1];
      assert ring[j].Next == if j == at - 1 then v else ring[Up(j, n)];
    }
  }

  /** If exactly the two links round an element pass it by, it is out of the ring. */
  lemma LinkedAfterErase(ring: seq<Node>, at: nat)
    requires 0 < at < |ring|
    requires forall j | 0 <= j < |ring| && j != at :: ring[j].Next == if j == at - 1 then ring[Up(at, |ring|)] else ring[Up(j, |ring|)]
    requires forall j | 0 <= j < |ring| && j != at - 1 :: ring[Up(j, |ring|)].Prev == if j == at then ring[at - 1] else ring[j]
    ensures Linked(Erased(ring, at))
  {
    var s, n := Erased(ring, at), |ring|;
    forall q | 0 <= q < n - 1 ensures s[q].Next == s[Up(q, n - 1)] && s[Up(q, n - 1)].Prev == s[q] {
      var j := if q < at then q else q + 1;
      assert s[q] == ring[j];
      var u := Up(q, n - 1);
      assert s[u] == ring[if u < at then u else u + 1];
      assert ring[Up(if j == at - 1 then at else j, n)].Prev == ring[j];
    }
  }
}
