/** The memory-hard mixing of scrypt and NeoScrypt: in-place block mixing and a stored table, against RFC 7914. */
module ScryptMix {
  import opened ByteBuffers
  import opened Numbers
  import opened Positional
  import opened Words32

  type Block = seq<bv32>

  /** The Salsa20 or ChaCha20 core with its number of rounds. */
  type Core = Block -> Block

  ghost predicate KeepsBlocks(f: Core) {
    forall b {:trigger f(b)} :: |b| == 16 ==> |f(b)| == 16
  }

  ghost predicate AreBlocks(b: seq<Block>) {
    forall i | 0 <= i < |b| :: |b[i]| == 16
  }

  function XorBlock(a: Block, b: Block): (c: Block)
    requires |a| == |b|
    ensures |c| == |a|
  {
    seq(|a|, i requires 0 <= i < |a| => Xor32(a[i], b[i]))
  }

  lemma XorBlockCommutes(a: Block, b: Block)
    requires |a| == |b|
    ensures XorBlock(a, b) == XorBlock(b, a)
  {}

  function XorAll(a: seq<Block>, b: seq<Block>): (c: seq<Block>)
    requires |a| == |b| && AreBlocks(a) && AreBlocks(b)
    ensures |c| == |a| && AreBlocks(c)
  {
    seq(|a|, i requires 0 <= i < |a| => XorBlock(a[i], b[i]))
  }

  // ---------- scryptBlockMix, section 4

  /** X after i blocks; before the first it is the last block. */
  function Chained(f: Core, b: seq<Block>, i: nat): (x: Block)
    requires KeepsBlocks(f) && AreBlocks(b) && |b| > 0 && i <= |b|
    ensures |x| == 16
  {
    if i == 0 then b[|b| - 1] else f(XorBlock(Chained(f, b, i - 1), b[i - 1]))
  }

  /** Which Y goes to place p: the even ones first, then the odd ones. */
  function Source(p: nat, r: nat): (i: nat)
    requires p < 2 * r
    ensures i < 2 * r
  {
    if p < r then 2 * p else 2 * (p - r) + 1
  }

  function BlockMix(f: Core, b: seq<Block>, r: nat): (c: seq<Block>)
    requires KeepsBlocks(f) && AreBlocks(b) && |b| == 2 * r && r > 0
    ensures |c| == 2 * r && AreBlocks(c)
  {
    seq(2 * r, p requires 0 <= p < 2 * r => Chained(f, b, Source(p, r) + 1))
  }

  /** Where VectorMix puts the i-th result. */
  function Target(i: nat, r: nat): (p: nat)
    requires i < 2 * r
    ensures p < 2 * r
  {
    (i % 2) * r + i / 2
  }

  lemma Targets(i: nat, p: nat, r: nat)
    requires i < 2 * r && p < 2 * r
    ensures Target(i, r) == p <==> Source(p, r) == i
  {
    if i % 2 == 0 {
      assert Target(i, r) == i / 2;
    } else {
      assert Target(i, r) == r + i / 2;
    }
  }

  method VectorMix(pfn: Core, x: array<Block>, tmp: array<Block>, r: nat)
    requires KeepsBlocks(pfn) && r > 0 && x.Length == 2 * r && tmp.Length >= 2 * r && x != tmp && AreBlocks(x[..])
    modifies x, tmp
    ensures AreBlocks(old(x[..])) && x[..] == BlockMix(pfn, old(x[..]), r)
  {
    hide Xor32, Target, Source, XorBlock, BlockMix, Chained;
    ghost var b := x[..];
    ChainedFirst(pfn, b);
    var mask := 2 * r - 1;
    var prev := x[mask];
    var i := 0;
    while i <= mask
      invariant 0 <= i <= 2 * r && AreBlocks(b) && prev == Chained(pfn, b, i)
      invariant forall j | i <= j < 2 * r :: x[j] == b[j]
      invariant forall p | 0 <= p < 2 * r && Source(p, r) < i :: tmp[p] == Chained(pfn, b, Source(p, r) + 1)
    {
      XorBlockCommutes(x[i], prev);
      ChainedNext(pfn, b, i);
      x[i] := XorBlock(x[i], prev);
      prev := pfn(x[i]);
      tmp[Target(i, r)] := prev;
      forall p | 0 <= p < 2 * r ensures Target(i, r) == p <==> Source(p, r) == i {
        Targets(i, p, r);
      }
      i := i + 1;
    }
    MixedWhole(pfn, b, r, tmp[..2 * r]);
    StoredWhole(x[..], tmp[..2 * r]);
    Store(x, 0, tmp[..2 * r]);
  }

  lemma ChainedFirst(f: Core, b: seq<Block>)
    requires KeepsBlocks(f) && AreBlocks(b) && |b| > 0
    ensures Chained(f, b, 0) == b[|b| - 1]
  {}

  lemma ChainedNext(f: Core, b: seq<Block>, i: nat)
    requires KeepsBlocks(f) && AreBlocks(b) && i < |b|
    ensures |b[i]| == 16 && Chained(f, b, i + 1) == f(XorBlock(Chained(f, b, i), b[i]))
  {}

  lemma MixedWhole(f: Core, b: seq<Block>, r: nat, y: seq<Block>)
    requires KeepsBlocks(f) && AreBlocks(b) && |b| == |y| == 2 * r && r > 0
    requires forall p | 0 <= p < 2 * r :: y[p] == Chained(f, b, Source(p, r) + 1)
    ensures y == BlockMix(f, b, r)
  {
    hide Chained, Source;
  }

  // ---------- scryptROMix, section 5

  /** V_i: i block mixes of B. */
  function V(f: Core, b: seq<Block>, r: nat, i: nat): (v: seq<Block>)
    requires KeepsBlocks(f) && AreBlocks(b) && |b| == 2 * r && r > 0
    ensures |v| == 2 * r && AreBlocks(v)
  {
    if i == 0 then b else BlockMix(f, V(f, b, r, i - 1), r)
  }

  /** Integerify(X) mod N, from the first word of the last block. */
  function Index(x: seq<Block>, n: nat): (j: nat)
    requires |x| > 0 && AreBlocks(x) && n > 0
    ensures j < n
  {
    (x[|x| - 1][0] as int) % n
  }

  /** The index as the code takes it from the word: masked with n - 1. */
  function MaskedIndex(w: bv32, n: nat): nat
    requires n > 0
  {
    BitAnd(w as int, n - 1)
  }

  lemma MaskedIndexIs(x: seq<Block>, n: nat)
    requires |x| > 0 && AreBlocks(x) && IsPowerOfTwo(n) && n > 0
    ensures MaskedIndex(x[|x| - 1][0], n) == Index(x, n)
  {
    var k: nat :| n == Pow(2, k);
    MaskIsRemainder(x[|x| - 1][0] as int, k);
  }

  /** X after i turns of the second loop, with V recomputed every time. */
  function Turns(f: Core, b: seq<Block>, r: nat, n: nat, i: nat): (x: seq<Block>)
    requires KeepsBlocks(f) && AreBlocks(b) && |b| == 2 * r && r > 0 && n > 0
    ensures |x| == 2 * r && AreBlocks(x)
  {
    if i == 0 then V(f, b, r, n) else
      var x := Turns(f, b, r, n, i - 1);
      BlockMix(f, XorAll(x, V(f, b, r, Index(x, n))), r)
  }

  function RoMix(f: Core, b: seq<Block>, r: nat, n: nat): (x: seq<Block>)
    requires KeepsBlocks(f) && AreBlocks(b) && |b| == 2 * r && r > 0 && n > 0
    ensures |x| == 2 * r && AreBlocks(x)
  {
    Turns(f, b, r, n, n)
  }

  /** VectorXor of 2 r blocks. */
  method XorInto(x: array<Block>, y: seq<Block>)
    requires x.Length == |y| && AreBlocks(x[..]) && AreBlocks(y)
    modifies x
    ensures AreBlocks(old(x[..])) && x[..] == XorAll(old(x[..]), y)
  {
    hide Xor32, XorBlock;
    ghost var b := x[..];
    var i := 0;
    while i < x.Length
      invariant 0 <= i <= x.Length && AreBlocks(b)
      invariant forall j | 0 <= j < x.Length :: x[j] == if j < i then XorBlock(b[j], y[j]) else b[j]
    {
      assert |b[i]| == 16;
      x[i] := XorBlock(x[i], y[i]);
      i := i + 1;
    }
  }

  lemma TurnsFirst(f: Core, b: seq<Block>, r: nat, n: nat)
    requires KeepsBlocks(f) && AreBlocks(b) && |b| == 2 * r && r > 0 && n > 0
    ensures Turns(f, b, r, n, 0) == V(f, b, r, n)
  {}

  lemma TurnsNext(f: Core, b: seq<Block>, r: nat, n: nat, i: nat)
    requires KeepsBlocks(f) && AreBlocks(b) && |b| == 2 * r && r > 0 && IsPowerOfTwo(n) && n > 0
    ensures var x := Turns(f, b, r, n, i);
            && |x[2 * r - 1]| == 16
            && var j := MaskedIndex(x[2 * r - 1][0], n);
               j < n && Turns(f, b, r, n, i + 1) == BlockMix(f, XorAll(x, V(f, b, r, j)), r)
  {
    hide MaskedIndex, IsPowerOfTwo, BlockMix, XorAll, V;
    MaskedIndexIs(Turns(f, b, r, n, i), n);
  }

  /** The first loop of Scrypt and of NeoScryptCore: the table of V_0, V_1, ... */
  method FillTable(pfn: Core, x: array<Block>, tmp: array<Block>, v: array<seq<Block>>, r: nat, n: nat)
    requires KeepsBlocks(pfn) && r > 0 && x.Length == 2 * r && tmp.Length >= 2 * r && x != tmp
    requires v.Length >= n && AreBlocks(x[..]) && v as object != x as object && v as object != tmp as object
    modifies x, tmp, v
    ensures AreBlocks(old(x[..])) && x[..] == V(pfn, old(x[..]), r, n)
    ensures forall j | 0 <= j < n :: v[j] == V(pfn, old(x[..]), r, j)
  {
    hide BlockMix, AreBlocks;
    ghost var b := x[..];
    var i := 0;
    while i < n
      invariant 0 <= i <= n && AreBlocks(b) && x[..] == V(pfn, b, r, i)
      invariant forall j | 0 <= j < i :: v[j] == V(pfn, b, r, j)
    {
      v[i] := x[..];
      VectorMix(pfn, x, tmp, r);
      i := i + 1;
    }
  }

  /** Both loops: the second mixes with entries of the table, chosen by the mixed data. */
  method Mix(pfn: Core, x: array<Block>, tmp: array<Block>, v: array<seq<Block>>, r: nat, n: nat)
    requires KeepsBlocks(pfn) && r > 0 && n > 0 && x.Length == 2 * r && tmp.Length >= 2 * r && x != tmp
    requires IsPowerOfTwo(n) && v.Length >= n && AreBlocks(x[..]) && v as object != x as object && v as object != tmp as object
    modifies x, tmp, v
    ensures AreBlocks(old(x[..])) && x[..] == RoMix(pfn, old(x[..]), r, n)
  {
    hide BlockMix, XorAll, AreBlocks, MaskedIndex, IsPowerOfTwo, V, Turns;
    ghost var b := x[..];
    TurnsFirst(pfn, b, r, n);
    FillTable(pfn, x, tmp, v, r, n);
    var i := 0;
    while i < n
      invariant 0 <= i <= n && AreBlocks(b) && x[..] == Turns(pfn, b, r, n, i)
      invariant forall j | 0 <= j < n :: v[j] == V(pfn, b, r, j)
    {
      TurnsNext(pfn, b, r, n, i);
      var j := MaskedIndex(x[2 * r - 1][0], n);
      XorInto(x, v[j]);
      VectorMix(pfn, x, tmp, r);
      i := i + 1;
    }
  }

  /** NeoScryptCore: with double mixing, the Salsa20 result and the ChaCha20 result added up. */
  method NeoScryptCore(salsa: Core, chacha: Core, x: array<Block>, tmp: array<Block>, v: array<seq<Block>>, r: nat, n: nat,
                       dblmix: bool)
    requires KeepsBlocks(salsa) && KeepsBlocks(chacha) && r > 0 && n > 0 && x.Length == 2 * r && tmp.Length >= 2 * r && x != tmp
    requires IsPowerOfTwo(n) && v.Length >= n && AreBlocks(x[..]) && v as object != x as object && v as object != tmp as object
    modifies x, tmp, v
    ensures AreBlocks(old(x[..]))
    ensures var b := old(x[..]);
            x[..] == if dblmix then XorAll(RoMix(salsa, b, r, n), RoMix(chacha, b, r, n)) else RoMix(salsa, b, r, n)
  {
    hide RoMix, XorAll, AreBlocks, KeepsBlocks, IsPowerOfTwo;
    ghost var b := x[..];
    var z := new Block[2 * r];
    if dblmix {
      StoredWhole(z[..], x[..]);
      Store(z, 0, x[..]);
      Mix(chacha, z, tmp, v, r, n);
    }
    Mix(salsa, x, tmp, v, r, n);
    if dblmix {
      XorInto(x, z[..]);
    }
  }
}
