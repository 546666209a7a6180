/** Exclusive or of byte strings. */
module XorBytes {
  import opened ByteBuffers
  import opened GaloisField

  function XorBlocks(a: seq<bv8>, b: seq<bv8>): seq<bv8>
    requires |a| == |b|
  {
    seq(|a|, i requires 0 <= i < |a| => Xor(a[i], b[i]))
  }

  lemma XorBlocksTwice(a: seq<bv8>, b: seq<bv8>)
    requires |a| == |b|
    ensures XorBlocks(XorBlocks(a, b), b) == a && XorBlocks(XorBlocks(a, b), a) == b
  {
    hide Xor;
    forall i | 0 <= i < |a| ensures Xor(Xor(a[i], b[i]), b[i]) == a[i] && Xor(Xor(a[i], b[i]), a[i]) == b[i] {
      XorCancels(a[i], b[i]);
      XorCancels(b[i], a[i]);
      XorCommutes(a[i], b[i]);
    }
  }

  lemma XorLength(a: seq<bv8>, b: seq<bv8>)
    requires |a| == |b|
    ensures |XorBlocks(a, b)| == |a|
  {}

  lemma XorBothWays(a: seq<bv8>, b: seq<bv8>)
    requires |a| == |b|
    ensures XorBlocks(a, XorBlocks(a, b)) == b
  {
    hide Xor;
    forall i | 0 <= i < |a| ensures Xor(a[i], Xor(a[i], b[i])) == b[i] {
      XorCancels(b[i], a[i]);
      XorCommutes(a[i], b[i]);
      XorCommutes(a[i], Xor(a[i], b[i]));
    }
  }

  lemma XorZeroes(a: seq<bv8>, b: seq<bv8>)
    requires |a| == |b|
    ensures XorBlocks(a, b) == b <==> a == Zeroes(|a|)
  {
    hide Xor;
    forall i | 0 <= i < |a| ensures Xor(a[i], b[i]) == b[i] <==> a[i] == 0 {
      XorCancels(a[i], b[i]);
      XorCancels(b[i], b[i]);
      XorZero(b[i]);
      XorCommutes(b[i], 0);
      XorCommutes(a[i], b[i]);
    }
    if XorBlocks(a, b) == b {
      forall i | 0 <= i < |a| ensures a[i] == 0 {
        assert XorBlocks(a, b)[i] == b[i];
      }
    }
  }

  lemma SameXor(a: seq<bv8>, b: seq<bv8>, x: seq<bv8>, q: seq<bv8>)
    requires |a| == |b| == |x| == |q|
    requires XorBlocks(a, x) == q && XorBlocks(b, q) == x
    ensures a == b
  {
    XorBlocksTwice(a, x);
    XorBlocksTwice(b, q);
    assert XorBlocks(q, x) == a && XorBlocks(x, q) == b;
    XorBlocksCommute(q, x);
  }

  lemma XorBlocksCommute(a: seq<bv8>, b: seq<bv8>)
    requires |a| == |b|
    ensures XorBlocks(a, b) == XorBlocks(b, a)
  {
    hide Xor;
    forall i | 0 <= i < |a| ensures Xor(a[i], b[i]) == Xor(b[i], a[i]) {
      XorCommutes(a[i], b[i]);
    }
  }

  lemma XorConcat(a: seq<bv8>, b: seq<bv8>, c: seq<bv8>, d: seq<bv8>)
    requires |a| == |b| && |c| == |d|
    ensures XorBlocks(a, b) + XorBlocks(c, d) == XorBlocks(a + c, b + d)
  {
    hide Xor;
  }

  /** Adds s to the bytes of the buffer from place `at` on. */
  method XorAt(d: array<bv8>, at: nat, s: seq<bv8>)
    requires at + |s| <= d.Length
    modifies d
    ensures d[..] == Stored(old(d[..]), at, XorBlocks(old(d[at..at + |s|]), s))
  {
    var c := |s|;
    while c > 0
      invariant 0 <= c <= |s|
      invariant forall i | 0 <= i < d.Length && !(at + c <= i < at + |s|) :: d[i] == old(d[..])[i]
      invariant forall i | at + c <= i < at + |s| :: d[i] == Xor(old(d[..])[i], s[i - at])
    {
      c := c - 1;
      d[at + c] := Xor(d[at + c], s[c]);
    }
  }

  /** VectorXor of two blocks. */
  method XorWith(d: array<bv8>, s: seq<bv8>)
    requires d.Length == |s|
    modifies d
    ensures d[..] == XorBlocks(old(d[..]), s)
  {
    assert d[0..|s|] == d[..];
    XorAt(d, 0, s);
  }
}
