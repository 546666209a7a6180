/** NeoScrypt's FastKDF: buffers with a mirrored tail, against the same derivation on plain cyclic buffers. */
module FastKdf {
  import opened Positional
  import opened ByteBuffers
  import opened GaloisField
  import opened XorBytes

  const SIZE: nat := 256
  const INPUT: nat := 64
  const KEY: nat := 32
  const OUT: nat := 32

  /** The pseudorandom function: keyed BLAKE2s of 64 bytes under 32 bytes, with 32 bytes of output. */
  type Prf = (seq<bv8>, seq<bv8>) -> seq<bv8>

  ghost predicate IsPrf(prf: Prf) {
    forall x, k {:trigger prf(x, k)} :: |x| == INPUT && |k| == KEY ==> |prf(x, k)| == OUT
  }

  // ---------- the derivation on cyclic buffers

  function Wrap(k: nat): (r: nat)
    ensures r < SIZE
  {
    k % SIZE
  }

  /** A buffer filled with repetitions of p, of which at most SIZE bytes count. */
  function Filled(p: seq<bv8>): (b: seq<bv8>)
    requires |p| > 0
    ensures |b| == SIZE
  {
    var n := if |p| > SIZE then SIZE else |p|;
    seq(SIZE, k requires 0 <= k < SIZE => p[k % n])
  }

  /** n bytes of the buffer, read round its end. */
  function Cyclic(b: seq<bv8>, at: nat, n: nat): (r: seq<bv8>)
    requires |b| == SIZE
    ensures |r| == n
  {
    seq(n, k requires 0 <= k < n => b[Wrap(at + k)])
  }

  /** s added to the buffer from place `at` on, round its end. */
  function CyclicXor(b: seq<bv8>, at: nat, s: seq<bv8>): (r: seq<bv8>)
    requires |b| == SIZE && at < SIZE
    ensures |r| == SIZE
  {
    seq(SIZE, i requires 0 <= i < SIZE =>
      var k := Wrap(i + SIZE - at);
      if k < |s| then Xor(b[i], s[k]) else b[i])
  }

  function Sum(s: seq<bv8>): nat {
    if s == [] then 0 else Sum(s[..|s| - 1]) + s[|s| - 1] as int
  }

  datatype Ring = Ring(b: seq<bv8>, at: nat)

  ghost predicate IsRing(r: Ring) { |r.b| == SIZE && r.at < SIZE }

  /** One iteration: the function's output moves the read position and is added to the salt buffer there. */
  function Turn(prf: Prf, a: seq<bv8>, r: Ring): Ring
    requires |a| == |r.b| == SIZE
  {
    var out := prf(Cyclic(a, r.at, INPUT), Cyclic(r.b, r.at, KEY));
    var at := Wrap(Sum(out));
    Ring(CyclicXor(r.b, at, out), at)
  }

  function Turns(prf: Prf, a: seq<bv8>, b: seq<bv8>, n: nat): (r: Ring)
    requires |a| == |b| == SIZE
    ensures IsRing(r)
  {
    if n == 0 then Ring(b, 0) else Turn(prf, a, Turns(prf, a, b, n - 1))
  }

  /** The derived key: at most SIZE bytes. */
  function Kdf(prf: Prf, password: seq<bv8>, salt: seq<bv8>, n: nat, length: nat): (key: seq<bv8>)
    requires |password| > 0 && |salt| > 0
    ensures |key| == if length > SIZE then SIZE else length
  {
    var a, m := Filled(password), if length > SIZE then SIZE else length;
    var r := Turns(prf, a, Filled(salt), n);
    XorBlocks(Cyclic(r.b, r.at, m), a[..m])
  }

  // ---------- the buffers with a mirrored tail

  /** The first bytes of the ring stand once more behind its end. */
  ghost predicate Mirrors(d: seq<bv8>, ring: seq<bv8>, tail: nat) {
    |ring| == SIZE && tail <= SIZE && |d| == SIZE + tail && d[..SIZE] == ring && d[SIZE..] == ring[..tail]
  }

  lemma WrapCases(k: nat)
    requires k < 2 * SIZE
    ensures Wrap(k) == if k < SIZE then k else k - SIZE
  {}

  /** So a stretch as long as the tail can be read straight. */
  lemma MirrorReads(d: seq<bv8>, ring: seq<bv8>, tail: nat, at: nat)
    requires Mirrors(d, ring, tail) && at < SIZE
    ensures d[at..at + tail] == Cyclic(ring, at, tail)
  {
    hide Wrap;
    forall k | 0 <= k < tail ensures d[at..at + tail][k] == Cyclic(ring, at, tail)[k] {
      WrapCases(at + k);
      if at + k < SIZE {
        assert d[at + k] == d[..SIZE][at + k];
      } else {
        assert d[at + k] == d[SIZE..][at + k - SIZE];
      }
    }
  }

  /** Fills a buffer with repetitions of p and writes the tail. */
  method Fill(p: seq<bv8>, tail: nat) returns (d: array<bv8>)
    requires 0 < tail <= |p| && tail <= SIZE
    ensures fresh(d) && Mirrors(d[..], Filled(p), tail)
  {
    hide Filled, Stored, Mirrors;
    var n := |p|;
    if n > SIZE {
      n := SIZE;
    }
    Copies(n);
    d := new bv8[SIZE + tail];
    var a := SIZE / n;
    var i := 0;
    while i < a
      invariant 0 <= i <= a && i * n <= a * n <= SIZE
      invariant d[..i * n] == Filled(p)[..i * n]
    {
      MulLe(i + 1, a, n);
      assert (i + 1) * n == i * n + n;
      assert d[..][..i * n] == d[..i * n];
      FilledNext(d[..], p, n, i, n);
      Store(d, i * n, p[..n]);
      i := i + 1;
    }
    var b := SIZE - a * n;
    if b != 0 {
      assert d[..][..a * n] == d[..a * n];
      FilledNext(d[..], p, n, a, b);
      Store(d, a * n, p[..b]);
    }
    assert d[..][..0] == Filled(p)[..0];
    FilledNext(d[..], p, n, 0, tail);
    TailMirrors(d[..], Filled(p), p[..tail]);
    Store(d, SIZE, p[..tail]);
  }

  lemma Copies(n: nat)
    requires 0 < n <= SIZE
    ensures 0 <= (SIZE / n) * n <= SIZE < (SIZE / n) * n + n
  {}

  lemma TailMirrors(d: seq<bv8>, ring: seq<bv8>, t: seq<bv8>)
    requires |ring| == SIZE && |t| <= SIZE && |d| == SIZE + |t| && d[..SIZE] == ring && t == ring[..|t|]
    ensures Mirrors(Stored(d, SIZE, t), ring, |t|)
  {
    assert Stored(d, SIZE, t)[..SIZE] == d[..SIZE];
  }

  /** The i-th copy of p, or the beginning of it, continues what has been filled. */
  lemma FilledNext(d: seq<bv8>, p: seq<bv8>, n: nat, i: nat, m: nat)
    requires 0 < n <= |p| && n == (if |p| > SIZE then SIZE else |p|)
    requires m <= n && 0 <= i * n && i * n + m <= SIZE <= |d| && d[..i * n] == Filled(p)[..i * n]
    ensures Filled(p)[i * n..i * n + m] == p[..m]
    ensures Stored(d, i * n, p[..m])[..i * n + m] == Filled(p)[..i * n + m]
  {
    forall k | 0 <= k < m ensures Filled(p)[i * n..i * n + m][k] == p[k] {
      DivUnique(i * n + k, n, i, k);
    }
    StoredPrefix(d, i * n, p[..m]);
    var f := Filled(p);
    assert f[..i * n + m] == f[..i * n] + f[i * n..i * n + m];
  }

  /** What one iteration stores, as the code orders it: the stretch, then its mirror image behind or in front. */
  function Touched(d: seq<bv8>, at: nat, out: seq<bv8>): (r: seq<bv8>)
    requires |d| == SIZE + KEY && at < SIZE && |out| == OUT
    ensures |r| == |d|
  {
    var d1 := Stored(d, at, XorBlocks(d[at..at + OUT], out));
    var d2 := if at < KEY then Stored(d1, SIZE + at, d1[at..KEY]) else d1;
    if SIZE - at < OUT then Stored(d2, 0, d2[SIZE..at + OUT]) else d2
  }

  /** The mirror is in step again, whichever end the stretch touched. */
  lemma TouchedMirrors(d: seq<bv8>, ring: seq<bv8>, at: nat, out: seq<bv8>)
    requires |d| == SIZE + KEY && |ring| == SIZE && Mirrors(d, ring, KEY) && at < SIZE && |out| == OUT
    ensures Mirrors(Touched(d, at, out), CyclicXor(ring, at, out), KEY)
  {
    hide Wrap, Xor, Touched, Mirrors, CyclicXor;
    var r, c := Touched(d, at, out), CyclicXor(ring, at, out);
    forall i | 0 <= i < SIZE + KEY ensures r[i] == c[if i < SIZE then i else i - SIZE] {
      TouchedAt(d, ring, at, out, i);
    }
    MirrorsByByte(r, c);
  }

  lemma MirrorsByByte(d: seq<bv8>, ring: seq<bv8>)
    requires |ring| == SIZE && |d| == SIZE + KEY
    requires forall i | 0 <= i < SIZE + KEY :: d[i] == ring[if i < SIZE then i else i - SIZE]
    ensures Mirrors(d, ring, KEY)
  {}

  lemma MirrorsAt(d: seq<bv8>, ring: seq<bv8>, i: nat)
    requires Mirrors(d, ring, KEY) && i < SIZE + KEY
    ensures d[i] == ring[if i < SIZE then i else i - SIZE]
  {
    if i < SIZE {
      assert d[..SIZE][i] == ring[i];
    } else {
      assert d[SIZE..][i - SIZE] == ring[i - SIZE];
    }
  }

  /** The byte at place i after the first store. */
  lemma XoredAt(d: seq<bv8>, ring: seq<bv8>, at: nat, out: seq<bv8>, i: nat)
    requires |d| == SIZE + KEY && |ring| == SIZE && Mirrors(d, ring, KEY) && at < SIZE && |out| == OUT && i < SIZE + KEY
    ensures var r := ring[if i < SIZE then i else i - SIZE];
            Stored(d, at, XorBlocks(d[at..at + OUT], out))[i] == if at <= i < at + OUT then Xor(r, out[i - at]) else r
  {
    hide Xor, Stored, Mirrors;
    MirrorsAt(d, ring, i);
    StoredAt(d, at, XorBlocks(d[at..at + OUT], out), i);
  }

  lemma TouchedAt(d: seq<bv8>, ring: seq<bv8>, at: nat, out: seq<bv8>, i: nat)
    requires |d| == SIZE + KEY && |ring| == SIZE && Mirrors(d, ring, KEY) && at < SIZE && |out| == OUT && i < SIZE + KEY
    ensures Touched(d, at, out)[i] == CyclicXor(ring, at, out)[if i < SIZE then i else i - SIZE]
  {
    hide Wrap, Xor, Stored, XorBlocks, Mirrors;
    var j := if i < SIZE then i else i - SIZE;
    WrapCases(j + SIZE - at);
    XoredAt(d, ring, at, out, i);
    XoredAt(d, ring, at, out, j);
    XorLength(d[at..at + OUT], out);
    var d1 := Stored(d, at, XorBlocks(d[at..at + OUT], out));
    if at < KEY {
      StoredAt(d1, SIZE + at, d1[at..KEY], i);
    }
    if SIZE - at < OUT {
      if i < OUT {
        XoredAt(d, ring, at, out, SIZE + i);
      }
      StoredAt(d1, 0, d1[SIZE..at + OUT], i);
    }
  }

  /** neoscrypt_fastkdf. */
  method FastKdf(prf: Prf, password: seq<bv8>, salt: seq<bv8>, N: nat, output: array<bv8>)
    requires |password| >= INPUT && |salt| >= KEY && IsPrf(prf)
    modifies output
    ensures var key := Kdf(prf, password, salt, N, output.Length);
            |key| <= output.Length && output[..] == Stored(old(output[..]), 0, key)
  {
    hide Mirrors, Wrap, Filled, Cyclic, CyclicXor, Touched, Turn, Stored, XorBlocks;
    var A := Fill(password, INPUT);
    var B := Fill(salt, KEY);
    ghost var a, b := Filled(password), Filled(salt);
    var bufptr := 0;
    var i := 0;
    while i < N
      invariant 0 <= i <= N && bufptr < SIZE && output[..] == old(output[..])
      invariant Mirrors(A[..], a, INPUT) && Mirrors(B[..], Turns(prf, a, b, i).b, KEY)
      invariant bufptr == Turns(prf, a, b, i).at
    {
      bufptr := Iterate(prf, A, B, bufptr, a, Turns(prf, a, b, i));
      i := i + 1;
    }
    Emit(A, B, bufptr, output, a, Turns(prf, a, b, N).b);
  }

  /** One turn of the primary iteration. */
  method Iterate(prf: Prf, A: array<bv8>, B: array<bv8>, bufptr: nat, ghost a: seq<bv8>, ghost r: Ring) returns (next: nat)
    requires IsPrf(prf) && IsRing(r) && bufptr == r.at && A != B
    requires Mirrors(A[..], a, INPUT) && Mirrors(B[..], r.b, KEY)
    modifies B
    ensures |a| == SIZE && next < SIZE && next == Turn(prf, a, r).at && Mirrors(B[..], Turn(prf, a, r).b, KEY)
  {
    hide Wrap, Cyclic, CyclicXor, XorBlocks, Sum;
    MirrorReads(A[..], a, INPUT, bufptr);
    MirrorReads(B[..], r.b, KEY, bufptr);
    assert A[..][bufptr..bufptr + INPUT] == A[bufptr..bufptr + INPUT];
    assert B[..][bufptr..bufptr + KEY] == B[bufptr..bufptr + KEY];
    var out := prf(A[bufptr..bufptr + INPUT], B[bufptr..bufptr + KEY]);
    next := ByteSum(out);
    next := Wrap(next);
    TouchedMirrors(B[..], r.b, next, out);
    Touch(B, next, out);
  }

  method ByteSum(s: seq<bv8>) returns (sum: nat)
    ensures sum == Sum(s)
  {
    sum := 0;
    var j := 0;
    while j < |s|
      invariant 0 <= j <= |s| && sum == Sum(s[..j])
    {
      assert s[..j + 1][..j] == s[..j];
      sum := sum + s[j] as int;
      j := j + 1;
    }
    assert s[..j] == s;
  }

  method Touch(B: array<bv8>, at: nat, out: seq<bv8>)
    requires B.Length == SIZE + KEY && at < SIZE && |out| == OUT
    modifies B
    ensures B[..] == Touched(old(B[..]), at, out)
  {
    hide XorBlocks, Stored;
    assert B[..][at..at + OUT] == B[at..at + OUT];
    XorAt(B, at, out);
    if at < KEY {
      assert B[..][at..KEY] == B[at..KEY];
      Store(B, SIZE + at, B[at..at + if OUT < KEY - at then OUT else KEY - at]);
    }
    if SIZE - at < OUT {
      assert B[..][SIZE..at + OUT] == B[SIZE..at + OUT];
      Store(B, 0, B[SIZE..SIZE + (OUT - (SIZE - at))]);
    }
  }

  /** The output: the salt buffer from the read position on, round its end, added to the password buffer. */
  method Emit(A: array<bv8>, B: array<bv8>, bufptr: nat, output: array<bv8>, ghost a: seq<bv8>, ghost ring: seq<bv8>)
    requires bufptr < SIZE && A != B && B != output
    requires Mirrors(A[..], a, INPUT) && Mirrors(B[..], ring, KEY)
    modifies B, output
    ensures var m := if output.Length > SIZE then SIZE else output.Length;
            |a| == |ring| == SIZE && output[..] == Stored(old(output[..]), 0, XorBlocks(Cyclic(ring, bufptr, m), a[..m]))
  {
    hide Cyclic, Stored, XorBlocks, Mirrors;
    MirrorFront(A[..], a, INPUT);
    MirrorFront(B[..], ring, KEY);
    var output_len := output.Length;
    if output_len > SIZE {
      output_len := SIZE;
    }
    var n := SIZE - bufptr;
    CyclicParts(ring, bufptr, output_len);
    if n >= output_len {
      assert A[..output_len] == a[..output_len];
      EmitInOne(B[..], ring, a, bufptr, output_len);
      assert B[bufptr..bufptr + output_len] == B[..][bufptr..bufptr + output_len];
      XorAt(B, bufptr, A[..output_len]);
      Store(output, 0, B[bufptr..bufptr + output_len]);
    } else {
      assert A[..output_len] == a[..output_len];
      EmitRound(A[..output_len], B, bufptr, output, ring);
    }
  }

  /** The branch that runs over the end of the salt buffer. */
  method EmitRound(x: seq<bv8>, B: array<bv8>, bufptr: nat, output: array<bv8>, ghost ring: seq<bv8>)
    requires bufptr < SIZE < bufptr + |x| && |x| <= SIZE && |x| <= output.Length && B != output
    requires |ring| == SIZE && B.Length == SIZE + KEY && B[..SIZE] == ring
    modifies B, output
    ensures output[..] == Stored(old(output[..]), 0, XorBlocks(ring[bufptr..] + ring[..|x| - (SIZE - bufptr)], x))
  {
    hide Stored, XorBlocks;
    var n, m := SIZE - bufptr, |x|;
    EmitInTwo(B[..], ring, x, bufptr);
    assert B[bufptr..bufptr + n] == B[..][bufptr..bufptr + n];
    XorAt(B, bufptr, x[..n]);
    assert B[0..m - n] == B[..][0..m - n];
    XorAt(B, 0, x[n..]);
    StoredTwice(output[..], B[bufptr..bufptr + n], B[..m - n]);
    Store(output, 0, B[bufptr..bufptr + n]);
    Store(output, n, B[..m - n]);
  }

  lemma MirrorFront(d: seq<bv8>, ring: seq<bv8>, tail: nat)
    requires Mirrors(d, ring, tail)
    ensures |ring| == SIZE && |d| == SIZE + tail && d[..SIZE] == ring
  {}

  lemma CyclicParts(ring: seq<bv8>, at: nat, m: nat)
    requires |ring| == SIZE && at < SIZE && m <= SIZE
    ensures Cyclic(ring, at, m) == if at + m <= SIZE then ring[at..at + m] else ring[at..] + ring[..m - (SIZE - at)]
  {
    hide Wrap;
    var r := if at + m <= SIZE then ring[at..at + m] else ring[at..] + ring[..m - (SIZE - at)];
    forall k | 0 <= k < m ensures Cyclic(ring, at, m)[k] == r[k] {
      WrapCases(at + k);
    }
  }

  lemma StoredTwice(d: seq<bv8>, s: seq<bv8>, t: seq<bv8>)
    requires |s| + |t| <= |d|
    ensures Stored(Stored(d, 0, s), |s|, t) == Stored(d, 0, s + t)
  {}

  lemma EmitInOne(d: seq<bv8>, ring: seq<bv8>, a: seq<bv8>, at: nat, m: nat)
    requires |a| == |ring| == SIZE && at + m <= SIZE && |d| == SIZE + KEY && d[..SIZE] == ring
    ensures Stored(d, at, XorBlocks(d[at..at + m], a[..m]))[at..at + m] == XorBlocks(ring[at..at + m], a[..m])
  {
    hide Stored, XorBlocks;
    XorLength(d[at..at + m], a[..m]);
    StoredStretch(d, at, XorBlocks(d[at..at + m], a[..m]), at, at + m);
    assert d[at..at + m] == ring[at..at + m];
  }

  /** What the two stretches at the end and at the beginning of the salt buffer hold after both have been added to. */
  lemma EmitInTwo(d: seq<bv8>, ring: seq<bv8>, x: seq<bv8>, at: nat)
    requires |ring| == SIZE && at < SIZE < at + |x| && |x| <= SIZE && |d| == SIZE + KEY && d[..SIZE] == ring
    ensures var n, m := SIZE - at, |x|;
            var d1 := Stored(d, at, XorBlocks(d[at..at + n], x[..n]));
            var d2 := Stored(d1, 0, XorBlocks(d1[0..m - n], x[n..]));
            d2[at..at + n] + d2[..m - n] == XorBlocks(ring[at..] + ring[..m - n], x)
  {
    hide Stored, XorBlocks;
    var n, m := SIZE - at, |x|;
    XorLength(d[at..at + n], x[..n]);
    var u := XorBlocks(d[at..at + n], x[..n]);
    var d1 := Stored(d, at, u);
    StoredStretch(d, at, u, at, at + n);
    StoredStretch(d, at, u, 0, m - n);
    XorLength(d1[0..m - n], x[n..]);
    var v := XorBlocks(d1[0..m - n], x[n..]);
    StoredStretch(d1, 0, v, at, at + n);
    StoredStretch(d1, 0, v, 0, m - n);
    XorConcat(d[at..at + n], x[..n], d1[0..m - n], x[n..]);
    assert x[..n] + x[n..] == x;
    assert d[at..at + n] == ring[at..] && d[0..m - n] == ring[..m - n];
  }
}
