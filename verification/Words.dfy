/** Machine words and their little-endian memory image. The word size is a parameter: 4 or 8 bytes. */
module Words {
  import opened Positional

  type WordSize = n: nat | n == 4 || n == 8 witness 8

  /** sizeof(BASEWORD): the size of a pointer on the platform. */
  const WB: WordSize
  const BITS: nat := 8 * WB
  const B: int := Pow(2, BITS)
  const HALF: int := Pow(2, BITS - 1)

  type word = x: int | 0 <= x < B witness 0
  type byte = x: int | 0 <= x < 256

  lemma BaseFacts()
    ensures B == 2 * HALF && B % 2 == 0 && B / 2 == HALF && HALF >= 128 && B == Pow(256, WB)
  {
    Pow2Of8();
    PowMul(2, 8, WB);
    PowMonotone(2, 7, BITS - 1);
    assert Pow(2, 7) == 128;
    assert B == 2 * HALF;
  }

  lemma Pow2Of8()
    ensures Pow(2, 8) == 256
  {
    assert Pow(2, 4) == 16;
    PowAdd(2, 4, 4);
  }

  /** A word as a signed number. */
  function S(w: word): int { Signed(B, w) }

  lemma SignedRange(w: word)
    ensures -HALF <= S(w) < HALF && (S(w) < 0 <==> w >= HALF)
    ensures S(w) == if w >= HALF then w - B else w
  {
    BaseFacts();
  }

  lemma WordDigits(s: seq<word>)
    ensures Digits(B, s)
  {}

  lemma ByteDigits(p: seq<byte>)
    ensures Digits(256, p)
  {}

  // ---------- memory image

  function BytesOf(w: nat, n: nat): seq<byte> {
    if n == 0 then [] else [w % 256] + BytesOf(w / 256, n - 1)
  }

  function Bytes(s: seq<word>): (p: seq<byte>) {
    if s == [] then [] else BytesOf(s[0], WB) + Bytes(s[1..])
  }

  lemma {:induction false} BytesOfVal(w: nat, n: nat)
    requires w < Pow(256, n)
    ensures |BytesOf(w, n)| == n && Val(256, BytesOf(w, n)) == w
  {
    if n > 0 {
      assert w / 256 < Pow(256, n - 1);
      BytesOfVal(w / 256, n - 1);
      assert BytesOf(w, n)[1..] == BytesOf(w / 256, n - 1);
    }
  }

  lemma {:induction false} BytesVal(s: seq<word>)
    ensures |Bytes(s)| == WB * |s| && Val(256, Bytes(s)) == Val(B, s)
  {
    hide Pow;
    if s != [] {
      BaseFacts();
      SizeStep(|s|);
      BytesOfVal(s[0], WB);
      BytesVal(s[1..]);
      ValConcat(256, BytesOf(s[0], WB), Bytes(s[1..]));
    }
  }

  lemma SizeStep(m: nat)
    requires m > 0
    ensures WB * m == WB * (m - 1) + WB && WB * m >= WB
  {
    MulAdd(WB, m - 1, 1);
    MulLe(0, m - 1, WB);
  }

  /** The m words read back from memory. */
  function FromBytes(p: seq<byte>, m: nat): (s: seq<word>)
    requires |p| == WB * m
    ensures |s| == m
  {
    if m == 0 then [] else
      SizeStep(m);
      [WordAt(p[..WB])] + FromBytes(p[WB..], m - 1)
  }

  function WordAt(p: seq<byte>): (w: word)
    requires |p| == WB
    ensures w == Val(256, p)
  {
    BaseFacts();
    ByteDigits(p);
    ValBound(256, p);
    Val(256, p)
  }

  lemma {:induction false} FromBytesVal(p: seq<byte>, m: nat)
    requires |p| == WB * m
    ensures Val(B, FromBytes(p, m)) == Val(256, p)
  {
    hide Pow;
    if m > 0 {
      SizeStep(m);
      FromBytesVal(p[WB..], m - 1);
      BaseFacts();
      ValSplit(256, p, WB);
      assert FromBytes(p, m)[1..] == FromBytes(p[WB..], m - 1);
    }
  }

  lemma {:induction false} FromBytesAt(p: seq<byte>, m: nat, i: nat, k: nat)
    requires |p| == WB * m && i < m && k == WB * i
    ensures k + WB <= |p| && FromBytes(p, m)[i] == Val(256, p[k..k + WB])
    decreases i
  {
    hide Val, Pow;
    SizeStep(m);
    if i > 0 {
      SizeStep(i);
      FromBytesAt(p[WB..], m - 1, i - 1, k - WB);
      assert p[WB..][k - WB..k] == p[k..k + WB];
    }
  }

  lemma LeadingDigit(low: int, p: int, d: int, h: int)
    requires 0 <= low < p
    ensures low + p * d >= h * p <==> d >= h
  {
    if d >= h {
      MulLe(h, d, p);
    } else {
      MulLe(d, h - 1, p);
      MulAdd(p, h, 1);
    }
  }

  /** A number reaches half of b^n exactly when its top digit is in the upper half. */
  lemma TopDigit(b: nat, h: nat, s: seq<int>)
    requires Digits(b, s) && |s| > 0
    ensures Val(b, s) >= h * Pow(b, |s| - 1) <==> s[|s| - 1] >= h
  {
    var n := |s| - 1;
    ValBound(b, s[..n]);
    ValPrefix(b, s, n);
    assert s[..n + 1] == s;
    LeadingDigit(Val(b, s[..n]), Pow(b, n), s[n], h);
  }

  lemma HalfBytes()
    ensures HALF == 128 * Pow(256, WB - 1)
  {
    BaseFacts();
    PowNext(256, WB - 1);
  }

  /** The sign bit of a word is the sign bit of its last byte. */
  lemma TopByte(p: seq<byte>, w: word)
    requires |p| == WB && w == Val(256, p)
    ensures w >= HALF <==> p[WB - 1] >= 128
  {
    hide Val, Pow;
    ByteDigits(p);
    HalfBytes();
    TopDigit(256, 128, p);
  }

  lemma PowWords(n: nat)
    ensures Pow(B, n) == Pow(256, WB * n)
  {
    BaseFacts();
    PowMul(256, WB, n);
  }

  lemma SValWords(s: seq<word>)
    requires |s| > 0
    ensures SVal(B, s) == Val(B, s) - (if s[|s| - 1] >= HALF then Pow(B, |s|) else 0)
  {
    hide Val, Pow, SVal;
    BaseFacts();
    SignedBounds(B, HALF, s);
  }

  lemma SValBytes(p: seq<byte>)
    requires |p| > 0
    ensures SVal(256, p) == Val(256, p) - (if p[|p| - 1] >= 128 then Pow(256, |p|) else 0)
  {
    hide Val, Pow, SVal;
    SignedBounds(256, 128, p);
  }

  /** Words and bytes agree on the signed number too. */
  lemma FromBytesSigned(p: seq<byte>, m: nat)
    requires |p| == WB * m && m > 0
    ensures |p| > 0 && SVal(B, FromBytes(p, m)) == SVal(256, p)
  {
    hide Val, Pow, SVal, FromBytes;
    var s := FromBytes(p, m);
    SizeStep(m);
    FromBytesVal(p, m);
    FromBytesAt(p, m, m - 1, |p| - WB);
    TopByte(p[|p| - WB..|p| - WB + WB], s[m - 1]);
    SValWords(s);
    SValBytes(p);
    PowWords(m);
  }

  lemma {:induction false} FromBytesOfBytes(s: seq<word>)
    ensures |Bytes(s)| == WB * |s| && FromBytes(Bytes(s), |s|) == s
  {
    hide Val, Pow;
    BytesVal(s);
    BaseFacts();
    if s != [] {
      SizeStep(|s|);
      BytesOfVal(s[0], WB);
      FromBytesOfBytes(s[1..]);
      var p := Bytes(s);
      assert p[..WB] == BytesOf(s[0], WB) && p[WB..] == Bytes(s[1..]);
    }
  }
}
