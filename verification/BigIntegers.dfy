/** BigInteger: an integer of any size as the shortest two's-complement word sequence.
    The C++ class is a value type (assignment copies), so it is a datatype here; the scratch
    buffers its operators fill are arrays. */
module BigIntegers {
  import opened Positional
  import opened Words
  import opened WordArithmetic

  datatype Error = DivideByZero | InvalidArgument | InvalidExtendOfNumber
  datatype Result<+T> = Ok(value: T) | Throw(error: Error)

  datatype BigInteger = BigInteger(Data: seq<word>)

  /** No shorter word sequence denotes the same number: the top word is not just a copy of the sign. */
  predicate Canonical(s: seq<word>) {
    && |s| > 0
    && (|s| > 1 && s[|s| - 1] == 0 ==> s[|s| - 2] >= HALF)
    && (|s| > 1 && s[|s| - 1] == B - 1 ==> s[|s| - 2] < HALF)
  }

  type Big = x: BigInteger | Canonical(x.Data) witness BigInteger([0])

  /** The integer a BigInteger denotes. */
  function Value(x: Big): int { SVal(B, x.Data) }

  // ---------- the canonical form

  /** Half the range of n words: they denote exactly the integers in [-Limit(n), Limit(n)). */
  ghost function Limit(n: nat): int
    requires n > 0
  {
    HALF * Pow(B, n - 1)
  }

  lemma LimitFacts(n: nat)
    requires n > 0
    ensures 2 * Limit(n) == Pow(B, n) && Limit(n) > 0
    ensures Limit(n) >= Pow(B, n - 1)
  {
    hide *;
    BaseFacts();
    PowStep(n);
    var p := Pow(B, n - 1);
    MulLe(1, HALF, p);
    MulAssoc(2, HALF, p);
    LimitDef(n);
  }

  lemma LimitDef(n: nat)
    requires n > 0
    ensures Limit(n) == HALF * Pow(B, n - 1)
  {}

  lemma PowStep(n: nat)
    requires n > 0
    ensures Pow(B, n) == B * Pow(B, n - 1) && Pow(B, n - 1) > 0
  {}

  lemma {:induction false} LimitMonotone(m: nat, n: nat)
    requires 0 < m <= n
    ensures Limit(m) <= Limit(n)
    decreases n - m
  {
    hide *;
    if m < n {
      LimitMonotone(m, n - 1);
      LimitFacts(n - 1);
      LimitFacts(n);
      PowStep(n);
    }
  }

  lemma WordBounds(s: seq<word>)
    requires |s| > 0
    ensures -Limit(|s|) <= SVal(B, s) < Limit(|s|)
    ensures SVal(B, s) < 0 <==> s[|s| - 1] >= HALF
    ensures SVal(B, s) == Val(B, s) - (if SVal(B, s) < 0 then Pow(B, |s|) else 0)
  {
    hide Val, Pow, SVal, Limit;
    BaseFacts();
    LimitDef(|s|);
    SignedBounds(B, HALF, s);
  }

  lemma TopOf(s: seq<word>)
    requires |s| > 0
    ensures SVal(B, s) == Val(B, s[..|s| - 1]) + Pow(B, |s| - 1) * S(s[|s| - 1])
    ensures 0 <= Val(B, s[..|s| - 1]) < Pow(B, |s| - 1)
  {
    ValBound(B, s[..|s| - 1]);
  }

  /** A canonical sequence of n > 1 words denotes a number that n - 1 words cannot denote. */
  lemma CanonicalRange(s: seq<word>)
    requires Canonical(s) && |s| > 1
    ensures SVal(B, s) >= Limit(|s| - 1) || SVal(B, s) < -Limit(|s| - 1)
  {
    hide Val, Pow, SVal, Signed, Limit;
    var n := |s| - 1;
    var p, d := Pow(B, n), S(s[n]);
    TopOf(s);
    SignedRange(s[n]);
    LimitFacts(n);
    LimitDef(n);
    TopDigit(B, HALF, s[..n]);
    if d > 0 {
      MulLe(1, d, p);
    } else if d < -1 {
      MulLe(d, -2, p);
    }
  }

  /** Equal numbers have equal word forms. */
  lemma CanonicalUnique(s: seq<word>, t: seq<word>)
    requires Canonical(s) && Canonical(t) && SVal(B, s) == SVal(B, t)
    ensures s == t
  {
    hide Val, Pow, SVal, Signed, Limit;
    WordBounds(s);
    WordBounds(t);
    if |s| < |t| {
      CanonicalRange(t);
      LimitMonotone(|s|, |t| - 1);
    } else if |t| < |s| {
      CanonicalRange(s);
      LimitMonotone(|t|, |s| - 1);
    } else {
      ValInjective(B, s, t);
    }
  }

  /** The word form is the shortest of all word sequences that denote the number. */
  lemma CanonicalShortest(s: seq<word>, t: seq<word>)
    requires Canonical(s) && |t| > 0 && SVal(B, s) == SVal(B, t)
    ensures |s| <= |t|
  {
    hide Val, Pow, SVal, Signed, Limit;
    WordBounds(t);
    if |t| < |s| {
      CanonicalRange(s);
      LimitMonotone(|t|, |s| - 1);
    }
  }

  /** operator==: the words are compared, and that decides equality of the integers. */
  predicate Equals(x: Big, y: Big) { x.Data == y.Data }

  lemma EqualsIffSameValue(x: Big, y: Big)
    ensures Equals(x, y) <==> Value(x) == Value(y)
  {
    if Value(x) == Value(y) {
      CanonicalUnique(x.Data, y.Data);
    }
  }

  // ---------- construction from bytes

  function SignByte(b: byte): byte { if b >= 128 then 255 else 0 }

  /** The bytes below n, continued with the sign byte, are what Init keeps. */
  ghost predicate Trimmed(p: seq<byte>, n: nat, high: byte) {
    && 0 < n <= |p|
    && high == SignByte(p[|p| - 1]) == SignByte(p[n - 1])
    && (forall i | n <= i < |p| :: p[i] == high)
    && (n > 1 && p[n - 1] == high ==> SignByte(p[n - 2]) != high)
  }

  lemma TrimmedValue(p: seq<byte>, n: nat, high: byte, m: nat)
    requires Trimmed(p, n, high)
    ensures SVal(256, p[..n] + seq(m, _ => high)) == SVal(256, p)
  {
    var q := p[..n];
    SignExtend(256, q, |p| - n, high);
    assert q + seq(|p| - n, _ => high) == p;
    SignExtend(256, q, m, high);
  }

  /** Dropping redundant sign bytes and filling up the last word with sign bytes gives the shortest word form. */
  lemma TrimmedCanonical(p: seq<byte>, n: nat, high: byte, q: seq<byte>, m: nat)
    requires Trimmed(p, n, high) && m > 0 && |q| == WB * m && WB * (m - 1) < n <= |q|
    requires q == p[..n] + seq(|q| - n, _ => high)
    ensures Canonical(FromBytes(q, m))
  {
    hide Val, Pow, FromBytes, Ext, Trimmed;
    var s := FromBytes(q, m);
    if m > 1 {
      var k := WB * (m - 1);
      SizeStep(m);
      SizeStep(m - 1);
      var top, below := q[k..k + WB], q[k - WB..k];
      FromBytesAt(q, m, m - 1, k);
      FromBytesAt(q, m, m - 2, k - WB);
      assert q[k - WB..k - WB + WB] == below;
      TopByte(below, s[m - 2]);
      TopByte(top, s[m - 1]);
      TopTwoWords(p, n, high, q, k, top, below, s[m - 1], s[m - 2]);
    }
  }

  lemma TopTwoWords(p: seq<byte>, n: nat, high: byte, q: seq<byte>, k: nat, top: seq<byte>, below: seq<byte>, w: word, w': word)
    requires Trimmed(p, n, high) && WB <= k < n <= |q| == k + WB
    requires q == p[..n] + seq(|q| - n, _ => high)
    requires top == q[k..k + WB] && below == q[k - WB..k] && w == Val(256, top)
    requires (w >= HALF <==> top[WB - 1] >= 128) && (w' >= HALF <==> below[WB - 1] >= 128)
    ensures w == 0 ==> w' >= HALF
    ensures w == B - 1 ==> w' < HALF
  {
    hide Val, Pow, Ext;
    BaseFacts();
    assert top[WB - 1] == q[|q| - 1] == if n == |q| then p[n - 1] else high;
    if w == 0 || w == B - 1 {
      assert w == Ext(high == 255);
      UniformTop(top, high);
      forall i | k <= i < n ensures p[i] == high {
        assert p[i] == q[i] == top[i - k];
      }
      assert n - 1 == k;
      assert below[WB - 1] == p[n - 2];
    }
  }

  /** A word that is all sign bits has only sign bytes. */
  lemma UniformTop(p: seq<byte>, high: byte)
    requires |p| == WB && (high == 0 || high == 255) && Val(256, p) == Ext(high == 255)
    ensures forall i | 0 <= i < WB :: p[i] == high
  {
    var q := seq(WB, i => high);
    FillValue(WB, high);
    BaseFacts();
    ByteDigits(p);
    ByteDigits(q);
    ValInjective(256, p, q);
  }

  lemma {:induction false} FillValue(n: nat, high: byte)
    requires high == 0 || high == 255
    ensures Val(256, seq(n, i => high)) == if high == 255 then Pow(256, n) - 1 else 0
  {
    if n > 0 {
      FillValue(n - 1, high);
      assert seq(n, i => high)[1..] == seq(n - 1, i => high);
    }
  }

  /** Init: the number that a non-empty little-endian two's-complement byte string denotes. */
  method Init(p: seq<byte>) returns (r: Big)
    requires |p| > 0
    ensures Value(r) == SVal(256, p)
  {
    var bhigh := SignByte(p[|p| - 1]);
    var n := |p|;
    while n > 0 && p[n - 1] == bhigh
      invariant 0 <= n <= |p|
      invariant forall i | n <= i < |p| :: p[i] == bhigh
    {
      n := n - 1;
    }
    if n == 0 || SignByte(p[n - 1]) != bhigh {
      n := n + 1;
    }
    assert Trimmed(p, n, bhigh);
    var m := (n + WB - 1) / WB;
    WordsFor(n, m);
    r := CopyWords(p, n, bhigh, m, WB * (m - 1), WB * m);
  }

  lemma WordsFor(n: nat, m: int)
    requires n > 0 && m == (n + WB - 1) / WB
    ensures m > 0 && WB * (m - 1) < n <= WB * m && WB * m - WB * (m - 1) == WB
  {}

  /** The second half of Init: the top word is preset to the sign, then the kept bytes are copied over. */
  method CopyWords(p: seq<byte>, n: nat, bhigh: byte, m: nat, base: nat, size: nat) returns (r: Big)
    requires Trimmed(p, n, bhigh) && m > 0
    requires base == WB * (m - 1) && size == WB * m && base < n <= size
    ensures Value(r) == SVal(256, p)
  {
    hide SVal, Val, Pow, Canonical;
    var data := new byte[size];
    var i := base;
    while i < size
      invariant base <= i <= size
      invariant forall k | base <= k < i :: data[k] == bhigh
    {
      data[i] := bhigh;
      i := i + 1;
    }
    i := 0;
    while i < n
      invariant 0 <= i <= n
      invariant forall k | 0 <= k < i :: data[k] == p[k]
      invariant forall k | i <= k < size && base <= k :: data[k] == bhigh
    {
      data[i] := p[i];
      i := i + 1;
    }
    ghost var q := data[..];
    assert q == p[..n] + seq(|q| - n, _ => bhigh);
    TrimmedCanonical(p, n, bhigh, q, m);
    TrimmedValue(p, n, bhigh, |q| - n);
    FromBytesSigned(q, m);
    r := BigInteger(FromBytes(data[..], m));
  }

  /** The constructor from words: Init over their memory image. */
  method FromWords(p: seq<word>) returns (r: Big)
    requires |p| > 0
    ensures Value(r) == SVal(B, p)
  {
    BytesVal(p);
    FromBytesOfBytes(p);
    FromBytesSigned(Bytes(p), |p|);
    r := Init(Bytes(p));
  }

  /** The constructor from a machine integer. */
  function FromInt(n: int): (r: Big)
    requires -HALF <= n < HALF
    ensures Value(r) == n
  {
    SmallValue([Low(n)]);
    BigInteger([Low(n)])
  }

  lemma SmallValue(s: seq<word>)
    requires |s| == 1
    ensures SVal(B, s) == S(s[0])
  {
    assert s[..0] == [];
  }

  // ---------- sign, comparison, extension

  /** Sign: -1, 0 or 1, read off the words. */
  function Sign(x: Big): (r: int)
    ensures r == if Value(x) < 0 then -1 else if Value(x) == 0 then 0 else 1
  {
    WordBounds(x.Data);
    if |x.Data| == 1 && x.Data[0] == 0 then
      SmallValue(x.Data);
      0
    else
      ZeroIsOneWord(x.Data);
      if x.Data[|x.Data| - 1] >= HALF then -1 else 1
  }

  lemma ZeroIsOneWord(s: seq<word>)
    requires Canonical(s) && s != [0]
    ensures SVal(B, s) != 0
  {
    BaseFacts();
    SmallValue([0]);
    if SVal(B, s) == 0 {
      CanonicalUnique(s, [0]);
    }
  }

  /** ExtendTo: the words continued with the sign up to the wanted size, or an error when they do not fit. */
  function ExtendTo(x: Big, size: nat): (r: Result<seq<word>>)
    ensures r.Ok? <==> |x.Data| <= size
    ensures r.Ok? ==> |r.value| == size > 0 && SVal(B, r.value) == Value(x)
  {
    if |x.Data| > size then Throw(InvalidExtendOfNumber) else
      BaseFacts();
      WordBounds(x.Data);
      SignExtend(B, x.Data, size - |x.Data|, Ext(Sign(x) == -1));
      Ok(x.Data + seq(size - |x.Data|, i => Ext(Sign(x) == -1)))
  }

  /** The two's-complement value is the positional value with the sign moved into the top digit. */
  lemma SignedDigits(s: seq<word>)
    requires |s| > 0
    ensures SVal(B, s) == Val(B, s[..|s| - 1] + [S(s[|s| - 1])])
  {
    ValSnoc(B, s[..|s| - 1], S(s[|s| - 1]));
  }

  /** The first word in which two numbers of equal size differ, from the top, decides the order. */
  lemma TopDifference(s: seq<word>, t: seq<word>, i: nat)
    requires |s| == |t| && i < |s| && s[i + 1..] == t[i + 1..]
    requires if i == |s| - 1 then S(s[i]) < S(t[i]) else s[i] < t[i]
    ensures SVal(B, s) < SVal(B, t)
  {
    hide Val, Pow, SVal;
    var n := |s| - 1;
    var s', t' := s[..n] + [S(s[n])], t[..n] + [S(t[n])];
    SignedDigits(s);
    SignedDigits(t);
    assert s'[..i] == s[..i] && t'[..i] == t[..i];
    assert s'[i + 1..] == t'[i + 1..];
    WordDigits(s[..i]);
    WordDigits(t[..i]);
    ValBound(B, s[..i]);
    ValBound(B, t[..i]);
    FirstDifference(s', t', i);
  }

  lemma FirstDifference(s: seq<int>, t: seq<int>, i: nat)
    requires |s| == |t| && i < |s| && s[i + 1..] == t[i + 1..] && s[i] < t[i]
    requires Val(B, s[..i]) < Pow(B, i) && 0 <= Val(B, t[..i])
    ensures Val(B, s) < Val(B, t)
  {
    hide *;
    BaseFacts();
    ValSplit(B, s, i + 1);
    ValSplit(B, t, i + 1);
    ValPrefix(B, s, i);
    ValPrefix(B, t, i);
    LowerDigitsIrrelevant(Val(B, s[..i]), Val(B, t[..i]), Pow(B, i), s[i], t[i]);
  }

  lemma LowerDigitsIrrelevant(low: int, low': int, p: int, d: int, d': int)
    requires low < p && 0 <= low' && 0 <= p && d < d'
    ensures low + p * d < low' + p * d'
  {
    hide *;
    MulLe(d + 1, d', p);
    MulAdd(p, d, 1);
  }

  lemma LongerIsFarther(s: seq<word>, t: seq<word>)
    requires Canonical(s) && |t| > 0 && |s| > |t|
    ensures if SVal(B, s) < 0 then SVal(B, s) < SVal(B, t) else SVal(B, s) > SVal(B, t)
  {
    CanonicalRange(s);
    LimitMonotone(|t|, |s| - 1);
    WordBounds(t);
  }

  /** Compare: negative, zero or positive as x is below, equal to or above y. */
  method Compare(x: Big, y: Big) returns (r: int)
    ensures r < 0 <==> Value(x) < Value(y)
    ensures r == 0 <==> Value(x) == Value(y)
  {
    hide SVal, Val, Pow, Limit;
    if |x.Data| != |y.Data| {
      var signMe, signX := Sign(x), Sign(y);
      if signMe != signX {
        return signMe - signX;
      }
      if |x.Data| > |y.Data| {
        LongerIsFarther(x.Data, y.Data);
      } else {
        LongerIsFarther(y.Data, x.Data);
      }
      assert signMe != 0;
      return (|x.Data| - |y.Data|) * signMe;
    }
    var i := |x.Data|;
    while i > 0
      invariant 0 <= i <= |x.Data|
      invariant x.Data[i..] == y.Data[i..]
    {
      i := i - 1;
      var p, q := x.Data[i], y.Data[i];
      if p != q {
        SignedRange(p);
        SignedRange(q);
        if (if i == |x.Data| - 1 then S(p) < S(q) else p < q) {
          TopDifference(x.Data, y.Data, i);
          return -1;
        }
        TopDifference(y.Data, x.Data, i);
        return 1;
      }
    }
    assert x.Data == y.Data;
    return 0;
  }

  // ---------- the ring operations

  method Neg(x: Big) returns (r: Big)
    ensures Value(r) == -Value(x)
  {
    var m := |x.Data|;
    var a, p := new word[m](i requires 0 <= i < m => x.Data[i]), new word[m + 1];
    assert a[..m] == x.Data;
    ImpNegBignum(a, m, p);
    assert p[..m + 1] == p[..];
    r := FromWords(p[..]);
  }

  method Abs(x: Big) returns (r: Big)
    ensures Value(r) == if Value(x) < 0 then -Value(x) else Value(x)
  {
    if Sign(x) < 0 {
      r := Neg(x);
    } else {
      r := x;
    }
  }

  method Add(x: Big, y: Big) returns (r: Big)
    ensures Value(r) == Value(x) + Value(y)
  {
    var size := if |x.Data| > |y.Data| then |x.Data| else |y.Data|;
    var px, py, pr := ExtendTo(x, size), ExtendTo(y, size), new word[size + 1];
    ImpAddBignums(px.value, py.value, pr);
    r := FromWords(pr[..]);
  }

  method Sub(x: Big, y: Big) returns (r: Big)
    ensures Value(r) == Value(x) - Value(y)
  {
    var size := if |x.Data| > |y.Data| then |x.Data| else |y.Data|;
    var px, py, pr := ExtendTo(x, size), ExtendTo(y, size), new word[size + 1];
    ImpSubBignums(px.value, py.value, pr);
    r := FromWords(pr[..]);
  }

  /** |x| in as many words as x has: the sign word that negation adds is not needed. */
  method Magnitude(x: Big) returns (p: seq<word>)
    ensures |p| == |x.Data| && Val(B, p) == (if Value(x) < 0 then -Value(x) else Value(x)) <= Limit(|p|)
  {
    hide SVal, Val, Pow, Limit;
    WordBounds(x.Data);
    LimitFacts(|x.Data|);
    p := x.Data;
    if Sign(x) == -1 {
      var m := |x.Data|;
      var a, q := new word[m](i requires 0 <= i < m => x.Data[i]), new word[m + 1];
      assert a[..m] == x.Data;
      ImpNegBignum(a, m, q);
      p := q[..m];
      LowWords(q[..m + 1]);
      assert q[..m + 1][..m] == p;
    }
  }

  /** A non-negative number that fits in m signed or unsigned words is the value of its low m words. */
  lemma LowWords(s: seq<word>)
    requires |s| > 1 && 0 <= SVal(B, s) < Pow(B, |s| - 1)
    ensures Val(B, s[..|s| - 1]) == SVal(B, s) && s[|s| - 1] == 0
  {
    hide *;
    var n := |s| - 1;
    TopOf(s);
    DigitAbove(Val(B, s[..n]), Pow(B, n), S(s[n]), SVal(B, s));
    SignedRange(s[n]);
    BaseFacts();
  }
}
