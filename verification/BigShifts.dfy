/** BigInteger multiplication, bit length and shifts. */
module BigShifts {
  import opened Positional
  import opened Words
  import opened WordArithmetic
  import opened BigIntegers

  lemma ProductInRange(x: int, y: int, m: nat, n: nat)
    requires m > 0 && n > 0 && 0 <= x <= Limit(m) && 0 <= y <= Limit(n)
    ensures 0 <= x * y < Limit(m + n)
  {
    hide *;
    BaseFacts();
    LimitDef(m);
    LimitDef(n);
    LimitDef(m + n);
    LimitFacts(m + n);
    var p, q := Pow(B, m - 1), Pow(B, n - 1);
    PowAdd(B, m - 1, n - 1);
    PowStep(m + n - 1);
    MulLe(0, x, y);
    MulLe(x, Limit(m), y);
    MulLe(y, Limit(n), Limit(m));
    assert Limit(m) * Limit(n) == HALF * (HALF * (p * q)) by {
      MulAssoc(HALF * p, HALF, q);
      MulSwap(HALF * p, HALF, q);
      MulAssoc(HALF, p, q);
    }
    assert Limit(m + n) == 2 * (HALF * (HALF * (p * q))) by {
      MulAssoc(2, HALF, p * q);
      MulSwap(HALF, 2, HALF * (p * q));
    }
  }

  /** Reading an unsigned number below half the range as a signed one. */
  lemma UnsignedAsSigned(s: seq<word>)
    requires |s| > 0 && Val(B, s) < Limit(|s|)
    ensures SVal(B, s) == Val(B, s)
  {
    WordDigits(s);
    TopDigit(B, HALF, s);
    WordBounds(s);
  }

  /** Mul: the product of the magnitudes, negated when the signs differ. */
  method Mul(x: Big, y: Big) returns (r: Big)
    ensures Value(r) == Value(x) * Value(y)
  {
    hide SVal, Val, Pow, Limit;
    var signX, signY := Sign(x) == -1, Sign(y) == -1;
    var px := Magnitude(x);
    var py := Magnitude(y);
    var size := |px| + |py|;
    var p := new word[size + 1];
    ImpMulBignums(px, py, p);
    ghost var u, v := Val(B, px), Val(B, py);
    ProductInRange(u, v, |px|, |py|);
    UnsignedAsSigned(p[..size]);
    assert u * v == if signX != signY then -(Value(x) * Value(y)) else Value(x) * Value(y) by {
      hide *;
      assert u == (if signX then -Value(x) else Value(x)) && v == (if signY then -Value(y) else Value(y));
      SignsMultiply(Value(x), Value(y));
    }
    if signX != signY {
      ghost var product := p[..size];
      ImpNegBignum(p, size, p);
      LimitMonotone(size, size + 1);
      DropSign(p[..size + 1], size);
      assert p[..size + 1][..size] == p[..size];
    }
    r := FromWords(p[..size]);
  }

  lemma SignsMultiply(x: int, y: int)
    ensures -x * y == -(x * y) == x * -y && -x * -y == x * y
  {}

  /** A number that n words can hold is still the same when the sign word above them is dropped. */
  lemma DropSign(s: seq<word>, n: nat)
    requires n > 0 && |s| == n + 1 && -Limit(n) <= SVal(B, s) < Limit(n)
    ensures SVal(B, s[..n]) == SVal(B, s)
  {
    hide *;
    TopOf(s);
    DropTop(s[..n], S(s[n]), SVal(B, s));
  }

  /** A number in range is denoted by its words below a top part that only repeats the sign. */
  lemma DropTop(d: seq<word>, k: int, y: int)
    requires |d| > 0 && y == Val(B, d) + Pow(B, |d|) * k && -Limit(|d|) <= y < Limit(|d|)
    ensures SVal(B, d) == y
  {
    hide *;
    BaseFacts();
    var p := Pow(B, |d|);
    LimitFacts(|d|);
    WordDigits(d);
    ValBound(B, d);
    DigitAbove(Val(B, d), p, k, y);
    WordBounds(d);
    TopDigit(B, HALF, d);
    LimitDef(|d|);
  }

  // ---------- bit length

  /** BitScanReverse: the index of the highest set bit, -1 when there is none. */
  function BitScanReverse(w: nat): (r: int)
    ensures r >= -1 && (w == 0 <==> r == -1)
    ensures w > 0 ==> Pow(2, r) <= w < Pow(2, r + 1)
  {
    if w == 0 then -1 else
      var k := BitScanReverse(w / 2);
      if w == 1 then 0 else
        assert Pow(2, k + 2) == 2 * Pow(2, k + 1) && Pow(2, k + 1) == 2 * Pow(2, k);
        k + 1
  }

  /** w ^ (w >> (BITS - 1)): the word itself, complemented when its sign bit is set. */
  function FoldSign(w: word): (r: nat)
    ensures r < HALF && r == if S(w) < 0 then -S(w) - 1 else S(w)
  {
    BaseFacts();
    if w >= HALF then B - 1 - w else w
  }

  function Length(x: Big): (len: nat)
    ensures (|x.Data| - 1) * BITS <= len < |x.Data| * BITS
  {
    var w := x.Data[|x.Data| - 1];
    FoldedBits(w);
    LengthRange(|x.Data|, 1 + BitScanReverse(FoldSign(w)));
    (|x.Data| - 1) * BITS + 1 + BitScanReverse(FoldSign(w))
  }

  lemma LengthRange(m: nat, k: int)
    requires m > 0 && 0 <= k < BITS
    ensures 0 <= (m - 1) * BITS <= (m - 1) * BITS + k < m * BITS
  {
    hide *;
    MulLe(0, m - 1, BITS);
    MulAdd(BITS, m, 1);
  }

  lemma FoldedBits(w: word)
    ensures -1 <= BitScanReverse(FoldSign(w)) <= BITS - 2
  {
    var r := BitScanReverse(FoldSign(w));
    if r >= BITS - 1 {
      PowMonotone(2, BITS - 1, r);
    }
  }

  /** The number without its sign: x itself, or its complement -x - 1. */
  ghost function Folded(x: int): nat { if x < 0 then -x - 1 else x }

  lemma PowBits(n: nat)
    ensures Pow(B, n) == Pow(2, n * BITS)
  {
    PowMul(2, BITS, n);
  }

  lemma FoldedTop(s: seq<word>)
    requires |s| > 0
    ensures var n := |s| - 1; var c := FoldSign(s[n]);
            Pow(B, n) * c <= Folded(SVal(B, s)) < Pow(B, n) * (c + 1)
  {
    hide *;
    var n := |s| - 1;
    var p, d := Pow(B, n), S(s[n]);
    TopOf(s);
    WordBounds(s);
    SignedRange(s[n]);
    MulAdd(p, d, 1);
    if d < 0 {
      assert FoldSign(s[n]) == -d - 1;
      assert p * -d == -(p * d);
      MulAdd(p, -d, 1);
      assert SVal(B, s) < 0;
    } else {
      assert FoldSign(s[n]) == d;
    }
    FoldedDef(SVal(B, s));
  }

  lemma FoldedDef(x: int)
    ensures Folded(x) == if x < 0 then -x - 1 else x
  {}

  lemma BitsAbove(nb: nat, k: nat, c: int, y: int)
    requires Pow(2, k) <= c < Pow(2, k + 1)
    requires Pow(2, nb) * c <= y < Pow(2, nb) * (c + 1)
    ensures Pow(2, nb + k) <= y < Pow(2, nb + k + 1)
  {
    hide *;
    var p := Pow(2, nb);
    PowAdd(2, nb, k);
    PowAdd(2, nb, k + 1);
    MulLe(Pow(2, k), c, p);
    MulLe(c + 1, Pow(2, k + 1), p);
  }

  /** Length is the number of bits of the folded number: 2^(len-1) <= folded < 2^len. */
  lemma LengthBounds(x: Big)
    ensures Folded(Value(x)) < Pow(2, Length(x))
    ensures Length(x) > 0 ==> Pow(2, Length(x) - 1) <= Folded(Value(x))
  {
    hide Val, Pow, SVal, Limit, FoldSign, BitScanReverse;
    var s, n := x.Data, |x.Data| - 1;
    var c := FoldSign(s[n]);
    var nb, k, y := n * BITS, BitScanReverse(c), Folded(Value(x));
    FoldedTop(s);
    PowBits(n);
    assert Length(x) == nb + 1 + k;
    if c > 0 {
      BitsAbove(nb, k, c, y);
    } else if n > 0 {
      CanonicalRange(s);
      LimitFacts(n);
      assert nb > 0 by { MulLe(1, n, BITS); }
      PowHalf(nb);
    } else {
      PowZero(2);
    }
  }

  lemma PowHalf(n: nat)
    requires n > 0
    ensures Pow(2, n) == 2 * Pow(2, n - 1)
  {}

  // ---------- shifts

  /** The word that holds a bit, and the bit's place in it. */
  function WordOf(bit: nat): nat { bit / BITS }

  function BitOf(bit: nat): (r: nat)
    ensures r < BITS
  {
    bit % BITS
  }

  /** Low words in front of a number, zero or not, weigh the rest by their number. */
  lemma SignedSplit(s: seq<word>, i: nat)
    requires i < |s|
    ensures SVal(B, s) == Val(B, s[..i]) + Pow(B, i) * SVal(B, s[i..])
  {
    hide Val, Pow, SVal;
    var n := |s| - 1;
    var t := s[..n] + [S(s[n])];
    SignedDigits(s);
    SignedDigits(s[i..]);
    ValSplit(B, t, i);
    assert t[..i] == s[..i];
    assert t[i..] == s[i..][..n - i] + [S(s[n])];
  }

  lemma PowSplit(v: nat)
    ensures Pow(B, WordOf(v)) * Pow(2, BitOf(v)) == Pow(2, v)
  {
    var k := WordOf(v);
    PowBits(k);
    PowAdd(2, k * BITS, BitOf(v));
    assert k * BITS + BitOf(v) == v;
  }

  /** operator<<: multiplication by a power of two. */
  method Shl(x: Big, v: nat) returns (r: Big)
    ensures Value(r) == Value(x) * Pow(2, v)
  {
    hide Val, Pow, SVal;
    var k := WordOf(v);
    var size := k + 1 + |x.Data|;
    var d := new word[size];
    var i := 0;
    while i < size
      invariant 0 <= i <= size
      invariant forall j | 0 <= j < i :: d[j] == 0
    {
      d[i] := 0;
      i := i + 1;
    }
    ImpShld(x.Data, d, k, BitOf(v));
    ghost var s := d[..];
    assert s[k..] == d[k..k + |x.Data| + 1];
    SignedSplit(s, k);
    ValZeros(B, s[..k]);
    PowSplit(v);
    assert Pow(B, k) * (Value(x) * Pow(2, BitOf(v))) == Value(x) * Pow(2, v) by {
      hide *;
      MulSwap(Pow(B, k), Value(x), Pow(2, BitOf(v)));
    }
    r := FromWords(d[..]);
  }

  lemma DivOfDiv(x: int, a: nat, b: nat)
    requires a > 0 && b > 0
    ensures a * b > 0 && (x / a) / b == x / (a * b)
  {
    hide *;
    MulLe(1, a, b);
    var y, r := x / a, x % a;
    assert x == a * y + r;
    var z, t := y / b, y % b;
    assert y == b * z + t;
    assert x == z * (a * b) + (a * t + r) by {
      MulAdd(a, b * z, t);
      MulAssoc(a, b, z);
    }
    MulLe(t + 1, b, a);
    MulLe(0, t, a);
    MulAdd(a, t, 1);
    DivUnique(x, a * b, z, a * t + r);
  }

  lemma DivRange(x: int, a: int, b: nat)
    requires a >= 0 && b > 0 && -(a * b) <= x < a * b
    ensures -a <= x / b < a
  {
    hide *;
    var y, r := x / b, x % b;
    assert x == b * y + r;
    MulAdd(b, y, 1);
    if y >= a {
      MulLe(a, y, b);
    } else if y < -a {
      MulLe(y + 1, -a, b);
    }
  }

  /** x / 2^v from the words at and above the one that holds bit v. */
  lemma ShiftedValue(s: seq<word>, v: nat)
    requires WordOf(v) < |s|
    ensures SVal(B, s[WordOf(v)..]) / Pow(2, BitOf(v)) == SVal(B, s) / Pow(2, v)
  {
    hide Val, Pow, SVal;
    var k, f := WordOf(v), Pow(2, BitOf(v));
    var p := Pow(B, k);
    SignedSplit(s, k);
    WordDigits(s[..k]);
    ValBound(B, s[..k]);
    BaseFacts();
    DivUnique(SVal(B, s), p, SVal(B, s[k..]), Val(B, s[..k]));
    PowSplit(v);
    DivOfDiv(SVal(B, s), p, f);
  }

  lemma ShiftSizes(len: nat, v: nat, m: nat, size: int)
    requires v < len && (m - 1) * BITS <= len < m * BITS
    requires size == (if len - v + BITS > BITS then len - v + BITS else BITS) / BITS
    ensures WordOf(len) == m - 1 && WordOf(v) <= m - 1
    ensures size > 0 && size * BITS > len - v
    ensures WordOf(v) + size == if BitOf(v) > BitOf(len) then m - 1 else m
  {}

  lemma OneWord()
    ensures BITS / BITS == 1
  {}

  lemma ShiftedRange(x: int, len: nat, v: nat, size: nat)
    requires v < len && Folded(x) < Pow(2, len) && size > 0 && size * BITS > len - v
    ensures -Limit(size) <= x / Pow(2, v) < Limit(size)
  {
    hide Val, Pow, SVal, Limit;
    var a, b := Pow(2, len - v), Pow(2, v);
    PowAdd(2, len - v, v);
    DivRange(x, a, b);
    PowBits(size);
    PowHalf(size * BITS);
    LimitFacts(size);
    PowMonotone(2, len - v, size * BITS - 1);
  }

  lemma ShiftedOut(x: int, len: nat, v: nat)
    requires len <= v && Folded(x) < Pow(2, len)
    ensures x / Pow(2, v) == if x < 0 then -1 else 0
  {
    hide Pow;
    PowMonotone(2, len, v);
    if x < 0 {
      DivUnique(x, Pow(2, v), -1, x + Pow(2, v));
    } else {
      DivUnique(x, Pow(2, v), 0, x);
    }
  }

  /** The words the shift reads, with the bits coming in at the top, denote the words from bit v upward. */
  lemma ShrOperand(x: Big, v: nat, s: seq<word>, prev: word)
    requires WordOf(v) < |x.Data|
    requires var words := x.Data[WordOf(v)..];
             || (words == s && prev == Ext(Sign(x) == -1))
             || (|words| > 1 && s == words[..|words| - 1] && prev == words[|words| - 1])
    ensures Val(B, s + [S(prev)]) == SVal(B, x.Data[WordOf(v)..])
  {
    hide Val, Pow, SVal, Limit;
    var words := x.Data[WordOf(v)..];
    ValSnoc(B, s, S(prev));
    if words == s && prev == Ext(Sign(x) == -1) {
      WordBounds(x.Data);
      WordBounds(words);
      SignExtendVal(words);
    } else {
      TopOf(words);
    }
  }

  lemma ShrResult(x: Big, v: nat, s: seq<word>, prev: word, d: seq<word>)
    requires v < Length(x) && WordOf(v) < |x.Data| && |d| > 0 && |d| * BITS > Length(x) - v
    requires Val(B, s + [S(prev)]) == SVal(B, x.Data[WordOf(v)..])
    requires Val(B, d + [S(prev) / Pow(2, BitOf(v))]) == Val(B, s + [S(prev)]) / Pow(2, BitOf(v))
    ensures SVal(B, d) == Value(x) / Pow(2, v)
  {
    hide Val, Pow, SVal, Limit, FoldSign, BitScanReverse, Length;
    LengthBounds(x);
    ShiftedValue(x.Data, v);
    ShiftedRange(Value(x), Length(x), v, |d|);
    var k := S(prev) / Pow(2, BitOf(v));
    ValSnoc(B, d, k);
    DropTop(d, k, Value(x) / Pow(2, v));
  }

  /** operator>>: division by a power of two, rounding down. */
  method Shr(x: Big, v: nat) returns (r: Big)
    ensures Value(r) == Value(x) / Pow(2, v)
  {
    hide Val, Pow, SVal, Limit, FoldSign, BitScanReverse, Ext, Canonical, WordOf, BitOf, Length;
    var len, m := Length(x), |x.Data|;
    var size := (if len - v + BITS > BITS then len - v + BITS else BITS) / BITS;
    var prev := Ext(Sign(x) == -1);
    if v < len {
      ShiftSizes(len, v, m, size);
      var top, off := WordOf(len), BitOf(v);
      if off > BitOf(len) {
        prev := x.Data[top];
        top := top - 1;
      }
      var s := x.Data[top - size + 1..top + 1];
      var d := new word[size];
      ImpShrd(s, d, off, prev);
      ShrOperand(x, v, s, prev);
      ShrResult(x, v, s, prev, d[..]);
      r := FromWords(d[..]);
    } else {
      OneWord();
      assert size == 1;
      LengthBounds(x);
      ShiftedOut(Value(x), len, v);
      SmallValue([prev]);
      r := FromWords([prev]);
    }
  }

  lemma SignExtendVal(s: seq<word>)
    requires |s| > 0
    ensures Val(B, s + [if SVal(B, s) < 0 then -1 else 0]) == SVal(B, s)
  {
    WordBounds(s);
    ValSnoc(B, s, if SVal(B, s) < 0 then -1 else 0);
  }
}
