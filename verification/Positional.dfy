/** Positional notation: the integer denoted by a little-endian sequence of digits in an arbitrary base.
    Digits may be any integers, so that the top digit can carry the sign of a two's-complement number. */
module Positional {

  function Pow(b: nat, n: nat): (r: nat)
    ensures b > 0 ==> r > 0
  {
    if n == 0 then 1 else b * Pow(b, n - 1)
  }

  function Val(b: nat, s: seq<int>): int {
    if s == [] then 0 else s[0] + b * Val(b, s[1..])
  }

  ghost predicate Digits(b: nat, s: seq<int>) {
    forall i | 0 <= i < |s| :: 0 <= s[i] < b
  }

  /** The digit of base b read as a two's-complement number. */
  function Signed(b: nat, d: int): int {
    if 2 * d >= b then d - b else d
  }

  /** The two's-complement value: all digits but the last count as usual, the last one with its sign. */
  function SVal(b: nat, s: seq<int>): int
    requires |s| > 0
  {
    Val(b, s[..|s| - 1]) + Pow(b, |s| - 1) * Signed(b, s[|s| - 1])
  }

  // ---------- powers

  lemma {:induction false} PowAdd(b: nat, m: nat, n: nat)
    ensures Pow(b, m + n) == Pow(b, m) * Pow(b, n)
  {
    hide Pow;
    if m == 0 {
      PowZero(b);
    } else {
      PowAdd(b, m - 1, n);
      PowNext(b, m - 1);
      PowNext(b, m - 1 + n);
      MulAssoc(b, Pow(b, m - 1), Pow(b, n));
    }
  }

  lemma PowZero(b: nat)
    ensures Pow(b, 0) == 1
  {}

  lemma {:induction false} PowMul(b: nat, m: nat, n: nat)
    ensures Pow(Pow(b, m), n) == Pow(b, m * n)
  {
    if n == 0 {
      assert m * n == 0;
    } else {
      PowMul(b, m, n - 1);
      assert m * n == m + m * (n - 1);
      PowAdd(b, m, m * (n - 1));
    }
  }

  lemma {:induction false} PowMonotone(b: nat, m: nat, n: nat)
    requires b > 0 && m <= n
    ensures Pow(b, m) <= Pow(b, n)
  {
    PowAdd(b, m, n - m);
    MulAtLeast(Pow(b, m), Pow(b, n - m));
  }

  // ---------- small facts about products

  lemma MulAtLeast(x: nat, y: nat)
    requires y > 0
    ensures x <= x * y
  {
    assert x * y == x + x * (y - 1);
    assert x * (y - 1) >= 0;
  }

  lemma MulLe(x: int, y: int, z: nat)
    requires x <= y
    ensures x * z <= y * z
  {
    assert (y - x) * z >= 0;
  }

  lemma MulLt(x: int, y: int, z: nat)
    requires x < y && z > 0
    ensures x * z < y * z
  {
    MulLe(x + 1, y, z);
    assert (x + 1) * z == x * z + z;
  }

  lemma MulAssoc(x: int, y: int, z: int)
    ensures x * (y * z) == (x * y) * z
  {}

  lemma MulSwap(x: int, y: int, z: int)
    ensures x * (y * z) == y * (x * z)
  {
    MulAssoc(x, y, z);
    MulAssoc(y, x, z);
  }

  lemma MulAdd(x: int, y: int, z: int)
    ensures x * (y + z) == x * y + x * z && (y + z) * x == y * x + z * x
    ensures x * (y - z) == x * y - x * z && (y - z) * x == y * x - z * x
  {}

  /** A quotient is pinned down by its remainder's range. */
  lemma DivUnique(x: int, d: int, q: int, r: int)
    requires d > 0 && x == q * d + r && 0 <= r < d
    ensures x / d == q && x % d == r
  {
    var q', r' := x / d, x % d;
    assert x == q' * d + r';
    assert (q - q') * d == r' - r by { MulAdd(d, q, q'); }
    if q > q' {
      MulLe(1, q - q', d);
    } else if q < q' {
      MulLe(q - q', -1, d);
    }
  }

  /** The digit above a number known to be small. */
  lemma DigitAbove(low: int, p: nat, d: int, y: int)
    requires 0 <= low < p && y == low + p * d
    ensures 0 <= y < p ==> d == 0 && y == low
    ensures 0 <= y + p < p ==> d == -1
  {
    hide *;
    DivUnique(y, p, d, low);
    if 0 <= y < p {
      DivUnique(y, p, 0, y);
    } else if 0 <= y + p < p {
      DivUnique(y, p, -1, y + p);
    }
  }

  // ---------- values of digit sequences

  lemma {:induction false} ValConcat(b: nat, s: seq<int>, t: seq<int>)
    ensures Val(b, s + t) == Val(b, s) + Pow(b, |s|) * Val(b, t)
  {
    if s == [] {
      assert s + t == t;
    } else {
      ValConcat(b, s[1..], t);
      assert (s + t)[1..] == s[1..] + t;
      var p, v := Pow(b, |s| - 1), Val(b, t);
      MulAdd(b, Val(b, s[1..]), p * v);
      MulAssoc(b, p, v);
    }
  }

  lemma ValSnoc(b: nat, s: seq<int>, d: int)
    ensures Val(b, s + [d]) == Val(b, s) + Pow(b, |s|) * d
  {
    ValConcat(b, s, [d]);
    assert Val(b, [d]) == d;
  }

  /** The value of the first i + 1 digits, the form loop invariants need. */
  lemma ValPrefix(b: nat, s: seq<int>, i: nat)
    requires i < |s|
    ensures Val(b, s[..i + 1]) == Val(b, s[..i]) + Pow(b, i) * s[i]
  {
    assert s[..i + 1] == s[..i] + [s[i]];
    ValSnoc(b, s[..i], s[i]);
  }

  lemma ValSplit(b: nat, s: seq<int>, i: nat)
    requires i <= |s|
    ensures Val(b, s) == Val(b, s[..i]) + Pow(b, i) * Val(b, s[i..])
  {
    assert s == s[..i] + s[i..];
    ValConcat(b, s[..i], s[i..]);
  }

  lemma {:induction false} ValBound(b: nat, s: seq<int>)
    requires Digits(b, s)
    ensures 0 <= Val(b, s) < Pow(b, |s|)
  {
    if s != [] {
      ValBound(b, s[1..]);
      var v, p := Val(b, s[1..]), Pow(b, |s| - 1);
      assert 0 <= s[0] < b;
      MulLe(v + 1, p, b);
      MulLe(0, v, b);
      MulAdd(b, v, 1);
    }
  }

  lemma {:induction false} ValZeros(b: nat, s: seq<int>)
    requires forall i | 0 <= i < |s| :: s[i] == 0
    ensures Val(b, s) == 0
  {
    if s != [] {
      ValZeros(b, s[1..]);
    }
  }

  lemma {:induction false} ValInjective(b: nat, s: seq<int>, t: seq<int>)
    requires Digits(b, s) && Digits(b, t) && |s| == |t| && Val(b, s) == Val(b, t)
    ensures s == t
  {
    if s != [] {
      var v, w := Val(b, s[1..]), Val(b, t[1..]);
      assert 0 <= s[0] < b && 0 <= t[0] < b;
      DivUnique(Val(b, s), b, v, s[0]);
      DivUnique(Val(b, t), b, w, t[0]);
      ValInjective(b, s[1..], t[1..]);
      assert s == [s[0]] + s[1..] && t == [t[0]] + t[1..];
    }
  }

  // ---------- two's complement

  lemma LeadingRange(low: int, p: int, d: int, h: int)
    requires 0 <= low < p && -h <= d < h
    ensures -h * p <= low + p * d < h * p
    ensures low + p * d < 0 <==> d < 0
  {
    hide *;
    MulLe(-h, d, p);
    MulLe(d, h - 1, p);
    MulAdd(p, h, 1);
    if d < 0 {
      MulLe(d, -1, p);
    } else {
      MulLe(0, d, p);
    }
  }

  lemma PowNext(b: nat, n: nat)
    ensures Pow(b, n + 1) == b * Pow(b, n)
  {}

  lemma PrefixDigits(b: nat, s: seq<int>, n: nat)
    requires Digits(b, s) && n <= |s|
    ensures 0 <= Val(b, s[..n]) < Pow(b, n)
  {
    ValBound(b, s[..n]);
  }

  /** A word sequence of length n denotes a number in [-b^n/2, b^n/2), and its top digit tells the sign. */
  lemma SignedBounds(b: nat, h: int, s: seq<int>)
    requires b == 2 * h && Digits(b, s) && |s| > 0
    ensures -h * Pow(b, |s| - 1) <= SVal(b, s) < h * Pow(b, |s| - 1)
    ensures SVal(b, s) < 0 <==> s[|s| - 1] >= h
    ensures SVal(b, s) == Val(b, s) - (if s[|s| - 1] >= h then Pow(b, |s|) else 0)
  {
    hide Val, Pow, Digits;
    var n := |s| - 1;
    var low, p, d := Val(b, s[..n]), Pow(b, n), Signed(b, s[n]);
    PrefixDigits(b, s, n);
    ValPrefix(b, s, n);
    assert s[..n + 1] == s;
    TopDigitRange(b, s, n);
    LeadingRange(low, p, d, h);
    PowNext(b, n);
    MulAdd(p, s[n], b);
  }

  lemma TopDigitRange(b: nat, s: seq<int>, n: nat)
    requires Digits(b, s) && n < |s|
    ensures 0 <= s[n] < b
  {}

  /** One more copy of the sign digit does not change the number. */
  lemma SignExtend1(b: nat, s: seq<int>, x: int)
    requires b > 1 && b % 2 == 0 && Digits(b, s) && |s| > 0
    requires x == if 2 * s[|s| - 1] >= b then b - 1 else 0
    ensures SVal(b, s + [x]) == SVal(b, s)
  {
    hide Val, Pow, Digits;
    var n := |s| - 1;
    assert s[..n + 1] == s && (s + [x])[..n + 1] == s;
    ValPrefix(b, s, n);
    var p, d := Pow(b, n), s[n];
    PowNext(b, n);
    if x != 0 {
      assert Signed(b, x) == -1;
      MulAdd(p, d, b);
    } else {
      assert Signed(b, x) == 0;
    }
  }

  /** Any number of copies of the sign digit does not change the number. */
  lemma {:induction false} SignExtend(b: nat, s: seq<int>, n: nat, x: int)
    requires b > 1 && b % 2 == 0 && Digits(b, s) && |s| > 0
    requires x == if 2 * s[|s| - 1] >= b then b - 1 else 0
    ensures SVal(b, s + seq(n, _ => x)) == SVal(b, s)
    decreases n
  {
    if n == 0 {
      assert s + seq(n, _ => x) == s;
    } else {
      SignExtend1(b, s, x);
      SignExtend(b, s + [x], n - 1, x);
      assert s + seq(n, _ => x) == s + [x] + seq(n - 1, _ => x);
    }
  }
}
