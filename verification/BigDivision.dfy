/** BigInteger division and square root. */
module BigDivision {
  import opened Positional
  import opened Words
  import opened WordArithmetic
  import opened BigIntegers
  import opened BigShifts
  import opened LongDivision

  /** Division as C and C++ define it: the quotient is rounded toward zero. */
  ghost predicate IsQuotient(x: int, y: int, q: int, r: int) {
    && x == q * y + r
    && (if r < 0 then -r else r) < (if y < 0 then -y else y)
    && (r == 0 || (r < 0 <==> x < 0))
  }

  /** The two results of a division are determined by its operands. */
  lemma QuotientUnique(x: int, y: int, q: int, r: int, q': int, r': int)
    requires IsQuotient(x, y, q, r) && IsQuotient(x, y, q', r')
    ensures q == q' && r == r'
  {
    var d := if y < 0 then -y else y;
    var s, s' := if y < 0 then -q else q, if y < 0 then -q' else q';
    SignsMultiply(q, y);
    SignsMultiply(q', y);
    if x < 0 && (r > 0 || r' > 0) {
      assert false;
    }
    if x >= 0 {
      DivUnique(x, d, s, r);
      DivUnique(x, d, s', r');
    } else {
      assert -x == -s * d + -r && -x == -s' * d + -r' by {
        SignsMultiply(s, d);
        SignsMultiply(s', d);
      }
      DivUnique(-x, d, -s, -r);
      DivUnique(-x, d, -s', -r');
    }
  }

  /** Division of the magnitudes with the signs put back. */
  lemma SignedDivision(x: int, y: int, q: int, r: int)
    requires y != 0 && q >= 0 && r >= 0
    requires (if x < 0 then -x else x) == q * (if y < 0 then -y else y) + r && r < (if y < 0 then -y else y)
    ensures IsQuotient(x, y, if (x < 0) != (y < 0) then -q else q, if x < 0 then -r else r)
  {
    SignsMultiply(q, y);
  }

  // ---------- one machine word

  /** The processor's signed division: toward zero. */
  function TruncDiv(x: int, y: int): int
    requires y != 0
  {
    var q := (if x < 0 then -x else x) / (if y < 0 then -y else y);
    if (x < 0) != (y < 0) then -q else q
  }

  function TruncMod(x: int, y: int): int
    requires y != 0
  {
    var r := (if x < 0 then -x else x) % (if y < 0 then -y else y);
    if x < 0 then -r else r
  }

  lemma TruncDivision(x: int, y: int)
    requires y != 0 && -HALF < x < HALF && -HALF <= y < HALF
    ensures IsQuotient(x, y, TruncDiv(x, y), TruncMod(x, y))
    ensures -HALF <= TruncDiv(x, y) < HALF && -HALF <= TruncMod(x, y) < HALF
  {
    hide *;
    var u, v := if x < 0 then -x else x, if y < 0 then -y else y;
    SmallQuotient(u, v);
    TruncDef(x, y);
    SignedDivision(x, y, u / v, u % v);
  }

  lemma TruncDef(x: int, y: int)
    requires y != 0
    ensures var u, v := if x < 0 then -x else x, if y < 0 then -y else y;
            TruncDiv(x, y) == (if (x < 0) != (y < 0) then -(u / v) else u / v) && TruncMod(x, y) == if x < 0 then -(u % v) else u % v
  {}

  lemma SmallQuotient(u: int, v: int)
    requires u >= 0 && v > 0
    ensures u == u / v * v + u % v && 0 <= u / v <= u && 0 <= u % v <= u && u % v < v
  {
    hide *;
    var q, r := u / v, u % v;
    assert u == v * q + r;
    MulLe(1, v, q);
    MulLe(0, q, v);
  }

  /** A non-negative divisor of at most BITS bits is its own lowest word. */
  lemma LowWordIsValue(y: Big)
    requires 0 <= Value(y) && Length(y) <= BITS
    ensures y.Data[0] == Value(y)
  {
    hide Val, Pow, SVal, Limit, Length;
    LengthBounds(y);
    PowMonotone(2, Length(y), BITS);
    var s := y.Data;
    WordBounds(s);
    ValSplit(B, s, 1);
    assert s[..1] == [s[0]] + [];
    ValCons(s[0], []);
    NothingWritten();
    PowOne();
    BaseFacts();
    DivUnique(Val(B, s), B, Val(B, s[1..]), s[0]);
    DivUnique(Value(y), B, 0, Value(y));
  }

  lemma PowOne()
    ensures Pow(B, 1) == B
  {
    assert Pow(B, 0) == 1;
  }

  /** Division of a non-negative number by one that fits in a word. */
  method DivideShort(nx: Big, v: word) returns (q: Big, r: Big)
    requires 0 <= Value(nx) && v > 0
    ensures Value(nx) == Value(q) * v + Value(r) && 0 <= Value(r) < v && 0 <= Value(q)
  {
    hide Val, Pow, SVal, Limit;
    var size := |nx.Data|;
    var px := ExtendTo(nx, size + 1).value;
    var pq := new word[size];
    ExtendedTop(nx, px);
    var rem := ImpShortDiv(px, pq, v);
    ShortQuotient(nx, px, pq[..], v, rem);
    q := FromWords(pq[..]);
    r := FromWords([rem, 0]);
    RemainderWord(rem);
    assert v * Value(q) == Value(q) * v;
  }

  /** Extending a non-negative number by a word puts a zero on top. */
  lemma ExtendedTop(x: Big, p: seq<word>)
    requires 0 <= Value(x) && |p| > |x.Data| && SVal(B, p) == Value(x)
    requires p == x.Data + seq(|p| - |x.Data|, i => 0)
    ensures p[|p| - 1] == 0 && Val(B, p) == Value(x)
  {
    BaseFacts();
    WordBounds(p);
  }

  lemma ShortQuotient(x: Big, px: seq<word>, q: seq<word>, v: word, rem: word)
    requires 0 <= Value(x) == Val(B, px) && v > 0 && |q| == |x.Data| && Val(B, px) == v * Val(B, q) + rem
    ensures SVal(B, q) == Val(B, q) >= 0
  {
    hide Val, Pow, SVal, Limit;
    WordDigits(q);
    ValBound(B, q);
    WordBounds(x.Data);
    MulAtLeast(Val(B, q), v);
    UnsignedAsSigned(q);
  }

  lemma RemainderWord(rem: word)
    ensures SVal(B, [rem, 0]) == rem
  {
    hide Val, Pow;
    TopOf([rem, 0]);
    assert [rem, 0][..1] == [rem] + [];
    ValCons(rem, []);
    NothingWritten();
    BaseFacts();
    SignedRange(0);
  }

  // ---------- several machine words

  /** A number whose bit length is a whole number n of words has n words and a zero sign word, the top of the n words
      being at least HALF: the form long division wants of its divisor. */
  lemma NormalizedForm(y: Big, n: nat)
    requires n > 0 && 0 <= Value(y) && Length(y) == n * BITS
    ensures |y.Data| == n + 1 && y.Data[n - 1] >= HALF && Val(B, y.Data[..n]) == Value(y)
  {
    hide Val, Pow, SVal, Limit, Length, FoldSign, BitScanReverse;
    var s := y.Data;
    NormalizedWords(|s|, n);
    LengthBounds(y);
    PowBits(n);
    LimitFacts(n);
    PowHalf(n * BITS);
    LowWords(s);
    WordDigits(s[..n]);
    BaseFacts();
    LimitDef(n);
    TopDigit(B, HALF, s[..n]);
  }

  lemma NormalizedWords(m: nat, n: nat)
    requires (m - 1) * BITS <= n * BITS < m * BITS
    ensures m == n + 1
  {
    if m <= n {
      MulLe(m, n, BITS);
    } else if m - 1 >= n + 1 {
      MulLe(n + 1, m - 1, BITS);
    }
  }

  /** Shifting a positive number left moves its bit length. */
  lemma ShiftedLength(x: Big, y: Big, v: nat)
    requires 0 < Value(x) && Value(y) == Value(x) * Pow(2, v)
    ensures Length(y) == Length(x) + v
  {
    hide Val, Pow, SVal, Limit, Length, FoldSign, BitScanReverse;
    var l, p := Length(x), Pow(2, v);
    LengthBounds(x);
    LengthBounds(y);
    PowZero(2);
    PowAdd(2, l, v);
    PowAdd(2, l - 1, v);
    MulLt(Value(x), Pow(2, l), p);
    MulLe(Pow(2, l - 1), Value(x), p);
    var k := Length(y);
    if k < l + v {
      PowMonotone(2, k, l + v - 1);
    } else if k > l + v {
      PowMonotone(2, l + v, k - 1);
    }
  }

  /** The word counts that div computes from the lengths of the shifted operands. */
  lemma DividendWords(lx: nat, ly: nat, n: nat, m: int, count: nat)
    requires ly == n * BITS && ly <= lx && m == (lx + BITS - 1) / BITS - n
    requires (count - 1) * BITS <= lx < count * BITS
    ensures m >= 0 && lx <= (m + n) * BITS && count <= m + n + 1
  {
    var k := m + n;
    assert k * BITS >= lx && (k - 1) * BITS < lx;
    if k < n {
      MulLe(k, n - 1, BITS);
    }
    if count - 1 > k {
      MulLe(k + 1, count - 1, BITS);
    }
  }

  /** The dividend's top n words, one of them zero, are below the divisor. */
  lemma DividendTop(x: int, p: seq<word>, v: seq<word>, m: nat)
    requires |v| > 0 && v[|v| - 1] >= HALF && |p| == m + |v| + 1
    requires x == SVal(B, p) && 0 <= x < Pow(B, m + |v|)
    ensures Val(B, p) == x && Val(B, p[m + 1..]) < Val(B, v)
  {
    hide Val, Pow, SVal, Limit;
    var n := |v|;
    LowWords(p);
    assert p[..m + n + 1] == p;
    ValPrefix(B, p, m + n);
    var top := p[m + 1..];
    assert top[..n - 1] == p[m + 1..m + n];
    ValPrefix(B, top, n - 1);
    assert top[..n] == top;
    WordDigits(top[..n - 1]);
    ValBound(B, top[..n - 1]);
    WordDigits(v[..n - 1]);
    ValBound(B, v[..n - 1]);
    ValPrefix(B, v, n - 1);
    assert v[..n] == v;
    BaseFacts();
    MulLe(1, v[n - 1], Pow(B, n - 1));
  }

  /** The second division branch: both operands shifted so that the divisor's top bit is set. */
  method DivideLong(nx: Big, ny: Big) returns (q: Big, r: Big)
    requires 0 < Value(ny) <= Value(nx) && Length(ny) > BITS
    ensures Value(nx) == Value(q) * Value(ny) + Value(r) && 0 <= Value(r) < Value(ny) && 0 <= Value(q)
  {
    hide Val, Pow, SVal, Limit, Length, FoldSign, BitScanReverse, Canonical;
    var offset := Offset(Length(ny));
    var sx := Shl(nx, offset);
    var sy := Shl(ny, offset);
    var n, m := WordCounts(nx, ny, sx, sy, offset);
    var size := m + n + 1;
    var px := ExtendTo(sx, size).value;
    var pv := sy.Data[..n];
    ghost var x, v, f := Value(sx), Value(sy), Pow(2, offset);
    DividendTop(x, px, pv, m);
    var pu := new word[size](i requires 0 <= i < size => px[i]);
    var pq := new word[m + 2];
    assert pu[..] == px && pu[m + 1..] == px[m + 1..];
    DivideWords(pu, pv, pq, m);
    ghost var quot := pq[..];
    ClearTop(quot);
    q := FromWords(pq[..]);
    pu[n] := 0;
    ghost var low := pu[..n];
    assert pu[..n + 1] == low + [0];
    UnsignedWithZero(low);
    var rem := FromWords(pu[..n + 1]);
    r := Shr(rem, offset);
    UnshiftedDivision(Value(nx), Value(ny), f, Value(q), Value(rem));
  }

  /** (-len) & (BITS - 1): the distance to the next multiple of BITS. */
  function Offset(len: nat): (r: nat)
    ensures r < BITS && (len + r) % BITS == 0
  {
    var r := (BITS - len % BITS) % BITS;
    assert (len + r) % BITS == 0 by {
      var k := len / BITS;
      assert len == k * BITS + len % BITS;
      if len % BITS == 0 {
        assert r == 0;
      } else {
        DivUnique(len + r, BITS, k + 1, 0);
      }
    }
    r
  }

  method WordCounts(nx: Big, ny: Big, sx: Big, sy: Big, ghost offset: nat) returns (n: nat, m: nat)
    requires 0 < Value(ny) <= Value(nx) && Length(ny) > BITS
    requires (Length(ny) + offset) % BITS == 0
    requires Value(sx) == Value(nx) * Pow(2, offset) && Value(sy) == Value(ny) * Pow(2, offset)
    ensures n >= 2 && |sy.Data| == n + 1 && sy.Data[n - 1] >= HALF && Val(B, sy.Data[..n]) == Value(sy)
    ensures |sx.Data| <= m + n + 1 && 0 <= Value(sx) < Pow(B, m + n)
  {
    hide Val, Pow, SVal, Limit, Length, FoldSign, BitScanReverse, Canonical;
    ShiftedLength(nx, sx, offset);
    ShiftedLength(ny, sy, offset);
    NormalizedCount(Length(sy));
    n := |sy.Data| - 1;
    NormalizedWords(n + 1, Length(sy) / BITS);
    NormalizedForm(sy, n);
    LengthMonotone(ny, nx);
    m := WordsOver(Length(sx), Length(sy), n, |sx.Data|);
    LengthBounds(sx);
    MulLe(0, Value(nx), Pow(2, offset));
    PowBits(m + n);
    PowMonotone(2, Length(sx), (m + n) * BITS);
  }

  lemma NormalizedCount(len: nat)
    requires len % BITS == 0 && len > BITS
    ensures len == len / BITS * BITS && len / BITS >= 2
  {}

  method WordsOver(lx: nat, ly: nat, n: nat, ghost count: nat) returns (m: nat)
    requires ly == n * BITS && ly <= lx && (count - 1) * BITS <= lx < count * BITS
    ensures lx <= (m + n) * BITS && count <= m + n + 1
  {
    DividendWords(lx, ly, n, (lx + BITS - 1) / BITS - n, count);
    m := (lx + BITS - 1) / BITS - n;
  }

  lemma LengthMonotone(x: Big, y: Big)
    requires 0 < Value(x) <= Value(y)
    ensures Length(x) <= Length(y)
  {
    hide Val, Pow, SVal, Limit, Length, FoldSign, BitScanReverse;
    LengthBounds(x);
    LengthBounds(y);
    PowZero(2);
    if Length(y) < Length(x) {
      PowMonotone(2, Length(y), Length(x) - 1);
    }
  }

  lemma ClearTop(s: seq<word>)
    requires |s| > 1 && s[|s| - 1] == 0
    ensures SVal(B, s) == Val(B, s) >= 0
  {
    BaseFacts();
    WordBounds(s);
    WordDigits(s);
    ValBound(B, s);
  }

  lemma UnsignedWithZero(s: seq<word>)
    requires |s| > 0
    ensures SVal(B, s + [0]) == Val(B, s) >= 0
  {
    hide *;
    BaseFacts();
    TopOf(s + [0]);
    assert (s + [0])[..|s|] == s;
    SignedRange(0);
    MulAdd(Pow(B, |s|), 0, 0);
  }

  /** Dividing f*x by f*y gives the quotient of x by y and f times the remainder. */
  lemma UnshiftedDivision(x: int, y: int, f: nat, q: int, rem: int)
    requires f > 0 && y > 0 && x * f == q * (y * f) + rem && 0 <= rem < y * f
    ensures x == q * y + rem / f && 0 <= rem / f < y
  {
    hide *;
    var r := x - q * y;
    MulAdd(f, x, q * y);
    MulAssoc(q, y, f);
    assert rem == r * f;
    DivUnique(rem, f, r, 0);
    if r < 0 {
      MulLe(r, -1, f);
    }
    if r >= y {
      MulLe(y, r, f);
    }
  }

  // ---------- div

  /** div: quotient and remainder, or an error for a zero divisor. */
  method Div(x: Big, y: Big) returns (r: Result<(Big, Big)>)
    ensures r.Throw? <==> Value(y) == 0
    ensures r.Throw? ==> r.error == DivideByZero
    ensures r.Ok? ==> IsQuotient(Value(x), Value(y), Value(r.value.0), Value(r.value.1))
  {
    hide Val, Pow, SVal, Limit, Length, FoldSign, BitScanReverse, Canonical, IsQuotient, TruncDiv, TruncMod;
    if Sign(y) == 0 {
      return Throw(DivideByZero);
    }
    if |x.Data| == 1 && |y.Data| == 1 && x.Data[0] != HALF {
      SmallValue(x.Data);
      SmallValue(y.Data);
      SignedRange(x.Data[0]);
      SignedRange(y.Data[0]);
      BaseFacts();
      var num, den := S(x.Data[0]), S(y.Data[0]);
      TruncDivision(num, den);
      return Ok((FromInt(TruncDiv(num, den)), FromInt(TruncMod(num, den))));
    }
    var nx := Abs(x);
    var ny := Abs(y);
    var q, rem: Big;
    var c := Compare(nx, ny);
    if Length(ny) <= BITS {
      LowWordIsValue(ny);
      q, rem := DivideShort(nx, ny.Data[0]);
    } else if c < 0 {
      BaseFacts();
      q, rem := FromInt(0), nx;
      assert Value(q) * Value(ny) == 0;
    } else {
      q, rem := DivideLong(nx, ny);
    }
    SignedDivision(Value(x), Value(y), Value(q), Value(rem));
    if (Sign(x) == -1) != (Sign(y) == -1) {
      q := Neg(q);
    }
    if Sign(x) == -1 {
      rem := Neg(rem);
    }
    r := Ok((q, rem));
  }

  // ---------- square root

  ghost predicate IsRoot(n: int, s: int) {
    s >= 0 && s * s <= n < (s + 1) * (s + 1)
  }

  lemma {:induction false} RootExists(n: nat) returns (s: nat)
    ensures IsRoot(n, s)
  {
    s := 0;
    while (s + 1) * (s + 1) <= n
      invariant s * s <= n
      decreases n - s * s
    {
      s := s + 1;
    }
  }

  /** The mean of x and n / x never falls below t when t^2 <= n, and not below t either when t^2 = n + 1 unless x is t. */
  lemma NewtonStaysAbove(n: int, x: int, d: int, t: int)
    requires x > 0 && n < x * (d + 1)
    requires t * t <= n || (t * t == n + 1 && x != t)
    ensures x + d >= 2 * t
  {
    hide *;
    if x + d < 2 * t {
      var e := t - x;
      MulLe(d + 1, t + e, x);
      DifferenceOfSquares(t, e);
      SquareAtLeast(e);
    }
  }

  lemma DifferenceOfSquares(t: int, e: int)
    ensures (t + e) * (t - e) == t * t - e * e
  {
    hide *;
    MulAdd(t - e, t, e);
    MulAdd(t, t, e);
    MulAdd(e, t, e);
  }

  lemma SquareAtLeast(e: int)
    ensures e * e >= 0 && (e != 0 ==> e * e >= 1)
  {
    if e > 0 {
      MulLe(1, e, e);
    } else if e < 0 {
      MulLe(1, -e, -e);
    }
  }

  /** When x and n / x are next to each other, their mean is the root. */
  lemma NewtonDone(n: int, x: int, d: int, s: int)
    requires x > 0 && x * d <= n < x * (d + 1) && -1 <= x - d <= 1 && IsRoot(n, s)
    ensures (x + d) / 2 == s
  {
    hide IsRoot;
    var m := (x + d) / 2;
    assert m == if d < x then x - 1 else x;
    MulAdd(x, d, 1);
    RootAt(n, x, d, m);
    RootUnique(n, s, m);
  }

  lemma RootAt(n: int, x: int, d: int, m: int)
    requires x > 0 && x * d <= n < x * (d + 1) && -1 <= x - d <= 1 && m == if d < x then x - 1 else x
    ensures IsRoot(n, m)
  {
    if d == x - 1 {
      assert x * d == m * m + m;
    } else if d == x {
      assert n < x * x + x;
    } else {
      assert x * d == x * x + x && x * (d + 1) == x * x + 2 * x;
    }
  }

  lemma RootUnique(n: int, s: int, t: int)
    requires IsRoot(n, s) && IsRoot(n, t)
    ensures s == t
  {
    var u, v := if s < t then s else t, if s < t then t else s;
    var w := if u < v then u + 1 else v;
    MulLe(w, v, w);
    MulLe(w, v, v);
  }

  /** An iterate above the root moves down; one on the root is either the answer or steps up once, to one above it. */
  lemma NewtonMoves(n: int, x: int, d: int, s: int)
    requires x > 0 && x * d <= n < x * (d + 1) && IsRoot(n, s) && !(-1 <= x - d <= 1)
    ensures x > s ==> (x + d) / 2 < x
    ensures x == s ==> n + 1 == (s + 1) * (s + 1)
  {
    if x > s && d >= x {
      MulLe(x, d, x);
      MulLe(s + 1, x, s + 1);
      MulLe(s + 1, x, x);
    }
    if x == s {
      if d >= s + 2 {
        MulLe(s + 2, d, s);
      } else {
        MulLe(d + 1, s - 1, s);
      }
    }
  }

  /** sqrt: Newton's iteration from a power of two. The first iterate may lie below the root; every later one does not. */
  method Sqrt(bi: Big) returns (r: Result<Big>)
    ensures r.Throw? <==> Value(bi) < 0
    ensures r.Throw? ==> r.error == InvalidArgument
    ensures r.Ok? ==> IsRoot(Value(bi), Value(r.value))
  {
    hide Val, Pow, SVal, Limit, Length, Canonical, IsRoot;
    if Sign(bi) < 0 {
      return Throw(InvalidArgument);
    }
    ghost var n := Value(bi);
    ghost var s := RootExists(n);
    ghost var first := true;
    BaseFacts();
    var x := Shl(FromInt(1), Length(bi) / 2);
    while true
      invariant Value(x) > 0
      invariant !first ==> Value(x) >= s && (n + 1 == (s + 1) * (s + 1) ==> Value(x) > s)
      decreases first, Value(x) - s
    {
      var qr := Div(bi, x);
      var d := qr.value.0;
      ghost var xv, dv := Value(x), Value(d);
      QuotientBracket(n, xv, dv, Value(qr.value.1));
      var diff := Sub(x, d);
      var gap := Abs(diff);
      var c := Compare(gap, FromInt(2));
      var sum := Add(x, d);
      PowTwo1();
      x := Shr(sum, 1);
      if c < 0 {
        NewtonDone(n, xv, dv, s);
        return Ok(x);
      }
      RootDef(n, s);
      NewtonMoves(n, xv, dv, s);
      NewtonStaysAbove(n, xv, dv, s);
      if n + 1 == (s + 1) * (s + 1) {
        NewtonStep(n, xv, dv, s);
      }
      NewtonPositive(n, xv, dv);
      first := false;
    }
  }

  lemma PowTwo1()
    ensures Pow(2, 1) == 2
  {
    assert Pow(2, 0) == 1;
  }

  lemma RootDef(n: int, s: int)
    ensures IsRoot(n, s) <==> s >= 0 && s * s <= n < (s + 1) * (s + 1)
  {}

  lemma QuotientBracket(n: int, x: int, d: int, r: int)
    requires n >= 0 && x > 0 && IsQuotient(n, x, d, r)
    ensures x * d <= n < x * (d + 1) && d >= 0
  {
    MulAdd(x, d, 1);
    if d < 0 {
      MulLe(d, -1, x);
    }
  }

  /** On n = (s + 1)^2 - 1 an iterate other than s + 1 goes to s + 1 or above; s + 1 itself ends the search. */
  lemma NewtonStep(n: int, x: int, d: int, s: int)
    requires x > 0 && x * d <= n < x * (d + 1) && !(-1 <= x - d <= 1) && s >= 0 && n + 1 == (s + 1) * (s + 1)
    ensures x != s + 1 && (x + d) / 2 >= s + 1
  {
    if x == s + 1 {
      if d >= s + 1 {
        MulLe(s + 1, d, s + 1);
      } else if d < s {
        MulLe(d + 1, s, s + 1);
      }
    }
    NewtonStaysAbove(n, x, d, s + 1);
  }

  lemma NewtonPositive(n: int, x: int, d: int)
    requires n >= 0 && x > 0 && x * d <= n < x * (d + 1) && d >= 0 && !(-1 <= x - d <= 1)
    ensures (x + d) / 2 > 0
  {}
}
