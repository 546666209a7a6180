/** The word-array primitives behind BigInteger, loop by loop as the assembler routines run them.
    A carry or borrow flag is a number 0 or 1; `less` is the processor's signed "less" condition
    (sign flag different from overflow flag) left by the last addition or subtraction. */
module WordArithmetic {
  import opened Positional
  import opened Words

  /** The digits c written so far, with k still to be added at the next place, make up `total`. */
  ghost predicate Written(c: seq<word>, k: int, total: int) {
    Val(B, c) + k * Pow(B, |c|) == total
  }

  lemma NothingWritten()
    ensures Written([], 0, 0) && Val(B, []) == 0
  {}

  /** One column: digit d written and k' carried on, in place of the carry k and the column's own weight. */
  lemma Column(c: seq<word>, k: int, total: int, d: word, k': int, weight: int)
    requires Written(c, k, total) && d + B * k' == weight + k
    ensures Written(c + [d], k', total + Pow(B, |c|) * weight)
  {
    var p := Pow(B, |c|);
    ValSnoc(B, c, d);
    calc {
      Val(B, c) + p * d + k' * (B * p);
      { MulAssoc(k', B, p); }
      Val(B, c) + p * d + (k' * B) * p;
      { MulAdd(p, d, k' * B); }
      Val(B, c) + (d + B * k') * p;
      { MulAdd(p, weight, k); }
      total + p * weight;
    }
  }

  function Ext(less: bool): (w: word)
    ensures S(w) == (if less then -1 else 0) && w == if less then B - 1 else 0
  {
    BaseFacts();
    if less then B - 1 else 0
  }

  /** The words written so far and the sign word on top of them. */
  lemma TopSign(c: seq<word>, less: bool, total: int)
    requires Written(c, if less then -1 else 0, total)
    ensures SVal(B, c + [Ext(less)]) == total
  {
    assert (c + [Ext(less)])[..|c|] == c;
  }

  lemma PrefixSigned(s: seq<word>, i: nat)
    requires i < |s|
    ensures SVal(B, s[..i + 1]) == Val(B, s[..i]) + Pow(B, i) * S(s[i])
  {
    assert s[..i + 1][..i] == s[..i];
  }

  // ---------- addition, subtraction, negation

  /** One column of an addition or subtraction, read both as unsigned and as signed. */
  lemma AddColumn(a: seq<word>, b: seq<word>, i: nat, c: seq<word>, k: int, d: word, k': int, less: bool)
    requires i < |a| == |b| && |c| == i
    requires Written(c, k, Val(B, a[..i]) + Val(B, b[..i]))
    requires d + B * k' == a[i] as int + b[i] + k
    requires d + B * (if less then -1 else 0) == S(a[i]) + S(b[i]) + k
    ensures Written(c + [d], k', Val(B, a[..i + 1]) + Val(B, b[..i + 1]))
    ensures Written(c + [d], if less then -1 else 0, SVal(B, a[..i + 1]) + SVal(B, b[..i + 1]))
  {
    hide *;
    var total, p, x: int, y: int := Val(B, a[..i]) + Val(B, b[..i]), Pow(B, i), a[i], b[i];
    Column(c, k, total, d, k', x + y);
    Column(c, k, total, d, if less then -1 else 0, S(a[i]) + S(b[i]));
    ValPrefix(B, a, i);
    ValPrefix(B, b, i);
    PrefixSigned(a, i);
    PrefixSigned(b, i);
    MulAdd(p, x, y);
    MulAdd(p, S(a[i]), S(b[i]));
  }

  lemma SubColumn(a: seq<word>, b: seq<word>, i: nat, c: seq<word>, k: int, d: word, k': int, less: bool)
    requires i < |a| == |b| && |c| == i
    requires Written(c, k, Val(B, a[..i]) - Val(B, b[..i]))
    requires d + B * k' == a[i] as int - b[i] + k
    requires d + B * (if less then -1 else 0) == S(a[i]) - S(b[i]) + k
    ensures Written(c + [d], k', Val(B, a[..i + 1]) - Val(B, b[..i + 1]))
    ensures Written(c + [d], if less then -1 else 0, SVal(B, a[..i + 1]) - SVal(B, b[..i + 1]))
  {
    hide *;
    var total, p, x: int, y: int := Val(B, a[..i]) - Val(B, b[..i]), Pow(B, i), a[i], b[i];
    Column(c, k, total, d, k', x - y);
    Column(c, k, total, d, if less then -1 else 0, S(a[i]) - S(b[i]));
    ValPrefix(B, a, i);
    ValPrefix(B, b, i);
    PrefixSigned(a, i);
    PrefixSigned(b, i);
    MulAdd(p, x, y);
    MulAdd(p, S(a[i]), S(b[i]));
  }

  /** c := a + b, one word longer than its operands, so never overflowing. */
  method ImpAddBignums(a: seq<word>, b: seq<word>, c: array<word>)
    requires |a| == |b| > 0 && c.Length == |a| + 1
    modifies c
    ensures SVal(B, c[..]) == SVal(B, a) + SVal(B, b)
  {
    hide Pow, Val;
    NothingWritten();
    var carry: int, less, i := 0, false, 0;
    assert c[..i] == a[..i] == b[..i] == [];
    while i < |a|
      invariant 0 <= i <= |a| && 0 <= carry <= 1
      invariant Written(c[..i], carry, Val(B, a[..i]) + Val(B, b[..i]))
      invariant i > 0 ==> Written(c[..i], if less then -1 else 0, SVal(B, a[..i]) + SVal(B, b[..i]))
    {
      var x: int, y: int := a[i], b[i];
      SignedRange(a[i]);
      SignedRange(b[i]);
      BaseFacts();
      var t := x + y + carry;
      less := S(a[i]) + S(b[i]) + carry < 0;
      ghost var low := c[..i];
      if t >= B {
        AddColumn(a, b, i, low, carry, t - B, 1, less);
        c[i], carry := t - B, 1;
      } else {
        AddColumn(a, b, i, low, carry, t, 0, less);
        c[i], carry := t, 0;
      }
      assert c[..i + 1] == low + [c[i]];
      i := i + 1;
    }
    ghost var low := c[..|a|];
    TopSign(low, less, SVal(B, a[..i]) + SVal(B, b[..i]));
    c[|a|] := Ext(less);
    assert a[..i] == a && b[..i] == b && c[..] == low + [Ext(less)];
  }

  /** c := a - b, one word longer than its operands. */
  method ImpSubBignums(a: seq<word>, b: seq<word>, c: array<word>)
    requires |a| == |b| > 0 && c.Length == |a| + 1
    modifies c
    ensures SVal(B, c[..]) == SVal(B, a) - SVal(B, b)
  {
    hide Pow, Val;
    NothingWritten();
    var borrow: int, less, i := 0, false, 0;
    assert c[..i] == a[..i] == b[..i] == [];
    while i < |a|
      invariant 0 <= i <= |a| && 0 <= borrow <= 1
      invariant Written(c[..i], -borrow, Val(B, a[..i]) - Val(B, b[..i]))
      invariant i > 0 ==> Written(c[..i], if less then -1 else 0, SVal(B, a[..i]) - SVal(B, b[..i]))
    {
      var x: int, y: int := a[i], b[i];
      SignedRange(a[i]);
      SignedRange(b[i]);
      BaseFacts();
      var t := x - y - borrow;
      less := S(a[i]) - S(b[i]) - borrow < 0;
      ghost var low := c[..i];
      if t < 0 {
        SubColumn(a, b, i, low, -borrow, t + B, -1, less);
        c[i], borrow := t + B, 1;
      } else {
        SubColumn(a, b, i, low, -borrow, t, 0, less);
        c[i], borrow := t, 0;
      }
      assert c[..i + 1] == low + [c[i]];
      i := i + 1;
    }
    ghost var low := c[..|a|];
    TopSign(low, less, SVal(B, a[..i]) - SVal(B, b[..i]));
    c[|a|] := Ext(less);
    assert a[..i] == a && b[..i] == b && c[..] == low + [Ext(less)];
  }

  lemma NegColumn(a: seq<word>, i: nat, c: seq<word>, k: int, d: word, k': int, less: bool)
    requires i < |a| && |c| == i
    requires Written(c, k, -Val(B, a[..i]))
    requires d + B * k' == -a[i] + k
    requires d + B * (if less then -1 else 0) == -S(a[i]) + k
    ensures Written(c + [d], k', -Val(B, a[..i + 1]))
    ensures Written(c + [d], if less then -1 else 0, -SVal(B, a[..i + 1]))
  {
    var p, x: int := Pow(B, i), a[i];
    Column(c, k, -Val(B, a[..i]), d, k', 0 - x);
    Column(c, k, -Val(B, a[..i]), d, if less then -1 else 0, -S(a[i]));
    ValPrefix(B, a, i);
    PrefixSigned(a, i);
    MulAdd(p, 0, a[i]);
    MulAdd(p, 0, S(a[i]));
  }

  /** c := -a, one word longer; c may be a itself. */
  method ImpNegBignum(a: array<word>, siz: nat, c: array<word>)
    requires 0 < siz <= a.Length && siz < c.Length
    modifies c
    ensures SVal(B, c[..siz + 1]) == -SVal(B, old(a[..siz]))
    ensures c[siz + 1..] == old(c[siz + 1..])
  {
    hide Pow, Val;
    NothingWritten();
    ghost var s := a[..siz];
    var borrow: int, less, i := 0, false, 0;
    assert c[..i] == s[..i] == [];
    while i < siz
      invariant 0 <= i <= siz && 0 <= borrow <= 1
      invariant forall k | i <= k < siz :: a[k] == s[k]
      invariant c[siz + 1..] == old(c[siz + 1..])
      invariant Written(c[..i], -borrow, -Val(B, s[..i]))
      invariant i > 0 ==> Written(c[..i], if less then -1 else 0, -SVal(B, s[..i]))
    {
      var x: int := a[i];
      SignedRange(s[i]);
      BaseFacts();
      var t := 0 - x - borrow;
      less := 0 - S(a[i]) - borrow < 0;
      ghost var low := c[..i];
      if t < 0 {
        NegColumn(s, i, low, -borrow, t + B, -1, less);
        c[i], borrow := t + B, 1;
      } else {
        NegColumn(s, i, low, -borrow, t, 0, less);
        c[i], borrow := t, 0;
      }
      assert c[..i + 1] == low + [c[i]];
      i := i + 1;
    }
    ghost var low := c[..siz];
    TopSign(low, less, -SVal(B, s[..i]));
    c[siz] := Ext(less);
    assert s[..i] == s && c[..siz + 1] == low + [Ext(less)];
  }

  // ---------- multiplication

  lemma ProductFits(x: int, y: int, w: int, k: int)
    requires 0 <= x < B && 0 <= y < B && 0 <= w < B && 0 <= k < B
    ensures 0 <= x * y + w + k < B * B
  {
    hide *;
    MulLe(x, B - 1, y);
    MulLe(y, B - 1, B - 1);
    MulAdd(B, B, 1);
    MulAdd(B - 1, B, 1);
    MulLe(0, x, y);
  }

  lemma SplitDouble(t: int)
    requires 0 <= t < B * B
    ensures 0 <= t / B < B && 0 <= t % B < B && t % B + B * (t / B) == t
  {
    hide *;
    BaseFacts();
    if t / B >= B {
      MulLe(B, t / B, B);
    }
    if t / B < 0 {
      MulLe(t / B, -1, B);
    }
  }

  lemma MulRowStep(a: seq<word>, i: nat, y: int, old0: seq<word>, c: seq<word>, k: int, d: word, k': int)
    requires i < |a| && i < |old0| && |c| == i
    requires Written(c, k, Val(B, old0[..i]) + Val(B, a[..i]) * y)
    requires d + B * k' == a[i] * y + old0[i] + k
    ensures Written(c + [d], k', Val(B, old0[..i + 1]) + Val(B, a[..i + 1]) * y)
  {
    hide *;
    var p, x: int, w: int, va := Pow(B, i), a[i], old0[i], Val(B, a[..i]);
    Column(c, k, Val(B, old0[..i]) + va * y, d, k', x * y + w);
    ValPrefix(B, a, i);
    ValPrefix(B, old0, i);
    MulAdd(p, x * y, w);
    MulAdd(y, va, p * x);
    MulAssoc(p, x, y);
  }

  lemma MulRowDone(a: seq<word>, b: seq<word>, j: nat, head: seq<word>, old0: seq<word>, row: seq<word>, k: word)
    requires j < |b| && |head| == j && |old0| == |a| == |row|
    requires Val(B, head + old0) == Val(B, a) * Val(B, b[..j])
    requires Written(row, k, Val(B, old0) + Val(B, a) * b[j])
    ensures Val(B, head + (row + [k])) == Val(B, a) * Val(B, b[..j + 1])
  {
    hide Val, Pow;
    var y: int := b[j];
    ValConcat(B, head, old0);
    ValConcat(B, head, row + [k]);
    ValSnoc(B, row, k);
    ValPrefix(B, b, j);
    MulRowAlgebra(Pow(B, j), Val(B, row + [k]), Val(B, a), y, Val(B, old0), Val(B, b[..j]));
  }

  lemma MulRowAlgebra(p: int, x: int, va: int, y: int, vo: int, vb: int)
    requires x == vo + va * y
    ensures p * x == p * vo + va * (p * y)
    ensures va * (vb + p * y) == va * vb + va * (p * y)
  {
    hide *;
    MulAdd(p, vo, va * y);
    MulAdd(va, vb, p * y);
    MulSwap(p, va, y);
  }

  /** One row of the schoolbook product: c[j..j+m+1] gains a times y. */
  method MulRow(a: seq<word>, y: word, c: array<word>, j: nat)
    requires |a| > 0 && j + |a| < c.Length
    modifies c
    ensures forall k | 0 <= k < j || j + |a| < k < c.Length :: c[k] == old(c[k])
    ensures Written(c[j..j + |a|], c[j + |a|], Val(B, old(c[j..j + |a|])) + Val(B, a) * y)
  {
    hide Pow, Val;
    NothingWritten();
    var m := |a|;
    ghost var old0 := c[j..j + m];
    var k: int, i := 0, 0;
    assert c[j..j] == old0[..0] == a[..0] == [];
    while i < m
      invariant 0 <= i <= m && 0 <= k < B
      invariant forall l | 0 <= l < j || j + i <= l < c.Length :: c[l] == old(c[l])
      invariant Written(c[j..j + i], k, Val(B, old0[..i]) + Val(B, a[..i]) * y)
    {
      var t := a[i] * y + c[i + j] + k;
      ghost var low := c[j..j + i];
      assert c[i + j] == old0[i];
      ProductFits(a[i], y, c[i + j], k);
      SplitDouble(t);
      MulRowStep(a, i, y, old0, low, k, t % B, t / B);
      c[i + j], k := t % B, t / B;
      assert c[j..j + i + 1] == low + [c[i + j]];
      i := i + 1;
    }
    ghost var row := c[j..j + m];
    c[j + m] := k;
    assert c[j..j + m] == row && old0[..m] == old0 && a[..m] == a;
  }

  /** c[..m + n] := a * b, the schoolbook product of two unsigned numbers. */
  method ImpMulBignums(a: seq<word>, b: seq<word>, c: array<word>)
    requires |a| > 0 && |b| > 0 && c.Length >= |a| + |b|
    modifies c
    ensures Val(B, c[..|a| + |b|]) == Val(B, a) * Val(B, b)
  {
    hide Pow, Val;
    NothingWritten();
    var m, n := |a|, |b|;
    var z := 0;
    while z < m + n
      invariant 0 <= z <= m + n && forall k | 0 <= k < z :: c[k] == 0
    {
      c[z] := 0;
      z := z + 1;
    }
    var j := 0;
    ValZeros(B, c[..m]);
    assert b[..0] == [];
    while j < n
      invariant 0 <= j <= n
      invariant Val(B, c[..m + j]) == Val(B, a) * Val(B, b[..j])
    {
      ghost var head, old0 := c[..j], c[j..j + m];
      assert c[..m + j] == head + old0;
      MulRow(a, b[j], c, j);
      ghost var row := c[j..j + m];
      assert c[..m + j + 1] == head + (row + [c[j + m]]);
      MulRowDone(a, b, j, head, old0, row, c[j + m]);
      j := j + 1;
    }
    assert b[..n] == b;
  }

  /** The double word x * y + k as two words: the multiply instruction followed by adding a carry. */
  method MulWide(x: word, y: word, k: word) returns (lo: word, hi: word)
    ensures lo + B * hi == x * y + k
  {
    ProductFits(x, y, k, 0);
    SplitDouble(x * y + k);
    lo, hi := (x * y + k) % B, (x * y + k) / B;
  }

  // ---------- multiply-subtract and add-back, the two updates of long division

  lemma MulSubStep(v: seq<word>, i: nat, q: int, old0: seq<word>, c: seq<word>, carry: int, cf: int,
                   lo: int, hi: int, d: word, cf': int)
    requires i < |v| && i < |old0| && |c| == i
    requires Written(c, -(carry + cf), Val(B, old0[..i]) - Val(B, v[..i]) * q)
    requires lo + B * hi == v[i] * q + carry
    requires d == old0[i] as int - lo - cf + B * cf'
    ensures Written(c + [d], -(hi + cf'), Val(B, old0[..i + 1]) - Val(B, v[..i + 1]) * q)
  {
    hide *;
    var p, x: int, w: int, va := Pow(B, i), v[i], old0[i], Val(B, v[..i]);
    MulAdd(B, hi, cf');
    assert B * -(hi + cf') == -(B * (hi + cf'));
    Column(c, -(carry + cf), Val(B, old0[..i]) - va * q, d, -(hi + cf'), w - x * q);
    ValPrefix(B, v, i);
    ValPrefix(B, old0, i);
    MulAdd(p, w, x * q);
    MulAdd(q, va, p * x);
    MulAssoc(p, x, q);
  }

  /** u[off..off+n+1] -= v * q; the flag says that the difference was negative and wrapped around. */
  method ImpMulSubBignums(u: array<word>, off: nat, v: seq<word>, q: word) returns (borrow: bool)
    requires |v| > 0 && off + |v| < u.Length
    modifies u
    ensures forall k | 0 <= k < off || off + |v| < k < u.Length :: u[k] == old(u[k])
    ensures Written(u[off..off + |v| + 1], if borrow then -1 else 0,
                    Val(B, old(u[off..off + |v| + 1])) - Val(B, v) * q)
  {
    hide Pow, Val;
    NothingWritten();
    var n := |v|;
    ghost var old0 := u[off..off + n + 1];
    var carry: int, cf: int, i := 0, 0, 0;
    assert u[off..off] == old0[..0] == v[..0] == [];
    assert Val(B, old0[..0]) - Val(B, v[..0]) * q == 0;
    while i < n
      invariant 0 <= i <= n && 0 <= carry < B && 0 <= cf <= 1
      invariant forall l | 0 <= l < off || off + i <= l < u.Length :: u[l] == old(u[l])
      invariant Written(u[off..off + i], -(carry + cf), Val(B, old0[..i]) - Val(B, v[..i]) * q)
    {
      var lo, hi := MulWide(v[i], q, carry);
      var x: int := u[off + i];
      var d := x - lo - cf;
      ghost var low := u[off..off + i];
      assert x == old0[i];
      if d < 0 {
        MulSubStep(v, i, q, old0, low, carry, cf, lo, hi, d + B, 1);
        u[off + i], carry, cf := d + B, hi, 1;
      } else {
        MulSubStep(v, i, q, old0, low, carry, cf, lo, hi, d, 0);
        u[off + i], carry, cf := d, hi, 0;
      }
      assert u[off..off + i + 1] == low + [u[off + i]];
      i := i + 1;
    }
    assert v[..n] == v && old0[..n + 1] == old0;
    var w: int := u[off + n];
    var d := w - carry - cf;
    ghost var low := u[off..off + n];
    assert w == old0[n];
    borrow := d < 0;
    Column(low, -(carry + cf), Val(B, old0[..n]) - Val(B, v) * q, if borrow then d + B else d, if borrow then -1 else 0, w);
    ValPrefix(B, old0, n);
    u[off + n] := if borrow then d + B else d;
    assert u[off..off + n + 1] == low + [u[off + n]];
  }

  /** u[off..off+n+1] += v, the final carry dropped. */
  method ImpAddBignumsEx(u: array<word>, off: nat, v: seq<word>) returns (ghost carry: int)
    requires |v| > 0 && off + |v| < u.Length
    modifies u
    ensures forall k | 0 <= k < off || off + |v| < k < u.Length :: u[k] == old(u[k])
    ensures Written(u[off..off + |v| + 1], carry, Val(B, old(u[off..off + |v| + 1])) + Val(B, v))
  {
    hide Pow, Val;
    NothingWritten();
    var n := |v|;
    ghost var old0 := u[off..off + n + 1];
    var cf: int, i := 0, 0;
    assert u[off..off] == old0[..0] == v[..0] == [];
    while i < n
      invariant 0 <= i <= n && 0 <= cf <= 1
      invariant forall l | 0 <= l < off || off + i <= l < u.Length :: u[l] == old(u[l])
      invariant Written(u[off..off + i], cf, Val(B, old0[..i]) + Val(B, v[..i]))
    {
      var x: int, y: int := u[off + i], v[i];
      var t := x + y + cf;
      ghost var low, total := u[off..off + i], Val(B, old0[..i]) + Val(B, v[..i]);
      var d := if t >= B then t - B else t;
      assert x == old0[i];
      Column(low, cf, total, d, if t >= B then 1 else 0, x + y);
      ValPrefix(B, old0, i);
      ValPrefix(B, v, i);
      MulAdd(Pow(B, i), x, y);
      u[off + i], cf := d, if t >= B then 1 else 0;
      assert u[off..off + i + 1] == low + [u[off + i]];
      i := i + 1;
    }
    assert v[..n] == v && old0[..n + 1] == old0;
    var x: int := u[off + n];
    var t := x + cf;
    ghost var low, total := u[off..off + n], Val(B, old0[..n]) + Val(B, v);
    var d := if t >= B then t - B else t;
    assert x == old0[n];
    carry := if t >= B then 1 else 0;
    Column(low, cf, total, d, carry, x);
    ValPrefix(B, old0, n);
    u[off + n] := d;
    assert u[off..off + n + 1] == low + [u[off + n]];
  }

  // ---------- division by one word

  lemma ShortDivStep(s: seq<word>, i: nat, rem: int, quot: int, q: word, d: int, rem': int)
    requires i < |s| && 0 < q
    requires Val(B, s[i + 1..]) == q * quot + rem
    requires rem * B + s[i] == q * d + rem'
    ensures Val(B, s[i..]) == q * (d + B * quot) + rem'
  {
    hide Pow, Val;
    ValCons(s[i], s[i + 1..]);
    assert s[i..] == [s[i]] + s[i + 1..];
    MulAdd(B, q * quot, rem);
    MulAdd(q, d, B * quot);
    assert B * (q * quot) == q * (B * quot) by {
      hide *;
      MulAssoc(B, q, quot);
      MulAssoc(q, B, quot);
    }
  }

  lemma ValCons(d: int, s: seq<int>)
    ensures Val(B, [d] + s) == d + B * Val(B, s)
  {
    assert ([d] + s)[1..] == s;
  }

  /** One step of the divide instruction: it needs the high word below the divisor. */
  lemma DivideWord(rem: word, w: word, q: word)
    requires rem < q
    ensures var t := rem * B + w; t == q * (t / q) + t % q && 0 <= t / q < B && 0 <= t % q < q
  {
    hide *;
    BaseFacts();
    var t := rem * B + w;
    MulLe(0, rem, B);
    MulLe(rem + 1, q, B);
    MulAdd(B, rem, 1);
    var d := t / q;
    assert t == q * d + t % q;
    if d >= B {
      MulLe(B, d, q);
    }
    if d < 0 {
      MulLe(d, -1, q);
    }
  }

  /** d := s / q, returning s % q. The caller passes one word more than it wants of the quotient,
      and that top word is below q: the divide instruction would fault otherwise. */
  method ImpShortDiv(s: seq<word>, d: array<word>, q: word) returns (rem: word)
    requires d.Length + 1 == |s| && s[|s| - 1] < q
    modifies d
    ensures Val(B, s) == q * Val(B, d[..]) + rem && rem < q
  {
    hide Pow, Val;
    NothingWritten();
    var i := d.Length;
    rem := s[i];
    assert s[i..] == [s[i]] && d[i..] == [];
    ValCons(s[i], []);
    assert s[i..] == [s[i]] + [];
    assert q * Val(B, d[i..]) == 0;
    while i > 0
      invariant 0 <= i <= d.Length && rem < q
      invariant Val(B, s[i..]) == q * Val(B, d[i..]) + rem
    {
      i := i - 1;
      DivideWord(rem, s[i], q);
      var t := rem * B + s[i];
      ghost var high := d[i + 1..];
      ShortDivStep(s, i, rem, Val(B, high), q, t / q, t % q);
      d[i], rem := t / q, t % q;
      assert d[i..] == [d[i]] + high;
      ValCons(d[i], high);
    }
    assert s[0..] == s && d[0..] == d[..];
  }

  // ---------- shifts

  /** The two halves of a word cut at bit BITS - amt multiply back to the base. */
  lemma CutPowers(amt: nat)
    requires amt <= BITS
    ensures Pow(2, amt) * Pow(2, BITS - amt) == B
    ensures Pow(2, amt) > 0 && Pow(2, BITS - amt) > 0
  {
    PowAdd(2, amt, BITS - amt);
  }

  /** The low word of (hi, lo) shifted right: the double-shift instruction. */
  function ShiftRight(hi: word, lo: word, amt: nat): (w: word) {
    BaseFacts();
    ((hi * B + lo) / Pow(2, amt)) % B
  }

  lemma ShiftQuotient(w: int, prev: int, f: nat, g: nat)
    requires f * g == B && g > 0
    ensures (w * B + prev) / g == w * f + prev / g
  {
    hide *;
    var ph, pl := prev / g, prev % g;
    assert prev == g * ph + pl;
    MulAdd(g, w * f, ph);
    MulAssoc(w, f, g);
    DivUnique(w * B + prev, g, w * f + ph, pl);
  }

  /** Shifting the double word (w, prev) right by g's exponent leaves w's low part over prev's high part. */
  lemma ShiftWord(w: int, prev: int, f: nat, g: nat)
    requires f * g == B && f > 0 && g > 0 && 0 <= w < B && 0 <= prev < B
    ensures (w * B + prev) / g % B + B * (w / g) == w * f + prev / g
  {
    hide *;
    var ph, wh, wl := prev / g, w / g, w % g;
    ShiftQuotient(w, prev, f, g);
    HighPart(prev, f, g);
    assert w == g * wh + wl;
    assert w * f + ph == wh * B + (wl * f + ph) by {
      MulAdd(f, g * wh, wl);
      MulAssoc(f, g, wh);
    }
    assert 0 <= wl * f + ph < B by {
      MulLe(wl + 1, g, f);
      MulLe(0, wl, f);
      MulAdd(f, wl, 1);
    }
    BaseFacts();
    DivUnique(w * f + ph, B, wh, wl * f + ph);
  }

  lemma HighPart(w: int, f: nat, g: nat)
    requires f * g == B && f > 0 && g > 0 && 0 <= w < B
    ensures 0 <= w / g < f
  {
    hide *;
    var h := w / g;
    assert w == g * h + w % g;
    if h >= f {
      MulLe(f, h, g);
    }
    if h < 0 {
      MulLe(h, -1, g);
    }
  }

  /** Dividing the signed reading of a word takes f off the quotient when the sign bit is set. */
  lemma SignedQuotient(w: word, f: nat, g: nat)
    requires f * g == B && f > 0 && g > 0
    ensures S(w) / g == if w >= HALF then w / g - f else w / g
    ensures S(w) % g == w % g
  {
    hide *;
    SignedRange(w);
    var h, l := w / g, w % g;
    assert w == g * h + l;
    if w >= HALF {
      MulAdd(g, h, f);
      assert w - B == (h - f) * g + l;
      DivUnique(w - B, g, h - f, l);
    }
  }

  lemma ShldStep(s: seq<word>, i: nat, f: nat, g: nat, c: seq<word>, prev: word, d: word)
    requires i < |s| && |c| == i && f * g == B && f > 0 && g > 0
    requires Written(c, prev / g, Val(B, s[..i]) * f)
    requires d == (s[i] * B + prev) / g % B
    ensures Written(c + [d], s[i] / g, Val(B, s[..i + 1]) * f)
    ensures Written(c + [d], S(s[i]) / g, SVal(B, s[..i + 1]) * f)
  {
    hide *;
    var p, w: int, v := Pow(B, i), s[i], Val(B, s[..i]);
    ShiftWord(w, prev, f, g);
    Column(c, prev / g, v * f, d, w / g, w * f);
    MulAdd(f, v, p * w);
    MulAssoc(p, w, f);
    ValPrefix(B, s, i);
    SignedQuotient(s[i], f, g);
    SignedRange(s[i]);
    var sw := S(s[i]);
    MulAdd(f, w, B);
    assert w >= HALF ==> B * (w / g - f) == B * (w / g) - B * f by { MulAdd(B, w / g, f); }
    Column(c, prev / g, v * f, d, sw / g, sw * f);
    MulAdd(f, v, p * sw);
    MulAssoc(p, sw, f);
    PrefixSigned(s, i);
  }

  /** A signed quantity that fits in a word, as the word that denotes it. */
  function Low(k: int): (w: word)
    ensures -HALF <= k < HALF ==> S(w) == k
  {
    BaseFacts();
    assert -HALF <= k < HALF ==> S(k % B) == k by {
      if 0 <= k < HALF {
        DivUnique(k, B, 0, k);
      } else if -HALF <= k < 0 {
        DivUnique(k, B, -1, k + B);
      }
    }
    k % B
  }

  lemma TopSigned(c: seq<word>, k: int, total: int, d: word)
    requires Written(c, k, total) && S(d) == k
    ensures SVal(B, c + [d]) == total
  {
    assert (c + [d])[..|c|] == c;
  }

  lemma QuotientBounds(x: int, g: nat)
    requires -HALF <= x < HALF && g > 0
    ensures -HALF <= x / g < HALF
  {
    hide *;
    BaseFacts();
    var q := x / g;
    assert x == g * q + x % g;
    if q > 0 {
      MulLe(1, g, q);
    }
    if q < 0 {
      MulLe(1, g, -(q + 1));
      MulAdd(g, q, 1);
      assert -(q + 1) * g == -((q + 1) * g);
    }
  }

  /** d[off..off+n+1] := s * 2^amt, the top word carrying the sign. */
  method ImpShld(s: seq<word>, d: array<word>, off: nat, amt: nat)
    requires |s| > 0 && off + |s| < d.Length && amt < BITS
    modifies d
    ensures forall k | 0 <= k < off || off + |s| < k < d.Length :: d[k] == old(d[k])
    ensures SVal(B, d[off..off + |s| + 1]) == SVal(B, s) * Pow(2, amt)
  {
    hide Pow, Val, SVal, S, Low;
    NothingWritten();
    CutPowers(amt);
    var shift := BITS - amt;
    ghost var f, g := Pow(2, amt), Pow(2, shift);
    var prev: word, i := 0, 0;
    assert d[off..off] == s[..0] == [];
    DivUnique(0, g, 0, 0);
    assert Val(B, s[..0]) * f == 0;
    while i < |s|
      invariant 0 <= i <= |s|
      invariant forall l | 0 <= l < off || off + i <= l < d.Length :: d[l] == old(d[l])
      invariant Written(d[off..off + i], prev / g, Val(B, s[..i]) * f)
      invariant i > 0 ==> Written(d[off..off + i], S(prev) / g, SVal(B, s[..i]) * f)
    {
      ghost var low := d[off..off + i];
      var w := ShiftRight(s[i], prev, shift);
      ShldStep(s, i, f, g, low, prev, w);
      d[off + i], prev := w, s[i];
      assert d[off..off + i + 1] == low + [d[off + i]];
      i := i + 1;
    }
    ghost var low := d[off..off + |s|];
    var shift' := if shift < BITS - 1 then shift else BITS - 1;
    SignedShift(prev, shift, shift');
    SignedRange(prev);
    QuotientBounds(S(prev), g);
    d[off + |s|] := Low(S(prev) / Pow(2, shift'));
    assert s[..i] == s;
    TopSigned(low, S(prev) / g, SVal(B, s) * f, d[off + |s|]);
    assert d[off..off + |s| + 1] == low + [d[off + |s|]];
  }

  /** A shift by the full word width is done as a shift by one less: both leave only the sign. */
  lemma SignedShift(w: word, shift: nat, shift': nat)
    requires 0 < shift <= BITS && shift' == if shift < BITS - 1 then shift else BITS - 1
    ensures S(w) / Pow(2, shift) == S(w) / Pow(2, shift')
  {
    SignedRange(w);
    if shift == BITS {
      if S(w) >= 0 {
        DivUnique(S(w), B, 0, S(w));
        DivUnique(S(w), HALF, 0, S(w));
      } else {
        BaseFacts();
        DivUnique(S(w), B, -1, S(w) + B);
        DivUnique(S(w), HALF, -1, S(w) + HALF);
      }
    }
  }

  lemma ShrdAlgebra(w: int, prev: int, f: int, g: int, d: int, ph: int, pl: int, wh: int, wl: int)
    requires d == prev * g + wh - B * ph && f * g == B
    requires prev == f * ph + pl && w == f * wh + wl
    ensures w + B * pl == f * d + wl
  {
    hide *;
    MulSwap(f, prev, g);
    MulSwap(f, B, ph);
    MulAdd(f, prev * g + wh, B * ph);
    MulAdd(f, prev * g, wh);
    MulAdd(B, f * ph, pl);
  }

  /** One word of the right shift, from the top down: `rest` is the quotient of the words above. */
  lemma ShrdStep(w: int, prev: int, f: nat, g: nat, rest: int, d: int)
    requires f * g == B && f > 0
    requires d + B * (prev / f) == prev * g + w / f
    ensures w + B * (f * rest + prev % f) == f * (d + B * rest) + w % f
  {
    hide *;
    ShrdAlgebra(w, prev, f, g, d, prev / f, prev % f, w / f, w % f);
    MulAdd(B, f * rest, prev % f);
    MulAdd(f, d, B * rest);
    MulSwap(f, B, rest);
  }

  ghost predicate ShiftedDown(s: seq<word>, top: int, f: nat, d: seq<word>, cur: int)
    requires f > 0
  {
    Val(B, s + [top]) == f * Val(B, d + [top / f]) + cur % f
  }

  /** d := s >> amt, the bits of prev coming in at the top. */
  method ImpShrd(s: seq<word>, d: array<word>, amt: nat, prev: word)
    requires |s| == d.Length > 0 && amt < BITS
    modifies d
    ensures Val(B, d[..] + [S(prev) / Pow(2, amt)]) == Val(B, s + [S(prev)]) / Pow(2, amt)
  {
    hide Pow, Val, SVal, S, Low;
    CutPowers(amt);
    ghost var f, g := Pow(2, amt), Pow(2, BITS - amt);
    ghost var top, k := S(prev), S(prev) / f;
    var i, cur := |s|, prev;
    SignedQuotient(prev, g, f);
    assert ShiftedDown(s[i..], top, f, d[i..], cur) by {
      NothingWritten();
      assert s[i..] == d[i..] == [];
      ValCons(top, []);
      ValCons(k, []);
      assert [] + [top] == [top] + [] && [] + [k] == [k] + [];
      assert top == f * k + top % f;
    }
    while i > 0
      invariant 0 <= i <= |s|
      invariant ShiftedDown(s[i..], top, f, d[i..], cur)
    {
      i := i - 1;
      ghost var high := d[i + 1..];
      var w := ShiftRight(cur, s[i], amt);
      ShiftWord(cur, s[i], g, f);
      ShrdStep(s[i], cur, f, g, Val(B, high + [k]), w);
      d[i] := w;
      cur := s[i];
      assert s[i..] + [top] == [s[i]] + (s[i + 1..] + [top]);
      assert d[i..] + [k] == [d[i]] + (high + [k]);
      ValCons(s[i], s[i + 1..] + [top]);
      ValCons(d[i], high + [k]);
    }
    assert s[0..] == s && d[0..] == d[..];
    ghost var x, y := Val(B, s + [top]), Val(B, d[..] + [k]);
    DivUnique(x, f, y, cur % f);
  }
}
