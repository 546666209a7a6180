/** The multi-word loop of div: Knuth's Algorithm D over arrays of words. */
module LongDivision {
  import opened Positional
  import opened Words
  import opened WordArithmetic

  // ---------- the trial digit

  /** qh is the greatest digit not above U3 / V2, the quotient of the leading words. */
  ghost predicate IsTrialDigit(u3: int, v2: int, qh: int) {
    && 0 <= qh < B
    && qh * v2 <= u3
    && (qh < B - 1 ==> u3 < (qh + 1) * v2)
  }

  ghost function Lead3(t: word, s: word, w: word): int { (t * B + s) * B + w }

  ghost function Lead2(v1: word, v2: word): int { v1 * B + v2 }

  /** What the refinement loop keeps: rh is the remainder of the first two words,
      and the next greater digit would be too large. */
  ghost predicate Refining(t: word, s: word, w: word, v1: word, v2: word, qh: int, rh: int) {
    && 0 <= qh < B && rh >= 0
    && qh * v1 + rh == t * B + s
    && (qh < B - 1 ==> Lead3(t, s, w) < (qh + 1) * Lead2(v1, v2))
  }

  lemma FirstEstimate(t: word, s: word, w: word, v1: word, v2: word, qh: int, rh: int)
    requires v1 > 0 && rh >= 0 && 0 <= qh < B && qh * v1 + rh == t * B + s && (rh < v1 || qh == B - 1)
    ensures Refining(t, s, w, v1, v2, qh, rh)
  {
    hide *;
    if rh < v1 {
      var x := t * B + s;
      MulAdd(v1, qh, 1);
      MulLe(x + 1, (qh + 1) * v1, B);
      MulAdd(B, x, 1);
      LeadDef(t, s, w, v1, v2);
      assert (qh + 1) * Lead2(v1, v2) == (qh + 1) * v1 * B + (qh + 1) * v2 by {
        MulAdd(qh + 1, v1 * B, v2);
        MulAssoc(qh + 1, v1, B);
      }
      MulLe(0, v2, qh + 1);
    }
    RefiningDef(t, s, w, v1, v2, qh, rh);
  }

  lemma LeadDef(t: word, s: word, w: word, v1: word, v2: word)
    ensures Lead3(t, s, w) == (t * B + s) * B + w && Lead2(v1, v2) == v1 * B + v2
  {}

  lemma RefiningDef(t: word, s: word, w: word, v1: word, v2: word, qh: int, rh: int)
    ensures Refining(t, s, w, v1, v2, qh, rh) <==>
            && 0 <= qh < B && rh >= 0
            && qh * v1 + rh == t * B + s
            && (qh < B - 1 ==> Lead3(t, s, w) < (qh + 1) * Lead2(v1, v2))
  {}

  /** The test of the refinement loop compares qh * V2 with U3 without computing either. */
  lemma TestMeaning(t: word, s: word, w: word, v1: word, v2: word, qh: int, rh: int)
    requires qh * v1 + rh == t * B + s
    ensures qh * v2 > rh * B + w <==> qh * Lead2(v1, v2) > Lead3(t, s, w)
  {
    hide *;
    LeadDef(t, s, w, v1, v2);
    MulAdd(qh, v1 * B, v2);
    MulAssoc(qh, v1, B);
    MulAdd(B, qh * v1, rh);
  }

  lemma LowerDigit(t: word, s: word, w: word, v1: word, v2: word, qh: int, rh: int)
    requires Refining(t, s, w, v1, v2, qh, rh) && qh * v2 > rh * B + w
    ensures qh > 0 && Refining(t, s, w, v1, v2, qh - 1, rh + v1)
  {
    hide *;
    RefiningDef(t, s, w, v1, v2, qh, rh);
    RefiningDef(t, s, w, v1, v2, qh - 1, rh + v1);
    TestMeaning(t, s, w, v1, v2, qh, rh);
    BaseFacts();
    MulLe(0, rh, B);
    MulAdd(v1, qh, 1);
  }

  lemma DigitFound(t: word, s: word, w: word, v1: word, v2: word, qh: int, rh: int)
    requires Refining(t, s, w, v1, v2, qh, rh) && (rh >= B || qh * v2 <= rh * B + w)
    ensures IsTrialDigit(Lead3(t, s, w), Lead2(v1, v2), qh)
  {
    hide *;
    RefiningDef(t, s, w, v1, v2, qh, rh);
    TestMeaning(t, s, w, v1, v2, qh, rh);
    if rh >= B {
      MulLe(B, rh, B);
      MulLe(qh, B, v2);
      MulLe(v2, B, B);
    }
    TrialDef(Lead3(t, s, w), Lead2(v1, v2), qh);
  }

  lemma TrialDef(u3: int, v2: int, qh: int)
    ensures IsTrialDigit(u3, v2, qh) <==> 0 <= qh < B && qh * v2 <= u3 && (qh < B - 1 ==> u3 < (qh + 1) * v2)
  {}

  /** The estimate from the top two words and its refinement by the third.
      Double words are plain integers here. */
  method TrialDigit(t: word, s: word, w: word, v1: word, v2: word) returns (qh: word)
    requires v1 > 0 && t <= v1
    ensures IsTrialDigit(Lead3(t, s, w), Lead2(v1, v2), qh)
  {
    hide *;
    BaseFacts();
    var rh: word;
    if t >= v1 {
      qh := B - 1;
      var rr: int := s + v1;
      assert qh * v1 + rr == t * B + s by { MulAdd(v1, B, 1); }
      FirstEstimate(t, s, w, v1, v2, qh, rr);
      if rr >= B {
        DigitFound(t, s, w, v1, v2, qh, rr);
        return;
      }
      rh := rr;
    } else {
      DivideWord(t, s, v1);
      qh, rh := (t * B + s) / v1, (t * B + s) % v1;
      FirstEstimate(t, s, w, v1, v2, qh, rh);
    }
    while qh * v2 > rh * B + w
      invariant Refining(t, s, w, v1, v2, qh, rh)
      decreases qh
    {
      LowerDigit(t, s, w, v1, v2, qh, rh);
      qh := qh - 1;
      var rr: int := rh + v1;
      if rr >= B {
        DigitFound(t, s, w, v1, v2, qh, rr);
        return;
      }
      rh := rr;
    }
    DigitFound(t, s, w, v1, v2, qh, rh);
  }

  // ---------- the trial digit against the whole numbers

  /** A trial digit is the true quotient digit or one more. */
  lemma TrialDigitBounds(u: int, v: int, u3: int, v2: int, p: int, ul: int, vl: int, qh: int)
    requires IsTrialDigit(u3, v2, qh) && p > 0 && v2 >= B
    requires u == u3 * p + ul && v == v2 * p + vl && 0 <= ul < p && 0 <= vl < p
    requires u < B * v
    ensures u < (qh + 1) * v
    ensures u >= (qh - 1) * v
  {
    hide *;
    TrialDef(u3, v2, qh);
    MulAdd(qh, v2 * p, vl);
    MulAssoc(qh, v2, p);
    MulAdd(v, qh, 1);
    // upper bound
    if qh < B - 1 {
      MulLe(u3 + 1, (qh + 1) * v2, p);
      MulAdd(p, u3, 1);
      MulAssoc(qh + 1, v2, p);
      MulAdd(qh + 1, v2 * p, vl);
      MulLe(0, vl, qh + 1);
    }
    // lower bound
    MulLe(qh * v2, u3, p);
    MulLe(vl, p, qh);
    MulLe(qh, B, p);
    MulLe(B, v2, p);
  }

  lemma LeadingThree(u: seq<word>, n: nat)
    requires n >= 2 && |u| == n + 1
    ensures Val(B, u) == Lead3(u[n], u[n - 1], u[n - 2]) * Pow(B, n - 2) + Val(B, u[..n - 2])
    ensures 0 <= Val(B, u[..n - 2]) < Pow(B, n - 2)
  {
    hide Pow, Val;
    ValSplit(B, u, n - 2);
    var a: int, b: int, c: int := u[n - 2], u[n - 1], u[n];
    assert u[n - 2..] == [u[n - 2], u[n - 1], u[n]];
    Val3(a, b, c);
    WordDigits(u[..n - 2]);
    ValBound(B, u[..n - 2]);
    assert Pow(B, n - 2) * Val(B, u[n - 2..]) == Val(B, u[n - 2..]) * Pow(B, n - 2);
  }

  lemma LeadingTwo(v: seq<word>, n: nat)
    requires n >= 2 && |v| == n
    ensures Val(B, v) == Lead2(v[n - 1], v[n - 2]) * Pow(B, n - 2) + Val(B, v[..n - 2])
    ensures 0 <= Val(B, v[..n - 2]) < Pow(B, n - 2)
  {
    hide Pow, Val;
    ValSplit(B, v, n - 2);
    var a: int, b: int := v[n - 2], v[n - 1];
    assert v[n - 2..] == [v[n - 2], v[n - 1]];
    Val2(a, b);
    WordDigits(v[..n - 2]);
    ValBound(B, v[..n - 2]);
    assert Pow(B, n - 2) * Val(B, v[n - 2..]) == Val(B, v[n - 2..]) * Pow(B, n - 2);
  }

  lemma Val2(a: int, b: int)
    ensures Val(B, [a, b]) == b * B + a
  {
    assert [a, b][1..] == [b] && [b][1..] == [];
    assert Val(B, [b]) == b;
  }

  lemma Val3(a: int, b: int, c: int)
    ensures Val(B, [a, b, c]) == (c * B + b) * B + a
  {
    assert [a, b, c][1..] == [b, c];
    Val2(b, c);
  }

  lemma TopComparison(u: seq<word>, v: seq<word>)
    requires |u| == |v| > 0 && Val(B, u) < Val(B, v)
    ensures u[|u| - 1] <= v[|v| - 1]
  {
    hide Pow, Val;
    var n := |u| - 1;
    var p := Pow(B, n);
    ValPrefix(B, u, n);
    ValPrefix(B, v, n);
    assert u[..n + 1] == u && v[..n + 1] == v;
    WordDigits(u[..n]);
    WordDigits(v[..n]);
    ValBound(B, u[..n]);
    ValBound(B, v[..n]);
    if u[n] > v[n] {
      MulLe(v[n] + 1, u[n], p);
      MulAdd(p, v[n], 1);
    }
  }

  lemma FitsBelow(u: seq<word>, v: seq<word>)
    requires |u| == |v| + 1 && Val(B, u[1..]) < Val(B, v)
    ensures Val(B, u) < B * Val(B, v)
  {
    hide Pow;
    var x, y := Val(B, u[1..]), Val(B, v);
    BaseFacts();
    MulLe(x + 1, y, B);
    MulAdd(B, x, 1);
  }

  lemma TopWordZero(u: seq<word>, v: seq<word>)
    requires |u| == |v| + 1 && Val(B, u) < Val(B, v)
    ensures u[|v|] == 0 && Val(B, u[..|v|]) == Val(B, u)
  {
    hide Pow, Val;
    var n := |v|;
    ValPrefix(B, u, n);
    assert u[..n + 1] == u;
    WordDigits(v);
    WordDigits(u[..n]);
    ValBound(B, v);
    ValBound(B, u[..n]);
    DigitAbove(Val(B, u[..n]), Pow(B, n), u[n], Val(B, u));
  }

  /** A value between 0 and the modulus is what wrapped subtraction and addition leave. */
  lemma NoWrap(s: seq<word>, k: int, total: int, m: nat)
    requires Written(s, k, total) && m == Pow(B, |s|)
    ensures 0 <= total < m ==> k == 0 && Val(B, s) == total
    ensures 0 <= total + m < m ==> k == -1
  {
    hide Pow, Val;
    WordDigits(s);
    ValBound(B, s);
    DigitAbove(Val(B, s), m, k, total);
  }

  /** One pass of the loop: estimate, multiply and subtract, and add back once if that went below zero. */
  method DivideStep(pu: array<word>, j: nat, pv: seq<word>) returns (qh: word)
    requires |pv| >= 2 && pv[|pv| - 1] >= HALF && j + |pv| < pu.Length
    requires Val(B, pu[j + 1..j + |pv| + 1]) < Val(B, pv)
    modifies pu
    ensures forall k | 0 <= k < j || j + |pv| < k < pu.Length :: pu[k] == old(pu[k])
    ensures Val(B, old(pu[j..j + |pv| + 1])) == qh * Val(B, pv) + Val(B, pu[j..j + |pv|])
    ensures Val(B, pu[j..j + |pv|]) < Val(B, pv) && pu[j + |pv|] == 0
  {
    hide Pow, Val, Written, IsTrialDigit;
    var n := |pv|;
    ghost var u := pu[j..j + n + 1];
    ghost var v, total := Val(B, pv), Val(B, u);
    BaseFacts();
    assert u[1..] == pu[j + 1..j + n + 1];
    TopComparison(u[1..], pv);
    qh := TrialDigit(pu[j + n], pu[j + n - 1], pu[j + n - 2], pv[n - 1], pv[n - 2]);
    DigitBounds(u, pv, qh);
    ghost var est: int := qh;
    assert total - v * est == total - est * v;
    ghost var rest := total - est * v;
    var borrow := ImpMulSubBignums(pu, j, pv, qh);
    ghost var u1 := pu[j..j + n + 1];
    ghost var m := Pow(B, n + 1);
    NoWrap(u1, if borrow then -1 else 0, rest, m);
    DivisorBelow(pv);
    if borrow {
      qh := qh - 1;
      ghost var carry := ImpAddBignumsEx(pu, j, pv);
      AddedBack(u1, pu[j..j + n + 1], rest, v, carry);
      NoWrap(pu[j..j + n + 1], carry - 1, rest + v, m);
      MulAdd(v, est, 1);
    }
    ghost var u2 := pu[j..j + n + 1];
    assert total == qh * v + Val(B, u2);
    TopWordZero(u2, pv);
    assert u2[..n] == pu[j..j + n];
  }

  lemma DivisorBelow(v: seq<word>)
    requires |v| > 0
    ensures 0 <= Val(B, v) < Pow(B, |v| + 1)
  {
    hide Val;
    WordDigits(v);
    ValBound(B, v);
    BaseFacts();
    MulAtLeast(Pow(B, |v|), B);
  }

  lemma AddedBack(s: seq<word>, t: seq<word>, total: int, v: int, carry: int)
    requires Written(s, -1, total) && |s| == |t| && Written(t, carry, Val(B, s) + v)
    ensures Written(t, carry - 1, total + v)
  {
    hide Pow, Val;
    MulAdd(Pow(B, |s|), carry, 1);
  }

  lemma DigitBounds(u: seq<word>, v: seq<word>, qh: word)
    requires |v| >= 2 && |u| == |v| + 1 && v[|v| - 1] >= HALF && Val(B, u[1..]) < Val(B, v)
    requires var n := |v|; IsTrialDigit(Lead3(u[n], u[n - 1], u[n - 2]), Lead2(v[n - 1], v[n - 2]), qh)
    ensures qh * Val(B, v) - Val(B, v) <= Val(B, u) < qh * Val(B, v) + Val(B, v)
    ensures qh == 0 ==> Val(B, u) >= qh * Val(B, v)
  {
    hide Pow, Val, IsTrialDigit, Lead3, Lead2;
    var n := |v|;
    LeadingThree(u, n);
    LeadingTwo(v, n);
    FitsBelow(u, v);
    BaseFacts();
    LeadDef(0, 0, 0, v[n - 1], v[n - 2]);
    MulLe(1, v[n - 1], B);
    TrialDigitBounds(Val(B, u), Val(B, v), Lead3(u[n], u[n - 1], u[n - 2]), Lead2(v[n - 1], v[n - 2]),
                     Pow(B, n - 2), Val(B, u[..n - 2]), Val(B, v[..n - 2]), qh);
    MulAdd(Val(B, v), qh, 1);
    WordDigits(u);
    ValBound(B, u);
  }

  /** What the words of the remainder so far (u), the quotient words found (q) and the divisor have to do
      with the dividend x when the digits at i and above are done. */
  ghost predicate Dividing(x: int, u: seq<word>, q: seq<word>, v: seq<word>, i: nat) {
    && i <= |q| && i + |v| <= |u|
    && (forall k | i + |v| <= k < |u| :: u[k] == 0)
    && Val(B, u[i..i + |v|]) < Val(B, v)
    && x == Val(B, q[i..]) * Pow(B, i) * Val(B, v) + Val(B, u[..i + |v|])
  }

  lemma DividingStep(x: int, u: seq<word>, u': seq<word>, q: seq<word>, q': seq<word>, v: seq<word>, j: nat)
    requires Dividing(x, u, q, v, j + 1) && |u'| == |u| && |q'| == |q|
    requires u'[..j] == u[..j] && u'[j + |v|..] == [0] + u[j + |v| + 1..] && q'[j + 1..] == q[j + 1..]
    requires Val(B, u[j..j + |v| + 1]) == q'[j] * Val(B, v) + Val(B, u'[j..j + |v|])
    requires Val(B, u'[j..j + |v|]) < Val(B, v)
    ensures Dividing(x, u', q', v, j)
  {
    hide Pow, Val;
    var n, d: int, w, qs := |v|, q'[j], Val(B, v), Val(B, q[j + 1..]);
    forall k | j + n <= k < |u'| ensures u'[k] == 0 {
      assert u'[k] == u'[j + n..][k - j - n];
      if k > j + n {
        assert u'[k] == u[k];
      }
    }
    ValSplit(B, u[..j + n + 1], j);
    assert u[..j + n + 1][..j] == u[..j] && u[..j + n + 1][j..] == u[j..j + n + 1];
    ValSplit(B, u'[..j + n], j);
    assert u'[..j + n][..j] == u[..j] && u'[..j + n][j..] == u'[j..j + n];
    assert q'[j..] == [q'[j]] + q[j + 1..];
    ValCons(q'[j], q[j + 1..]);
    PowNext(B, j);
    DividingAlgebra(x, Pow(B, j), Pow(B, j + 1), d, w, qs, Val(B, q'[j..]), Val(B, u[j..j + n + 1]), Val(B, u'[j..j + n]), Val(B, u[..j]));
  }

  lemma DividingAlgebra(x: int, p: int, p1: int, d: int, w: int, qs: int, q1: int, u: int, r: int, low: int)
    requires p1 == B * p && u == d * w + r && q1 == d + B * qs
    requires x == qs * p1 * w + (low + p * u)
    ensures x == q1 * p * w + (low + p * r)
  {
    hide *;
    MulAdd(p, d * w, r);
    MulAssoc(p, d, w);
    MulAdd(p, d, B * qs);
    MulAdd(w, d * p, B * qs * p);
    assert qs * p1 == B * qs * p by {
      MulSwap(qs, B, p);
      MulAssoc(B, qs, p);
    }
  }

  /** The loop over quotient digits. pu holds the dividend, one word longer than needed, and ends as the remainder;
      pq receives the quotient. */
  method DivideWords(pu: array<word>, pv: seq<word>, pq: array<word>, m: nat)
    requires |pv| >= 2 && pv[|pv| - 1] >= HALF
    requires pu.Length == m + |pv| + 1 && pq.Length == m + 2 && pu != pq
    requires Val(B, pu[m + 1..]) < Val(B, pv)
    modifies pu, pq
    ensures Val(B, old(pu[..])) == Val(B, pq[..]) * Val(B, pv) + Val(B, pu[..|pv|])
    ensures Val(B, pu[..|pv|]) < Val(B, pv)
    ensures pq[m + 1] == 0
  {
    hide Pow, Val, Dividing;
    var n := |pv|;
    ghost var x := Val(B, pu[..]);
    pq[m + 1] := 0;
    var j: int := m;
    DividingStart(x, pu[..], pq[..], pv, m + 1);
    while j >= 0
      invariant -1 <= j <= m
      invariant Dividing(x, pu[..], pq[..], pv, j + 1)
      invariant pq[m + 1] == 0
    {
      ghost var u, q := pu[..], pq[..];
      DividingTop(x, u, q, pv, j + 1);
      assert pu[j + 1..j + n + 1] == u[j + 1..j + 1 + n];
      assert u[j..j + n + 1] == pu[j..j + n + 1];
      var qh := DivideStep(pu, j, pv);
      pq[j] := qh;
      ghost var u', q' := pu[..], pq[..];
      assert u'[..j] == u[..j] && u'[j..j + n] == pu[j..j + n];
      assert u'[j + n..] == [0] + u[j + n + 1..];
      assert q'[j + 1..] == q[j + 1..];
      DividingStep(x, u, u', q, q', pv, j);
      j := j - 1;
    }
    DividingEnd(x, pu[..], pq[..], pv);
    assert pu[..][..n] == pu[..n];
  }

  lemma DividingStart(x: int, u: seq<word>, q: seq<word>, v: seq<word>, i: nat)
    requires |u| == i + |v| && |q| == i + 1 && q[i] == 0
    requires x == Val(B, u) && Val(B, u[i..]) < Val(B, v)
    ensures Dividing(x, u, q, v, i)
  {
    assert u[i..i + |v|] == u[i..] && u[..i + |v|] == u;
    ValZeros(B, q[i..]);
  }

  lemma DividingTop(x: int, u: seq<word>, q: seq<word>, v: seq<word>, i: nat)
    requires Dividing(x, u, q, v, i)
    ensures i + |v| <= |u| && Val(B, u[i..i + |v|]) < Val(B, v)
  {}

  lemma DividingEnd(x: int, u: seq<word>, q: seq<word>, v: seq<word>)
    requires Dividing(x, u, q, v, 0)
    ensures |v| <= |u| && Val(B, u[..|v|]) < Val(B, v) && x == Val(B, q) * Val(B, v) + Val(B, u[..|v|])
  {
    assert q[0..] == q && u[0..0 + |v|] == u[..|v|];
    assert Pow(B, 0) == 1;
  }
}
