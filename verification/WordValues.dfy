/** Words of 32 bits as integers: their bytes, and what rotation does to the value. */
module WordValues {
  import opened ByteBuffers
  import opened Positional
  import opened Words32

  const HALF: nat := 0x8000_0000

  function Value(x: bv32): nat { x as int }

  /** The word with value n. */
  function WordOf(n: nat): bv32
    requires n < 0x1_0000_0000
  {
    n as bv32
  }

  lemma WordOfValue(x: bv32)
    requires Value(x) < 0x1_0000_0000
    ensures WordOf(Value(x)) == x
  {}

  lemma BytesValue(b0: bv8, b1: bv8, b2: bv8, b3: bv8)
    ensures Value((b0 as bv32 << 24) | (b1 as bv32 << 16) | (b2 as bv32 << 8) | (b3 as bv32))
         == ((b0 as int * 0x100 + b1 as int) * 0x100 + b2 as int) * 0x100 + b3 as int
  {}

  lemma ValueOfWord(n: nat)
    requires n < 0x1_0000_0000
    ensures Value(WordOf(n)) == n
  {
    hide Value, WordOf, ByteOf;
    var n1 := n / 0x100;
    var n2 := n1 / 0x100;
    var b0, b1, b2, b3 := ByteOf(n2 / 0x100), ByteOf(n2 % 0x100), ByteOf(n1 % 0x100), ByteOf(n % 0x100);
    BytesValue(b0, b1, b2, b3);
    WordOfValue((b0 as bv32 << 24) | (b1 as bv32 << 16) | (b2 as bv32 << 8) | (b3 as bv32));
  }

  // ---------- rotation by one bit

  function High(x: bv32): bv31 { (x >> 1) as bv31 }

  function Low(x: bv32): bv1 { (x & 1) as bv1 }

  function LowLast(hi: bv31, lo: bv1): bv32 { (hi as bv32 << 1) | (lo as bv32) }

  function LowFirst(hi: bv31, lo: bv1): bv32 { (hi as bv32) | (lo as bv32 << 31) }

  lemma ConcatLast(hi: bv31, lo: bv1)
    ensures Value((hi as bv32 << 1) | (lo as bv32)) == 2 * (hi as int) + lo as int
  {}

  lemma ConcatFirst(hi: bv31, lo: bv1)
    ensures Value((hi as bv32) | (lo as bv32 << 31)) == hi as int + HALF * (lo as int)
  {}

  lemma LowLastValue(hi: bv31, lo: bv1)
    ensures Value(LowLast(hi, lo)) == 2 * (hi as int) + lo as int
  {
    hide Value;
    ConcatLast(hi, lo);
  }

  lemma LowFirstValue(hi: bv31, lo: bv1)
    ensures Value(LowFirst(hi, lo)) == hi as int + HALF * (lo as int)
  {
    hide Value;
    ConcatFirst(hi, lo);
  }

  lemma Parts(x: bv32)
    ensures LowLast(High(x), Low(x)) == x
  {}

  lemma PartsTurned(x: bv32)
    ensures LowFirst(High(x), Low(x)) == Rotr(x, 1)
  {}

  lemma OneBit(lo: bv1)
    ensures 0 <= lo as int <= 1
  {}

  /** The remainder by p in front of the quotient. */
  function Exchanged(v: nat, p: nat, q: nat): nat
    requires p > 0
  {
    v / p + q * (v % p)
  }

  /** The lowest bit becomes the highest. */
  lemma RotrOne(x: bv32)
    ensures Value(Rotr(x, 1)) == Exchanged(Value(x), 2, HALF)
  {
    hide Value, Rotr, High, Low, LowLast, LowFirst, Exchanged;
    var hi, lo := High(x), Low(x);
    Parts(x);
    PartsTurned(x);
    LowLastValue(hi, lo);
    LowFirstValue(hi, lo);
    OneBit(lo);
    OneBitExchanged(hi as int, lo as int);
  }

  lemma OneBitExchanged(hi: nat, lo: nat)
    requires lo <= 1
    ensures Exchanged(2 * hi + lo, 2, HALF) == hi + HALF * lo
  {}

  // ---------- rotation by n bits

  lemma RotrNext(x: bv32, n: nat)
    requires 0 < n < 31
    ensures Rotr(x, n + 1) == Rotr(Rotr(x, n), 1)
  {
    hide Rotr;
    if n == 1 { Step1(x); } else if n == 2 { Step2(x); } else if n == 3 { Step3(x); } else if n == 4 { Step4(x); }
    else if n == 5 { Step5(x); } else if n == 6 { Step6(x); } else if n == 7 { Step7(x); } else if n == 8 { Step8(x); }
    else if n == 9 { Step9(x); } else if n == 10 { Step10(x); } else if n == 11 { Step11(x); } else if n == 12 { Step12(x); }
    else if n == 13 { Step13(x); } else if n == 14 { Step14(x); } else if n == 15 { Step15(x); } else if n == 16 { Step16(x); }
    else if n == 17 { Step17(x); } else if n == 18 { Step18(x); } else if n == 19 { Step19(x); } else if n == 20 { Step20(x); }
    else if n == 21 { Step21(x); } else if n == 22 { Step22(x); } else if n == 23 { Step23(x); } else if n == 24 { Step24(x); }
    else if n == 25 { Step25(x); } else if n == 26 { Step26(x); } else if n == 27 { Step27(x); } else if n == 28 { Step28(x); }
    else if n == 29 { Step29(x); } else { Step30(x); }
  }

  lemma Step1(x: bv32)
    ensures Rotr(x, 2) == Rotr(Rotr(x, 1), 1)
  {}

  lemma Step2(x: bv32)
    ensures Rotr(x, 3) == Rotr(Rotr(x, 2), 1)
  {}

  lemma Step3(x: bv32)
    ensures Rotr(x, 4) == Rotr(Rotr(x, 3), 1)
  {}

  lemma Step4(x: bv32)
    ensures Rotr(x, 5) == Rotr(Rotr(x, 4), 1)
  {}

  lemma Step5(x: bv32)
    ensures Rotr(x, 6) == Rotr(Rotr(x, 5), 1)
  {}

  lemma Step6(x: bv32)
    ensures Rotr(x, 7) == Rotr(Rotr(x, 6), 1)
  {}

  lemma Step7(x: bv32)
    ensures Rotr(x, 8) == Rotr(Rotr(x, 7), 1)
  {}

  lemma Step8(x: bv32)
    ensures Rotr(x, 9) == Rotr(Rotr(x, 8), 1)
  {}

  lemma Step9(x: bv32)
    ensures Rotr(x, 10) == Rotr(Rotr(x, 9), 1)
  {}

  lemma Step10(x: bv32)
    ensures Rotr(x, 11) == Rotr(Rotr(x, 10), 1)
  {}

  lemma Step11(x: bv32)
    ensures Rotr(x, 12) == Rotr(Rotr(x, 11), 1)
  {}

  lemma Step12(x: bv32)
    ensures Rotr(x, 13) == Rotr(Rotr(x, 12), 1)
  {}

  lemma Step13(x: bv32)
    ensures Rotr(x, 14) == Rotr(Rotr(x, 13), 1)
  {}

  lemma Step14(x: bv32)
    ensures Rotr(x, 15) == Rotr(Rotr(x, 14), 1)
  {}

  lemma Step15(x: bv32)
    ensures Rotr(x, 16) == Rotr(Rotr(x, 15), 1)
  {}

  lemma Step16(x: bv32)
    ensures Rotr(x, 17) == Rotr(Rotr(x, 16), 1)
  {}

  lemma Step17(x: bv32)
    ensures Rotr(x, 18) == Rotr(Rotr(x, 17), 1)
  {}

  lemma Step18(x: bv32)
    ensures Rotr(x, 19) == Rotr(Rotr(x, 18), 1)
  {}

  lemma Step19(x: bv32)
    ensures Rotr(x, 20) == Rotr(Rotr(x, 19), 1)
  {}

  lemma Step20(x: bv32)
    ensures Rotr(x, 21) == Rotr(Rotr(x, 20), 1)
  {}

  lemma Step21(x: bv32)
    ensures Rotr(x, 22) == Rotr(Rotr(x, 21), 1)
  {}

  lemma Step22(x: bv32)
    ensures Rotr(x, 23) == Rotr(Rotr(x, 22), 1)
  {}

  lemma Step23(x: bv32)
    ensures Rotr(x, 24) == Rotr(Rotr(x, 23), 1)
  {}

  lemma Step24(x: bv32)
    ensures Rotr(x, 25) == Rotr(Rotr(x, 24), 1)
  {}

  lemma Step25(x: bv32)
    ensures Rotr(x, 26) == Rotr(Rotr(x, 25), 1)
  {}

  lemma Step26(x: bv32)
    ensures Rotr(x, 27) == Rotr(Rotr(x, 26), 1)
  {}

  lemma Step27(x: bv32)
    ensures Rotr(x, 28) == Rotr(Rotr(x, 27), 1)
  {}

  lemma Step28(x: bv32)
    ensures Rotr(x, 29) == Rotr(Rotr(x, 28), 1)
  {}

  lemma Step29(x: bv32)
    ensures Rotr(x, 30) == Rotr(Rotr(x, 29), 1)
  {}

  lemma Step30(x: bv32)
    ensures Rotr(x, 31) == Rotr(Rotr(x, 30), 1)
  {}

  /** Rotation by n bits exchanges the quotient and the remainder by 2^n. */
  lemma {:induction false} RotrValue(x: bv32, n: nat)
    requires 0 < n < 32
    ensures Value(Rotr(x, n)) == Exchanged(Value(x), Pow(2, n), Pow(2, 32 - n))
  {
    hide Rotr, Value, Pow, Exchanged;
    SmallPowers();
    if n == 1 {
      RotrOne(x);
    } else {
      RotrValue(x, n - 1);
      RotrNext(x, n - 1);
      RotrOne(Rotr(x, n - 1));
      PowNext(2, n - 1);
      PowNext(2, 32 - n);
      PowAdd(2, n - 1, 32 - n);
      OneFurther(Value(x), Pow(2, n - 1), Pow(2, 32 - n));
    }
  }

  lemma SmallPowers()
    ensures Pow(2, 1) == 2 && Pow(2, 31) == HALF
  {
    hide Pow;
    PowZero(2);
    PowNext(2, 0);
    PowAdd(2, 1, 1);
    PowAdd(2, 2, 2);
    PowAdd(2, 4, 4);
    PowAdd(2, 8, 8);
    assert Pow(2, 8) == 0x100 && Pow(2, 16) == 0x1_0000;
    PowNext(2, 15);
    PowAdd(2, 16, 15);
  }

  /** One more bit goes from the quotient by p to the remainder by 2 p. */
  lemma OneFurther(v: nat, p: nat, q: nat)
    requires p > 0 && p * q == HALF
    ensures Exchanged(Exchanged(v, p, 2 * q), 2, HALF) == Exchanged(v, 2 * p, q)
  {
    var a, b := v / p, v % p;
    assert v == a * p + b;
    Turned(a / 2, a % 2, b, p, q, v, Exchanged(v, p, 2 * q));
  }

  lemma Turned(a: nat, c: nat, b: nat, p: nat, q: nat, v: nat, w: nat)
    requires c < 2 && b < p && v == (2 * a + c) * p + b && w == (2 * a + c) + 2 * q * b && p * q == HALF
    ensures w / 2 + HALF * (w % 2) == v / (2 * p) + q * (v % (2 * p))
  {
    MulAssoc(2, q, b);
    DivUnique(w, 2, a + q * b, c);
    MulAdd(p, 2 * a, c);
    MulAssoc(2, a, p);
    MulSwap(a, 2, p);
    MulLe(c, 1, p);
    DivUnique(v, 2 * p, a, c * p + b);
    MulAdd(q, c * p, b);
    MulSwap(q, c, p);
  }

  lemma RotlIsRotr(x: bv32, n: nat)
    requires 0 < n < 32
    ensures Rotl(x, n) == Rotr(x, 32 - n)
  {
    var p, q := x << n, x >> (32 - n);
    OrCommutes(p, q);
  }

  lemma OrCommutes(p: bv32, q: bv32)
    ensures p | q == q | p
  {}
}
