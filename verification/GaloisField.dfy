/** The field GF(2^8) of AES: bytes as polynomials over GF(2), modulo x^8 + x^4 + x^3 + x + 1. */
module GaloisField {

  /** Addition in the field. */
  function Xor(a: bv8, b: bv8): bv8 { a ^ b }

  /** Multiplication by x. The bit shifted out comes back as 0x1B. */
  function XTime(a: bv8): bv8 {
    (a << 1) ^ Fold(a >> 7)
  }

  /** 0x1B for 1 and 0 for 0. */
  function Fold(t: bv8): bv8 { t ^ (t << 1) ^ (t << 3) ^ (t << 4) }

  /** a where bit k of b is set, otherwise 0. */
  function Sel(b: bv8, k: bv8, a: bv8): bv8
    requires k < 8
  {
    And(Mask(b, k), a)
  }

  function And(a: bv8, b: bv8): bv8 { a & b }

  /** All ones where bit k of b is set. */
  function Mask(b: bv8, k: bv8): bv8
    requires k < 8
  {
    0 - ((b >> k) & 1)
  }

  function Add4(p: bv8, q: bv8, r: bv8, s: bv8): bv8 { Xor(Xor(p, q), Xor(r, s)) }

  /** The terms that the bits of b select, added up. */
  function Sum(b: bv8, a0: bv8, a1: bv8, a2: bv8, a3: bv8, a4: bv8, a5: bv8, a6: bv8, a7: bv8): bv8 {
    Xor(Add4(Sel(b, 0, a0), Sel(b, 1, a1), Sel(b, 2, a2), Sel(b, 3, a3)),
        Add4(Sel(b, 4, a4), Sel(b, 5, a5), Sel(b, 6, a6), Sel(b, 7, a7)))
  }

  /** The polynomial product: the multiples of a by the powers of x that b contains. */
  function GfMul(a: bv8, b: bv8): bv8 {
    var a1 := XTime(a);
    var a2 := XTime(a1);
    var a3 := XTime(a2);
    var a4 := XTime(a3);
    var a5 := XTime(a4);
    var a6 := XTime(a5);
    var a7 := XTime(a6);
    Sum(b, a, a1, a2, a3, a4, a5, a6, a7)
  }

  // ---------- the product is linear

  lemma XTimeAdds(a: bv8, b: bv8)
    ensures XTime(Xor(a, b)) == Xor(XTime(a), XTime(b))
  {}

  lemma SelAdds(b: bv8, k: bv8, x: bv8, y: bv8)
    requires k < 8
    ensures Sel(b, k, Xor(x, y)) == Xor(Sel(b, k, x), Sel(b, k, y))
  {
    hide And, Mask, Xor;
    AndXor(Mask(b, k), x, y);
  }

  lemma AndXor(m: bv8, x: bv8, y: bv8)
    ensures And(m, Xor(x, y)) == Xor(And(m, x), And(m, y))
  {
    assert m & (x ^ y) == (m & x) ^ (m & y);
  }

  lemma SelXTime(b: bv8, k: bv8, x: bv8)
    requires k < 8
    ensures Sel(b, k, XTime(x)) == XTime(Sel(b, k, x))
  {}

  lemma XorSwap(p: bv8, q: bv8, r: bv8, s: bv8)
    ensures Xor(Xor(p, q), Xor(r, s)) == Xor(Xor(p, r), Xor(q, s))
  {
    assert (p ^ q) ^ (r ^ s) == (p ^ r) ^ (q ^ s);
  }

  lemma XorCommutes(p: bv8, q: bv8)
    ensures Xor(p, q) == Xor(q, p)
  {}

  lemma XorAssoc(p: bv8, q: bv8, r: bv8)
    ensures Xor(p, Xor(q, r)) == Xor(Xor(p, q), r)
  {
    assert p ^ (q ^ r) == (p ^ q) ^ r;
  }

  lemma XorCancels(p: bv8, q: bv8)
    ensures Xor(p, p) == 0 && Xor(p, Xor(p, q)) == q && Xor(Xor(p, q), q) == p
  {
    assert p ^ (p ^ q) == q && (p ^ q) ^ q == p;
  }

  lemma XorZero(x: bv8)
    ensures Xor(x, 0) == x && Xor(0, x) == x
  {}

  /** A common term drops out of a sum. */
  lemma XorPair(p: bv8, q: bv8, r: bv8)
    ensures Xor(Xor(p, q), Xor(p, r)) == Xor(q, r)
  {
    assert (p ^ q) ^ (p ^ r) == q ^ r;
  }

  lemma Add4Adds(p: bv8, q: bv8, r: bv8, s: bv8, p': bv8, q': bv8, r': bv8, s': bv8)
    ensures Add4(Xor(p, p'), Xor(q, q'), Xor(r, r'), Xor(s, s')) == Xor(Add4(p, q, r, s), Add4(p', q', r', s'))
  {
    hide Xor;
    XorSwap(p, p', q, q');
    XorSwap(r, r', s, s');
    XorSwap(Xor(p, q), Xor(p', q'), Xor(r, s), Xor(r', s'));
  }

  lemma SumAdds(b: bv8, x: bv8, x1: bv8, x2: bv8, x3: bv8, x4: bv8, x5: bv8, x6: bv8, x7: bv8,
                y: bv8, y1: bv8, y2: bv8, y3: bv8, y4: bv8, y5: bv8, y6: bv8, y7: bv8)
    ensures Sum(b, Xor(x, y), Xor(x1, y1), Xor(x2, y2), Xor(x3, y3), Xor(x4, y4), Xor(x5, y5), Xor(x6, y6), Xor(x7, y7))
         == Xor(Sum(b, x, x1, x2, x3, x4, x5, x6, x7), Sum(b, y, y1, y2, y3, y4, y5, y6, y7))
  {
    hide Sel, Xor, Add4;
    SelAdds(b, 0, x, y);
    SelAdds(b, 1, x1, y1);
    SelAdds(b, 2, x2, y2);
    SelAdds(b, 3, x3, y3);
    SelAdds(b, 4, x4, y4);
    SelAdds(b, 5, x5, y5);
    SelAdds(b, 6, x6, y6);
    SelAdds(b, 7, x7, y7);
    var p, p' := Add4(Sel(b, 0, x), Sel(b, 1, x1), Sel(b, 2, x2), Sel(b, 3, x3)),
                 Add4(Sel(b, 0, y), Sel(b, 1, y1), Sel(b, 2, y2), Sel(b, 3, y3));
    var q, q' := Add4(Sel(b, 4, x4), Sel(b, 5, x5), Sel(b, 6, x6), Sel(b, 7, x7)),
                 Add4(Sel(b, 4, y4), Sel(b, 5, y5), Sel(b, 6, y6), Sel(b, 7, y7));
    Add4Adds(Sel(b, 0, x), Sel(b, 1, x1), Sel(b, 2, x2), Sel(b, 3, x3), Sel(b, 0, y), Sel(b, 1, y1), Sel(b, 2, y2), Sel(b, 3, y3));
    Add4Adds(Sel(b, 4, x4), Sel(b, 5, x5), Sel(b, 6, x6), Sel(b, 7, x7), Sel(b, 4, y4), Sel(b, 5, y5), Sel(b, 6, y6), Sel(b, 7, y7));
    XorSwap(p, p', q, q');
  }

  lemma SumDef(a: bv8, b: bv8)
    ensures var a1 := XTime(a); var a2 := XTime(a1); var a3 := XTime(a2); var a4 := XTime(a3);
            var a5 := XTime(a4); var a6 := XTime(a5); var a7 := XTime(a6);
            GfMul(a, b) == Sum(b, a, a1, a2, a3, a4, a5, a6, a7)
  {
    hide Sum, XTime;
  }

  /** The product distributes over addition. */
  lemma MulAdds(x: bv8, y: bv8, b: bv8)
    ensures GfMul(Xor(x, y), b) == Xor(GfMul(x, b), GfMul(y, b))
  {
    hide *;
    var x1, y1 := XTime(x), XTime(y);
    var x2, y2 := XTime(x1), XTime(y1);
    var x3, y3 := XTime(x2), XTime(y2);
    var x4, y4 := XTime(x3), XTime(y3);
    var x5, y5 := XTime(x4), XTime(y4);
    var x6, y6 := XTime(x5), XTime(y5);
    var x7, y7 := XTime(x6), XTime(y6);
    XTimeAdds(x, y);
    XTimeAdds(x1, y1);
    XTimeAdds(x2, y2);
    XTimeAdds(x3, y3);
    XTimeAdds(x4, y4);
    XTimeAdds(x5, y5);
    XTimeAdds(x6, y6);
    SumDef(x, b);
    SumDef(y, b);
    SumDef(Xor(x, y), b);
    SumAdds(b, x, x1, x2, x3, x4, x5, x6, x7, y, y1, y2, y3, y4, y5, y6, y7);
  }

  lemma Add4XTime(p: bv8, q: bv8, r: bv8, s: bv8)
    ensures Add4(XTime(p), XTime(q), XTime(r), XTime(s)) == XTime(Add4(p, q, r, s))
  {
    hide Xor, XTime;
    XTimeAdds(p, q);
    XTimeAdds(r, s);
    XTimeAdds(Xor(p, q), Xor(r, s));
  }

  lemma SumXTime(b: bv8, x: bv8, x1: bv8, x2: bv8, x3: bv8, x4: bv8, x5: bv8, x6: bv8, x7: bv8)
    ensures Sum(b, XTime(x), XTime(x1), XTime(x2), XTime(x3), XTime(x4), XTime(x5), XTime(x6), XTime(x7))
         == XTime(Sum(b, x, x1, x2, x3, x4, x5, x6, x7))
  {
    hide Sel, XTime, Xor, Add4;
    SelXTime(b, 0, x);
    SelXTime(b, 1, x1);
    SelXTime(b, 2, x2);
    SelXTime(b, 3, x3);
    SelXTime(b, 4, x4);
    SelXTime(b, 5, x5);
    SelXTime(b, 6, x6);
    SelXTime(b, 7, x7);
    Add4XTime(Sel(b, 0, x), Sel(b, 1, x1), Sel(b, 2, x2), Sel(b, 3, x3));
    Add4XTime(Sel(b, 4, x4), Sel(b, 5, x5), Sel(b, 6, x6), Sel(b, 7, x7));
    XTimeAdds(Add4(Sel(b, 0, x), Sel(b, 1, x1), Sel(b, 2, x2), Sel(b, 3, x3)),
              Add4(Sel(b, 4, x4), Sel(b, 5, x5), Sel(b, 6, x6), Sel(b, 7, x7)));
  }

  /** A factor x can be taken out of the product. */
  lemma MulXTime(a: bv8, b: bv8)
    ensures GfMul(XTime(a), b) == XTime(GfMul(a, b))
  {
    hide *;
    var a1 := XTime(a);
    var a2 := XTime(a1);
    var a3 := XTime(a2);
    var a4 := XTime(a3);
    var a5 := XTime(a4);
    var a6 := XTime(a5);
    var a7 := XTime(a6);
    SumDef(a, b);
    SumDef(a1, b);
    SumXTime(b, a, a1, a2, a3, a4, a5, a6, a7);
  }

  lemma SelBits(b: bv8)
    ensures Sel(b, 0, 1) == b & 1 && Sel(b, 1, 2) == b & 2 && Sel(b, 2, 4) == b & 4 && Sel(b, 3, 8) == b & 8
    ensures Sel(b, 4, 16) == b & 16 && Sel(b, 5, 32) == b & 32 && Sel(b, 6, 64) == b & 64 && Sel(b, 7, 128) == b & 128
  {}

  lemma BitsAddUp(b: bv8)
    ensures Xor(Add4(b & 1, b & 2, b & 4, b & 8), Add4(b & 16, b & 32, b & 64, b & 128)) == b
  {
    assert (((b & 1) ^ (b & 2)) ^ ((b & 4) ^ (b & 8))) ^ (((b & 16) ^ (b & 32)) ^ ((b & 64) ^ (b & 128))) == b;
  }

  lemma PowersOfX()
    ensures XTime(1) == 2 && XTime(2) == 4 && XTime(4) == 8 && XTime(8) == 16 && XTime(16) == 32 && XTime(32) == 64 && XTime(64) == 128
  {}

  lemma MulOne(b: bv8)
    ensures GfMul(1, b) == b
  {
    hide Xor, Add4, XTime, Sel;
    SumDef(1, b);
    PowersOfX();
    SelBits(b);
    BitsAddUp(b);
  }

  lemma SelNone(b: bv8, k: bv8)
    requires k < 8
    ensures Sel(b, k, 0) == 0 && Sel(0, k, b) == 0
  {}

  lemma MulZero(b: bv8)
    ensures GfMul(0, b) == 0 && GfMul(b, 0) == 0
  {
    hide Sel, XTime;
    assert XTime(0) == 0 by { XTimeZero(); }
    SumDef(0, b);
    SumDef(b, 0);
    SumZero(b);
    var b1 := XTime(b);
    var b2 := XTime(b1);
    var b3 := XTime(b2);
    var b4 := XTime(b3);
    var b5 := XTime(b4);
    var b6 := XTime(b5);
    SumNone(b, b1, b2, b3, b4, b5, b6, XTime(b6));
  }

  lemma XTimeZero()
    ensures XTime(0) == 0
  {}

  lemma SumZero(b: bv8)
    ensures Sum(b, 0, 0, 0, 0, 0, 0, 0, 0) == 0
  {
    hide Sel;
    SelNone(b, 0);
    SelNone(b, 1);
    SelNone(b, 2);
    SelNone(b, 3);
    SelNone(b, 4);
    SelNone(b, 5);
    SelNone(b, 6);
    SelNone(b, 7);
  }

  lemma SumNone(a0: bv8, a1: bv8, a2: bv8, a3: bv8, a4: bv8, a5: bv8, a6: bv8, a7: bv8)
    ensures Sum(0, a0, a1, a2, a3, a4, a5, a6, a7) == 0
  {
    hide Sel;
    SelNone(a0, 0);
    SelNone(a1, 1);
    SelNone(a2, 2);
    SelNone(a3, 3);
    SelNone(a4, 4);
    SelNone(a5, 5);
    SelNone(a6, 6);
    SelNone(a7, 7);
  }
}
