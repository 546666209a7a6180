/** The AES round transformations on four columns of four bytes, and why running the encryption routine
    on word-reversed data with a reversed, inverse-mixed key schedule decrypts. */
module AesRounds {
  import opened GaloisField
  import opened SBox

  /** A 32-bit word as its bytes in memory order; a column of the state. */
  datatype Column = Column(b0: bv8, b1: bv8, b2: bv8, b3: bv8)

  datatype State = State(c0: Column, c1: Column, c2: Column, c3: Column)

  function XorColumn(a: Column, b: Column): Column {
    Column(Xor(a.b0, b.b0), Xor(a.b1, b.b1), Xor(a.b2, b.b2), Xor(a.b3, b.b3))
  }

  function XorState(a: State, b: State): State {
    State(XorColumn(a.c0, b.c0), XorColumn(a.c1, b.c1), XorColumn(a.c2, b.c2), XorColumn(a.c3, b.c3))
  }

  function MapBytes(f: bv8 -> bv8, c: Column): Column {
    Column(f(c.b0), f(c.b1), f(c.b2), f(c.b3))
  }

  /** Applies a substitution table to every byte. */
  function Substitute(f: bv8 -> bv8, s: State): State {
    State(MapBytes(f, s.c0), MapBytes(f, s.c1), MapBytes(f, s.c2), MapBytes(f, s.c3))
  }

  /** Row r moves r columns to the left. */
  function ShiftRows(s: State): State {
    State(Column(s.c0.b0, s.c1.b1, s.c2.b2, s.c3.b3), Column(s.c1.b0, s.c2.b1, s.c3.b2, s.c0.b3),
          Column(s.c2.b0, s.c3.b1, s.c0.b2, s.c1.b3), Column(s.c3.b0, s.c0.b1, s.c1.b2, s.c2.b3))
  }

  function MapColumns(f: Column -> Column, s: State): State {
    State(f(s.c0), f(s.c1), f(s.c2), f(s.c3))
  }

  function Reverse(s: State): State { State(s.c3, s.c2, s.c1, s.c0) }

  // ---------- column mixing

  function MulRow(a: Column, b: Column): bv8 {
    Add4(GfMul(a.b0, b.b0), GfMul(a.b1, b.b1), GfMul(a.b2, b.b2), GfMul(a.b3, b.b3))
  }

  /** Rotation of a little-endian word by one byte to the left. */
  function Rotl8(p: Column): Column { Column(p.b3, p.b0, p.b1, p.b2) }

  function MulPolynom(col: Column, p: Column): Column {
    Column(MulRow(col, p), MulRow(col, Rotl8(p)), MulRow(col, Rotl8(Rotl8(p))), MulRow(col, Rotl8(Rotl8(Rotl8(p)))))
  }

  /** 0x01010302 */
  const MIX := Column(0x02, 0x03, 0x01, 0x01)
  /** 0x090D0B0E */
  const INVMIX := Column(0x0E, 0x0B, 0x0D, 0x09)

  function MixColumn(col: Column): Column { MulPolynom(col, MIX) }

  function InvMixColumn(col: Column): Column { MulPolynom(col, INVMIX) }

  /** InvMixColumn distributes over addition. */
  lemma InvMixAdds(a: Column, b: Column)
    ensures InvMixColumn(XorColumn(a, b)) == XorColumn(InvMixColumn(a), InvMixColumn(b))
  {
    hide MulRow;
    MulRowAdds(a, b, INVMIX);
    MulRowAdds(a, b, Rotl8(INVMIX));
    MulRowAdds(a, b, Rotl8(Rotl8(INVMIX)));
    MulRowAdds(a, b, Rotl8(Rotl8(Rotl8(INVMIX))));
  }

  lemma MulRowAdds(a: Column, b: Column, p: Column)
    ensures MulRow(XorColumn(a, b), p) == Xor(MulRow(a, p), MulRow(b, p))
  {
    hide GfMul, Xor, Add4;
    MulAdds(a.b0, b.b0, p.b0);
    MulAdds(a.b1, b.b1, p.b1);
    MulAdds(a.b2, b.b2, p.b2);
    MulAdds(a.b3, b.b3, p.b3);
    Add4Adds(GfMul(a.b0, p.b0), GfMul(a.b1, p.b1), GfMul(a.b2, p.b2), GfMul(a.b3, p.b3),
             GfMul(b.b0, p.b0), GfMul(b.b1, p.b1), GfMul(b.b2, p.b2), GfMul(b.b3, p.b3));
  }

  lemma AndOnes(x: bv8)
    ensures And(0xFF, x) == x && And(0, x) == 0
  {}

  lemma SelIs(n: bv8, k: bv8, on: bool, c: bv8)
    requires k < 8 && (n >> k) & 1 == if on then 1 else 0
    ensures Sel(n, k, c) == if on then c else 0
  {
    hide And;
    AndOnes(c);
    assert Mask(n, k) == if on then 0xFF else 0;
  }

  /** A factor below 16 selects among the first four multiples. */
  lemma SmallFactor(c: bv8, n: bv8)
    requires n < 16
    ensures var x := XTime(c); var x2 := XTime(x); var x3 := XTime(x2);
            GfMul(c, n) == Add4(Sel(n, 0, c), Sel(n, 1, x), Sel(n, 2, x2), Sel(n, 3, x3))
  {
    hide XTime, Sel, Xor;
    SumDef(c, n);
    var x3 := XTime(XTime(XTime(c)));
    var x4 := XTime(x3);
    NotSelected(n, 4, x4);
    NotSelected(n, 5, XTime(x4));
    NotSelected(n, 6, XTime(XTime(x4)));
    NotSelected(n, 7, XTime(XTime(XTime(x4))));
    XorZero(0);
    XorZero(Add4(Sel(n, 0, c), Sel(n, 1, XTime(c)), Sel(n, 2, XTime(XTime(c))), Sel(n, 3, x3)));
  }

  lemma NotSelected(n: bv8, k: bv8, c: bv8)
    requires n < 16 && 4 <= k < 8
    ensures Sel(n, k, c) == 0
  {}

  // Products by the constants of the mixing matrices, in terms of multiplication by x.

  lemma Times01(c: bv8)
    ensures var x := XTime(c); var x2 := XTime(x); var x3 := XTime(x2); GfMul(c, 0x01) == c
  {}

  lemma Times02(c: bv8)
    ensures var x := XTime(c); var x2 := XTime(x); var x3 := XTime(x2); GfMul(c, 0x02) == x
  {}

  lemma Times03(c: bv8)
    ensures var x := XTime(c); var x2 := XTime(x); var x3 := XTime(x2); GfMul(c, 0x03) == Xor(c, x)
  {}

  lemma Times09(c: bv8)
    ensures var x := XTime(c); var x2 := XTime(x); var x3 := XTime(x2); GfMul(c, 0x09) == Xor(c, x3)
  {}

  lemma Times0B(c: bv8)
    ensures var x := XTime(c); var x2 := XTime(x); var x3 := XTime(x2); GfMul(c, 0x0B) == Xor(Xor(c, x), x3)
  {
    hide Xor, XTime, Sel;
    var x := XTime(c);
    var x2 := XTime(x);
    SmallFactor(c, 0x0B);
    SelIs(0x0B, 0, true, c);
    SelIs(0x0B, 1, true, x);
    SelIs(0x0B, 2, false, x2);
    SelIs(0x0B, 3, true, XTime(x2));
    XorZero(XTime(x2));
  }

  lemma Times0D(c: bv8)
    ensures var x := XTime(c); var x2 := XTime(x); var x3 := XTime(x2); GfMul(c, 0x0D) == Xor(c, Xor(x2, x3))
  {
    hide Xor, XTime, Sel;
    var x := XTime(c);
    var x2 := XTime(x);
    SmallFactor(c, 0x0D);
    SelIs(0x0D, 0, true, c);
    SelIs(0x0D, 1, false, x);
    SelIs(0x0D, 2, true, x2);
    SelIs(0x0D, 3, true, XTime(x2));
    XorZero(c);
  }

  lemma Times0E(c: bv8)
    ensures var x := XTime(c); var x2 := XTime(x); var x3 := XTime(x2); GfMul(c, 0x0E) == Xor(x, Xor(x2, x3))
  {
    hide Xor, XTime, Sel;
    var x := XTime(c);
    var x2 := XTime(x);
    SmallFactor(c, 0x0E);
    SelIs(0x0E, 0, false, c);
    SelIs(0x0E, 1, true, x);
    SelIs(0x0E, 2, true, x2);
    SelIs(0x0E, 3, true, XTime(x2));
    XorZero(x);
  }

  function RotColumn(c: Column): Column { Column(c.b1, c.b2, c.b3, c.b0) }

  lemma Add4Rotates(p: bv8, q: bv8, r: bv8, s: bv8)
    ensures Add4(p, q, r, s) == Add4(s, p, q, r)
  {
    hide Xor;
    XorSwap(p, q, r, s);
    XorSwap(s, p, q, r);
    XorCommutes(s, q);
    XorCommutes(Xor(p, r), Xor(q, s));
  }

  /** Multiplication by a fixed polynomial commutes with rotating the column. */
  lemma MulPolynomRotates(c: Column, p: Column)
    ensures MulPolynom(RotColumn(c), p) == RotColumn(MulPolynom(c, p))
  {
    hide MulRow;
    MulRowRotates(c, p);
    MulRowRotates(c, Rotl8(p));
    MulRowRotates(c, Rotl8(Rotl8(p)));
    MulRowRotates(c, Rotl8(Rotl8(Rotl8(p))));
  }

  lemma MulRowRotates(c: Column, p: Column)
    ensures MulRow(RotColumn(c), p) == MulRow(c, Rotl8(p))
  {
    hide GfMul, Add4;
    Add4Rotates(GfMul(c.b1, p.b0), GfMul(c.b2, p.b1), GfMul(c.b3, p.b2), GfMul(c.b0, p.b3));
  }

  lemma MulAdd4(p: bv8, q: bv8, r: bv8, s: bv8, n: bv8)
    ensures GfMul(Add4(p, q, r, s), n) == Add4(GfMul(p, n), GfMul(q, n), GfMul(r, n), GfMul(s, n))
  {
    hide GfMul, Xor;
    MulAdds(Xor(p, q), Xor(r, s), n);
    MulAdds(p, q, n);
    MulAdds(r, s, n);
  }

  lemma Transpose(a0: bv8, a1: bv8, a2: bv8, a3: bv8, b0: bv8, b1: bv8, b2: bv8, b3: bv8,
                  c0: bv8, c1: bv8, c2: bv8, c3: bv8, d0: bv8, d1: bv8, d2: bv8, d3: bv8)
    ensures Add4(Add4(a0, a1, a2, a3), Add4(b0, b1, b2, b3), Add4(c0, c1, c2, c3), Add4(d0, d1, d2, d3))
         == Add4(Add4(a0, b0, c0, d0), Add4(a1, b1, c1, d1), Add4(a2, b2, c2, d2), Add4(a3, b3, c3, d3))
  {
    hide Xor;
    XorSwap(Xor(a0, a1), Xor(a2, a3), Xor(b0, b1), Xor(b2, b3));
    XorSwap(Xor(c0, c1), Xor(c2, c3), Xor(d0, d1), Xor(d2, d3));
    XorSwap(a0, a1, b0, b1);
    XorSwap(a2, a3, b2, b3);
    XorSwap(c0, c1, d0, d1);
    XorSwap(c2, c3, d2, d3);
    var ab0, ab1, ab2, ab3 := Xor(a0, b0), Xor(a1, b1), Xor(a2, b2), Xor(a3, b3);
    var cd0, cd1, cd2, cd3 := Xor(c0, d0), Xor(c1, d1), Xor(c2, d2), Xor(c3, d3);
    XorSwap(Xor(ab0, ab1), Xor(ab2, ab3), Xor(cd0, cd1), Xor(cd2, cd3));
    XorSwap(ab0, ab1, cd0, cd1);
    XorSwap(ab2, ab3, cd2, cd3);
  }

  /** The weight with which a byte of the column comes back after both matrices. */
  function Weight(c: bv8, m0: bv8, m1: bv8, m2: bv8, m3: bv8): bv8 {
    Add4(GfMul(GfMul(c, m0), 0x0E), GfMul(GfMul(c, m1), 0x0B), GfMul(GfMul(c, m2), 0x0D), GfMul(GfMul(c, m3), 0x09))
  }

  lemma OwnWeight(c: bv8)
    ensures Weight(c, 2, 1, 1, 3) == c
  {
    hide GfMul, XTime, Xor;
    var x := XTime(c);
    var x2 := XTime(x);
    var x3 := XTime(x2);
    Times02(c);
    Times01(c);
    Times03(c);
    Times0E(x);
    Times0B(c);
    Times0D(c);
    Times09(c);
    Times09(x);
    MulAdds(c, x, 9);
    OwnSum(c, x, x2, x3, XTime(x3));
  }

  lemma OwnSum(c: bv8, x: bv8, x2: bv8, x3: bv8, x4: bv8)
    ensures Add4(Xor(x2, Xor(x3, x4)), Xor(Xor(c, x), x3), Xor(c, Xor(x2, x3)), Xor(Xor(c, x3), Xor(x, x4))) == c
  {
    hide Xor;
    XorSwap(Xor(x2, Xor(x3, x4)), Xor(Xor(c, x), x3), Xor(c, Xor(x2, x3)), Xor(Xor(c, x3), Xor(x, x4)));
    XorSwap(c, x3, x, x4);
    XorPair(Xor(c, x), x3, Xor(x3, x4));
    XorCancels(x3, x4);
    XorAssoc(x2, x3, x4);
    XorCommutes(c, Xor(x2, x3));
    XorPair(Xor(x2, x3), x4, c);
    XorCommutes(x4, c);
    XorCancels(c, x4);
  }

  lemma OtherWeights(c: bv8)
    ensures Weight(c, 3, 2, 1, 1) == 0 && Weight(c, 1, 3, 2, 1) == 0 && Weight(c, 1, 1, 3, 2) == 0
  {
    hide GfMul, XTime, Xor;
    var x := XTime(c);
    var x2 := XTime(x);
    var x3 := XTime(x2);
    Times02(c);
    Times01(c);
    Times03(c);
    Times0E(c);
    Times0E(x);
    Times0B(c);
    Times0B(x);
    Times0D(c);
    Times0D(x);
    Times09(c);
    Times09(x);
    MulAdds(c, x, 0x0E);
    MulAdds(c, x, 0x0B);
    MulAdds(c, x, 0x0D);
    OtherSum1(c, x, x2, x3, XTime(x3));
    OtherSum2(c, x, x2, x3, XTime(x3));
    OtherSum3(c, x, x2, x3, XTime(x3));
  }

  lemma OtherSum1(c: bv8, x: bv8, x2: bv8, x3: bv8, x4: bv8)
    ensures Add4(Xor(Xor(x, Xor(x2, x3)), Xor(x2, Xor(x3, x4))), Xor(Xor(x, x2), x4), Xor(c, Xor(x2, x3)), Xor(c, x3)) == 0
  {
    hide Xor;
    var y := Xor(x2, x3);
    XorPair(c, y, x3);
    XorCancels(x2, x3);
    XorAssoc(x2, x3, x4);
    XorCommutes(x, y);
    XorPair(y, x, x4);
    XorAssoc(x, x2, x4);
    XorCommutes(x2, x4);
    XorAssoc(x, x4, x2);
    XorCancels(Xor(x, x4), x2);
    XorCancels(x2, x2);
  }

  lemma OtherSum2(c: bv8, x: bv8, x2: bv8, x3: bv8, x4: bv8)
    ensures Add4(Xor(x, Xor(x2, x3)), Xor(Xor(Xor(c, x), x3), Xor(Xor(x, x2), x4)), Xor(x, Xor(x3, x4)), Xor(c, x3)) == 0
  {
    hide Xor;
    var y, s := Xor(x2, x4), Xor(c, x3);
    XorPair(x, Xor(x2, x3), Xor(x3, x4));
    XorCommutes(x2, x3);
    XorPair(x3, x2, x4);
    XorAssoc(c, x, x3);
    XorCommutes(x, x3);
    XorAssoc(c, x3, x);
    XorAssoc(x, x2, x4);
    XorAssoc(s, x, Xor(x, y));
    XorCancels(x, y);
    XorCommutes(s, y);
    XorCancels(y, s);
    XorSwap(Xor(x, Xor(x2, x3)), Xor(Xor(Xor(c, x), x3), Xor(Xor(x, x2), x4)), Xor(x, Xor(x3, x4)), s);
    XorCancels(y, y);
  }

  lemma OtherSum3(c: bv8, x: bv8, x2: bv8, x3: bv8, x4: bv8)
    ensures Add4(Xor(x, Xor(x2, x3)), Xor(Xor(c, x), x3), Xor(Xor(c, Xor(x2, x3)), Xor(x, Xor(x3, x4))), Xor(x, x4)) == 0
  {
    hide Xor;
    var y := Xor(x2, x3);
    var p, q, r, s := Xor(x, y), Xor(Xor(c, x), x3), Xor(Xor(c, y), Xor(x, Xor(x3, x4))), Xor(x, x4);
    XorSwap(c, y, x, Xor(x3, x4));
    XorPair(Xor(c, x), x3, Xor(y, Xor(x3, x4)));
    XorCommutes(x2, x3);
    XorPair(x3, x2, x4);
    XorAssoc(x3, x2, x4);
    XorPair(x, y, x4);
    XorCommutes(r, s);
    XorSwap(p, q, s, r);
    XorCancels(Xor(y, x4), Xor(y, x4));
  }

  lemma FirstByteRestored(c: Column)
    ensures InvMixColumn(MixColumn(c)).b0 == c.b0
  {
    hide GfMul, Xor, Add4;
    MulAdd4(GfMul(c.b0, 2), GfMul(c.b1, 3), GfMul(c.b2, 1), GfMul(c.b3, 1), 0x0E);
    MulAdd4(GfMul(c.b0, 1), GfMul(c.b1, 2), GfMul(c.b2, 3), GfMul(c.b3, 1), 0x0B);
    MulAdd4(GfMul(c.b0, 1), GfMul(c.b1, 1), GfMul(c.b2, 2), GfMul(c.b3, 3), 0x0D);
    MulAdd4(GfMul(c.b0, 3), GfMul(c.b1, 1), GfMul(c.b2, 1), GfMul(c.b3, 2), 0x09);
    Transpose(GfMul(GfMul(c.b0, 2), 0x0E), GfMul(GfMul(c.b1, 3), 0x0E), GfMul(GfMul(c.b2, 1), 0x0E), GfMul(GfMul(c.b3, 1), 0x0E),
              GfMul(GfMul(c.b0, 1), 0x0B), GfMul(GfMul(c.b1, 2), 0x0B), GfMul(GfMul(c.b2, 3), 0x0B), GfMul(GfMul(c.b3, 1), 0x0B),
              GfMul(GfMul(c.b0, 1), 0x0D), GfMul(GfMul(c.b1, 1), 0x0D), GfMul(GfMul(c.b2, 2), 0x0D), GfMul(GfMul(c.b3, 3), 0x0D),
              GfMul(GfMul(c.b0, 3), 0x09), GfMul(GfMul(c.b1, 1), 0x09), GfMul(GfMul(c.b2, 1), 0x09), GfMul(GfMul(c.b3, 2), 0x09));
    OwnWeight(c.b0);
    OtherWeights(c.b1);
    OtherWeights(c.b2);
    OtherWeights(c.b3);
    Add4Zeros(c.b0);
  }

  lemma Add4Zeros(x: bv8)
    ensures Add4(x, 0, 0, 0) == x
  {}

  lemma InvMixUndoesMix(c: Column)
    ensures InvMixColumn(MixColumn(c)) == c
  {
    hide MulPolynom;
    var d := RotColumn(c);
    var e := RotColumn(d);
    var f := RotColumn(e);
    FirstByteRestored(c);
    FirstByteRestored(d);
    FirstByteRestored(e);
    FirstByteRestored(f);
    MulPolynomRotates(c, MIX);
    MulPolynomRotates(d, MIX);
    MulPolynomRotates(e, MIX);
    MulPolynomRotates(MixColumn(c), INVMIX);
    MulPolynomRotates(MixColumn(d), INVMIX);
    MulPolynomRotates(MixColumn(e), INVMIX);
  }

  // ---------- the cipher

  /** Round key r: words 4r .. 4r+3 of the expanded key. */
  function RoundKey(ekey: seq<Column>, r: nat): State
    requires 4 * r + 4 <= |ekey|
  {
    State(ekey[4 * r], ekey[4 * r + 1], ekey[4 * r + 2], ekey[4 * r + 3])
  }

  /** The state after the first key addition and i rounds; the last round does not mix columns. */
  function Rounds(s: State, ekey: seq<Column>, rounds: nat, sub: bv8 -> bv8, mix: Column -> Column, i: nat): State
    requires i <= rounds && 4 * rounds + 4 <= |ekey|
  {
    if i == 0 then XorState(s, RoundKey(ekey, 0)) else
      var t := ShiftRows(Substitute(sub, Rounds(s, ekey, rounds, sub, mix, i - 1)));
      XorState(if i < rounds then MapColumns(mix, t) else t, RoundKey(ekey, i))
  }

  function Encrypt(s: State, ekey: seq<Column>, rounds: nat): State
    requires 4 * rounds + 4 <= |ekey|
  {
    Rounds(s, ekey, rounds, SubByte, MixColumn, rounds)
  }

  /** The same routine with the inverse tables, on the words in reverse order. */
  function Decrypt(s: State, ekey: seq<Column>, rounds: nat): State
    requires 4 * rounds + 4 <= |ekey|
  {
    Reverse(Rounds(Reverse(s), ekey, rounds, InvSubByte, InvMixColumn, rounds))
  }

  /** The decryption schedule: the words backwards, all but the first and last round key inverse-mixed. */
  function InvKey(ekey: seq<Column>): seq<Column>
    requires |ekey| >= 8
  {
    seq(|ekey|, i requires 0 <= i < |ekey| =>
      var j := |ekey| - 1 - i;
      if 4 <= j < |ekey| - 4 then InvMixColumn(ekey[j]) else ekey[j])
  }

  lemma InvRoundKey(ekey: seq<Column>, rounds: nat, r: nat)
    requires rounds > 0 && |ekey| == 4 * rounds + 4 && r <= rounds
    ensures RoundKey(InvKey(ekey), rounds - r) ==
      Reverse(if 0 < r < rounds then MapColumns(InvMixColumn, RoundKey(ekey, r)) else RoundKey(ekey, r))
  {
    hide InvMixColumn;
  }

  lemma XorStateCancels(a: State, k: State)
    ensures XorState(XorState(a, k), k) == a
  {
    XorColumnCancels(a.c0, k.c0);
    XorColumnCancels(a.c1, k.c1);
    XorColumnCancels(a.c2, k.c2);
    XorColumnCancels(a.c3, k.c3);
  }

  lemma XorColumnCancels(a: Column, k: Column)
    ensures XorColumn(XorColumn(a, k), k) == a
  {
    hide Xor;
    XorCancels(a.b0, k.b0);
    XorCancels(a.b1, k.b1);
    XorCancels(a.b2, k.b2);
    XorCancels(a.b3, k.b3);
  }

  lemma SubstituteInverse(s: State)
    ensures Substitute(InvSubByte, Substitute(SubByte, s)) == s
  {
    hide SubByte, InvSubByte;
    ColumnInverse(s.c0);
    ColumnInverse(s.c1);
    ColumnInverse(s.c2);
    ColumnInverse(s.c3);
  }

  lemma ColumnInverse(c: Column)
    ensures MapBytes(InvSubByte, MapBytes(SubByte, c)) == c
  {
    hide SubByte, InvSubByte;
    SubByteInverse(c.b0);
    SubByteInverse(c.b1);
    SubByteInverse(c.b2);
    SubByteInverse(c.b3);
  }

  /** Shifting rows on reversed columns undoes shifting rows, and substitution does not care where bytes stand. */
  lemma UndoSubstituteShift(s: State)
    ensures ShiftRows(Substitute(InvSubByte, Reverse(ShiftRows(Substitute(SubByte, s))))) == Reverse(s)
  {
    hide SubByte, InvSubByte;
    SubstituteInverse(s);
  }

  lemma InvMixStateAdds(a: State, b: State)
    ensures MapColumns(InvMixColumn, XorState(a, b)) == XorState(MapColumns(InvMixColumn, a), MapColumns(InvMixColumn, b))
  {
    hide InvMixColumn, XorColumn;
    InvMixAdds(a.c0, b.c0);
    InvMixAdds(a.c1, b.c1);
    InvMixAdds(a.c2, b.c2);
    InvMixAdds(a.c3, b.c3);
  }

  lemma InvMixUndoesMixState(s: State)
    ensures MapColumns(InvMixColumn, MapColumns(MixColumn, s)) == s
  {
    hide InvMixColumn, MixColumn;
    InvMixUndoesMix(s.c0);
    InvMixUndoesMix(s.c1);
    InvMixUndoesMix(s.c2);
    InvMixUndoesMix(s.c3);
  }

  /** The state inside encryption round r just before its columns are mixed; before round 1 it is the plaintext. */
  function Unmixed(s: State, ekey: seq<Column>, rounds: nat, r: nat): State
    requires r <= rounds && 4 * rounds + 4 <= |ekey|
  {
    if r == 0 then s else ShiftRows(Substitute(SubByte, Rounds(s, ekey, rounds, SubByte, MixColumn, r - 1)))
  }

  /** Decryption round j stands, reversed, where encryption stood rounds - j rounds into its work. */
  lemma {:induction false} DecryptionRetraces(s: State, ekey: seq<Column>, rounds: nat, j: nat)
    requires rounds > 0 && |ekey| == 4 * rounds + 4 && j <= rounds
    ensures Rounds(Reverse(Encrypt(s, ekey, rounds)), InvKey(ekey), rounds, InvSubByte, InvMixColumn, j)
         == Reverse(Unmixed(s, ekey, rounds, rounds - j))
    decreases j
  {
    hide SubByte, InvSubByte, MixColumn, InvMixColumn, Substitute, ShiftRows, XorColumn, MapColumns, InvKey, RoundKey;
    InvRoundKey(ekey, rounds, rounds - j);
    var dkey := InvKey(ekey);
    if j == 0 {
      XorStateCancels(Unmixed(s, ekey, rounds, rounds), RoundKey(ekey, rounds));
    } else {
      var r := rounds - j + 1;
      DecryptionRetraces(s, ekey, rounds, j - 1);
      var e := Rounds(s, ekey, rounds, SubByte, MixColumn, r - 1);
      UndoSubstituteShift(e);
      var k := RoundKey(ekey, r - 1);
      if j < rounds {
        var u := Unmixed(s, ekey, rounds, r - 1);
        assert e == XorState(MapColumns(MixColumn, u), k);
        MapReverse(e);
        InvMixStateAdds(MapColumns(MixColumn, u), k);
        InvMixUndoesMixState(u);
        XorStateCancels(u, MapColumns(InvMixColumn, k));
      } else {
        XorStateCancels(s, k);
      }
    }
  }

  lemma MapReverse(s: State)
    ensures MapColumns(InvMixColumn, Reverse(s)) == Reverse(MapColumns(InvMixColumn, s))
  {
    hide InvMixColumn;
  }

  /** Decryption with the inverse schedule undoes encryption, for every key schedule and block. */
  lemma DecryptUndoesEncrypt(s: State, ekey: seq<Column>, rounds: nat)
    requires rounds > 0 && |ekey| == 4 * rounds + 4
    ensures Decrypt(Encrypt(s, ekey, rounds), InvKey(ekey), rounds) == s
  {
    DecryptionRetraces(s, ekey, rounds, rounds);
  }
}
