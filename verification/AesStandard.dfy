/** What section 5 of FIPS 197 says of the transformations of AES and of its key expansion. */
module AesStandard {
  import opened GaloisField
  import opened SBox
  import opened AesRounds
  import opened AesKeys
  import opened AesCipher

  // ---------- SubBytes: the inverse in the field, then an affine transformation

  function Affine(v: bv8): bv8 {
    v ^ v.RotateLeft(1) ^ v.RotateLeft(2) ^ v.RotateLeft(3) ^ v.RotateLeft(4) ^ 0x63
  }

  function Unaffine(s: bv8): bv8 {
    s.RotateLeft(1) ^ s.RotateLeft(3) ^ s.RotateLeft(6) ^ 0x05
  }

  lemma AffineInverse(s: bv8)
    ensures Affine(Unaffine(s)) == s && Unaffine(Affine(s)) == s
  {}

  predicate Reciprocal(b: bv8, v: bv8) { GfMul(b, v) == 1 }

  // The inverses, for the bytes of each quarter of the table.

  lemma FirstQuarter(b: bv8)
    requires b & 0x80 == 0 && b & 0x40 == 0 && b != 0
    ensures Reciprocal(b, Unaffine(SubByte(b)))
  {}

  lemma SecondQuarter(b: bv8)
    requires b & 0x80 == 0 && b & 0x40 != 0
    ensures Reciprocal(b, Unaffine(SubByte(b)))
  {}

  lemma ThirdQuarter(b: bv8)
    requires b & 0x80 != 0 && b & 0x40 == 0
    ensures Reciprocal(b, Unaffine(SubByte(b)))
  {}

  lemma FourthQuarter(b: bv8)
    requires b & 0x80 != 0 && b & 0x40 != 0
    ensures Reciprocal(b, Unaffine(SubByte(b)))
  {}

  /** The S-box sends zero to 0x63, and every other byte to the affine image of its multiplicative inverse. */
  lemma SubByteIsInverse(b: bv8)
    ensures SubByte(0) == 0x63
    ensures b != 0 ==> exists v :: Reciprocal(b, v) && SubByte(b) == Affine(v)
  {
    hide GfMul, Affine, Unaffine, Reciprocal;
    if b & 0x80 == 0 && b & 0x40 == 0 {
      if b != 0 {
        FirstQuarter(b);
      }
    } else if b & 0x80 == 0 {
      SecondQuarter(b);
    } else if b & 0x40 == 0 {
      ThirdQuarter(b);
    } else {
      FourthQuarter(b);
    }
    AffineInverse(SubByte(b));
  }

  // ---------- ShiftRows and MixColumns

  /** The byte in row r and column c of the state. */
  function Entry(s: State, r: nat, c: nat): bv8
    requires r < 4 && c < 4
  {
    var column := if c == 0 then s.c0 else if c == 1 then s.c1 else if c == 2 then s.c2 else s.c3;
    if r == 0 then column.b0 else if r == 1 then column.b1 else if r == 2 then column.b2 else column.b3
  }

  /** Section 3.4: entry (r, c) of the state is byte r + 4 c of the block. */
  lemma EntryIsByte(p: seq<bv8>, r: nat, c: nat)
    requires |p| == BLOCK && r < 4 && c < 4
    ensures Entry(StateOf(p), r, c) == p[r + 4 * c]
  {}

  /** Row r moves r columns to the left. */
  lemma ShiftRowsMoves(s: State, r: nat, c: nat)
    requires r < 4 && c < 4
    ensures Entry(ShiftRows(s), r, c) == Entry(s, r, (c + r) % 4)
  {}

  /** xtime of section 4.2.1. */
  function Twice(b: bv8): bv8 { (b << 1) ^ (if b & 0x80 != 0 then 0x1B else 0) }

  lemma XTimeIsTwice(b: bv8)
    ensures XTime(b) == Twice(b)
  {}

  /** The matrix of section 5.1.3, with rows that are rotations of 02 03 01 01. */
  lemma MixColumnIs(s: Column)
    ensures MixColumn(s) == Column(
      Xor(Xor(Twice(s.b0), Xor(Twice(s.b1), s.b1)), Xor(s.b2, s.b3)),
      Xor(Xor(s.b0, Twice(s.b1)), Xor(Xor(Twice(s.b2), s.b2), s.b3)),
      Xor(Xor(s.b0, s.b1), Xor(Twice(s.b2), Xor(Twice(s.b3), s.b3))),
      Xor(Xor(Xor(Twice(s.b0), s.b0), s.b1), Xor(s.b2, Twice(s.b3))))
  {
    hide XTime, Xor, GfMul, Twice;
    MixTerms(s.b0);
    MixTerms(s.b1);
    MixTerms(s.b2);
    MixTerms(s.b3);
  }

  lemma MixTerms(b: bv8)
    ensures GfMul(b, 1) == b && GfMul(b, 2) == Twice(b) && GfMul(b, 3) == Xor(Twice(b), b)
  {
    hide XTime, Xor, GfMul, Twice;
    Times01(b);
    Times02(b);
    Times03(b);
    XTimeIsTwice(b);
    XorCommutes(b, Twice(b));
  }

  // ---------- the key expansion

  /** The round constants are the powers of x: exponents add, and the first power is x itself. */
  lemma {:induction false} RconPowers(i: nat, j: nat)
    ensures Rcon(0) == 1 && Rcon(1) == 2 && GfMul(Rcon(i), Rcon(j)) == Rcon(i + j)
  {
    hide XTime, GfMul;
    if i == 0 {
      MulOne(Rcon(j));
    } else {
      RconPowers(i - 1, j);
      MulXTime(Rcon(i - 1), Rcon(j));
    }
    assert XTime(1) == 2 by { PowersOfX(); }
  }

  lemma RconValues()
    ensures Rcon(0) == 0x01 && Rcon(1) == 0x02 && Rcon(2) == 0x04 && Rcon(3) == 0x08 && Rcon(4) == 0x10
    ensures Rcon(5) == 0x20 && Rcon(6) == 0x40 && Rcon(7) == 0x80 && Rcon(8) == 0x1B && Rcon(9) == 0x36
  {}

  /** InitParams: Nr = Nk + 6, with Nk = 4, 6 or 8 words of key. */
  lemma RoundsForIs(keySize: int)
    requires keySize == 128 || keySize == 192 || keySize == 256
    ensures RoundsFor(keySize) == keySize / 32 + 6
  {}
}
