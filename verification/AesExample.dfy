/** The example of appendix C.1 of FIPS 197, a round to a lemma, and the first words of the longer keys of C.2 and C.3. */
module AesExample {
  import opened GaloisField
  import opened SBox
  import opened AesRounds
  import opened AesKeys
  import opened AesCipher
  import opened AesStandard

  const KEY: seq<Column> := [
    Column(0x00, 0x01, 0x02, 0x03), Column(0x04, 0x05, 0x06, 0x07),
    Column(0x08, 0x09, 0x0A, 0x0B), Column(0x0C, 0x0D, 0x0E, 0x0F)]

  /** A round up to the key addition, on literal bytes. */
  function Mixed(s: State): State { MapColumns(MixColumn, ShiftRows(Substitute(SubByte, s))) }

  lemma WordNext(i: nat)
    requires i >= 4
    ensures W(KEY, i) == XorColumn(W(KEY, i - 4),
      if i % 4 == 0 then Column(Xor(Rcon(i / 4 - 1), SubByte(W(KEY, i - 1).b1)), SubByte(W(KEY, i - 1).b2),
                                SubByte(W(KEY, i - 1).b3), SubByte(W(KEY, i - 1).b0))
      else W(KEY, i - 1))
  {
    hide XorColumn, SubByte, Xor, Rcon;
    XorZeroColumn(SubWord(RotWord(W(KEY, i - 1))), Rcon(i / 4 - 1));
  }

  lemma Words0()
    ensures W(KEY, 0) == Column(0x00, 0x01, 0x02, 0x03)
    ensures W(KEY, 1) == Column(0x04, 0x05, 0x06, 0x07)
    ensures W(KEY, 2) == Column(0x08, 0x09, 0x0A, 0x0B)
    ensures W(KEY, 3) == Column(0x0C, 0x0D, 0x0E, 0x0F)
  {}

  lemma Words1()
    ensures W(KEY, 4) == Column(0xD6, 0xAA, 0x74, 0xFD)
    ensures W(KEY, 5) == Column(0xD2, 0xAF, 0x72, 0xFA)
    ensures W(KEY, 6) == Column(0xDA, 0xA6, 0x78, 0xF1)
    ensures W(KEY, 7) == Column(0xD6, 0xAB, 0x76, 0xFE)
  {
    hide W;
    Words0();
    WordNext(4);
    WordNext(5);
    WordNext(6);
    WordNext(7);
    RconValues();
  }

  lemma Words2()
    ensures W(KEY, 8) == Column(0xB6, 0x92, 0xCF, 0x0B)
    ensures W(KEY, 9) == Column(0x64, 0x3D, 0xBD, 0xF1)
    ensures W(KEY, 10) == Column(0xBE, 0x9B, 0xC5, 0x00)
    ensures W(KEY, 11) == Column(0x68, 0x30, 0xB3, 0xFE)
  {
    hide W;
    Words1();
    WordNext(8);
    WordNext(9);
    WordNext(10);
    WordNext(11);
    RconValues();
  }

  lemma Words3()
    ensures W(KEY, 12) == Column(0xB6, 0xFF, 0x74, 0x4E)
    ensures W(KEY, 13) == Column(0xD2, 0xC2, 0xC9, 0xBF)
    ensures W(KEY, 14) == Column(0x6C, 0x59, 0x0C, 0xBF)
    ensures W(KEY, 15) == Column(0x04, 0x69, 0xBF, 0x41)
  {
    hide W;
    Words2();
    WordNext(12);
    WordNext(13);
    WordNext(14);
    WordNext(15);
    RconValues();
  }

  lemma Words4()
    ensures W(KEY, 16) == Column(0x47, 0xF7, 0xF7, 0xBC)
    ensures W(KEY, 17) == Column(0x95, 0x35, 0x3E, 0x03)
    ensures W(KEY, 18) == Column(0xF9, 0x6C, 0x32, 0xBC)
    ensures W(KEY, 19) == Column(0xFD, 0x05, 0x8D, 0xFD)
  {
    hide W;
    Words3();
    WordNext(16);
    WordNext(17);
    WordNext(18);
    WordNext(19);
    RconValues();
  }

  lemma Words5()
    ensures W(KEY, 20) == Column(0x3C, 0xAA, 0xA3, 0xE8)
    ensures W(KEY, 21) == Column(0xA9, 0x9F, 0x9D, 0xEB)
    ensures W(KEY, 22) == Column(0x50, 0xF3, 0xAF, 0x57)
    ensures W(KEY, 23) == Column(0xAD, 0xF6, 0x22, 0xAA)
  {
    hide W;
    Words4();
    WordNext(20);
    WordNext(21);
    WordNext(22);
    WordNext(23);
    RconValues();
  }

  lemma Words6()
    ensures W(KEY, 24) == Column(0x5E, 0x39, 0x0F, 0x7D)
    ensures W(KEY, 25) == Column(0xF7, 0xA6, 0x92, 0x96)
    ensures W(KEY, 26) == Column(0xA7, 0x55, 0x3D, 0xC1)
    ensures W(KEY, 27) == Column(0x0A, 0xA3, 0x1F, 0x6B)
  {
    hide W;
    Words5();
    WordNext(24);
    WordNext(25);
    WordNext(26);
    WordNext(27);
    RconValues();
  }

  lemma Words7()
    ensures W(KEY, 28) == Column(0x14, 0xF9, 0x70, 0x1A)
    ensures W(KEY, 29) == Column(0xE3, 0x5F, 0xE2, 0x8C)
    ensures W(KEY, 30) == Column(0x44, 0x0A, 0xDF, 0x4D)
    ensures W(KEY, 31) == Column(0x4E, 0xA9, 0xC0, 0x26)
  {
    hide W;
    Words6();
    WordNext(28);
    WordNext(29);
    WordNext(30);
    WordNext(31);
    RconValues();
  }

  lemma Words8()
    ensures W(KEY, 32) == Column(0x47, 0x43, 0x87, 0x35)
    ensures W(KEY, 33) == Column(0xA4, 0x1C, 0x65, 0xB9)
    ensures W(KEY, 34) == Column(0xE0, 0x16, 0xBA, 0xF4)
    ensures W(KEY, 35) == Column(0xAE, 0xBF, 0x7A, 0xD2)
  {
    hide W;
    Words7();
    WordNext(32);
    WordNext(33);
    WordNext(34);
    WordNext(35);
    RconValues();
  }

  lemma Words9()
    ensures W(KEY, 36) == Column(0x54, 0x99, 0x32, 0xD1)
    ensures W(KEY, 37) == Column(0xF0, 0x85, 0x57, 0x68)
    ensures W(KEY, 38) == Column(0x10, 0x93, 0xED, 0x9C)
    ensures W(KEY, 39) == Column(0xBE, 0x2C, 0x97, 0x4E)
  {
    hide W;
    Words8();
    WordNext(36);
    WordNext(37);
    WordNext(38);
    WordNext(39);
    RconValues();
  }

  lemma Words10()
    ensures W(KEY, 40) == Column(0x13, 0x11, 0x1D, 0x7F)
    ensures W(KEY, 41) == Column(0xE3, 0x94, 0x4A, 0x17)
    ensures W(KEY, 42) == Column(0xF3, 0x07, 0xA7, 0x8B)
    ensures W(KEY, 43) == Column(0x4D, 0x2B, 0x30, 0xC5)
  {
    hide W;
    Words9();
    WordNext(40);
    WordNext(41);
    WordNext(42);
    WordNext(43);
    RconValues();
  }

  function Plain(): State {
    State(Column(0x00, 0x11, 0x22, 0x33), Column(0x44, 0x55, 0x66, 0x77),
          Column(0x88, 0x99, 0xAA, 0xBB), Column(0xCC, 0xDD, 0xEE, 0xFF))
  }

  lemma KeyIs(key: seq<bv8>)
    requires key == [0x00, 0x01, 0x02, 0x03, 0x04, 0x05, 0x06, 0x07, 0x08, 0x09, 0x0A, 0x0B, 0x0C, 0x0D, 0x0E, 0x0F]
    ensures KeyWords(key) == KEY
  {}

  lemma PlainIs(block: seq<bv8>)
    requires block == [0x00, 0x11, 0x22, 0x33, 0x44, 0x55, 0x66, 0x77, 0x88, 0x99, 0xAA, 0xBB, 0xCC, 0xDD, 0xEE, 0xFF]
    ensures StateOf(block) == Plain()
  {}

  /** The rounds of the example after r key additions. */
  ghost function After(r: nat): State
    requires r <= 10
  {
    Rounds(Plain(), KeySchedule(KEY, 44), 10, SubByte, MixColumn, r)
  }

  lemma AfterNext(r: nat)
    requires 0 < r <= 10
    ensures After(r) == XorState(if r < 10 then Mixed(After(r - 1)) else ShiftRows(Substitute(SubByte, After(r - 1))),
                                 State(W(KEY, 4 * r), W(KEY, 4 * r + 1), W(KEY, 4 * r + 2), W(KEY, 4 * r + 3)))
  {
    hide W, XorState, MapColumns, ShiftRows, Substitute, SubByte, MixColumn;
  }

  lemma After0()
    ensures After(0) == State(Column(0x00, 0x10, 0x20, 0x30), Column(0x40, 0x50, 0x60, 0x70),
                              Column(0x80, 0x90, 0xA0, 0xB0), Column(0xC0, 0xD0, 0xE0, 0xF0))
  {
    hide W;
    Words0();
  }

  lemma After1()
    ensures After(1) == State(Column(0x89, 0xD8, 0x10, 0xE8), Column(0x85, 0x5A, 0xCE, 0x68),
                              Column(0x2D, 0x18, 0x43, 0xD8), Column(0xCB, 0x12, 0x8F, 0xE4))
  {
    hide W, After, MixColumn, XTime;
    After0();
    Words1();
    AfterNext(1);
    MixColumnIs(Column(0x63, 0x53, 0xE0, 0x8C));
    MixColumnIs(Column(0x09, 0x60, 0xE1, 0x04));
    MixColumnIs(Column(0xCD, 0x70, 0xB7, 0x51));
    MixColumnIs(Column(0xBA, 0xCA, 0xD0, 0xE7));
  }

  lemma After2()
    ensures After(2) == State(Column(0x49, 0x15, 0x59, 0x8F), Column(0x55, 0xE5, 0xD7, 0xA0),
                              Column(0xDA, 0xCA, 0x94, 0xFA), Column(0x1F, 0x0A, 0x63, 0xF7))
  {
    hide W, After, MixColumn, XTime;
    After1();
    Words2();
    AfterNext(2);
    MixColumnIs(Column(0xA7, 0xBE, 0x1A, 0x69));
    MixColumnIs(Column(0x97, 0xAD, 0x73, 0x9B));
    MixColumnIs(Column(0xD8, 0xC9, 0xCA, 0x45));
    MixColumnIs(Column(0x1F, 0x61, 0x8B, 0x61));
  }

  lemma After3()
    ensures After(3) == State(Column(0xFA, 0x63, 0x6A, 0x28), Column(0x25, 0xB3, 0x39, 0xC9),
                              Column(0x40, 0x66, 0x8A, 0x31), Column(0x57, 0x24, 0x4D, 0x17))
  {
    hide W, After, MixColumn, XTime;
    After2();
    Words3();
    AfterNext(3);
    MixColumnIs(Column(0x3B, 0xD9, 0x22, 0x68));
    MixColumnIs(Column(0xFC, 0x74, 0xFB, 0x73));
    MixColumnIs(Column(0x57, 0x67, 0xCB, 0xE0));
    MixColumnIs(Column(0xC0, 0x59, 0x0E, 0x2D));
  }

  lemma After4()
    ensures After(4) == State(Column(0x24, 0x72, 0x40, 0x23), Column(0x69, 0x66, 0xB3, 0xFA),
                              Column(0x6E, 0xD2, 0x75, 0x32), Column(0x88, 0x42, 0x5B, 0x6C))
  {
    hide W, After, MixColumn, XTime;
    After3();
    Words4();
    AfterNext(4);
    MixColumnIs(Column(0x2D, 0x6D, 0x7E, 0xF0));
    MixColumnIs(Column(0x3F, 0x33, 0xE3, 0x34));
    MixColumnIs(Column(0x09, 0x36, 0x02, 0xDD));
    MixColumnIs(Column(0x5B, 0xFB, 0x12, 0xC7));
  }

  lemma After5()
    ensures After(5) == State(Column(0xC8, 0x16, 0x77, 0xBC), Column(0x9B, 0x7A, 0xC9, 0x3B),
                              Column(0x25, 0x02, 0x79, 0x92), Column(0xB0, 0x26, 0x19, 0x96))
  {
    hide W, After, MixColumn, XTime;
    After4();
    Words5();
    AfterNext(5);
    MixColumnIs(Column(0x36, 0x33, 0x9D, 0x50));
    MixColumnIs(Column(0xF9, 0xB5, 0x39, 0x26));
    MixColumnIs(Column(0x9F, 0x2C, 0x09, 0x2D));
    MixColumnIs(Column(0xC4, 0x40, 0x6D, 0x23));
  }

  lemma After6()
    ensures After(6) == State(Column(0xC6, 0x2F, 0xE1, 0x09), Column(0xF7, 0x5E, 0xED, 0xC3),
                              Column(0xCC, 0x79, 0x39, 0x5D), Column(0x84, 0xF9, 0xCF, 0x5D))
  {
    hide W, After, MixColumn, XTime;
    After5();
    Words6();
    AfterNext(6);
    MixColumnIs(Column(0xE8, 0xDA, 0xB6, 0x90));
    MixColumnIs(Column(0x14, 0x77, 0xD4, 0x65));
    MixColumnIs(Column(0x3F, 0xF7, 0xF5, 0xE2));
    MixColumnIs(Column(0xE7, 0x47, 0xDD, 0x4F));
  }

  lemma After7()
    ensures After(7) == State(Column(0xD1, 0x87, 0x6C, 0x0F), Column(0x79, 0xC4, 0x30, 0x0A),
                              Column(0xB4, 0x55, 0x94, 0xAD), Column(0xD6, 0x6F, 0xF4, 0x1F))
  {
    hide W, After, MixColumn, XTime;
    After6();
    Words7();
    AfterNext(7);
    MixColumnIs(Column(0xB4, 0x58, 0x12, 0x4C));
    MixColumnIs(Column(0x68, 0xB6, 0x8A, 0x01));
    MixColumnIs(Column(0x4B, 0x99, 0xF8, 0x2E));
    MixColumnIs(Column(0x5F, 0x15, 0x55, 0x4C));
  }

  lemma After8()
    ensures After(8) == State(Column(0xFD, 0xE3, 0xBA, 0xD2), Column(0x05, 0xE5, 0xD0, 0xD7),
                              Column(0x35, 0x47, 0x96, 0x4E), Column(0xF1, 0xFE, 0x37, 0xF1))
  {
    hide W, After, MixColumn, XTime;
    After7();
    Words8();
    AfterNext(8);
    MixColumnIs(Column(0x3E, 0x1C, 0x22, 0xC0));
    MixColumnIs(Column(0xB6, 0xFC, 0xBF, 0x76));
    MixColumnIs(Column(0x8D, 0xA8, 0x50, 0x67));
    MixColumnIs(Column(0xF6, 0x17, 0x04, 0x95));
  }

  lemma After9()
    ensures After(9) == State(Column(0xBD, 0x6E, 0x7C, 0x3D), Column(0xF2, 0xB5, 0x77, 0x9E),
                              Column(0x0B, 0x61, 0x21, 0x6E), Column(0x8B, 0x10, 0xB6, 0x89))
  {
    hide W, After, MixColumn, XTime;
    After8();
    Words9();
    AfterNext(9);
    MixColumnIs(Column(0x54, 0xD9, 0x90, 0xA1));
    MixColumnIs(Column(0x6B, 0xA0, 0x9A, 0xB5));
    MixColumnIs(Column(0x96, 0xBB, 0xF4, 0x0E));
    MixColumnIs(Column(0xA1, 0x11, 0x70, 0x2F));
  }

  lemma After10()
    ensures After(10) == State(Column(0x69, 0xC4, 0xE0, 0xD8), Column(0x6A, 0x7B, 0x04, 0x30),
                              Column(0xD8, 0xCD, 0xB7, 0x80), Column(0x70, 0xB4, 0xC5, 0x5A))
  {
    hide W, After, MixColumn, XTime;
    After9();
    Words10();
    AfterNext(10);
  }

  lemma CipherIs()
    ensures BytesOf(State(Column(0x69, 0xC4, 0xE0, 0xD8), Column(0x6A, 0x7B, 0x04, 0x30),
                       Column(0xD8, 0xCD, 0xB7, 0x80), Column(0x70, 0xB4, 0xC5, 0x5A)))
         == [0x69, 0xC4, 0xE0, 0xD8, 0x6A, 0x7B, 0x04, 0x30, 0xD8, 0xCD, 0xB7, 0x80, 0x70, 0xB4, 0xC5, 0x5A]
  {}

  /** The cipher on bytes, from the key and the block to the ciphertext. */
  lemma ExampleVector(key: seq<bv8>, block: seq<bv8>)
    requires key == [0x00, 0x01, 0x02, 0x03, 0x04, 0x05, 0x06, 0x07, 0x08, 0x09, 0x0A, 0x0B, 0x0C, 0x0D, 0x0E, 0x0F]
    requires block == [0x00, 0x11, 0x22, 0x33, 0x44, 0x55, 0x66, 0x77, 0x88, 0x99, 0xAA, 0xBB, 0xCC, 0xDD, 0xEE, 0xFF]
    ensures Forward(key, 10)(block)
         == [0x69, 0xC4, 0xE0, 0xD8, 0x6A, 0x7B, 0x04, 0x30, 0xD8, 0xCD, 0xB7, 0x80, 0x70, 0xB4, 0xC5, 0x5A]
  {
    hide W, Rounds, Plain, KEY, BytesOf, StateOf, KeyWords;
    KeyIs(key);
    PlainIs(block);
    After10();
    ScheduleLength(KEY, 44);
    CipherIs();
  }

  const KEY6: seq<Column> := [
    Column(0x00, 0x01, 0x02, 0x03), Column(0x04, 0x05, 0x06, 0x07),
    Column(0x08, 0x09, 0x0A, 0x0B), Column(0x0C, 0x0D, 0x0E, 0x0F),
    Column(0x10, 0x11, 0x12, 0x13), Column(0x14, 0x15, 0x16, 0x17)]

  lemma WordsSix0()
    ensures W(KEY6, 0) == Column(0x00, 0x01, 0x02, 0x03)
    ensures W(KEY6, 1) == Column(0x04, 0x05, 0x06, 0x07)
    ensures W(KEY6, 2) == Column(0x08, 0x09, 0x0A, 0x0B)
    ensures W(KEY6, 3) == Column(0x0C, 0x0D, 0x0E, 0x0F)
    ensures W(KEY6, 4) == Column(0x10, 0x11, 0x12, 0x13)
    ensures W(KEY6, 5) == Column(0x14, 0x15, 0x16, 0x17)
  {}

  lemma WordsSix1()
    ensures W(KEY6, 6) == Column(0x58, 0x46, 0xF2, 0xF9)
    ensures W(KEY6, 7) == Column(0x5C, 0x43, 0xF4, 0xFE)
    ensures W(KEY6, 8) == Column(0x54, 0x4A, 0xFE, 0xF5)
    ensures W(KEY6, 9) == Column(0x58, 0x47, 0xF0, 0xFA)
  {
    hide W;
    WordsSix0();
    RconValues();
    NextWord(KEY6, 0, 0, Rcon(0));
    NextWord(KEY6, 1, 1, Rcon(0));
    NextWord(KEY6, 2, 2, Rcon(0));
    NextWord(KEY6, 3, 3, Rcon(0));
  }

  lemma WordsSix2()
    ensures W(KEY6, 10) == Column(0x48, 0x56, 0xE2, 0xE9)
    ensures W(KEY6, 11) == Column(0x5C, 0x43, 0xF4, 0xFE)
    ensures W(KEY6, 12) == Column(0x40, 0xF9, 0x49, 0xB3)
    ensures W(KEY6, 13) == Column(0x1C, 0xBA, 0xBD, 0x4D)
  {
    hide W;
    WordsSix0();
    WordsSix1();
    RconValues();
    NextWord(KEY6, 4, 4, Rcon(0));
    NextWord(KEY6, 5, 5, Rcon(0));
    NextWord(KEY6, 6, 0, Rcon(1));
    NextWord(KEY6, 7, 1, Rcon(1));
  }

  const KEY8: seq<Column> := [
    Column(0x00, 0x01, 0x02, 0x03), Column(0x04, 0x05, 0x06, 0x07),
    Column(0x08, 0x09, 0x0A, 0x0B), Column(0x0C, 0x0D, 0x0E, 0x0F),
    Column(0x10, 0x11, 0x12, 0x13), Column(0x14, 0x15, 0x16, 0x17),
    Column(0x18, 0x19, 0x1A, 0x1B), Column(0x1C, 0x1D, 0x1E, 0x1F)]

  lemma WordsEight0()
    ensures W(KEY8, 0) == Column(0x00, 0x01, 0x02, 0x03)
    ensures W(KEY8, 1) == Column(0x04, 0x05, 0x06, 0x07)
    ensures W(KEY8, 2) == Column(0x08, 0x09, 0x0A, 0x0B)
    ensures W(KEY8, 3) == Column(0x0C, 0x0D, 0x0E, 0x0F)
    ensures W(KEY8, 4) == Column(0x10, 0x11, 0x12, 0x13)
    ensures W(KEY8, 5) == Column(0x14, 0x15, 0x16, 0x17)
    ensures W(KEY8, 6) == Column(0x18, 0x19, 0x1A, 0x1B)
    ensures W(KEY8, 7) == Column(0x1C, 0x1D, 0x1E, 0x1F)
  {}

  lemma WordsEight1()
    ensures W(KEY8, 8) == Column(0xA5, 0x73, 0xC2, 0x9F)
    ensures W(KEY8, 9) == Column(0xA1, 0x76, 0xC4, 0x98)
    ensures W(KEY8, 10) == Column(0xA9, 0x7F, 0xCE, 0x93)
    ensures W(KEY8, 11) == Column(0xA5, 0x72, 0xC0, 0x9C)
  {
    hide W;
    WordsEight0();
    RconValues();
    NextWord(KEY8, 0, 0, Rcon(0));
    NextWord(KEY8, 1, 1, Rcon(0));
    NextWord(KEY8, 2, 2, Rcon(0));
    NextWord(KEY8, 3, 3, Rcon(0));
  }

  lemma WordsEight2()
    ensures W(KEY8, 12) == Column(0x16, 0x51, 0xA8, 0xCD)
    ensures W(KEY8, 13) == Column(0x02, 0x44, 0xBE, 0xDA)
    ensures W(KEY8, 14) == Column(0x1A, 0x5D, 0xA4, 0xC1)
    ensures W(KEY8, 15) == Column(0x06, 0x40, 0xBA, 0xDE)
  {
    hide W;
    WordsEight0();
    WordsEight1();
    RconValues();
    NextWord(KEY8, 4, 4, Rcon(0));
    NextWord(KEY8, 5, 5, Rcon(0));
    NextWord(KEY8, 6, 6, Rcon(0));
    NextWord(KEY8, 7, 7, Rcon(0));
  }

  lemma WordsEight3()
    ensures W(KEY8, 16) == Column(0xAE, 0x87, 0xDF, 0xF0)
    ensures W(KEY8, 17) == Column(0x0F, 0xF1, 0x1B, 0x68)
  {
    hide W;
    WordsEight0();
    WordsEight1();
    WordsEight2();
    RconValues();
    NextWord(KEY8, 8, 0, Rcon(1));
    NextWord(KEY8, 9, 1, Rcon(1));
  }
}
