/** Examples of BLAKE2s, a round to a lemma: "abc" of appendix B of RFC 7693, and 64 bytes under a key of 32 bytes, which is
    the shape that FastKDF uses. */
module Blake2sExamples {
  import opened Words32
  import opened ByteBuffers
  import opened Blake2sCompression
  import opened Blake2sRounds
  import opened Blake2s

  // ---------- the message "abc"

  const ABC: Words := [
    0x00636261, 0x00000000, 0x00000000, 0x00000000, 0x00000000, 0x00000000, 0x00000000, 0x00000000,
    0x00000000, 0x00000000, 0x00000000, 0x00000000, 0x00000000, 0x00000000, 0x00000000, 0x00000000]

  ghost function AbcStart(): (v: Words)
    ensures |v| == 16
  {
    Begin([0x6B08E647, 0xBB67AE85, 0x3C6EF372, 0xA54FF53A, 0x510E527F, 0x9B05688C, 0x1F83D9AB, 0x5BE0CD19], 3, true)
  }

  lemma AbcWords()
    ensures |ABC| == 16
    ensures ABC[0] == 0x00636261 && ABC[1] == 0x00000000 && ABC[2] == 0x00000000 && ABC[3] == 0x00000000
    ensures ABC[4] == 0x00000000 && ABC[5] == 0x00000000 && ABC[6] == 0x00000000 && ABC[7] == 0x00000000
    ensures ABC[8] == 0x00000000 && ABC[9] == 0x00000000 && ABC[10] == 0x00000000 && ABC[11] == 0x00000000
    ensures ABC[12] == 0x00000000 && ABC[13] == 0x00000000 && ABC[14] == 0x00000000 && ABC[15] == 0x00000000
  {}

  lemma Abc0()
    ensures |ABC| == 16
    ensures VecOf(Rounds(AbcStart(), ABC, 0)) == Vec(
        0x6B08E647, 0xBB67AE85, 0x3C6EF372, 0xA54FF53A, 0x510E527F, 0x9B05688C, 0x1F83D9AB, 0x5BE0CD19,
        0x6A09E667, 0xBB67AE85, 0x3C6EF372, 0xA54FF53A, 0x510E527C, 0x9B05688C, 0xE07C2654, 0x5BE0CD19)
  {
    AbcWords();
  }

  lemma Abc1()
    ensures |ABC| == 16
    ensures VecOf(Rounds(AbcStart(), ABC, 1)) == Vec(
        0x16A3242E, 0xD7B5E238, 0xCE8CE24B, 0x927AEDE1, 0xA7B430D9, 0x93A4A14E, 0xA44E7C31, 0x41D4759B,
        0x95BF33D3, 0x9A99C181, 0x608A3A6B, 0xB666383E, 0x7A8DD50F, 0xBE378ED7, 0x353D1EE6, 0x3BB44C6B)
  {
    hide VecOf, Rounds, Taken, AbcStart, ABC;
    Abc0();
    AbcWords();
    Order0(ABC);
    RoundIs(AbcStart(), ABC, 0, Vec(
          0x6B08E647, 0xBB67AE85, 0x3C6EF372, 0xA54FF53A, 0x510E527F, 0x9B05688C, 0x1F83D9AB, 0x5BE0CD19,
          0x6A09E667, 0xBB67AE85, 0x3C6EF372, 0xA54FF53A, 0x510E527C, 0x9B05688C, 0xE07C2654, 0x5BE0CD19),
      0x00636261, 0x00000000, 0x00000000, 0x00000000, 0x00000000, 0x00000000, 0x00000000, 0x00000000,
      0x00000000, 0x00000000, 0x00000000, 0x00000000, 0x00000000, 0x00000000, 0x00000000, 0x00000000);
  }

  lemma Abc2()
    ensures |ABC| == 16
    ensures VecOf(Rounds(AbcStart(), ABC, 2)) == Vec(
        0x3AE30FE3, 0x0982A96B, 0xE88185B4, 0x3E339B16, 0xF24338CD, 0x0E66D326, 0xE005ED0C, 0xD591A277,
        0x180B1F3A, 0xFCF43914, 0x30DB62D6, 0x4847831C, 0x7F00C58E, 0xFB847886, 0xC544E836, 0x524AB0E2)
  {
    hide VecOf, Rounds, Taken, AbcStart, ABC;
    Abc1();
    AbcWords();
    Order1(ABC);
    RoundIs(AbcStart(), ABC, 1, Vec(
          0x16A3242E, 0xD7B5E238, 0xCE8CE24B, 0x927AEDE1, 0xA7B430D9, 0x93A4A14E, 0xA44E7C31, 0x41D4759B,
          0x95BF33D3, 0x9A99C181, 0x608A3A6B, 0xB666383E, 0x7A8DD50F, 0xBE378ED7, 0x353D1EE6, 0x3BB44C6B),
      0x00000000, 0x00000000, 0x00000000, 0x00000000, 0x00000000, 0x00000000, 0x00000000, 0x00000000,
      0x00000000, 0x00000000, 0x00636261, 0x00000000, 0x00000000, 0x00000000, 0x00000000, 0x00000000);
  }

  lemma Abc3()
    ensures |ABC| == 16
    ensures VecOf(Rounds(AbcStart(), ABC, 3)) == Vec(
        0x7A3BE783, 0x997546C1, 0xD45246DF, 0xEDB5F821, 0x7F98A742, 0x10E864E2, 0xD4AB70D0, 0xC63CB1AB,
        0x6038DA9E, 0x414594B0, 0xF2C218B5, 0x8DA0DCB7, 0xD7CD7AF5, 0xAB4909DF, 0x85031A52, 0xC4EDFC98)
  {
    hide VecOf, Rounds, Taken, AbcStart, ABC;
    Abc2();
    AbcWords();
    Order2(ABC);
    RoundIs(AbcStart(), ABC, 2, Vec(
          0x3AE30FE3, 0x0982A96B, 0xE88185B4, 0x3E339B16, 0xF24338CD, 0x0E66D326, 0xE005ED0C, 0xD591A277,
          0x180B1F3A, 0xFCF43914, 0x30DB62D6, 0x4847831C, 0x7F00C58E, 0xFB847886, 0xC544E836, 0x524AB0E2),
      0x00000000, 0x00000000, 0x00000000, 0x00636261, 0x00000000, 0x00000000, 0x00000000, 0x00000000,
      0x00000000, 0x00000000, 0x00000000, 0x00000000, 0x00000000, 0x00000000, 0x00000000, 0x00000000);
  }

  lemma Abc4()
    ensures |ABC| == 16
    ensures VecOf(Rounds(AbcStart(), ABC, 4)) == Vec(
        0x2A8B8CB7, 0x1ACA82B2, 0x14045D7F, 0xCC7258ED, 0x383CF67C, 0xE090E7F9, 0x3025D276, 0x57D04DE4,
        0x994BACF0, 0xF0982759, 0xF17EE300, 0xD48FC2D5, 0xDC854C10, 0x523898A9, 0xC03A0F89, 0x47D6CD88)
  {
    hide VecOf, Rounds, Taken, AbcStart, ABC;
    Abc3();
    AbcWords();
    Order3(ABC);
    RoundIs(AbcStart(), ABC, 3, Vec(
          0x7A3BE783, 0x997546C1, 0xD45246DF, 0xEDB5F821, 0x7F98A742, 0x10E864E2, 0xD4AB70D0, 0xC63CB1AB,
          0x6038DA9E, 0x414594B0, 0xF2C218B5, 0x8DA0DCB7, 0xD7CD7AF5, 0xAB4909DF, 0x85031A52, 0xC4EDFC98),
      0x00000000, 0x00000000, 0x00000000, 0x00000000, 0x00000000, 0x00000000, 0x00000000, 0x00000000,
      0x00000000, 0x00000000, 0x00000000, 0x00000000, 0x00000000, 0x00636261, 0x00000000, 0x00000000);
  }

  lemma Abc5()
    ensures |ABC| == 16
    ensures VecOf(Rounds(AbcStart(), ABC, 5)) == Vec(
        0xC4AA2DDB, 0x111343A3, 0xD54A700A, 0x574A00A9, 0x857D5A48, 0xB1E11989, 0x6F5C52DF, 0xDD2C53A3,
        0x678E5F8E, 0x9718D4E9, 0x622CB684, 0x92976076, 0x0E41A517, 0x359DC2BE, 0x87A87DDD, 0x643F9CEC)
  {
    hide VecOf, Rounds, Taken, AbcStart, ABC;
    Abc4();
    AbcWords();
    Order4(ABC);
    RoundIs(AbcStart(), ABC, 4, Vec(
          0x2A8B8CB7, 0x1ACA82B2, 0x14045D7F, 0xCC7258ED, 0x383CF67C, 0xE090E7F9, 0x3025D276, 0x57D04DE4,
          0x994BACF0, 0xF0982759, 0xF17EE300, 0xD48FC2D5, 0xDC854C10, 0x523898A9, 0xC03A0F89, 0x47D6CD88),
      0x00000000, 0x00636261, 0x00000000, 0x00000000, 0x00000000, 0x00000000, 0x00000000, 0x00000000,
      0x00000000, 0x00000000, 0x00000000, 0x00000000, 0x00000000, 0x00000000, 0x00000000, 0x00000000);
  }

  lemma Abc6()
    ensures |ABC| == 16
    ensures VecOf(Rounds(AbcStart(), ABC, 6)) == Vec(
        0x3453921C, 0xD7595EE1, 0x592E776D, 0x3ED6A974, 0x4D997CB3, 0xDE9212C3, 0x35ADF5C9, 0x9916FD65,
        0x96562E89, 0x4EAD0792, 0xEBFC2712, 0x2385F5B2, 0xF34600FB, 0xD7BC20FB, 0xEB452A7B, 0xECE1AA40)
  {
    hide VecOf, Rounds, Taken, AbcStart, ABC;
    Abc5();
    AbcWords();
    Order5(ABC);
    RoundIs(AbcStart(), ABC, 5, Vec(
          0xC4AA2DDB, 0x111343A3, 0xD54A700A, 0x574A00A9, 0x857D5A48, 0xB1E11989, 0x6F5C52DF, 0xDD2C53A3,
          0x678E5F8E, 0x9718D4E9, 0x622CB684, 0x92976076, 0x0E41A517, 0x359DC2BE, 0x87A87DDD, 0x643F9CEC),
      0x00000000, 0x00000000, 0x00000000, 0x00000000, 0x00636261, 0x00000000, 0x00000000, 0x00000000,
      0x00000000, 0x00000000, 0x00000000, 0x00000000, 0x00000000, 0x00000000, 0x00000000, 0x00000000);
  }

  lemma Abc7()
    ensures |ABC| == 16
    ensures VecOf(Rounds(AbcStart(), ABC, 7)) == Vec(
        0xBE851B2D, 0xA85F6358, 0x81E6FC3B, 0x0BB28000, 0xFA55A33A, 0x87BE1FAD, 0x4119370F, 0x1E2261AA,
        0xA1318FD3, 0xF4329816, 0x071783C2, 0x6E536A8D, 0x9A81A601, 0xE7EC80F1, 0xACC09948, 0xF849A584)
  {
    hide VecOf, Rounds, Taken, AbcStart, ABC;
    Abc6();
    AbcWords();
    Order6(ABC);
    RoundIs(AbcStart(), ABC, 6, Vec(
          0x3453921C, 0xD7595EE1, 0x592E776D, 0x3ED6A974, 0x4D997CB3, 0xDE9212C3, 0x35ADF5C9, 0x9916FD65,
          0x96562E89, 0x4EAD0792, 0xEBFC2712, 0x2385F5B2, 0xF34600FB, 0xD7BC20FB, 0xEB452A7B, 0xECE1AA40),
      0x00000000, 0x00000000, 0x00000000, 0x00000000, 0x00000000, 0x00000000, 0x00000000, 0x00000000,
      0x00636261, 0x00000000, 0x00000000, 0x00000000, 0x00000000, 0x00000000, 0x00000000, 0x00000000);
  }

  lemma Abc8()
    ensures |ABC| == 16
    ensures VecOf(Rounds(AbcStart(), ABC, 8)) == Vec(
        0x07E5B85A, 0x069CC164, 0xF9DE3141, 0xA56F4680, 0x9E440AD2, 0x9AB659EA, 0x3C84B971, 0x21DBD9CF,
        0x46699F8C, 0x765257EC, 0xAF1D998C, 0x75E4C3B6, 0x523878DC, 0x30715015, 0x397FEE81, 0x4F1FA799)
  {
    hide VecOf, Rounds, Taken, AbcStart, ABC;
    Abc7();
    AbcWords();
    Order7(ABC);
    RoundIs(AbcStart(), ABC, 7, Vec(
          0xBE851B2D, 0xA85F6358, 0x81E6FC3B, 0x0BB28000, 0xFA55A33A, 0x87BE1FAD, 0x4119370F, 0x1E2261AA,
          0xA1318FD3, 0xF4329816, 0x071783C2, 0x6E536A8D, 0x9A81A601, 0xE7EC80F1, 0xACC09948, 0xF849A584),
      0x00000000, 0x00000000, 0x00000000, 0x00000000, 0x00000000, 0x00000000, 0x00000000, 0x00000000,
      0x00000000, 0x00636261, 0x00000000, 0x00000000, 0x00000000, 0x00000000, 0x00000000, 0x00000000);
  }

  lemma Abc9()
    ensures |ABC| == 16
    ensures VecOf(Rounds(AbcStart(), ABC, 9)) == Vec(
        0x435148C4, 0xA5AA2D11, 0x4B354173, 0xD543BC9E, 0xBDA2591C, 0xBF1D2569, 0x4FCB3120, 0x707ADA48,
        0x565B3FDE, 0x32C9C916, 0xEAF4A1AB, 0xB1018F28, 0x8078D978, 0x68ADE4B5, 0x9778FDA3, 0x2863B92E)
  {
    hide VecOf, Rounds, Taken, AbcStart, ABC;
    Abc8();
    AbcWords();
    Order8(ABC);
    RoundIs(AbcStart(), ABC, 8, Vec(
          0x07E5B85A, 0x069CC164, 0xF9DE3141, 0xA56F4680, 0x9E440AD2, 0x9AB659EA, 0x3C84B971, 0x21DBD9CF,
          0x46699F8C, 0x765257EC, 0xAF1D998C, 0x75E4C3B6, 0x523878DC, 0x30715015, 0x397FEE81, 0x4F1FA799),
      0x00000000, 0x00000000, 0x00000000, 0x00000000, 0x00000000, 0x00000000, 0x00636261, 0x00000000,
      0x00000000, 0x00000000, 0x00000000, 0x00000000, 0x00000000, 0x00000000, 0x00000000, 0x00000000);
  }

  lemma Abc10()
    ensures |ABC| == 16
    ensures VecOf(Rounds(AbcStart(), ABC, 10)) == Vec(
        0xD9C994AA, 0xCFEC3AA6, 0x700D0AB2, 0x2C38670E, 0xAF6A1F66, 0x1D023EF3, 0x1D9EC27D, 0x945357A5,
        0x3E9FFEBD, 0x969FE811, 0xEF485E21, 0xA632797A, 0xDEEF082E, 0xAF3D80E1, 0x4E86829B, 0x4DEAFD3A)
  {
    hide VecOf, Rounds, Taken, AbcStart, ABC;
    Abc9();
    AbcWords();
    Order9(ABC);
    RoundIs(AbcStart(), ABC, 9, Vec(
          0x435148C4, 0xA5AA2D11, 0x4B354173, 0xD543BC9E, 0xBDA2591C, 0xBF1D2569, 0x4FCB3120, 0x707ADA48,
          0x565B3FDE, 0x32C9C916, 0xEAF4A1AB, 0xB1018F28, 0x8078D978, 0x68ADE4B5, 0x9778FDA3, 0x2863B92E),
      0x00000000, 0x00000000, 0x00000000, 0x00000000, 0x00000000, 0x00000000, 0x00000000, 0x00000000,
      0x00000000, 0x00000000, 0x00000000, 0x00000000, 0x00000000, 0x00000000, 0x00000000, 0x00636261);
  }

  lemma AbcGives()
    ensures |ABC| == 16
    ensures F([0x6B08E647, 0xBB67AE85, 0x3C6EF372, 0xA54FF53A, 0x510E527F, 0x9B05688C, 0x1F83D9AB, 0x5BE0CD19], ABC, 3, true)
         == [0x8C5E8C50, 0xE2147C32, 0xA32BA7E1, 0x2F45EB4E, 0x208B4537, 0x293AD69E, 0x4C9B994D, 0x82596786]
  {
    hide Rounds, ABC, VecOf, Begin, Output;
    Abc10();
    var v := Rounds(AbcStart(), ABC, 10);
    VecWords(v, Vec(
          0xD9C994AA, 0xCFEC3AA6, 0x700D0AB2, 0x2C38670E, 0xAF6A1F66, 0x1D023EF3, 0x1D9EC27D, 0x945357A5,
          0x3E9FFEBD, 0x969FE811, 0xEF485E21, 0xA632797A, 0xDEEF082E, 0xAF3D80E1, 0x4E86829B, 0x4DEAFD3A));
    var h := [0x6B08E647, 0xBB67AE85, 0x3C6EF372, 0xA54FF53A, 0x510E527F, 0x9B05688C, 0x1F83D9AB, 0x5BE0CD19];
    OutputAt(h, v, 0, 0x6B08E647, 0xD9C994AA, 0x3E9FFEBD);
    OutputAt(h, v, 1, 0xBB67AE85, 0xCFEC3AA6, 0x969FE811);
    OutputAt(h, v, 2, 0x3C6EF372, 0x700D0AB2, 0xEF485E21);
    OutputAt(h, v, 3, 0xA54FF53A, 0x2C38670E, 0xA632797A);
    OutputAt(h, v, 4, 0x510E527F, 0xAF6A1F66, 0xDEEF082E);
    OutputAt(h, v, 5, 0x9B05688C, 0x1D023EF3, 0xAF3D80E1);
    OutputAt(h, v, 6, 0x1F83D9AB, 0x1D9EC27D, 0x4E86829B);
    OutputAt(h, v, 7, 0x5BE0CD19, 0x945357A5, 0x4DEAFD3A);
    EightWords(Output(h, v));
  }

  // ---------- the key block of the second example

  const KEY_BLOCK: Words := [
    0x03020100, 0x07060504, 0x0B0A0908, 0x0F0E0D0C, 0x13121110, 0x17161514, 0x1B1A1918, 0x1F1E1D1C,
    0x00000000, 0x00000000, 0x00000000, 0x00000000, 0x00000000, 0x00000000, 0x00000000, 0x00000000]

  ghost function KeyStart(): (v: Words)
    ensures |v| == 16
  {
    Begin([0x6B08C647, 0xBB67AE85, 0x3C6EF372, 0xA54FF53A, 0x510E527F, 0x9B05688C, 0x1F83D9AB, 0x5BE0CD19], 64, false)
  }

  lemma KeyWords()
    ensures |KEY_BLOCK| == 16
    ensures KEY_BLOCK[0] == 0x03020100 && KEY_BLOCK[1] == 0x07060504 && KEY_BLOCK[2] == 0x0B0A0908 && KEY_BLOCK[3] == 0x0F0E0D0C
    ensures KEY_BLOCK[4] == 0x13121110 && KEY_BLOCK[5] == 0x17161514 && KEY_BLOCK[6] == 0x1B1A1918 && KEY_BLOCK[7] == 0x1F1E1D1C
    ensures KEY_BLOCK[8] == 0x00000000 && KEY_BLOCK[9] == 0x00000000 && KEY_BLOCK[10] == 0x00000000 && KEY_BLOCK[11] == 0x00000000
    ensures KEY_BLOCK[12] == 0x00000000 && KEY_BLOCK[13] == 0x00000000 && KEY_BLOCK[14] == 0x00000000 && KEY_BLOCK[15] == 0x00000000
  {}

  lemma Key0()
    ensures |KEY_BLOCK| == 16
    ensures VecOf(Rounds(KeyStart(), KEY_BLOCK, 0)) == Vec(
        0x6B08C647, 0xBB67AE85, 0x3C6EF372, 0xA54FF53A, 0x510E527F, 0x9B05688C, 0x1F83D9AB, 0x5BE0CD19,
        0x6A09E667, 0xBB67AE85, 0x3C6EF372, 0xA54FF53A, 0x510E523F, 0x9B05688C, 0x1F83D9AB, 0x5BE0CD19)
  {
    KeyWords();
  }

  lemma Key1()
    ensures |KEY_BLOCK| == 16
    ensures VecOf(Rounds(KeyStart(), KEY_BLOCK, 1)) == Vec(
        0x79D847D7, 0xE58DE31A, 0xAE585A1B, 0x014CB14A, 0xCB12F282, 0xEDDFC2EB, 0xE33AA2B0, 0x3070309C,
        0x5D9FB290, 0x1E9797A1, 0x1FF8FD88, 0x86EA4EFF, 0xA5ED609F, 0xFB588DD1, 0x3B1D00F3, 0x24F23CD2)
  {
    hide VecOf, Rounds, Taken, KeyStart, KEY_BLOCK;
    Key0();
    KeyWords();
    Order0(KEY_BLOCK);
    RoundIs(KeyStart(), KEY_BLOCK, 0, Vec(
          0x6B08C647, 0xBB67AE85, 0x3C6EF372, 0xA54FF53A, 0x510E527F, 0x9B05688C, 0x1F83D9AB, 0x5BE0CD19,
          0x6A09E667, 0xBB67AE85, 0x3C6EF372, 0xA54FF53A, 0x510E523F, 0x9B05688C, 0x1F83D9AB, 0x5BE0CD19),
      0x03020100, 0x07060504, 0x0B0A0908, 0x0F0E0D0C, 0x13121110, 0x17161514, 0x1B1A1918, 0x1F1E1D1C,
      0x00000000, 0x00000000, 0x00000000, 0x00000000, 0x00000000, 0x00000000, 0x00000000, 0x00000000);
  }

  lemma Key2()
    ensures |KEY_BLOCK| == 16
    ensures VecOf(Rounds(KeyStart(), KEY_BLOCK, 2)) == Vec(
        0x64177C72, 0x3DDE73C8, 0x96A1E325, 0x99B8C58E, 0x4324A776, 0xE2E1DEB1, 0x7BF39125, 0x4241093F,
        0x9233743B, 0x8B74432C, 0x5B9E4229, 0xF06ADCA2, 0xF6D5EFC3, 0x9C322C5C, 0xCC738A40, 0x90DDD9E9)
  {
    hide VecOf, Rounds, Taken, KeyStart, KEY_BLOCK;
    Key1();
    KeyWords();
    Order1(KEY_BLOCK);
    RoundIs(KeyStart(), KEY_BLOCK, 1, Vec(
          0x79D847D7, 0xE58DE31A, 0xAE585A1B, 0x014CB14A, 0xCB12F282, 0xEDDFC2EB, 0xE33AA2B0, 0x3070309C,
          0x5D9FB290, 0x1E9797A1, 0x1FF8FD88, 0x86EA4EFF, 0xA5ED609F, 0xFB588DD1, 0x3B1D00F3, 0x24F23CD2),
      0x00000000, 0x00000000, 0x13121110, 0x00000000, 0x00000000, 0x00000000, 0x00000000, 0x1B1A1918,
      0x07060504, 0x00000000, 0x03020100, 0x0B0A0908, 0x00000000, 0x1F1E1D1C, 0x17161514, 0x0F0E0D0C);
  }

  lemma Key3()
    ensures |KEY_BLOCK| == 16
    ensures VecOf(Rounds(KeyStart(), KEY_BLOCK, 3)) == Vec(
        0x9A364E23, 0x9EF9A652, 0xE94867DF, 0xF20A0D97, 0xC2A2C6EB, 0x51044A26, 0xC9E6BE10, 0x563E5205,
        0x6C1B5DFA, 0x10A486E3, 0x8FAB7AC7, 0x6645FA09, 0xE6729E2F, 0xBF0E75CC, 0x62128D19, 0x58D46249)
  {
    hide VecOf, Rounds, Taken, KeyStart, KEY_BLOCK;
    Key2();
    KeyWords();
    Order2(KEY_BLOCK);
    RoundIs(KeyStart(), KEY_BLOCK, 2, Vec(
          0x64177C72, 0x3DDE73C8, 0x96A1E325, 0x99B8C58E, 0x4324A776, 0xE2E1DEB1, 0x7BF39125, 0x4241093F,
          0x9233743B, 0x8B74432C, 0x5B9E4229, 0xF06ADCA2, 0xF6D5EFC3, 0x9C322C5C, 0xCC738A40, 0x90DDD9E9),
      0x00000000, 0x00000000, 0x00000000, 0x03020100, 0x17161514, 0x0B0A0908, 0x00000000, 0x00000000,
      0x00000000, 0x00000000, 0x0F0E0D0C, 0x1B1A1918, 0x1F1E1D1C, 0x07060504, 0x00000000, 0x13121110);
  }

  lemma Key4()
    ensures |KEY_BLOCK| == 16
    ensures VecOf(Rounds(KeyStart(), KEY_BLOCK, 4)) == Vec(
        0x40F5CAF6, 0xF1260721, 0xE5A2BD2B, 0xC21255B5, 0xB899FE4B, 0xDA82CB2B, 0x5A080333, 0x32831B04,
        0x726DE766, 0x69B50147, 0x03A2E32E, 0xC2D734D1, 0x97E9C4E5, 0xB105EF06, 0x017BE3CA, 0x0DF97F44)
  {
    hide VecOf, Rounds, Taken, KeyStart, KEY_BLOCK;
    Key3();
    KeyWords();
    Order3(KEY_BLOCK);
    RoundIs(KeyStart(), KEY_BLOCK, 3, Vec(
          0x9A364E23, 0x9EF9A652, 0xE94867DF, 0xF20A0D97, 0xC2A2C6EB, 0x51044A26, 0xC9E6BE10, 0x563E5205,
          0x6C1B5DFA, 0x10A486E3, 0x8FAB7AC7, 0x6645FA09, 0xE6729E2F, 0xBF0E75CC, 0x62128D19, 0x58D46249),
      0x1F1E1D1C, 0x00000000, 0x0F0E0D0C, 0x07060504, 0x00000000, 0x00000000, 0x00000000, 0x00000000,
      0x0B0A0908, 0x1B1A1918, 0x17161514, 0x00000000, 0x13121110, 0x03020100, 0x00000000, 0x00000000);
  }

  lemma Key5()
    ensures |KEY_BLOCK| == 16
    ensures VecOf(Rounds(KeyStart(), KEY_BLOCK, 5)) == Vec(
        0x45C41702, 0x66D93E3B, 0xD3CABB74, 0xC4D3F93E, 0x957FDB41, 0xCF4516EA, 0x71DAAFE1, 0x6548330A,
        0xBBF8F8B3, 0xB7AAA3DD, 0x5EBAF642, 0xAC19CF84, 0x09391A86, 0x71FFE4A6, 0xA230A162, 0xC9059225)
  {
    hide VecOf, Rounds, Taken, KeyStart, KEY_BLOCK;
    Key4();
    KeyWords();
    Order4(KEY_BLOCK);
    RoundIs(KeyStart(), KEY_BLOCK, 4, Vec(
          0x40F5CAF6, 0xF1260721, 0xE5A2BD2B, 0xC21255B5, 0xB899FE4B, 0xDA82CB2B, 0x5A080333, 0x32831B04,
          0x726DE766, 0x69B50147, 0x03A2E32E, 0xC2D734D1, 0x97E9C4E5, 0xB105EF06, 0x017BE3CA, 0x0DF97F44),
      0x00000000, 0x03020100, 0x17161514, 0x1F1E1D1C, 0x0B0A0908, 0x13121110, 0x00000000, 0x00000000,
      0x00000000, 0x07060504, 0x00000000, 0x00000000, 0x1B1A1918, 0x00000000, 0x0F0E0D0C, 0x00000000);
  }

  lemma Key6()
    ensures |KEY_BLOCK| == 16
    ensures VecOf(Rounds(KeyStart(), KEY_BLOCK, 6)) == Vec(
        0x059A8407, 0x289FCC74, 0x436D5656, 0xABB50D8E, 0xD409754D, 0x39DAA019, 0x8FDCFB6B, 0xDF3B8043,
        0x6C4E1F3D, 0x4FAC2E54, 0xD8A09A20, 0xE74A3A8F, 0xDB63EE6E, 0x75EEF78A, 0xE1358123, 0x421E041E)
  {
    hide VecOf, Rounds, Taken, KeyStart, KEY_BLOCK;
    Key5();
    KeyWords();
    Order5(KEY_BLOCK);
    RoundIs(KeyStart(), KEY_BLOCK, 5, Vec(
          0x45C41702, 0x66D93E3B, 0xD3CABB74, 0xC4D3F93E, 0x957FDB41, 0xCF4516EA, 0x71DAAFE1, 0x6548330A,
          0xBBF8F8B3, 0xB7AAA3DD, 0x5EBAF642, 0xAC19CF84, 0x09391A86, 0x71FFE4A6, 0xA230A162, 0xC9059225),
      0x0B0A0908, 0x00000000, 0x1B1A1918, 0x00000000, 0x03020100, 0x00000000, 0x00000000, 0x0F0E0D0C,
      0x13121110, 0x00000000, 0x1F1E1D1C, 0x17161514, 0x00000000, 0x00000000, 0x07060504, 0x00000000);
  }

  lemma Key7()
    ensures |KEY_BLOCK| == 16
    ensures VecOf(Rounds(KeyStart(), KEY_BLOCK, 7)) == Vec(
        0x6E94DA1E, 0x01E06DA8, 0xDB5B5D83, 0x0FBA41DC, 0x3F16AF19, 0x82ACF5E9, 0x3F430951, 0x392238CA,
        0x72ABB739, 0x504DE4BC, 0xE7C59CE6, 0x91002DC7, 0xC95F2012, 0x8B7D22B0, 0xC1B886AE, 0x3F4DE6A1)
  {
    hide VecOf, Rounds, Taken, KeyStart, KEY_BLOCK;
    Key6();
    KeyWords();
    Order6(KEY_BLOCK);
    RoundIs(KeyStart(), KEY_BLOCK, 6, Vec(
          0x059A8407, 0x289FCC74, 0x436D5656, 0xABB50D8E, 0xD409754D, 0x39DAA019, 0x8FDCFB6B, 0xDF3B8043,
          0x6C4E1F3D, 0x4FAC2E54, 0xD8A09A20, 0xE74A3A8F, 0xDB63EE6E, 0x75EEF78A, 0xE1358123, 0x421E041E),
      0x00000000, 0x17161514, 0x07060504, 0x00000000, 0x00000000, 0x00000000, 0x13121110, 0x00000000,
      0x03020100, 0x1F1E1D1C, 0x1B1A1918, 0x0F0E0D0C, 0x00000000, 0x0B0A0908, 0x00000000, 0x00000000);
  }

  lemma Key8()
    ensures |KEY_BLOCK| == 16
    ensures VecOf(Rounds(KeyStart(), KEY_BLOCK, 8)) == Vec(
        0xACC9E925, 0x8BDBBDE4, 0xFCB7362A, 0x3B8F3084, 0x4C15CB87, 0x960883BC, 0xDFA77346, 0x132CBECF,
        0x62F52B79, 0xA94EF8F9, 0x24ACA816, 0xD02E32C9, 0x9F58448E, 0x51533020, 0xB037AD8E, 0xDCF9530A)
  {
    hide VecOf, Rounds, Taken, KeyStart, KEY_BLOCK;
    Key7();
    KeyWords();
    Order7(KEY_BLOCK);
    RoundIs(KeyStart(), KEY_BLOCK, 7, Vec(
          0x6E94DA1E, 0x01E06DA8, 0xDB5B5D83, 0x0FBA41DC, 0x3F16AF19, 0x82ACF5E9, 0x3F430951, 0x392238CA,
          0x72ABB739, 0x504DE4BC, 0xE7C59CE6, 0x91002DC7, 0xC95F2012, 0x8B7D22B0, 0xC1B886AE, 0x3F4DE6A1),
      0x00000000, 0x00000000, 0x1F1E1D1C, 0x00000000, 0x00000000, 0x07060504, 0x0F0E0D0C, 0x00000000,
      0x17161514, 0x03020100, 0x00000000, 0x13121110, 0x00000000, 0x1B1A1918, 0x0B0A0908, 0x00000000);
  }

  lemma Key9()
    ensures |KEY_BLOCK| == 16
    ensures VecOf(Rounds(KeyStart(), KEY_BLOCK, 9)) == Vec(
        0x1E4FB78C, 0xFAE9750B, 0x7CB91E41, 0xCB1261D2, 0x7C804D5E, 0xE1CF6DEC, 0x867FD7A6, 0x8E3122D5,
        0x83A99ACC, 0x92DC3A33, 0xC31FBF13, 0x9F3ACA46, 0x355D5F85, 0x9C4CE179, 0x888ED8AB, 0x8EC11817)
  {
    hide VecOf, Rounds, Taken, KeyStart, KEY_BLOCK;
    Key8();
    KeyWords();
    Order8(KEY_BLOCK);
    RoundIs(KeyStart(), KEY_BLOCK, 8, Vec(
          0xACC9E925, 0x8BDBBDE4, 0xFCB7362A, 0x3B8F3084, 0x4C15CB87, 0x960883BC, 0xDFA77346, 0x132CBECF,
          0x62F52B79, 0xA94EF8F9, 0x24ACA816, 0xD02E32C9, 0x9F58448E, 0x51533020, 0xB037AD8E, 0xDCF9530A),
      0x1B1A1918, 0x00000000, 0x00000000, 0x00000000, 0x00000000, 0x0F0E0D0C, 0x03020100, 0x00000000,
      0x00000000, 0x0B0A0908, 0x00000000, 0x1F1E1D1C, 0x07060504, 0x13121110, 0x00000000, 0x17161514);
  }

  lemma Key10()
    ensures |KEY_BLOCK| == 16
    ensures VecOf(Rounds(KeyStart(), KEY_BLOCK, 10)) == Vec(
        0xEA3DCEED, 0xECE06EF0, 0x61894D64, 0xE620012B, 0x02E1CC5B, 0x86BEB119, 0x8EDDD916, 0x1A35B3F8,
        0x6150EDA7, 0x56201605, 0x94D405B2, 0xC505500F, 0x4B44A021, 0x3B561D07, 0x959B9AF2, 0xD4082470)
  {
    hide VecOf, Rounds, Taken, KeyStart, KEY_BLOCK;
    Key9();
    KeyWords();
    Order9(KEY_BLOCK);
    RoundIs(KeyStart(), KEY_BLOCK, 9, Vec(
          0x1E4FB78C, 0xFAE9750B, 0x7CB91E41, 0xCB1261D2, 0x7C804D5E, 0xE1CF6DEC, 0x867FD7A6, 0x8E3122D5,
          0x83A99ACC, 0x92DC3A33, 0xC31FBF13, 0x9F3ACA46, 0x355D5F85, 0x9C4CE179, 0x888ED8AB, 0x8EC11817),
      0x00000000, 0x0B0A0908, 0x00000000, 0x13121110, 0x1F1E1D1C, 0x1B1A1918, 0x07060504, 0x17161514,
      0x00000000, 0x00000000, 0x00000000, 0x00000000, 0x0F0E0D0C, 0x00000000, 0x00000000, 0x03020100);
  }

  lemma KeyGives()
    ensures |KEY_BLOCK| == 16
    ensures F([0x6B08C647, 0xBB67AE85, 0x3C6EF372, 0xA54FF53A, 0x510E527F, 0x9B05688C, 0x1F83D9AB, 0x5BE0CD19], KEY_BLOCK, 64, false)
         == [0xE065E50D, 0x01A7D670, 0xC933BBA4, 0x866AA41E, 0x18AB3E05, 0x26EDC492, 0x04C59A4F, 0x95DD5A91]
  {
    hide Rounds, KEY_BLOCK, VecOf, Begin, Output;
    Key10();
    var v := Rounds(KeyStart(), KEY_BLOCK, 10);
    VecWords(v, Vec(
          0xEA3DCEED, 0xECE06EF0, 0x61894D64, 0xE620012B, 0x02E1CC5B, 0x86BEB119, 0x8EDDD916, 0x1A35B3F8,
          0x6150EDA7, 0x56201605, 0x94D405B2, 0xC505500F, 0x4B44A021, 0x3B561D07, 0x959B9AF2, 0xD4082470));
    var h := [0x6B08C647, 0xBB67AE85, 0x3C6EF372, 0xA54FF53A, 0x510E527F, 0x9B05688C, 0x1F83D9AB, 0x5BE0CD19];
    OutputAt(h, v, 0, 0x6B08C647, 0xEA3DCEED, 0x6150EDA7);
    OutputAt(h, v, 1, 0xBB67AE85, 0xECE06EF0, 0x56201605);
    OutputAt(h, v, 2, 0x3C6EF372, 0x61894D64, 0x94D405B2);
    OutputAt(h, v, 3, 0xA54FF53A, 0xE620012B, 0xC505500F);
    OutputAt(h, v, 4, 0x510E527F, 0x02E1CC5B, 0x4B44A021);
    OutputAt(h, v, 5, 0x9B05688C, 0x86BEB119, 0x3B561D07);
    OutputAt(h, v, 6, 0x1F83D9AB, 0x8EDDD916, 0x959B9AF2);
    OutputAt(h, v, 7, 0x5BE0CD19, 0x1A35B3F8, 0xD4082470);
    EightWords(Output(h, v));
  }

  // ---------- the block of data of the second example

  const DATA_BLOCK: Words := [
    0x03020100, 0x07060504, 0x0B0A0908, 0x0F0E0D0C, 0x13121110, 0x17161514, 0x1B1A1918, 0x1F1E1D1C,
    0x23222120, 0x27262524, 0x2B2A2928, 0x2F2E2D2C, 0x33323130, 0x37363534, 0x3B3A3938, 0x3F3E3D3C]

  ghost function DataStart(): (v: Words)
    ensures |v| == 16
  {
    Begin([0xE065E50D, 0x01A7D670, 0xC933BBA4, 0x866AA41E, 0x18AB3E05, 0x26EDC492, 0x04C59A4F, 0x95DD5A91], 128, true)
  }

  lemma DataWords()
    ensures |DATA_BLOCK| == 16
    ensures DATA_BLOCK[0] == 0x03020100 && DATA_BLOCK[1] == 0x07060504 && DATA_BLOCK[2] == 0x0B0A0908 && DATA_BLOCK[3] == 0x0F0E0D0C
    ensures DATA_BLOCK[4] == 0x13121110 && DATA_BLOCK[5] == 0x17161514 && DATA_BLOCK[6] == 0x1B1A1918 && DATA_BLOCK[7] == 0x1F1E1D1C
    ensures DATA_BLOCK[8] == 0x23222120 && DATA_BLOCK[9] == 0x27262524 && DATA_BLOCK[10] == 0x2B2A2928 && DATA_BLOCK[11] == 0x2F2E2D2C
    ensures DATA_BLOCK[12] == 0x33323130 && DATA_BLOCK[13] == 0x37363534 && DATA_BLOCK[14] == 0x3B3A3938 && DATA_BLOCK[15] == 0x3F3E3D3C
  {}

  lemma Data0()
    ensures |DATA_BLOCK| == 16
    ensures VecOf(Rounds(DataStart(), DATA_BLOCK, 0)) == Vec(
        0xE065E50D, 0x01A7D670, 0xC933BBA4, 0x866AA41E, 0x18AB3E05, 0x26EDC492, 0x04C59A4F, 0x95DD5A91,
        0x6A09E667, 0xBB67AE85, 0x3C6EF372, 0xA54FF53A, 0x510E52FF, 0x9B05688C, 0xE07C2654, 0x5BE0CD19)
  {
    DataWords();
  }

  lemma Data1()
    ensures |DATA_BLOCK| == 16
    ensures VecOf(Rounds(DataStart(), DATA_BLOCK, 1)) == Vec(
        0xF020A548, 0xBA84C47F, 0xDDDC264D, 0xAF5D8CCB, 0x3AF4F711, 0x5F1EA347, 0xB29394F1, 0xEA5FE0D6,
        0xAE6B791A, 0xEBFD84FA, 0xE885123C, 0x4D6AE88E, 0x64697BBF, 0xF0021FD6, 0xF1327838, 0xBEB14950)
  {
    hide VecOf, Rounds, Taken, DataStart, DATA_BLOCK;
    Data0();
    DataWords();
    Order0(DATA_BLOCK);
    RoundIs(DataStart(), DATA_BLOCK, 0, Vec(
          0xE065E50D, 0x01A7D670, 0xC933BBA4, 0x866AA41E, 0x18AB3E05, 0x26EDC492, 0x04C59A4F, 0x95DD5A91,
          0x6A09E667, 0xBB67AE85, 0x3C6EF372, 0xA54FF53A, 0x510E52FF, 0x9B05688C, 0xE07C2654, 0x5BE0CD19),
      0x03020100, 0x07060504, 0x0B0A0908, 0x0F0E0D0C, 0x13121110, 0x17161514, 0x1B1A1918, 0x1F1E1D1C,
      0x23222120, 0x27262524, 0x2B2A2928, 0x2F2E2D2C, 0x33323130, 0x37363534, 0x3B3A3938, 0x3F3E3D3C);
  }

  lemma Data2()
    ensures |DATA_BLOCK| == 16
    ensures VecOf(Rounds(DataStart(), DATA_BLOCK, 2)) == Vec(
        0xBD2BD6F1, 0xB00334A5, 0x2F9E934E, 0x7F26F92A, 0x47DE9E0F, 0x71A75C4E, 0x1726757E, 0x8E20B124,
        0xF20B89E4, 0xE3ABE0C7, 0xA9BA699C, 0x589AE552, 0x05DF205A, 0x7B4DB508, 0x31D69857, 0xB315BE73)
  {
    hide VecOf, Rounds, Taken, DataStart, DATA_BLOCK;
    Data1();
    DataWords();
    Order1(DATA_BLOCK);
    RoundIs(DataStart(), DATA_BLOCK, 1, Vec(
          0xF020A548, 0xBA84C47F, 0xDDDC264D, 0xAF5D8CCB, 0x3AF4F711, 0x5F1EA347, 0xB29394F1, 0xEA5FE0D6,
          0xAE6B791A, 0xEBFD84FA, 0xE885123C, 0x4D6AE88E, 0x64697BBF, 0xF0021FD6, 0xF1327838, 0xBEB14950),
      0x3B3A3938, 0x2B2A2928, 0x13121110, 0x23222120, 0x27262524, 0x3F3E3D3C, 0x37363534, 0x1B1A1918,
      0x07060504, 0x33323130, 0x03020100, 0x0B0A0908, 0x2F2E2D2C, 0x1F1E1D1C, 0x17161514, 0x0F0E0D0C);
  }

  lemma Data3()
    ensures |DATA_BLOCK| == 16
    ensures VecOf(Rounds(DataStart(), DATA_BLOCK, 3)) == Vec(
        0xF7B8B8FB, 0x46496BAF, 0xAA702448, 0xE2B90E87, 0x866D12B9, 0x23AFEC31, 0xB8A0A615, 0x6961A5F8,
        0x256C07F7, 0x30B453EF, 0x5DE01553, 0x8BE89438, 0xED1E32FD, 0x8DE3A49F, 0x1DE332A8, 0x2A63AE19)
  {
    hide VecOf, Rounds, Taken, DataStart, DATA_BLOCK;
    Data2();
    DataWords();
    Order2(DATA_BLOCK);
    RoundIs(DataStart(), DATA_BLOCK, 2, Vec(
          0xBD2BD6F1, 0xB00334A5, 0x2F9E934E, 0x7F26F92A, 0x47DE9E0F, 0x71A75C4E, 0x1726757E, 0x8E20B124,
          0xF20B89E4, 0xE3ABE0C7, 0xA9BA699C, 0x589AE552, 0x05DF205A, 0x7B4DB508, 0x31D69857, 0xB315BE73),
      0x2F2E2D2C, 0x23222120, 0x33323130, 0x03020100, 0x17161514, 0x0B0A0908, 0x3F3E3D3C, 0x37363534,
      0x2B2A2928, 0x3B3A3938, 0x0F0E0D0C, 0x1B1A1918, 0x1F1E1D1C, 0x07060504, 0x27262524, 0x13121110);
  }

  lemma Data4()
    ensures |DATA_BLOCK| == 16
    ensures VecOf(Rounds(DataStart(), DATA_BLOCK, 4)) == Vec(
        0x86E7887D, 0x61BCD50F, 0xF805FBBB, 0xB26D5300, 0xBB6DED1A, 0x3572FF15, 0x187BEEF0, 0x22A5CF11,
        0x829BD20B, 0x16CDF244, 0xDE600B35, 0x522A980F, 0x12C68574, 0x32114251, 0xBE6B414D, 0x5FE74A30)
  {
    hide VecOf, Rounds, Taken, DataStart, DATA_BLOCK;
    Data3();
    DataWords();
    Order3(DATA_BLOCK);
    RoundIs(DataStart(), DATA_BLOCK, 3, Vec(
          0xF7B8B8FB, 0x46496BAF, 0xAA702448, 0xE2B90E87, 0x866D12B9, 0x23AFEC31, 0xB8A0A615, 0x6961A5F8,
          0x256C07F7, 0x30B453EF, 0x5DE01553, 0x8BE89438, 0xED1E32FD, 0x8DE3A49F, 0x1DE332A8, 0x2A63AE19),
      0x1F1E1D1C, 0x27262524, 0x0F0E0D0C, 0x07060504, 0x37363534, 0x33323130, 0x2F2E2D2C, 0x3B3A3938,
      0x0B0A0908, 0x1B1A1918, 0x17161514, 0x2B2A2928, 0x13121110, 0x03020100, 0x3F3E3D3C, 0x23222120);
  }

  lemma Data5()
    ensures |DATA_BLOCK| == 16
    ensures VecOf(Rounds(DataStart(), DATA_BLOCK, 5)) == Vec(
        0x50D14D72, 0x49504A9B, 0xDE7209E9, 0x97C0F1C4, 0x9B759BE3, 0x4F20E561, 0xD69FB1F3, 0x60B65020,
        0x32A43E54, 0x22C7DC5D, 0xD14D9BD0, 0x9465D0D5, 0x9DE92AE8, 0x674EF1A7, 0xDA10F2C1, 0x3047D847)
  {
    hide VecOf, Rounds, Taken, DataStart, DATA_BLOCK;
    Data4();
    DataWords();
    Order4(DATA_BLOCK);
    RoundIs(DataStart(), DATA_BLOCK, 4, Vec(
          0x86E7887D, 0x61BCD50F, 0xF805FBBB, 0xB26D5300, 0xBB6DED1A, 0x3572FF15, 0x187BEEF0, 0x22A5CF11,
          0x829BD20B, 0x16CDF244, 0xDE600B35, 0x522A980F, 0x12C68574, 0x32114251, 0xBE6B414D, 0x5FE74A30),
      0x27262524, 0x03020100, 0x17161514, 0x1F1E1D1C, 0x0B0A0908, 0x13121110, 0x2B2A2928, 0x3F3E3D3C,
      0x3B3A3938, 0x07060504, 0x2F2E2D2C, 0x33323130, 0x1B1A1918, 0x23222120, 0x0F0E0D0C, 0x37363534);
  }

  lemma Data6()
    ensures |DATA_BLOCK| == 16
    ensures VecOf(Rounds(DataStart(), DATA_BLOCK, 6)) == Vec(
        0x600B95A0, 0xC88451E0, 0xD6CF414A, 0xE754CB04, 0xFB2060CE, 0xBC03AA71, 0x207F7AB9, 0xD8A86F83,
        0xD7A57B5E, 0x1FA9BE9C, 0x5A7BF2A8, 0xA65BF6B2, 0xE68362AF, 0xD2C6CC6D, 0x777F40A4, 0xCE6CB77C)
  {
    hide VecOf, Rounds, Taken, DataStart, DATA_BLOCK;
    Data5();
    DataWords();
    Order5(DATA_BLOCK);
    RoundIs(DataStart(), DATA_BLOCK, 5, Vec(
          0x50D14D72, 0x49504A9B, 0xDE7209E9, 0x97C0F1C4, 0x9B759BE3, 0x4F20E561, 0xD69FB1F3, 0x60B65020,
          0x32A43E54, 0x22C7DC5D, 0xD14D9BD0, 0x9465D0D5, 0x9DE92AE8, 0x674EF1A7, 0xDA10F2C1, 0x3047D847),
      0x0B0A0908, 0x33323130, 0x1B1A1918, 0x2B2A2928, 0x03020100, 0x2F2E2D2C, 0x23222120, 0x0F0E0D0C,
      0x13121110, 0x37363534, 0x1F1E1D1C, 0x17161514, 0x3F3E3D3C, 0x3B3A3938, 0x07060504, 0x27262524);
  }

  lemma Data7()
    ensures |DATA_BLOCK| == 16
    ensures VecOf(Rounds(DataStart(), DATA_BLOCK, 7)) == Vec(
        0x66EFD898, 0x12C6E1A6, 0xDF2B93F2, 0x009F221B, 0x99DAD27E, 0x39681EF5, 0xD2F96E85, 0x9A47965C,
        0x949E671F, 0xCA3CCDE7, 0x3FE3BB79, 0xDF27BC1F, 0x3024B646, 0x5787A66B, 0x39BFAECC, 0x37D556B6)
  {
    hide VecOf, Rounds, Taken, DataStart, DATA_BLOCK;
    Data6();
    DataWords();
    Order6(DATA_BLOCK);
    RoundIs(DataStart(), DATA_BLOCK, 6, Vec(
          0x600B95A0, 0xC88451E0, 0xD6CF414A, 0xE754CB04, 0xFB2060CE, 0xBC03AA71, 0x207F7AB9, 0xD8A86F83,
          0xD7A57B5E, 0x1FA9BE9C, 0x5A7BF2A8, 0xA65BF6B2, 0xE68362AF, 0xD2C6CC6D, 0x777F40A4, 0xCE6CB77C),
      0x33323130, 0x17161514, 0x07060504, 0x3F3E3D3C, 0x3B3A3938, 0x37363534, 0x13121110, 0x2B2A2928,
      0x03020100, 0x1F1E1D1C, 0x1B1A1918, 0x0F0E0D0C, 0x27262524, 0x0B0A0908, 0x23222120, 0x2F2E2D2C);
  }

  lemma Data8()
    ensures |DATA_BLOCK| == 16
    ensures VecOf(Rounds(DataStart(), DATA_BLOCK, 8)) == Vec(
        0xCE8DF840, 0xDA95E6A0, 0x7D694C3B, 0xB97AAEFE, 0x08E7CCAC, 0x36040676, 0x462E8124, 0xB3816838,
        0x68F7A625, 0x9433D9DA, 0x174462CA, 0x58B50949, 0x43EAFF34, 0x610ABC3C, 0x43B96AFA, 0x058F103C)
  {
    hide VecOf, Rounds, Taken, DataStart, DATA_BLOCK;
    Data7();
    DataWords();
    Order7(DATA_BLOCK);
    RoundIs(DataStart(), DATA_BLOCK, 7, Vec(
          0x66EFD898, 0x12C6E1A6, 0xDF2B93F2, 0x009F221B, 0x99DAD27E, 0x39681EF5, 0xD2F96E85, 0x9A47965C,
          0x949E671F, 0xCA3CCDE7, 0x3FE3BB79, 0xDF27BC1F, 0x3024B646, 0x5787A66B, 0x39BFAECC, 0x37D556B6),
      0x37363534, 0x2F2E2D2C, 0x1F1E1D1C, 0x3B3A3938, 0x33323130, 0x07060504, 0x0F0E0D0C, 0x27262524,
      0x17161514, 0x03020100, 0x3F3E3D3C, 0x13121110, 0x23222120, 0x1B1A1918, 0x0B0A0908, 0x2B2A2928);
  }

  lemma Data9()
    ensures |DATA_BLOCK| == 16
    ensures VecOf(Rounds(DataStart(), DATA_BLOCK, 9)) == Vec(
        0x177530AB, 0x0563BEC0, 0x9F9DCEDC, 0x49F253D5, 0xFA99432A, 0x5B158EA3, 0x12AA41D2, 0xEABC5F7A,
        0xB36A85E3, 0x8B1A0803, 0x4C91485C, 0x05AE1CAB, 0xB3AF9877, 0x9FB3541D, 0x3D9B2164, 0xFD5DC030)
  {
    hide VecOf, Rounds, Taken, DataStart, DATA_BLOCK;
    Data8();
    DataWords();
    Order8(DATA_BLOCK);
    RoundIs(DataStart(), DATA_BLOCK, 8, Vec(
          0xCE8DF840, 0xDA95E6A0, 0x7D694C3B, 0xB97AAEFE, 0x08E7CCAC, 0x36040676, 0x462E8124, 0xB3816838,
          0x68F7A625, 0x9433D9DA, 0x174462CA, 0x58B50949, 0x43EAFF34, 0x610ABC3C, 0x43B96AFA, 0x058F103C),
      0x1B1A1918, 0x3F3E3D3C, 0x3B3A3938, 0x27262524, 0x2F2E2D2C, 0x0F0E0D0C, 0x03020100, 0x23222120,
      0x33323130, 0x0B0A0908, 0x37363534, 0x1F1E1D1C, 0x07060504, 0x13121110, 0x2B2A2928, 0x17161514);
  }

  lemma Data10()
    ensures |DATA_BLOCK| == 16
    ensures VecOf(Rounds(DataStart(), DATA_BLOCK, 10)) == Vec(
        0x3CAB9384, 0x96812203, 0x714DA0D3, 0x444F063E, 0xA6C9A488, 0x4986FC1F, 0x979B052B, 0x565AEEA8,
        0x8B7E0300, 0xF173270C, 0xDACD4BA0, 0xE45F2B90, 0xD371034E, 0xC4C0437D, 0xAC7E79D9, 0x17C921CB)
  {
    hide VecOf, Rounds, Taken, DataStart, DATA_BLOCK;
    Data9();
    DataWords();
    Order9(DATA_BLOCK);
    RoundIs(DataStart(), DATA_BLOCK, 9, Vec(
          0x177530AB, 0x0563BEC0, 0x9F9DCEDC, 0x49F253D5, 0xFA99432A, 0x5B158EA3, 0x12AA41D2, 0xEABC5F7A,
          0xB36A85E3, 0x8B1A0803, 0x4C91485C, 0x05AE1CAB, 0xB3AF9877, 0x9FB3541D, 0x3D9B2164, 0xFD5DC030),
      0x2B2A2928, 0x0B0A0908, 0x23222120, 0x13121110, 0x1F1E1D1C, 0x1B1A1918, 0x07060504, 0x17161514,
      0x3F3E3D3C, 0x2F2E2D2C, 0x27262524, 0x3B3A3938, 0x0F0E0D0C, 0x33323130, 0x37363534, 0x03020100);
  }

  lemma DataGives()
    ensures |DATA_BLOCK| == 16
    ensures F([0xE065E50D, 0x01A7D670, 0xC933BBA4, 0x866AA41E, 0x18AB3E05, 0x26EDC492, 0x04C59A4F, 0x95DD5A91], DATA_BLOCK, 128, true)
         == [0x57B07589, 0x6655D37F, 0x62B350D7, 0x267A89B0, 0x6D1399C3, 0xABAB7BF0, 0x3F20E6BD, 0xD44E95F2]
  {
    hide Rounds, DATA_BLOCK, VecOf, Begin, Output;
    Data10();
    var v := Rounds(DataStart(), DATA_BLOCK, 10);
    VecWords(v, Vec(
          0x3CAB9384, 0x96812203, 0x714DA0D3, 0x444F063E, 0xA6C9A488, 0x4986FC1F, 0x979B052B, 0x565AEEA8,
          0x8B7E0300, 0xF173270C, 0xDACD4BA0, 0xE45F2B90, 0xD371034E, 0xC4C0437D, 0xAC7E79D9, 0x17C921CB));
    var h := [0xE065E50D, 0x01A7D670, 0xC933BBA4, 0x866AA41E, 0x18AB3E05, 0x26EDC492, 0x04C59A4F, 0x95DD5A91];
    OutputAt(h, v, 0, 0xE065E50D, 0x3CAB9384, 0x8B7E0300);
    OutputAt(h, v, 1, 0x01A7D670, 0x96812203, 0xF173270C);
    OutputAt(h, v, 2, 0xC933BBA4, 0x714DA0D3, 0xDACD4BA0);
    OutputAt(h, v, 3, 0x866AA41E, 0x444F063E, 0xE45F2B90);
    OutputAt(h, v, 4, 0x18AB3E05, 0xA6C9A488, 0xD371034E);
    OutputAt(h, v, 5, 0x26EDC492, 0x4986FC1F, 0xC4C0437D);
    OutputAt(h, v, 6, 0x04C59A4F, 0x979B052B, 0xAC7E79D9);
    OutputAt(h, v, 7, 0x95DD5A91, 0x565AEEA8, 0x17C921CB);
    EightWords(Output(h, v));
  }

  // ---------- the hashes

  lemma StartAbc()
    ensures Start(32, 0) == [0x6B08E647, 0xBB67AE85, 0x3C6EF372, 0xA54FF53A, 0x510E527F, 0x9B05688C, 0x1F83D9AB, 0x5BE0CD19]
  {
    SmallBytes();
  }

  lemma StartKeyed()
    ensures Start(32, 32) == [0x6B08C647, 0xBB67AE85, 0x3C6EF372, 0xA54FF53A, 0x510E527F, 0x9B05688C, 0x1F83D9AB, 0x5BE0CD19]
  {
    SmallBytes();
  }

  lemma SmallBytes()
    ensures ByteOf(0) == 0 && ByteOf(32) == 32
  {}

  lemma AbcBlock(m: seq<bv8>)
    requires m == [0x61, 0x62, 0x63]
    ensures BlockWords(m + Zeroes(61)) == ABC
  {}

  /** BLAKE2s-256 of "abc", the example of appendix B of RFC 7693. */
  lemma HashAbc(m: seq<bv8>)
    requires m == [0x61, 0x62, 0x63]
    ensures Hash(TWO64, Start(32, 0), m) == [0x8C5E8C50, 0xE2147C32, 0xA32BA7E1, 0x2F45EB4E, 0x208B4537, 0x293AD69E, 0x4C9B994D, 0x82596786]
  {
    hide F, Start, ABC, BlockWords;
    StartAbc();
    AbcBlock(m);
    AbcGives();
  }

  /** Sixteen bytes as words. */
  function Quarter(p: seq<bv8>): Words
    requires |p| == 16
  {
    [WordAt(p, 0), WordAt(p, 1), WordAt(p, 2), WordAt(p, 3)]
  }

  lemma BlockOfQuarters(a: seq<bv8>, b: seq<bv8>, c: seq<bv8>, d: seq<bv8>)
    requires |a| == |b| == |c| == |d| == 16
    ensures BlockWords(a + b + c + d) == Quarter(a) + Quarter(b) + Quarter(c) + Quarter(d)
  {
    hide WordAt;
    var p := a + b + c + d;
    WordWithin(p, a, 0);
    WordWithin(p, b, 4);
    WordWithin(p, c, 8);
    WordWithin(p, d, 12);
  }

  lemma WordWithin(p: seq<bv8>, q: seq<bv8>, k: nat)
    requires |q| == 16 && 4 * k + 16 <= |p| && p[4 * k..4 * k + 16] == q
    ensures WordAt(p, k) == WordAt(q, 0) && WordAt(p, k + 1) == WordAt(q, 1)
    ensures WordAt(p, k + 2) == WordAt(q, 2) && WordAt(p, k + 3) == WordAt(q, 3)
  {}

  function Bytes0(): seq<bv8> { [0x00, 0x01, 0x02, 0x03, 0x04, 0x05, 0x06, 0x07, 0x08, 0x09, 0x0A, 0x0B, 0x0C, 0x0D, 0x0E, 0x0F] }
  function Bytes1(): seq<bv8> { [0x10, 0x11, 0x12, 0x13, 0x14, 0x15, 0x16, 0x17, 0x18, 0x19, 0x1A, 0x1B, 0x1C, 0x1D, 0x1E, 0x1F] }
  function Bytes2(): seq<bv8> { [0x20, 0x21, 0x22, 0x23, 0x24, 0x25, 0x26, 0x27, 0x28, 0x29, 0x2A, 0x2B, 0x2C, 0x2D, 0x2E, 0x2F] }
  function Bytes3(): seq<bv8> { [0x30, 0x31, 0x32, 0x33, 0x34, 0x35, 0x36, 0x37, 0x38, 0x39, 0x3A, 0x3B, 0x3C, 0x3D, 0x3E, 0x3F] }

  lemma QuartersAre()
    ensures |Bytes0()| == |Bytes1()| == |Bytes2()| == |Bytes3()| == 16
    ensures Quarter(Bytes0()) == DATA_BLOCK[..4] && Quarter(Bytes1()) == DATA_BLOCK[4..8]
    ensures Quarter(Bytes2()) == DATA_BLOCK[8..12] && Quarter(Bytes3()) == DATA_BLOCK[12..]
    ensures Quarter(Bytes0()) == KEY_BLOCK[..4] && Quarter(Bytes1()) == KEY_BLOCK[4..8]
    ensures Quarter(Zeroes(16)) == KEY_BLOCK[8..12] == KEY_BLOCK[12..]
  {}

  lemma BlocksAre()
    ensures |Bytes0()| == |Bytes1()| == |Bytes2()| == |Bytes3()| == 16
    ensures BlockWords(Bytes0() + Bytes1() + Zeroes(32)) == KEY_BLOCK
    ensures BlockWords(Bytes0() + Bytes1() + Bytes2() + Bytes3()) == DATA_BLOCK
  {
    hide Bytes0, Bytes1, Bytes2, Bytes3, BlockWords, Quarter, KEY_BLOCK, DATA_BLOCK;
    QuartersAre();
    KeyWords();
    DataWords();
    assert Bytes0() + Bytes1() + Zeroes(32) == Bytes0() + Bytes1() + Zeroes(16) + Zeroes(16);
    BlockOfQuarters(Bytes0(), Bytes1(), Zeroes(16), Zeroes(16));
    BlockOfQuarters(Bytes0(), Bytes1(), Bytes2(), Bytes3());
  }

  /** BLAKE2s-256 of the bytes 0 to 63 under the key of the bytes 0 to 31. */
  lemma HashKeyed(key: seq<bv8>, data: seq<bv8>)
    requires key == Bytes0() + Bytes1()
    requires data == Bytes0() + Bytes1() + Bytes2() + Bytes3()
    ensures |key| == 32 && Keyed(TWO64, data, key, 32) == [0x57B07589, 0x6655D37F, 0x62B350D7, 0x267A89B0, 0x6D1399C3, 0xABAB7BF0, 0x3F20E6BD, 0xD44E95F2]
  {
    hide F, Start, KEY_BLOCK, DATA_BLOCK, BlockWords, Bytes0, Bytes1, Bytes2, Bytes3;
    BlocksAre();
    StartKeyed();
    KeyGives();
    DataGives();
    var block := key + Zeroes(32);
    var m := block + data;
    assert |block| == |data| == BLOCK && m[..BLOCK] == block && m[BLOCK..] == data;
    assert Body(TWO64, Start(32, 32), 0, m) == F(Start(32, 32), BlockWords(block), 64, false);
    LastIs(block, data);
  }

  lemma OutputBytes()
    ensures Bytes([0x57B07589, 0x6655D37F, 0x62B350D7, 0x267A89B0, 0x6D1399C3, 0xABAB7BF0, 0x3F20E6BD, 0xD44E95F2])
         == [
            0x89, 0x75, 0xB0, 0x57, 0x7F, 0xD3, 0x55, 0x66, 0xD7, 0x50, 0xB3, 0x62, 0xB0, 0x89, 0x7A, 0x26,
            0xC3, 0x99, 0x13, 0x6D, 0xF0, 0x7B, 0xAB, 0xAB, 0xBD, 0xE6, 0x20, 0x3F, 0xF2, 0x95, 0x4E, 0xD4]
  {}

  /** The same as the function that FastKDF is given. */
  lemma PrfKeyed(key: seq<bv8>, data: seq<bv8>)
    requires key == Bytes0() + Bytes1()
    requires data == Bytes0() + Bytes1() + Bytes2() + Bytes3()
    ensures Prf()(data, key)
         == [
            0x89, 0x75, 0xB0, 0x57, 0x7F, 0xD3, 0x55, 0x66, 0xD7, 0x50, 0xB3, 0x62, 0xB0, 0x89, 0x7A, 0x26,
            0xC3, 0x99, 0x13, 0x6D, 0xF0, 0x7B, 0xAB, 0xAB, 0xBD, 0xE6, 0x20, 0x3F, 0xF2, 0x95, 0x4E, 0xD4]
  {
    hide Bytes0, Bytes1, Bytes2, Bytes3, Keyed, Bytes;
    HashKeyed(key, data);
    OutputBytes();
  }

  lemma LastIs(block: seq<bv8>, data: seq<bv8>)
    requires |block| == |data| == BLOCK
    ensures Last(block + data) == data && data + Zeroes(0) == data
  {
    assert (block + data)[BLOCK..] == data;
  }
}
