/** The example of FIPS 180-4 for the one-block message "abc", a few rounds to a lemma. */
module Sha256Example {
  import opened Words32
  import opened ByteBuffers
  import opened Sha256Compression
  import opened Sha256Stream

  // ---------- the functions with the distances of their shifts and rotations written out

  function Big0(x: bv32): bv32 { Xor32(Xor32(((x >> 2) | (x << 30)), ((x >> 13) | (x << 19))), ((x >> 22) | (x << 10))) }
  function Big1(x: bv32): bv32 { Xor32(Xor32(((x >> 6) | (x << 26)), ((x >> 11) | (x << 21))), ((x >> 25) | (x << 7))) }
  function Small0(x: bv32): bv32 { Xor32(Xor32(((x >> 7) | (x << 25)), ((x >> 18) | (x << 14))), x >> 3) }
  function Small1(x: bv32): bv32 { Xor32(Xor32(((x >> 17) | (x << 15)), ((x >> 19) | (x << 13))), x >> 10) }

  lemma Distances(x: bv32)
    ensures Rotr(x, 2) == (x >> 2) | (x << 30) && Rotr(x, 13) == (x >> 13) | (x << 19) && Rotr(x, 22) == (x >> 22) | (x << 10)
    ensures Rotr(x, 6) == (x >> 6) | (x << 26) && Rotr(x, 11) == (x >> 11) | (x << 21) && Rotr(x, 25) == (x >> 25) | (x << 7)
    ensures Rotr(x, 7) == (x >> 7) | (x << 25) && Rotr(x, 18) == (x >> 18) | (x << 14)
    ensures Rotr(x, 17) == (x >> 17) | (x << 15) && Rotr(x, 19) == (x >> 19) | (x << 13)
  {}

  lemma Sigmas(x: bv32)
    ensures BigSigma0(x) == Big0(x) && BigSigma1(x) == Big1(x)
    ensures SmallSigma0(x) == Small0(x) && SmallSigma1(x) == Small1(x)
  {
    hide Rotr, Xor32;
    Distances(x);
  }

  lemma RoundAt(a: bv32, b: bv32, c: bv32, d: bv32, e: bv32, f: bv32, g: bv32, h: bv32, k: bv32, w: bv32)
    ensures Round(Chain(a, b, c, d, e, f, g, h), k, w) ==
      var t1 := Add(Add(Add(Add(h, Big1(e)), Ch(e, f, g)), k), w);
      Chain(Add(t1, Add(Big0(a), Maj(a, b, c))), a, b, c, Add(d, t1), e, f, g)
  {
    hide Add, Big0, Big1, BigSigma0, BigSigma1, Ch, Maj;
    Sigmas(a);
    Sigmas(e);
  }

  // ---------- the message schedule

  /** The padded message as words. */
  const ABC: seq<bv32> := [
    0x61626380, 0x00000000, 0x00000000, 0x00000000, 0x00000000, 0x00000000, 0x00000000, 0x00000000,
    0x00000000, 0x00000000, 0x00000000, 0x00000000, 0x00000000, 0x00000000, 0x00000000, 0x00000018]

  /** The words of the schedule. */
  ghost function Schedule(): (w: seq<bv32>)
    ensures |w| == 64
  {
    seq(64, i requires 0 <= i < 64 => W(ABC, i))
  }

  lemma FirstWord(i: nat)
    requires i < 16
    ensures Schedule()[i] == ABC[i]
  {}

  /** Word i in terms of four words before it. */
  lemma NextWord(i: nat, w2: bv32, w7: bv32, w15: bv32, w16: bv32)
    requires 16 <= i < 64
    requires Schedule()[i - 2] == w2 && Schedule()[i - 7] == w7 && Schedule()[i - 15] == w15 && Schedule()[i - 16] == w16
    ensures Schedule()[i] == Add(Add(Add(Small1(w2), w7), Small0(w15)), w16)
  {
    hide Add, Small0, Small1, SmallSigma0, SmallSigma1, ABC;
    Sigmas(w2);
    Sigmas(w15);
  }

  lemma Words0()
    ensures Schedule()[0] == 0x61626380 && Schedule()[1] == 0x00000000 && Schedule()[2] == 0x00000000 && Schedule()[3] == 0x00000000
    ensures Schedule()[4] == 0x00000000 && Schedule()[5] == 0x00000000 && Schedule()[6] == 0x00000000 && Schedule()[7] == 0x00000000
    ensures Schedule()[8] == 0x00000000 && Schedule()[9] == 0x00000000 && Schedule()[10] == 0x00000000 && Schedule()[11] == 0x00000000
    ensures Schedule()[12] == 0x00000000 && Schedule()[13] == 0x00000000 && Schedule()[14] == 0x00000000 && Schedule()[15] == 0x00000018
  {
    hide Schedule;
    FirstWord(0);
    FirstWord(1);
    FirstWord(2);
    FirstWord(3);
    FirstWord(4);
    FirstWord(5);
    FirstWord(6);
    FirstWord(7);
    FirstWord(8);
    FirstWord(9);
    FirstWord(10);
    FirstWord(11);
    FirstWord(12);
    FirstWord(13);
    FirstWord(14);
    FirstWord(15);
  }

  lemma Words1()
    ensures Schedule()[16] == 0x61626380 && Schedule()[17] == 0x000f0000 && Schedule()[18] == 0x7da86405 && Schedule()[19] == 0x600003c6
    ensures Schedule()[20] == 0x3e9d7b78 && Schedule()[21] == 0x0183fc00 && Schedule()[22] == 0x12dcbfdb && Schedule()[23] == 0xe2e2c38e
  {
    hide Schedule, ABC;
    Words0();
    NextWord(16, 0x00000000, 0x00000000, 0x00000000, 0x61626380);
    NextWord(17, 0x00000018, 0x00000000, 0x00000000, 0x00000000);
    NextWord(18, 0x61626380, 0x00000000, 0x00000000, 0x00000000);
    NextWord(19, 0x000f0000, 0x00000000, 0x00000000, 0x00000000);
    NextWord(20, 0x7da86405, 0x00000000, 0x00000000, 0x00000000);
    NextWord(21, 0x600003c6, 0x00000000, 0x00000000, 0x00000000);
    NextWord(22, 0x3e9d7b78, 0x00000018, 0x00000000, 0x00000000);
    NextWord(23, 0x0183fc00, 0x61626380, 0x00000000, 0x00000000);
  }

  lemma Words2()
    ensures Schedule()[24] == 0xc8215c1a && Schedule()[25] == 0xb73679a2 && Schedule()[26] == 0xe5bc3909 && Schedule()[27] == 0x32663c5b
    ensures Schedule()[28] == 0x9d209d67 && Schedule()[29] == 0xec8726cb && Schedule()[30] == 0x702138a4 && Schedule()[31] == 0xd3b7973b
  {
    hide Schedule, ABC;
    Words0();
    Words1();
    NextWord(24, 0x12dcbfdb, 0x000f0000, 0x00000000, 0x00000000);
    NextWord(25, 0xe2e2c38e, 0x7da86405, 0x00000000, 0x00000000);
    NextWord(26, 0xc8215c1a, 0x600003c6, 0x00000000, 0x00000000);
    NextWord(27, 0xb73679a2, 0x3e9d7b78, 0x00000000, 0x00000000);
    NextWord(28, 0xe5bc3909, 0x0183fc00, 0x00000000, 0x00000000);
    NextWord(29, 0x32663c5b, 0x12dcbfdb, 0x00000000, 0x00000000);
    NextWord(30, 0x9d209d67, 0xe2e2c38e, 0x00000018, 0x00000000);
    NextWord(31, 0xec8726cb, 0xc8215c1a, 0x61626380, 0x00000018);
  }

  lemma Words3()
    ensures Schedule()[32] == 0x93f5997f && Schedule()[33] == 0x3b68ba73 && Schedule()[34] == 0xaff4ffc1 && Schedule()[35] == 0xf10a5c62
    ensures Schedule()[36] == 0x0a8b3996 && Schedule()[37] == 0x72af830a && Schedule()[38] == 0x9409e33e && Schedule()[39] == 0x24641522
  {
    hide Schedule, ABC;
    Words1();
    Words2();
    NextWord(32, 0x702138a4, 0xb73679a2, 0x000f0000, 0x61626380);
    NextWord(33, 0xd3b7973b, 0xe5bc3909, 0x7da86405, 0x000f0000);
    NextWord(34, 0x93f5997f, 0x32663c5b, 0x600003c6, 0x7da86405);
    NextWord(35, 0x3b68ba73, 0x9d209d67, 0x3e9d7b78, 0x600003c6);
    NextWord(36, 0xaff4ffc1, 0xec8726cb, 0x0183fc00, 0x3e9d7b78);
    NextWord(37, 0xf10a5c62, 0x702138a4, 0x12dcbfdb, 0x0183fc00);
    NextWord(38, 0x0a8b3996, 0xd3b7973b, 0xe2e2c38e, 0x12dcbfdb);
    NextWord(39, 0x72af830a, 0x93f5997f, 0xc8215c1a, 0xe2e2c38e);
  }

  lemma Words4()
    ensures Schedule()[40] == 0x9f47bf94 && Schedule()[41] == 0xf0a64f5a && Schedule()[42] == 0x3e246a79 && Schedule()[43] == 0x27333ba3
    ensures Schedule()[44] == 0x0c4763f2 && Schedule()[45] == 0x840abf27 && Schedule()[46] == 0x7a290d5d && Schedule()[47] == 0x065c43da
  {
    hide Schedule, ABC;
    Words2();
    Words3();
    NextWord(40, 0x9409e33e, 0x3b68ba73, 0xb73679a2, 0xc8215c1a);
    NextWord(41, 0x24641522, 0xaff4ffc1, 0xe5bc3909, 0xb73679a2);
    NextWord(42, 0x9f47bf94, 0xf10a5c62, 0x32663c5b, 0xe5bc3909);
    NextWord(43, 0xf0a64f5a, 0x0a8b3996, 0x9d209d67, 0x32663c5b);
    NextWord(44, 0x3e246a79, 0x72af830a, 0xec8726cb, 0x9d209d67);
    NextWord(45, 0x27333ba3, 0x9409e33e, 0x702138a4, 0xec8726cb);
    NextWord(46, 0x0c4763f2, 0x24641522, 0xd3b7973b, 0x702138a4);
    NextWord(47, 0x840abf27, 0x9f47bf94, 0x93f5997f, 0xd3b7973b);
  }

  lemma Words5()
    ensures Schedule()[48] == 0xfb3e89cb && Schedule()[49] == 0xcc7617db && Schedule()[50] == 0xb9e66c34 && Schedule()[51] == 0xa9993667
    ensures Schedule()[52] == 0x84badedd && Schedule()[53] == 0xc21462bc && Schedule()[54] == 0x1487472c && Schedule()[55] == 0xb20f7a99
  {
    hide Schedule, ABC;
    Words3();
    Words4();
    NextWord(48, 0x7a290d5d, 0xf0a64f5a, 0x3b68ba73, 0x93f5997f);
    NextWord(49, 0x065c43da, 0x3e246a79, 0xaff4ffc1, 0x3b68ba73);
    NextWord(50, 0xfb3e89cb, 0x27333ba3, 0xf10a5c62, 0xaff4ffc1);
    NextWord(51, 0xcc7617db, 0x0c4763f2, 0x0a8b3996, 0xf10a5c62);
    NextWord(52, 0xb9e66c34, 0x840abf27, 0x72af830a, 0x0a8b3996);
    NextWord(53, 0xa9993667, 0x7a290d5d, 0x9409e33e, 0x72af830a);
    NextWord(54, 0x84badedd, 0x065c43da, 0x24641522, 0x9409e33e);
    NextWord(55, 0xc21462bc, 0xfb3e89cb, 0x9f47bf94, 0x24641522);
  }

  lemma Words6()
    ensures Schedule()[56] == 0xef57b9cd && Schedule()[57] == 0xebe6b238 && Schedule()[58] == 0x9fe3095e && Schedule()[59] == 0x78bc8d4b
    ensures Schedule()[60] == 0xa43fcf15 && Schedule()[61] == 0x668b2ff8 && Schedule()[62] == 0xeeaba2cc && Schedule()[63] == 0x12b1edeb
  {
    hide Schedule, ABC;
    Words4();
    Words5();
    NextWord(56, 0x1487472c, 0xcc7617db, 0xf0a64f5a, 0x9f47bf94);
    NextWord(57, 0xb20f7a99, 0xb9e66c34, 0x3e246a79, 0xf0a64f5a);
    NextWord(58, 0xef57b9cd, 0xa9993667, 0x27333ba3, 0x3e246a79);
    NextWord(59, 0xebe6b238, 0x84badedd, 0x0c4763f2, 0x27333ba3);
    NextWord(60, 0x9fe3095e, 0xc21462bc, 0x840abf27, 0x0c4763f2);
    NextWord(61, 0x78bc8d4b, 0x1487472c, 0x7a290d5d, 0x840abf27);
    NextWord(62, 0xa43fcf15, 0xb20f7a99, 0x065c43da, 0x7a290d5d);
    NextWord(63, 0x668b2ff8, 0xef57b9cd, 0xfb3e89cb, 0x065c43da);
  }

  // ---------- the rounds

  lemma RoundNext(i: nat, a: bv32, b: bv32, c: bv32, d: bv32, e: bv32, f: bv32, g: bv32, h: bv32, k: bv32, w: bv32)
    requires i < 64 && Rounds(IV, ABC, i) == Chain(a, b, c, d, e, f, g, h) && K(i) == k && Schedule()[i] == w
    ensures Rounds(IV, ABC, i + 1) ==
      var t1 := Add(Add(Add(Add(h, Big1(e)), Ch(e, f, g)), k), w);
      Chain(Add(t1, Add(Big0(a), Maj(a, b, c))), a, b, c, Add(d, t1), e, f, g)
  {
    hide Round, K, Add, Big0, Big1, Ch, Maj;
    RoundAt(a, b, c, d, e, f, g, h, k, w);
  }

  lemma After0()
    ensures Rounds(IV, ABC, 0) == Chain(
      0x6a09e667, 0xbb67ae85, 0x3c6ef372, 0xa54ff53a, 0x510e527f, 0x9b05688c, 0x1f83d9ab, 0x5be0cd19)
  {}

  lemma After8()
    ensures Rounds(IV, ABC, 8) == Chain(
      0x85a07b5f, 0xe5030380, 0x2b4209f5, 0x04409a6a, 0x0c657a79, 0x9b27a401, 0x714260ad, 0x43ada245)
  {
    hide Schedule, Rounds, ABC, IV;
    After0();
    Words0();
    RoundNext(0, 0x6a09e667, 0xbb67ae85, 0x3c6ef372, 0xa54ff53a, 0x510e527f, 0x9b05688c,
              0x1f83d9ab, 0x5be0cd19, 0x428a2f98, 0x61626380);
    RoundNext(1, 0x5d6aebcd, 0x6a09e667, 0xbb67ae85, 0x3c6ef372, 0xfa2a4622, 0x510e527f,
              0x9b05688c, 0x1f83d9ab, 0x71374491, 0x00000000);
    RoundNext(2, 0x5a6ad9ad, 0x5d6aebcd, 0x6a09e667, 0xbb67ae85, 0x78ce7989, 0xfa2a4622,
              0x510e527f, 0x9b05688c, 0xb5c0fbcf, 0x00000000);
    RoundNext(3, 0xc8c347a7, 0x5a6ad9ad, 0x5d6aebcd, 0x6a09e667, 0xf92939eb, 0x78ce7989,
              0xfa2a4622, 0x510e527f, 0xe9b5dba5, 0x00000000);
    RoundNext(4, 0xd550f666, 0xc8c347a7, 0x5a6ad9ad, 0x5d6aebcd, 0x24e00850, 0xf92939eb,
              0x78ce7989, 0xfa2a4622, 0x3956c25b, 0x00000000);
    RoundNext(5, 0x04409a6a, 0xd550f666, 0xc8c347a7, 0x5a6ad9ad, 0x43ada245, 0x24e00850,
              0xf92939eb, 0x78ce7989, 0x59f111f1, 0x00000000);
    RoundNext(6, 0x2b4209f5, 0x04409a6a, 0xd550f666, 0xc8c347a7, 0x714260ad, 0x43ada245,
              0x24e00850, 0xf92939eb, 0x923f82a4, 0x00000000);
    RoundNext(7, 0xe5030380, 0x2b4209f5, 0x04409a6a, 0xd550f666, 0x9b27a401, 0x714260ad,
              0x43ada245, 0x24e00850, 0xab1c5ed5, 0x00000000);
  }

  lemma After16()
    ensures Rounds(IV, ABC, 16) == Chain(
      0xb0fa238e, 0xc0645fde, 0xd932eb16, 0x87912990, 0x07590dcd, 0x0b92f20c, 0x745a48de, 0x1e578218)
  {
    hide Schedule, Rounds, ABC, IV;
    After8();
    Words0();
    RoundNext(8, 0x85a07b5f, 0xe5030380, 0x2b4209f5, 0x04409a6a, 0x0c657a79, 0x9b27a401,
              0x714260ad, 0x43ada245, 0xd807aa98, 0x00000000);
    RoundNext(9, 0x8e04ecb9, 0x85a07b5f, 0xe5030380, 0x2b4209f5, 0x32ca2d8c, 0x0c657a79,
              0x9b27a401, 0x714260ad, 0x12835b01, 0x00000000);
    RoundNext(10, 0x8c87346b, 0x8e04ecb9, 0x85a07b5f, 0xe5030380, 0x1cc92596, 0x32ca2d8c,
              0x0c657a79, 0x9b27a401, 0x243185be, 0x00000000);
    RoundNext(11, 0x4798a3f4, 0x8c87346b, 0x8e04ecb9, 0x85a07b5f, 0x436b23e8, 0x1cc92596,
              0x32ca2d8c, 0x0c657a79, 0x550c7dc3, 0x00000000);
    RoundNext(12, 0xf71fc5a9, 0x4798a3f4, 0x8c87346b, 0x8e04ecb9, 0x816fd6e9, 0x436b23e8,
              0x1cc92596, 0x32ca2d8c, 0x72be5d74, 0x00000000);
    RoundNext(13, 0x87912990, 0xf71fc5a9, 0x4798a3f4, 0x8c87346b, 0x1e578218, 0x816fd6e9,
              0x436b23e8, 0x1cc92596, 0x80deb1fe, 0x00000000);
    RoundNext(14, 0xd932eb16, 0x87912990, 0xf71fc5a9, 0x4798a3f4, 0x745a48de, 0x1e578218,
              0x816fd6e9, 0x436b23e8, 0x9bdc06a7, 0x00000000);
    RoundNext(15, 0xc0645fde, 0xd932eb16, 0x87912990, 0xf71fc5a9, 0x0b92f20c, 0x745a48de,
              0x1e578218, 0x816fd6e9, 0xc19bf174, 0x00000018);
  }

  lemma After24()
    ensures Rounds(IV, ABC, 24) == Chain(
      0xc5d53d8d, 0xa7a3623f, 0xc2606d6d, 0x9dc68b63, 0xaa47c347, 0x49f5114a, 0xe1257970, 0x8ada8930)
  {
    hide Schedule, Rounds, ABC, IV;
    After16();
    Words1();
    RoundNext(16, 0xb0fa238e, 0xc0645fde, 0xd932eb16, 0x87912990, 0x07590dcd, 0x0b92f20c,
              0x745a48de, 0x1e578218, 0xe49b69c1, 0x61626380);
    RoundNext(17, 0x21da9a9b, 0xb0fa238e, 0xc0645fde, 0xd932eb16, 0x8034229c, 0x07590dcd,
              0x0b92f20c, 0x745a48de, 0xefbe4786, 0x000f0000);
    RoundNext(18, 0xc2fbd9d1, 0x21da9a9b, 0xb0fa238e, 0xc0645fde, 0x846ee454, 0x8034229c,
              0x07590dcd, 0x0b92f20c, 0x0fc19dc6, 0x7da86405);
    RoundNext(19, 0xfe777bbf, 0xc2fbd9d1, 0x21da9a9b, 0xb0fa238e, 0xcc899961, 0x846ee454,
              0x8034229c, 0x07590dcd, 0x240ca1cc, 0x600003c6);
    RoundNext(20, 0xe1f20c33, 0xfe777bbf, 0xc2fbd9d1, 0x21da9a9b, 0xb0638179, 0xcc899961,
              0x846ee454, 0x8034229c, 0x2de92c6f, 0x3e9d7b78);
    RoundNext(21, 0x9dc68b63, 0xe1f20c33, 0xfe777bbf, 0xc2fbd9d1, 0x8ada8930, 0xb0638179,
              0xcc899961, 0x846ee454, 0x4a7484aa, 0x0183fc00);
    RoundNext(22, 0xc2606d6d, 0x9dc68b63, 0xe1f20c33, 0xfe777bbf, 0xe1257970, 0x8ada8930,
              0xb0638179, 0xcc899961, 0x5cb0a9dc, 0x12dcbfdb);
    RoundNext(23, 0xa7a3623f, 0xc2606d6d, 0x9dc68b63, 0xe1f20c33, 0x49f5114a, 0xe1257970,
              0x8ada8930, 0xb0638179, 0x76f988da, 0xe2e2c38e);
  }

  lemma After32()
    ensures Rounds(IV, ABC, 32) == Chain(
      0x73b33bf5, 0xea992a22, 0xa0060b30, 0x363482c9, 0xba591112, 0x0109ab3a, 0xade79437, 0x6112a3b7)
  {
    hide Schedule, Rounds, ABC, IV;
    After24();
    Words2();
    RoundNext(24, 0xc5d53d8d, 0xa7a3623f, 0xc2606d6d, 0x9dc68b63, 0xaa47c347, 0x49f5114a,
              0xe1257970, 0x8ada8930, 0x983e5152, 0xc8215c1a);
    RoundNext(25, 0x1c2c2838, 0xc5d53d8d, 0xa7a3623f, 0xc2606d6d, 0x2823ef91, 0xaa47c347,
              0x49f5114a, 0xe1257970, 0xa831c66d, 0xb73679a2);
    RoundNext(26, 0xcde8037d, 0x1c2c2838, 0xc5d53d8d, 0xa7a3623f, 0x14383d8e, 0x2823ef91,
              0xaa47c347, 0x49f5114a, 0xb00327c8, 0xe5bc3909);
    RoundNext(27, 0xb62ec4bc, 0xcde8037d, 0x1c2c2838, 0xc5d53d8d, 0xc74c6516, 0x14383d8e,
              0x2823ef91, 0xaa47c347, 0xbf597fc7, 0x32663c5b);
    RoundNext(28, 0x77d37528, 0xb62ec4bc, 0xcde8037d, 0x1c2c2838, 0xedffbff8, 0xc74c6516,
              0x14383d8e, 0x2823ef91, 0xc6e00bf3, 0x9d209d67);
    RoundNext(29, 0x363482c9, 0x77d37528, 0xb62ec4bc, 0xcde8037d, 0x6112a3b7, 0xedffbff8,
              0xc74c6516, 0x14383d8e, 0xd5a79147, 0xec8726cb);
    RoundNext(30, 0xa0060b30, 0x363482c9, 0x77d37528, 0xb62ec4bc, 0xade79437, 0x6112a3b7,
              0xedffbff8, 0xc74c6516, 0x06ca6351, 0x702138a4);
    RoundNext(31, 0xea992a22, 0xa0060b30, 0x363482c9, 0x77d37528, 0x0109ab3a, 0xade79437,
              0x6112a3b7, 0xedffbff8, 0x14292967, 0xd3b7973b);
  }

  lemma After40()
    ensures Rounds(IV, ABC, 40) == Chain(
      0x79ea687a, 0x6dc57a8a, 0x34df1604, 0x41a65cb1, 0x1efbc0a0, 0xf0781bc8, 0xa507a53d, 0x0772a26b)
  {
    hide Schedule, Rounds, ABC, IV;
    After32();
    Words3();
    RoundNext(32, 0x73b33bf5, 0xea992a22, 0xa0060b30, 0x363482c9, 0xba591112, 0x0109ab3a,
              0xade79437, 0x6112a3b7, 0x27b70a85, 0x93f5997f);
    RoundNext(33, 0x98e12507, 0x73b33bf5, 0xea992a22, 0xa0060b30, 0x9cd9f5f6, 0xba591112,
              0x0109ab3a, 0xade79437, 0x2e1b2138, 0x3b68ba73);
    RoundNext(34, 0xfe604df5, 0x98e12507, 0x73b33bf5, 0xea992a22, 0x59249dd3, 0x9cd9f5f6,
              0xba591112, 0x0109ab3a, 0x4d2c6dfc, 0xaff4ffc1);
    RoundNext(35, 0xa9a7738c, 0xfe604df5, 0x98e12507, 0x73b33bf5, 0x085f3833, 0x59249dd3,
              0x9cd9f5f6, 0xba591112, 0x53380d13, 0xf10a5c62);
    RoundNext(36, 0x65a0cfe4, 0xa9a7738c, 0xfe604df5, 0x98e12507, 0xf4b002d6, 0x085f3833,
              0x59249dd3, 0x9cd9f5f6, 0x650a7354, 0x0a8b3996);
    RoundNext(37, 0x41a65cb1, 0x65a0cfe4, 0xa9a7738c, 0xfe604df5, 0x0772a26b, 0xf4b002d6,
              0x085f3833, 0x59249dd3, 0x766a0abb, 0x72af830a);
    RoundNext(38, 0x34df1604, 0x41a65cb1, 0x65a0cfe4, 0xa9a7738c, 0xa507a53d, 0x0772a26b,
              0xf4b002d6, 0x085f3833, 0x81c2c92e, 0x9409e33e);
    RoundNext(39, 0x6dc57a8a, 0x34df1604, 0x41a65cb1, 0x65a0cfe4, 0xf0781bc8, 0xa507a53d,
              0x0772a26b, 0xf4b002d6, 0x92722c85, 0x24641522);
  }

  lemma After48()
    ensures Rounds(IV, ABC, 48) == Chain(
      0x4172328d, 0xa14c14b0, 0x72ab4b91, 0x26628815, 0xfecf0bc6, 0xd57b94a9, 0xb7755da1, 0xa80f11f0)
  {
    hide Schedule, Rounds, ABC, IV;
    After40();
    Words4();
    RoundNext(40, 0x79ea687a, 0x6dc57a8a, 0x34df1604, 0x41a65cb1, 0x1efbc0a0, 0xf0781bc8,
              0xa507a53d, 0x0772a26b, 0xa2bfe8a1, 0x9f47bf94);
    RoundNext(41, 0xd6670766, 0x79ea687a, 0x6dc57a8a, 0x34df1604, 0x26352d63, 0x1efbc0a0,
              0xf0781bc8, 0xa507a53d, 0xa81a664b, 0xf0a64f5a);
    RoundNext(42, 0xdf46652f, 0xd6670766, 0x79ea687a, 0x6dc57a8a, 0x838b2711, 0x26352d63,
              0x1efbc0a0, 0xf0781bc8, 0xc24b8b70, 0x3e246a79);
    RoundNext(43, 0x17aa0dfe, 0xdf46652f, 0xd6670766, 0x79ea687a, 0xdecd4715, 0x838b2711,
              0x26352d63, 0x1efbc0a0, 0xc76c51a3, 0x27333ba3);
    RoundNext(44, 0x9d4baf93, 0x17aa0dfe, 0xdf46652f, 0xd6670766, 0xfda24c2e, 0xdecd4715,
              0x838b2711, 0x26352d63, 0xd192e819, 0x0c4763f2);
    RoundNext(45, 0x26628815, 0x9d4baf93, 0x17aa0dfe, 0xdf46652f, 0xa80f11f0, 0xfda24c2e,
              0xdecd4715, 0x838b2711, 0xd6990624, 0x840abf27);
    RoundNext(46, 0x72ab4b91, 0x26628815, 0x9d4baf93, 0x17aa0dfe, 0xb7755da1, 0xa80f11f0,
              0xfda24c2e, 0xdecd4715, 0xf40e3585, 0x7a290d5d);
    RoundNext(47, 0xa14c14b0, 0x72ab4b91, 0x26628815, 0x9d4baf93, 0xd57b94a9, 0xb7755da1,
              0xa80f11f0, 0xfda24c2e, 0x106aa070, 0x065c43da);
  }

  lemma After56()
    ensures Rounds(IV, ABC, 56) == Chain(
      0x38cc9913, 0x3ec45cdb, 0xf5702fdb, 0x101fd28f, 0x54cb266b, 0xe50e1b4f, 0x9f4787c3, 0x529e7d00)
  {
    hide Schedule, Rounds, ABC, IV;
    After48();
    Words5();
    RoundNext(48, 0x4172328d, 0xa14c14b0, 0x72ab4b91, 0x26628815, 0xfecf0bc6, 0xd57b94a9,
              0xb7755da1, 0xa80f11f0, 0x19a4c116, 0xfb3e89cb);
    RoundNext(49, 0x05757ceb, 0x4172328d, 0xa14c14b0, 0x72ab4b91, 0xbd714038, 0xfecf0bc6,
              0xd57b94a9, 0xb7755da1, 0x1e376c08, 0xcc7617db);
    RoundNext(50, 0xf11bfaa8, 0x05757ceb, 0x4172328d, 0xa14c14b0, 0x6e5c390c, 0xbd714038,
              0xfecf0bc6, 0xd57b94a9, 0x2748774c, 0xb9e66c34);
    RoundNext(51, 0x7a0508a1, 0xf11bfaa8, 0x05757ceb, 0x4172328d, 0x52f1ccf7, 0x6e5c390c,
              0xbd714038, 0xfecf0bc6, 0x34b0bcb5, 0xa9993667);
    RoundNext(52, 0x886e7a22, 0x7a0508a1, 0xf11bfaa8, 0x05757ceb, 0x49231c1e, 0x52f1ccf7,
              0x6e5c390c, 0xbd714038, 0x391c0cb3, 0x84badedd);
    RoundNext(53, 0x101fd28f, 0x886e7a22, 0x7a0508a1, 0xf11bfaa8, 0x529e7d00, 0x49231c1e,
              0x52f1ccf7, 0x6e5c390c, 0x4ed8aa4a, 0xc21462bc);
    RoundNext(54, 0xf5702fdb, 0x101fd28f, 0x886e7a22, 0x7a0508a1, 0x9f4787c3, 0x529e7d00,
              0x49231c1e, 0x52f1ccf7, 0x5b9cca4f, 0x1487472c);
    RoundNext(55, 0x3ec45cdb, 0xf5702fdb, 0x101fd28f, 0x886e7a22, 0xe50e1b4f, 0x9f4787c3,
              0x529e7d00, 0x49231c1e, 0x682e6ff3, 0xb20f7a99);
  }

  lemma After64()
    ensures Rounds(IV, ABC, 64) == Chain(
      0x506e3058, 0xd39a2165, 0x04d24d6c, 0xb85e2ce9, 0x5ef50f24, 0xfb121210, 0x948d25b6, 0x961f4894)
  {
    hide Schedule, Rounds, ABC, IV;
    After56();
    Words6();
    RoundNext(56, 0x38cc9913, 0x3ec45cdb, 0xf5702fdb, 0x101fd28f, 0x54cb266b, 0xe50e1b4f,
              0x9f4787c3, 0x529e7d00, 0x748f82ee, 0xef57b9cd);
    RoundNext(57, 0xfcd1887b, 0x38cc9913, 0x3ec45cdb, 0xf5702fdb, 0x9b5e906c, 0x54cb266b,
              0xe50e1b4f, 0x9f4787c3, 0x78a5636f, 0xebe6b238);
    RoundNext(58, 0xc062d46f, 0xfcd1887b, 0x38cc9913, 0x3ec45cdb, 0x7e44008e, 0x9b5e906c,
              0x54cb266b, 0xe50e1b4f, 0x84c87814, 0x9fe3095e);
    RoundNext(59, 0xffb70472, 0xc062d46f, 0xfcd1887b, 0x38cc9913, 0x6d83bfc6, 0x7e44008e,
              0x9b5e906c, 0x54cb266b, 0x8cc70208, 0x78bc8d4b);
    RoundNext(60, 0xb6ae8fff, 0xffb70472, 0xc062d46f, 0xfcd1887b, 0xb21bad3d, 0x6d83bfc6,
              0x7e44008e, 0x9b5e906c, 0x90befffa, 0xa43fcf15);
    RoundNext(61, 0xb85e2ce9, 0xb6ae8fff, 0xffb70472, 0xc062d46f, 0x961f4894, 0xb21bad3d,
              0x6d83bfc6, 0x7e44008e, 0xa4506ceb, 0x668b2ff8);
    RoundNext(62, 0x04d24d6c, 0xb85e2ce9, 0xb6ae8fff, 0xffb70472, 0x948d25b6, 0x961f4894,
              0xb21bad3d, 0x6d83bfc6, 0xbef9a3f7, 0xeeaba2cc);
    RoundNext(63, 0xd39a2165, 0x04d24d6c, 0xb85e2ce9, 0xb6ae8fff, 0xfb121210, 0x948d25b6,
              0x961f4894, 0xb21bad3d, 0xc67178f2, 0x12b1edeb);
  }

  /** The compression of the padded message. */
  lemma CompressAbc()
    ensures Compress(IV, ABC) == Chain(
      0xba7816bf, 0x8f01cfea, 0x414140de, 0x5dae2223, 0xb00361a3, 0x96177a9c, 0xb410ff61, 0xf20015ad)
  {
    hide W, Rounds, ABC;
    After64();
  }

  lemma PadIs(m: seq<bv8>)
    requires m == [0x61, 0x62, 0x63]
    ensures |Pad(m)| == BLOCK && WordsOf(Pad(m)) == ABC
  {
    hide LengthBytes;
    LengthIs();
    var p := Pad(m);
    assert ZeroCount(3) == 52;
    forall i | 0 <= i < 16 ensures WordAt(p, i) == ABC[i] {
    }
  }

  lemma LengthIs()
    ensures LengthBytes(24) == [0, 0, 0, 0, 0, 0, 0, 24]
  {}

  lemma DigestIs()
    ensures Digest(Chain(
      0xba7816bf, 0x8f01cfea, 0x414140de, 0x5dae2223, 0xb00361a3, 0x96177a9c, 0xb410ff61, 0xf20015ad)) == [
      0xba, 0x78, 0x16, 0xbf, 0x8f, 0x01, 0xcf, 0xea, 0x41, 0x41, 0x40, 0xde, 0x5d, 0xae, 0x22, 0x23,
      0xb0, 0x03, 0x61, 0xa3, 0x96, 0x17, 0x7a, 0x9c, 0xb4, 0x10, 0xff, 0x61, 0xf2, 0x00, 0x15, 0xad]
  {}

  /** SHA-256 of "abc". */
  lemma HashAbc(m: seq<bv8>)
    requires m == [0x61, 0x62, 0x63]
    ensures Sha256(m) == [
      0xba, 0x78, 0x16, 0xbf, 0x8f, 0x01, 0xcf, 0xea, 0x41, 0x41, 0x40, 0xde, 0x5d, 0xae, 0x22, 0x23,
      0xb0, 0x03, 0x61, 0xa3, 0x96, 0x17, 0x7a, 0x9c, 0xb4, 0x10, 0xff, 0x61, 0xf2, 0x00, 0x15, 0xad]
  {
    hide Compress, WordsOf, Pad, Digest, IV, ABC;
    PadIs(m);
    AbsorbBlock(IV, Pad(m));
    CompressAbc();
    DigestIs();
  }
}
