/** The example of section 8 of RFC 7914: the Salsa20/8 core on sixteen words, a round to a lemma. */
module Salsa20Example {
  import opened Words32
  import opened Salsa20

  // ---------- a round on four columns, with the distances of its rotations written out

  function By7(x: bv32): bv32 { (x << 7) | (x >> 25) }
  function By9(x: bv32): bv32 { (x << 9) | (x >> 23) }
  function By13(x: bv32): bv32 { (x << 13) | (x >> 19) }
  function By18(x: bv32): bv32 { (x << 18) | (x >> 14) }

  lemma Distances(x: bv32)
    ensures Rotl(x, 7) == By7(x) && Rotl(x, 9) == By9(x) && Rotl(x, 13) == By13(x) && Rotl(x, 18) == By18(x)
  {}

  /** The quarter round. */
  function Quartered(q: Quarter): Quarter {
    var b := Xor32(q.b, By7(Add(q.a, q.d)));
    var c := Xor32(q.c, By9(Add(b, q.a)));
    var d := Xor32(q.d, By13(Add(c, b)));
    Quarter(Xor32(q.a, By18(Add(d, c))), b, c, d)
  }

  lemma StepsAreQuartered(q: Quarter)
    ensures QuarterSteps(q, 4) == Quartered(q)
  {
    hide QuarterSteps, Add, Xor32, Rotl, By7, By9, By13, By18;
    FourSteps(q);
    Distances(Add(q.a, q.d));
    var b := Xor32(q.b, By7(Add(q.a, q.d)));
    Distances(Add(b, q.a));
    var c := Xor32(q.c, By9(Add(b, q.a)));
    Distances(Add(c, b));
    var d := Xor32(q.d, By13(Add(c, b)));
    Distances(Add(d, c));
  }

  datatype Columns = Columns(q0: Quarter, q1: Quarter, q2: Quarter, q3: Quarter)

  function ColumnsOf(x: State): Columns
    requires |x| == 16
  {
    Columns(Column(x, 0), Column(x, 1), Column(x, 2), Column(x, 3))
  }

  /** The columns after a column round and the transposition. */
  function NextColumns(t: Columns): Columns {
    var p, q, r, s := Quartered(t.q0), Quartered(t.q1), Quartered(t.q2), Quartered(t.q3);
    Columns(Quarter(p.a, q.d, r.c, s.b), Quarter(q.a, r.d, s.c, p.b), Quarter(r.a, s.d, p.c, q.b), Quarter(s.a, p.d, q.c, r.b))
  }

  lemma ColumnsTurned(y: State)
    requires |y| == 16
    ensures var t, u := ColumnsOf(y), ColumnsOf(Transposed(y));
            && u.q0 == Quarter(t.q0.a, t.q1.d, t.q2.c, t.q3.b) && u.q1 == Quarter(t.q1.a, t.q2.d, t.q3.c, t.q0.b)
            && u.q2 == Quarter(t.q2.a, t.q3.d, t.q0.c, t.q1.b) && u.q3 == Quarter(t.q3.a, t.q0.d, t.q1.c, t.q2.b)
  {
    hide Cell, Mirror;
    CellValues();
    MirrorValues();
  }

  lemma RoundIs(x: State, r: nat, t: Columns)
    requires |x| == 16 && ColumnsOf(CoreRounds(x, r)) == t
    ensures ColumnsOf(CoreRounds(x, r + 1)) == NextColumns(t)
  {
    hide CoreRounds, Column, Quartered, QuarterSteps, Transposed, ColumnRound;
    var y := CoreRounds(x, r);
    CoreRoundsNext(x, r);
    ColumnsTurned(ColumnRound(y));
    ColumnRoundOnColumns(y, 0);
    ColumnRoundOnColumns(y, 1);
    ColumnRoundOnColumns(y, 2);
    ColumnRoundOnColumns(y, 3);
    StepsAreQuartered(t.q0);
    StepsAreQuartered(t.q1);
    StepsAreQuartered(t.q2);
    StepsAreQuartered(t.q3);
  }

  // ---------- the example

  function Input(): (x: State)
    ensures |x| == 16
  {
    [0x219a877e, 0x86c93e4f, 0xe640a97c, 0x268f7141, 0x5b55eeba, 0xb5c1618c, 0x1146f80d, 0x1d3bcd6d,
     0x19f324ee, 0x853d9bdf, 0x4b1e1214, 0x32aac55a, 0x291d0276, 0x2948c709, 0x8dc6ebed, 0x5ec2b8b8]
  }

  lemma After0()
    ensures ColumnsOf(CoreRounds(Input(), 0)) == Columns(
        Quarter(0x219a877e, 0x5b55eeba, 0x19f324ee, 0x291d0276), Quarter(0xb5c1618c, 0x853d9bdf, 0x2948c709, 0x86c93e4f),
        Quarter(0x4b1e1214, 0x8dc6ebed, 0xe640a97c, 0x1146f80d), Quarter(0x5ec2b8b8, 0x268f7141, 0x1d3bcd6d, 0x32aac55a))
  {
    hide CoreRounds;
    NoRounds(Input());
  }

  lemma After1()
    ensures ColumnsOf(CoreRounds(Input(), 1)) == Columns(
        Quarter(0x08857f83, 0xbc4dffa4, 0x225a0768, 0x90307809), Quarter(0xc3e54d59, 0xd113843e, 0xfb5a4eb0, 0x0091149f),
        Quarter(0x6585dfa2, 0x6a7df42b, 0x4ecb1eaa, 0xc0727641), Quarter(0x55af2fd9, 0xaf742b9d, 0x4ee75de5, 0xbf43fb43))
  {
    hide CoreRounds, ColumnsOf, Input;
    After0();
    RoundIs(Input(), 0, Columns(
      Quarter(0x219a877e, 0x5b55eeba, 0x19f324ee, 0x291d0276), Quarter(0xb5c1618c, 0x853d9bdf, 0x2948c709, 0x86c93e4f),
      Quarter(0x4b1e1214, 0x8dc6ebed, 0xe640a97c, 0x1146f80d), Quarter(0x5ec2b8b8, 0x268f7141, 0x1d3bcd6d, 0x32aac55a)));
  }

  lemma After2()
    ensures ColumnsOf(CoreRounds(Input(), 2)) == Columns(
        Quarter(0x482665b1, 0x93580e01, 0xf701a95d, 0xd6e1a597), Quarter(0x0c50b5fd, 0xd590a7ea, 0x6f4dbdbc, 0xe6b639e8),
        Quarter(0x209aedeb, 0x53299386, 0x5528d0b6, 0xea23785c), Quarter(0x10a42604, 0x7163bf72, 0xead125ec, 0x965705b9))
  {
    hide CoreRounds, ColumnsOf, Input;
    After1();
    RoundIs(Input(), 1, Columns(
      Quarter(0x08857f83, 0xbc4dffa4, 0x225a0768, 0x90307809), Quarter(0xc3e54d59, 0xd113843e, 0xfb5a4eb0, 0x0091149f),
      Quarter(0x6585dfa2, 0x6a7df42b, 0x4ecb1eaa, 0xc0727641), Quarter(0x55af2fd9, 0xaf742b9d, 0x4ee75de5, 0xbf43fb43)));
  }

  lemma After3()
    ensures ColumnsOf(CoreRounds(Input(), 3)) == Columns(
        Quarter(0xb4cf7248, 0xb8e79720, 0x3e130cef, 0x0cf661a1), Quarter(0xde3bd4f1, 0x5dbd3119, 0xdfde6fd7, 0x175daa0e),
        Quarter(0xd8b882ab, 0x0c781823, 0xff1ed7e2, 0x56e75513), Quarter(0x0f4f975e, 0x46dfa758, 0x1f5b9d7a, 0x0c1ab003))
  {
    hide CoreRounds, ColumnsOf, Input;
    After2();
    RoundIs(Input(), 2, Columns(
      Quarter(0x482665b1, 0x93580e01, 0xf701a95d, 0xd6e1a597), Quarter(0x0c50b5fd, 0xd590a7ea, 0x6f4dbdbc, 0xe6b639e8),
      Quarter(0x209aedeb, 0x53299386, 0x5528d0b6, 0xea23785c), Quarter(0x10a42604, 0x7163bf72, 0xead125ec, 0x965705b9)));
  }

  lemma After4()
    ensures ColumnsOf(CoreRounds(Input(), 4)) == Columns(
        Quarter(0xe9e67835, 0x95e02c9d, 0x678d68da, 0xf3fc17d5), Quarter(0x10a33116, 0x70e69077, 0x8805fb7c, 0x5a0e63c0),
        Quarter(0x3dffe364, 0x4e709f83, 0x85bf1cf2, 0x91024ee3), Quarter(0x64b0ce84, 0xbce03a58, 0xa399c709, 0xc393c734))
  {
    hide CoreRounds, ColumnsOf, Input;
    After3();
    RoundIs(Input(), 3, Columns(
      Quarter(0xb4cf7248, 0xb8e79720, 0x3e130cef, 0x0cf661a1), Quarter(0xde3bd4f1, 0x5dbd3119, 0xdfde6fd7, 0x175daa0e),
      Quarter(0xd8b882ab, 0x0c781823, 0xff1ed7e2, 0x56e75513), Quarter(0x0f4f975e, 0x46dfa758, 0x1f5b9d7a, 0x0c1ab003)));
  }

  lemma After5()
    ensures ColumnsOf(CoreRounds(Input(), 5)) == Columns(
        Quarter(0xfbef1227, 0x12c789d1, 0x56808ce8, 0x9eaae64c), Quarter(0x43dbdd85, 0xd82bca5e, 0x14f0670f, 0x64a829f3),
        Quarter(0x60e759d5, 0xaa38b147, 0x7ac93847, 0x282cfb42), Quarter(0x05ea3220, 0xdfbb4c3b, 0x285d4b0d, 0xcf69bc64))
  {
    hide CoreRounds, ColumnsOf, Input;
    After4();
    RoundIs(Input(), 4, Columns(
      Quarter(0xe9e67835, 0x95e02c9d, 0x678d68da, 0xf3fc17d5), Quarter(0x10a33116, 0x70e69077, 0x8805fb7c, 0x5a0e63c0),
      Quarter(0x3dffe364, 0x4e709f83, 0x85bf1cf2, 0x91024ee3), Quarter(0x64b0ce84, 0xbce03a58, 0xa399c709, 0xc393c734)));
  }

  lemma After6()
    ensures ColumnsOf(CoreRounds(Input(), 6)) == Columns(
        Quarter(0x28f2a180, 0x997f9f3c, 0x89e18946, 0x764c0e51), Quarter(0x1c650ad9, 0x5055ce7c, 0x44dda9f5, 0x5e3bb01c),
        Quarter(0x3fec3108, 0xf8616b01, 0x03040a5c, 0x9a28760a), Quarter(0x5632c6dc, 0x69e5ea6b, 0x1c5778b3, 0x20123a83))
  {
    hide CoreRounds, ColumnsOf, Input;
    After5();
    RoundIs(Input(), 5, Columns(
      Quarter(0xfbef1227, 0x12c789d1, 0x56808ce8, 0x9eaae64c), Quarter(0x43dbdd85, 0xd82bca5e, 0x14f0670f, 0x64a829f3),
      Quarter(0x60e759d5, 0xaa38b147, 0x7ac93847, 0x282cfb42), Quarter(0x05ea3220, 0xdfbb4c3b, 0x285d4b0d, 0xcf69bc64)));
  }

  lemma After7()
    ensures ColumnsOf(CoreRounds(Input(), 7)) == Columns(
        Quarter(0xb0e98b83, 0x346a63e9, 0x3d22e238, 0x4b6545d0), Quarter(0x1abe5aed, 0x22bcf3e0, 0x2c4e21f0, 0x062877f3),
        Quarter(0x678d4e77, 0x4cea3475, 0xbfd36f18, 0x0008b4c1), Quarter(0x0fa7223d, 0x0aad76ee, 0x9fa29dcd, 0xf232e26c))
  {
    hide CoreRounds, ColumnsOf, Input;
    After6();
    RoundIs(Input(), 6, Columns(
      Quarter(0x28f2a180, 0x997f9f3c, 0x89e18946, 0x764c0e51), Quarter(0x1c650ad9, 0x5055ce7c, 0x44dda9f5, 0x5e3bb01c),
      Quarter(0x3fec3108, 0xf8616b01, 0x03040a5c, 0x9a28760a), Quarter(0x5632c6dc, 0x69e5ea6b, 0x1c5778b3, 0x20123a83)));
  }

  lemma After8()
    ensures ColumnsOf(CoreRounds(Input(), 8)) == Columns(
        Quarter(0x7aea9826, 0x25cb5c4a, 0x4e3e14c6, 0xe7af226e), Quarter(0xc7729c16, 0x37a92e04, 0x332bca23, 0x1302ca17),
        Quarter(0x6ca759ea, 0xafa0c137, 0xe589d7bf, 0x51d583f0), Quarter(0x22cca90f, 0xdf5f9ac1, 0x0bf39b29, 0x87eba846))
  {
    hide CoreRounds, ColumnsOf, Input;
    After7();
    RoundIs(Input(), 7, Columns(
      Quarter(0xb0e98b83, 0x346a63e9, 0x3d22e238, 0x4b6545d0), Quarter(0x1abe5aed, 0x22bcf3e0, 0x2c4e21f0, 0x062877f3),
      Quarter(0x678d4e77, 0x4cea3475, 0xbfd36f18, 0x0008b4c1), Quarter(0x0fa7223d, 0x0aad76ee, 0x9fa29dcd, 0xf232e26c)));
  }

  lemma WordsOfColumns(y: State, t: Columns)
    requires |y| == 16 && ColumnsOf(y) == t
    ensures y[0] == t.q0.a && y[1] == t.q1.d && y[2] == t.q2.c && y[3] == t.q3.b
    ensures y[4] == t.q0.b && y[5] == t.q1.a && y[6] == t.q2.d && y[7] == t.q3.c
    ensures y[8] == t.q0.c && y[9] == t.q1.b && y[10] == t.q2.a && y[11] == t.q3.d
    ensures y[12] == t.q0.d && y[13] == t.q1.c && y[14] == t.q2.b && y[15] == t.q3.a
  {
    hide Cell;
    CellValues();
  }

  lemma SumAt(x: State, y: State, i: nat, a: bv32, b: bv32)
    requires |x| == |y| == 16 && i < 16 && x[i] == a && y[i] == b
    ensures |AddStates(x, y)| == 16 && AddStates(x, y)[i] == Add(a, b)
  {
    hide Add;
  }

  lemma SixteenWords(x: State)
    requires |x| == 16
    ensures x == [x[0], x[1], x[2], x[3], x[4], x[5], x[6], x[7], x[8], x[9], x[10], x[11], x[12], x[13], x[14], x[15]]
  {}

  lemma FinalWords()
    ensures CoreRounds(Input(), 8)[0] == 0x7aea9826 && CoreRounds(Input(), 8)[1] == 0x1302ca17
    ensures CoreRounds(Input(), 8)[2] == 0xe589d7bf && CoreRounds(Input(), 8)[3] == 0xdf5f9ac1
    ensures CoreRounds(Input(), 8)[4] == 0x25cb5c4a && CoreRounds(Input(), 8)[5] == 0xc7729c16
    ensures CoreRounds(Input(), 8)[6] == 0x51d583f0 && CoreRounds(Input(), 8)[7] == 0x0bf39b29
    ensures CoreRounds(Input(), 8)[8] == 0x4e3e14c6 && CoreRounds(Input(), 8)[9] == 0x37a92e04
    ensures CoreRounds(Input(), 8)[10] == 0x6ca759ea && CoreRounds(Input(), 8)[11] == 0x87eba846
    ensures CoreRounds(Input(), 8)[12] == 0xe7af226e && CoreRounds(Input(), 8)[13] == 0x332bca23
    ensures CoreRounds(Input(), 8)[14] == 0xafa0c137 && CoreRounds(Input(), 8)[15] == 0x22cca90f
  {
    hide CoreRounds, ColumnsOf;
    After8();
    WordsOfColumns(CoreRounds(Input(), 8), Columns(
      Quarter(0x7aea9826, 0x25cb5c4a, 0x4e3e14c6, 0xe7af226e), Quarter(0xc7729c16, 0x37a92e04, 0x332bca23, 0x1302ca17),
      Quarter(0x6ca759ea, 0xafa0c137, 0xe589d7bf, 0x51d583f0), Quarter(0x22cca90f, 0xdf5f9ac1, 0x0bf39b29, 0x87eba846)));
  }

  lemma Sums0()
    ensures |AddStates(Input(), CoreRounds(Input(), 8))| == 16
    ensures AddStates(Input(), CoreRounds(Input(), 8))[0] == 0x9c851fa4
    ensures AddStates(Input(), CoreRounds(Input(), 8))[1] == 0x99cc0866
    ensures AddStates(Input(), CoreRounds(Input(), 8))[2] == 0xcbca813b
    ensures AddStates(Input(), CoreRounds(Input(), 8))[3] == 0x05ef0c02
  {
    hide CoreRounds, Input, AddStates;
    InputWords();
    FinalWords();
    SumAt(Input(), CoreRounds(Input(), 8), 0, 0x219a877e, 0x7aea9826);
    SumAt(Input(), CoreRounds(Input(), 8), 1, 0x86c93e4f, 0x1302ca17);
    SumAt(Input(), CoreRounds(Input(), 8), 2, 0xe640a97c, 0xe589d7bf);
    SumAt(Input(), CoreRounds(Input(), 8), 3, 0x268f7141, 0xdf5f9ac1);
  }

  lemma Sums4()
    ensures |AddStates(Input(), CoreRounds(Input(), 8))| == 16
    ensures AddStates(Input(), CoreRounds(Input(), 8))[4] == 0x81214b04
    ensures AddStates(Input(), CoreRounds(Input(), 8))[5] == 0x7d33fda2
    ensures AddStates(Input(), CoreRounds(Input(), 8))[6] == 0x631c7bfd
    ensures AddStates(Input(), CoreRounds(Input(), 8))[7] == 0x292f6896
  {
    hide CoreRounds, Input, AddStates;
    InputWords();
    FinalWords();
    SumAt(Input(), CoreRounds(Input(), 8), 4, 0x5b55eeba, 0x25cb5c4a);
    SumAt(Input(), CoreRounds(Input(), 8), 5, 0xb5c1618c, 0xc7729c16);
    SumAt(Input(), CoreRounds(Input(), 8), 6, 0x1146f80d, 0x51d583f0);
    SumAt(Input(), CoreRounds(Input(), 8), 7, 0x1d3bcd6d, 0x0bf39b29);
  }

  lemma Sums8()
    ensures |AddStates(Input(), CoreRounds(Input(), 8))| == 16
    ensures AddStates(Input(), CoreRounds(Input(), 8))[8] == 0x683139b4
    ensures AddStates(Input(), CoreRounds(Input(), 8))[9] == 0xbce6c9e3
    ensures AddStates(Input(), CoreRounds(Input(), 8))[10] == 0xb7c56bfe
    ensures AddStates(Input(), CoreRounds(Input(), 8))[11] == 0xba966da0
  {
    hide CoreRounds, Input, AddStates;
    InputWords();
    FinalWords();
    SumAt(Input(), CoreRounds(Input(), 8), 8, 0x19f324ee, 0x4e3e14c6);
    SumAt(Input(), CoreRounds(Input(), 8), 9, 0x853d9bdf, 0x37a92e04);
    SumAt(Input(), CoreRounds(Input(), 8), 10, 0x4b1e1214, 0x6ca759ea);
    SumAt(Input(), CoreRounds(Input(), 8), 11, 0x32aac55a, 0x87eba846);
  }

  lemma Sums12()
    ensures |AddStates(Input(), CoreRounds(Input(), 8))| == 16
    ensures AddStates(Input(), CoreRounds(Input(), 8))[12] == 0x10cc24e4
    ensures AddStates(Input(), CoreRounds(Input(), 8))[13] == 0x5c74912c
    ensures AddStates(Input(), CoreRounds(Input(), 8))[14] == 0x3d67ad24
    ensures AddStates(Input(), CoreRounds(Input(), 8))[15] == 0x818f61c7
  {
    hide CoreRounds, Input, AddStates;
    InputWords();
    FinalWords();
    SumAt(Input(), CoreRounds(Input(), 8), 12, 0x291d0276, 0xe7af226e);
    SumAt(Input(), CoreRounds(Input(), 8), 13, 0x2948c709, 0x332bca23);
    SumAt(Input(), CoreRounds(Input(), 8), 14, 0x8dc6ebed, 0xafa0c137);
    SumAt(Input(), CoreRounds(Input(), 8), 15, 0x5ec2b8b8, 0x22cca90f);
  }

  /** Four double rounds and the addition of the input. */
  lemma ExampleVector()
    ensures AddStates(Input(), CoreRounds(Input(), 8)) == [
      0x9c851fa4, 0x99cc0866, 0xcbca813b, 0x05ef0c02, 0x81214b04, 0x7d33fda2, 0x631c7bfd, 0x292f6896,
      0x683139b4, 0xbce6c9e3, 0xb7c56bfe, 0xba966da0, 0x10cc24e4, 0x5c74912c, 0x3d67ad24, 0x818f61c7]
  {
    hide CoreRounds, Input, AddStates;
    Sums0();
    Sums4();
    Sums8();
    Sums12();
    SixteenWords(AddStates(Input(), CoreRounds(Input(), 8)));
  }

  lemma InputWords()
    ensures Input()[0] == 0x219a877e && Input()[1] == 0x86c93e4f && Input()[2] == 0xe640a97c && Input()[3] == 0x268f7141
    ensures Input()[4] == 0x5b55eeba && Input()[5] == 0xb5c1618c && Input()[6] == 0x1146f80d && Input()[7] == 0x1d3bcd6d
    ensures Input()[8] == 0x19f324ee && Input()[9] == 0x853d9bdf && Input()[10] == 0x4b1e1214 && Input()[11] == 0x32aac55a
    ensures Input()[12] == 0x291d0276 && Input()[13] == 0x2948c709 && Input()[14] == 0x8dc6ebed && Input()[15] == 0x5ec2b8b8
  {}
}
