/** The tables InitAesTables builds: powers and logarithms of the generator 3, products, and the inverse S-box. */
module GaloisTables {
  import opened GaloisField
  import SBox

  /** The next power of the generator: n ^ (n << 1), reduced. */
  function Gen(n: bv8): bv8 {
    n ^ (n << 1) ^ ((n >> 7) ^ ((n >> 7) << 1) ^ ((n >> 7) << 3) ^ ((n >> 7) << 4))
  }

  lemma GenAsWritten(n: bv8)
    ensures Gen(n) == n ^ (n << 1) ^ (if n & 0x80 != 0 then 0x1B else 0)
  {}

  lemma GenIsThree(n: bv8)
    ensures Gen(n) == Xor(n, XTime(n))
  {}

  function Exp(i: nat): bv8 {
    if i == 0 then 1 else Gen(Exp(i - 1))
  }

  lemma GenTimes(a: bv8, b: bv8)
    ensures GfMul(Gen(a), b) == Gen(GfMul(a, b))
  {
    hide Xor, XTime, GfMul, Gen;
    GenIsThree(a);
    GenIsThree(GfMul(a, b));
    MulAdds(a, XTime(a), b);
    MulXTime(a, b);
  }

  /** Powers add their exponents. */
  lemma {:induction false} ExpTimes(i: nat, j: nat)
    ensures GfMul(Exp(i), Exp(j)) == Exp(i + j)
  {
    hide Gen, GfMul;
    if i == 0 {
      MulOne(Exp(j));
    } else {
      ExpTimes(i - 1, j);
      GenTimes(Exp(i - 1), Exp(j));
    }
  }

  /** Fifteen steps at once. */
  function Gen15(a: bv8): bv8 { Gen5(Gen5(Gen5(a))) }

  function Gen5(a: bv8): bv8 { Gen(Gen(Gen(Gen(Gen(a))))) }

  lemma Exp5(i: nat)
    ensures Exp(i + 5) == Gen5(Exp(i))
  {
    hide Gen;
    assert Exp(i + 1) == Gen(Exp(i));
    assert Exp(i + 2) == Gen(Exp(i + 1));
    assert Exp(i + 3) == Gen(Exp(i + 2));
    assert Exp(i + 4) == Gen(Exp(i + 3));
  }

  lemma Exp15(i: nat)
    ensures Exp(i + 15) == Gen15(Exp(i))
  {
    hide Gen5, Exp;
    Exp5(i);
    Exp5(i + 5);
    Exp5(i + 10);
  }

  /** The powers of the generator whose exponent is a multiple of fifteen. */
  predicate Giant(a: bv8) {
    a == 0x01 || a == 0x35 || a == 0x66 || a == 0xAB || a == 0xD3 || a == 0x08 || a == 0xB3 || a == 0x1D || a == 0x2F
    || a == 0xC2 || a == 0x40 || a == 0xEF || a == 0xE8 || a == 0x63 || a == 0x4A || a == 0x36 || a == 0x39
  }

  lemma GiantSteps()
    ensures Gen15(0x01) == 0x35
    ensures Gen15(0x35) == 0x66
    ensures Gen15(0x66) == 0xAB
    ensures Gen15(0xAB) == 0xD3
    ensures Gen15(0xD3) == 0x08
    ensures Gen15(0x08) == 0xB3
    ensures Gen15(0xB3) == 0x1D
    ensures Gen15(0x1D) == 0x2F
    ensures Gen15(0x2F) == 0xC2
    ensures Gen15(0xC2) == 0x40
    ensures Gen15(0x40) == 0xEF
    ensures Gen15(0xEF) == 0xE8
    ensures Gen15(0xE8) == 0x63
    ensures Gen15(0x63) == 0x4A
    ensures Gen15(0x4A) == 0x36
    ensures Gen15(0x36) == 0x39
    ensures Gen15(0x39) == 0x01
  {}

  /** Every non-zero byte is at most fourteen steps before a giant. */
  lemma BabySteps(a: bv8)
    requires a != 0
    ensures var a1 := Gen(a); var a2 := Gen(a1); var a3 := Gen(a2); var a4 := Gen(a3); var a5 := Gen(a4);
            var a6 := Gen(a5); var a7 := Gen(a6); var a8 := Gen(a7); var a9 := Gen(a8); var a10 := Gen(a9);
            var a11 := Gen(a10); var a12 := Gen(a11); var a13 := Gen(a12); var a14 := Gen(a13);
            Giant(a) || Giant(a1) || Giant(a2) || Giant(a3) || Giant(a4) || Giant(a5) || Giant(a6) || Giant(a7)
            || Giant(a8) || Giant(a9) || Giant(a10) || Giant(a11) || Giant(a12) || Giant(a13) || Giant(a14)
  {}

  /** Where the giants stand among the powers, and that the powers return to 1 after 255 steps. */
  lemma GiantPowers()
    ensures Exp(15) == 0x35
    ensures Exp(30) == 0x66
    ensures Exp(45) == 0xAB
    ensures Exp(60) == 0xD3
    ensures Exp(75) == 0x08
    ensures Exp(90) == 0xB3
    ensures Exp(105) == 0x1D
    ensures Exp(120) == 0x2F
    ensures Exp(135) == 0xC2
    ensures Exp(150) == 0x40
    ensures Exp(165) == 0xEF
    ensures Exp(180) == 0xE8
    ensures Exp(195) == 0x63
    ensures Exp(210) == 0x4A
    ensures Exp(225) == 0x36
    ensures Exp(240) == 0x39
    ensures Exp(255) == 1
  {
    hide Gen15, Exp;
    GiantSteps();
    assert Exp(0) == 1 by { ExpZero(); }
    Exp15(0);
    Exp15(15);
    Exp15(30);
    Exp15(45);
    Exp15(60);
    Exp15(75);
    Exp15(90);
    Exp15(105);
    Exp15(120);
    Exp15(135);
    Exp15(150);
    Exp15(165);
    Exp15(180);
    Exp15(195);
    Exp15(210);
    Exp15(225);
    Exp15(240);
  }

  lemma ExpZero()
    ensures Exp(0) == 1
  {}

  lemma GiantIsPower(a: bv8) returns (k: nat)
    requires Giant(a)
    ensures k < 255 && Exp(k) == a
  {
    hide Exp;
    GiantPowers();
    ExpZero();
    k := if a == 0x01 then 0
         else if a == 0x35 then 15
         else if a == 0x66 then 30
         else if a == 0xAB then 45
         else if a == 0xD3 then 60
         else if a == 0x08 then 75
         else if a == 0xB3 then 90
         else if a == 0x1D then 105
         else if a == 0x2F then 120
         else if a == 0xC2 then 135
         else if a == 0x40 then 150
         else if a == 0xEF then 165
         else if a == 0xE8 then 180
         else if a == 0x63 then 195
         else if a == 0x4A then 210
         else if a == 0x36 then 225
         else 240;
  }

  /** The generator's powers repeat after 255 steps. */
  lemma {:induction false} ExpPeriod(i: nat)
    ensures Exp(i + 255) == Exp(i)
  {
    hide Exp, GfMul;
    GiantPowers();
    ExpTimes(255, i);
    MulOne(Exp(i));
  }

  /** n steps of the generator on a. */
  function Steps(n: nat, a: bv8): bv8 {
    if n == 0 then a else Gen(Steps(n - 1, a))
  }

  lemma {:induction false} StepsOfExp(n: nat, k: nat)
    ensures Steps(n, Exp(k)) == Exp(n + k)
  {
    hide Gen;
    if n > 0 {
      StepsOfExp(n - 1, k);
    }
  }

  lemma {:induction false} StepsAdd(m: nat, n: nat, a: bv8)
    ensures Steps(m, Steps(n, a)) == Steps(m + n, a)
  {
    hide Gen;
    if m > 0 {
      StepsAdd(m - 1, n, a);
    }
  }

  lemma {:induction false} StepsIsTimes(n: nat, a: bv8)
    ensures Steps(n, a) == GfMul(Exp(n), a)
  {
    hide Gen, GfMul;
    if n == 0 {
      MulOne(a);
    } else {
      StepsIsTimes(n - 1, a);
      GenTimes(Exp(n - 1), a);
    }
  }

  /** 255 steps lead back. */
  lemma FullCircle(a: bv8)
    ensures Steps(255, a) == a
  {
    hide Steps, GfMul, Exp;
    StepsIsTimes(255, a);
    GiantPowers();
    MulOne(a);
  }

  lemma BabyStep(a: bv8) returns (r: nat)
    requires a != 0
    ensures r < 15 && Giant(Steps(r, a))
  {
    hide Gen, Giant;
    BabySteps(a);
    assert Steps(1, a) == Gen(Steps(0, a)) && Steps(2, a) == Gen(Steps(1, a)) && Steps(3, a) == Gen(Steps(2, a));
    assert Steps(4, a) == Gen(Steps(3, a)) && Steps(5, a) == Gen(Steps(4, a)) && Steps(6, a) == Gen(Steps(5, a));
    assert Steps(7, a) == Gen(Steps(6, a)) && Steps(8, a) == Gen(Steps(7, a)) && Steps(9, a) == Gen(Steps(8, a));
    assert Steps(10, a) == Gen(Steps(9, a)) && Steps(11, a) == Gen(Steps(10, a)) && Steps(12, a) == Gen(Steps(11, a));
    assert Steps(13, a) == Gen(Steps(12, a)) && Steps(14, a) == Gen(Steps(13, a));
    r := if Giant(Steps(0, a)) then 0 else if Giant(Steps(1, a)) then 1 else if Giant(Steps(2, a)) then 2
         else if Giant(Steps(3, a)) then 3 else if Giant(Steps(4, a)) then 4 else if Giant(Steps(5, a)) then 5
         else if Giant(Steps(6, a)) then 6 else if Giant(Steps(7, a)) then 7 else if Giant(Steps(8, a)) then 8
         else if Giant(Steps(9, a)) then 9 else if Giant(Steps(10, a)) then 10 else if Giant(Steps(11, a)) then 11
         else if Giant(Steps(12, a)) then 12 else if Giant(Steps(13, a)) then 13 else 14;
  }

  /** 3 generates the field: every non-zero byte is one of its first 255 powers. */
  lemma LogExists(a: bv8) returns (k: nat)
    requires a != 0
    ensures k < 255 && Exp(k) == a
  {
    hide Steps, Exp, Giant;
    var r := BabyStep(a);
    var g := GiantIsPower(Steps(r, a));
    StepsAdd(255 - r, r, a);
    FullCircle(a);
    StepsOfExp(255 - r, g);
    k := 255 - r + g;
    if k >= 255 {
      ExpPeriod(k - 255);
      k := k - 255;
    }
  }

  /** The product is commutative: both sides are one power of the generator. */
  lemma MulCommutes(a: bv8, b: bv8)
    ensures GfMul(a, b) == GfMul(b, a)
  {
    hide GfMul, Exp;
    MulZero(a);
    MulZero(b);
    if a != 0 && b != 0 {
      var i := LogExists(a);
      var j := LogExists(b);
      ExpTimes(i, j);
      ExpTimes(j, i);
    }
  }

  // ---------- InitAesTables

  /** The entry of a table of 256 for a byte. */
  function At<T>(table: seq<T>, b: bv8): T
    requires |table| == 256
  {
    table[b as int]
  }

  datatype Tables = Tables(invSubByte: seq<bv8>, powers: seq<bv8>, logs: seq<nat>)

  ghost predicate LogFound(logs: seq<nat>, a: bv8)
    requires |logs| == 256
  {
    At(logs, a) < 255 && Exp(At(logs, a)) == a
  }

  /** What the tables hold: powers of the generator up to the sum of two logarithms, zeros from 511 on,
      logarithms with 511 for zero, and the inverse S-box. */
  ghost predicate ValidTables(t: Tables) {
    && |t.invSubByte| == 256 && |t.powers| == 1024 && |t.logs| == 256
    && (forall k | 0 <= k < 510 :: t.powers[k] == Exp(k))
    && (forall k | 511 <= k < 1024 :: t.powers[k] == 0)
    && At(t.logs, 0) == 511
    && (forall a: bv8 | a != 0 :: LogFound(t.logs, a))
    && (forall b: bv8 :: At(t.invSubByte, b) == SBox.InvSubByte(b))
  }

  /** g_aesPowers[g_aesLogs[a] + g_aesLogs[b]], the way the product table is filled. */
  function LogMul(t: Tables, a: bv8, b: bv8): bv8
    requires ValidTables(t)
  {
    assert At(t.logs, a) <= 511 by { if a != 0 { assert LogFound(t.logs, a); } }
    assert At(t.logs, b) <= 511 by { if b != 0 { assert LogFound(t.logs, b); } }
    t.powers[At(t.logs, a) + At(t.logs, b)]
  }

  /** Multiplication through logarithms is the polynomial product, for zero factors too. */
  lemma LogMulIsProduct(t: Tables, a: bv8, b: bv8)
    requires ValidTables(t)
    ensures LogMul(t, a, b) == GfMul(a, b)
  {
    hide GfMul, Exp;
    if a == 0 || b == 0 {
      MulZero(a);
      MulZero(b);
      if a != 0 { assert LogFound(t.logs, a); }
      if b != 0 { assert LogFound(t.logs, b); }
    } else {
      assert LogFound(t.logs, a) && LogFound(t.logs, b);
      ExpTimes(At(t.logs, a), At(t.logs, b));
    }
  }

  lemma AtUpdate<T>(table: seq<T>, i: bv8, x: T, b: bv8)
    requires |table| == 256
    ensures At(table[i as int := x], b) == if b == i then x else At(table, b)
  {}

  ghost predicate Inverted(inv: seq<bv8>, i: int)
    requires |inv| == 256
  {
    forall c: bv8 | SBox.InvSubByte(c) as int < i :: At(inv, c) == SBox.InvSubByte(c)
  }

  lemma InvertOne(inv: seq<bv8>, i: nat)
    requires |inv| == 256 && i < 256 && Inverted(inv, i)
    ensures Inverted(inv[SBox.SubByte(i as bv8) as int := i as bv8], i + 1)
  {
    hide SBox.SubByte, SBox.InvSubByte;
    var x := i as bv8;
    var s := SBox.SubByte(x);
    SBox.SubByteInverse(x);
    forall c: bv8 | SBox.InvSubByte(c) as int < i + 1
      ensures At(inv[s as int := x], c) == SBox.InvSubByte(c)
    {
      AtUpdate(inv, s, x, c);
      SBox.SubByteInverse(c);
      if SBox.InvSubByte(c) as int == i {
        assert SBox.InvSubByte(c) == x;
      }
    }
  }

  ghost predicate Logged(logs: seq<nat>, i: int)
    requires |logs| == 256
  {
    forall k | 0 <= k < i :: At(logs, Exp(k)) < i && Exp(At(logs, Exp(k))) == Exp(k)
  }

  lemma LogOne(logs: seq<nat>, i: nat)
    requires |logs| == 256 && Logged(logs, i)
    ensures Logged(logs[Exp(i) as int := i], i + 1)
  {
    hide Exp;
    forall k | 0 <= k < i + 1
      ensures At(logs[Exp(i) as int := i], Exp(k)) < i + 1 && Exp(At(logs[Exp(i) as int := i], Exp(k))) == Exp(k)
    {
      AtUpdate(logs, Exp(i), i, Exp(k));
    }
  }

  lemma LogsComplete(logs: seq<nat>, a: bv8)
    requires |logs| == 256 && Logged(logs, 256) && a != 0
    ensures LogFound(logs[1 := 0][0 := 511], a)
  {
    hide Exp;
    GiantPowers();
    ExpZero();
    var k := LogExists(a);
    AtUpdate(logs, 1, 0, a);
    AtUpdate(logs[1 := 0], 0, 511, a);
  }

  /** The first half of InitAesTables. */
  method InitTables() returns (t: Tables)
    ensures ValidTables(t)
  {
    hide SBox.SubByte, SBox.InvSubByte, Exp, Gen;
    var invSubByte, powers, logs := seq(256, i => 0 as bv8), seq(1024, i => 0 as bv8), seq(256, i => 0);
    var n: bv8 := 0;
    var i := 0;
    while i < 256
      invariant 0 <= i <= 256 && |invSubByte| == 256 && |powers| == 1024 && |logs| == 256
      invariant Inverted(invSubByte, i) && Logged(logs, i)
      invariant forall k | 0 <= k < i :: powers[k] == Exp(k)
      invariant forall k | i <= k < 1024 :: powers[k] == 0
      invariant i > 0 ==> n == Exp(i - 1)
    {
      InvertOne(invSubByte, i);
      invSubByte := invSubByte[SBox.SubByte(i as bv8) as int := i as bv8];
      ExpNext(i);
      n := if i == 0 then 1 else Gen(n);
      powers := powers[i := n];
      LogOne(logs, i);
      logs := logs[n as int := i];
      i := i + 1;
    }
    i := 0;
    while i < 255
      invariant 0 <= i <= 255 && |powers| == 1024
      invariant forall k | 0 <= k < 255 + i :: powers[k] == Exp(k)
      invariant forall k | 511 <= k < 1024 :: powers[k] == 0
    {
      ExpPeriod(i);
      powers := powers[255 + i := powers[i]];
      i := i + 1;
    }
    ghost var filled := logs;
    logs := logs[1 := 0];
    logs := logs[0 := 511];
    forall a: bv8 | a != 0 ensures LogFound(logs, a) {
      LogsComplete(filled, a);
    }
    assert forall b: bv8 :: At(invSubByte, b) == SBox.InvSubByte(b) by {
      forall b: bv8 ensures At(invSubByte, b) == SBox.InvSubByte(b) {
        assert SBox.InvSubByte(b) as int < 256;
      }
    }
    t := Tables(invSubByte, powers, logs);
  }

  lemma ExpNext(i: nat)
    ensures Exp(i) == if i == 0 then 1 else Gen(Exp(i - 1))
  {}

  /** The second half: all 65536 products. */
  method InitProducts(t: Tables) returns (aesMul: array<bv8>)
    requires ValidTables(t)
    ensures aesMul.Length == 65536
    ensures forall a: bv8, b: bv8 :: MulIndex(a, b) < 65536 && aesMul[MulIndex(a, b)] == GfMul(a, b)
  {
    hide GfMul, ValidTables;
    aesMul := new bv8[65536];
    var a := 0;
    while a < 256
      invariant 0 <= a <= 256
      invariant forall x: bv8, y: bv8 | MulIndex(x, y) < a * 256 :: aesMul[MulIndex(x, y)] == GfMul(x, y)
    {
      var b := 0;
      while b < 256
        invariant 0 <= b <= 256
        invariant forall x: bv8, y: bv8 | MulIndex(x, y) < a * 256 + b :: aesMul[MulIndex(x, y)] == GfMul(x, y)
      {
        LogMulIsProduct(t, a as bv8, b as bv8);
        aesMul[a * 256 + b] := LogMul(t, a as bv8, b as bv8);
        forall x: bv8, y: bv8 {:trigger MulIndex(x, y)} | MulIndex(x, y) == a * 256 + b ensures x == a as bv8 && y == b as bv8 {
          MulIndexInjective(x, y, a, b);
        }
        b := b + 1;
      }
      a := a + 1;
    }
    forall x: bv8, y: bv8 ensures MulIndex(x, y) < 65536 {
      assert x as int < 256 && y as int < 256;
    }
  }

  /** (a << 8) | b */
  function MulIndex(a: bv8, b: bv8): nat { a as int * 256 + b as int }

  lemma MulIndexInjective(x: bv8, y: bv8, a: nat, b: nat)
    requires a < 256 && b < 256 && MulIndex(x, y) == a * 256 + b
    ensures x == a as bv8 && y == b as bv8
  {
    assert x as int == a && y as int == b;
  }
}
