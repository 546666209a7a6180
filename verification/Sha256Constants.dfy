/** Where the constants of SHA-256 come from: sections 4.2.2 and 5.3.3 of FIPS 180-4 take the first 32 bits of the fractional
    parts of the cube roots of the first 64 primes, and of the square roots of the first eight. */
module Sha256Constants {
  import opened Positional
  import opened Sha256Compression
  import opened Sha256Stream

  // ---------- the first 64 primes

  ghost predicate Prime(n: nat) { n >= 2 && forall d {:trigger n % d} | 2 <= d < n :: n % d != 0 }

  /** One of eight numbers of a row. */
  function Pick(j: nat, p0: nat, p1: nat, p2: nat, p3: nat, p4: nat, p5: nat, p6: nat, p7: nat): nat {
    if j < 4 then if j < 2 then if j == 0 then p0 else p1 else if j == 2 then p2 else p3
    else if j < 6 then if j == 4 then p4 else p5 else if j == 6 then p6 else p7
  }

  function PrimeAt(i: nat): nat
    requires i < 64
  {
    if i < 8 then Pick(i, 2, 3, 5, 7, 11, 13, 17, 19)
    else if i < 16 then Pick(i - 8, 23, 29, 31, 37, 41, 43, 47, 53)
    else if i < 24 then Pick(i - 16, 59, 61, 67, 71, 73, 79, 83, 89)
    else if i < 32 then Pick(i - 24, 97, 101, 103, 107, 109, 113, 127, 131)
    else if i < 40 then Pick(i - 32, 137, 139, 149, 151, 157, 163, 167, 173)
    else if i < 48 then Pick(i - 40, 179, 181, 191, 193, 197, 199, 211, 223)
    else if i < 56 then Pick(i - 48, 227, 229, 233, 239, 241, 251, 257, 263)
    else Pick(i - 56, 269, 271, 277, 281, 283, 293, 307, 311)
  }

  /** n is a proper multiple of a prime below 18. */
  predicate Sifted(n: nat) {
    || (n % 2 == 0 && n > 2) || (n % 3 == 0 && n > 3) || (n % 5 == 0 && n > 5) || (n % 7 == 0 && n > 7)
    || (n % 11 == 0 && n > 11) || (n % 13 == 0 && n > 13) || (n % 17 == 0 && n > 17)
  }

  lemma MultipleOf(a: nat, b: nat, q: nat)
    requires q > 0 && a % q == 0
    ensures (a * b) % q == 0
  {
    var c := a / q;
    assert a == q * c;
    MulAssoc(q, c, b);
    DivUnique(a * b, q, c * b, 0);
  }

  /** A product with a factor below 18 is sifted: the factor is a multiple of one of the seven primes. */
  lemma ProductSifted(a: nat, b: nat)
    requires 2 <= a < 18 && 2 <= b
    ensures Sifted(a * b)
  {
    var q := if a % 2 == 0 then 2 else if a % 3 == 0 then 3 else if a % 5 == 0 then 5 else if a % 7 == 0 then 7 else a;
    assert (q == 2 || q == 3 || q == 5 || q == 7 || q == 11 || q == 13 || q == 17) && q <= a;
    MultipleOf(a, b, q);
    MulLe(2, b, a);
    Proper(a * b, q);
  }

  lemma Proper(n: nat, q: nat)
    requires q > 0 && n % q == 0 && n > q && (q == 2 || q == 3 || q == 5 || q == 7 || q == 11 || q == 13 || q == 17)
    ensures Sifted(n)
  {}

  lemma Sieve(n: nat)
    requires 2 <= n < 324
    ensures Prime(n) <==> !Sifted(n)
  {
    if Sifted(n) {
      var q := SiftedBy(n);
      assert n % q == 0;
    } else {
      hide Sifted;
      forall d {:trigger n % d} | 2 <= d < n ensures n % d != 0 {
        NotDivided(n, d);
      }
    }
  }

  lemma SiftedBy(n: nat) returns (q: nat)
    requires Sifted(n)
    ensures 2 <= q < n && n % q == 0
  {
    q := if n % 2 == 0 && n > 2 then 2 else if n % 3 == 0 && n > 3 then 3 else if n % 5 == 0 && n > 5 then 5
         else if n % 7 == 0 && n > 7 then 7 else if n % 11 == 0 && n > 11 then 11
         else if n % 13 == 0 && n > 13 then 13 else 17;
  }

  lemma NotDivided(n: nat, d: nat)
    requires 2 <= d < n < 324 && !Sifted(n)
    ensures n % d != 0
  {
    hide Sifted;
    if n % d == 0 {
      var e := n / d;
      assert n == d * e;
      Factors(d, e);
    }
  }

  /** Of two factors of a number below 324, one is below 18. */
  lemma Factors(d: nat, e: nat)
    requires d * e < 324 && 2 <= d < d * e
    ensures Sifted(d * e)
  {
    hide Sifted;
    if e == 0 || e == 1 {
      assert false;
    } else if d < 18 {
      ProductSifted(d, e);
    } else {
      if e >= 18 {
        MulLe(18, d, e);
        assert false;
      }
      ProductSifted(e, d);
    }
  }

  /** All numbers from p up to q are sifted out. */
  predicate AllSifted(p: nat, q: nat)
    decreases q - p
  {
    p >= q || (Sifted(p) && AllSifted(p + 1, q))
  }

  lemma {:induction false} AllSiftedAt(p: nat, q: nat, n: nat)
    requires AllSifted(p, q) && p <= n < q
    ensures Sifted(n)
    decreases q - p
  {
    hide Sifted;
    if p < n {
      AllSiftedAt(p + 1, q, n);
    }
  }

  /** q is the next number after p that the sieve leaves. */
  predicate Follows(p: nat, q: nat) {
    p < q && !Sifted(q) && AllSifted(p + 1, q)
  }

  lemma Row0(i: nat)
    requires 0 <= i < 8
    ensures Follows(PrimeAt(i), PrimeAt(i + 1))
  {
    hide Follows;
    Gaps0();
  }

  lemma Gaps0()
    ensures Follows(2, 3) && Follows(3, 5) && Follows(5, 7) && Follows(7, 11)
    ensures Follows(11, 13) && Follows(13, 17) && Follows(17, 19) && Follows(19, 23)
  {}

  lemma Row1(i: nat)
    requires 8 <= i < 16
    ensures Follows(PrimeAt(i), PrimeAt(i + 1))
  {
    hide Follows;
    Gaps1();
  }

  lemma Gaps1()
    ensures Follows(23, 29) && Follows(29, 31) && Follows(31, 37) && Follows(37, 41)
    ensures Follows(41, 43) && Follows(43, 47) && Follows(47, 53) && Follows(53, 59)
  {}

  lemma Row2(i: nat)
    requires 16 <= i < 24
    ensures Follows(PrimeAt(i), PrimeAt(i + 1))
  {
    hide Follows;
    Gaps2();
  }

  lemma Gaps2()
    ensures Follows(59, 61) && Follows(61, 67) && Follows(67, 71) && Follows(71, 73)
    ensures Follows(73, 79) && Follows(79, 83) && Follows(83, 89) && Follows(89, 97)
  {}

  lemma Row3(i: nat)
    requires 24 <= i < 32
    ensures Follows(PrimeAt(i), PrimeAt(i + 1))
  {
    hide Follows;
    Gaps3();
  }

  lemma Gaps3()
    ensures Follows(97, 101) && Follows(101, 103) && Follows(103, 107) && Follows(107, 109)
    ensures Follows(109, 113) && Follows(113, 127) && Follows(127, 131) && Follows(131, 137)
  {}

  lemma Row4(i: nat)
    requires 32 <= i < 40
    ensures Follows(PrimeAt(i), PrimeAt(i + 1))
  {
    hide Follows;
    Gaps4();
  }

  lemma Gaps4()
    ensures Follows(137, 139) && Follows(139, 149) && Follows(149, 151) && Follows(151, 157)
    ensures Follows(157, 163) && Follows(163, 167) && Follows(167, 173) && Follows(173, 179)
  {}

  lemma Row5(i: nat)
    requires 40 <= i < 48
    ensures Follows(PrimeAt(i), PrimeAt(i + 1))
  {
    hide Follows;
    Gaps5();
  }

  lemma Gaps5()
    ensures Follows(179, 181) && Follows(181, 191) && Follows(191, 193) && Follows(193, 197)
    ensures Follows(197, 199) && Follows(199, 211) && Follows(211, 223) && Follows(223, 227)
  {}

  lemma Row6(i: nat)
    requires 48 <= i < 56
    ensures Follows(PrimeAt(i), PrimeAt(i + 1))
  {
    hide Follows;
    Gaps6();
  }

  lemma Gaps6()
    ensures Follows(227, 229) && Follows(229, 233) && Follows(233, 239) && Follows(239, 241)
    ensures Follows(241, 251) && Follows(251, 257) && Follows(257, 263) && Follows(263, 269)
  {}

  lemma Row7(i: nat)
    requires 56 <= i < 63
    ensures Follows(PrimeAt(i), PrimeAt(i + 1))
  {
    hide Follows;
    Gaps7();
  }

  lemma Gaps7()
    ensures Follows(269, 271) && Follows(271, 277) && Follows(277, 281) && Follows(281, 283)
    ensures Follows(283, 293) && Follows(293, 307) && Follows(307, 311)
  {}

  // ---------- the constants

  const TWO96: nat := 0x1_0000_0000_0000_0000_0000_0000

  /** r * 2^32 + k is the cube root of p * 2^96 rounded down: k holds the first 32 bits of the fraction of the root of p. */
  ghost predicate CubeRoot(p: nat, r: nat, k: nat) {
    var x := r * TWO32 + k;
    x * x * x <= p * TWO96 < (x + 1) * (x + 1) * (x + 1)
  }

  ghost predicate CubeRootFraction(p: nat, k: nat) { exists r: nat :: CubeRoot(p, r, k) }

  /** r * 2^32 + k is the square root of p * 2^64 rounded down. */
  ghost predicate SquareRoot(p: nat, r: nat, k: nat) {
    var x := r * TWO32 + k;
    x * x <= p * TWO64 < (x + 1) * (x + 1)
  }

  ghost predicate SquareRootFraction(p: nat, k: nat) { exists r: nat :: SquareRoot(p, r, k) }

  lemma Roots0(i: nat)
    requires 0 <= i < 8
    ensures CubeRootFraction(PrimeAt(i), K(i) as int)
  {
    assert CubeRoot(PrimeAt(0), 1, K(0) as int);
    assert CubeRoot(PrimeAt(1), 1, K(1) as int);
    assert CubeRoot(PrimeAt(2), 1, K(2) as int);
    assert CubeRoot(PrimeAt(3), 1, K(3) as int);
    assert CubeRoot(PrimeAt(4), 2, K(4) as int);
    assert CubeRoot(PrimeAt(5), 2, K(5) as int);
    assert CubeRoot(PrimeAt(6), 2, K(6) as int);
    assert CubeRoot(PrimeAt(7), 2, K(7) as int);
  }

  lemma Roots1(i: nat)
    requires 8 <= i < 16
    ensures CubeRootFraction(PrimeAt(i), K(i) as int)
  {
    assert CubeRoot(PrimeAt(8), 2, K(8) as int);
    assert CubeRoot(PrimeAt(9), 3, K(9) as int);
    assert CubeRoot(PrimeAt(10), 3, K(10) as int);
    assert CubeRoot(PrimeAt(11), 3, K(11) as int);
    assert CubeRoot(PrimeAt(12), 3, K(12) as int);
    assert CubeRoot(PrimeAt(13), 3, K(13) as int);
    assert CubeRoot(PrimeAt(14), 3, K(14) as int);
    assert CubeRoot(PrimeAt(15), 3, K(15) as int);
  }

  lemma Roots2(i: nat)
    requires 16 <= i < 24
    ensures CubeRootFraction(PrimeAt(i), K(i) as int)
  {
    assert CubeRoot(PrimeAt(16), 3, K(16) as int);
    assert CubeRoot(PrimeAt(17), 3, K(17) as int);
    assert CubeRoot(PrimeAt(18), 4, K(18) as int);
    assert CubeRoot(PrimeAt(19), 4, K(19) as int);
    assert CubeRoot(PrimeAt(20), 4, K(20) as int);
    assert CubeRoot(PrimeAt(21), 4, K(21) as int);
    assert CubeRoot(PrimeAt(22), 4, K(22) as int);
    assert CubeRoot(PrimeAt(23), 4, K(23) as int);
  }

  lemma Roots3(i: nat)
    requires 24 <= i < 32
    ensures CubeRootFraction(PrimeAt(i), K(i) as int)
  {
    assert CubeRoot(PrimeAt(24), 4, K(24) as int);
    assert CubeRoot(PrimeAt(25), 4, K(25) as int);
    assert CubeRoot(PrimeAt(26), 4, K(26) as int);
    assert CubeRoot(PrimeAt(27), 4, K(27) as int);
    assert CubeRoot(PrimeAt(28), 4, K(28) as int);
    assert CubeRoot(PrimeAt(29), 4, K(29) as int);
    assert CubeRoot(PrimeAt(30), 5, K(30) as int);
    assert CubeRoot(PrimeAt(31), 5, K(31) as int);
  }

  lemma Roots4(i: nat)
    requires 32 <= i < 40
    ensures CubeRootFraction(PrimeAt(i), K(i) as int)
  {
    assert CubeRoot(PrimeAt(32), 5, K(32) as int);
    assert CubeRoot(PrimeAt(33), 5, K(33) as int);
    assert CubeRoot(PrimeAt(34), 5, K(34) as int);
    assert CubeRoot(PrimeAt(35), 5, K(35) as int);
    assert CubeRoot(PrimeAt(36), 5, K(36) as int);
    assert CubeRoot(PrimeAt(37), 5, K(37) as int);
    assert CubeRoot(PrimeAt(38), 5, K(38) as int);
    assert CubeRoot(PrimeAt(39), 5, K(39) as int);
  }

  lemma Roots5(i: nat)
    requires 40 <= i < 48
    ensures CubeRootFraction(PrimeAt(i), K(i) as int)
  {
    assert CubeRoot(PrimeAt(40), 5, K(40) as int);
    assert CubeRoot(PrimeAt(41), 5, K(41) as int);
    assert CubeRoot(PrimeAt(42), 5, K(42) as int);
    assert CubeRoot(PrimeAt(43), 5, K(43) as int);
    assert CubeRoot(PrimeAt(44), 5, K(44) as int);
    assert CubeRoot(PrimeAt(45), 5, K(45) as int);
    assert CubeRoot(PrimeAt(46), 5, K(46) as int);
    assert CubeRoot(PrimeAt(47), 6, K(47) as int);
  }

  lemma Roots6(i: nat)
    requires 48 <= i < 56
    ensures CubeRootFraction(PrimeAt(i), K(i) as int)
  {
    assert CubeRoot(PrimeAt(48), 6, K(48) as int);
    assert CubeRoot(PrimeAt(49), 6, K(49) as int);
    assert CubeRoot(PrimeAt(50), 6, K(50) as int);
    assert CubeRoot(PrimeAt(51), 6, K(51) as int);
    assert CubeRoot(PrimeAt(52), 6, K(52) as int);
    assert CubeRoot(PrimeAt(53), 6, K(53) as int);
    assert CubeRoot(PrimeAt(54), 6, K(54) as int);
    assert CubeRoot(PrimeAt(55), 6, K(55) as int);
  }

  lemma Roots7(i: nat)
    requires 56 <= i < 64
    ensures CubeRootFraction(PrimeAt(i), K(i) as int)
  {
    assert CubeRoot(PrimeAt(56), 6, K(56) as int);
    assert CubeRoot(PrimeAt(57), 6, K(57) as int);
    assert CubeRoot(PrimeAt(58), 6, K(58) as int);
    assert CubeRoot(PrimeAt(59), 6, K(59) as int);
    assert CubeRoot(PrimeAt(60), 6, K(60) as int);
    assert CubeRoot(PrimeAt(61), 6, K(61) as int);
    assert CubeRoot(PrimeAt(62), 6, K(62) as int);
    assert CubeRoot(PrimeAt(63), 6, K(63) as int);
  }

  /** Every constant of the rounds holds the first 32 bits of the fraction of the cube root of its prime. */
  lemma KIsCubeRoot(i: nat)
    requires i < 64
    ensures CubeRootFraction(PrimeAt(i), K(i) as int)
  {
    hide CubeRootFraction, PrimeAt, K;
    if i < 8 { Roots0(i); } else if i < 16 { Roots1(i); } else if i < 24 { Roots2(i); } else if i < 32 { Roots3(i); }
    else if i < 40 { Roots4(i); } else if i < 48 { Roots5(i); } else if i < 56 { Roots6(i); } else { Roots7(i); }
  }

  /** The initial value holds those of the square roots of the first eight primes. */
  lemma IVIsSquareRoot()
    ensures SquareRootFraction(PrimeAt(0), IV.a as int) && SquareRootFraction(PrimeAt(1), IV.b as int)
    ensures SquareRootFraction(PrimeAt(2), IV.c as int) && SquareRootFraction(PrimeAt(3), IV.d as int)
    ensures SquareRootFraction(PrimeAt(4), IV.e as int) && SquareRootFraction(PrimeAt(5), IV.f as int)
    ensures SquareRootFraction(PrimeAt(6), IV.g as int) && SquareRootFraction(PrimeAt(7), IV.h as int)
  {
    assert SquareRoot(PrimeAt(0), 1, IV.a as int);
    assert SquareRoot(PrimeAt(1), 1, IV.b as int);
    assert SquareRoot(PrimeAt(2), 2, IV.c as int);
    assert SquareRoot(PrimeAt(3), 2, IV.d as int);
    assert SquareRoot(PrimeAt(4), 3, IV.e as int);
    assert SquareRoot(PrimeAt(5), 3, IV.f as int);
    assert SquareRoot(PrimeAt(6), 4, IV.g as int);
    assert SquareRoot(PrimeAt(7), 4, IV.h as int);
  }

  /** PrimeAt lists the primes: it starts with 2, and each entry is the next prime after the one before. */
  lemma PrimesInOrder(i: nat)
    requires i < 63
    ensures PrimeAt(0) == 2 && Prime(2)
    ensures var p, q := PrimeAt(i), PrimeAt(i + 1); p < q && Prime(q) && forall n | p < n < q :: !Prime(n)
  {
    hide Prime, Sifted, PrimeAt, Follows;
    Sieve(2);
    assert PrimeAt(0) == 2 && !Sifted(2) by { Start(); }
    InOrder(i);
    var p, q := PrimeAt(i), PrimeAt(i + 1);
    PrimesBelow(i);
    PrimesBelow(i + 1);
    Next(p, q);
  }

  lemma Start()
    ensures PrimeAt(0) == 2 && !Sifted(2)
  {}

  lemma PrimesBelow(i: nat)
    requires i < 64
    ensures 2 <= PrimeAt(i) < 324
  {}

  lemma Next(p: nat, q: nat)
    requires Follows(p, q) && 2 <= p && q < 324
    ensures p < q && Prime(q) && forall n | p < n < q :: !Prime(n)
  {
    hide Prime, Sifted, AllSifted;
    Sieve(q);
    forall n | p < n < q ensures !Prime(n) {
      AllSiftedAt(p + 1, q, n);
      Sieve(n);
    }
  }

  lemma InOrder(i: nat)
    requires i < 63
    ensures Follows(PrimeAt(i), PrimeAt(i + 1))
  {
    hide Follows, PrimeAt;
    if i < 8 { Row0(i); } else if i < 16 { Row1(i); } else if i < 24 { Row2(i); } else if i < 32 { Row3(i); }
    else if i < 40 { Row4(i); } else if i < 48 { Row5(i); } else if i < 56 { Row6(i); } else { Row7(i); }
  }
}
