/** Comparison of integers, and the bitwise and of natural numbers. */
module Numbers {
  import opened Positional

  function Min(a: int, b: int): int { if a < b then a else b }

  function Max(a: int, b: int): int { if a < b then b else a }

  function BitAnd(a: nat, b: nat): nat {
    if a == 0 || b == 0 then 0 else (if a % 2 == 1 && b % 2 == 1 then 1 else 0) + 2 * BitAnd(a / 2, b / 2)
  }

  ghost predicate IsPowerOfTwo(n: nat) {
    exists k: nat :: n == Pow(2, k)
  }

  /** A mask one below a power of two leaves the remainder. */
  lemma {:induction false} MaskIsRemainder(a: nat, k: nat)
    ensures Pow(2, k) > 0 && BitAnd(a, Pow(2, k) - 1) == a % Pow(2, k)
  {
    if k > 0 {
      MaskIsRemainder(a / 2, k - 1);
      HalveRemainder(a, Pow(2, k - 1));
      HalveMask(Pow(2, k - 1));
    }
  }

  lemma HalveMask(p: nat)
    requires p > 0
    ensures (2 * p - 1) / 2 == p - 1 && (2 * p - 1) % 2 == 1
  {}

  lemma HalveRemainder(a: nat, p: nat)
    requires p > 0
    ensures a % (2 * p) == a % 2 + 2 * ((a / 2) % p)
  {
    var q, r := (a / 2) / p, (a / 2) % p;
    assert a / 2 == q * p + r;
    MulAssoc(2, q, p);
    assert q * (2 * p) == 2 * (q * p);
    DivUnique(a, 2 * p, q, a % 2 + 2 * r);
  }
}
