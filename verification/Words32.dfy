/** Machine words of 32 bits: rotation, exclusive or, and addition modulo 2^32. */
module Words32 {
  function Rotr(x: bv32, n: nat): bv32
    requires 0 < n < 32
  {
    (x >> n) | (x << (32 - n))
  }

  function Rotl(x: bv32, n: nat): bv32
    requires 0 < n < 32
  {
    (x << n) | (x >> (32 - n))
  }

  function Xor32(x: bv32, y: bv32): bv32 { x ^ y }

  function Add(x: bv32, y: bv32): bv32 { x + y }

  lemma AddCommutes(x: bv32, y: bv32)
    ensures Add(x, y) == Add(y, x)
  {}

  ghost predicate IsSum(s: bv32, x: bv32, y: bv32) { s == x + y }

  lemma AddIsSum(x: bv32, y: bv32)
    ensures IsSum(Add(x, y), x, y)
  {}

  ghost predicate IsSum3(s: bv32, x: bv32, y: bv32, z: bv32) { s == x + y + z }

  lemma SumLeft(xy: bv32, x: bv32, y: bv32, z: bv32)
    requires xy == x + y
    ensures xy + z == x + y + z
  {}

  lemma SumRight(yz: bv32, x: bv32, y: bv32, z: bv32)
    requires yz == y + z
    ensures x + yz == x + y + z
  {}

  lemma IsSumLeft(xy: bv32, l: bv32, x: bv32, y: bv32, z: bv32)
    requires IsSum(xy, x, y) && IsSum(l, xy, z)
    ensures IsSum3(l, x, y, z)
  {
    SumLeft(xy, x, y, z);
  }

  lemma IsSumRight(yz: bv32, r: bv32, x: bv32, y: bv32, z: bv32)
    requires IsSum(yz, y, z) && IsSum(r, x, yz)
    ensures IsSum3(r, x, y, z)
  {
    SumRight(yz, x, y, z);
  }

  lemma OneSum(l: bv32, r: bv32, x: bv32, y: bv32, z: bv32)
    requires IsSum3(l, x, y, z) && IsSum3(r, x, y, z)
    ensures l == r
  {}

  lemma AddAssoc(x: bv32, y: bv32, z: bv32)
    ensures Add(Add(x, y), z) == Add(x, Add(y, z))
  {
    hide Add, IsSum, IsSum3;
    AddIsSum(x, y);
    AddIsSum(y, z);
    AddIsSum(Add(x, y), z);
    AddIsSum(x, Add(y, z));
    IsSumLeft(Add(x, y), Add(Add(x, y), z), x, y, z);
    IsSumRight(Add(y, z), Add(x, Add(y, z)), x, y, z);
    OneSum(Add(Add(x, y), z), Add(x, Add(y, z)), x, y, z);
  }
}
