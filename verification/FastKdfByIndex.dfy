/** FastKDF byte by byte. */
module FastKdfByIndex {
  import opened Positional
  import opened ByteBuffers
  import GaloisField
  import opened XorBytes
  import opened FastKdf

  /** One iteration: the function gets 64 bytes of the password ring and 32 of the salt ring from the read position on;
      the sum of its bytes, modulo 256, is the next position, and there its 32 bytes are added to the salt ring. */
  lemma TurnByIndex(prf: Prf, a: seq<bv8>, r: Ring, x: seq<bv8>, k: seq<bv8>)
    requires IsPrf(prf) && IsRing(r) && |a| == 256 && |x| == 64 && |k| == 32
    requires forall j | 0 <= j < 64 :: x[j] == a[(r.at + j) % 256]
    requires forall j | 0 <= j < 32 :: k[j] == r.b[(r.at + j) % 256]
    ensures var out, t := prf(x, k), Turn(prf, a, r);
            && |out| == 32 && IsRing(t) && t.at == Sum(out) % 256
            && (forall j | 0 <= j < 32 :: t.b[(t.at + j) % 256] == GaloisField.Xor(r.b[(t.at + j) % 256], out[j]))
            && (forall i | 0 <= i < 256 && (i + 256 - t.at) % 256 >= 32 :: t.b[i] == r.b[i])
  {
    hide GaloisField.Xor, Sum, Cyclic, CyclicXor;
    CyclicIs(a, r.at, x);
    CyclicIs(r.b, r.at, k);
    var out := prf(x, k);
    var at := Wrap(Sum(out));
    WrapIs(Sum(out));
    forall j | 0 <= j < 32 ensures CyclicXor(r.b, at, out)[(at + j) % 256] == GaloisField.Xor(r.b[(at + j) % 256], out[j]) {
      DistanceBack(at, j);
      XorAtIndex(r.b, at, out, (at + j) % 256);
    }
    forall i | 0 <= i < 256 && (i + 256 - at) % 256 >= 32 ensures CyclicXor(r.b, at, out)[i] == r.b[i] {
      XorAtIndex(r.b, at, out, i);
    }
  }

  lemma WrapIs(k: nat)
    ensures Wrap(k) == k % 256
  {}

  lemma CyclicIs(b: seq<bv8>, at: nat, x: seq<bv8>)
    requires |b| == 256 && forall j | 0 <= j < |x| :: x[j] == b[(at + j) % 256]
    ensures x == Cyclic(b, at, |x|)
  {
    hide Wrap;
    forall j | 0 <= j < |x| ensures x[j] == Cyclic(b, at, |x|)[j] {
      WrapIs(at + j);
    }
  }

  lemma XorAtIndex(b: seq<bv8>, at: nat, s: seq<bv8>, i: nat)
    requires |b| == 256 && at < 256 && i < 256
    ensures var k := (i + 256 - at) % 256; CyclicXor(b, at, s)[i] == if k < |s| then GaloisField.Xor(b[i], s[k]) else b[i]
  {
    hide Wrap, GaloisField.Xor;
    WrapIs(i + SIZE - at);
  }

  lemma DistanceBack(at: nat, j: nat)
    requires at < 256 && j < 32
    ensures ((at + j) % 256 + 256 - at) % 256 == j
  {}

  /** Sum adds up the bytes. */
  lemma SumOf(s: seq<bv8>, b: bv8)
    ensures Sum([]) == 0 && Sum(s + [b]) == Sum(s) + b as int
  {
    assert (s + [b])[..|s|] == s;
  }

  /** The key: the salt ring from the last position on, added to the repeated password. */
  lemma KeyByIndex(prf: Prf, password: seq<bv8>, salt: seq<bv8>, n: nat, length: nat, k: nat)
    requires 0 < |password| <= 256 && 0 < |salt| <= 256 && k < length && k < 256
    ensures var key, r := Kdf(prf, password, salt, n, length), Turns(prf, Filled(password), Filled(salt), n);
            key[k] == GaloisField.Xor(r.b[(r.at + k) % 256], password[k % |password|])
  {
    hide GaloisField.Xor, Turns;
  }

  /** Without iterations it is the repeated salt added to the repeated password. */
  lemma KeyWithoutTurns(prf: Prf, password: seq<bv8>, salt: seq<bv8>, length: nat, k: nat)
    requires 0 < |password| <= 256 && 0 < |salt| <= 256 && k < length && k < 256
    ensures Kdf(prf, password, salt, 0, length)[k] == GaloisField.Xor(salt[k % |salt|], password[k % |password|])
  {
    hide GaloisField.Xor;
    KeyByIndex(prf, password, salt, 0, length, k);
  }
}
