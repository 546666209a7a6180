/** What HMAC and PBKDF2 hash, with their constants written out. */
module Pbkdf2Laws {
  import opened ByteBuffers
  import opened GaloisField
  import opened XorBytes
  import opened Sha256Stream
  import opened Pbkdf2

  /** Section 2 of RFC 2104: the inner pad is the byte 0x36 repeated 64 times, the outer one 0x5C; a short key is followed
      by zeroes, a key longer than a block by its hash. */
  lemma PadsByIndex(key: seq<bv8>, i: nat)
    requires i < 64
    ensures var k := if |key| <= 64 then key else Sha256(key);
            var b := if i < |k| then k[i] else 0;
            && XorBlocks(BlockKey(key), Repeat(0x36))[i] == Xor(b, 0x36)
            && XorBlocks(BlockKey(key), Repeat(0x5C))[i] == Xor(b, 0x5C)
  {
    hide Xor, Sha256;
  }

  /** HMAC from pads given byte by byte. */
  lemma HmacFromPads(key: seq<bv8>, text: seq<bv8>, inner: seq<bv8>, outer: seq<bv8>)
    requires |inner| == |outer| == 64
    requires var k := if |key| <= 64 then key else Sha256(key);
             forall i | 0 <= i < 64 :: var b := if i < |k| then k[i] else 0; inner[i] == Xor(b, 0x36) && outer[i] == Xor(b, 0x5C)
    ensures Hmac(key, text) == Sha256(outer + Sha256(inner + text))
  {
    hide Xor, Sha256, XorBlocks;
    PadLength(key);
    forall i | 0 <= i < 64
      ensures inner[i] == XorBlocks(BlockKey(key), Repeat(0x36))[i] && outer[i] == XorBlocks(BlockKey(key), Repeat(0x5C))[i]
    {
      PadsByIndex(key, i);
    }
    assert inner == XorBlocks(BlockKey(key), Repeat(0x36)) && outer == XorBlocks(BlockKey(key), Repeat(0x5C));
  }

  lemma PadLength(key: seq<bv8>)
    ensures |XorBlocks(BlockKey(key), Repeat(0x36))| == |XorBlocks(BlockKey(key), Repeat(0x5C))| == 64
  {}

  /** Section 5.2 of RFC 8018, for 64 bytes after two iterations: two blocks, numbered from one, each the sum of the HMAC of
      salt and number and of the HMAC of that. */
  lemma TwoBlocks(p: seq<bv8>, s: seq<bv8>)
    ensures var u1, v1 := Hmac(p, s + [0, 0, 0, 1]), Hmac(p, s + [0, 0, 0, 2]);
            Pbkdf2.Pbkdf2(p, s, 2, 64) == XorBlocks(u1, Hmac(p, u1)) + XorBlocks(v1, Hmac(p, v1))
  {
    hide Hmac, XorBlocks, NumberBytes;
    Numbers();
    TwoTurns(p, s, 1);
    TwoTurns(p, s, 2);
    assert T(p, s, 2, 1) == F(p, s, 2, 1);
    assert T(p, s, 2, 2) == F(p, s, 2, 1) + F(p, s, 2, 2);
  }

  lemma Numbers()
    ensures NumberBytes(1) == [0, 0, 0, 1] && NumberBytes(2) == [0, 0, 0, 2]
  {}

  lemma TwoTurns(p: seq<bv8>, s: seq<bv8>, i: nat)
    requires 0 < i < TWO32
    ensures var u := Hmac(p, s + NumberBytes(i)); F(p, s, 2, i) == XorBlocks(u, Hmac(p, u))
  {
    hide Hmac, XorBlocks, NumberBytes;
    assert U(p, s, i, 1) == Hmac(p, s + NumberBytes(i));
  }
}
