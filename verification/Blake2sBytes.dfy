/** What the bytes of BLAKE2s mean: little-endian words, and the parameter block in the first chaining value. */
module Blake2sBytes {
  import opened Words32
  import opened WordValues
  import opened ByteBuffers
  import opened Blake2sCompression
  import opened Blake2s

  /** Four bytes as a number: the last counts for most. */
  lemma WordAtValue(b: seq<bv8>, i: nat)
    requires 4 * i + 4 <= |b|
    ensures Value(WordAt(b, i)) == b[4 * i] as int
      + 0x100 * (b[4 * i + 1] as int + 0x100 * (b[4 * i + 2] as int + 0x100 * (b[4 * i + 3] as int)))
  {
    hide Value;
    LittleValue(b[4 * i], b[4 * i + 1], b[4 * i + 2], b[4 * i + 3]);
  }

  lemma LittleValue(b0: bv8, b1: bv8, b2: bv8, b3: bv8)
    ensures Value((b0 as bv32) | (b1 as bv32 << 8) | (b2 as bv32 << 16) | (b3 as bv32 << 24))
         == b0 as int + 0x100 * (b1 as int + 0x100 * (b2 as int + 0x100 * (b3 as int)))
  {}

  /** The first word of the chaining value: the bytes of the parameter block, digest length, key length, fanout 1 and
      depth 1, added to the first word of the IV. The other words are those of the IV. */
  lemma StartHoldsParameters(outputSize: nat, keySize: nat)
    requires outputSize < 256 && keySize < 256
    ensures Start(outputSize, keySize)[0] == Xor32(0x6A09E667, WordAt([ByteOf(outputSize), ByteOf(keySize), 1, 1], 0))
    ensures Start(outputSize, keySize)[1..] == IV[1..]
  {
    ParameterBytes(ByteOf(outputSize), ByteOf(keySize));
  }

  lemma ParameterBytes(o: bv8, k: bv8)
    ensures 0x6A09E667 ^ 0x0101_0000 ^ ((k as bv32) << 8) ^ (o as bv32)
         == 0x6A09E667 ^ ((o as bv32) | (k as bv32 << 8) | (1 << 16) | (1 << 24))
  {}

  /** Taking a word apart and putting it together undo each other. */
  lemma WordBytesInverse(w: bv32, p: seq<bv8>)
    requires |p| == 4
    ensures WordAt(WordBytes(w), 0) == w && WordBytes(WordAt(p, 0)) == p
  {}
}
