/** What the bytes of SHA-256 mean: big-endian words, and the length in the last eight bytes of the padding. */
module Sha256Bytes {
  import opened Words32
  import opened WordValues
  import opened ByteBuffers
  import opened Sha256Stream

  /** Four bytes as a number: the first counts for most. */
  lemma WordAtValue(p: seq<bv8>, i: nat)
    requires 4 * i + 4 <= |p|
    ensures Value(WordAt(p, i)) == ((p[4 * i] as int * 0x100 + p[4 * i + 1] as int) * 0x100 + p[4 * i + 2] as int) * 0x100
                                   + p[4 * i + 3] as int
  {
    hide Value;
    BytesValue(p[4 * i], p[4 * i + 1], p[4 * i + 2], p[4 * i + 3]);
  }

  /** Taking a word apart and putting it together undo each other. */
  lemma WordBytesInverse(w: bv32, p: seq<bv8>)
    requires |p| == 4
    ensures WordAt(WordBytes(w), 0) == w && WordBytes(WordAt(p, 0)) == p
  {}

  /** The eight bytes of a length, as two words, denote it. */
  lemma LengthBytesValue(n: nat)
    requires n < TWO64
    ensures Value(WordAt(LengthBytes(n), 0)) * TWO32 + Value(WordAt(LengthBytes(n), 1)) == n
  {
    hide Value, WordAt, WordBytes;
    var p, q := NumberBytes(n / TWO32), NumberBytes(n % TWO32);
    NumberBytesValue(n / TWO32);
    NumberBytesValue(n % TWO32);
    WordOfPart(p, q);
  }

  lemma WordOfPart(p: seq<bv8>, q: seq<bv8>)
    requires |p| == |q| == 4
    ensures WordAt(p + q, 0) == WordAt(p, 0) && WordAt(p + q, 1) == WordAt(q, 0)
  {}

  lemma NumberBytesValue(n: nat)
    requires n < TWO32
    ensures Value(WordAt(NumberBytes(n), 0)) == n
  {
    hide Value, WordAt, WordBytes;
    ValueOfWord(n);
    WordBytesInverse(WordOf(n), WordBytes(WordOf(n)));
  }
}
