/** Keyed BLAKE2s with a buffer of two blocks that is compressed as late as possible, against RFC 7693. */
module Blake2s {
  import opened Blake2sCompression
  import opened ByteBuffers
  import FastKdf

  const BLOCK: nat := 64

  /** The first chaining value: the parameter block holds digest length, key length, fanout and depth. */
  function Start(outputSize: nat, keySize: nat): (h: Words)
    requires outputSize < 256 && keySize < 256
    ensures |h| == 8
  {
    [IV[0] ^ 0x0101_0000 ^ (ByteOf(keySize) as bv32 << 8) ^ (ByteOf(outputSize) as bv32)] + IV[1..]
  }

  function WordAt(b: seq<bv8>, i: nat): bv32
    requires 4 * i + 4 <= |b|
  {
    (b[4 * i] as bv32) | (b[4 * i + 1] as bv32 << 8) | (b[4 * i + 2] as bv32 << 16) | (b[4 * i + 3] as bv32 << 24)
  }

  /** A block as sixteen words, the lowest byte of each first. */
  function BlockWords(b: seq<bv8>): (m: Words)
    requires |b| == BLOCK
    ensures |m| == 16
  {
    seq(16, i requires 0 <= i < 16 => WordAt(b, i))
  }

  // ---------- the standard

  /** The chaining value after all blocks but the last, n bytes having gone before. The count of bytes has two words in
      the standard; `limit` is 2^64 for it, and 2^32 for a count that keeps only the low word. */
  function Body(limit: nat, h: Words, n: nat, m: seq<bv8>): (r: Words)
    requires |h| == 8 && 0 < limit <= TWO64
    ensures |r| == 8
    decreases |m|
  {
    if |m| <= BLOCK then h else
      Body(limit, F(h, BlockWords(m[..BLOCK]), (n + BLOCK) % limit, false), n + BLOCK, m[BLOCK..])
  }

  /** The last block, which is empty only if the message is. */
  function Last(m: seq<bv8>): (r: seq<bv8>)
    ensures |r| <= BLOCK && (m != [] ==> r != [])
  {
    if |m| <= BLOCK then m else Last(m[BLOCK..])
  }

  /** BLAKE2s of section 3.3 of RFC 7693, for the limit 2^64. */
  function Hash(limit: nat, h: Words, m: seq<bv8>): (r: Words)
    requires |h| == 8 && 0 < limit <= TWO64
    ensures |r| == 8
  {
    F(Body(limit, h, 0, m), BlockWords(Last(m) + Zeroes(BLOCK - |Last(m)|)), |m| % limit, true)
  }

  /** The keyed hash: the key, filled up to a block, goes before the message. */
  function Keyed(limit: nat, input: seq<bv8>, key: seq<bv8>, outputSize: nat): (h: Words)
    requires |key| <= BLOCK && outputSize < 256 && 0 < limit <= TWO64
    ensures |h| == 8
  {
    Hash(limit, Start(outputSize, |key|), key + Zeroes(BLOCK - |key|) + input)
  }

  lemma {:induction false} BodyWithinLimit(h: Words, n: nat, m: seq<bv8>)
    requires |h| == 8 && n + |m| < TWO32
    ensures Body(TWO32, h, n, m) == Body(TWO64, h, n, m)
    decreases |m|
  {
    hide F, BlockWords;
    if |m| > BLOCK {
      assert (n + BLOCK) % TWO32 == n + BLOCK == (n + BLOCK) % TWO64;
      BodyWithinLimit(F(h, BlockWords(m[..BLOCK]), n + BLOCK, false), n + BLOCK, m[BLOCK..]);
    }
  }

  /** Below 2^32 bytes the low word of the count is the count, and the hash is that of the standard. */
  lemma HashWithinLimit(h: Words, m: seq<bv8>)
    requires |h| == 8 && |m| < TWO32
    ensures Hash(TWO32, h, m) == Hash(TWO64, h, m)
  {
    hide F, BlockWords, Body, Last;
    BodyWithinLimit(h, 0, m);
    assert |m| % TWO32 == |m| == |m| % TWO64;
  }

  function WordBytes(w: bv32): (p: seq<bv8>)
    ensures |p| == 4
  {
    [(w & 0xFF) as bv8, ((w >> 8) & 0xFF) as bv8, ((w >> 16) & 0xFF) as bv8, ((w >> 24) & 0xFF) as bv8]
  }

  function Bytes(h: Words): (p: seq<bv8>)
    ensures |p| == 4 * |h|
  {
    if h == [] then [] else WordBytes(h[0]) + Bytes(h[1..])
  }

  /** The pseudorandom function of FastKDF: keyed BLAKE2s of the standard, 32 bytes under 32 bytes. */
  function Prf(): FastKdf.Prf {
    (input, key) => if |key| == FastKdf.KEY then Bytes(Keyed(TWO64, input, key, FastKdf.OUT)) else []
  }

  lemma PrfGivesOutput()
    ensures FastKdf.IsPrf(Prf())
  {
    hide Bytes, Keyed;
  }

  // ---------- what has been compressed, in whole blocks

  function Blocks(h: Words, n: nat, m: seq<bv8>): (r: Words)
    requires |h| == 8
    ensures |r| == 8
    decreases |m|
  {
    if |m| < BLOCK then h else
      Blocks(F(h, BlockWords(m[..BLOCK]), (n + BLOCK) % TWO32, false), n + BLOCK, m[BLOCK..])
  }

  ghost predicate WholeBlocks(m: seq<bv8>)
    decreases |m|
  {
    m == [] || (|m| >= BLOCK && WholeBlocks(m[BLOCK..]))
  }

  lemma {:induction false} OneMore(h: Words, n: nat, done: seq<bv8>, block: seq<bv8>)
    requires WholeBlocks(done) && |block| == BLOCK && |h| == 8
    ensures WholeBlocks(done + block)
    ensures Blocks(h, n, done + block) == F(Blocks(h, n, done), BlockWords(block), (n + |done| + BLOCK) % TWO32, false)
    decreases |done|
  {
    hide F, BlockWords;
    if done == [] {
      assert done + block == block && block[..BLOCK] == block && block[BLOCK..] == [];
    } else {
      OneMore(F(h, BlockWords(done[..BLOCK]), (n + BLOCK) % TWO32, false), n + BLOCK, done[BLOCK..], block);
      assert (done + block)[..BLOCK] == done[..BLOCK] && (done + block)[BLOCK..] == done[BLOCK..] + block;
    }
  }

  /** Blocks with something behind them belong to the body. */
  lemma {:induction false} BodyOfRest(h: Words, n: nat, done: seq<bv8>, rest: seq<bv8>)
    requires WholeBlocks(done) && 0 < |rest| <= BLOCK && |h| == 8
    ensures Body(TWO32, h, n, done + rest) == Blocks(h, n, done) && Last(done + rest) == rest
    decreases |done|
  {
    hide F, BlockWords;
    if done == [] {
      assert done + rest == rest;
    } else {
      BodyOfRest(F(h, BlockWords(done[..BLOCK]), (n + BLOCK) % TWO32, false), n + BLOCK, done[BLOCK..], rest);
      assert (done + rest)[..BLOCK] == done[..BLOCK] && (done + rest)[BLOCK..] == done[BLOCK..] + rest;
    }
  }

  // ---------- the state

  class State {
    var h: Words
    var t: nat
    const buf: array<bv8>
    var buflen: nat
    ghost const start: Words
    ghost var done: seq<bv8>

    /** Whole blocks have been compressed; up to two more are buffered. */
    ghost predicate Valid()
      reads this, buf
    {
      && buf.Length == 2 * BLOCK && buflen <= 2 * BLOCK
      && WholeBlocks(done) && (done != [] ==> buflen > 0)
      && |start| == 8 && h == Blocks(start, 0, done)
      && t == |done| % TWO32
    }

    /** All bytes taken so far. */
    ghost function Message(): seq<bv8>
      requires Valid()
      reads this, buf
    {
      done + buf[..buflen]
    }

    constructor (h: Words)
      requires |h| == 8
      ensures Valid() && fresh(buf) && Message() == [] && start == h
    {
      this.h, t, buflen, start, done := h, 0, 0, h, [];
      buf := new bv8[2 * BLOCK];
    }

    /** Compresses the first block of the buffer and moves the rest down. */
    method CompressFirst()
      requires Valid() && buflen > BLOCK
      modifies this, buf
      ensures Valid() && Message() == old(Message()) && buflen == old(buflen) - BLOCK
    {
      hide Blocks, WholeBlocks, Stored, F, BlockWords;
      ghost var m, block, rest := Message(), buf[..BLOCK], buf[BLOCK..buflen];
      OneMore(start, 0, done, block);
      CountUp(|done|);
      t := (t + BLOCK) % TWO32;
      h := Compress(h, t, 0, BlockWords(buf[..BLOCK]));
      done := done + block;
      assert m == done + rest;
      buflen := buflen - BLOCK;
      StoredPrefix(buf[..], 0, buf[BLOCK..BLOCK + buflen]);
      Store(buf, 0, buf[BLOCK..BLOCK + buflen]);
      assert buf[..buflen] == rest;
    }

    method Append(piece: seq<bv8>)
      requires Valid() && buflen + |piece| <= 2 * BLOCK
      modifies this`buflen, buf
      ensures Valid() && Message() == old(Message()) + piece && buflen == old(buflen) + |piece|
    {
      hide Blocks, WholeBlocks, Stored;
      StoredPrefix(buf[..], buflen, piece);
      Store(buf, buflen, piece);
      buflen := buflen + |piece|;
      assert buf[..buflen] == old(buf[..buflen]) + piece;
    }

    /** blake2s_update. */
    method Update(input: seq<bv8>)
      requires Valid()
      modifies this, buf
      ensures Valid() && Message() == old(Message()) + input
    {
      hide Blocks, WholeBlocks;
      ghost var m := Message();
      var rest := input;
      while |rest| > 0
        invariant Valid() && m + input == Message() + rest
        decreases |rest|, buflen
      {
        var fill := 2 * BLOCK - buflen;
        if |rest| > fill {
          Append(rest[..fill]);
          CompressFirst();
          rest := rest[fill..];
        } else {
          Append(rest);
          rest := [];
        }
      }
    }

    /** The end of neoscrypt_blake2s: the last block, filled up with zeroes, under the last-block flag. */
    method Finish() returns (hash: Words)
      requires Valid() && Message() != []
      modifies this, buf
      ensures hash == Hash(TWO32, start, old(Message()))
      ensures old(|Message()|) < TWO32 ==> hash == Hash(TWO64, start, old(Message()))
    {
      hide Blocks, WholeBlocks, Body, Last, Stored, F, BlockWords;
      ghost var m := Message();
      if buflen > BLOCK {
        CompressFirst();
      }
      ghost var rest := buf[..buflen];
      BodyOfRest(start, 0, done, rest);
      if |m| < TWO32 {
        HashWithinLimit(start, m);
      }
      CountOn(|done|, buflen);
      t := (t + buflen) % TWO32;
      StoredPrefix(buf[..], buflen, Zeroes(2 * BLOCK - buflen));
      Store(buf, buflen, Zeroes(2 * BLOCK - buflen));
      assert buf[..] == buf[..2 * BLOCK];
      assert buf[..BLOCK] == rest + Zeroes(BLOCK - buflen);
      hash := Compress(h, t, 0xFFFF_FFFF, BlockWords(buf[..BLOCK]));
    }
  }

  lemma CountUp(n: nat)
    ensures (n % TWO32 + BLOCK) % TWO32 == (n + BLOCK) % TWO32
  {}

  lemma CountOn(n: nat, k: nat)
    ensures (n % TWO32 + k) % TWO32 == (n + k) % TWO32
  {}

  /** neoscrypt_blake2s. */
  method Blake2s(input: seq<bv8>, key: seq<bv8>, outputSize: nat) returns (output: seq<bv8>)
    requires |key| <= BLOCK && 0 < outputSize <= 32
    ensures |output| == outputSize && output <= Bytes(Keyed(TWO32, input, key, outputSize))
    ensures BLOCK + |input| < TWO32 ==> output <= Bytes(Keyed(TWO64, input, key, outputSize))
  {
    hide Bytes, Start, Hash, State.Valid;
    var S := new State(Start(outputSize, |key|));
    S.Update(key + Zeroes(BLOCK - |key|));
    S.Update(input);
    assert [] + (key + Zeroes(BLOCK - |key|)) + input == key + Zeroes(BLOCK - |key|) + input;
    var h := S.Finish();
    output := Bytes(h)[..outputSize];
  }

  /** FastKDF over BLAKE2s, as NeoScrypt uses it. */
  method FastKdfOverBlake2s(password: seq<bv8>, salt: seq<bv8>, N: nat, output: array<bv8>)
    requires |password| >= FastKdf.INPUT && |salt| >= FastKdf.KEY
    modifies output
    ensures var key := FastKdf.Kdf(Prf(), password, salt, N, output.Length);
            |key| <= output.Length && output[..] == Stored(old(output[..]), 0, key)
  {
    PrfGivesOutput();
    FastKdf.FastKdf(Prf(), password, salt, N, output);
  }
}
