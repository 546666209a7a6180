/** SHA-256 of a message that arrives in pieces. */
module Sha256Stream {
  import opened Positional
  import opened ByteBuffers
  import opened Sha256Compression

  const BLOCK: nat := 64
  const DIGEST: nat := 32
  const TWO32: nat := 0x1_0000_0000
  const TWO64: nat := 0x1_0000_0000_0000_0000

  /** The initial value of section 5.3.3 of FIPS 180-4. */
  const IV := Chain(0x6a09e667, 0xbb67ae85, 0x3c6ef372, 0xa54ff53a, 0x510e527f, 0x9b05688c, 0x1f83d9ab, 0x5be0cd19)

  // ---------- bytes and words, big-endian

  function WordAt(p: seq<bv8>, i: nat): bv32
    requires 4 * i + 4 <= |p|
  {
    (p[4 * i] as bv32 << 24) | (p[4 * i + 1] as bv32 << 16) | (p[4 * i + 2] as bv32 << 8) | (p[4 * i + 3] as bv32)
  }

  function WordsOf(p: seq<bv8>): (m: seq<bv32>)
    requires |p| == BLOCK
    ensures |m| == 16
  {
    seq(16, i requires 0 <= i < 16 => WordAt(p, i))
  }

  function WordBytes(w: bv32): (p: seq<bv8>)
    ensures |p| == 4
  {
    [((w >> 24) & 0xFF) as bv8, ((w >> 16) & 0xFF) as bv8, ((w >> 8) & 0xFF) as bv8, (w & 0xFF) as bv8]
  }

  function NumberBytes(n: nat): (p: seq<bv8>)
    requires n < TWO32
    ensures |p| == 4
  {
    WordBytes(n as bv32)
  }

  /** U64TO8_BE. */
  function LengthBytes(n: nat): (p: seq<bv8>)
    requires n < TWO64
    ensures |p| == 8
  {
    NumberBytes(n / TWO32) + NumberBytes(n % TWO32)
  }

  function Digest(s: Chain): (p: seq<bv8>)
    ensures |p| == DIGEST
  {
    WordBytes(s.a) + WordBytes(s.b) + WordBytes(s.c) + WordBytes(s.d) +
    WordBytes(s.e) + WordBytes(s.f) + WordBytes(s.g) + WordBytes(s.h)
  }

  // ---------- the standard

  /** The number of zero bytes of the padding of section 5.1.1. */
  function ZeroCount(n: nat): (z: nat) {
    (119 - n % BLOCK) % BLOCK
  }

  /** The message followed by 0x80, zeroes and its length in bits. */
  function Pad(m: seq<bv8>): seq<bv8> {
    m + [0x80] + Zeroes(ZeroCount(|m|)) + LengthBytes(8 * |m| % TWO64)
  }

  /** The padding is the shortest that fills up a block. */
  lemma PadFillsBlocks(m: seq<bv8>)
    ensures |Pad(m)| % BLOCK == 0 && |Pad(m)| < |m| + 9 + BLOCK
  {
    hide LengthBytes, Zeroes;
    ZeroesFill(|m|, |m| / BLOCK, |m| % BLOCK);
  }

  lemma ZeroesFill(n: nat, q: nat, r: nat)
    requires n == BLOCK * q + r && r < BLOCK
    ensures ZeroCount(n) < BLOCK && (n + 9 + ZeroCount(n)) % BLOCK == 0
  {
    DivUnique(n, BLOCK, q, r);
    DivUnique(n + 9 + ZeroCount(n), BLOCK, if r <= 55 then q + 1 else q + 2, 0);
  }

  /** The chaining value after the whole blocks of m. */
  function Absorb(s: Chain, m: seq<bv8>): Chain
    decreases |m|
  {
    if |m| < BLOCK then s else Absorb(Compress(s, WordsOf(m[..BLOCK])), m[BLOCK..])
  }

  /** What the whole blocks of m leave over. */
  function Tail(m: seq<bv8>): (t: seq<bv8>)
    ensures |t| < BLOCK && |t| <= |m|
  {
    if |m| < BLOCK then m else Tail(m[BLOCK..])
  }

  function Sha256(m: seq<bv8>): (hash: seq<bv8>)
    ensures |hash| == DIGEST
  {
    Digest(Absorb(IV, Pad(m)))
  }

  lemma {:induction false} AbsorbInPieces(s: Chain, a: seq<bv8>, b: seq<bv8>)
    ensures Absorb(s, a + b) == Absorb(Absorb(s, a), Tail(a) + b) && Tail(a + b) == Tail(Tail(a) + b)
    decreases |a|
  {
    hide Compress, WordsOf;
    if |a| >= BLOCK {
      AbsorbInPieces(Compress(s, WordsOf(a[..BLOCK])), a[BLOCK..], b);
      assert (a + b)[..BLOCK] == a[..BLOCK] && (a + b)[BLOCK..] == a[BLOCK..] + b;
    }
  }

  lemma {:induction false} TailLength(m: seq<bv8>)
    ensures |Tail(m)| == |m| % BLOCK
  {
    if |m| >= BLOCK {
      TailLength(m[BLOCK..]);
      assert |m| % BLOCK == (|m| - BLOCK) % BLOCK;
    }
  }

  lemma AbsorbBlock(s: Chain, b: seq<bv8>)
    requires |b| == BLOCK
    ensures Absorb(s, b) == Compress(s, WordsOf(b))
  {
    hide Compress, WordsOf;
    assert b[..BLOCK] == b;
  }

  /** Whole blocks in front are absorbed and leave nothing over. */
  lemma AbsorbWhole(s: Chain, b: seq<bv8>, rest: seq<bv8>)
    requires |b| % BLOCK == 0
    ensures Absorb(s, b + rest) == Absorb(Absorb(s, b), rest) && Tail(b + rest) == Tail(rest)
  {
    hide Absorb, Tail;
    TailLength(b);
    AbsorbInPieces(s, b, rest);
    assert [] + rest == rest;
  }

  lemma AbsorbShort(s: Chain, m: seq<bv8>)
    requires |m| < BLOCK
    ensures Absorb(s, m) == s && Tail(m) == m
  {}

  lemma ModAdd(a: nat, b: nat, m: nat)
    requires m > 0
    ensures (a % m + b) % m == (a + b) % m
  {
    hide *;
    var q, r := a / m, a % m;
    var p, t := (r + b) / m, (r + b) % m;
    assert a == q * m + r && r + b == p * m + t;
    MulAdd(m, q, p);
    DivUnique(a + b, m, q + p, t);
  }

  // ---------- the streaming state

  class HashState {
    var H: Chain
    var T: nat
    var leftover: nat
    const buffer: array<bv8>
    ghost var message: seq<bv8>

    /** The chaining value, the bit count (a 64-bit counter) and the buffered bytes are those of the message so far. */
    ghost predicate Valid()
      reads this, buffer
    {
      && buffer.Length == BLOCK
      && H == Absorb(IV, message)
      && leftover == |Tail(message)|
      && buffer[..leftover] == Tail(message)
      && T == 8 * (|message| - leftover) % TWO64
    }

    constructor ()
      ensures Valid() && fresh(buffer) && message == []
    {
      H, T, leftover, message := IV, 0, 0, [];
      buffer := new bv8[BLOCK];
    }

    /** The assignment of one state to another. */
    constructor Copy(s: HashState)
      requires s.Valid()
      ensures Valid() && fresh(buffer) && message == s.message
    {
      hide Absorb, Tail;
      H, T, leftover, message := s.H, s.T, s.leftover, s.message;
      buffer := new bv8[BLOCK];
      new;
      Store(buffer, 0, s.buffer[..]);
      assert buffer[..] == s.buffer[..];
    }

    /** sha256_blocks: whole blocks go into the chaining value and the bit count. */
    method Blocks(input: seq<bv8>, blocks: nat)
      requires |input| == BLOCK * blocks && T < TWO64
      modifies this`H, this`T
      ensures H == Absorb(old(H), input)
      ensures T == (old(T) + 8 * |input|) % TWO64
    {
      hide Absorb, Tail, Compress, WordsOf;
      var i := 0;
      AbsorbShort(H, []);
      while i < blocks
        invariant 0 <= i <= blocks
        invariant H == Absorb(old(H), input[..BLOCK * i])
        invariant T == (old(T) + 8 * (BLOCK * i)) % TWO64
      {
        var block := input[BLOCK * i..BLOCK * i + BLOCK];
        assert input[..BLOCK * (i + 1)] == input[..BLOCK * i] + block;
        DivUnique(BLOCK * i, BLOCK, i, 0);
        AbsorbWhole(old(H), input[..BLOCK * i], block);
        AbsorbBlock(H, block);
        H := BlockByTable(H, WordsOf(block));
        ModAdd(old(T) + 8 * (BLOCK * i), 8 * BLOCK, TWO64);
        T := (T + 8 * BLOCK) % TWO64;
        i := i + 1;
      }
      assert input[..BLOCK * i] == input;
    }

    /** memcpy into the buffer, on what stands before it. */
    method Put(at: nat, piece: seq<bv8>)
      requires buffer.Length == BLOCK && at + |piece| <= BLOCK
      modifies buffer
      ensures buffer[..at + |piece|] == old(buffer[..at]) + piece
      ensures at + |piece| == BLOCK ==> buffer[..] == old(buffer[..at]) + piece
    {
      StoredPrefix(buffer[..], at, piece);
      Store(buffer, at, piece);
    }

    /** The part of the update after the buffer has been emptied: whole blocks, then what is left over. */
    method UpdateRest(rest: seq<bv8>)
      requires buffer.Length == BLOCK && |rest| <= |message|
      requires Absorb(IV, message) == Absorb(H, rest) && Tail(message) == Tail(rest)
      requires T == 8 * (|message| - |rest|) % TWO64
      modifies this`H, this`T, this`leftover, buffer
      ensures Valid()
    {
      hide Absorb, Tail;
      var blocks := |rest| / BLOCK;
      leftover := |rest| - BLOCK * blocks;
      BlocksTaken(H, rest, blocks);
      ModAdd(8 * (|message| - |rest|), 8 * (BLOCK * blocks), TWO64);
      if blocks != 0 {
        Blocks(rest[..BLOCK * blocks], blocks);
      }
      if leftover != 0 {
        Put(0, rest[BLOCK * blocks..]);
      }
    }

    method Update(input: seq<bv8>)
      requires Valid()
      modifies this, buffer
      ensures Valid() && message == old(message) + input
    {
      hide Absorb, Tail;
      ghost var m := message;
      message := m + input;
      if leftover != 0 {
        var want := BLOCK - leftover;
        want := if want < |input| then want else |input|;
        Put(leftover, input[..want]);
        leftover := leftover + want;
        if leftover < BLOCK {
          BufferGrows(m, input);
          return;
        }
        BufferFilled(m, input, want);
        OneMoreBlock(|m|, |Tail(m)|, want);
        Blocks(buffer[..], 1);
        UpdateRest(input[want..]);
      } else {
        NothingBuffered(m, input);
        UpdateRest(input);
      }
    }

    /** The padding, the last one or two blocks and the digest. The state is used up. */
    method Finish() returns (hash: seq<bv8>)
      requires Valid()
      modifies this, buffer
      ensures hash == Sha256(old(message))
    {
      hide Absorb, Tail, LengthBytes, Digest, Zeroes, ZeroCount, Pad;
      ghost var m, l := message, leftover;
      var t := (T + leftover * 8) % TWO64;
      ModAdd(8 * (|m| - l), 8 * l, TWO64);
      LastBlocks(m, LengthBytes(t));
      Put(leftover, [0x80]);
      if leftover <= 55 {
        Put(leftover + 1, Zeroes(55 - leftover));
      } else {
        Put(leftover + 1, Zeroes(63 - leftover));
        Blocks(buffer[..], 1);
        Put(0, Zeroes(56));
        assert buffer[..56] == Zeroes(56);
      }
      Put(56, LengthBytes(t));
      Blocks(buffer[..], 1);
      hash := Digest(H);
    }
  }

  /** The input fits beside what is buffered. */
  lemma BufferGrows(m: seq<bv8>, input: seq<bv8>)
    requires |Tail(m)| + |input| < BLOCK
    ensures Absorb(IV, m + input) == Absorb(IV, m) && Tail(m + input) == Tail(m) + input[..|input|]
  {
    hide Absorb, Tail;
    AbsorbInPieces(IV, m, input);
    AbsorbShort(Absorb(IV, m), Tail(m) + input);
    assert input[..|input|] == input;
  }

  /** The input fills up the buffer. */
  lemma BufferFilled(m: seq<bv8>, input: seq<bv8>, want: nat)
    requires want <= |input| && |Tail(m)| + want == BLOCK
    ensures Absorb(IV, m + input) == Absorb(Absorb(Absorb(IV, m), Tail(m) + input[..want]), input[want..])
    ensures Tail(m + input) == Tail(input[want..])
  {
    hide Absorb, Tail;
    AbsorbInPieces(IV, m, input);
    var block := Tail(m) + input[..want];
    assert Tail(m) + input == block + input[want..];
    AbsorbWhole(Absorb(IV, m), block, input[want..]);
  }

  /** The count after one more block. */
  lemma OneMoreBlock(n: nat, l: nat, want: nat)
    requires l <= n && l + want == BLOCK
    ensures (8 * (n - l) % TWO64 + 8 * BLOCK) % TWO64 == 8 * (n + want) % TWO64
  {
    ModAdd(8 * (n - l), 8 * BLOCK, TWO64);
  }

  lemma NothingBuffered(m: seq<bv8>, input: seq<bv8>)
    requires Tail(m) == []
    ensures Absorb(IV, m + input) == Absorb(Absorb(IV, m), input) && Tail(m + input) == Tail(input)
  {
    hide Absorb, Tail;
    AbsorbInPieces(IV, m, input);
    assert [] + input == input;
  }

  /** All whole blocks of the rest are absorbed at once. */
  lemma BlocksTaken(s: Chain, rest: seq<bv8>, blocks: nat)
    requires blocks == |rest| / BLOCK
    ensures |rest| - BLOCK * blocks < BLOCK
    ensures Absorb(s, rest) == Absorb(s, rest[..BLOCK * blocks]) && Tail(rest) == rest[BLOCK * blocks..]
    ensures blocks == 0 ==> Absorb(s, rest) == s && Tail(rest) == rest
  {
    hide Absorb, Tail;
    var head, rest' := rest[..BLOCK * blocks], rest[BLOCK * blocks..];
    DivUnique(BLOCK * blocks, BLOCK, blocks, 0);
    AbsorbWhole(s, head, rest');
    AbsorbShort(Absorb(s, head), rest');
    assert head + rest' == rest;
    if blocks == 0 {
      AbsorbShort(s, rest);
    }
  }

  /** The padded message in terms of what is buffered: one block or two. */
  lemma LastBlocks(m: seq<bv8>, length: seq<bv8>)
    requires length == LengthBytes(8 * |m| % TWO64)
    ensures var t, s := Tail(m), Absorb(IV, m);
            Absorb(IV, Pad(m)) ==
              if |t| <= 55 then Absorb(s, t + [0x80] + Zeroes(55 - |t|) + length)
              else Absorb(Absorb(s, t + [0x80] + Zeroes(63 - |t|)), Zeroes(56) + length)
  {
    hide Absorb, Tail, LengthBytes;
    var t, s, z := Tail(m), Absorb(IV, m), Zeroes(ZeroCount(|m|));
    TailLength(m);
    AbsorbInPieces(IV, m, [0x80] + z + length);
    assert Pad(m) == m + ([0x80] + z + length);
    if |t| <= 55 {
      assert t + ([0x80] + z + length) == t + [0x80] + Zeroes(55 - |t|) + length;
    } else {
      var block := t + [0x80] + Zeroes(63 - |t|);
      assert z == Zeroes(63 - |t|) + Zeroes(56);
      assert t + ([0x80] + z + length) == block + (Zeroes(56) + length);
      AbsorbWhole(s, block, Zeroes(56) + length);
    }
  }
}
