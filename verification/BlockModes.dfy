/** The block cipher modes as they chain blocks, for any block function, and what Decrypt makes of Encrypt's output. */
module BlockModes {
  import opened ByteBuffers
  import opened Positional
  import opened GaloisField
  import opened Numbers
  import opened XorBytes

  datatype CipherMode = CBC | CFB | CTS | ECB | OFB
  datatype PaddingMode = ANSIX923 | ISO10126 | NoPadding | PKCS7 | Zeros

  datatype Error = NotImplemented | InvalidArgument | CryptoError

  /** OutOfBounds stands for a read before the start of the block buffer. */
  datatype Result = Ok(bytes: seq<bv8>) | Throw(error: Error) | OutOfBounds

  // ---------- whole blocks

  predicate Whole(n: nat, bs: nat)
    requires bs > 0
  {
    n % bs == 0
  }

  lemma SmallWhole(n: nat, bs: nat)
    requires n < bs
    ensures Whole(n, bs) <==> n == 0
  {}

  lemma WholeBlock(n: nat, bs: nat)
    requires 0 < bs && 0 < n && Whole(n, bs)
    ensures n >= bs
  {
    if n < bs {
      SmallWhole(n, bs);
    }
  }

  lemma DropBlock(n: nat, bs: nat)
    requires 0 < bs <= n
    ensures Whole(n, bs) <==> Whole(n - bs, bs)
  {
    hide *;
    var k, r := n / bs, n % bs;
    assert n == k * bs + r;
    MulAdd(bs, k, 1);
    DivUnique(n - bs, bs, k - 1, r);
    WholeDef(n, bs);
    WholeDef(n - bs, bs);
  }

  lemma WholeDef(n: nat, bs: nat)
    requires bs > 0
    ensures Whole(n, bs) <==> n % bs == 0
  {}

  type Block = seq<bv8>
  type BlockFunction = Block -> Block

  /** Pad: the bytes that fill up the last block, where the padding mode has any. */
  function Padding(padding: PaddingMode, n: nat): Result
    requires n < 256
  {
    match padding
    case Zeros => Ok(seq(n, _ => 0))
    case PKCS7 => Ok(seq(n, _ => ByteOf(n)))
    case _ => Throw(NotImplemented)
  }

  /** One encryption step: the block written and the block carried on, or an error. */
  datatype Step = Step(out: Block, chain: Block) | Refused

  function EncryptStep(mode: CipherMode, e: BlockFunction, chain: Block, data: Block): Step
    requires mode != ECB && mode != CTS ==> |chain| == |data|
    requires mode == OFB || mode == CFB ==> |e(chain)| == |data|
  {
    match mode
    case ECB => Step(e(data), chain)
    case CBC => var out := e(XorBlocks(data, chain)); Step(out, out)
    case CFB => var out := XorBlocks(e(chain), data); Step(out, out)
    case OFB => var out := XorBlocks(e(chain), data); Step(out, out)
    case CTS => Refused
  }

  /** The block function keeps the block size. */
  ghost predicate KeepsSize(e: BlockFunction, bs: nat) {
    forall b: Block {:trigger e(b)} | |b| == bs :: |e(b)| == bs
  }

  function Prepend(out: Block, rest: Result): Result {
    match rest
    case Ok(bytes) => Ok(out + bytes)
    case other => other
  }

  /** The loop of Encrypt over the rest of the data. */
  ghost function EncryptBlocks(mode: CipherMode, padding: PaddingMode, bs: nat, e: BlockFunction, chain: Block,
                               data: seq<bv8>): Result
    requires 0 < bs < 256 && KeepsSize(e, bs) && (mode != ECB ==> |chain| == bs)
    requires padding == NoPadding ==> Whole(|data|, bs)
    decreases |data|
  {
    var size := Min(|data|, bs);
    if size == 0 && (padding == NoPadding || padding == Zeros) then Ok([]) else
    var pad := if size < bs then Padding(padding, bs - size) else Ok([]);
    if !pad.Ok? then pad else
      match EncryptStep(mode, e, chain, data[..size] + pad.bytes)
      case Refused => Throw(NotImplemented)
      case Step(out, chain') =>
        if size < bs then Ok(out) else
          DropBlock(|data|, bs);
          Prepend(out, EncryptBlocks(mode, padding, bs, e, chain', data[bs..]))
  }

  lemma EncryptNothing(mode: CipherMode, padding: PaddingMode, bs: nat, e: BlockFunction, chain: Block)
    requires 0 < bs < 256 && KeepsSize(e, bs) && (mode != ECB ==> |chain| == bs)
    requires padding == NoPadding || padding == Zeros
    ensures Whole(0, bs) && EncryptBlocks(mode, padding, bs, e, chain, []) == Ok([])
  {
    SmallWhole(0, bs);
  }

  /** The turn on a block that is not full. */
  lemma EncryptLast(mode: CipherMode, padding: PaddingMode, bs: nat, e: BlockFunction, chain: Block, data: seq<bv8>)
    requires 0 < bs < 256 && KeepsSize(e, bs) && (mode != ECB ==> |chain| == bs) && |data| < bs
    requires padding == NoPadding ==> Whole(|data|, bs)
    requires !(data == [] && (padding == NoPadding || padding == Zeros))
    ensures var pad := Padding(padding, bs - |data|);
            EncryptBlocks(mode, padding, bs, e, chain, data) ==
              if !pad.Ok? then pad else
                match EncryptStep(mode, e, chain, data + pad.bytes)
                case Refused => Throw(NotImplemented)
                case Step(out, _) => Ok(out)
  {
    hide EncryptStep;
    assert data[..|data|] == data;
  }

  /** The turn on a full block. */
  lemma EncryptNext(mode: CipherMode, padding: PaddingMode, bs: nat, e: BlockFunction, chain: Block, data: seq<bv8>)
    requires 0 < bs < 256 && KeepsSize(e, bs) && (mode != ECB ==> |chain| == bs) && |data| >= bs
    requires padding == NoPadding ==> Whole(|data|, bs)
    ensures var s := EncryptStep(mode, e, chain, data[..bs]);
            if s.Refused? then EncryptBlocks(mode, padding, bs, e, chain, data) == Throw(NotImplemented)
            else
              && (mode != ECB ==> |s.chain| == bs)
              && (padding == NoPadding ==> Whole(|data| - bs, bs))
              && EncryptBlocks(mode, padding, bs, e, chain, data)
                 == Prepend(s.out, EncryptBlocks(mode, padding, bs, e, s.chain, data[bs..]))
  {
    hide Whole;
    DropBlock(|data|, bs);
    assert data[..bs] + [] == data[..bs];
  }

  ghost function Encrypt(mode: CipherMode, padding: PaddingMode, bs: nat, e: BlockFunction, iv: Block, data: seq<bv8>): Result
    requires 0 < bs < 256 && KeepsSize(e, bs)
  {
    if mode != ECB && |iv| != bs then Throw(InvalidArgument)
    else if padding == NoPadding && !Whole(|data|, bs) then Throw(InvalidArgument)
    else EncryptBlocks(mode, padding, bs, e, iv, data)
  }

  /** One decryption step; d is the inverse block function, e the forward one, which CFB uses. */
  function DecryptStep(mode: CipherMode, e: BlockFunction, d: BlockFunction, chain: Block, block: Block): Step
    requires mode == CBC ==> |d(block)| == |chain|
    requires mode == CFB ==> |e(chain)| == |block|
  {
    match mode
    case ECB => Step(d(block), chain)
    case CBC => Step(XorBlocks(d(block), chain), block)
    case CFB => Step(XorBlocks(block, e(chain)), block)
    case _ => Refused
  }

  /** The last n bytes of the block are all v. */
  predicate EndsWith(block: Block, v: bv8, n: nat)
    requires n <= |block|
  {
    forall k | |block| - n <= k < |block| :: block[k] == v
  }

  /** What is left of the last block. A count of zero is accepted; a count beyond the block is caught only by a byte that
      differs, and where all bytes agree the check reads on before the block. */
  function Unpad(padding: PaddingMode, block: Block): Result
    requires |block| > 0
  {
    var nPad := block[|block| - 1];
    var n := nPad as int;
    if padding != PKCS7 then Throw(NotImplemented)
    else if n <= |block| then if EndsWith(block, nPad, n) then Ok(block[..|block| - n]) else Throw(CryptoError)
    else if EndsWith(block, nPad, |block|) then OutOfBounds
    else Throw(CryptoError)
  }

  /** Section 6.3 of RFC 5652: between one byte and a whole block of padding, each byte holding the count. */
  function StandardUnpad(block: Block): Result
    requires |block| > 0
  {
    var nPad := block[|block| - 1];
    var n := nPad as int;
    if 1 <= n <= |block| && EndsWith(block, nPad, n) then Ok(block[..|block| - n]) else Throw(CryptoError)
  }

  /** The check does what the standard asks unless the count is zero, or the block is full of one count too large for it. */
  lemma UnpadMeetsStandardIff(block: Block)
    requires |block| > 0
    ensures var nPad := block[|block| - 1];
            Unpad(PKCS7, block) == StandardUnpad(block)
            <==> nPad != 0 && !(nPad as int > |block| && EndsWith(block, nPad, |block|))
  {
    var nPad := block[|block| - 1];
    ZeroByte(nPad);
  }

  ghost function DecryptBlocks(mode: CipherMode, padding: PaddingMode, bs: nat, e: BlockFunction, d: BlockFunction,
                               chain: Block, data: seq<bv8>): Result
    requires bs > 0 && KeepsSize(e, bs) && KeepsSize(d, bs) && (mode != ECB ==> |chain| == bs) && Whole(|data|, bs)
    decreases |data|
  {
    if data == [] then Ok([]) else
      WholeBlock(|data|, bs);
      match DecryptStep(mode, e, d, chain, data[..bs])
      case Refused => Throw(NotImplemented)
      case Step(out, chain') =>
        if padding != NoPadding && |data| == bs then Unpad(padding, out)
        else
          WholeBlock(|data|, bs);
          DropBlock(|data|, bs);
          Prepend(out, DecryptBlocks(mode, padding, bs, e, d, chain', data[bs..]))
  }

  lemma DecryptNothing(mode: CipherMode, padding: PaddingMode, bs: nat, e: BlockFunction, d: BlockFunction, chain: Block)
    requires bs > 0 && KeepsSize(e, bs) && KeepsSize(d, bs) && (mode != ECB ==> |chain| == bs)
    ensures Whole(0, bs) && DecryptBlocks(mode, padding, bs, e, d, chain, []) == Ok([])
  {
    SmallWhole(0, bs);
  }

  lemma DecryptNext(mode: CipherMode, padding: PaddingMode, bs: nat, e: BlockFunction, d: BlockFunction, chain: Block,
                    data: seq<bv8>)
    requires bs > 0 && KeepsSize(e, bs) && KeepsSize(d, bs) && (mode != ECB ==> |chain| == bs) && Whole(|data|, bs)
    requires |data| >= bs
    ensures Whole(|data| - bs, bs)
    ensures var s := DecryptStep(mode, e, d, chain, data[..bs]);
            if s.Refused? then DecryptBlocks(mode, padding, bs, e, d, chain, data) == Throw(NotImplemented)
            else
              && |s.out| == bs
              && (mode != ECB ==> |s.chain| == bs)
              && DecryptBlocks(mode, padding, bs, e, d, chain, data)
                 == if padding != NoPadding && |data| == bs then Unpad(padding, s.out)
                    else Prepend(s.out, DecryptBlocks(mode, padding, bs, e, d, s.chain, data[bs..]))
  {
    hide Whole, Unpad;
    DropBlock(|data|, bs);
  }

  lemma UnpadOthers(padding: PaddingMode, block: Block)
    requires |block| > 0 && padding != PKCS7
    ensures Unpad(padding, block) == Throw(NotImplemented)
  {}

  ghost function Decrypt(mode: CipherMode, padding: PaddingMode, bs: nat, e: BlockFunction, d: BlockFunction, iv: Block,
                         data: seq<bv8>): Result
    requires 0 < bs < 256 && KeepsSize(e, bs) && KeepsSize(d, bs)
  {
    if mode == OFB then Encrypt(mode, padding, bs, e, iv, data)
    else if !Whole(|data|, bs) then Throw(InvalidArgument)
    else if mode != ECB && |iv| != bs then Throw(InvalidArgument)
    else DecryptBlocks(mode, padding, bs, e, d, iv, data)
  }

  // ---------- Decrypt undoes Encrypt

  /** The block functions invert each other. CFB gets by without this. */
  ghost predicate Inverse(e: BlockFunction, d: BlockFunction, bs: nat) {
    forall b: Block {:trigger d(e(b))} | |b| == bs :: d(e(b)) == b
  }

  ghost predicate Invertible(mode: CipherMode, e: BlockFunction, d: BlockFunction, bs: nat) {
    match mode
    case ECB => Inverse(e, d, bs)
    case CBC => Inverse(e, d, bs)
    case CFB => true
    case _ => false
  }

  /** Decrypting a block that encryption wrote gives the data back and carries the same block on. */
  lemma StepInverse(mode: CipherMode, e: BlockFunction, d: BlockFunction, bs: nat, chain: Block, data: Block)
    requires KeepsSize(e, bs) && KeepsSize(d, bs) && |data| == bs && (mode != ECB ==> |chain| == bs)
    requires Invertible(mode, e, d, bs)
    ensures var s := EncryptStep(mode, e, chain, data);
            s.Step? && |s.out| == bs && (mode != ECB ==> |s.chain| == bs)
            && DecryptStep(mode, e, d, chain, s.out) == Step(data, s.chain)
  {
    match mode
    case ECB =>
    case CBC =>
      XorBlocksTwice(data, chain);
      assert d(e(XorBlocks(data, chain))) == XorBlocks(data, chain);
    case CFB =>
      XorBlocksTwice(e(chain), data);
  }

  lemma UnpadPadded(bs: nat, data: seq<bv8>)
    requires |data| < bs < 256
    ensures Unpad(PKCS7, data + Padding(PKCS7, bs - |data|).bytes) == Ok(data)
  {
    var n := bs - |data|;
    var nPad := ByteOf(n);
    var block := data + seq(n, _ => nPad);
    assert block == data + Padding(PKCS7, n).bytes;
    assert EndsWith(block, nPad, n);
    assert block[..|block| - n] == data;
  }

  /** Round trip of the block loops: with PKCS7 any data, without padding whole blocks. */
  lemma {:induction false} BlocksRoundTrip(mode: CipherMode, padding: PaddingMode, bs: nat, e: BlockFunction, d: BlockFunction,
                                           chain: Block, data: seq<bv8>)
    requires 0 < bs < 256 && KeepsSize(e, bs) && KeepsSize(d, bs) && (mode != ECB ==> |chain| == bs)
    requires Invertible(mode, e, d, bs)
    requires padding == PKCS7 || (padding == NoPadding && Whole(|data|, bs))
    ensures var r := EncryptBlocks(mode, padding, bs, e, chain, data);
            && r.Ok? && Whole(|r.bytes|, bs) && (padding == PKCS7 ==> |r.bytes| > 0)
            && DecryptBlocks(mode, padding, bs, e, d, chain, r.bytes) == Ok(data)
    decreases |data|
  {
    hide Unpad, EncryptStep, DecryptStep, Whole, EncryptBlocks, DecryptBlocks, Inverse;
    SmallWhole(0, bs);
    if |data| < bs {
      SmallWhole(|data|, bs);
    }
    if data == [] && padding == NoPadding {
      EncryptNothing(mode, padding, bs, e, chain);
      DecryptNothing(mode, padding, bs, e, d, chain);
    } else if |data| < bs {
      EncryptLast(mode, padding, bs, e, chain, data);
      var block := data + Padding(PKCS7, bs - |data|).bytes;
      StepInverse(mode, e, d, bs, chain, block);
      UnpadPadded(bs, data);
      var out := EncryptStep(mode, e, chain, block).out;
      assert out[..bs] == out;
      DropBlock(bs, bs);
      DecryptNext(mode, padding, bs, e, d, chain, out);
    } else {
      var block, rest := data[..bs], data[bs..];
      EncryptNext(mode, padding, bs, e, chain, data);
      StepInverse(mode, e, d, bs, chain, block);
      var s := EncryptStep(mode, e, chain, block);
      BlocksRoundTrip(mode, padding, bs, e, d, s.chain, rest);
      var c := EncryptBlocks(mode, padding, bs, e, s.chain, rest).bytes;
      DropBlock(bs + |c|, bs);
      DecryptNext(mode, padding, bs, e, d, chain, s.out + c);
      assert (s.out + c)[..bs] == s.out && (s.out + c)[bs..] == c;
      assert block + rest == data;
    }
  }

  /** Decrypt(Encrypt(x)) = x in ECB, CBC and CFB, with PKCS7 for every x and without padding for whole blocks. */
  lemma DecryptUndoesEncrypt(mode: CipherMode, padding: PaddingMode, bs: nat, e: BlockFunction, d: BlockFunction, iv: Block,
                             data: seq<bv8>)
    requires 0 < bs < 256 && KeepsSize(e, bs) && KeepsSize(d, bs) && (mode != ECB ==> |iv| == bs)
    requires Invertible(mode, e, d, bs)
    requires padding == PKCS7 || (padding == NoPadding && Whole(|data|, bs))
    ensures var r := Encrypt(mode, padding, bs, e, iv, data);
            r.Ok? && Decrypt(mode, padding, bs, e, d, iv, r.bytes) == Ok(data)
  {
    BlocksRoundTrip(mode, padding, bs, e, d, iv, data);
  }

  // ---------- OFB, which Decrypt leaves to Encrypt

  /** What the OFB branch writes for whole blocks: each block is carried on after the data has been added. */
  ghost function Fed(bs: nat, e: BlockFunction, chain: Block, data: seq<bv8>): (c: seq<bv8>)
    requires bs > 0 && KeepsSize(e, bs) && |chain| == bs && Whole(|data|, bs)
    ensures |c| == |data|
    decreases |data|
  {
    if data == [] then [] else
      WholeBlock(|data|, bs);
      DropBlock(|data|, bs);
      var out := XorBlocks(e(chain), data[..bs]);
      out + Fed(bs, e, out, data[bs..])
  }

  lemma {:induction false} OfbIsFed(padding: PaddingMode, bs: nat, e: BlockFunction, chain: Block, data: seq<bv8>)
    requires 0 < bs < 256 && KeepsSize(e, bs) && |chain| == bs && Whole(|data|, bs) && (padding == NoPadding || padding == Zeros)
    ensures EncryptBlocks(OFB, padding, bs, e, chain, data) == Ok(Fed(bs, e, chain, data))
    decreases |data|
  {
    hide Whole, EncryptBlocks;
    if data == [] {
      EncryptNothing(OFB, padding, bs, e, chain);
    } else {
      WholeBlock(|data|, bs);
      EncryptNext(OFB, padding, bs, e, chain, data);
      DropBlock(|data|, bs);
      OfbIsFed(padding, bs, e, XorBlocks(e(chain), data[..bs]), data[bs..]);
    }
  }

  /** Padding makes the output longer than the data, and whole. */
  lemma {:induction false} OfbGrows(padding: PaddingMode, bs: nat, e: BlockFunction, chain: Block, data: seq<bv8>)
    requires 0 < bs < 256 && KeepsSize(e, bs) && |chain| == bs
    requires padding == PKCS7 || (padding == Zeros && !Whole(|data|, bs))
    ensures var r := EncryptBlocks(OFB, padding, bs, e, chain, data);
            r.Ok? && |r.bytes| > |data| && Whole(|r.bytes|, bs)
    decreases |data|
  {
    hide Whole, EncryptBlocks;
    SmallWhole(0, bs);
    if |data| < bs {
      SmallWhole(|data|, bs);
      EncryptLast(OFB, padding, bs, e, chain, data);
      DropBlock(bs, bs);
    } else {
      EncryptNext(OFB, padding, bs, e, chain, data);
      DropBlock(|data|, bs);
      var s := EncryptStep(OFB, e, chain, data[..bs]);
      OfbGrows(padding, bs, e, s.chain, data[bs..]);
      DropBlock(bs + |EncryptBlocks(OFB, padding, bs, e, s.chain, data[bs..]).bytes|, bs);
    }
  }

  lemma {:induction false} OfbRefused(padding: PaddingMode, bs: nat, e: BlockFunction, chain: Block, data: seq<bv8>)
    requires 0 < bs < 256 && KeepsSize(e, bs) && |chain| == bs && (padding == ANSIX923 || padding == ISO10126)
    ensures EncryptBlocks(OFB, padding, bs, e, chain, data) == Throw(NotImplemented)
    decreases |data|
  {
    hide Whole, EncryptBlocks;
    if |data| < bs {
      EncryptLast(OFB, padding, bs, e, chain, data);
    } else {
      EncryptNext(OFB, padding, bs, e, chain, data);
      OfbRefused(padding, bs, e, EncryptStep(OFB, e, chain, data[..bs]).chain, data[bs..]);
    }
  }

  /** The data OFB does restore: one block, or blocks under a chain that the block function sends to zeroes. */
  ghost predicate Restored(bs: nat, e: BlockFunction, iv: Block, data: seq<bv8>)
    requires bs > 0 && Whole(|data|, bs)
    decreases |data|
  {
    |data| <= bs || (DropBlock(|data|, bs); e(iv) == Zeroes(bs) && Restored(bs, e, data[..bs], data[bs..]))
  }

  lemma {:induction false} FedTwice(bs: nat, e: BlockFunction, d: BlockFunction, chain: Block, data: seq<bv8>)
    requires bs > 0 && KeepsSize(e, bs) && Inverse(e, d, bs) && |chain| == bs && Whole(|data|, bs)
    ensures Fed(bs, e, chain, Fed(bs, e, chain, data)) == data <==> Restored(bs, e, chain, data)
    decreases |data|
  {
    hide Whole, XorBlocks, Zeroes;
    if data != [] {
      WholeBlock(|data|, bs);
      DropBlock(|data|, bs);
      var p, rest := data[..bs], data[bs..];
      var k := e(chain);
      var c := XorBlocks(k, p);
      assert |c| == bs by { XorLength(k, p); }
      var cs := Fed(bs, e, c, rest);
      assert (c + cs)[..bs] == c && (c + cs)[bs..] == cs;
      XorBlocksTwice(k, p);
      XorBothWays(k, p);
      assert Fed(bs, e, chain, c + cs) == p + Fed(bs, e, p, cs);
      XorZeroes(k, p);
      assert data == p + rest;
      if rest == [] {
      } else if c == p {
        FedTwice(bs, e, d, p, rest);
        assert Fed(bs, e, p, cs) == rest <==> Fed(bs, e, chain, c + cs) == data;
      } else {
        WholeBlock(|rest|, bs);
        FedApart(bs, e, d, c, p, rest);
      }
    }
  }

  /** Chains that differ give different key streams, so the next block comes back wrong. */
  lemma FedApart(bs: nat, e: BlockFunction, d: BlockFunction, c: Block, p: Block, rest: seq<bv8>)
    requires bs > 0 && KeepsSize(e, bs) && Inverse(e, d, bs) && |c| == |p| == bs && c != p
    requires Whole(|rest|, bs) && |rest| >= bs
    ensures Fed(bs, e, p, Fed(bs, e, c, rest)) != rest
  {
    hide Whole, XorBlocks;
    var q := rest[..bs];
    var x := XorBlocks(e(c), q);
    XorLength(e(c), q);
    DropBlock(|rest|, bs);
    var cs := Fed(bs, e, c, rest);
    assert cs[..bs] == x;
    XorLength(e(p), x);
    if Fed(bs, e, p, cs) == rest {
      assert Fed(bs, e, p, cs)[..bs] == XorBlocks(e(p), x);
      XorBlocksTwice(e(p), x);
      XorBlocksTwice(e(c), q);
      assert d(e(p)) == p && d(e(c)) == c;
      SameXor(e(p), e(c), x, q);
    }
  }

  /** Zeroes that fill up the last block stay in the output of both directions. */
  lemma OfbFilledUp(bs: nat, e: BlockFunction, iv: Block, data: seq<bv8>)
    requires 0 < bs < 256 && KeepsSize(e, bs) && |iv| == bs && !Whole(|data|, bs)
    ensures var r := EncryptBlocks(OFB, Zeros, bs, e, iv, data);
            r.Ok? && EncryptBlocks(OFB, Zeros, bs, e, iv, r.bytes) != Ok(data)
  {
    hide Whole, EncryptBlocks, Fed;
    OfbGrows(Zeros, bs, e, iv, data);
    OfbIsFed(Zeros, bs, e, iv, EncryptBlocks(OFB, Zeros, bs, e, iv, data).bytes);
  }

  /** In OFB, Decrypt undoes Encrypt exactly without padding or with zeroes, on whole blocks that are Restored.
      With PKCS7 it never does: it pads a second time. */
  lemma OfbRoundTripIff(padding: PaddingMode, bs: nat, e: BlockFunction, d: BlockFunction, iv: Block, data: seq<bv8>)
    requires 0 < bs < 256 && KeepsSize(e, bs) && KeepsSize(d, bs) && Inverse(e, d, bs) && |iv| == bs
    ensures var r := Encrypt(OFB, padding, bs, e, iv, data);
            (r.Ok? && Decrypt(OFB, padding, bs, e, d, iv, r.bytes) == Ok(data))
            <==> (padding == NoPadding || padding == Zeros) && Whole(|data|, bs) && Restored(bs, e, iv, data)
  {
    hide Whole, EncryptBlocks, Fed, Restored;
    match padding
    case ANSIX923 => OfbRefused(padding, bs, e, iv, data);
    case ISO10126 => OfbRefused(padding, bs, e, iv, data);
    case PKCS7 =>
      OfbGrows(padding, bs, e, iv, data);
      OfbGrows(padding, bs, e, iv, EncryptBlocks(OFB, padding, bs, e, iv, data).bytes);
    case _ =>
      if Whole(|data|, bs) {
        OfbIsFed(padding, bs, e, iv, data);
        OfbIsFed(padding, bs, e, iv, Fed(bs, e, iv, data));
        FedTwice(bs, e, d, iv, data);
      } else if padding == Zeros {
        OfbFilledUp(bs, e, iv, data);
      }
  }
}
