/** The Aes class: block functions in place, and the Encrypt and Decrypt loops over them. */
module AesCipher {
  import opened GaloisField
  import opened SBox
  import opened AesRounds
  import opened AesKeys
  import opened BlockModes
  import opened ByteBuffers
  import opened ModeEquations
  import opened Numbers
  import opened XorBytes

  const BLOCK: nat := 16

  // ---------- bytes and words

  function ColumnAt(p: seq<bv8>, j: nat): Column
    requires 4 * j + 4 <= |p|
  {
    Column(p[4 * j], p[4 * j + 1], p[4 * j + 2], p[4 * j + 3])
  }

  function StateOf(p: seq<bv8>): State
    requires |p| == BLOCK
  {
    State(ColumnAt(p, 0), ColumnAt(p, 1), ColumnAt(p, 2), ColumnAt(p, 3))
  }

  function ColumnBytes(c: Column): seq<bv8> { [c.b0, c.b1, c.b2, c.b3] }

  function BytesOf(s: State): (p: seq<bv8>)
    ensures |p| == BLOCK
  {
    ColumnBytes(s.c0) + ColumnBytes(s.c1) + ColumnBytes(s.c2) + ColumnBytes(s.c3)
  }

  lemma BytesOfState(p: seq<bv8>)
    requires |p| == BLOCK
    ensures BytesOf(StateOf(p)) == p
  {}

  lemma StateOfBytes(s: State)
    ensures StateOf(BytesOf(s)) == s
  {}

  function KeyWords(key: seq<bv8>): (w: seq<Column>)
    ensures |w| == |key| / 4
  {
    seq(|key| / 4, i requires 0 <= i < |key| / 4 => ColumnAt(key, i))
  }

  // ---------- one block

  /** Stores the j-th word of the block. */
  method PutWord(p: array<bv8>, j: nat, w: Column)
    requires p.Length == BLOCK && j < 4
    modifies p
    ensures forall i | 0 <= i < 4 :: ColumnAt(p[..], i) == (if i == j then w else ColumnAt(old(p[..]), i))
  {
    p[4 * j], p[4 * j + 1], p[4 * j + 2], p[4 * j + 3] := w.b0, w.b1, w.b2, w.b3;
  }

  /** data ^= the four words of round key r. */
  method XorWords(p: array<bv8>, ekey: seq<Column>, r: nat)
    requires p.Length == BLOCK && 4 * r + 4 <= |ekey|
    modifies p
    ensures StateOf(p[..]) == XorState(StateOf(old(p[..])), RoundKey(ekey, r))
  {
    hide ColumnAt, XorColumn;
    var c := 4;
    while c > 0
      invariant 0 <= c <= 4
      invariant forall j | 0 <= j < c :: ColumnAt(p[..], j) == ColumnAt(old(p[..]), j)
      invariant forall j | c <= j < 4 :: ColumnAt(p[..], j) == XorColumn(ColumnAt(old(p[..]), j), ekey[4 * r + j])
    {
      c := c - 1;
      PutWord(p, c, XorColumn(ColumnAt(p[..], c), ekey[4 * r + c]));
    }
  }

  method SubstituteInPlace(p: array<bv8>, sub: bv8 -> bv8)
    requires p.Length == BLOCK
    modifies p
    ensures StateOf(p[..]) == Substitute(sub, StateOf(old(p[..])))
  {
    var j := BLOCK;
    while j > 0
      invariant 0 <= j <= BLOCK
      invariant forall i | 0 <= i < j :: p[i] == old(p[..])[i]
      invariant forall i | j <= i < BLOCK :: p[i] == sub(old(p[..])[i])
    {
      j := j - 1;
      p[j] := sub(p[j]);
    }
  }

  /** The exchanges of bytes that rotate the rows. */
  method ShiftRowsInPlace(p: array<bv8>)
    requires p.Length == BLOCK
    modifies p
    ensures StateOf(p[..]) == ShiftRows(StateOf(old(p[..])))
  {
    p[13], p[9], p[5], p[1] := p[1], p[13], p[9], p[5];
    p[2], p[10] := p[10], p[2];
    p[6], p[14] := p[14], p[6];
    p[3], p[7], p[11], p[15] := p[15], p[3], p[7], p[11];
  }

  method MixInPlace(p: array<bv8>, mix: Column -> Column)
    requires p.Length == BLOCK
    modifies p
    ensures StateOf(p[..]) == MapColumns(mix, StateOf(old(p[..])))
  {
    hide ColumnAt;
    var j := 0;
    while j < 4
      invariant 0 <= j <= 4
      invariant forall i | 0 <= i < j :: ColumnAt(p[..], i) == mix(ColumnAt(old(p[..]), i))
      invariant forall i | j <= i < 4 :: ColumnAt(p[..], i) == ColumnAt(old(p[..]), i)
    {
      PutWord(p, j, mix(ColumnAt(p[..], j)));
      j := j + 1;
    }
  }

  /** The common routine of encryption and decryption. */
  method EncDec(ekey: seq<Column>, data: array<bv8>, subTable: bv8 -> bv8, mixColumn: Column -> Column, rounds: nat)
    requires data.Length == BLOCK && 4 * rounds + 4 <= |ekey|
    modifies data
    ensures StateOf(data[..]) == Rounds(StateOf(old(data[..])), ekey, rounds, subTable, mixColumn, rounds)
  {
    hide Substitute, ShiftRows, MapColumns, XorState, RoundKey, StateOf;
    ghost var s := StateOf(data[..]);
    XorWords(data, ekey, 0);
    var i := 0;
    while i < rounds
      invariant 0 <= i <= rounds
      invariant StateOf(data[..]) == Rounds(s, ekey, rounds, subTable, mixColumn, i)
    {
      SubstituteInPlace(data, subTable);
      ShiftRowsInPlace(data);
      if i < rounds - 1 {
        MixInPlace(data, mixColumn);
      }
      XorWords(data, ekey, i + 1);
      i := i + 1;
    }
  }

  /** The block functions on byte blocks. */
  function EncryptBytes(ekey: seq<Column>, rounds: nat, b: Block): Block {
    if |b| == BLOCK && 4 * rounds + 4 <= |ekey| then BytesOf(AesRounds.Encrypt(StateOf(b), ekey, rounds)) else b
  }

  function DecryptBytes(ekey: seq<Column>, rounds: nat, b: Block): Block {
    if |b| == BLOCK && 4 * rounds + 4 <= |ekey| then BytesOf(AesRounds.Decrypt(StateOf(b), ekey, rounds)) else b
  }

  method EncryptBlock(ekey: seq<Column>, data: array<bv8>, rounds: nat)
    requires data.Length == BLOCK && 4 * rounds + 4 <= |ekey|
    modifies data
    ensures data[..] == EncryptBytes(ekey, rounds, old(data[..]))
  {
    hide StateOf, BytesOf, Rounds;
    EncDec(ekey, data, SubByte, MixColumn, rounds);
    BytesOfState(data[..]);
  }

  /** Reversal of the four words. */
  method ReverseWords(p: array<bv8>)
    requires p.Length == BLOCK
    modifies p
    ensures StateOf(p[..]) == Reverse(StateOf(old(p[..])))
  {
    p[0], p[1], p[2], p[3], p[12], p[13], p[14], p[15] := p[12], p[13], p[14], p[15], p[0], p[1], p[2], p[3];
    p[4], p[5], p[6], p[7], p[8], p[9], p[10], p[11] := p[8], p[9], p[10], p[11], p[4], p[5], p[6], p[7];
  }

  method DecryptBlock(ekey: seq<Column>, data: array<bv8>, rounds: nat)
    requires data.Length == BLOCK && 4 * rounds + 4 <= |ekey|
    modifies data
    ensures data[..] == DecryptBytes(ekey, rounds, old(data[..]))
  {
    hide StateOf, BytesOf, Rounds, Reverse;
    ReverseWords(data);
    EncDec(ekey, data, InvSubByte, InvMixColumn, rounds);
    ReverseWords(data);
    BytesOfState(data[..]);
  }

  // ---------- the class

  /** InitParams: the number of rounds for a key size in bits. */
  function RoundsFor(keySize: int): nat
    requires keySize == 128 || keySize == 192 || keySize == 256
  {
    match keySize
    case 128 => 10
    case 192 => 12
    case 256 => 14
  }

  /** The block functions a key defines. */
  ghost function Forward(key: seq<bv8>, rounds: nat): BlockFunction
    requires |key| >= 4
  {
    var ekey := KeySchedule(KeyWords(key), 4 * rounds + 4);
    b => EncryptBytes(ekey, rounds, b)
  }

  ghost function Backward(key: seq<bv8>, rounds: nat): BlockFunction
    requires |key| >= 4
  {
    var ekey := KeySchedule(KeyWords(key), 4 * rounds + 4);
    b => DecryptBytes(if |ekey| >= 8 then InvKey(ekey) else ekey, rounds, b)
  }

  lemma BlockFunctionsKeepSize(key: seq<bv8>, rounds: nat)
    requires |key| >= 4
    ensures KeepsSize(Forward(key, rounds), BLOCK) && KeepsSize(Backward(key, rounds), BLOCK)
  {
    hide AesRounds.Encrypt, AesRounds.Decrypt, KeySchedule, InvKey;
  }

  /** DecryptBlock with the inverse schedule undoes EncryptBlock, for every key and block. */
  lemma BlockFunctionsInverse(key: seq<bv8>, rounds: nat)
    requires |key| >= 4 && rounds > 0
    ensures Inverse(Forward(key, rounds), Backward(key, rounds), BLOCK)
  {
    hide AesRounds.Encrypt, AesRounds.Decrypt, KeySchedule, InvKey, StateOf, BytesOf;
    var ekey := KeySchedule(KeyWords(key), 4 * rounds + 4);
    ScheduleLength(KeyWords(key), 4 * rounds + 4);
    InvKeyLength(ekey);
    forall b: Block | |b| == BLOCK
      ensures DecryptBytes(InvKey(ekey), rounds, EncryptBytes(ekey, rounds, b)) == b
    {
      AesRounds.DecryptUndoesEncrypt(StateOf(b), ekey, rounds);
      StateOfBytes(AesRounds.Encrypt(StateOf(b), ekey, rounds));
      BytesOfState(b);
    }
  }

  lemma ScheduleLength(key: seq<Column>, n: nat)
    requires |key| > 0
    ensures |KeySchedule(key, n)| == n
  {}

  lemma InvKeyLength(ekey: seq<Column>)
    requires |ekey| >= 8
    ensures |InvKey(ekey)| == |ekey|
  {}

  class Aes {
    var m_key: seq<bv8>
    var IV: seq<bv8>
    var KeySize: int
    var Rounds: nat
    var Mode: CipherMode
    var Padding: PaddingMode

    constructor ()
      ensures m_key == [] && IV == [] && KeySize == 256 && Rounds == 14 && Mode == CBC && Padding == PKCS7
    {
      m_key, IV, KeySize, Rounds, Mode, Padding := [], [], 256, 14, CBC, PKCS7;
    }

    /** A key has been set and the key size is one of the three of AES. */
    ghost predicate Keyed()
      reads this
    {
      (KeySize == 128 || KeySize == 192 || KeySize == 256) && |m_key| == KeySize / 8
    }

    /** put_Key: only a key of the configured size is accepted. */
    method PutKey(key: seq<bv8>) returns (ok: bool)
      modifies this`m_key
      ensures ok <==> |key| == KeySize / 8
      ensures m_key == if ok then key else old(m_key)
    {
      ok := |key| == KeySize / 8;
      if ok {
        m_key := key;
      }
    }

    ghost function E(): BlockFunction
      requires Keyed()
      reads this
    {
      Forward(m_key, RoundsFor(KeySize))
    }

    ghost function D(): BlockFunction
      requires Keyed()
      reads this
    {
      Backward(m_key, RoundsFor(KeySize))
    }

    method InitParams()
      requires Keyed()
      modifies this`Rounds
      ensures Rounds == RoundsFor(KeySize)
    {
      Rounds := RoundsFor(KeySize);
    }

    /** Encrypt: the output blocks solve the equations of the mode for the padded data, or the call is refused. */
    method Encrypt(cbuf: seq<bv8>) returns (r: Result)
      requires Keyed()
      modifies this`Rounds
      ensures Encrypted(Mode, Padding, BLOCK, E(), IV, cbuf, r)
      ensures KeepsSize(E(), BLOCK) && r == BlockModes.Encrypt(Mode, Padding, BLOCK, E(), IV, cbuf)
    {
      hide Encrypted, EncryptBytes, KeySchedule, KeyWords, RoundsFor, Whole, EncryptBlocks, EncryptStep, BlockModes.Padding, Prepend;
      InitParams();
      BlockFunctionsKeepSize(m_key, Rounds);
      EncryptSolves(Mode, Padding, BLOCK, E(), IV, cbuf);
      var tdata, block := new bv8[BLOCK], new bv8[BLOCK];
      if Mode != ECB {
        if |IV| != BLOCK {
          return Throw(InvalidArgument);
        }
        Store(block, 0, IV);
      }
      if Padding == NoPadding {
        if !Whole(|cbuf|, BLOCK) {
          return Throw(InvalidArgument);
        }
      }
      var ekey := CalcExpandedKey(KeyWords(m_key), BLOCK / 4 * (Rounds + 1));
      ScheduleLength(KeyWords(m_key), BLOCK / 4 * (Rounds + 1));
      r := EncryptLoop(Mode, Padding, ekey, Rounds, E(), IV, tdata, block, cbuf);
    }

    /** Decrypt: the chaining undone, and the padding of the last block checked and cut off. */
    method Decrypt(cbuf: seq<bv8>) returns (r: Result)
      requires Keyed()
      modifies this`Rounds
      ensures KeepsSize(E(), BLOCK) && KeepsSize(D(), BLOCK)
      ensures r == BlockModes.Decrypt(Mode, Padding, BLOCK, E(), D(), IV, cbuf)
    {
      hide EncryptBytes, DecryptBytes, KeySchedule, KeyWords, Whole, EncryptBlocks, DecryptBlocks, InvKey;
      InitParams();
      BlockFunctionsKeepSize(m_key, Rounds);
      if Mode == OFB {
        r := Encrypt(cbuf);
        return;
      }
      if !Whole(|cbuf|, BLOCK) {
        return Throw(InvalidArgument);
      }
      var tdata, block := new bv8[BLOCK], new bv8[BLOCK];
      if Mode != ECB {
        if |IV| != BLOCK {
          return Throw(InvalidArgument);
        }
        Store(tdata, 0, IV);
      }
      var n := BLOCK / 4 * (Rounds + 1);
      ScheduleLength(KeyWords(m_key), n);
      InvKeyLength(KeySchedule(KeyWords(m_key), n));
      var ekey;
      if Mode == CFB {
        ekey := CalcExpandedKey(KeyWords(m_key), n);
      } else {
        ekey := CalcInvExpandedKey(KeyWords(m_key), n);
      }
      r := DecryptLoop(Mode, Padding, ekey, Rounds, E(), D(), IV, tdata, block, cbuf);
    }
  }

  /** What one turn of the loop of Encrypt does to the block buffers, for the block function e of the key schedule. */
  ghost predicate Computes(e: BlockFunction, ekey: seq<Column>, rounds: nat) {
    forall b: Block {:trigger e(b)} | |b| == BLOCK :: e(b) == EncryptBytes(ekey, rounds, b)
  }

  /** The switch over the modes: returns the block to be written, or nothing where the mode is not implemented. */
  method EncryptStepInPlace(mode: CipherMode, ekey: seq<Column>, rounds: nat, ghost e: BlockFunction, ghost chain: Block,
                            ghost data: Block, tdata: array<bv8>, block: array<bv8>)
    returns (out: seq<bv8>)
    requires tdata.Length == block.Length == BLOCK && tdata != block && 4 * rounds + 4 <= |ekey|
    requires KeepsSize(e, BLOCK) && Computes(e, ekey, rounds)
    requires tdata[..] == data && (mode != ECB ==> block[..] == chain)
    modifies tdata, block
    ensures |data| == BLOCK && (mode != ECB ==> |chain| == BLOCK)
    ensures var s := EncryptStep(mode, e, chain, data);
            if s.Step? then out == s.out && |out| == BLOCK && (mode != ECB ==> block[..] == s.chain) else out == []
  {
    hide EncryptBytes, XorBlocks;
    match mode {
      case ECB =>
        EncryptBlock(ekey, tdata, rounds);
        out := tdata[..];
      case OFB =>
        EncryptBlock(ekey, block, rounds);
        XorWith(block, tdata[..]);
        out := block[..];
      case CBC =>
        XorWith(tdata, block[..]);
        EncryptBlock(ekey, tdata, rounds);
        Store(block, 0, tdata[..]);
        out := block[..];
      case CFB =>
        EncryptBlock(ekey, block, rounds);
        XorWith(block, tdata[..]);
        out := block[..];
      case CTS =>
        out := [];
    }
  }

  /** The loop of Encrypt; the block buffer starts with the IV, except in ECB, which has none. */
  method EncryptLoop(mode: CipherMode, padding: PaddingMode, ekey: seq<Column>, rounds: nat, ghost e: BlockFunction,
                     ghost iv: Block, tdata: array<bv8>, block: array<bv8>, cbuf: seq<bv8>)
    returns (r: Result)
    requires tdata.Length == block.Length == BLOCK && tdata != block && 4 * rounds + 4 <= |ekey|
    requires KeepsSize(e, BLOCK) && Computes(e, ekey, rounds)
    requires mode != ECB ==> block[..] == iv && |iv| == BLOCK
    requires padding == NoPadding ==> Whole(|cbuf|, BLOCK)
    modifies tdata, block
    ensures r == EncryptBlocks(mode, padding, BLOCK, e, iv, cbuf)
  {
    hide Whole, EncryptBlocks, EncryptStep, Padding, Prepend, Computes;
    var ms: seq<bv8> := [];
    var pos := 0;
    ghost var chain := iv;
    ghost var whole := EncryptBlocks(mode, padding, BLOCK, e, iv, cbuf);
    assert cbuf[0..] == cbuf;
    PrependNothing(whole);
    while true
      invariant 0 <= pos <= |cbuf|
      invariant mode != ECB ==> |chain| == BLOCK && block[..] == chain
      invariant padding == NoPadding ==> Whole(|cbuf| - pos, BLOCK)
      invariant whole == Prepend(ms, EncryptBlocks(mode, padding, BLOCK, e, chain, cbuf[pos..]))
      decreases |cbuf| - pos
    {
      ghost var rest := cbuf[pos..];
      var size := Min(|cbuf| - pos, BLOCK);
      if size == 0 && (padding == NoPadding || padding == Zeros) {
        EncryptNothing(mode, padding, BLOCK, e, chain);
        PrependLast(ms, []);
        break;
      }
      if size < BLOCK {
        EncryptLast(mode, padding, BLOCK, e, chain, rest);
        var pad := BlockModes.Padding(padding, BLOCK - size);
        PrependError(ms, pad);
        if !pad.Ok? {
          return pad;
        }
        PaddingFills(padding, BLOCK - size);
        Store(tdata, 0, cbuf[pos..] + pad.bytes);
        PrependError(ms, Throw(NotImplemented));
        var out := EncryptStepInPlace(mode, ekey, rounds, e, chain, rest + pad.bytes, tdata, block);
        if out == [] {
          return Throw(NotImplemented);
        }
        PrependLast(ms, out);
        ms := ms + out;
        break;
      }
      EncryptNext(mode, padding, BLOCK, e, chain, rest);
      assert rest[..BLOCK] == cbuf[pos..pos + BLOCK] && rest[BLOCK..] == cbuf[pos + BLOCK..];
      Store(tdata, 0, cbuf[pos..pos + BLOCK]);
      PrependError(ms, Throw(NotImplemented));
      var out := EncryptStepInPlace(mode, ekey, rounds, e, chain, rest[..BLOCK], tdata, block);
      if out == [] {
        return Throw(NotImplemented);
      }
      chain := EncryptStep(mode, e, chain, rest[..BLOCK]).chain;
      PrependTwice(ms, out, EncryptBlocks(mode, padding, BLOCK, e, chain, rest[BLOCK..]));
      ms, pos := ms + out, pos + BLOCK;
    }
    return Ok(ms);
  }

  ghost predicate Undoes(d: BlockFunction, ekey: seq<Column>, rounds: nat) {
    forall b: Block {:trigger d(b)} | |b| == BLOCK :: d(b) == DecryptBytes(ekey, rounds, b)
  }

  /** The switch of Decrypt: block becomes plaintext; CFB keeps the previous ciphertext in tdata, CBC in state. */
  method DecryptStepInPlace(mode: CipherMode, ekey: seq<Column>, rounds: nat, ghost e: BlockFunction, ghost d: BlockFunction,
                            ghost chain: Block, data: Block, state: Block, tdata: array<bv8>, block: array<bv8>)
    returns (ok: bool)
    requires tdata.Length == block.Length == BLOCK && tdata != block && 4 * rounds + 4 <= |ekey|
    requires KeepsSize(e, BLOCK) && KeepsSize(d, BLOCK)
    requires if mode == CFB then Computes(e, ekey, rounds) else Undoes(d, ekey, rounds)
    requires block[..] == data && (mode == CBC ==> state == chain) && (mode == CFB ==> tdata[..] == chain)
    requires mode == CBC ==> |chain| == BLOCK
    modifies tdata, block
    ensures |data| == BLOCK
    ensures var s := DecryptStep(mode, e, d, chain, data);
            if s.Step? then
              ok && block[..] == s.out && (mode == CFB ==> tdata[..] == s.chain) && (mode == CBC ==> s.chain == data)
            else !ok
  {
    hide EncryptBytes, DecryptBytes, XorBlocks;
    ok := true;
    match mode {
      case ECB =>
        DecryptBlock(ekey, block, rounds);
      case CBC =>
        DecryptBlock(ekey, block, rounds);
        XorWith(block, state);
      case CFB =>
        EncryptBlock(ekey, tdata, rounds);
        XorWith(block, tdata[..]);
        Store(tdata, 0, data);
      case OFB =>
        ok := false;
      case CTS =>
        ok := false;
    }
  }

  /** The PKCS7 part of Decrypt: every one of the last nPad bytes must be nPad. */
  method CheckPadding(block: seq<bv8>) returns (r: Result)
    requires |block| > 0
    ensures var nPad := block[|block| - 1]; var n := nPad as int;
            && (r.Ok? <==> n <= |block| && forall k | |block| - n <= k < |block| :: block[k] == nPad)
            && (r.Ok? ==> r.bytes == block[..|block| - n])
            && (r.OutOfBounds? <==> n > |block| && forall k | 0 <= k < |block| :: block[k] == nPad)
            && (r.Ok? || r.OutOfBounds? || r == Throw(CryptoError))
    ensures r == Unpad(PKCS7, block)
  {
    var nPad := block[|block| - 1];
    var n := nPad as int;
    var i := 0;
    while i < n
      invariant 0 <= i <= n && i <= |block|
      invariant forall k | |block| - i <= k < |block| :: block[k] == nPad
    {
      if i >= |block| {
        return OutOfBounds;
      }
      if block[|block| - 1 - i] != nPad {
        return Throw(CryptoError);
      }
      i := i + 1;
    }
    return Ok(block[..|block| - n]);
  }

  /** The loop of Decrypt. */
  method DecryptLoop(mode: CipherMode, padding: PaddingMode, ekey: seq<Column>, rounds: nat, ghost e: BlockFunction,
                     ghost d: BlockFunction, iv: Block, tdata: array<bv8>, block: array<bv8>, cbuf: seq<bv8>)
    returns (r: Result)
    requires tdata.Length == block.Length == BLOCK && tdata != block && 4 * rounds + 4 <= |ekey|
    requires KeepsSize(e, BLOCK) && KeepsSize(d, BLOCK)
    requires if mode == CFB then Computes(e, ekey, rounds) else Undoes(d, ekey, rounds)
    requires mode != ECB ==> tdata[..] == iv && |iv| == BLOCK
    requires Whole(|cbuf|, BLOCK)
    modifies tdata, block
    ensures r == DecryptBlocks(mode, padding, BLOCK, e, d, iv, cbuf)
  {
    hide Whole, DecryptBlocks, DecryptStep, Unpad, Prepend, Computes, Undoes;
    var ms: seq<bv8> := [];
    var pos := 0;
    var state := iv;
    ghost var chain := iv;
    ghost var whole := DecryptBlocks(mode, padding, BLOCK, e, d, iv, cbuf);
    assert cbuf[0..] == cbuf;
    PrependNothing(whole);
    while pos < |cbuf|
      invariant 0 <= pos <= |cbuf| && Whole(|cbuf| - pos, BLOCK)
      invariant mode != ECB ==> |chain| == BLOCK
      invariant (mode == CBC ==> state == chain) && (mode == CFB ==> tdata[..] == chain)
      invariant whole == Prepend(ms, DecryptBlocks(mode, padding, BLOCK, e, d, chain, cbuf[pos..]))
    {
      ghost var rest := cbuf[pos..];
      WholeBlock(|cbuf| - pos, BLOCK);
      var data := cbuf[pos..pos + BLOCK];
      assert rest[..BLOCK] == data && rest[BLOCK..] == cbuf[pos + BLOCK..];
      DecryptNext(mode, padding, BLOCK, e, d, chain, rest);
      Store(block, 0, data);
      PrependError(ms, Throw(NotImplemented));
      var ok := DecryptStepInPlace(mode, ekey, rounds, e, d, chain, data, state, tdata, block);
      if !ok {
        return Throw(NotImplemented);
      }
      if mode == CBC {
        state := data;
      }
      if padding != NoPadding && pos + BLOCK == |cbuf| {
        if padding != PKCS7 {
          UnpadOthers(padding, block[..]);
          return Throw(NotImplemented);
        }
        var last := CheckPadding(block[..]);
        PrependError(ms, last);
        if !last.Ok? {
          return last;
        }
        PrependLast(ms, last.bytes);
        return Ok(ms + last.bytes);
      }
      chain := DecryptStep(mode, e, d, chain, data).chain;
      PrependTwice(ms, block[..], DecryptBlocks(mode, padding, BLOCK, e, d, chain, rest[BLOCK..]));
      ms, pos := ms + block[..], pos + BLOCK;
    }
    DecryptNothing(mode, padding, BLOCK, e, d, chain);
    PrependLast(ms, []);
    return Ok(ms);
  }

  lemma PaddingFills(padding: PaddingMode, n: nat)
    requires n < 256
    ensures var p := BlockModes.Padding(padding, n); p.Ok? ==> |p.bytes| == n
  {}

  lemma PrependError(a: seq<bv8>, r: Result)
    ensures !r.Ok? ==> Prepend(a, r) == r
  {}

  lemma PrependLast(a: seq<bv8>, b: seq<bv8>)
    ensures Prepend(a, Ok(b)) == Ok(a + b)
  {}

  lemma PrependNothing(r: Result)
    ensures Prepend([], r) == r
  {
    if r.Ok? {
      assert [] + r.bytes == r.bytes;
    }
  }

  lemma PrependTwice(a: seq<bv8>, b: seq<bv8>, r: Result)
    ensures Prepend(a, Prepend(b, r)) == Prepend(a + b, r)
  {
    if r.Ok? {
      assert a + (b + r.bytes) == a + b + r.bytes;
    }
  }

  /** For every key of one of the three sizes, Decrypt(Encrypt(x)) = x. */
  lemma AesRoundTrip(mode: CipherMode, padding: PaddingMode, key: seq<bv8>, keySize: int, iv: Block, data: seq<bv8>)
    requires (keySize == 128 || keySize == 192 || keySize == 256) && |key| == keySize / 8
    requires mode == ECB || ((mode == CBC || mode == CFB) && |iv| == BLOCK)
    requires padding == PKCS7 || (padding == NoPadding && Whole(|data|, BLOCK))
    ensures var e, d := Forward(key, RoundsFor(keySize)), Backward(key, RoundsFor(keySize));
            && KeepsSize(e, BLOCK) && KeepsSize(d, BLOCK)
            && var r := BlockModes.Encrypt(mode, padding, BLOCK, e, iv, data);
               r.Ok? && BlockModes.Decrypt(mode, padding, BLOCK, e, d, iv, r.bytes) == Ok(data)
  {
    hide Forward, Backward, BlockModes.Encrypt, BlockModes.Decrypt, Whole, KeepsSize, Inverse;
    var e, d := Forward(key, RoundsFor(keySize)), Backward(key, RoundsFor(keySize));
    BlockFunctionsKeepSize(key, RoundsFor(keySize));
    BlockFunctionsInverse(key, RoundsFor(keySize));
    BlockModes.DecryptUndoesEncrypt(mode, padding, BLOCK, e, d, iv, data);
  }

  /** Without padding at one end and with PKCS7 at the other: decryption of one block is the check of the block encrypted. */
  lemma OneBlockUnpadded(key: seq<bv8>, rounds: nat, iv: Block, block: Block)
    requires |key| >= 4 && rounds > 0 && |block| == BLOCK
    ensures var e, d := Forward(key, rounds), Backward(key, rounds);
            && KeepsSize(e, BLOCK) && KeepsSize(d, BLOCK)
            && BlockModes.Decrypt(ECB, PKCS7, BLOCK, e, d, iv, e(block)) == Unpad(PKCS7, block)
  {
    hide Forward, Backward, Unpad;
    var e, d := Forward(key, rounds), Backward(key, rounds);
    BlockFunctionsKeepSize(key, rounds);
    BlockFunctionsInverse(key, rounds);
    var c := e(block);
    assert d(c) == block;
    assert c[..BLOCK] == c;
    DecryptNext(ECB, PKCS7, BLOCK, e, d, iv, c);
  }

  /** For every key: sixteen bytes 0x11 make the check read before the block, sixteen zeroes pass it unshortened. */
  lemma PaddingFails(key: seq<bv8>, keySize: int, iv: Block)
    requires (keySize == 128 || keySize == 192 || keySize == 256) && |key| == keySize / 8
    ensures var e, d := Forward(key, RoundsFor(keySize)), Backward(key, RoundsFor(keySize));
            && KeepsSize(e, BLOCK) && KeepsSize(d, BLOCK)
            && BlockModes.Decrypt(ECB, PKCS7, BLOCK, e, d, iv, e(seq(BLOCK, _ => 0x11))) == OutOfBounds
            && BlockModes.Decrypt(ECB, PKCS7, BLOCK, e, d, iv, e(Zeroes(BLOCK))) == Ok(Zeroes(BLOCK))
  {
    hide Forward, Backward, BlockModes.Decrypt, KeepsSize;
    var ones := seq(BLOCK, _ => 0x11 as bv8);
    OneBlockUnpadded(key, RoundsFor(keySize), iv, ones);
    OneBlockUnpadded(key, RoundsFor(keySize), iv, Zeroes(BLOCK));
    assert (0x11 as bv8) as int == 17;
    assert EndsWith(ones, 0x11, BLOCK);
    assert Zeroes(BLOCK)[..BLOCK] == Zeroes(BLOCK);
  }

  /** For every key there is an IV under which OFB does not restore two blocks of zeroes. */
  lemma OfbFails(key: seq<bv8>, keySize: int) returns (iv: Block)
    requires (keySize == 128 || keySize == 192 || keySize == 256) && |key| == keySize / 8
    ensures var e, d := Forward(key, RoundsFor(keySize)), Backward(key, RoundsFor(keySize));
            && |iv| == BLOCK && KeepsSize(e, BLOCK) && KeepsSize(d, BLOCK)
            && var r := BlockModes.Encrypt(OFB, NoPadding, BLOCK, e, iv, Zeroes(2 * BLOCK));
               r.Ok? && BlockModes.Decrypt(OFB, NoPadding, BLOCK, e, d, iv, r.bytes) != Ok(Zeroes(2 * BLOCK))
  {
    hide Forward, Backward, BlockModes.Decrypt, EncryptBlocks;
    var e, d := Forward(key, RoundsFor(keySize)), Backward(key, RoundsFor(keySize));
    BlockFunctionsKeepSize(key, RoundsFor(keySize));
    BlockFunctionsInverse(key, RoundsFor(keySize));
    var zeroes, ones := Zeroes(BLOCK), seq(BLOCK, _ => 1 as bv8);
    assert zeroes[0] != ones[0];
    assert d(e(zeroes)) == zeroes && d(e(ones)) == ones;
    iv := if e(zeroes) != zeroes then zeroes else ones;
    assert e(iv) != zeroes;
    OfbRoundTripIff(NoPadding, BLOCK, e, d, iv, Zeroes(2 * BLOCK));
    OfbIsFed(NoPadding, BLOCK, e, iv, Zeroes(2 * BLOCK));
  }
}
