/** The block cipher modes as equations between the k-th blocks of data and output, and that Encrypt solves them. */
module ModeEquations {
  import opened BlockModes
  import opened ByteBuffers
  import opened Positional
  import opened XorBytes

  // ---------- the padded data

  /** How many bytes are added to n bytes of data. */
  function FillLength(padding: PaddingMode, bs: nat, n: nat): (f: nat)
    requires bs > 0
    ensures f <= bs
  {
    match padding
    case PKCS7 => bs - n % bs
    case Zeros => if n % bs == 0 then 0 else bs - n % bs
    case _ => 0
  }

  /** PKCS7 fills with the count of the bytes added, the other modes with zeroes. */
  ghost function Padded(padding: PaddingMode, bs: nat, data: seq<bv8>): seq<bv8>
    requires 0 < bs < 256
  {
    var n := FillLength(padding, bs, |data|);
    data + if padding == PKCS7 then seq(n, _ => ByteOf(n)) else Zeroes(n)
  }

  lemma PaddedIsWhole(padding: PaddingMode, bs: nat, data: seq<bv8>)
    requires 0 < bs < 256 && (padding == PKCS7 || padding == Zeros || (padding == NoPadding && Whole(|data|, bs)))
    ensures Whole(|Padded(padding, bs, data)|, bs)
  {
    var q, r := |data| / bs, |data| % bs;
    assert |data| == q * bs + r;
    MulAdd(bs, q, 1);
    DivUnique(q * bs + bs, bs, q + 1, 0);
  }

  lemma PaddedShort(padding: PaddingMode, bs: nat, data: seq<bv8>)
    requires |data| < bs < 256 && (padding == PKCS7 || (padding == Zeros && data != []))
    ensures BlockModes.Padding(padding, bs - |data|).Ok?
    ensures Padded(padding, bs, data) == data + BlockModes.Padding(padding, bs - |data|).bytes
  {
    assert |data| % bs == |data| by { DivUnique(|data|, bs, 0, |data|); }
  }

  lemma PaddedNothing(padding: PaddingMode, bs: nat)
    requires 0 < bs < 256 && padding != PKCS7
    ensures Padded(padding, bs, []) == []
  {}

  lemma PaddedNext(padding: PaddingMode, bs: nat, data: seq<bv8>)
    requires 0 < bs < 256 && |data| >= bs
    ensures Padded(padding, bs, data) == data[..bs] + Padded(padding, bs, data[bs..])
  {
    assert |data| % bs == (|data| - bs) % bs by {
      var q, r := |data| / bs, |data| % bs;
      assert |data| == q * bs + r;
      MulAdd(bs, q, 1);
      DivUnique(|data| - bs, bs, q - 1, r);
    }
  }

  // ---------- blocks by number

  /** Block k stands in n bytes. */
  predicate HasBlock(bs: nat, n: nat, k: nat) { (k + 1) * bs <= n }

  function BlockAt(s: seq<bv8>, bs: nat, k: nat): Block
    requires HasBlock(bs, |s|, k)
  {
    MulAdd(bs, k, 1);
    s[k * bs..k * bs + bs]
  }

  lemma BlockAtFirst(head: Block, tail: seq<bv8>)
    ensures BlockAt(head + tail, |head|, 0) == head
  {}

  lemma BlockAtNext(head: Block, tail: seq<bv8>, k: nat)
    requires HasBlock(|head|, |tail|, k)
    ensures HasBlock(|head|, |head + tail|, k + 1) && BlockAt(head + tail, |head|, k + 1) == BlockAt(tail, |head|, k)
  {
    MulAdd(|head|, k, 1);
    MulAdd(|head|, k, 2);
  }

  /** What the k-th block of the output is, from the k-th block of the data and the output block before it. */
  ghost predicate BlockEquation(mode: CipherMode, e: BlockFunction, p: Block, before: Block, c: Block) {
    match mode
    case ECB => c == e(p)
    case CBC => |p| == |before| && c == e(XorBlocks(p, before))
    case CFB => |e(before)| == |p| && c == XorBlocks(e(before), p)
    case OFB => |e(before)| == |p| && c == XorBlocks(e(before), p)
    case CTS => false
  }

  /** The k-th block of c solves the equation of the mode; the IV stands before the first block. */
  ghost predicate SolvesAt(mode: CipherMode, bs: nat, e: BlockFunction, iv: Block, p: seq<bv8>, c: seq<bv8>, k: nat)
    requires |p| == |c| && HasBlock(bs, |p|, k)
  {
    MulLe(k, k + 1, bs);
    BlockEquation(mode, e, BlockAt(p, bs, k), if k == 0 then iv else BlockAt(c, bs, k - 1), BlockAt(c, bs, k))
  }

  ghost predicate Chained(mode: CipherMode, bs: nat, e: BlockFunction, iv: Block, p: seq<bv8>, c: seq<bv8>)
    requires bs > 0
  {
    && |c| == |p| && Whole(|p|, bs)
    && forall k: nat {:trigger SolvesAt(mode, bs, e, iv, p, c, k)} | HasBlock(bs, |p|, k) :: SolvesAt(mode, bs, e, iv, p, c, k)
  }

  lemma ChainedNothing(mode: CipherMode, bs: nat, e: BlockFunction, iv: Block)
    requires bs > 0
    ensures Chained(mode, bs, e, iv, [], [])
  {
    SmallWhole(0, bs);
    forall k: nat ensures !HasBlock(bs, 0, k) {
      MulLe(1, k + 1, bs);
    }
  }

  /** A block before others: its own equation, and those of the others with its chaining block for IV. */
  lemma ChainedNext(mode: CipherMode, bs: nat, e: BlockFunction, iv: Block, p0: Block, c0: Block, chain: Block,
                    p: seq<bv8>, c: seq<bv8>)
    requires bs > 0 && |p0| == |c0| == bs && BlockEquation(mode, e, p0, iv, c0)
    requires Chained(mode, bs, e, chain, p, c) && (mode != ECB ==> chain == c0)
    ensures Chained(mode, bs, e, iv, p0 + p, c0 + c)
  {
    hide Whole, SolvesAt, BlockEquation;
    DropBlock(|p0 + p|, bs);
    forall k: nat | HasBlock(bs, |p0 + p|, k) ensures SolvesAt(mode, bs, e, iv, p0 + p, c0 + c, k) {
      if k == 0 {
        FirstSolves(mode, bs, e, iv, p0, c0, p, c);
      } else {
        MulAdd(bs, k, 1);
        NextSolves(mode, bs, e, iv, p0, c0, chain, p, c, k - 1);
      }
    }
  }

  lemma FirstSolves(mode: CipherMode, bs: nat, e: BlockFunction, iv: Block, p0: Block, c0: Block, p: seq<bv8>, c: seq<bv8>)
    requires |p0| == |c0| == bs && |p| == |c| && BlockEquation(mode, e, p0, iv, c0)
    ensures SolvesAt(mode, bs, e, iv, p0 + p, c0 + c, 0)
  {
    hide BlockEquation, BlockAt;
    BlockAtFirst(p0, p);
    BlockAtFirst(c0, c);
  }

  lemma NextSolves(mode: CipherMode, bs: nat, e: BlockFunction, iv: Block, p0: Block, c0: Block, chain: Block,
                   p: seq<bv8>, c: seq<bv8>, k: nat)
    requires |p0| == |c0| == bs && |p| == |c| && (mode != ECB ==> chain == c0)
    requires HasBlock(bs, |p|, k) && SolvesAt(mode, bs, e, chain, p, c, k)
    ensures HasBlock(bs, |p0 + p|, k + 1) && SolvesAt(mode, bs, e, iv, p0 + p, c0 + c, k + 1)
  {
    hide BlockEquation, BlockAt;
    BlockAtNext(p0, p, k);
    BlockAtNext(c0, c, k);
    if k == 0 {
      BlockAtFirst(c0, c);
      FirstBefore(mode, e, BlockAt(p, bs, 0), chain, c0, BlockAt(c, bs, 0));
    } else {
      MulLe(k, k + 1, bs);
      BlockAtNext(c0, c, k - 1);
    }
  }

  lemma FirstBefore(mode: CipherMode, e: BlockFunction, p: Block, chain: Block, c0: Block, c: Block)
    requires BlockEquation(mode, e, p, chain, c) && (mode != ECB ==> chain == c0)
    ensures BlockEquation(mode, e, p, c0, c)
  {}

  // ---------- Encrypt solves the equations

  /** One turn of the loop writes the solution of the mode's equation, and carries it on where the mode chains. */
  lemma StepSolves(mode: CipherMode, bs: nat, e: BlockFunction, chain: Block, data: Block)
    requires KeepsSize(e, bs) && |data| == bs && (mode != ECB ==> |chain| == bs) && mode != CTS
    ensures var s := EncryptStep(mode, e, chain, data);
            s.Step? && |s.out| == bs && BlockEquation(mode, e, data, chain, s.out) && (mode != ECB ==> s.chain == s.out)
  {}

  lemma {:induction false} BlocksSolve(mode: CipherMode, padding: PaddingMode, bs: nat, e: BlockFunction, chain: Block,
                                       data: seq<bv8>)
    requires 0 < bs < 256 && KeepsSize(e, bs) && (mode != ECB ==> |chain| == bs) && mode != CTS
    requires padding == PKCS7 || padding == Zeros || (padding == NoPadding && Whole(|data|, bs))
    ensures var r := EncryptBlocks(mode, padding, bs, e, chain, data);
            r.Ok? && Chained(mode, bs, e, chain, Padded(padding, bs, data), r.bytes)
    decreases |data|
  {
    hide EncryptBlocks, EncryptStep, Whole, Chained, BlockEquation, Padded, Padding;
    if |data| < bs {
      SmallWhole(|data|, bs);
      if padding != PKCS7 && data == [] {
        EncryptNothing(mode, padding, bs, e, chain);
        PaddedNothing(padding, bs);
        ChainedNothing(mode, bs, e, chain);
      } else {
        PaddedShort(padding, bs, data);
        var block := Padded(padding, bs, data);
        EncryptLast(mode, padding, bs, e, chain, data);
        FillIs(padding, bs - |data|);
        StepSolves(mode, bs, e, chain, block);
        var c := EncryptStep(mode, e, chain, block).out;
        ChainedNothing(mode, bs, e, c);
        ChainedNext(mode, bs, e, chain, block, c, c, [], []);
        assert block + [] == block && c + [] == c;
      }
    } else {
      EncryptNext(mode, padding, bs, e, chain, data);
      PaddedNext(padding, bs, data);
      StepSolves(mode, bs, e, chain, data[..bs]);
      var s := EncryptStep(mode, e, chain, data[..bs]);
      BlocksSolve(mode, padding, bs, e, s.chain, data[bs..]);
      ChainedNext(mode, bs, e, chain, data[..bs], s.out, s.chain, Padded(padding, bs, data[bs..]),
                  EncryptBlocks(mode, padding, bs, e, s.chain, data[bs..]).bytes);
    }
  }

  lemma FillIs(padding: PaddingMode, n: nat)
    requires n < 256
    ensures BlockModes.Padding(padding, n).Ok? <==> padding == PKCS7 || padding == Zeros
    ensures var p := BlockModes.Padding(padding, n); if p.Ok? then |p.bytes| == n else p == Throw(NotImplemented)
  {}

  /** The modes and paddings that are refused on the way. */
  lemma {:induction false} BlocksRefused(mode: CipherMode, padding: PaddingMode, bs: nat, e: BlockFunction, chain: Block,
                                         data: seq<bv8>)
    requires 0 < bs < 256 && KeepsSize(e, bs) && (mode != ECB ==> |chain| == bs)
    requires padding == NoPadding ==> Whole(|data|, bs)
    requires padding == ANSIX923 || padding == ISO10126 || mode == CTS
    ensures EncryptBlocks(mode, padding, bs, e, chain, data)
         == if data == [] && (padding == NoPadding || padding == Zeros) then Ok([]) else Throw(NotImplemented)
    decreases |data|
  {
    hide EncryptBlocks, Whole, Padding;
    if |data| < bs {
      if data == [] && (padding == NoPadding || padding == Zeros) {
        EncryptNothing(mode, padding, bs, e, chain);
      } else {
        SmallWhole(|data|, bs);
        EncryptLast(mode, padding, bs, e, chain, data);
        FillIs(padding, bs - |data|);
      }
    } else {
      EncryptNext(mode, padding, bs, e, chain, data);
      if mode != CTS {
        var s := EncryptStep(mode, e, chain, data[..bs]);
        BlocksRefused(mode, padding, bs, e, s.chain, data[bs..]);
      }
    }
  }

  /** What Encrypt returns for every mode, padding, IV and data. */
  ghost predicate Encrypted(mode: CipherMode, padding: PaddingMode, bs: nat, e: BlockFunction, iv: Block, data: seq<bv8>,
                            r: Result)
    requires 0 < bs < 256
  {
    if (mode != ECB && |iv| != bs) || (padding == NoPadding && !Whole(|data|, bs)) then r == Throw(InvalidArgument)
    else if padding == ANSIX923 || padding == ISO10126 then r == Throw(NotImplemented)
    else if mode == CTS then r == if data == [] && padding != PKCS7 then Ok([]) else Throw(NotImplemented)
    else r.Ok? && Chained(mode, bs, e, iv, Padded(padding, bs, data), r.bytes)
  }

  lemma EncryptSolves(mode: CipherMode, padding: PaddingMode, bs: nat, e: BlockFunction, iv: Block, data: seq<bv8>)
    requires 0 < bs < 256 && KeepsSize(e, bs)
    ensures Encrypted(mode, padding, bs, e, iv, data, BlockModes.Encrypt(mode, padding, bs, e, iv, data))
  {
    hide EncryptBlocks, Whole, Chained, Padded;
    if (mode != ECB ==> |iv| == bs) && (padding == NoPadding ==> Whole(|data|, bs)) {
      if padding == ANSIX923 || padding == ISO10126 || mode == CTS {
        BlocksRefused(mode, padding, bs, e, iv, data);
      } else {
        BlocksSolve(mode, padding, bs, e, iv, data);
      }
    }
  }

  /** The equations leave no choice: the output is determined by the data, the block function and the IV. */
  lemma ChainedUnique(mode: CipherMode, bs: nat, e: BlockFunction, iv: Block, p: seq<bv8>, c: seq<bv8>, c': seq<bv8>, k: nat)
    requires bs > 0 && Chained(mode, bs, e, iv, p, c) && Chained(mode, bs, e, iv, p, c') && HasBlock(bs, |p|, k)
    ensures BlockAt(c, bs, k) == BlockAt(c', bs, k)
  {
    assert SolvesAt(mode, bs, e, iv, p, c, k) && SolvesAt(mode, bs, e, iv, p, c', k);
    if k > 0 {
      MulLe(k, k + 1, bs);
      ChainedUnique(mode, bs, e, iv, p, c, c', k - 1);
    }
  }
}
