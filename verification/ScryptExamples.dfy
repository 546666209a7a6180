/** The block mixing of scrypt on two and on four blocks, and the mixing with a table of one entry. */
module ScryptExamples {
  import opened Words32
  import opened ScryptMix

  /** Section 4 of RFC 7914 for r = 1: each result is the core of the one before, added to the next block. */
  lemma MixOfTwo(f: Core, b0: Block, b1: Block)
    requires KeepsBlocks(f) && |b0| == |b1| == 16
    ensures var y0 := f(XorBlock(b1, b0)); BlockMix(f, [b0, b1], 1) == [y0, f(XorBlock(y0, b1))]
  {
    hide XorBlock, Chained, Source;
    FirstResults(f, [b0, b1]);
    assert Source(0, 1) == 0 && Source(1, 1) == 1 by { Sources(); }
  }

  /** For r = 2 the results with even numbers come first. */
  lemma MixOfFour(f: Core, b0: Block, b1: Block, b2: Block, b3: Block)
    requires KeepsBlocks(f) && |b0| == |b1| == |b2| == |b3| == 16
    ensures var y0 := f(XorBlock(b3, b0)); var y1 := f(XorBlock(y0, b1));
            var y2 := f(XorBlock(y1, b2)); var y3 := f(XorBlock(y2, b3));
            BlockMix(f, [b0, b1, b2, b3], 2) == [y0, y2, y1, y3]
  {
    hide XorBlock, Chained, Source;
    var b := [b0, b1, b2, b3];
    FirstResults(f, b);
    ChainedNext(f, b, 2);
    ChainedNext(f, b, 3);
    Sources();
  }

  lemma Sources()
    ensures Source(0, 1) == 0 && Source(1, 1) == 1
    ensures Source(0, 2) == 0 && Source(1, 2) == 2 && Source(2, 2) == 1 && Source(3, 2) == 3
  {}

  lemma FirstResults(f: Core, b: seq<Block>)
    requires KeepsBlocks(f) && AreBlocks(b) && |b| >= 2
    ensures |b[0]| == |b[1]| == |b[|b| - 1]| == 16
    ensures Chained(f, b, 1) == f(XorBlock(b[|b| - 1], b[0])) && Chained(f, b, 2) == f(XorBlock(Chained(f, b, 1), b[1]))
  {
    hide XorBlock, Chained;
    ChainedFirst(f, b);
    ChainedNext(f, b, 0);
    ChainedNext(f, b, 1);
  }

  /** Section 5 for N = 2 and r = 1: the table holds B and the mix of B, X starts as the second mix, and the lowest bit of the
      first word of its last block says which entry is added in each of the two turns. */
  lemma RoMixOfTwo(f: Core, b: seq<Block>)
    requires KeepsBlocks(f) && AreBlocks(b) && |b| == 2
    ensures var v1 := BlockMix(f, b, 1); var x := BlockMix(f, v1, 1);
            var x1 := BlockMix(f, XorAll(x, if x[1][0] as int % 2 == 0 then b else v1), 1);
            RoMix(f, b, 1, 2) == BlockMix(f, XorAll(x1, if x1[1][0] as int % 2 == 0 then b else v1), 1)
  {
    hide BlockMix, XorAll, AreBlocks, V, Turns, Index;
    assert V(f, b, 1, 0) == b && V(f, b, 1, 1) == BlockMix(f, b, 1) && V(f, b, 1, 2) == BlockMix(f, V(f, b, 1, 1), 1) by {
      Entries(f, b);
    }
    TurnsFirst(f, b, 1, 2);
    NextTurn(f, b, 0);
    NextTurn(f, b, 1);
  }

  lemma Entries(f: Core, b: seq<Block>)
    requires KeepsBlocks(f) && AreBlocks(b) && |b| == 2
    ensures V(f, b, 1, 0) == b && V(f, b, 1, 1) == BlockMix(f, b, 1) && V(f, b, 1, 2) == BlockMix(f, V(f, b, 1, 1), 1)
  {
    hide BlockMix;
  }

  lemma NextTurn(f: Core, b: seq<Block>, i: nat)
    requires KeepsBlocks(f) && AreBlocks(b) && |b| == 2
    ensures var x := Turns(f, b, 1, 2, i);
            && |x[1]| == 16
            && Turns(f, b, 1, 2, i + 1) == BlockMix(f, XorAll(x, V(f, b, 1, if x[1][0] as int % 2 == 0 then 0 else 1)), 1)
  {
    hide BlockMix, XorAll, V, Index, AreBlocks;
    IndexOfTwo(Turns(f, b, 1, 2, i));
  }

  lemma IndexOfTwo(x: seq<Block>)
    requires |x| == 2 && AreBlocks(x)
    ensures |x[1]| == 16 && Index(x, 2) == if x[1][0] as int % 2 == 0 then 0 else 1
  {}
}
