/** Trees of three leaves in full: which hashes are paired, which stand in a branch, and what a partial tree holds. */
module MerkleExamples {
  import opened MerkleLevels
  import opened MerkleTrees
  import opened PartialMerkle
  import opened Positional

  /** The third leaf is paired with itself. */
  lemma RootOfThree<T>(h2: (T, T) -> T, a: T, b: T, c: T)
    ensures Level(h2, [a, b, c], 1) == [h2(a, b), h2(c, c)]
    ensures Root(h2, [a, b, c]) == h2(h2(a, b), h2(c, c))
  {
    LevelsOfThree(h2, a, b, c);
    assert Height(3) == 2;
  }

  lemma LevelsOfThree<T>(h2: (T, T) -> T, a: T, b: T, c: T)
    ensures Level(h2, [a, b, c], 1) == [h2(a, b), h2(c, c)]
    ensures Level(h2, [a, b, c], 2) == [h2(h2(a, b), h2(c, c))]
  {
    assert Level(h2, [a, b, c], 0) == [a, b, c];
    assert LevelUp(h2, [a, b, c]) == [h2(a, b), h2(c, c)];
    assert LevelUp(h2, [h2(a, b), h2(c, c)]) == [h2(h2(a, b), h2(c, c))];
  }

  /** The branches: on the way up the last leaf meets itself, then the node of the other two. */
  lemma BranchesOfThree<T>(h2: (T, T) -> T, a: T, b: T, c: T)
    ensures Path(h2, [a, b, c], 0) == [b, h2(c, c)]
    ensures Path(h2, [a, b, c], 1) == [a, h2(c, c)]
    ensures Path(h2, [a, b, c], 2) == [c, h2(a, b)]
  {
    LevelsOfThree(h2, a, b, c);
    var up := [h2(a, b), h2(c, c)];
    assert LevelUp(h2, [a, b, c]) == up;
    assert LevelUp(h2, up) == [h2(h2(a, b), h2(c, c))];
    assert Path(h2, up, 0) == [h2(c, c)] + Path(h2, LevelUp(h2, up), 0) == [h2(c, c)];
    assert Path(h2, up, 1) == [h2(a, b)] + Path(h2, LevelUp(h2, up), 0) == [h2(a, b)];
  }

  lemma Widths()
    ensures Width(3, 0) == 3 && Width(3, 1) == 2 && Width(3, 2) == 1
  {
    assert Pow(2, 0) == 1 && Pow(2, 1) == 2 && Pow(2, 2) == 4;
  }

  lemma Ranges()
    ensures First(2, 0) == 0 && Last(3, 2, 0) == 3
    ensures First(1, 0) == 0 && Last(3, 1, 0) == 2 && First(1, 1) == 2 && Last(3, 1, 1) == 3
    ensures First(0, 2) == 2 && Last(3, 0, 2) == 3
  {
    assert Pow(2, 0) == 1 && Pow(2, 1) == 2 && Pow(2, 2) == 4;
  }

  /** With the third leaf marked: the root, the pair without a mark, the pair of the marked leaf, the leaf itself. */
  lemma PartialOfThree<T>(h2: (T, T) -> T, a: T, b: T, c: T)
    ensures Width(3, 2) == 1
    ensures EncBits([false, false, true], 2, 0) == [true, false, true, true]
    ensures EncItems(h2, [a, b, c], [false, false, true], 2, 0) == [h2(a, b), c]
  {
    hide Width, First, Last, EncBits, EncItems;
    var leaves, marks := [a, b, c], [false, false, true];
    Widths();
    Ranges();
    assert marks[2] && HasMatch(marks, 2, 0) && !HasMatch(marks, 1, 0) && HasMatch(marks, 1, 1) && HasMatch(marks, 0, 2);
    EncInner(h2, leaves, marks, 2, 0);
    EncStored(h2, leaves, marks, 1, 0);
    EncInner(h2, leaves, marks, 1, 1);
    EncStored(h2, leaves, marks, 0, 2);
    CalcHashDef(h2, leaves, 1, 0);
  }
}
