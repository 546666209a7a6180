/** The full Merkle tree as one flat array of levels, and the branch that proves a leaf. */
module MerkleTrees {
  import opened MerkleLevels
  import opened Numbers

  /** The levels one after another, leaves first. */
  ghost function Flat<T>(h2: (T, T) -> T, leaves: seq<T>): seq<T>
    decreases |leaves|
  {
    if |leaves| <= 1 then leaves else leaves + Flat(h2, LevelUp(h2, leaves))
  }

  /** The last element of the array is the root. */
  lemma {:induction false} FlatEndsInRoot<T>(h2: (T, T) -> T, leaves: seq<T>)
    requires |leaves| > 0
    ensures |Flat(h2, leaves)| > 0 && Flat(h2, leaves)[|Flat(h2, leaves)| - 1] == Root(h2, leaves)
    decreases |leaves|
  {
    if |leaves| > 1 {
      FlatEndsInRoot(h2, LevelUp(h2, leaves));
      RootUp(h2, leaves);
    }
  }

  /** idx ^ 1: the other node of the pair. */
  function Sibling(idx: nat): nat { if idx % 2 == 0 then idx + 1 else idx - 1 }

  /** The siblings on the way from a leaf to the root. */
  ghost function Path<T>(h2: (T, T) -> T, leaves: seq<T>, idx: nat): seq<T>
    decreases |leaves|
  {
    if |leaves| <= 1 then [] else
      [leaves[Min(Sibling(idx), |leaves| - 1)]] + Path(h2, LevelUp(h2, leaves), idx / 2)
  }

  ghost function ApplyPath<T>(h2: (T, T) -> T, path: seq<T>, idx: nat, hash: T): T {
    if path == [] then hash else
      ApplyPath(h2, path[1..], idx / 2, if idx % 2 == 1 then h2(path[0], hash) else h2(hash, path[0]))
  }

  lemma {:induction false} PathLength<T>(h2: (T, T) -> T, leaves: seq<T>, idx: nat)
    ensures |Path(h2, leaves, idx)| == Height(|leaves|)
    decreases |leaves|
  {
    if |leaves| > 1 {
      PathLength(h2, LevelUp(h2, leaves), idx / 2);
    }
  }

  /** Completeness: the siblings of a leaf lead from it to the root. */
  lemma {:induction false} BranchGivesRoot<T>(h2: (T, T) -> T, leaves: seq<T>, idx: nat)
    requires idx < |leaves|
    ensures ApplyPath(h2, Path(h2, leaves, idx), idx, leaves[idx]) == Root(h2, leaves)
    decreases |leaves|
  {
    if |leaves| > 1 {
      var up, path := LevelUp(h2, leaves), Path(h2, leaves, idx);
      BranchGivesRoot(h2, up, idx / 2);
      RootUp(h2, leaves);
      assert path[1..] == Path(h2, up, idx / 2);
      assert up[idx / 2] == Parent(h2, leaves, idx / 2);
    }
  }

  /** Soundness: with a collision-free h2, a path of the right length that leads to the root starts at the leaf
      and is that leaf's own path. */
  lemma {:induction false} BranchIsSound<T(!new)>(h2: (T, T) -> T, leaves: seq<T>, idx: nat, path: seq<T>, hash: T)
    requires Injective(h2) && idx < |leaves| && |path| == Height(|leaves|)
    requires ApplyPath(h2, path, idx, hash) == Root(h2, leaves)
    ensures hash == leaves[idx] && path == Path(h2, leaves, idx)
    decreases |leaves|
  {
    hide Root;
    if |leaves| > 1 {
      var up, x := LevelUp(h2, leaves), path[0];
      var y := if idx % 2 == 1 then h2(x, hash) else h2(hash, x);
      RootUp(h2, leaves);
      BranchIsSound(h2, up, idx / 2, path[1..], y);
      ParentDetermines(h2, leaves, idx, x, hash);
      assert path == [x] + path[1..];
    } else {
      OneLeaf(h2, leaves);
    }
  }

  lemma OneLeaf<T>(h2: (T, T) -> T, leaves: seq<T>)
    requires |leaves| == 1
    ensures Root(h2, leaves) == leaves[0]
  {}

  /** A pair that hashes to a node's parent is that node and its sibling. */
  lemma ParentDetermines<T(!new)>(h2: (T, T) -> T, leaves: seq<T>, idx: nat, x: T, hash: T)
    requires Injective(h2) && idx < |leaves| && |leaves| > 1
    requires LevelUp(h2, leaves)[idx / 2] == if idx % 2 == 1 then h2(x, hash) else h2(hash, x)
    ensures hash == leaves[idx] && x == leaves[Min(Sibling(idx), |leaves| - 1)]
  {
    assert LevelUp(h2, leaves)[idx / 2] == Parent(h2, leaves, idx / 2);
  }

  datatype Outcome<+T> = Ok(value: T) | Fail

  datatype MerkleBranch<!T> = MerkleBranch(Vec: seq<T>, h2: (T, T) -> T, Index: int) {
    /** Apply: folds the branch onto a hash; a branch without an index is refused. */
    method Apply(hash: T) returns (r: Outcome<T>)
      ensures r.Fail? <==> Index < 0
      ensures r.Ok? ==> r.value == ApplyPath(h2, Vec, Index, hash)
    {
      if Index < 0 {
        return Fail;
      }
      var i, idx, h := 0, Index, hash;
      while i < |Vec|
        invariant 0 <= i <= |Vec| && idx >= 0
        invariant ApplyPath(h2, Vec[i..], idx, h) == ApplyPath(h2, Vec, Index, hash)
      {
        h := if idx % 2 == 1 then h2(Vec[i], h) else h2(h, Vec[i]);
        assert Vec[i..][1..] == Vec[i + 1..];
        i, idx := i + 1, idx / 2;
      }
      return Ok(h);
    }
  }

  /** One level more: the pairs of the nodes from j on, hashed in order. */
  method AppendLevel<T>(h2: (T, T) -> T, items: seq<T>, j: nat) returns (r: seq<T>)
    requires j <= |items|
    ensures r == items + LevelUp(h2, items[j..])
  {
    ghost var up := LevelUp(h2, items[j..]);
    var nSize, i := |items| - j, 0;
    r := items;
    while i < nSize
      invariant 0 <= i <= nSize + 1 && i % 2 == 0 && i / 2 <= |up|
      invariant r == items + up[..i / 2]
    {
      assert up[i / 2] == Parent(h2, items[j..], i / 2);
      r := r + [h2(r[j + i], r[j + Min(i + 1, nSize - 1)])];
      assert up[..i / 2 + 1] == up[..i / 2] + [up[i / 2]];
      i := i + 2;
    }
  }

  lemma FlatStep<T>(h2: (T, T) -> T, items: seq<T>, more: seq<T>, j: nat)
    requires j + 1 < |items| && more == items + LevelUp(h2, items[j..])
    ensures items[..j] + Flat(h2, items[j..]) == more[..|items|] + Flat(h2, more[|items|..])
  {
    hide Flat, LevelUp;
    FlatDef(h2, items[j..]);
    assert more[|items|..] == LevelUp(h2, items[j..]) && more[..|items|] == items;
    assert items == items[..j] + items[j..];
  }

  lemma FlatDef<T>(h2: (T, T) -> T, leaves: seq<T>)
    requires |leaves| > 1
    ensures Flat(h2, leaves) == leaves + Flat(h2, LevelUp(h2, leaves))
  {}

  lemma ShortPath<T>(h2: (T, T) -> T, leaves: seq<T>, idx: nat)
    requires |leaves| <= 1
    ensures Path(h2, leaves, idx) == []
  {}

  /** One level of the walk: the sibling is found in the array, and the next level follows this one. */
  lemma BranchStep<T>(h2: (T, T) -> T, vec: seq<T>, j: nat, level: seq<T>, i: nat, path: seq<T>, whole: seq<T>)
    requires |level| > 1 && j <= |vec| && vec[j..] == Flat(h2, level) && whole == path + Path(h2, level, i)
    ensures var at := j + Min(Sibling(i), |level| - 1); var up := LevelUp(h2, level);
            && at < |vec| && j + |level| <= |vec|
            && vec[j + |level|..] == Flat(h2, up)
            && whole == path + [vec[at]] + Path(h2, up, i / 2)
  {
    hide Flat, LevelUp;
    FlatDef(h2, level);
    var at := Min(Sibling(i), |level| - 1);
    assert vec[j..][..|level|] == level && vec[j + at] == vec[j..][at];
    assert vec[j..][|level|..] == vec[j + |level|..];
  }

  class MerkleTree<T> {
    var Vec: seq<T>
    var SourceSize: int
    const h2: (T, T) -> T

    ghost function Leaves(): seq<T>
      reads this
    {
      if 0 <= SourceSize <= |Vec| then Vec[..SourceSize] else []
    }

    ghost predicate Valid()
      reads this
    {
      SourceSize <= |Vec| && Vec == Flat(h2, Leaves())
    }

    /** Hashes the items and appends level after level until one node is left. */
    constructor <U>(ar: seq<U>, h1: (U, int) -> T, h2: (T, T) -> T)
      ensures Valid() && SourceSize == |ar| && this.h2 == h2
      ensures Leaves() == seq(|ar|, i requires 0 <= i < |ar| => h1(ar[i], i))
    {
      var items: seq<T> := [];
      var i := 0;
      while i < |ar|
        invariant 0 <= i <= |ar|
        invariant items == seq(i, k requires 0 <= k < i => h1(ar[k], k))
      {
        items := items + [h1(ar[i], i)];
        i := i + 1;
      }
      ghost var leaves := items;
      var j, nSize := 0, |ar|;
      assert items[0..] == items;
      while nSize > 1
        invariant 0 <= j && 0 <= nSize && |items| == j + nSize
        invariant Flat(h2, leaves) == items[..j] + Flat(h2, items[j..])
        invariant |items| >= |leaves| && items[..|leaves|] == leaves
        decreases nSize
      {
        ghost var before := items;
        items := AppendLevel(h2, items, j);
        FlatStep(h2, before, items, j);
        assert items[..|leaves|] == before[..|leaves|];
        j, nSize := j + nSize, (nSize + 1) / 2;
      }
      assert items == items[..j] + items[j..];
      this.Vec, this.SourceSize, this.h2 := items, |ar|, h2;
    }

    /** The branch of leaf idx: one sibling for each level but the last, clamped to the level's last node. */
    method GetBranch(idx: nat) returns (r: MerkleBranch<T>)
      requires Valid()
      ensures r == MerkleBranch(Path(h2, Leaves(), idx), h2, idx)
    {
      hide Flat, Path, LevelUp, Sibling;
      ShortPath(h2, [], idx);
      var path: seq<T> := [];
      var j, n, i := 0, SourceSize, idx;
      ghost var level := Leaves();
      assert Vec[0..] == Vec && [] + Path(h2, level, i) == Path(h2, level, i);
      while n > 1
        invariant i >= 0 && 0 <= j <= |Vec| && |level| == Max(0, n) && Vec[j..] == Flat(h2, level)
        invariant Path(h2, Leaves(), idx) == path + Path(h2, level, i)
        decreases n
      {
        BranchStep(h2, Vec, j, level, i, path, Path(h2, Leaves(), idx));
        path := path + [Vec[j + Min(Sibling(i), n - 1)]];
        level := LevelUp(h2, level);
        j, n, i := j + n, (n + 1) / 2, i / 2;
      }
      ShortPath(h2, level, i);
      assert path == path + [];
      r := MerkleBranch(path, h2, idx);
    }
  }

  /** A tree's own branches verify: applying the branch of a leaf to that leaf gives the tree's last element. */
  method BranchVerifies<T>(tree: MerkleTree<T>, idx: nat) returns (root: T)
    requires tree.Valid() && idx < |tree.Leaves()|
    ensures root == Root(tree.h2, tree.Leaves()) && |tree.Vec| > 0 && root == tree.Vec[|tree.Vec| - 1]
  {
    var branch := tree.GetBranch(idx);
    assert tree.Leaves()[idx] == tree.Vec[idx];
    var r := branch.Apply(tree.Vec[idx]);
    BranchGivesRoot(tree.h2, tree.Leaves(), idx);
    FlatEndsInRoot(tree.h2, tree.Leaves());
    root := r.value;
  }
}
