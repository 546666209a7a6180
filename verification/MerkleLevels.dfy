/** The levels of a Merkle tree: an odd level pairs its last node with itself. */
module MerkleLevels {
  import opened Positional

  function Parent<T>(h2: (T, T) -> T, level: seq<T>, i: nat): T
    requires 2 * i < |level|
  {
    h2(level[2 * i], if 2 * i + 1 < |level| then level[2 * i + 1] else level[2 * i])
  }

  function LevelUp<T>(h2: (T, T) -> T, level: seq<T>): (up: seq<T>)
    ensures |up| == (|level| + 1) / 2
  {
    seq((|level| + 1) / 2, i requires 0 <= i < (|level| + 1) / 2 => Parent(h2, level, i))
  }

  /** All nodes h steps above the leaves. */
  function Level<T>(h2: (T, T) -> T, leaves: seq<T>, h: nat): seq<T> {
    if h == 0 then leaves else LevelUp(h2, Level(h2, leaves, h - 1))
  }

  lemma {:induction false} LevelShift<T>(h2: (T, T) -> T, leaves: seq<T>, h: nat)
    ensures Level(h2, LevelUp(h2, leaves), h) == Level(h2, leaves, h + 1)
  {
    if h > 0 {
      LevelShift(h2, leaves, h - 1);
    }
  }

  /** The number of nodes at a height, as the code computes it. */
  function Width(n: nat, height: nat): nat {
    (n + Pow(2, height) - 1) / Pow(2, height)
  }

  lemma WidthStep(n: nat, h: nat)
    ensures Width(n, h + 1) == (Width(n, h) + 1) / 2
  {
    hide *;
    var p := Pow(2, h);
    PowNext(2, h);
    WidthDef(n, h);
    WidthDef(n, h + 1);
    var w, r := (n + p - 1) / p, (n + p - 1) % p;
    assert n + p - 1 == w * p + r;
    if w % 2 == 0 {
      var k := w / 2;
      assert w * p == k * (2 * p) by { MulAssoc(k, 2, p); }
      DivUnique(n + 2 * p - 1, 2 * p, k, r + p);
    } else {
      var k := (w + 1) / 2;
      assert (w + 1) * p == k * (2 * p) by { MulAssoc(k, 2, p); }
      MulAdd(p, w, 1);
      DivUnique(n + 2 * p - 1, 2 * p, k, r);
    }
  }

  lemma WidthDef(n: nat, h: nat)
    ensures Width(n, h) == (n + Pow(2, h) - 1) / Pow(2, h)
  {}

  lemma WidthZero(n: nat)
    ensures Width(n, 0) == n
  {
    assert Pow(2, 0) == 1;
  }

  lemma {:induction false} LevelWidth<T>(h2: (T, T) -> T, leaves: seq<T>, h: nat)
    ensures |Level(h2, leaves, h)| == Width(|leaves|, h)
  {
    if h == 0 {
      WidthZero(|leaves|);
    } else {
      LevelWidth(h2, leaves, h - 1);
      WidthStep(|leaves|, h - 1);
    }
  }

  /** Halving, rounded up, until at most one node is left. */
  function Height(n: nat): nat {
    if n <= 1 then 0 else 1 + Height((n + 1) / 2)
  }

  lemma {:induction false} WidthShift(n: nat, h: nat)
    ensures Width((n + 1) / 2, h) == Width(n, h + 1)
  {
    if h == 0 {
      WidthZero(n);
      WidthZero((n + 1) / 2);
      WidthStep(n, 0);
    } else {
      WidthShift(n, h - 1);
      WidthStep((n + 1) / 2, h - 1);
      WidthStep(n, h);
    }
  }

  /** Height is the first height at which at most one node is left, and there is one if there are leaves at all. */
  lemma {:induction false} HeightIsFirst(n: nat)
    ensures Width(n, Height(n)) == if n == 0 then 0 else 1
    ensures forall h: nat | h < Height(n) :: Width(n, h) > 1
  {
    hide Width;
    if n <= 1 {
      WidthZero(n);
    } else {
      HeightIsFirst((n + 1) / 2);
      WidthShift(n, Height((n + 1) / 2));
      forall h: nat | h < Height(n) ensures Width(n, h) > 1 {
        if h == 0 {
          WidthZero(n);
        } else {
          WidthShift(n, h - 1);
        }
      }
    }
  }

  /** Height is the logarithm rounded up: 2^(Height-1) < n <= 2^Height. */
  lemma {:induction false} HeightIsLog(n: nat)
    requires n > 0
    ensures n <= Pow(2, Height(n))
    ensures n > 1 ==> Height(n) > 0 && Pow(2, Height(n) - 1) < n
  {
    if n == 2 {
      assert Height(1) == 0 && Height(2) == 1 && Pow(2, 1) == 2 * Pow(2, 0);
    } else if n > 1 {
      var m := (n + 1) / 2;
      HeightIsLog(m);
      PowNext(2, Height(m));
      PowNext(2, Height(m) - 1);
    }
  }

  /** The Merkle root of a non-empty list of leaves. */
  function Root<T>(h2: (T, T) -> T, leaves: seq<T>): T
    requires |leaves| > 0
  {
    LevelWidth(h2, leaves, Height(|leaves|));
    HeightIsFirst(|leaves|);
    Level(h2, leaves, Height(|leaves|))[0]
  }

  lemma RootUp<T>(h2: (T, T) -> T, leaves: seq<T>)
    requires |leaves| > 1
    ensures Root(h2, LevelUp(h2, leaves)) == Root(h2, leaves)
  {
    LevelShift(h2, leaves, Height((|leaves| + 1) / 2));
  }

  /** Two different pairs of hashes have different parents. */
  ghost predicate Injective<T(!new)>(h2: (T, T) -> T) {
    forall a, b, c, d :: h2(a, b) == h2(c, d) ==> a == c && b == d
  }
}
