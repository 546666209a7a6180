/** The Salsa20 core with a transposition after each column round, against the double round of the index table;
    and the block mixing of scrypt over it. */
module Salsa20 {
  import opened Words32

  type State = seq<bv32>

  // ---------- the double round by indices

  datatype Operation = Operation(dst: nat, a: nat, b: nat, rotation: nat)

  predicate InRange(o: Operation) { o.dst < 16 && o.a < 16 && o.b < 16 && 0 < o.rotation < 32 }

  /** g_salsaIndices: target, the two summands, the distance of the rotation. */
  const COLUMN_ROUND: seq<Operation> := [
    Operation(4, 0, 12, 7), Operation(9, 5, 1, 7), Operation(14, 10, 6, 7), Operation(3, 15, 11, 7),
    Operation(8, 4, 0, 9), Operation(13, 9, 5, 9), Operation(2, 14, 10, 9), Operation(7, 3, 15, 9),
    Operation(12, 8, 4, 13), Operation(1, 13, 9, 13), Operation(6, 2, 14, 13), Operation(11, 7, 3, 13),
    Operation(0, 12, 8, 18), Operation(5, 1, 13, 18), Operation(10, 6, 2, 18), Operation(15, 11, 7, 18)
  ]

  const ROW_ROUND: seq<Operation> := [
    Operation(1, 0, 3, 7), Operation(6, 5, 4, 7), Operation(11, 10, 9, 7), Operation(12, 15, 14, 7),
    Operation(2, 1, 0, 9), Operation(7, 6, 5, 9), Operation(8, 11, 10, 9), Operation(13, 12, 15, 9),
    Operation(3, 2, 1, 13), Operation(4, 7, 6, 13), Operation(9, 8, 11, 13), Operation(14, 13, 12, 13),
    Operation(0, 3, 2, 18), Operation(5, 4, 7, 18), Operation(10, 9, 8, 18), Operation(15, 14, 13, 18)
  ]

  /** x[dst] ^= rotl(x[a] + x[b], rotation) */
  function Apply(x: State, o: Operation): (y: State)
    requires |x| == 16 && InRange(o)
    ensures |y| == 16
  {
    x[o.dst := Mixed(x[o.dst], x[o.a], x[o.b], o.rotation)]
  }

  function Mixed(x: bv32, a: bv32, b: bv32, n: nat): bv32
    requires 0 < n < 32
  {
    Xor32(x, Rotl(Add(a, b), n))
  }

  /** The first k operations of a table, one after the other. */
  function ApplyFirst(x: State, ops: seq<Operation>, k: nat): (y: State)
    requires |x| == 16 && k <= |ops| && forall o <- ops :: InRange(o)
    ensures |y| == 16
  {
    if k == 0 then x else Apply(ApplyFirst(x, ops, k - 1), ops[k - 1])
  }

  lemma TablesInRange()
    ensures |COLUMN_ROUND| == 16 && forall o <- COLUMN_ROUND :: InRange(o)
    ensures |ROW_ROUND| == 16 && forall o <- ROW_ROUND :: InRange(o)
  {}

  function ColumnRound(x: State): (y: State)
    requires |x| == 16
    ensures |y| == 16
  {
    TablesInRange();
    ApplyFirst(x, COLUMN_ROUND, 16)
  }

  function RowRound(x: State): (y: State)
    requires |x| == 16
    ensures |y| == 16
  {
    TablesInRange();
    ApplyFirst(x, ROW_ROUND, 16)
  }

  /** n double rounds as the table gives them. */
  function DoubleRounds(x: State, n: nat): (y: State)
    requires |x| == 16
    ensures |y| == 16
  {
    if n == 0 then x else RowRound(ColumnRound(DoubleRounds(x, n - 1)))
  }

  // ---------- a row round is a column round on the transposed matrix

  function Mirror(i: nat): (r: nat)
    requires i < 16
    ensures r < 16
  {
    4 * (i % 4) + i / 4
  }

  lemma MirrorTwice(i: nat)
    requires i < 16
    ensures Mirror(Mirror(i)) == i
  {}

  function Transposed(x: State): (y: State)
    requires |x| == 16
    ensures |y| == 16
  {
    seq(16, i requires 0 <= i < 16 => x[Mirror(i)])
  }

  lemma TransposedTwice(x: State)
    requires |x| == 16
    ensures Transposed(Transposed(x)) == x
  {
    hide Mirror;
    forall i | 0 <= i < 16 ensures Transposed(Transposed(x))[i] == x[i] {
      MirrorTwice(i);
    }
  }

  function MirrorOperation(o: Operation): Operation
    requires InRange(o)
  {
    Operation(Mirror(o.dst), Mirror(o.a), Mirror(o.b), o.rotation)
  }

  /** The second half of the table is the first half, transposed. */
  lemma TablesMirror(k: nat)
    requires k < 16
    ensures |COLUMN_ROUND| == |ROW_ROUND| == 16
    ensures InRange(COLUMN_ROUND[k]) && ROW_ROUND[k] == MirrorOperation(COLUMN_ROUND[k])
  {}

  lemma ApplyMirrors(x: State, o: Operation)
    requires |x| == 16 && InRange(o)
    ensures InRange(MirrorOperation(o)) && Apply(Transposed(x), o) == Transposed(Apply(x, MirrorOperation(o)))
  {
    hide Mirror, Mixed;
    var y := Apply(x, MirrorOperation(o));
    forall i | 0 <= i < 16 ensures Apply(Transposed(x), o)[i] == y[Mirror(i)] {
      MirrorTwice(i);
      MirrorTwice(o.dst);
    }
  }

  lemma {:induction false} RoundsMirror(x: State, k: nat)
    requires |x| == 16 && k <= 16
    requires |COLUMN_ROUND| == |ROW_ROUND| == 16
    requires (forall o <- COLUMN_ROUND :: InRange(o)) && (forall o <- ROW_ROUND :: InRange(o))
    ensures ApplyFirst(Transposed(x), COLUMN_ROUND, k) == Transposed(ApplyFirst(x, ROW_ROUND, k))
  {
    hide Apply, Transposed, MirrorOperation, COLUMN_ROUND, ROW_ROUND;
    if k > 0 {
      RoundsMirror(x, k - 1);
      TablesMirror(k - 1);
      ApplyMirrors(ApplyFirst(x, ROW_ROUND, k - 1), COLUMN_ROUND[k - 1]);
    }
  }

  lemma ColumnRoundMirrors(x: State)
    requires |x| == 16
    ensures ColumnRound(Transposed(x)) == Transposed(RowRound(x))
  {
    hide Transposed, ApplyFirst;
    TablesInRange();
    RoundsMirror(x, 16);
  }

  // ---------- a column round is four quarter rounds

  datatype Quarter = Quarter(a: bv32, b: bv32, c: bv32, d: bv32)

  /** Step i of SalsaQuarterRound. */
  function QuarterStep(q: Quarter, i: nat): Quarter
    requires i < 4
  {
    match i
    case 0 => q.(b := Mixed(q.b, q.a, q.d, 7))
    case 1 => q.(c := Mixed(q.c, q.b, q.a, 9))
    case 2 => q.(d := Mixed(q.d, q.c, q.b, 13))
    case 3 => q.(a := Mixed(q.a, q.d, q.c, 18))
  }

  /** The first n steps. */
  function QuarterSteps(q: Quarter, n: nat): Quarter
    requires n <= 4
  {
    if n == 0 then q else QuarterStep(QuarterSteps(q, n - 1), n - 1)
  }

  /** The place of element i of column j, counted from the diagonal down. */
  function Cell(j: nat, i: nat): (p: nat)
    requires j < 4 && i < 4
    ensures p < 16
  {
    if 5 * j + 4 * i < 16 then 5 * j + 4 * i else 5 * j + 4 * i - 16
  }

  function Column(x: State, j: nat): Quarter
    requires |x| == 16 && j < 4
  {
    Quarter(x[Cell(j, 0)], x[Cell(j, 1)], x[Cell(j, 2)], x[Cell(j, 3)])
  }

  lemma CellsApart(j: nat, i: nat, m: nat, n: nat)
    requires j < 4 && i < 4 && m < 4 && n < 4
    ensures Cell(j, i) == Cell(m, n) <==> j == m && i == n
  {}

  /** The cells of the four columns are all there are. */
  lemma CellOf(p: nat) returns (j: nat, i: nat)
    requires p < 16
    ensures j < 4 && i < 4 && Cell(j, i) == p
  {
    j := p % 4;
    i := (p / 4 + 4 - j) % 4;
  }

  lemma SameColumns(x: State, y: State)
    requires |x| == |y| == 16 && forall j | 0 <= j < 4 :: Column(x, j) == Column(y, j)
    ensures x == y
  {
    hide Cell;
    forall p | 0 <= p < 16 ensures x[p] == y[p] {
      var j, i := CellOf(p);
      assert Column(x, j) == Column(y, j);
    }
  }

  function StepOperation(j: nat, i: nat): Operation
    requires j < 4 && i < 4
  {
    match i
    case 0 => Operation(Cell(j, 1), Cell(j, 0), Cell(j, 3), 7)
    case 1 => Operation(Cell(j, 2), Cell(j, 1), Cell(j, 0), 9)
    case 2 => Operation(Cell(j, 3), Cell(j, 2), Cell(j, 1), 13)
    case 3 => Operation(Cell(j, 0), Cell(j, 3), Cell(j, 2), 18)
  }

  /** The table takes the columns in turn: step i of column j stands at 4 i + j. */
  lemma TableIsSteps(j: nat, i: nat)
    requires j < 4 && i < 4
    ensures |COLUMN_ROUND| == 16 && COLUMN_ROUND[4 * i + j] == StepOperation(j, i)
  {}

  lemma StepOnColumns(x: State, j: nat, i: nat, m: nat)
    requires |x| == 16 && j < 4 && i < 4 && m < 4
    ensures InRange(StepOperation(j, i))
    ensures Column(Apply(x, StepOperation(j, i)), m) == if m == j then QuarterStep(Column(x, m), i) else Column(x, m)
  {
    hide Cell, Mixed;
    CellsApart(j, if i == 3 then 0 else i + 1, m, 0);
    CellsApart(j, if i == 3 then 0 else i + 1, m, 1);
    CellsApart(j, if i == 3 then 0 else i + 1, m, 2);
    CellsApart(j, if i == 3 then 0 else i + 1, m, 3);
  }

  /** After k = 4 i + j operations of the table the first j columns are one step ahead of the others. */
  lemma {:induction false} TableOnColumns(x: State, k: nat, m: nat)
    requires |x| == 16 && k <= 16 && m < 4
    requires |COLUMN_ROUND| == 16 && forall o <- COLUMN_ROUND :: InRange(o)
    ensures Ahead(k, m) <= 4 && Column(ApplyFirst(x, COLUMN_ROUND, k), m) == QuarterSteps(Column(x, m), Ahead(k, m))
  {
    hide Column, COLUMN_ROUND, Apply, StepOperation, QuarterStep;
    if k > 0 {
      var i, j := (k - 1) / 4, (k - 1) % 4;
      TableOnColumns(x, k - 1, m);
      TableIsSteps(j, i);
      StepOnColumns(ApplyFirst(x, COLUMN_ROUND, k - 1), j, i, m);
      AheadNext(k, m);
    }
  }

  /** How many steps column m has made after k operations. */
  function Ahead(k: nat, m: nat): nat
    requires m < 4
  {
    if m < k % 4 then k / 4 + 1 else k / 4
  }

  lemma AheadNext(k: nat, m: nat)
    requires 0 < k <= 16 && m < 4
    ensures Ahead(k, m) <= 4
    ensures if m == (k - 1) % 4 then Ahead(k, m) == Ahead(k - 1, m) + 1 && Ahead(k - 1, m) == (k - 1) / 4
            else Ahead(k, m) == Ahead(k - 1, m)
  {}

  /** The column round of the table, column by column. */
  lemma ColumnRoundOnColumns(x: State, m: nat)
    requires |x| == 16 && m < 4
    ensures Column(ColumnRound(x), m) == QuarterSteps(Column(x, m), 4)
  {
    hide Column, QuarterSteps, ApplyFirst;
    TablesInRange();
    TableOnColumns(x, 16, m);
  }

  // ---------- Salsa20Core

  /** Column j has made its four steps, the others none. */
  ghost predicate OneColumn(x: State, y: State, j: nat)
    requires |x| == |y| == 16 && j < 4
  {
    forall m | 0 <= m < 4 :: Column(y, m) == if m == j then QuarterSteps(Column(x, m), 4) else Column(x, m)
  }

  lemma AllColumns(x0: State, x1: State, x2: State, x3: State, x4: State)
    requires |x0| == |x1| == |x2| == |x3| == |x4| == 16
    requires OneColumn(x0, x1, 0) && OneColumn(x1, x2, 1) && OneColumn(x2, x3, 2) && OneColumn(x3, x4, 3)
    ensures x4 == ColumnRound(x0)
  {
    hide Column, QuarterSteps, ColumnRound;
    forall m | 0 <= m < 4 ensures Column(x4, m) == Column(ColumnRound(x0), m) {
      ColumnRoundOnColumns(x0, m);
      assert Column(x1, m) == if m == 0 then QuarterSteps(Column(x0, m), 4) else Column(x0, m);
      assert Column(x2, m) == if m == 1 then QuarterSteps(Column(x1, m), 4) else Column(x1, m);
      assert Column(x3, m) == if m == 2 then QuarterSteps(Column(x2, m), 4) else Column(x2, m);
    }
    SameColumns(x4, ColumnRound(x0));
  }

  /** SalsaQuarterRound on the elements of column j. */
  method QuarterRound(w: array<bv32>, a: nat, b: nat, c: nat, d: nat, ghost j: nat)
    requires w.Length == 16 && j < 4 && a == Cell(j, 0) && b == Cell(j, 1) && c == Cell(j, 2) && d == Cell(j, 3)
    modifies w
    ensures OneColumn(old(w[..]), w[..], j)
  {
    hide Cell, Mixed;
    ghost var x := w[..];
    w[b] := Mixed(w[b], w[a], w[d], 7);
    w[c] := Mixed(w[c], w[b], w[a], 9);
    w[d] := Mixed(w[d], w[c], w[b], 13);
    w[a] := Mixed(w[a], w[d], w[c], 18);
    FourSteps(Column(x, j));
    forall m | 0 <= m < 4 ensures Column(w[..], m) == if m == j then QuarterSteps(Column(x, m), 4) else Column(x, m) {
      ColumnsApart(j, m);
    }
  }

  lemma ColumnsApart(j: nat, m: nat)
    requires j < 4 && m < 4
    ensures forall i, n | 0 <= i < 4 && 0 <= n < 4 :: Cell(j, i) == Cell(m, n) <==> j == m && i == n
  {
    hide Cell;
    forall i, n | 0 <= i < 4 && 0 <= n < 4 ensures Cell(j, i) == Cell(m, n) <==> j == m && i == n {
      CellsApart(j, i, m, n);
    }
  }

  lemma FourSteps(q: Quarter)
    ensures QuarterSteps(q, 4) == QuarterStep(QuarterStep(QuarterStep(QuarterStep(q, 0), 1), 2), 3)
  {
    hide QuarterStep;
    assert QuarterSteps(q, 1) == QuarterStep(q, 0);
    assert QuarterSteps(q, 2) == QuarterStep(QuarterSteps(q, 1), 1);
    assert QuarterSteps(q, 3) == QuarterStep(QuarterSteps(q, 2), 2);
  }

  function Swapped(x: State, i: nat, j: nat): (y: State)
    requires |x| == 16 && i < 16 && j < 16
    ensures |y| == 16
  {
    x[i := x[j]][j := x[i]]
  }

  method Swap(w: array<bv32>, i: nat, j: nat)
    requires w.Length == 16 && i < 16 && j < 16
    modifies w
    ensures w[..] == Swapped(old(w[..]), i, j)
  {
    w[i], w[j] := w[j], w[i];
  }

  /** The exchanges of the core loop. */
  method Transpose(w: array<bv32>)
    requires w.Length == 16
    modifies w
    ensures w[..] == Transposed(old(w[..]))
  {
    hide Transposed, Swapped;
    SwapsTranspose(w[..]);
    Swap(w, 1, 4);
    Swap(w, 2, 8);
    Swap(w, 3, 12);
    Swap(w, 6, 9);
    Swap(w, 7, 13);
    Swap(w, 11, 14);
  }

  lemma SwapsTranspose(x: State)
    requires |x| == 16
    ensures Swapped(Swapped(Swapped(Swapped(Swapped(Swapped(x, 1, 4), 2, 8), 3, 12), 6, 9), 7, 13), 11, 14) == Transposed(x)
  {
    hide Mirror;
    MirrorValues();
  }

  lemma MirrorValues()
    ensures Mirror(0) == 0 && Mirror(1) == 4 && Mirror(2) == 8 && Mirror(3) == 12
    ensures Mirror(4) == 1 && Mirror(5) == 5 && Mirror(6) == 9 && Mirror(7) == 13
    ensures Mirror(8) == 2 && Mirror(9) == 6 && Mirror(10) == 10 && Mirror(11) == 14
    ensures Mirror(12) == 3 && Mirror(13) == 7 && Mirror(14) == 11 && Mirror(15) == 15
  {}

  /** One turn of the core loop. */
  method CoreRound(w: array<bv32>)
    requires w.Length == 16
    modifies w
    ensures w[..] == Transposed(ColumnRound(old(w[..])))
  {
    hide OneColumn, ColumnRound, Transposed, Cell;
    CellValues();
    ghost var x0 := w[..];
    QuarterRound(w, 0, 4, 8, 12, 0);
    ghost var x1 := w[..];
    QuarterRound(w, 5, 9, 13, 1, 1);
    ghost var x2 := w[..];
    QuarterRound(w, 10, 14, 2, 6, 2);
    ghost var x3 := w[..];
    QuarterRound(w, 15, 3, 7, 11, 3);
    AllColumns(x0, x1, x2, x3, w[..]);
    Transpose(w);
  }

  lemma CellValues()
    ensures Cell(0, 0) == 0 && Cell(0, 1) == 4 && Cell(0, 2) == 8 && Cell(0, 3) == 12
    ensures Cell(1, 0) == 5 && Cell(1, 1) == 9 && Cell(1, 2) == 13 && Cell(1, 3) == 1
    ensures Cell(2, 0) == 10 && Cell(2, 1) == 14 && Cell(2, 2) == 2 && Cell(2, 3) == 6
    ensures Cell(3, 0) == 15 && Cell(3, 1) == 3 && Cell(3, 2) == 7 && Cell(3, 3) == 11
  {}

  function AddStates(x: State, y: State): State
    requires |x| == |y| == 16
  {
    seq(16, i requires 0 <= i < 16 => Add(x[i], y[i]))
  }

  /** Half of the rounds of an odd count more come out transposed. */
  function CoreRounds(x: State, rounds: nat): (y: State)
    requires |x| == 16
    ensures |y| == 16
  {
    if rounds % 2 == 0 then DoubleRounds(x, rounds / 2) else Transposed(ColumnRound(DoubleRounds(x, rounds / 2)))
  }

  lemma CoreRoundsNext(x: State, rounds: nat)
    requires |x| == 16
    ensures CoreRounds(x, rounds + 1) == Transposed(ColumnRound(CoreRounds(x, rounds)))
  {
    hide Transposed, ColumnRound, RowRound;
    var y := DoubleRounds(x, rounds / 2);
    if rounds % 2 == 1 {
      assert (rounds + 1) / 2 == rounds / 2 + 1;
      ColumnRoundMirrors(ColumnRound(y));
      TransposedTwice(RowRound(ColumnRound(y)));
    }
  }

  /** Salsa20Core: for an even number of rounds, the table's double rounds and the addition of the input. */
  method Salsa20Core(dst: array<bv32>, src: seq<bv32>, rounds: nat)
    requires dst.Length == |src| == 16
    modifies dst
    ensures dst[..] == AddStates(src, CoreRounds(src, rounds))
    ensures rounds % 2 == 0 ==> dst[..] == AddStates(src, DoubleRounds(src, rounds / 2))
  {
    hide CoreRounds, DoubleRounds, Transposed, ColumnRound, Add;
    var w := new bv32[16](i requires 0 <= i < 16 => src[i]);
    assert w[..] == src;
    NoRounds(src);
    var i := 0;
    while i < rounds
      invariant 0 <= i <= rounds && w[..] == CoreRounds(src, i)
    {
      CoreRoundsNext(src, i);
      CoreRound(w);
      i := i + 1;
    }
    i := 0;
    while i < 16
      invariant 0 <= i <= 16 && w[..] == CoreRounds(src, rounds)
      invariant forall j | 0 <= j < i :: dst[j] == Add(src[j], w[..][j])
    {
      dst[i] := Add(src[i], w[i]);
      i := i + 1;
    }
    EvenRounds(src, rounds);
  }

  lemma NoRounds(x: State)
    requires |x| == 16
    ensures CoreRounds(x, 0) == x
  {}

  lemma EvenRounds(x: State, rounds: nat)
    requires |x| == 16
    ensures rounds % 2 == 0 ==> CoreRounds(x, rounds) == DoubleRounds(x, rounds / 2)
  {}
}
