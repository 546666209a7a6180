/** One Groestl-1024 permutation twice: looked up in tables of products, and byte by byte. */
module Groestl {
  import opened Positional
  import opened GaloisField
  import opened ByteBuffers
  import opened XorBytes
  import GaloisTables
  import opened SBox

  const COLS: nat := 16
  const BYTES: nat := 128
  const ROUNDS: nat := 14

  // ---------- the permutation

  /** The first row of the circulant matrix of MixBytes. */
  function Coefficient(i: nat): bv8
    requires i < 8
  {
    [0x02, 0x02, 0x03, 0x04, 0x05, 0x03, 0x05, 0x07][i]
  }

  function Turned(i: nat, k: nat): (r: nat)
    requires i < 8 && k < 8
    ensures r < 8
  {
    if i >= k then i - k else i + 8 - k
  }

  /** Row k of the product of the matrix with a column, summed up over the first n rows of the column. */
  function RowSum(col: seq<bv8>, k: nat, n: nat): bv8
    requires |col| == 8 && k < 8 && n <= 8
  {
    if n == 0 then 0 else Xor(RowSum(col, k, n - 1), GfMul(Coefficient(Turned(n - 1, k)), col[n - 1]))
  }

  function MixColumn(col: seq<bv8>): (r: seq<bv8>)
    requires |col| == 8
    ensures |r| == 8
  {
    seq(8, k requires 0 <= k < 8 => RowSum(col, k, 8))
  }

  /** How far each row moves: a number of columns below 16. */
  ghost predicate IsShift(shift: seq<nat>) {
    |shift| == 8 && forall row | 0 <= row < 8 :: shift[row] < COLS
  }

  function Sub(s: seq<bv8>): (r: seq<bv8>)
    ensures |r| == |s|
  {
    seq(|s|, i requires 0 <= i < |s| => SubByte(s[i]))
  }

  /** The column that ShiftBytes puts at position c. */
  function ShiftedColumn(shift: seq<nat>, s: seq<bv8>, c: nat): (col: seq<bv8>)
    requires IsShift(shift) && |s| == BYTES && c < COLS
    ensures |col| == 8
  {
    seq(8, row requires 0 <= row < 8 => s[8 * ((c + shift[row]) % COLS) + row])
  }

  /** The first n columns after SubBytes, ShiftBytes and MixBytes. */
  function Mixed(shift: seq<nat>, s: seq<bv8>, n: nat): (r: seq<bv8>)
    requires IsShift(shift) && |s| == BYTES && n <= COLS
    ensures |r| == 8 * n
  {
    if n == 0 then [] else Mixed(shift, s, n - 1) + MixColumn(ShiftedColumn(shift, Sub(s), n - 1))
  }

  /** The state after i rounds, each with its round constant. */
  function Permuted(shift: seq<nat>, rc: seq<seq<bv8>>, s: seq<bv8>, i: nat): (r: seq<bv8>)
    requires IsShift(shift) && AreConstants(rc) && |s| == BYTES && i <= ROUNDS
    ensures |r| == BYTES
  {
    if i == 0 then s else Mixed(shift, XorBlocks(Permuted(shift, rc, s, i - 1), rc[i - 1]), COLS)
  }

  ghost predicate AreConstants(rc: seq<seq<bv8>>) {
    |rc| == 14 && forall i | 0 <= i < ROUNDS :: |rc[i]| == BYTES
  }

  // ---------- the tables

  /** ExtendTable: row entries 8 to 15 say from which byte a shifted row begins. */
  method ExtendTable(t: array<nat>)
    requires t.Length == 16 && IsShift(t[..8])
    modifies t
    ensures t[..8] == old(t[..8])
    ensures forall row | 0 <= row < 8 :: t[row + 8] == 8 * t[row] + row < 256
  {
    var row := 0;
    while row < 8
      invariant 0 <= row <= 8 && t[..8] == old(t[..8])
      invariant forall j | 0 <= j < row :: t[j + 8] == 8 * t[j] + j < 256
    {
      assert t[..8][row] < COLS;
      t[row + 8] := (8 * t[row] + row) % 256;
      row := row + 1;
    }
  }

  /** A 64-bit word is given as its eight bytes, the lowest first; this is _rotl64 by n bytes. */
  function RotlBytes(w: seq<bv8>, n: nat): (r: seq<bv8>)
    requires |w| == 8 && n < 8
    ensures |r| == 8
  {
    seq(8, k requires 0 <= k < 8 => w[Turned(k, n)])
  }

  /** Entry b of table `row` holds what a byte b in that row adds to each byte of a mixed column. */
  ghost predicate IsEntry(row: nat, b: bv8, w: seq<bv8>)
    requires row < 8
  {
    |w| == 8 && forall k | 0 <= k < 8 :: w[k] == GfMul(Coefficient(Turned(row, k)), SubByte(b))
  }

  type Table = seq<seq<seq<bv8>>>

  ghost predicate Shaped(t: Table) {
    |t| == 8 && forall row | 0 <= row < 8 :: |t[row]| == 256
  }

  ghost predicate ValidTable(t: Table) {
    Shaped(t) && forall row, b: bv8 | 0 <= row < 8 :: IsEntry(row, b, GaloisTables.At(t[row], b))
  }

  /** The bytes that InitGroestlTables writes for table 0. */
  function FirstEntry(b: bv8): (w: seq<bv8>)
    ensures |w| == 8
  {
    var a := SubByte(b);
    [GfMul(2, a), GfMul(7, a), GfMul(5, a), GfMul(3, a), GfMul(5, a), GfMul(4, a), GfMul(3, a), GfMul(2, a)]
  }

  lemma EntryIsRotated(b: bv8, row: nat)
    requires row < 8
    ensures IsEntry(row, b, RotlBytes(FirstEntry(b), row))
  {
    hide GfMul, SubByte, FirstEntry, Coefficient, Turned;
    var a := SubByte(b);
    forall k | 0 <= k < 8 ensures RotlBytes(FirstEntry(b), row)[k] == GfMul(Coefficient(Turned(row, k)), a) {
      FirstEntryAt(b, Turned(k, row));
      TurnedBack(row, k);
    }
  }

  lemma TurnedBack(row: nat, k: nat)
    requires row < 8 && k < 8
    ensures Turned(0, Turned(k, row)) == Turned(row, k)
  {}

  lemma FirstEntryAt(b: bv8, k: nat)
    requires k < 8
    ensures FirstEntry(b)[k] == GfMul(Coefficient(Turned(0, k)), SubByte(b))
  {
    hide GfMul, SubByte;
  }

  /** The entries for all bytes below i have been made. */
  ghost predicate Made(entries: seq<seq<bv8>>, row: nat, i: nat)
    requires row < 8 && i <= 256
  {
    |entries| == 256 && forall j | 0 <= j < i :: IsEntry(row, ByteOf(j), entries[j])
  }

  /** The loop of InitGroestlTables: table 0 from the S-box, the others from table 0 by rotation. */
  method InitGroestlTable() returns (t: Table)
    ensures ValidTable(t)
  {
    hide GfMul, SubByte, FirstEntry, IsEntry, RotlBytes, ByteOf, ValidTable;
    t := seq(8, _ => seq(256, _ => [0, 0, 0, 0, 0, 0, 0, 0]));
    var i := 0;
    while i < 256
      invariant 0 <= i <= 256 && Shaped(t) && forall r | 0 <= r < 8 :: Made(t[r], r, i)
    {
      var first := FirstEntry(ByteOf(i));
      var row := 0;
      while row < 8
        invariant 0 <= row <= 8 && Shaped(t)
        invariant forall r | 0 <= r < row :: Made(t[r], r, i + 1)
        invariant forall r | row <= r < 8 :: Made(t[r], r, i)
      {
        EntryIsRotated(ByteOf(i), row);
        assert Made(t[row], row, i);
        t := t[row := t[row][i := RotlBytes(first, row)]];
        row := row + 1;
      }
      i := i + 1;
    }
    AllMade(t);
  }

  lemma AllMade(t: Table)
    requires Shaped(t) && forall r | 0 <= r < 8 :: Made(t[r], r, 256)
    ensures ValidTable(t)
  {
    hide IsEntry;
    forall row, b: bv8 | 0 <= row < 8 ensures IsEntry(row, b, GaloisTables.At(t[row], b)) {
      var j := b as int;
      assert Made(t[row], row, 256);
      assert IsEntry(row, ByteOf(j), t[row][j]);
      SameByte(ByteOf(j), b);
    }
  }

  lemma SameByte(b: bv8, c: bv8)
    requires b as int == c as int
    ensures b == c
  {
    assert b as int as bv8 == b;
  }

  // ---------- the round by table

  lemma ColumnIndex(c: nat, m: nat, row: nat)
    requires row < 8
    ensures (8 * c + (8 * m + row)) % BYTES == 8 * ((c + m) % COLS) + row
  {
    var q, r := (c + m) / COLS, (c + m) % COLS;
    DivUnique(8 * c + 8 * m + row, BYTES, q, 8 * r + row);
  }

  /** The entries 8 to 15 of an extended shift table. */
  ghost predicate IsExtended(shift8: seq<nat>, shift: seq<nat>) {
    IsShift(shift) && |shift8| == 8 && forall row | 0 <= row < 8 :: shift8[row] == 8 * shift[row] + row
  }

  /** One column: eight look-ups added up. */
  method LookUp(t: Table, shift8: seq<nat>, ghost shift: seq<nat>, pu: seq<bv8>, c: nat) returns (col: seq<bv8>)
    requires ValidTable(t) && IsExtended(shift8, shift) && |pu| == BYTES && c < COLS
    ensures col == MixColumn(ShiftedColumn(shift, Sub(pu), c))
  {
    hide GfMul, SubByte, Coefficient, Turned, Xor, ShiftedColumn, Sub;
    ghost var v := ShiftedColumn(shift, Sub(pu), c);
    col := Zeroes(8);
    var row := 0;
    while row < 8
      invariant 0 <= row <= 8 && |col| == 8
      invariant forall k | 0 <= k < 8 :: col[k] == RowSum(v, k, row)
    {
      ColumnIndex(c, shift[row], row);
      var b := pu[(c * 8 + shift8[row]) % BYTES];
      ShiftedAt(shift, pu, c, row);
      assert IsEntry(row, b, GaloisTables.At(t[row], b));
      col := XorBlocks(col, GaloisTables.At(t[row], b));
      row := row + 1;
    }
  }

  lemma ShiftedAt(shift: seq<nat>, s: seq<bv8>, c: nat, row: nat)
    requires IsShift(shift) && |s| == BYTES && c < COLS && row < 8
    ensures 8 * ((c + shift[row]) % COLS) + row < BYTES
    ensures ShiftedColumn(shift, Sub(s), c)[row] == SubByte(s[8 * ((c + shift[row]) % COLS) + row])
  {
    hide SubByte;
  }

  lemma MixedNext(shift: seq<nat>, s: seq<bv8>, c: nat, d: seq<bv8>, col: seq<bv8>)
    requires IsShift(shift) && |s| == |d| == BYTES && c < COLS
    requires d[..8 * c] == Mixed(shift, s, c) && col == MixColumn(ShiftedColumn(shift, Sub(s), c))
    ensures Stored(d, 8 * c, col)[..8 * (c + 1)] == Mixed(shift, s, c + 1)
  {
    hide MixColumn, ShiftedColumn, Sub;
    StoredPrefix(d, 8 * c, col);
  }

  method RoundByTable(t: Table, shift8: seq<nat>, ghost shift: seq<nat>, pU: array<bv8>, pT: array<bv8>)
    requires ValidTable(t) && IsExtended(shift8, shift) && pU.Length == pT.Length == BYTES && pU != pT
    modifies pT
    ensures pT[..] == Mixed(shift, pU[..], COLS)
  {
    hide Stored, Mixed, MixColumn, ShiftedColumn, Sub, ValidTable;
    MixedNone(shift, pU[..]);
    var c := 0;
    while c < COLS
      invariant 0 <= c <= COLS && pT[..8 * c] == Mixed(shift, pU[..], c)
    {
      var col := LookUp(t, shift8, shift, pU[..], c);
      assert pT[..][..8 * c] == pT[..8 * c];
      MixedNext(shift, pU[..], c, pT[..], col);
      Store(pT, 8 * c, col);
      assert pT[..][..8 * (c + 1)] == pT[..8 * (c + 1)];
      c := c + 1;
    }
    assert pT[..8 * COLS] == pT[..];
  }

  lemma MixedNone(shift: seq<nat>, s: seq<bv8>)
    requires IsShift(shift) && |s| == BYTES
    ensures Mixed(shift, s, 0) == []
  {}

  /** TransformBlock1024 with the tables: the two buffers change places after every round. */
  method TransformByTable(t: Table, shift8: seq<nat>, ghost shift: seq<nat>, rc: seq<seq<bv8>>, s: seq<bv8>, d: array<bv8>)
    requires ValidTable(t) && IsExtended(shift8, shift) && AreConstants(rc) && |s| == d.Length == BYTES
    modifies d
    ensures d[..] == XorBlocks(old(d[..]), Permuted(shift, rc, s, ROUNDS))
  {
    hide Mixed, ValidTable, XorBlocks, Stored;
    var pT, pU := new bv8[BYTES], new bv8[BYTES];
    StoredWhole(pU[..], s);
    Store(pU, 0, s);
    var i := 0;
    while i < ROUNDS
      invariant 0 <= i <= ROUNDS && fresh(pT) && fresh(pU) && pT != pU && pT.Length == pU.Length == BYTES
      invariant pU[..] == Permuted(shift, rc, s, i) && d[..] == old(d[..])
    {
      XorWith(pU, rc[i]);
      RoundByTable(t, shift8, shift, pU, pT);
      pT, pU := pU, pT;
      i := i + 1;
    }
    XorWith(d, pU[..]);
  }

  // ---------- the round by bytes

  /** Row k of the matrix, as MulColumnAsLe writes it out. */
  function MatrixRow(k: nat): (r: seq<bv8>)
    requires k < 8
    ensures |r| == 8
  {
    match k
    case 0 => [0x02, 0x02, 0x03, 0x04, 0x05, 0x03, 0x05, 0x07]
    case 1 => [0x07, 0x02, 0x02, 0x03, 0x04, 0x05, 0x03, 0x05]
    case 2 => [0x05, 0x07, 0x02, 0x02, 0x03, 0x04, 0x05, 0x03]
    case 3 => [0x03, 0x05, 0x07, 0x02, 0x02, 0x03, 0x04, 0x05]
    case 4 => [0x05, 0x03, 0x05, 0x07, 0x02, 0x02, 0x03, 0x04]
    case 5 => [0x04, 0x05, 0x03, 0x05, 0x07, 0x02, 0x02, 0x03]
    case 6 => [0x03, 0x04, 0x05, 0x03, 0x05, 0x07, 0x02, 0x02]
    case 7 => [0x02, 0x03, 0x04, 0x05, 0x03, 0x05, 0x07, 0x02]
  }

  lemma MatrixRowAt(k: nat, i: nat)
    requires k < 8 && i < 8
    ensures MatrixRow(k)[i] == Coefficient(Turned(i, k))
  {}

  method MulRow(a: seq<bv8>, b: seq<bv8>, ghost k: nat) returns (r: bv8)
    requires |a| == 8 && k < 8 && b == MatrixRow(k)
    ensures r == RowSum(a, k, 8)
  {
    hide GfMul, Coefficient, Turned, Xor, MatrixRow;
    MatrixRowAt(k, 0);
    GaloisTables.MulCommutes(a[0], b[0]);
    XorZero(GfMul(b[0], a[0]));
    r := GfMul(a[0], b[0]);
    var i := 1;
    while i < 8
      invariant 1 <= i <= 8 && r == RowSum(a, k, i)
    {
      MatrixRowAt(k, i);
      GaloisTables.MulCommutes(a[i], b[i]);
      r := Xor(r, GfMul(a[i], b[i]));
      i := i + 1;
    }
  }

  method MulColumnAsLe(col: seq<bv8>) returns (r: seq<bv8>)
    requires |col| == 8
    ensures r == MixColumn(col)
  {
    hide RowSum, MatrixRow;
    r := [];
    while |r| < 8
      invariant |r| <= 8 && r == MixColumn(col)[..|r|]
    {
      var b := MulRow(col, MatrixRow(|r|), |r|);
      r := r + [b];
    }
  }

  function Row(i: nat): (r: nat)
    ensures r < 8
  {
    i % 8
  }

  function Col(i: nat): nat { i / 8 }

  lemma Places(i: nat)
    ensures i == 8 * Col(i) + Row(i)
  {}

  lemma PlaceOf(c: nat, row: nat)
    requires row < 8
    ensures Row(8 * c + row) == row && Col(8 * c + row) == c
  {}

  /** The byte that ShiftBytes brings to place i. */
  function Brought(shift: seq<nat>, s: seq<bv8>, i: nat): bv8
    requires IsShift(shift) && |s| == BYTES && i < BYTES
  {
    s[8 * ((Col(i) + shift[Row(i)]) % COLS) + Row(i)]
  }

  lemma BroughtColumn(shift: seq<nat>, s: seq<bv8>, pt: seq<bv8>)
    requires IsShift(shift) && |s| == |pt| == BYTES && forall i | 0 <= i < BYTES :: pt[i] == Brought(shift, s, i)
    ensures forall c | 0 <= c < COLS :: pt[8 * c..8 * c + 8] == ShiftedColumn(shift, s, c)
  {
    hide Row, Col;
    forall c | 0 <= c < COLS ensures pt[8 * c..8 * c + 8] == ShiftedColumn(shift, s, c) {
      forall row | 0 <= row < 8 ensures pt[8 * c..8 * c + 8][row] == ShiftedColumn(shift, s, c)[row] {
        PlaceOf(c, row);
        assert pt[8 * c + row] == Brought(shift, s, 8 * c + row);
      }
    }
  }

  /** ShiftBytes: row by row, from pu to pt. */
  method ShiftBytes(shift: seq<nat>, pu: array<bv8>, pt: array<bv8>)
    requires IsShift(shift) && pu.Length == pt.Length == BYTES && pu != pt
    modifies pt
    ensures forall c | 0 <= c < COLS :: pt[8 * c..8 * c + 8] == ShiftedColumn(shift, pu[..], c)
  {
    hide Row, Col, ShiftedColumn;
    ghost var s := pu[..];
    var row := 0;
    while row < 8
      invariant 0 <= row <= 8
      invariant forall i | 0 <= i < BYTES && Row(i) < row :: pt[i] == Brought(shift, s, i)
    {
      var offset := shift[row];
      var c := 0;
      while c < COLS
        invariant 0 <= c <= COLS
        invariant forall i | 0 <= i < BYTES && Row(i) < row :: pt[i] == Brought(shift, s, i)
        invariant forall i | 0 <= i < BYTES && Row(i) == row && Col(i) < c :: pt[i] == Brought(shift, s, i)
      {
        PlaceOf(c, row);
        pt[c * 8 + row] := pu[((c + offset) % COLS) * 8 + row];
        forall i | 0 <= i < BYTES && Row(i) == row && Col(i) == c ensures i == 8 * c + row {
          Places(i);
        }
        c := c + 1;
      }
      forall i | 0 <= i < BYTES ensures Col(i) < COLS {
        Places(i);
      }
      row := row + 1;
    }
    BroughtColumn(shift, s, pt[..]);
    assert forall c | 0 <= c < COLS :: pt[8 * c..8 * c + 8] == pt[..][8 * c..8 * c + 8];
  }

  /** SubBytes, ShiftBytes and MixBytes one after the other. */
  method RoundByBytes(shift: seq<nat>, u: array<bv8>, t: array<bv8>)
    requires IsShift(shift) && u.Length == t.Length == BYTES && u != t
    modifies u, t
    ensures u[..] == Mixed(shift, old(u[..]), COLS)
  {
    hide Stored, Mixed, MixColumn, ShiftedColumn;
    ghost var s := u[..];
    var p := 0;
    while p < BYTES
      invariant 0 <= p <= BYTES
      invariant forall j | 0 <= j < BYTES :: u[j] == if j < p then SubByte(s[j]) else s[j]
    {
      u[p] := SubByte(u[p]);
      p := p + 1;
    }
    assert u[..] == Sub(s);
    ShiftBytes(shift, u, t);
    ghost var shifted := t[..];
    MixedNone(shift, s);
    var c := 0;
    while c < COLS
      invariant 0 <= c <= COLS && u[..8 * c] == Mixed(shift, s, c) && t[..] == shifted
    {
      assert t[8 * c..8 * c + 8] == shifted[8 * c..8 * c + 8];
      var col := MulColumnAsLe(t[8 * c..8 * c + 8]);
      assert u[..][..8 * c] == u[..8 * c];
      MixedNext(shift, s, c, u[..], col);
      Store(u, 8 * c, col);
      assert u[..][..8 * (c + 1)] == u[..8 * (c + 1)];
      c := c + 1;
    }
    assert u[..8 * COLS] == u[..];
  }

  /** TransformBlock1024 without the tables. */
  method TransformByBytes(shift: seq<nat>, rc: seq<seq<bv8>>, s: seq<bv8>, d: array<bv8>)
    requires IsShift(shift) && AreConstants(rc) && |s| == d.Length == BYTES
    modifies d
    ensures d[..] == XorBlocks(old(d[..]), Permuted(shift, rc, s, ROUNDS))
  {
    hide Mixed, XorBlocks, Stored;
    var t, u := new bv8[BYTES], new bv8[BYTES];
    StoredWhole(u[..], s);
    Store(u, 0, s);
    var i := 0;
    while i < ROUNDS
      invariant 0 <= i <= ROUNDS && u[..] == Permuted(shift, rc, s, i) && d[..] == old(d[..])
    {
      XorWith(u, rc[i]);
      RoundByBytes(shift, u, t);
      i := i + 1;
    }
    XorWith(d, u[..]);
  }
}
