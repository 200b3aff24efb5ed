/**
 The catalog of tetrominoes: the seven placeable kinds, how many distinct
 rotations each has, and the occupancy matrix of every rotation.

 The source pads every matrix to 4x4, while the board and the search read
 the width of a piece as the length of the matrix's first row; the matrices
 here are therefore trimmed to their bounding box, and `ShapesMatchSource`
 proves that padding them back gives the source's 4x4 table.
 */
module Catalog {

  /** A cell content or piece kind: 0 is the empty cell, 1..7 the pieces. */
  type Tetromino = int

  const TetrominoesCount: int := 7

  const Empty: Tetromino := 0
  const I: Tetromino := 1
  const J: Tetromino := 2
  const L: Tetromino := 3
  const O: Tetromino := 4
  const S: Tetromino := 5
  const T: Tetromino := 6
  const Z: Tetromino := 7

  /** Admits every declared value, including the empty cell. */
  predicate IsValid(t: Tetromino) {
    0 <= t <= TetrominoesCount
  }

  /** A kind that can be dropped on a board. */
  predicate IsNonEmpty(t: Tetromino) {
    1 <= t <= TetrominoesCount
  }

  /** The placeable kinds in their declaration order. */
  function Tetrominoes(): (ts: seq<Tetromino>)
    ensures |ts| == TetrominoesCount
    ensures forall i :: 0 <= i < |ts| ==> ts[i] == i + 1
    ensures forall t :: t in ts <==> IsNonEmpty(t)
    ensures forall t :: IsNonEmpty(t) <==> IsValid(t) && t != Empty
  {
    [I, J, L, O, S, T, Z]
  }

  /** Number of distinct rotations of a placeable kind. */
  function RotationsCount(t: Tetromino): (n: nat)
    requires IsNonEmpty(t)
    ensures 1 <= n <= 4
  {
    if t == J || t == L || t == T then 4
    else if t == I || t == S || t == Z then 2
    else 1
  }

  /** An occupancy matrix, indexed [row][column], row 0 on top. */
  type TetrominoMatrix = seq<seq<bool>>

  predicate Occupied(m: TetrominoMatrix, i: int, j: int) {
    0 <= i < |m| && 0 <= j < |m[i]| && m[i][j]
  }

  predicate IsRectangular(m: TetrominoMatrix) {
    |m| > 0 && forall i :: 0 <= i < |m| ==> |m[i]| == |m[0]|
  }

  /** The width the board and the search use: the length of the first row. */
  function MatrixWidth(m: TetrominoMatrix): nat
    requires |m| > 0
  {
    |m[0]|
  }

  /** Number of occupied cells among the first `n` of a row. */
  function CountTrue(row: seq<bool>, n: nat := |row|): nat
    requires n <= |row|
  {
    if n == 0 then 0 else CountTrue(row, n - 1) + (if row[n - 1] then 1 else 0)
  }

  /** Number of occupied cells in column `j` among the first `n` rows. */
  function ColumnCount(m: TetrominoMatrix, j: nat, n: nat := |m|): nat
    requires n <= |m|
  {
    if n == 0 then 0 else ColumnCount(m, j, n - 1) + (if Occupied(m, n - 1, j) then 1 else 0)
  }

  /** Number of occupied cells among the first `n` rows. */
  function CellCount(m: TetrominoMatrix, n: nat := |m|): nat
    requires n <= |m|
  {
    if n == 0 then 0 else CellCount(m, n - 1) + CountTrue(m[n - 1])
  }

  /**
   A minimal bounding box of at most 4x4: no empty first or last row and no
   empty first or last column.
   */
  predicate IsMinimalBox(m: TetrominoMatrix) {
    && IsRectangular(m)
    && 1 <= |m| <= 4
    && 1 <= |m[0]| <= 4
    && CountTrue(m[0]) > 0
    && CountTrue(m[|m| - 1]) > 0
    && ColumnCount(m, 0) > 0
    && ColumnCount(m, |m[0]| - 1) > 0
  }

  predicate IsTetrominoShape(m: TetrominoMatrix) {
    IsMinimalBox(m) && CellCount(m) == 4
  }

  /** The trimmed matrices, one sequence of rotations per kind; `Empty` has none. */
  function Shapes(): seq<seq<TetrominoMatrix>> {
    [
      // Empty
      [],
      // I
      [ [[true], [true], [true], [true]],
        [[true, true, true, true]] ],
      // J
      [ [[false, true], [false, true], [true, true]],
        [[true, false, false], [true, true, true]],
        [[true, true], [true, false], [true, false]],
        [[true, true, true], [false, false, true]] ],
      // L
      [ [[true, false], [true, false], [true, true]],
        [[true, true, true], [true, false, false]],
        [[true, true], [false, true], [false, true]],
        [[false, false, true], [true, true, true]] ],
      // O
      [ [[true, true], [true, true]] ],
      // S
      [ [[false, true, true], [true, true, false]],
        [[true, false], [true, true], [false, true]] ],
      // T
      [ [[true, true, true], [false, true, false]],
        [[false, true], [true, true], [false, true]],
        [[false, true, false], [true, true, true]],
        [[true, false], [true, true], [true, false]] ],
      // Z
      [ [[true, true, false], [false, true, true]],
        [[false, true], [true, true], [true, false]] ]
    ]
  }

  /** The table as the source spells it: every matrix padded to 4x4. */
  function PaddedShapes(): seq<seq<TetrominoMatrix>> {
    var x, o := true, false;
    [
      // Empty
      [],
      // I
      [ [[x, o, o, o], [x, o, o, o], [x, o, o, o], [x, o, o, o]],
        [[x, x, x, x], [o, o, o, o], [o, o, o, o], [o, o, o, o]] ],
      // J
      [ [[o, x, o, o], [o, x, o, o], [x, x, o, o], [o, o, o, o]],
        [[x, o, o, o], [x, x, x, o], [o, o, o, o], [o, o, o, o]],
        [[x, x, o, o], [x, o, o, o], [x, o, o, o], [o, o, o, o]],
        [[x, x, x, o], [o, o, x, o], [o, o, o, o], [o, o, o, o]] ],
      // L
      [ [[x, o, o, o], [x, o, o, o], [x, x, o, o], [o, o, o, o]],
        [[x, x, x, o], [x, o, o, o], [o, o, o, o], [o, o, o, o]],
        [[x, x, o, o], [o, x, o, o], [o, x, o, o], [o, o, o, o]],
        [[o, o, x, o], [x, x, x, o], [o, o, o, o], [o, o, o, o]] ],
      // O
      [ [[x, x, o, o], [x, x, o, o], [o, o, o, o], [o, o, o, o]] ],
      // S
      [ [[o, x, x, o], [x, x, o, o], [o, o, o, o], [o, o, o, o]],
        [[x, o, o, o], [x, x, o, o], [o, x, o, o], [o, o, o, o]] ],
      // T
      [ [[x, x, x, o], [o, x, o, o], [o, o, o, o], [o, o, o, o]],
        [[o, x, o, o], [x, x, o, o], [o, x, o, o], [o, o, o, o]],
        [[o, x, o, o], [x, x, x, o], [o, o, o, o], [o, o, o, o]],
        [[x, o, o, o], [x, x, o, o], [x, o, o, o], [o, o, o, o]] ],
      // Z
      [ [[x, x, o, o], [o, x, x, o], [o, o, o, o], [o, o, o, o]],
        [[o, x, o, o], [x, x, o, o], [x, o, o, o], [o, o, o, o]] ]
    ]
  }

  /** Extends a matrix with empty cells to 4x4. */
  function Pad(m: TetrominoMatrix): (p: TetrominoMatrix)
    ensures |p| == 4 && forall i :: 0 <= i < 4 ==> |p[i]| == 4
  {
    seq(4, i => seq(4, j => Occupied(m, i, j)))
  }

  /** The properties every entry of the table has, checked entry by entry. */
  predicate Facts(m: TetrominoMatrix, padded: TetrominoMatrix) {
    IsTetrominoShape(m) && Pad(m) == padded
  }

  lemma PadRows(m: TetrominoMatrix, padded: TetrominoMatrix)
    requires |padded| == 4
    requires forall i :: 0 <= i < 4 ==> padded[i] == seq(4, j => Occupied(m, i, j))
    ensures Pad(m) == padded
  {
  }

  lemma I0Facts()
    ensures 0 < |Shapes()[I]| && 0 < |PaddedShapes()[I]|
    ensures Facts(Shapes()[I][0], PaddedShapes()[I][0])
  {
    PadRows(Shapes()[I][0], PaddedShapes()[I][0]);
    var m := [[true], [true], [true], [true]];
    assert Shapes()[I][0] == m;
    assert CountTrue(m[0]) == 1;
    assert CountTrue(m[1]) == 1;
    assert CountTrue(m[2]) == 1;
    assert CountTrue(m[3]) == 1;
    assert CellCount(m, 1) == 1;
    assert CellCount(m, 2) == 2;
    assert CellCount(m, 3) == 3;
    assert CellCount(m, 4) == 4;
    assert IsMinimalBox(m);
  }

  lemma I1Facts()
    ensures 1 < |Shapes()[I]| && 1 < |PaddedShapes()[I]|
    ensures Facts(Shapes()[I][1], PaddedShapes()[I][1])
  {
    PadRows(Shapes()[I][1], PaddedShapes()[I][1]);
    var m := [[true, true, true, true]];
    assert Shapes()[I][1] == m;
    assert CountTrue(m[0]) == 4;
    assert CellCount(m, 1) == 4;
    assert IsMinimalBox(m);
  }

  lemma IFacts()
    ensures forall r :: 0 <= r < |Shapes()[I]| ==> r < |PaddedShapes()[I]| && Facts(Shapes()[I][r], PaddedShapes()[I][r])
  {
    I0Facts(); I1Facts();
  }

  lemma J0Facts()
    ensures 0 < |Shapes()[J]| && 0 < |PaddedShapes()[J]|
    ensures Facts(Shapes()[J][0], PaddedShapes()[J][0])
  {
    PadRows(Shapes()[J][0], PaddedShapes()[J][0]);
    var m := [[false, true], [false, true], [true, true]];
    assert Shapes()[J][0] == m;
    assert CountTrue(m[0]) == 1;
    assert CountTrue(m[1]) == 1;
    assert CountTrue(m[2]) == 2;
    assert CellCount(m, 1) == 1;
    assert CellCount(m, 2) == 2;
    assert CellCount(m, 3) == 4;
    assert IsMinimalBox(m);
  }

  lemma J1Facts()
    ensures 1 < |Shapes()[J]| && 1 < |PaddedShapes()[J]|
    ensures Facts(Shapes()[J][1], PaddedShapes()[J][1])
  {
    PadRows(Shapes()[J][1], PaddedShapes()[J][1]);
    var m := [[true, false, false], [true, true, true]];
    assert Shapes()[J][1] == m;
    assert CountTrue(m[0]) == 1;
    assert CountTrue(m[1]) == 3;
    assert CellCount(m, 1) == 1;
    assert CellCount(m, 2) == 4;
    assert IsMinimalBox(m);
  }

  lemma J2Facts()
    ensures 2 < |Shapes()[J]| && 2 < |PaddedShapes()[J]|
    ensures Facts(Shapes()[J][2], PaddedShapes()[J][2])
  {
    PadRows(Shapes()[J][2], PaddedShapes()[J][2]);
    var m := [[true, true], [true, false], [true, false]];
    assert Shapes()[J][2] == m;
    assert CountTrue(m[0]) == 2;
    assert CountTrue(m[1]) == 1;
    assert CountTrue(m[2]) == 1;
    assert CellCount(m, 1) == 2;
    assert CellCount(m, 2) == 3;
    assert CellCount(m, 3) == 4;
    assert IsMinimalBox(m);
  }

  lemma J3Facts()
    ensures 3 < |Shapes()[J]| && 3 < |PaddedShapes()[J]|
    ensures Facts(Shapes()[J][3], PaddedShapes()[J][3])
  {
    PadRows(Shapes()[J][3], PaddedShapes()[J][3]);
    var m := [[true, true, true], [false, false, true]];
    assert Shapes()[J][3] == m;
    assert CountTrue(m[0]) == 3;
    assert CountTrue(m[1]) == 1;
    assert CellCount(m, 1) == 3;
    assert CellCount(m, 2) == 4;
    assert IsMinimalBox(m);
  }

  lemma JFacts()
    ensures forall r :: 0 <= r < |Shapes()[J]| ==> r < |PaddedShapes()[J]| && Facts(Shapes()[J][r], PaddedShapes()[J][r])
  {
    J0Facts(); J1Facts(); J2Facts(); J3Facts();
  }

  lemma L0Facts()
    ensures 0 < |Shapes()[L]| && 0 < |PaddedShapes()[L]|
    ensures Facts(Shapes()[L][0], PaddedShapes()[L][0])
  {
    PadRows(Shapes()[L][0], PaddedShapes()[L][0]);
    var m := [[true, false], [true, false], [true, true]];
    assert Shapes()[L][0] == m;
    assert CountTrue(m[0]) == 1;
    assert CountTrue(m[1]) == 1;
    assert CountTrue(m[2]) == 2;
    assert CellCount(m, 1) == 1;
    assert CellCount(m, 2) == 2;
    assert CellCount(m, 3) == 4;
    assert IsMinimalBox(m);
  }

  lemma L1Facts()
    ensures 1 < |Shapes()[L]| && 1 < |PaddedShapes()[L]|
    ensures Facts(Shapes()[L][1], PaddedShapes()[L][1])
  {
    PadRows(Shapes()[L][1], PaddedShapes()[L][1]);
    var m := [[true, true, true], [true, false, false]];
    assert Shapes()[L][1] == m;
    assert CountTrue(m[0]) == 3;
    assert CountTrue(m[1]) == 1;
    assert CellCount(m, 1) == 3;
    assert CellCount(m, 2) == 4;
    assert IsMinimalBox(m);
  }

  lemma L2Facts()
    ensures 2 < |Shapes()[L]| && 2 < |PaddedShapes()[L]|
    ensures Facts(Shapes()[L][2], PaddedShapes()[L][2])
  {
    PadRows(Shapes()[L][2], PaddedShapes()[L][2]);
    var m := [[true, true], [false, true], [false, true]];
    assert Shapes()[L][2] == m;
    assert CountTrue(m[0]) == 2;
    assert CountTrue(m[1]) == 1;
    assert CountTrue(m[2]) == 1;
    assert CellCount(m, 1) == 2;
    assert CellCount(m, 2) == 3;
    assert CellCount(m, 3) == 4;
    assert IsMinimalBox(m);
  }

  lemma L3Facts()
    ensures 3 < |Shapes()[L]| && 3 < |PaddedShapes()[L]|
    ensures Facts(Shapes()[L][3], PaddedShapes()[L][3])
  {
    PadRows(Shapes()[L][3], PaddedShapes()[L][3]);
    var m := [[false, false, true], [true, true, true]];
    assert Shapes()[L][3] == m;
    assert CountTrue(m[0]) == 1;
    assert CountTrue(m[1]) == 3;
    assert CellCount(m, 1) == 1;
    assert CellCount(m, 2) == 4;
    assert IsMinimalBox(m);
  }

  lemma LFacts()
    ensures forall r :: 0 <= r < |Shapes()[L]| ==> r < |PaddedShapes()[L]| && Facts(Shapes()[L][r], PaddedShapes()[L][r])
  {
    L0Facts(); L1Facts(); L2Facts(); L3Facts();
  }

  lemma O0Facts()
    ensures 0 < |Shapes()[O]| && 0 < |PaddedShapes()[O]|
    ensures Facts(Shapes()[O][0], PaddedShapes()[O][0])
  {
    PadRows(Shapes()[O][0], PaddedShapes()[O][0]);
    var m := [[true, true], [true, true]];
    assert Shapes()[O][0] == m;
    assert CountTrue(m[0]) == 2;
    assert CountTrue(m[1]) == 2;
    assert CellCount(m, 1) == 2;
    assert CellCount(m, 2) == 4;
    assert IsMinimalBox(m);
  }

  lemma OFacts()
    ensures forall r :: 0 <= r < |Shapes()[O]| ==> r < |PaddedShapes()[O]| && Facts(Shapes()[O][r], PaddedShapes()[O][r])
  {
    O0Facts();
  }

  lemma S0Facts()
    ensures 0 < |Shapes()[S]| && 0 < |PaddedShapes()[S]|
    ensures Facts(Shapes()[S][0], PaddedShapes()[S][0])
  {
    PadRows(Shapes()[S][0], PaddedShapes()[S][0]);
    var m := [[false, true, true], [true, true, false]];
    assert Shapes()[S][0] == m;
    assert CountTrue(m[0]) == 2;
    assert CountTrue(m[1]) == 2;
    assert CellCount(m, 1) == 2;
    assert CellCount(m, 2) == 4;
    assert IsMinimalBox(m);
  }

  lemma S1Facts()
    ensures 1 < |Shapes()[S]| && 1 < |PaddedShapes()[S]|
    ensures Facts(Shapes()[S][1], PaddedShapes()[S][1])
  {
    PadRows(Shapes()[S][1], PaddedShapes()[S][1]);
    var m := [[true, false], [true, true], [false, true]];
    assert Shapes()[S][1] == m;
    assert CountTrue(m[0]) == 1;
    assert CountTrue(m[1]) == 2;
    assert CountTrue(m[2]) == 1;
    assert CellCount(m, 1) == 1;
    assert CellCount(m, 2) == 3;
    assert CellCount(m, 3) == 4;
    assert IsMinimalBox(m);
  }

  lemma SFacts()
    ensures forall r :: 0 <= r < |Shapes()[S]| ==> r < |PaddedShapes()[S]| && Facts(Shapes()[S][r], PaddedShapes()[S][r])
  {
    S0Facts(); S1Facts();
  }

  lemma T0Facts()
    ensures 0 < |Shapes()[T]| && 0 < |PaddedShapes()[T]|
    ensures Facts(Shapes()[T][0], PaddedShapes()[T][0])
  {
    PadRows(Shapes()[T][0], PaddedShapes()[T][0]);
    var m := [[true, true, true], [false, true, false]];
    assert Shapes()[T][0] == m;
    assert CountTrue(m[0]) == 3;
    assert CountTrue(m[1]) == 1;
    assert CellCount(m, 1) == 3;
    assert CellCount(m, 2) == 4;
    assert IsMinimalBox(m);
  }

  lemma T1Facts()
    ensures 1 < |Shapes()[T]| && 1 < |PaddedShapes()[T]|
    ensures Facts(Shapes()[T][1], PaddedShapes()[T][1])
  {
    PadRows(Shapes()[T][1], PaddedShapes()[T][1]);
    var m := [[false, true], [true, true], [false, true]];
    assert Shapes()[T][1] == m;
    assert CountTrue(m[0]) == 1;
    assert CountTrue(m[1]) == 2;
    assert CountTrue(m[2]) == 1;
    assert CellCount(m, 1) == 1;
    assert CellCount(m, 2) == 3;
    assert CellCount(m, 3) == 4;
    assert IsMinimalBox(m);
  }

  lemma T2Facts()
    ensures 2 < |Shapes()[T]| && 2 < |PaddedShapes()[T]|
    ensures Facts(Shapes()[T][2], PaddedShapes()[T][2])
  {
    PadRows(Shapes()[T][2], PaddedShapes()[T][2]);
    var m := [[false, true, false], [true, true, true]];
    assert Shapes()[T][2] == m;
    assert CountTrue(m[0]) == 1;
    assert CountTrue(m[1]) == 3;
    assert CellCount(m, 1) == 1;
    assert CellCount(m, 2) == 4;
    assert IsMinimalBox(m);
  }

  lemma T3Facts()
    ensures 3 < |Shapes()[T]| && 3 < |PaddedShapes()[T]|
    ensures Facts(Shapes()[T][3], PaddedShapes()[T][3])
  {
    PadRows(Shapes()[T][3], PaddedShapes()[T][3]);
    var m := [[true, false], [true, true], [true, false]];
    assert Shapes()[T][3] == m;
    assert CountTrue(m[0]) == 1;
    assert CountTrue(m[1]) == 2;
    assert CountTrue(m[2]) == 1;
    assert CellCount(m, 1) == 1;
    assert CellCount(m, 2) == 3;
    assert CellCount(m, 3) == 4;
    assert IsMinimalBox(m);
  }

  lemma TFacts()
    ensures forall r :: 0 <= r < |Shapes()[T]| ==> r < |PaddedShapes()[T]| && Facts(Shapes()[T][r], PaddedShapes()[T][r])
  {
    T0Facts(); T1Facts(); T2Facts(); T3Facts();
  }

  lemma Z0Facts()
    ensures 0 < |Shapes()[Z]| && 0 < |PaddedShapes()[Z]|
    ensures Facts(Shapes()[Z][0], PaddedShapes()[Z][0])
  {
    PadRows(Shapes()[Z][0], PaddedShapes()[Z][0]);
    var m := [[true, true, false], [false, true, true]];
    assert Shapes()[Z][0] == m;
    assert CountTrue(m[0]) == 2;
    assert CountTrue(m[1]) == 2;
    assert CellCount(m, 1) == 2;
    assert CellCount(m, 2) == 4;
    assert IsMinimalBox(m);
  }

  lemma Z1Facts()
    ensures 1 < |Shapes()[Z]| && 1 < |PaddedShapes()[Z]|
    ensures Facts(Shapes()[Z][1], PaddedShapes()[Z][1])
  {
    PadRows(Shapes()[Z][1], PaddedShapes()[Z][1]);
    var m := [[false, true], [true, true], [true, false]];
    assert Shapes()[Z][1] == m;
    assert CountTrue(m[0]) == 1;
    assert CountTrue(m[1]) == 2;
    assert CountTrue(m[2]) == 1;
    assert CellCount(m, 1) == 1;
    assert CellCount(m, 2) == 3;
    assert CellCount(m, 3) == 4;
    assert IsMinimalBox(m);
  }

  lemma ZFacts()
    ensures forall r :: 0 <= r < |Shapes()[Z]| ==> r < |PaddedShapes()[Z]| && Facts(Shapes()[Z][r], PaddedShapes()[Z][r])
  {
    Z0Facts(); Z1Facts();
  }

  lemma ShapeFacts(t: Tetromino, r: int)
    requires IsNonEmpty(t) && 0 <= r < |Shapes()[t]|
    ensures r < |PaddedShapes()[t]|
    ensures Facts(Shapes()[t][r], PaddedShapes()[t][r])
  {
    if t == I { IFacts(); }
    else if t == J { JFacts(); }
    else if t == L { LFacts(); }
    else if t == O { OFacts(); }
    else if t == S { SFacts(); }
    else if t == T { TFacts(); }
    else { ZFacts(); }
  }

  /**
   Every entry of the table is a minimal bounding box of at most 4x4 holding
   exactly four cells, and padding it to 4x4 gives the source's matrix.
   */
  lemma ShapesMatchSource()
    ensures |Shapes()| == |PaddedShapes()| == TetrominoesCount + 1
    ensures Shapes()[Empty] == [] && PaddedShapes()[Empty] == []
    ensures forall t, r :: IsNonEmpty(t) && 0 <= r < |Shapes()[t]| ==>
              r < |PaddedShapes()[t]| && IsTetrominoShape(Shapes()[t][r]) &&
              Pad(Shapes()[t][r]) == PaddedShapes()[t][r]
  {
    forall t, r | IsNonEmpty(t) && 0 <= r < |Shapes()[t]|
      ensures r < |PaddedShapes()[t]| && Facts(Shapes()[t][r], PaddedShapes()[t][r])
    {
      ShapeFacts(t, r);
    }
  }

  /** The rotation counts agree with both tables. */
  lemma RotationsMatchTables(t: Tetromino)
    requires IsNonEmpty(t)
    ensures RotationsCount(t) == |Shapes()[t]| == |PaddedShapes()[t]|
  {
  }

  /** The occupancy matrix of rotation `rotation` of kind `t`. */
  function MatrixOf(t: Tetromino, rotation: int): (m: TetrominoMatrix)
    requires IsNonEmpty(t) && 0 <= rotation < RotationsCount(t)
    ensures IsTetrominoShape(m)
    ensures MatrixWidth(m) == PieceWidth(t, rotation)
  {
    RotationsMatchTables(t);
    ShapesMatchSource();
    WidthsMatchTable(t, rotation);
    Shapes()[t][rotation]
  }

  /** Padding the matrix of a rotation gives the source's 4x4 matrix for it. */
  lemma MatrixOfMatchesSource(t: Tetromino, rotation: int)
    requires IsNonEmpty(t) && 0 <= rotation < RotationsCount(t)
    ensures rotation < |PaddedShapes()[t]|
    ensures Pad(MatrixOf(t, rotation)) == PaddedShapes()[t][rotation]
  {
    RotationsMatchTables(t);
    ShapesMatchSource();
  }

  /**
   The width of rotation `rotation` of `t`, the `len(matrix[0])` the source
   reads; a small table of its own so that bounds on placements do not need
   the matrices.
   */
  function PieceWidth(t: Tetromino, rotation: int): (w: int)
    requires IsNonEmpty(t) && 0 <= rotation < RotationsCount(t)
    ensures 1 <= w <= 4
  {
    if t == I then (if rotation == 0 then 1 else 4)
    else if t == O then 2
    else if t == J || t == L then (if rotation % 2 == 0 then 2 else 3)
    else if rotation % 2 == 0 then 3
    else 2
  }

  /** The width table agrees with the first row of every trimmed matrix. */
  lemma {:induction false} WidthsMatchTable(t: Tetromino, rotation: int)
    requires IsNonEmpty(t) && 0 <= rotation < RotationsCount(t)
    ensures rotation < |Shapes()[t]|
    ensures 0 < |Shapes()[t][rotation]|
    ensures MatrixWidth(Shapes()[t][rotation]) == PieceWidth(t, rotation)
  {
    RotationsMatchTables(t);
    ShapesMatchSource();
    if t == I {
    } else if t == J {
    } else if t == L {
    } else if t == O {
    } else if t == S {
    } else if t == T {
    } else {
    }
  }
}
