/**
 The tetris board: a 10x20 grid of cells, the sticky game-over flag, the
 counters of cleared lines and dropped pieces, and the per-column heights
 and hole counts. A board is an immutable value; `Drop` returns the board
 after the move, so a copy made for a hypothetical move can never be
 affected by moves on another board.
 */
module Boards {
  import opened Catalog

  const Width: int := 10
  const Height: int := 20

  type Row = seq<Tetromino>

  /** Rows indexed from the top, cells within a row from the left. */
  type Grid = seq<Row>

  datatype Board = Board(
    cells: Grid,
    gameOver: bool,
    clearedLines: nat,
    droppedTetrominoes: nat,
    columnHeights: seq<int>,
    holes: seq<int>)

  predicate IsValidCell(row: int, col: int) {
    0 <= row < Height && 0 <= col < Width
  }

  predicate IsGrid(g: Grid) {
    && |g| == Height
    && (forall r :: 0 <= r < Height ==> |g[r]| == Width)
    && (forall r, c :: 0 <= r < Height && 0 <= c < Width ==> IsValid(g[r][c]))
  }

  predicate WellFormed(b: Board) {
    IsGrid(b.cells) && |b.columnHeights| == Width && |b.holes| == Width
  }

  function EmptyRow(): (row: Row)
    ensures |row| == Width && forall c :: 0 <= c < Width ==> row[c] == Empty
  {
    seq(Width, _ => Empty)
  }

  /** `n` empty rows, the filler the source writes above the kept rows. */
  function EmptyRows(n: nat): (rs: seq<Row>)
    ensures |rs| == n
    ensures forall i :: 0 <= i < n ==> rs[i] == EmptyRow()
  {
    if n == 0 then [] else [EmptyRow()] + EmptyRows(n - 1)
  }

  // ---------------------------------------------------------------------
  // Column statistics, defined from the grid alone.
  // ---------------------------------------------------------------------

  /** The first row at or below `lo` whose cell in column `c` is occupied; `Height` if none. */
  function FirstOccupied(g: Grid, c: int, lo: int): (r: int)
    requires IsGrid(g) && 0 <= c < Width && 0 <= lo <= Height
    ensures lo <= r <= Height
    ensures forall k :: lo <= k < r ==> g[k][c] == Empty
    ensures r < Height ==> g[r][c] != Empty
    decreases Height - lo
  {
    if lo == Height then Height
    else if g[lo][c] != Empty then lo
    else FirstOccupied(g, c, lo + 1)
  }

  /** The empty cells of column `c` in rows [lo, hi). */
  function CountEmpty(g: Grid, c: int, lo: int, hi: int): (n: nat)
    requires IsGrid(g) && 0 <= c < Width && 0 <= lo <= hi <= Height
    ensures n <= hi - lo
    decreases hi - lo
  {
    if lo == hi then 0
    else (if g[lo][c] == Empty then 1 else 0) + CountEmpty(g, c, lo + 1, hi)
  }

  /** Rows from the topmost occupied cell of column `c` down to the floor. */
  function ColumnHeight(g: Grid, c: int): (h: int)
    requires IsGrid(g) && 0 <= c < Width
    ensures 0 <= h <= Height
    ensures h == 0 <==> forall k :: 0 <= k < Height ==> g[k][c] == Empty
    ensures h > 0 ==> g[Height - h][c] != Empty
    ensures forall k :: 0 <= k < Height - h ==> g[k][c] == Empty
  {
    Height - FirstOccupied(g, c, 0)
  }

  /** Empty cells below the topmost occupied cell of column `c`. */
  function ColumnHoles(g: Grid, c: int): (n: nat)
    requires IsGrid(g) && 0 <= c < Width
    ensures n <= ColumnHeight(g, c)
    ensures ColumnHeight(g, c) > 0 ==> n < ColumnHeight(g, c)
  {
    var first := FirstOccupied(g, c, 0);
    assert first < Height ==> CountEmpty(g, c, first, Height) == CountEmpty(g, c, first + 1, Height);
    CountEmpty(g, c, first, Height)
  }

  /** The stored statistics agree with the grid in every column. */
  predicate StatsConsistent(b: Board)
    requires WellFormed(b)
  {
    forall c :: 0 <= c < Width ==>
      b.columnHeights[c] == ColumnHeight(b.cells, c) && b.holes[c] == ColumnHoles(b.cells, c)
  }

  /** What every board reachable by `NewBoard` and `Drop` satisfies. */
  predicate Inv(b: Board) {
    WellFormed(b) && (!b.gameOver ==> StatsConsistent(b))
  }

  lemma FirstOccupiedUnique(g: Grid, c: int, lo: int, r: int)
    requires IsGrid(g) && 0 <= c < Width && 0 <= lo <= r <= Height
    requires forall k :: lo <= k < r ==> g[k][c] == Empty
    requires r < Height ==> g[r][c] != Empty
    ensures FirstOccupied(g, c, lo) == r
  {
  }

  lemma {:induction false} CountEmptySameColumn(g: Grid, h: Grid, c: int, lo: int, hi: int)
    requires IsGrid(g) && IsGrid(h) && 0 <= c < Width && 0 <= lo <= hi <= Height
    requires forall k :: lo <= k < hi ==> g[k][c] == h[k][c]
    ensures CountEmpty(g, c, lo, hi) == CountEmpty(h, c, lo, hi)
    decreases hi - lo
  {
    if lo < hi {
      CountEmptySameColumn(g, h, c, lo + 1, hi);
    }
  }

  /** A column's statistics depend on that column only. */
  lemma ColumnStatsAreLocal(g: Grid, h: Grid, c: int)
    requires IsGrid(g) && IsGrid(h) && 0 <= c < Width
    requires forall k :: 0 <= k < Height ==> g[k][c] == h[k][c]
    ensures ColumnHeight(g, c) == ColumnHeight(h, c)
    ensures ColumnHoles(g, c) == ColumnHoles(h, c)
  {
    var first := FirstOccupied(g, c, 0);
    FirstOccupiedUnique(h, c, 0, first);
    CountEmptySameColumn(g, h, c, first, Height);
  }

  // ---------------------------------------------------------------------
  // The refresh of the column statistics.
  // ---------------------------------------------------------------------

  /**
   The scan of one column as the source writes it: walking down from `row`,
   the first occupied cell sets the height, every later empty cell adds a
   hole, and both start from the values passed in.
   */
  function ScanColumn(g: Grid, c: int, row: int, inHole: bool, height: int, holes: int): (int, int)
    requires IsGrid(g) && 0 <= c < Width && 0 <= row <= Height
    decreases Height - row
  {
    if row == Height then (height, holes)
    else
      var holes' := if inHole && g[row][c] == Empty then holes + 1 else holes;
      if !inHole && g[row][c] != Empty then ScanColumn(g, c, row + 1, true, Height - row, holes')
      else ScanColumn(g, c, row + 1, inHole, height, holes')
  }

  lemma {:induction false} ScanBelowFirst(g: Grid, c: int, row: int, height: int, holes: int)
    requires IsGrid(g) && 0 <= c < Width && 0 <= row <= Height
    ensures ScanColumn(g, c, row, true, height, holes) == (height, holes + CountEmpty(g, c, row, Height))
    decreases Height - row
  {
    if row < Height {
      ScanBelowFirst(g, c, row + 1, height, if g[row][c] == Empty then holes + 1 else holes);
    }
  }

  lemma {:induction false} ScanAboveFirst(g: Grid, c: int, row: int, first: int, height: int, holes: int)
    requires IsGrid(g) && 0 <= c < Width
    requires 0 <= row <= first <= Height
    requires forall k :: row <= k < first ==> g[k][c] == Empty
    requires first < Height ==> g[first][c] != Empty
    ensures first == Height ==> ScanColumn(g, c, row, false, height, holes) == (height, holes)
    ensures first < Height ==>
      ScanColumn(g, c, row, false, height, holes) == (Height - first, holes + CountEmpty(g, c, first, Height))
    decreases Height - row
  {
    if row == Height {
    } else if row == first {
      assert ScanColumn(g, c, row, false, height, holes) == ScanColumn(g, c, row + 1, true, Height - row, holes);
      ScanBelowFirst(g, c, row + 1, Height - row, holes);
    } else {
      assert ScanColumn(g, c, row, false, height, holes) == ScanColumn(g, c, row + 1, false, height, holes);
      ScanAboveFirst(g, c, row + 1, first, height, holes);
    }
  }

  /**
   Started from the stored values, as the source does, the scan keeps a stale
   height for a column that has become empty and adds the column's holes to
   the count already stored.
   */
  lemma ScanFromStoredValues(g: Grid, c: int, height: int, holes: int)
    requires IsGrid(g) && 0 <= c < Width
    ensures ScanColumn(g, c, 0, false, height, holes) ==
      (if ColumnHeight(g, c) == 0 then height else ColumnHeight(g, c), holes + ColumnHoles(g, c))
  {
    var first := FirstOccupied(g, c, 0);
    ScanAboveFirst(g, c, 0, first, height, holes);
    assert ColumnHeight(g, c) == Height - first;
    assert ColumnHoles(g, c) == CountEmpty(g, c, first, Height);
  }

  /** Started from zero, the scan yields exactly the column's height and holes. */
  lemma FreshScanIsExact(g: Grid, c: int)
    requires IsGrid(g) && 0 <= c < Width
    ensures ScanColumn(g, c, 0, false, 0, 0) == (ColumnHeight(g, c), ColumnHoles(g, c))
  {
    ScanFromStoredValues(g, c, 0, 0);
  }

  /** The refresh of columns [fromCol, toCol) as the source writes it. */
  function RefreshAsWritten(b: Board, fromCol: int, toCol: int): (r: Board)
    requires WellFormed(b) && 0 <= fromCol <= toCol <= Width
    ensures WellFormed(r)
    ensures r.cells == b.cells && r.gameOver == b.gameOver
    ensures r.clearedLines == b.clearedLines && r.droppedTetrominoes == b.droppedTetrominoes
    ensures forall c :: 0 <= c < Width && fromCol <= c < toCol ==>
      && r.holes[c] == b.holes[c] + ColumnHoles(b.cells, c)
      && r.columnHeights[c] == (if ColumnHeight(b.cells, c) == 0 then b.columnHeights[c] else ColumnHeight(b.cells, c))
    ensures forall c :: 0 <= c < Width && !(fromCol <= c < toCol) ==>
      r.columnHeights[c] == b.columnHeights[c] && r.holes[c] == b.holes[c]
  {
    b.(columnHeights := seq(Width, c requires 0 <= c < Width => StoredScan(b, fromCol, toCol, c).0),
       holes := seq(Width, c requires 0 <= c < Width => StoredScan(b, fromCol, toCol, c).1))
  }

  /** One column of `RefreshAsWritten`: scanned from the stored values inside the range, kept outside. */
  function StoredScan(b: Board, fromCol: int, toCol: int, c: int): (p: (int, int))
    requires WellFormed(b) && 0 <= c < Width
    ensures fromCol <= c < toCol ==>
      p == (if ColumnHeight(b.cells, c) == 0 then b.columnHeights[c] else ColumnHeight(b.cells, c),
            b.holes[c] + ColumnHoles(b.cells, c))
    ensures !(fromCol <= c < toCol) ==> p == (b.columnHeights[c], b.holes[c])
  {
    if fromCol <= c < toCol then
      ScanFromStoredValues(b.cells, c, b.columnHeights[c], b.holes[c]);
      ScanColumn(b.cells, c, 0, false, b.columnHeights[c], b.holes[c])
    else (b.columnHeights[c], b.holes[c])
  }

  /**
   The stale statistics the source's refresh leaves behind. First: after the
   drop that clears the bottom two rows in board_test.go:138-161 the grid is
   empty, but the columns that stood two rows high keep the height 2. Second:
   re-scanning a column whose one hole is already counted counts it twice.
   */
  lemma StaleStatsCounterexample()
    ensures var empty := Board(seq(Height, _ => EmptyRow()), false, 2, 5, seq(Width, _ => 2), seq(Width, _ => 0));
      && WellFormed(empty)
      && RefreshAsWritten(empty, 0, Width).columnHeights[6] == 2
      && ColumnHeight(empty.cells, 6) == 0
    ensures var g := seq(Height, _ => EmptyRow())[Height - 2 := EmptyRow()[0 := J]];
      var holed := Board(g, false, 0, 1, seq(Width, _ => 0)[0 := 2], seq(Width, _ => 0)[0 := 1]);
      && WellFormed(holed)
      && ColumnHoles(g, 0) == 1
      && holed.holes[0] == 1
      && RefreshAsWritten(holed, 0, 1).holes[0] == 2
  {
    var empty := Board(seq(Height, _ => EmptyRow()), false, 2, 5, seq(Width, _ => 2), seq(Width, _ => 0));
    assert WellFormed(empty);
    assert ColumnHeight(empty.cells, 6) == 0;
    var g := seq(Height, _ => EmptyRow())[Height - 2 := EmptyRow()[0 := J]];
    assert IsGrid(g);
    FirstOccupiedUnique(g, 0, 0, Height - 2);
    assert CountEmpty(g, 0, Height, Height) == 0;
    assert g[Height - 1] == seq(Height, _ => EmptyRow())[Height - 1] == EmptyRow();
    assert g[Height - 1][0] == Empty && g[Height - 2][0] == J;
    assert CountEmpty(g, 0, Height - 1, Height) == 1 + CountEmpty(g, 0, Height, Height);
    assert CountEmpty(g, 0, Height - 2, Height) == 1;
  }

  /** The refresh with both counters reset before each column is scanned. */
  function Refresh(b: Board, fromCol: int, toCol: int): (r: Board)
    requires WellFormed(b) && 0 <= fromCol <= toCol <= Width
    ensures WellFormed(r)
    ensures r.cells == b.cells && r.gameOver == b.gameOver
    ensures r.clearedLines == b.clearedLines && r.droppedTetrominoes == b.droppedTetrominoes
    ensures forall c :: 0 <= c < Width && fromCol <= c < toCol ==>
      r.columnHeights[c] == ColumnHeight(b.cells, c) && r.holes[c] == ColumnHoles(b.cells, c)
    ensures forall c :: 0 <= c < Width && !(fromCol <= c < toCol) ==>
      r.columnHeights[c] == b.columnHeights[c] && r.holes[c] == b.holes[c]
  {
    b.(columnHeights := seq(Width, c requires 0 <= c < Width => FreshScan(b, fromCol, toCol, c).0),
       holes := seq(Width, c requires 0 <= c < Width => FreshScan(b, fromCol, toCol, c).1))
  }

  /** One column of `Refresh`: scanned from zero inside the range, kept outside. */
  function FreshScan(b: Board, fromCol: int, toCol: int, c: int): (p: (int, int))
    requires WellFormed(b) && 0 <= c < Width
    ensures fromCol <= c < toCol ==> p == (ColumnHeight(b.cells, c), ColumnHoles(b.cells, c))
    ensures !(fromCol <= c < toCol) ==> p == (b.columnHeights[c], b.holes[c])
  {
    if fromCol <= c < toCol then
      FreshScanIsExact(b.cells, c);
      ScanColumn(b.cells, c, 0, false, 0, 0)
    else (b.columnHeights[c], b.holes[c])
  }

  // ---------------------------------------------------------------------
  // Construction, copying and reading.
  // ---------------------------------------------------------------------

  function NewBoard(): (b: Board)
    ensures WellFormed(b) && !b.gameOver
    ensures b.clearedLines == 0 && b.droppedTetrominoes == 0
    ensures forall r, c :: IsValidCell(r, c) ==> b.cells[r][c] == Empty
    ensures forall c :: 0 <= c < Width ==> b.columnHeights[c] == 0 && b.holes[c] == 0
    ensures StatsConsistent(b) && Inv(b)
  {
    var b := Board(seq(Height, _ => EmptyRow()), false, 0, 0, seq(Width, _ => 0), seq(Width, _ => 0));
    forall c | 0 <= c < Width
      ensures b.columnHeights[c] == ColumnHeight(b.cells, c) && b.holes[c] == ColumnHoles(b.cells, c)
    {
      assert ColumnHeight(b.cells, c) == 0;
    }
    b
  }

  /** A copy built row by row and column by column, as the source copies its slices. */
  function NewBoardFromBoard(other: Board): (b: Board)
    requires WellFormed(other)
    ensures b == other
  {
    var cells := seq(Height, r requires 0 <= r < Height => seq(Width, c requires 0 <= c < Width => other.cells[r][c]));
    var heights := seq(Width, c requires 0 <= c < Width => other.columnHeights[c]);
    var holes := seq(Width, c requires 0 <= c < Width => other.holes[c]);
    assert forall r :: 0 <= r < Height ==> cells[r] == other.cells[r];
    other.(cells := cells, columnHeights := heights, holes := holes)
  }

  /** The cell at (row, col); only coordinates on the board may be asked for. */
  function At(b: Board, row: int, col: int): (t: Tetromino)
    requires WellFormed(b) && IsValidCell(row, col)
    ensures IsValid(t)
    ensures t == b.cells[row][col]
  {
    b.cells[row][col]
  }

  // ---------------------------------------------------------------------
  // Fitting, gravity and stamping.
  // ---------------------------------------------------------------------

  /** Every occupied cell of `m`, placed with its top-left at (row, col), is on the board. */
  predicate FitsInside(m: TetrominoMatrix, row: int, col: int) {
    forall i, j :: 0 <= i < |m| && 0 <= j < |m[i]| && m[i][j] ==> IsValidCell(row + i, col + j)
  }

  /** `m` placed with its top-left at (row, col) lies on the board and overlaps no occupied cell. */
  predicate CanBePut(g: Grid, m: TetrominoMatrix, row: int, col: int)
    requires IsGrid(g)
  {
    forall i, j :: 0 <= i < |m| && 0 <= j < |m[i]| && m[i][j] ==>
      IsValidCell(row + i, col + j) && g[row + i][col + j] == Empty
  }

  lemma CanBePutFits(g: Grid, m: TetrominoMatrix, row: int, col: int)
    requires IsGrid(g) && CanBePut(g, m, row, col)
    ensures FitsInside(m, row, col)
  {
  }

  /** On a grid, the valid cells are exactly the positions that index a cell. */
  lemma ValidCellIndexesGrid(g: Grid, row: int, col: int)
    requires IsGrid(g)
    ensures IsValidCell(row, col) <==> 0 <= row < |g| && 0 <= col < |g[row]|
  {
  }

  /**
   The placement test as the source's nested loops run it: the first occupied
   cell of `m` that lands off the board or on an occupied cell rejects the
   placement, and a scan that finds none accepts it.
   */
  method CanBePutScan(g: Grid, m: TetrominoMatrix, row: int, col: int) returns (ok: bool)
    requires IsGrid(g)
    ensures ok <==> CanBePut(g, m, row, col)
  {
    for i := 0 to |m|
      invariant forall i', j :: 0 <= i' < i && 0 <= j < |m[i']| && m[i'][j] ==>
        IsValidCell(row + i', col + j) && g[row + i'][col + j] == Empty
    {
      for j := 0 to |m[i]|
        invariant forall j' :: 0 <= j' < j && m[i][j'] ==>
          IsValidCell(row + i, col + j') && g[row + i][col + j'] == Empty
      {
        if m[i][j] && (!IsValidCell(row + i, col + j) || g[row + i][col + j] != Empty) {
          return false;
        }
      }
    }
    return true;
  }

  lemma {:induction false} CountTrueWitness(row: seq<bool>, n: nat)
    requires n <= |row| && CountTrue(row, n) > 0
    ensures exists j :: 0 <= j < n && row[j]
  {
    if !row[n - 1] {
      CountTrueWitness(row, n - 1);
    }
  }

  lemma {:induction false} ColumnCountWitness(m: TetrominoMatrix, j: nat, n: nat)
    requires n <= |m| && ColumnCount(m, j, n) > 0
    ensures exists i :: 0 <= i < n && Occupied(m, i, j)
  {
    if !Occupied(m, n - 1, j) {
      ColumnCountWitness(m, j, n - 1);
    }
  }

  /** Every piece has an occupied cell in its top row and one in its left column. */
  lemma ShapeCorners(m: TetrominoMatrix)
    requires IsTetrominoShape(m)
    ensures exists j :: Occupied(m, 0, j)
    ensures exists i :: Occupied(m, i, 0)
  {
    CountTrueWitness(m[0], |m[0]|);
    var j :| 0 <= j < |m[0]| && m[0][j];
    assert Occupied(m, 0, j);
    ColumnCountWitness(m, 0, |m|);
  }

  /** A piece cannot be put with its top row below the floor, nor left of column 0. */
  lemma OffBoardNeverFits(g: Grid, m: TetrominoMatrix, row: int, col: int)
    requires IsGrid(g) && IsTetrominoShape(m)
    ensures row >= Height ==> !CanBePut(g, m, row, col)
    ensures col < 0 ==> !CanBePut(g, m, row, col)
  {
    ShapeCorners(m);
  }

  /**
   The row the piece comes to rest on when it falls from `row`: it keeps
   moving down while the next row still fits.
   */
  function RestingRow(g: Grid, m: TetrominoMatrix, col: int, row: int): (r: int)
    requires IsGrid(g) && IsTetrominoShape(m) && 0 <= row < Height && CanBePut(g, m, row, col)
    ensures row <= r < Height
    ensures forall k :: row <= k <= r ==> CanBePut(g, m, k, col)
    ensures !CanBePut(g, m, r + 1, col)
    decreases Height - row
  {
    OffBoardNeverFits(g, m, row + 1, col);
    if row + 1 < Height && CanBePut(g, m, row + 1, col) then RestingRow(g, m, col, row + 1) else row
  }

  /** The resting row is the only row from which every row above fits and the next does not. */
  lemma {:induction false} RestingRowUnique(g: Grid, m: TetrominoMatrix, col: int, lo: int, r: int)
    requires IsGrid(g) && IsTetrominoShape(m) && 0 <= lo <= r < Height
    requires forall k :: lo <= k <= r ==> CanBePut(g, m, k, col)
    requires !CanBePut(g, m, r + 1, col)
    ensures RestingRow(g, m, col, lo) == r
    decreases r - lo
  {
    if lo < r {
      RestingRowUnique(g, m, col, lo + 1, r);
    }
  }

  /**
   The source's gravity scan: try every row from the top and stop one row
   before the first one the piece does not fit on.
   */
  method GravityScan(g: Grid, m: TetrominoMatrix, col: int) returns (row: int)
    requires IsGrid(g) && IsTetrominoShape(m) && CanBePut(g, m, 0, col)
    ensures 0 <= row < Height
    ensures forall k :: 0 <= k <= row ==> CanBePut(g, m, k, col)
    ensures !CanBePut(g, m, row + 1, col)
    ensures row == RestingRow(g, m, col, 0)
  {
    OffBoardNeverFits(g, m, Height, col);
    var r := 0;
    row := 0;
    while r < Height
      invariant 0 <= r <= Height
      invariant forall k :: 0 <= k < r ==> CanBePut(g, m, k, col)
      invariant r > 0 ==> row == r - 1
    {
      row := r;
      if !CanBePut(g, m, r, col) {
        row := r - 1;
        break;
      }
      r := r + 1;
    }
    RestingRowUnique(g, m, col, 0, row);
  }

  /** The grid with every occupied cell of `m` at (row + i, col + j) set to `t`. */
  function Stamp(g: Grid, m: TetrominoMatrix, row: int, col: int, t: Tetromino): (s: Grid)
    requires IsGrid(g) && IsValid(t) && FitsInside(m, row, col)
    ensures IsGrid(s)
    ensures forall r, c :: IsValidCell(r, c) ==>
      s[r][c] == if Occupied(m, r - row, c - col) then t else g[r][c]
  {
    seq(Height, r requires 0 <= r < Height =>
      seq(Width, c requires 0 <= c < Width =>
        if Occupied(m, r - row, c - col) then t else g[r][c]))
  }

  // ---------------------------------------------------------------------
  // Clearing full rows.
  // ---------------------------------------------------------------------

  /** A row is full when none of its cells is empty. */
  predicate IsFullRow(row: Row) {
    Empty !in row
  }

  /** The source's scan of row `r`: it stops at the first empty cell. */
  method FullRowScan(g: Grid, r: int) returns (full: bool)
    requires 0 <= r < |g|
    ensures full <==> IsFullRow(g[r])
    ensures full <==> forall c :: 0 <= c < |g[r]| ==> g[r][c] != Empty
  {
    for c := 0 to |g[r]|
      invariant forall c' :: 0 <= c' < c ==> g[r][c'] != Empty
    {
      if g[r][c] == Empty {
        return false;
      }
    }
    return true;
  }

  /** The rows that are not full, in their original order. */
  function KeptRows(rows: seq<Row>): (k: seq<Row>)
    ensures |k| <= |rows|
    ensures forall i :: 0 <= i < |k| ==> !IsFullRow(k[i])
  {
    if |rows| == 0 then []
    else (if IsFullRow(rows[0]) then [] else [rows[0]]) + KeptRows(rows[1..])
  }

  /** Nothing is invented: every kept row is a row of the input. */
  lemma {:induction false} KeptRowsAreRows(rows: seq<Row>)
    ensures forall i :: 0 <= i < |KeptRows(rows)| ==> KeptRows(rows)[i] in rows
  {
    if |rows| > 0 {
      KeptRowsAreRows(rows[1..]);
      var head := if IsFullRow(rows[0]) then [] else [rows[0]];
      forall i | 0 <= i < |KeptRows(rows)|
        ensures KeptRows(rows)[i] in rows
      {
        if i >= |head| {
          assert KeptRows(rows)[i] == KeptRows(rows[1..])[i - |head|];
          assert KeptRows(rows)[i] in rows[1..];
        }
      }
    }
  }

  /** Nothing is lost: every row that is not full is kept. */
  lemma {:induction false} NonFullRowsAreKept(rows: seq<Row>)
    ensures forall i :: 0 <= i < |rows| && !IsFullRow(rows[i]) ==> rows[i] in KeptRows(rows)
  {
    if |rows| > 0 {
      NonFullRowsAreKept(rows[1..]);
      forall i | 1 <= i < |rows| && !IsFullRow(rows[i])
        ensures rows[i] in KeptRows(rows)
      {
        assert rows[i] == rows[1..][i - 1];
      }
    }
  }

  /** Without full rows every row is kept, in place. */
  lemma {:induction false} AllRowsKept(rows: seq<Row>)
    requires forall i :: 0 <= i < |rows| ==> !IsFullRow(rows[i])
    ensures KeptRows(rows) == rows
  {
    if |rows| > 0 {
      assert forall i :: 0 <= i < |rows[1..]| ==> rows[1..][i] == rows[i + 1];
      AllRowsKept(rows[1..]);
      assert [rows[0]] + rows[1..] == rows;
    }
  }

  /** How many rows are full. */
  function FullRowCount(rows: seq<Row>): (n: nat)
    ensures n == |rows| - |KeptRows(rows)|
    ensures n > 0 <==> exists i :: 0 <= i < |rows| && IsFullRow(rows[i])
  {
    if |rows| == 0 then 0
    else
      assert forall i :: 1 <= i < |rows| ==> rows[1..][i - 1] == rows[i];
      (if IsFullRow(rows[0]) then 1 else 0) + FullRowCount(rows[1..])
  }

  /** The grid with its full rows removed, the rest packed at the bottom under empty rows. */
  function Compact(g: Grid): (h: Grid)
    ensures |h| == |g|
    ensures IsGrid(g) ==> IsGrid(h)
    ensures forall r :: 0 <= r < |h| ==> !IsFullRow(h[r])
    ensures forall r :: 0 <= r < FullRowCount(g) ==> h[r] == EmptyRow()
    ensures h[FullRowCount(g)..] == KeptRows(g)
    ensures FullRowCount(g) == 0 ==> h == g
  {
    var h := EmptyRows(FullRowCount(g)) + KeptRows(g);
    CompactRows(g, h);
    RowsDrawnFrom(g, h);
    if FullRowCount(g) == 0 then CompactNothingFull(g); h else h
  }

  /** Each row of the compacted grid is an empty row or a non-full row of `g`. */
  lemma CompactRows(g: Grid, h: Grid)
    requires h == EmptyRows(FullRowCount(g)) + KeptRows(g)
    ensures forall r :: 0 <= r < |h| ==> h[r] == EmptyRow() || h[r] in g
    ensures forall r :: 0 <= r < |h| ==> !IsFullRow(h[r])
  {
    forall r | 0 <= r < |h|
      ensures h[r] == EmptyRow() || h[r] in g
      ensures !IsFullRow(h[r])
    {
      CompactRow(g, FullRowCount(g), h, r);
    }
  }

  lemma CompactRow(g: Grid, n: nat, h: Grid, r: int)
    requires h == EmptyRows(n) + KeptRows(g) && 0 <= r < |h|
    ensures h[r] == EmptyRow() || h[r] in g
    ensures !IsFullRow(h[r])
  {
    if r < n {
      assert h[r] == EmptyRows(n)[r];
      assert EmptyRow()[0] == Empty;
    } else {
      KeptRowsAreRows(g);
      assert h[r] == KeptRows(g)[r - n];
    }
  }

  /** Without full rows, compaction changes nothing. */
  lemma CompactNothingFull(g: Grid)
    requires FullRowCount(g) == 0
    ensures EmptyRows(0) + KeptRows(g) == g
  {
    AllRowsKept(g);
  }

  /** Rows taken from a grid, or empty, make a grid again. */
  lemma RowsDrawnFrom(g: Grid, h: Grid)
    requires |h| == |g|
    requires forall r :: 0 <= r < |h| ==> h[r] == EmptyRow() || h[r] in g
    ensures IsGrid(g) ==> IsGrid(h)
  {
    if IsGrid(g) {
      forall r | 0 <= r < Height
        ensures |h[r]| == Width && forall c :: 0 <= c < Width ==> IsValid(h[r][c])
      {
        if h[r] != EmptyRow() {
          var i :| 0 <= i < |g| && g[i] == h[r];
        }
      }
    }
  }

  /** Clears the full rows, counts them, and tells whether there were any. */
  function ClearFullRows(b: Board): (r: (Board, bool))
    requires WellFormed(b)
    ensures WellFormed(r.0)
    ensures r.0.cells == Compact(b.cells)
    ensures r.0.clearedLines == b.clearedLines + FullRowCount(b.cells)
    ensures r.0 == b.(cells := r.0.cells, clearedLines := r.0.clearedLines)
    ensures r.1 <==> exists k :: 0 <= k < Height && IsFullRow(b.cells[k])
  {
    var n := FullRowCount(b.cells);
    var h := Compact(b.cells);
    (b.(cells := h, clearedLines := b.clearedLines + n), n > 0)
  }

  lemma KeptRowsStep(g: seq<Row>, i: int)
    requires 0 <= i < |g|
    ensures KeptRows(g[i..]) == (if IsFullRow(g[i]) then [] else [g[i]]) + KeptRows(g[i + 1..])
    ensures FullRowCount(g[i..]) == (if IsFullRow(g[i]) then 1 else 0) + FullRowCount(g[i + 1..])
  {
    assert g[i..][0] == g[i];
    assert g[i..][1..] == g[i + 1..];
  }

  /**
   The grid the in-place clearing holds when its write index is `idxTo`,
   its read index `idxFrom`, and `inserted` empty rows have been written:
   rows up to `idxTo` are still the original ones, then come the empty rows,
   then the kept rows of everything above `idxFrom`.
   */
  ghost function Written(g: Grid, idxTo: int, idxFrom: int, inserted: nat): seq<Row>
    requires -1 <= idxFrom <= idxTo < |g|
  {
    g[..idxTo + 1] + (EmptyRows(inserted) + KeptRows(g[idxFrom + 1..]))
  }

  lemma FillWritten(g: Grid, idxTo: int, inserted: nat)
    requires 0 <= idxTo < |g|
    ensures |Written(g, idxTo, -1, inserted)| == |Written(g, idxTo - 1, -1, inserted + 1)|
    ensures Written(g, idxTo, -1, inserted)[idxTo := EmptyRow()] == Written(g, idxTo - 1, -1, inserted + 1)
  {
    var rest := KeptRows(g[0..]);
    assert [EmptyRow()] + (EmptyRows(inserted) + rest) == EmptyRows(inserted + 1) + rest;
    assert (g[..idxTo + 1] + (EmptyRows(inserted) + rest))[idxTo := EmptyRow()]
        == g[..idxTo] + ([EmptyRow()] + (EmptyRows(inserted) + rest));
  }

  lemma ReadAbove(g: Grid, idxTo: int, idxFrom: int, inserted: nat)
    requires 0 <= idxFrom <= idxTo < |g|
    ensures Written(g, idxTo, idxFrom, inserted)[idxFrom] == g[idxFrom]
  {
  }

  lemma KeepWritten(g: Grid, idxTo: int, idxFrom: int)
    requires 0 <= idxFrom <= idxTo < |g|
    requires !IsFullRow(g[idxFrom])
    ensures |Written(g, idxTo, idxFrom, 0)| == |Written(g, idxTo - 1, idxFrom - 1, 0)|
    ensures Written(g, idxTo, idxFrom, 0)[idxTo := g[idxFrom]] == Written(g, idxTo - 1, idxFrom - 1, 0)
    ensures FullRowCount(g[idxFrom..]) == FullRowCount(g[idxFrom + 1..])
  {
    KeptRowsStep(g, idxFrom);
    var rest := KeptRows(g[idxFrom + 1..]);
    assert (g[..idxTo + 1] + (EmptyRows(0) + rest))[idxTo := g[idxFrom]]
        == g[..idxTo] + (EmptyRows(0) + ([g[idxFrom]] + rest));
  }

  lemma SkipWritten(g: Grid, idxTo: int, idxFrom: int)
    requires 0 <= idxFrom <= idxTo < |g|
    requires IsFullRow(g[idxFrom])
    ensures Written(g, idxTo, idxFrom, 0) == Written(g, idxTo, idxFrom - 1, 0)
    ensures FullRowCount(g[idxFrom..]) == 1 + FullRowCount(g[idxFrom + 1..])
  {
    KeptRowsStep(g, idxFrom);
  }

  /** Once both indices have passed the top, the grid is the compacted one. */
  lemma AllRowsWritten(g: Grid, out: Grid, idxTo: int, idxFrom: int, inserted: nat, cleared: nat)
    requires ClearingState(g, out, idxTo, idxFrom, inserted, cleared) && idxTo < 0
    ensures out == Compact(g)
    ensures cleared == FullRowCount(g)
  {
    assert idxTo == -1 && idxFrom == -1;
    assert g[..0] == [] && g[0..] == g;
    var k := KeptRows(g);
    assert out == EmptyRows(inserted) + k;
    assert inserted == FullRowCount(g);
  }

  /**
   The source's in-place clearing: one index reads rows from the bottom up,
   another writes the kept rows from the bottom up, and once the reading
   index passes the top the remaining rows are filled with empty rows.
   */
  method ClearFullRowsInPlace(g: Grid) returns (out: Grid, cleared: nat, someRowsCleared: bool)
    requires |g| == Height
    ensures out == Compact(g)
    ensures cleared == FullRowCount(g)
    ensures someRowsCleared <==> cleared > 0
  {
    out := g;
    cleared := 0;
    someRowsCleared := false;
    var idxFrom := Height - 1;
    var idxTo := Height - 1;
    var inserted: nat := 0;
    assert Written(g, idxTo, idxFrom, inserted) == g by {
      assert g[..Height] == g && g[Height..] == [];
    }
    while idxTo >= 0
      invariant ClearingState(g, out, idxTo, idxFrom, inserted, cleared)
      invariant someRowsCleared <==> cleared > 0
      decreases idxTo + idxFrom + 2
    {
      var rowCleared;
      out, idxTo, idxFrom, inserted, cleared, rowCleared := ClearingStep(g, out, idxTo, idxFrom, inserted, cleared);
      someRowsCleared := someRowsCleared || rowCleared;
    }
    AllRowsWritten(g, out, idxTo, idxFrom, inserted, cleared);
  }

  /** The loop invariant of the in-place clearing. */
  ghost predicate ClearingState(g: Grid, out: Grid, idxTo: int, idxFrom: int, inserted: nat, cleared: nat) {
    && -1 <= idxFrom <= idxTo < |g|
    && |out| == |g|
    && out == Written(g, idxTo, idxFrom, inserted)
    && (inserted > 0 ==> idxFrom == -1)
    && cleared == FullRowCount(g[idxFrom + 1..])
  }

  /** Past the top row, an empty row is written and the write index moves up. */
  lemma FillStep(g: Grid, out: Grid, idxTo: int, inserted: nat, cleared: nat)
    requires ClearingState(g, out, idxTo, -1, inserted, cleared) && idxTo >= 0
    ensures ClearingState(g, out[idxTo := EmptyRow()], idxTo - 1, -1, inserted + 1, cleared)
  {
    FillWritten(g, idxTo, inserted);
  }

  /** A full row is skipped: only the read index moves, and one more row is cleared. */
  lemma SkipStep(g: Grid, out: Grid, idxTo: int, idxFrom: int, cleared: nat)
    requires ClearingState(g, out, idxTo, idxFrom, 0, cleared) && idxFrom >= 0
    requires IsFullRow(out[idxFrom])
    ensures ClearingState(g, out, idxTo, idxFrom - 1, 0, cleared + 1)
  {
    ReadAbove(g, idxTo, idxFrom, 0);
    SkipWritten(g, idxTo, idxFrom);
  }

  /** A kept row is copied down to the write index and both indices move up. */
  lemma KeepStep(g: Grid, out: Grid, idxTo: int, idxFrom: int, cleared: nat)
    requires ClearingState(g, out, idxTo, idxFrom, 0, cleared) && idxFrom >= 0
    requires !IsFullRow(out[idxFrom])
    ensures ClearingState(g, out[idxTo := out[idxFrom]], idxTo - 1, idxFrom - 1, 0, cleared)
  {
    ReadAbove(g, idxTo, idxFrom, 0);
    KeepWritten(g, idxTo, idxFrom);
  }

  /** One pass of the clearing loop's body. */
  method ClearingStep(g: Grid, out: Grid, idxTo: int, idxFrom: int, inserted: nat, cleared: nat)
    returns (out': Grid, idxTo': int, idxFrom': int, inserted': nat, cleared': nat, rowCleared: bool)
    requires ClearingState(g, out, idxTo, idxFrom, inserted, cleared) && idxTo >= 0
    ensures ClearingState(g, out', idxTo', idxFrom', inserted', cleared')
    ensures idxTo' + idxFrom' < idxTo + idxFrom
    ensures rowCleared <==> cleared' > cleared
    ensures cleared' >= cleared
  {
    if idxFrom < 0 {
      FillStep(g, out, idxTo, inserted, cleared);
      out', idxTo', idxFrom', inserted', cleared', rowCleared := out[idxTo := EmptyRow()], idxTo - 1, idxFrom, inserted + 1, cleared, false;
    } else if IsFullRow(out[idxFrom]) {
      SkipStep(g, out, idxTo, idxFrom, cleared);
      out', idxTo', idxFrom', inserted', cleared', rowCleared := out, idxTo, idxFrom - 1, inserted, cleared + 1, true;
    } else {
      KeepStep(g, out, idxTo, idxFrom, cleared);
      out', idxTo', idxFrom', inserted', cleared', rowCleared := out[idxTo := out[idxFrom]], idxTo - 1, idxFrom - 1, inserted, cleared, false;
    }
  }

  // ---------------------------------------------------------------------
  // Dropping a piece.
  // ---------------------------------------------------------------------

  datatype Dropped = Dropped(board: Board, gameEnded: bool)

  /** What `Drop` demands of its caller; anything else makes the source panic. */
  predicate CanDrop(b: Board, t: Tetromino, rotation: int, col: int) {
    && WellFormed(b)
    && IsNonEmpty(t)
    && 0 <= rotation < RotationsCount(t)
    && !b.gameOver
    && 0 <= col
    && col + PieceWidth(t, rotation) <= Width
  }

  lemma PieceFitsInside(t: Tetromino, rotation: int, row: int, col: int)
    requires IsNonEmpty(t) && 0 <= rotation < RotationsCount(t)
    requires 0 <= row <= Height - 4 && 0 <= col && col + PieceWidth(t, rotation) <= Width
    ensures FitsInside(MatrixOf(t, rotation), row, col)
  {
  }

  /** The row a piece rests on when dropped on a board where it fits at the top. */
  function LandingRow(b: Board, t: Tetromino, rotation: int, col: int): (row: int)
    requires CanDrop(b, t, rotation, col) && CanBePut(b.cells, MatrixOf(t, rotation), 0, col)
    ensures 0 <= row < Height
    ensures forall k :: 0 <= k <= row ==> CanBePut(b.cells, MatrixOf(t, rotation), k, col)
    ensures !CanBePut(b.cells, MatrixOf(t, rotation), row + 1, col)
    ensures FitsInside(MatrixOf(t, rotation), row, col)
  {
    var m := MatrixOf(t, rotation);
    var r := RestingRow(b.cells, m, col, 0);
    CanBePutFits(b.cells, m, r, col);
    r
  }

  /**
   Drops rotation `rotation` of `t` with its left edge in column `col`.
   If the piece does not fit at the top the game ends: the piece is stamped
   there anyway and nothing else changes. Otherwise it falls to its landing
   row, the full rows are cleared and the column statistics refreshed.
   */
  function Drop(b: Board, t: Tetromino, rotation: int, col: int): (d: Dropped)
    requires CanDrop(b, t, rotation, col)
    ensures WellFormed(d.board)
    ensures d.gameEnded <==> !CanBePut(b.cells, MatrixOf(t, rotation), 0, col)
    ensures d.board.gameOver == d.gameEnded
    ensures d.gameEnded ==>
      d.board == b.(gameOver := true, cells := Stamp(b.cells, MatrixOf(t, rotation), 0, col, t))
    ensures !d.gameEnded ==>
      && d.board.droppedTetrominoes == b.droppedTetrominoes + 1
      && d.board.clearedLines ==
           b.clearedLines + FullRowCount(Stamp(b.cells, MatrixOf(t, rotation), LandingRow(b, t, rotation, col), col, t))
      && d.board.cells == Compact(Stamp(b.cells, MatrixOf(t, rotation), LandingRow(b, t, rotation, col), col, t))
    ensures b.clearedLines <= d.board.clearedLines <= b.clearedLines + Height
    ensures !d.gameEnded && StatsConsistent(b) ==> StatsConsistent(d.board)
    ensures Inv(b) ==> Inv(d.board)
  {
    var m := MatrixOf(t, rotation);
    if !CanBePut(b.cells, m, 0, col) then
      PieceFitsInside(t, rotation, 0, col);
      Dropped(b.(gameOver := true, cells := Stamp(b.cells, m, 0, col, t)), true)
    else
      var row := LandingRow(b, t, rotation, col);
      var stamped := b.(cells := Stamp(b.cells, m, row, col, t), droppedTetrominoes := b.droppedTetrominoes + 1);
      var (compacted, someRowsCleared) := ClearFullRows(stamped);
      var fromCol := if someRowsCleared then 0 else col;
      var toCol := if someRowsCleared then Width else col + MatrixWidth(m);
      var refreshed := Refresh(compacted, fromCol, toCol);
      DropKeepsStats(b, m, row, col, t, stamped, compacted, refreshed, fromCol, toCol);
      Dropped(refreshed, false)
  }

  /** Stamping a piece leaves every column outside its span as it was. */
  lemma StampOutsideSpan(g: Grid, m: TetrominoMatrix, row: int, col: int, t: Tetromino, c: int)
    requires IsGrid(g) && IsTetrominoShape(m) && IsNonEmpty(t) && FitsInside(m, row, col)
    requires 0 <= c < Width && !(col <= c < col + MatrixWidth(m))
    ensures forall k :: 0 <= k < Height ==> Stamp(g, m, row, col, t)[k][c] == g[k][c]
  {
    forall k | 0 <= k < Height
      ensures Stamp(g, m, row, col, t)[k][c] == g[k][c]
    {
      assert !Occupied(m, k - row, c - col);
    }
  }

  /**
   When no row is cleared, the columns outside the piece's span are the same
   as before the drop, so refreshing only the spanned columns suffices.
   */
  lemma DropKeepsStats(b: Board, m: TetrominoMatrix, row: int, col: int, t: Tetromino,
                       stamped: Board, compacted: Board, refreshed: Board, fromCol: int, toCol: int)
    requires WellFormed(b) && IsTetrominoShape(m) && IsNonEmpty(t) && FitsInside(m, row, col)
    requires 0 <= col && col + MatrixWidth(m) <= Width
    requires stamped == b.(cells := Stamp(b.cells, m, row, col, t), droppedTetrominoes := b.droppedTetrominoes + 1)
    requires compacted == ClearFullRows(stamped).0
    requires 0 <= fromCol <= toCol <= Width
    requires ClearFullRows(stamped).1 ==> fromCol == 0 && toCol == Width
    requires !ClearFullRows(stamped).1 ==> fromCol == col && toCol == col + MatrixWidth(m)
    requires refreshed == Refresh(compacted, fromCol, toCol)
    ensures StatsConsistent(b) ==> StatsConsistent(refreshed)
  {
    if StatsConsistent(b) && !ClearFullRows(stamped).1 {
      assert compacted.cells == stamped.cells;
      forall c | 0 <= c < Width && !(fromCol <= c < toCol)
        ensures refreshed.columnHeights[c] == ColumnHeight(refreshed.cells, c)
        ensures refreshed.holes[c] == ColumnHoles(refreshed.cells, c)
      {
        StampOutsideSpan(b.cells, m, row, col, t, c);
        ColumnStatsAreLocal(b.cells, stamped.cells, c);
      }
    }
  }
}
