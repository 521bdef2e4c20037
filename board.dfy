/** The Connect-4 board: the game's constants, the grid of cells and the
    operations that query it or drop a chip into it (connect4.py:7-48, 82-87). */
module Board {

  datatype Option<T> = None | Some(value: T)

  // Board geometry and cell codes.
  const Rows := 6
  const Cols := 7
  const EmptyCell := 0
  const Red := 1
  const Blue := 2

  // Score sentinels and the codes the evaluator looks for.
  const Vic := 100_000_000_000_000_000_000   // 10^20, a board won by the maximizer
  const Loss := -Vic
  const Tie := 0
  const Size := 4                             // length of a winning sequence
  const Computer := Size + 1                  // the evaluator's code for the computer's cells
  const Human := 1                            // the evaluator's code for the human's cells

  function Min(x: int, y: int): int
  {
    if x <= y then x else y
  }

  function Max(x: int, y: int): int
  {
    if x >= y then x else y
  }

  /** A board value: row 0 is the bottom row. */
  type Grid = seq<seq<int>>

  predicate WellShaped(b: Grid)
  {
    |b| == Rows && forall r :: 0 <= r < Rows ==> |b[r]| == Cols
  }

  predicate IsChip(x: int)
  {
    x == EmptyCell || x == Red || x == Blue
  }

  /** A 6x7 board whose every cell is empty, red or blue. */
  predicate ValidBoard(b: Grid)
  {
    WellShaped(b) && forall r, c :: 0 <= r < Rows && 0 <= c < Cols ==> IsChip(b[r][c])
  }

  /** Columns fill bottom-up: no occupied cell sits above an empty one. */
  ghost predicate Gravity(b: Grid)
    requires WellShaped(b)
  {
    forall r, r', c :: 0 <= r <= r' < Rows && 0 <= c < Cols && b[r][c] == EmptyCell ==> b[r'][c] == EmptyCell
  }

  /** create_board: a fresh all-empty board. */
  function CreateBoard(): (b: Grid)
    ensures ValidBoard(b) && Gravity(b)
    ensures forall r, c :: 0 <= r < Rows && 0 <= c < Cols ==> b[r][c] == EmptyCell
  {
    seq(Rows, _ => seq(Cols, _ => EmptyCell))
  }

  /** drop_chip on a board value: only cell (row, col) changes, and it becomes chip. */
  function Drop(b: Grid, row: int, col: int, chip: int): (b': Grid)
    requires WellShaped(b) && 0 <= row < Rows && 0 <= col < Cols
    ensures WellShaped(b')
    ensures b'[row][col] == chip
    ensures forall r, c :: 0 <= r < Rows && 0 <= c < Cols && (r != row || c != col) ==> b'[r][c] == b[r][c]
    ensures ValidBoard(b) && IsChip(chip) ==> ValidBoard(b')
  {
    b[row := b[row][col := chip]]
  }

  /** is_valid_location: the top cell of the column is empty. */
  predicate IsValidLocation(b: Grid, col: int)
    requires WellShaped(b) && 0 <= col < Cols
  {
    b[Rows - 1][col] == EmptyCell
  }

  /** The lowest empty row of column col at or above row `from`, if any. */
  function LowestEmptyFrom(b: Grid, col: int, from: nat): (row: Option<int>)
    requires WellShaped(b) && 0 <= col < Cols && from <= Rows
    ensures row.Some? ==> from <= row.value < Rows && b[row.value][col] == EmptyCell
    ensures row.Some? ==> forall r :: from <= r < row.value ==> b[r][col] != EmptyCell
    ensures row.None? <==> forall r :: from <= r < Rows ==> b[r][col] != EmptyCell
    decreases Rows - from
  {
    if from == Rows then None
    else if b[from][col] == EmptyCell then Some(from)
    else LowestEmptyFrom(b, col, from + 1)
  }

  /** The row get_next_open_row returns: the lowest empty row of the column,
      None (Python's implicit return value) when the column is full. */
  function NextOpenRow(b: Grid, col: int): Option<int>
    requires WellShaped(b) && 0 <= col < Cols
  {
    LowestEmptyFrom(b, col, 0)
  }

  /** get_next_open_row: scan the column bottom-up, return at the first empty cell. */
  method GetNextOpenRow(b: Grid, col: int) returns (row: Option<int>)
    requires WellShaped(b) && 0 <= col < Cols
    ensures row == NextOpenRow(b, col)
    ensures row.Some? ==> 0 <= row.value < Rows && b[row.value][col] == EmptyCell
    ensures row.Some? ==> forall r :: 0 <= r < row.value ==> b[r][col] != EmptyCell
    ensures row.None? <==> forall r :: 0 <= r < Rows ==> b[r][col] != EmptyCell
  {
    for r := 0 to Rows
      invariant forall r' :: 0 <= r' < r ==> b[r'][col] != EmptyCell
    {
      if b[r][col] == EmptyCell {
        return Some(r);
      }
    }
    return None;
  }

  /** The playable columns below n, in ascending order. */
  function ValidLocationsBelow(b: Grid, n: int): seq<int>
    requires WellShaped(b) && 0 <= n <= Cols
  {
    if n == 0 then []
    else ValidLocationsBelow(b, n - 1) + (if IsValidLocation(b, n - 1) then [n - 1] else [])
  }

  /** The list lists exactly the playable columns below n, in ascending order. */
  lemma {:induction false} ValidLocationsBelowExact(b: Grid, n: int)
    requires WellShaped(b) && 0 <= n <= Cols
    ensures forall i :: 0 <= i < |ValidLocationsBelow(b, n)| ==>
      0 <= ValidLocationsBelow(b, n)[i] < n && IsValidLocation(b, ValidLocationsBelow(b, n)[i])
    ensures forall i, j :: 0 <= i < j < |ValidLocationsBelow(b, n)| ==>
      ValidLocationsBelow(b, n)[i] < ValidLocationsBelow(b, n)[j]
    ensures forall c :: 0 <= c < n && IsValidLocation(b, c) ==> c in ValidLocationsBelow(b, n)
  {
    if n > 0 {
      ValidLocationsBelowExact(b, n - 1);
    }
  }

  /** The list get_valid_locations builds: the playable columns in ascending order. */
  function ValidLocations(b: Grid): (cols: seq<int>)
    requires WellShaped(b)
    ensures forall i :: 0 <= i < |cols| ==> 0 <= cols[i] < Cols && IsValidLocation(b, cols[i])
    ensures forall i, j :: 0 <= i < j < |cols| ==> cols[i] < cols[j]
    ensures forall c :: 0 <= c < Cols && IsValidLocation(b, c) ==> c in cols
  {
    ValidLocationsBelowExact(b, Cols);
    ValidLocationsBelow(b, Cols)
  }

  /** get_valid_locations: append every playable column, in ascending order. */
  method GetValidLocations(b: Grid) returns (cols: seq<int>)
    requires WellShaped(b)
    ensures cols == ValidLocations(b)
    ensures forall i, j :: 0 <= i < j < |cols| ==> cols[i] < cols[j]
    ensures forall c :: c in cols <==> 0 <= c < Cols && IsValidLocation(b, c)
  {
    cols := [];
    for col := 0 to Cols
      invariant cols == ValidLocationsBelow(b, col)
    {
      if IsValidLocation(b, col) {
        cols := cols + [col];
      }
    }
  }

  /** On an empty board every column is playable: the list is 0, 1, ..., 6. */
  lemma EmptyBoardAllValid()
    ensures ValidLocations(CreateBoard()) == seq(Cols, i => i)
  {
    var b := CreateBoard();
    AllValidBelow(b, Cols);
    assert ValidLocationsBelow(b, Cols) == seq(Cols, i => i);
  }

  /** When every column below n is playable, the list is 0, 1, ..., n - 1. */
  lemma {:induction false} AllValidBelow(b: Grid, n: int)
    requires WellShaped(b) && 0 <= n <= Cols
    requires forall c :: 0 <= c < n ==> IsValidLocation(b, c)
    ensures |ValidLocationsBelow(b, n)| == n
    ensures forall i :: 0 <= i < n ==> ValidLocationsBelow(b, n)[i] == i
  {
    if n > 0 {
      AllValidBelow(b, n - 1);
    }
  }

  /** Under gravity, a playable column has a next open row: every cell below it
      is occupied and it and every cell above it are empty. */
  lemma GravityNextOpenRow(b: Grid, col: int)
    requires WellShaped(b) && Gravity(b) && 0 <= col < Cols && IsValidLocation(b, col)
    ensures NextOpenRow(b, col).Some?
    ensures var row := NextOpenRow(b, col).value;
      (forall r :: 0 <= r < row ==> b[r][col] != EmptyCell) &&
      (forall r :: row <= r < Rows ==> b[r][col] == EmptyCell)
  {
  }

  /** A column is playable exactly when it still has an open row: a free top
      cell always leaves one, and under gravity an open row frees the top cell. */
  lemma ValidLocationIffOpenRow(b: Grid, col: int)
    requires WellShaped(b) && 0 <= col < Cols
    ensures IsValidLocation(b, col) ==> NextOpenRow(b, col).Some?
    ensures Gravity(b) && NextOpenRow(b, col).Some? ==> IsValidLocation(b, col)
  {
    if Gravity(b) && NextOpenRow(b, col).Some? {
      assert b[NextOpenRow(b, col).value][col] == EmptyCell;
    }
  }

  /** Dropping a chip into the next open row keeps gravity. */
  lemma DropKeepsGravity(b: Grid, col: int, chip: int)
    requires WellShaped(b) && Gravity(b) && 0 <= col < Cols && NextOpenRow(b, col).Some?
    ensures Gravity(Drop(b, NextOpenRow(b, col).value, col, chip))
  {
  }

  /** Cells 0 .. n - 1 of row r of the array. */
  function RowCells(a: array2<int>, r: int, n: int): (row: seq<int>)
    requires 0 <= r < a.Length0 && 0 <= n <= a.Length1
    reads a
    ensures |row| == n
  {
    if n == 0 then [] else RowCells(a, r, n - 1) + [a[r, n - 1]]
  }

  lemma {:induction false} RowCellsAt(a: array2<int>, r: int, n: int)
    requires 0 <= r < a.Length0 && 0 <= n <= a.Length1
    ensures forall c :: 0 <= c < n ==> RowCells(a, r, n)[c] == a[r, c]
  {
    if n > 0 {
      RowCellsAt(a, r, n - 1);
    }
  }

  /** Rows 0 .. n - 1 of the array. */
  function RowsCells(a: array2<int>, n: int): (g: Grid)
    requires 0 <= n <= a.Length0
    reads a
    ensures |g| == n
    ensures forall r :: 0 <= r < n ==> |g[r]| == a.Length1
  {
    if n == 0 then [] else RowsCells(a, n - 1) + [RowCells(a, n - 1, a.Length1)]
  }

  lemma {:induction false} RowsCellsAt(a: array2<int>, n: int)
    requires 0 <= n <= a.Length0
    ensures forall r :: 0 <= r < n ==> RowsCells(a, n)[r] == RowCells(a, r, a.Length1)
  {
    if n > 0 {
      RowsCellsAt(a, n - 1);
    }
  }

  /** The board state object's grid as a value: Cells(a)[r][c] is a[r, c]. */
  function Cells(a: array2<int>): (g: Grid)
    reads a
    ensures |g| == a.Length0
    ensures a.Length0 == Rows && a.Length1 == Cols ==> WellShaped(g)
  {
    RowsCells(a, a.Length0)
  }

  lemma CellsAt(a: array2<int>)
    ensures forall r, c :: 0 <= r < a.Length0 && 0 <= c < a.Length1 ==> Cells(a)[r][c] == a[r, c]
  {
    RowsCellsAt(a, a.Length0);
    forall r | 0 <= r < a.Length0
      ensures forall c :: 0 <= c < a.Length1 ==> Cells(a)[r][c] == a[r, c]
    {
      RowCellsAt(a, r, a.Length1);
    }
  }

  /** drop_chip on the game's board, in place. */
  method DropChip(board: array2<int>, row: int, col: int, chip: int)
    requires board.Length0 == Rows && board.Length1 == Cols
    requires 0 <= row < Rows && 0 <= col < Cols
    modifies board
    ensures Cells(board) == Drop(old(Cells(board)), row, col, chip)
  {
    ghost var before := Cells(board);
    CellsAt(board);
    board[row, col] := chip;
    ghost var after := Cells(board);
    CellsAt(board);
    ghost var expected := Drop(before, row, col, chip);
    assert forall r :: 0 <= r < Rows ==> after[r] == expected[r];
  }
}
