/** The static evaluator, evaluateBoard (connect4.py:98-134). It scans every
    cell and four direction vectors for windows of Size cells, scores each
    window that fits, and adds three times the centre column. The direction
    vectors are already scaled by Size - 1 and are scaled again by the cell
    index k, so the stride along a window is 3, and the codes it looks for
    (Computer = 5, Human = 1) are not the chips the game places (Red = 1,
    Blue = 2). The evaluator is defined here for any rectangular board, as the
    source reads the shape from the board; EvaluateIsCenterColumn shows what
    that comes to on the 6x7 board. */
module Evaluation {
  import opened Board

  const DeltaRow: seq<int> := [-Size + 1, -Size + 1, 0, Size - 1]
  const DeltaCol: seq<int> := [0, Size - 1, Size - 1, Size - 1]
  const BlockPenalty := 1_000_000_000_000_000   // 10^15

  /** board.shape[1]; a board with no rows has width 0 here. */
  function Width(b: Grid): nat
  {
    if |b| == 0 then 0 else |b[0]|
  }

  predicate Rectangular(b: Grid)
  {
    forall r :: 0 <= r < |b| ==> |b[r]| == Width(b)
  }

  predicate InBoard(b: Grid, r: int, c: int)
  {
    0 <= r < |b| && 0 <= c < Width(b)
  }

  /** The row and column of cell k of the window at (row, col) in direction i. */
  function WindowRow(row: int, i: int, k: int): int
    requires 0 <= i < |DeltaRow|
  {
    row + k * DeltaRow[i]
  }

  function WindowCol(col: int, i: int, k: int): int
    requires 0 <= i < |DeltaCol|
  {
    col + k * DeltaCol[i]
  }

  /** Cells 0 .. k - 1 of the window lie on the board. */
  predicate CellsFit(b: Grid, row: int, col: int, i: int, k: int)
    requires 0 <= i < |DeltaRow|
  {
    forall j :: 0 <= j < k ==> InBoard(b, WindowRow(row, i, j), WindowCol(col, i, j))
  }

  /** A window the scan scores: its far corner (row + dr, col + dc) passes the
      first bounds test and all Size of its cells are on the board. */
  predicate WindowScored(b: Grid, row: int, col: int, i: int)
    requires 0 <= i < |DeltaRow|
  {
    InBoard(b, row + DeltaRow[i], col + DeltaCol[i]) && CellsFit(b, row, col, i, Size)
  }

  /** The sum of cells 0 .. k - 1 of the window. */
  function PartialSum(b: Grid, row: int, col: int, i: int, k: nat): int
    requires Rectangular(b) && 0 <= i < |DeltaRow| && CellsFit(b, row, col, i, k)
  {
    if k == 0 then 0
    else PartialSum(b, row, col, i, k - 1) + b[WindowRow(row, i, k - 1)][WindowCol(col, i, k - 1)]
  }

  /** A scored window whose cells sum to Computer * Size: the scan returns Vic. */
  predicate VicWindow(b: Grid, row: int, col: int, i: int)
    requires Rectangular(b) && 0 <= i < |DeltaRow|
  {
    WindowScored(b, row, col, i) && PartialSum(b, row, col, i, Size) == Computer * Size
  }

  /** What a window adds to the running value: its sum, less the penalty when
      the sum is Human * Size; nothing when it is not scored. */
  function Contribution(b: Grid, row: int, col: int, i: int): int
    requires Rectangular(b) && 0 <= i < |DeltaRow|
  {
    if !WindowScored(b, row, col, i) then 0
    else
      var sum := PartialSum(b, row, col, i, Size);
      if sum == Human * Size then sum - BlockPenalty else sum
  }

  /** Contributions of the first n directions at (row, col). */
  function DirectionsTotal(b: Grid, row: int, col: int, n: int): int
    requires Rectangular(b) && 0 <= n <= |DeltaRow|
  {
    if n == 0 then 0 else DirectionsTotal(b, row, col, n - 1) + Contribution(b, row, col, n - 1)
  }

  /** Contributions of the first n cells of the row. */
  function RowTotal(b: Grid, row: int, n: nat): int
    requires Rectangular(b)
  {
    if n == 0 then 0 else RowTotal(b, row, n - 1) + DirectionsTotal(b, row, n - 1, |DeltaRow|)
  }

  /** Contributions of the first n rows. */
  function BoardTotal(b: Grid, n: nat): int
    requires Rectangular(b)
  {
    if n == 0 then 0 else BoardTotal(b, n - 1) + RowTotal(b, n - 1, Width(b))
  }

  ghost predicate HasVicWindow(b: Grid)
    requires Rectangular(b)
  {
    exists row, col, i :: 0 <= row < |b| && 0 <= col < Width(b) && 0 <= i < |DeltaRow| && VicWindow(b, row, col, i)
  }

  // Whether the scan has met a window summing to Computer * Size among the
  // first n directions of a cell, the first n cells of a row, the first n rows.

  predicate VicInDirections(b: Grid, row: int, col: int, n: int)
    requires Rectangular(b) && 0 <= n <= |DeltaRow|
  {
    n > 0 && (VicInDirections(b, row, col, n - 1) || VicWindow(b, row, col, n - 1))
  }

  predicate VicInRow(b: Grid, row: int, n: nat)
    requires Rectangular(b)
  {
    n > 0 && (VicInRow(b, row, n - 1) || VicInDirections(b, row, n - 1, |DeltaRow|))
  }

  predicate VicInRows(b: Grid, n: nat)
    requires Rectangular(b)
  {
    n > 0 && (VicInRows(b, n - 1) || VicInRow(b, n - 1, Width(b)))
  }

  lemma {:induction false} NoVicInDirections(b: Grid, row: int, col: int, n: int)
    requires Rectangular(b) && 0 <= n <= |DeltaRow| && !VicInDirections(b, row, col, n)
    ensures forall i :: 0 <= i < n ==> !VicWindow(b, row, col, i)
  {
    if n > 0 {
      NoVicInDirections(b, row, col, n - 1);
    }
  }

  lemma {:induction false} NoVicInRow(b: Grid, row: int, n: nat)
    requires Rectangular(b) && !VicInRow(b, row, n)
    ensures forall c, i :: 0 <= c < n && 0 <= i < |DeltaRow| ==> !VicWindow(b, row, c, i)
  {
    if n > 0 {
      NoVicInRow(b, row, n - 1);
      NoVicInDirections(b, row, n - 1, |DeltaRow|);
    }
  }

  /** A scan of the first n rows that meets no Vic window leaves none out. */
  lemma {:induction false} NoVicInRows(b: Grid, n: nat)
    requires Rectangular(b) && !VicInRows(b, n)
    ensures forall r, c, i :: 0 <= r < n && 0 <= c < Width(b) && 0 <= i < |DeltaRow| ==> !VicWindow(b, r, c, i)
  {
    if n > 0 {
      NoVicInRows(b, n - 1);
      NoVicInRow(b, n - 1, Width(b));
    }
  }

  /** The sum of cells 0 .. n - 1 of column col. */
  function ColumnSum(b: Grid, col: int, n: nat): int
    requires Rectangular(b) && 0 <= col < Width(b) && n <= |b|
  {
    if n == 0 then 0 else ColumnSum(b, col, n - 1) + b[n - 1][col]
  }

  /** np.sum(board * center_array) * 3 with the centre column cols // 2. */
  function CenterScore(b: Grid): int
    requires Rectangular(b)
  {
    if Width(b) == 0 then 0 else ColumnSum(b, Width(b) / 2, |b|) * 3
  }

  /** The value evaluateBoard computes. */
  ghost function Heuristic(b: Grid): int
    requires Rectangular(b)
  {
    if HasVicWindow(b) then Vic else BoardTotal(b, |b|) + CenterScore(b)
  }

  /** evaluateBoard, loop for loop. */
  method EvaluateBoard(b: Grid) returns (h: int)
    requires Rectangular(b)
    ensures h == Heuristic(b)
  {
    var dr := DeltaRow;
    var dc := DeltaCol;
    h := 0;
    var rows, cols := |b|, Width(b);
    for row := 0 to rows
      invariant h == BoardTotal(b, row)
      invariant !VicInRows(b, row)
    {
      ghost var rowStart := h;
      for col := 0 to cols
        invariant h == rowStart + RowTotal(b, row, col)
        invariant !VicInRow(b, row, col)
      {
        ghost var cellStart := h;
        for i := 0 to |dr|
          invariant h == cellStart + DirectionsTotal(b, row, col, i)
          invariant !VicInDirections(b, row, col, i)
        {
          var r2 := row + dr[i];
          var c2 := col + dc[i];
          if 0 <= r2 < rows && 0 <= c2 < cols {
            var validSequence, sum := ScanWindow(b, row, col, i);
            if validSequence {
              if sum == Computer * Size {
                assert VicWindow(b, row, col, i);
                return Vic;
              }
              if sum == Human * Size {
                h := h - BlockPenalty;
              }
              h := h + sum;
            }
          }
        }
      }
    }
    NoVicInRows(b, rows);
    var centerScore := CenterScore(b);
    h := h + centerScore;
  }

  /** The inner loop of evaluateBoard: add up the Size cells of the window at
      (row, col) in direction i, and stop at the first cell off the board. */
  method ScanWindow(b: Grid, row: int, col: int, i: int) returns (validSequence: bool, sum: int)
    requires Rectangular(b) && 0 <= i < |DeltaRow|
    requires InBoard(b, row + DeltaRow[i], col + DeltaCol[i])
    ensures validSequence <==> WindowScored(b, row, col, i)
    ensures validSequence ==> sum == PartialSum(b, row, col, i, Size)
  {
    var rows, cols := |b|, Width(b);
    sum := 0;
    validSequence := true;
    var k := 0;
    while k < Size
      invariant 0 <= k <= Size
      invariant CellsFit(b, row, col, i, k) && sum == PartialSum(b, row, col, i, k)
    {
      var nr := row + k * DeltaRow[i];
      var nc := col + k * DeltaCol[i];
      if 0 <= nr < rows && 0 <= nc < cols {
        sum := sum + b[nr][nc];
      } else {
        assert !InBoard(b, WindowRow(row, i, k), WindowCol(col, i, k));
        validSequence := false;
        break;
      }
      k := k + 1;
    }
  }

  // What the evaluator computes on the 6x7 board.

  /** On a board of at most 9 rows and 9 columns the last cell (k = 3) of
      every window is off the board: no window is ever scored. */
  lemma NoWindowScoredOnSmallBoard(b: Grid, row: int, col: int, i: int)
    requires Rectangular(b) && |b| <= 9 && Width(b) <= 9
    requires 0 <= row < |b| && 0 <= col < Width(b) && 0 <= i < |DeltaRow|
    ensures !WindowScored(b, row, col, i)
  {
    assert !InBoard(b, WindowRow(row, i, 3), WindowCol(col, i, 3));
  }

  lemma {:induction false} DirectionsTotalZero(b: Grid, row: int, col: int, n: int)
    requires Rectangular(b) && |b| <= 9 && Width(b) <= 9
    requires 0 <= row < |b| && 0 <= col < Width(b) && 0 <= n <= |DeltaRow|
    ensures DirectionsTotal(b, row, col, n) == 0
  {
    if n > 0 {
      DirectionsTotalZero(b, row, col, n - 1);
      NoWindowScoredOnSmallBoard(b, row, col, n - 1);
    }
  }

  lemma {:induction false} RowTotalZero(b: Grid, row: int, n: nat)
    requires Rectangular(b) && |b| <= 9 && Width(b) <= 9
    requires 0 <= row < |b| && n <= Width(b)
    ensures RowTotal(b, row, n) == 0
  {
    if n > 0 {
      RowTotalZero(b, row, n - 1);
      DirectionsTotalZero(b, row, n - 1, |DeltaRow|);
    }
  }

  lemma {:induction false} BoardTotalZero(b: Grid, n: nat)
    requires Rectangular(b) && |b| <= 9 && Width(b) <= 9 && n <= |b|
    ensures BoardTotal(b, n) == 0
  {
    if n > 0 {
      BoardTotalZero(b, n - 1);
      RowTotalZero(b, n - 1, Width(b));
    }
  }

  /** On the 6x7 board no window is scored, so the short-circuit to Vic and
      the penalty never happen: the value is three times the sum of column 3. */
  lemma EvaluateIsCenterColumn(b: Grid)
    requires WellShaped(b)
    ensures Rectangular(b)
    ensures Heuristic(b) == 3 * (b[0][3] + b[1][3] + b[2][3] + b[3][3] + b[4][3] + b[5][3])
  {
    assert Width(b) == Cols;
    forall row, col, i | 0 <= row < |b| && 0 <= col < Width(b) && 0 <= i < |DeltaRow|
      ensures !VicWindow(b, row, col, i)
    {
      NoWindowScoredOnSmallBoard(b, row, col, i);
    }
    BoardTotalZero(b, |b|);
    assert Width(b) / 2 == 3;
    assert ColumnSum(b, 3, 1) == b[0][3];
    assert ColumnSum(b, 3, 2) == ColumnSum(b, 3, 1) + b[1][3];
    assert ColumnSum(b, 3, 3) == ColumnSum(b, 3, 2) + b[2][3];
    assert ColumnSum(b, 3, 4) == ColumnSum(b, 3, 3) + b[3][3];
    assert ColumnSum(b, 3, 5) == ColumnSum(b, 3, 4) + b[4][3];
    assert ColumnSum(b, 3, 6) == ColumnSum(b, 3, 5) + b[5][3];
  }

  /** On a valid board the value lies in [0, 36]. */
  lemma EvaluateBounds(b: Grid)
    requires ValidBoard(b)
    ensures Rectangular(b)
    ensures 0 <= Heuristic(b) <= 3 * Rows * Blue
  {
    EvaluateIsCenterColumn(b);
    assert IsChip(b[0][3]) && IsChip(b[1][3]) && IsChip(b[2][3]);
    assert IsChip(b[3][3]) && IsChip(b[4][3]) && IsChip(b[5][3]);
  }

  /** On any 6x7 board the value is never a sentinel: 10^20 is not a multiple of 3. */
  lemma EvaluateNeverSentinel(b: Grid)
    requires WellShaped(b)
    ensures Rectangular(b)
    ensures Heuristic(b) != Vic && Heuristic(b) != Loss
  {
    EvaluateIsCenterColumn(b);
  }
}
