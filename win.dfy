/** Win detection, game_is_won (connect4.py:59-79): a chip has won when four
    of its cells lie consecutively in a row, a column, a rising diagonal or a
    falling diagonal. The source joins the cells of each line into a string
    of digits and looks for the string of four chips in it; cells are single
    digits, so that is containment of a window of four cells in the line. */
module WinDetection {
  import opened Board

  /** The four-chip sequence game_is_won looks for. */
  function WinningSequence(chip: int): seq<int>
  {
    [chip, chip, chip, chip]
  }

  /** The Size consecutive cells of the line starting at j. */
  function Window(line: seq<int>, j: int): seq<int>
    requires 0 <= j <= |line| - Size
  {
    line[j..j + Size]
  }

  /** Some window of the line is the winning sequence. */
  predicate ContainsRun(line: seq<int>, chip: int)
  {
    exists j :: 0 <= j <= |line| - Size && Window(line, j) == WinningSequence(chip)
  }

  /** board[:, c]: column c, bottom to top. */
  function ColumnLine(b: Grid, c: int): seq<int>
    requires WellShaped(b) && 0 <= c < Cols
  {
    seq(Rows, r requires 0 <= r < Rows => b[r][c])
  }

  /** The length of board.diagonal(offset) on a 6x7 grid. */
  function DiagonalLength(offset: int): nat
  {
    var n := if offset >= 0 then Min(Rows, Cols - offset) else Min(Rows + offset, Cols);
    if n < 0 then 0 else n
  }

  /** board.diagonal(offset): the cells (i, i + offset) for offset >= 0 and
      (i - offset, i) for offset < 0, for ascending i. */
  function Diagonal(b: Grid, offset: int): seq<int>
    requires WellShaped(b)
  {
    seq(DiagonalLength(offset), i requires 0 <= i < DiagonalLength(offset) =>
      if offset >= 0 then b[i][i + offset] else b[i - offset][i])
  }

  /** np.flip(board, 1): each row reversed. */
  function FlipColumns(b: Grid): (f: Grid)
    requires WellShaped(b)
    ensures WellShaped(f)
    ensures forall r, c :: 0 <= r < Rows && 0 <= c < Cols ==> f[r][c] == b[r][Cols - 1 - c]
  {
    seq(Rows, r requires 0 <= r < Rows => seq(Cols, c requires 0 <= c < Cols => b[r][Cols - 1 - c]))
  }

  /** game_is_won: rows, then columns, then diagonal offsets -2..3 of the board,
      then diagonal offsets -2..3 of the column-flipped board. */
  predicate GameIsWon(b: Grid, chip: int)
    requires WellShaped(b)
  {
    || (exists r :: 0 <= r < Rows && ContainsRun(b[r], chip))
    || (exists c :: 0 <= c < Cols && ContainsRun(ColumnLine(b, c), chip))
    || (exists offset :: -2 <= offset < 4 && ContainsRun(Diagonal(b, offset), chip))
    || (exists offset :: -2 <= offset < 4 && ContainsRun(Diagonal(FlipColumns(b), offset), chip))
  }

  /** game_is_won, loop for loop: return at the first line that holds a run;
      Python's implicit None after the last loop is false here. */
  method CheckGameWon(b: Grid, chip: int) returns (won: bool)
    requires WellShaped(b)
    ensures won == GameIsWon(b, chip)
    ensures won <==> FourInARow(b, chip)
  {
    GameIsWonExact(b, chip);
    for r := 0 to Rows
      invariant forall r' :: 0 <= r' < r ==> !ContainsRun(b[r'], chip)
    {
      if ContainsRun(b[r], chip) {
        return true;
      }
    }
    for c := 0 to Cols
      invariant forall c' :: 0 <= c' < c ==> !ContainsRun(ColumnLine(b, c'), chip)
    {
      if ContainsRun(ColumnLine(b, c), chip) {
        return true;
      }
    }
    for offset := -2 to 4
      invariant forall o :: -2 <= o < offset ==> !ContainsRun(Diagonal(b, o), chip)
    {
      if ContainsRun(Diagonal(b, offset), chip) {
        return true;
      }
    }
    var flipped := FlipColumns(b);
    for offset := -2 to 4
      invariant forall o :: -2 <= o < offset ==> !ContainsRun(Diagonal(flipped, o), chip)
    {
      if ContainsRun(Diagonal(flipped, offset), chip) {
        return true;
      }
    }
    return false;
  }

  // An independent, geometric definition of four in a row.

  datatype Direction = Horizontal | Vertical | Rising | Falling

  /** The four cells from (r, c) in direction d are on the board and all equal chip. */
  predicate RunAt(b: Grid, chip: int, r: int, c: int, d: Direction)
    requires WellShaped(b)
  {
    match d
    case Horizontal =>
      0 <= r < Rows && 0 <= c && c + 3 < Cols &&
      b[r][c] == chip && b[r][c + 1] == chip && b[r][c + 2] == chip && b[r][c + 3] == chip
    case Vertical =>
      0 <= r && r + 3 < Rows && 0 <= c < Cols &&
      b[r][c] == chip && b[r + 1][c] == chip && b[r + 2][c] == chip && b[r + 3][c] == chip
    case Rising =>
      0 <= r && r + 3 < Rows && 0 <= c && c + 3 < Cols &&
      b[r][c] == chip && b[r + 1][c + 1] == chip && b[r + 2][c + 2] == chip && b[r + 3][c + 3] == chip
    case Falling =>
      0 <= r && r + 3 < Rows && 3 <= c < Cols &&
      b[r][c] == chip && b[r + 1][c - 1] == chip && b[r + 2][c - 2] == chip && b[r + 3][c - 3] == chip
  }

  ghost predicate FourInARow(b: Grid, chip: int)
    requires WellShaped(b)
  {
    exists r, c, d :: RunAt(b, chip, r, c, d)
  }

  ghost predicate FourInDirection(b: Grid, chip: int, d: Direction)
    requires WellShaped(b)
  {
    exists r, c :: RunAt(b, chip, r, c, d)
  }

  /** A window of the line is the winning sequence iff its four cells equal chip. */
  lemma WindowIsRun(line: seq<int>, chip: int, j: int)
    requires 0 <= j <= |line| - Size
    ensures Window(line, j) == WinningSequence(chip) <==>
      line[j] == chip && line[j + 1] == chip && line[j + 2] == chip && line[j + 3] == chip
  {
    var w := Window(line, j);
    assert w[0] == line[j] && w[1] == line[j + 1] && w[2] == line[j + 2] && w[3] == line[j + 3];
  }

  /** The scanned offsets -2..3 are exactly the diagonals with room for four cells. */
  lemma ScannedOffsetsAreLongDiagonals(offset: int)
    ensures DiagonalLength(offset) >= Size <==> -2 <= offset < 4
  {
  }

  lemma RowScanExact(b: Grid, chip: int)
    requires WellShaped(b)
    ensures (exists r :: 0 <= r < Rows && ContainsRun(b[r], chip)) <==> FourInDirection(b, chip, Horizontal)
  {
    if r :| 0 <= r < Rows && ContainsRun(b[r], chip) {
      var j :| 0 <= j <= |b[r]| - Size && Window(b[r], j) == WinningSequence(chip);
      WindowIsRun(b[r], chip, j);
      assert RunAt(b, chip, r, j, Horizontal);
    }
    if r, c :| RunAt(b, chip, r, c, Horizontal) {
      WindowIsRun(b[r], chip, c);
      assert ContainsRun(b[r], chip);
    }
  }

  lemma ColumnScanExact(b: Grid, chip: int)
    requires WellShaped(b)
    ensures (exists c :: 0 <= c < Cols && ContainsRun(ColumnLine(b, c), chip)) <==> FourInDirection(b, chip, Vertical)
  {
    if c :| 0 <= c < Cols && ContainsRun(ColumnLine(b, c), chip) {
      var line := ColumnLine(b, c);
      var j :| 0 <= j <= |line| - Size && Window(line, j) == WinningSequence(chip);
      WindowIsRun(line, chip, j);
      assert RunAt(b, chip, j, c, Vertical);
    }
    if r, c :| RunAt(b, chip, r, c, Vertical) {
      WindowIsRun(ColumnLine(b, c), chip, r);
      assert ContainsRun(ColumnLine(b, c), chip);
    }
  }

  /** A run in the diagonal with offset o, starting at its cell j, is a rising
      run from (j, j + o) for o >= 0 and from (j - o, j) for o < 0. */
  lemma DiagonalRunIsRising(b: Grid, chip: int, offset: int)
    requires WellShaped(b) && -2 <= offset < 4 && ContainsRun(Diagonal(b, offset), chip)
    ensures FourInDirection(b, chip, Rising)
  {
    var line := Diagonal(b, offset);
    var j :| 0 <= j <= |line| - Size && Window(line, j) == WinningSequence(chip);
    WindowIsRun(line, chip, j);
    if offset >= 0 {
      UpperDiagonalRun(b, chip, offset, j);
    } else {
      LowerDiagonalRun(b, chip, offset, j);
    }
  }

  lemma UpperDiagonalRun(b: Grid, chip: int, offset: int, j: int)
    requires WellShaped(b) && 0 <= offset < 4 && 0 <= j && j + 3 < DiagonalLength(offset)
    requires var line := Diagonal(b, offset);
      line[j] == chip && line[j + 1] == chip && line[j + 2] == chip && line[j + 3] == chip
    ensures RunAt(b, chip, j, j + offset, Rising)
  {
  }

  lemma LowerDiagonalRun(b: Grid, chip: int, offset: int, j: int)
    requires WellShaped(b) && -2 <= offset < 0 && 0 <= j && j + 3 < DiagonalLength(offset)
    requires var line := Diagonal(b, offset);
      line[j] == chip && line[j + 1] == chip && line[j + 2] == chip && line[j + 3] == chip
    ensures RunAt(b, chip, j - offset, j, Rising)
  {
  }

  /** A rising run starting at (r, c) lies on the diagonal with offset c - r. */
  lemma RisingRunOnDiagonal(b: Grid, chip: int, r: int, c: int)
    requires WellShaped(b) && RunAt(b, chip, r, c, Rising)
    ensures -2 <= c - r < 4 && ContainsRun(Diagonal(b, c - r), chip)
  {
    var offset := c - r;
    var line := Diagonal(b, offset);
    var j := if offset >= 0 then r else c;
    WindowIsRun(line, chip, j);
  }

  /** Scanning diagonal offsets -2..3 finds exactly the rising runs. */
  lemma DiagonalScanExact(b: Grid, chip: int)
    requires WellShaped(b)
    ensures (exists offset :: -2 <= offset < 4 && ContainsRun(Diagonal(b, offset), chip)) <==> FourInDirection(b, chip, Rising)
  {
    if offset :| -2 <= offset < 4 && ContainsRun(Diagonal(b, offset), chip) {
      DiagonalRunIsRising(b, chip, offset);
    }
    if r, c :| RunAt(b, chip, r, c, Rising) {
      RisingRunOnDiagonal(b, chip, r, c);
    }
  }

  /** A falling run of the board is a rising run of the column-flipped board. */
  lemma FlipTurnsFallingIntoRising(b: Grid, chip: int)
    requires WellShaped(b)
    ensures FourInDirection(FlipColumns(b), chip, Rising) <==> FourInDirection(b, chip, Falling)
  {
    var f := FlipColumns(b);
    if r, c :| RunAt(f, chip, r, c, Rising) {
      assert RunAt(b, chip, r, Cols - 1 - c, Falling);
    }
    if r, c :| RunAt(b, chip, r, c, Falling) {
      assert RunAt(f, chip, r, Cols - 1 - c, Rising);
    }
  }

  /** Win detection is exact: game_is_won holds iff the chip has four in a row
      horizontally, vertically or along either diagonal. */
  lemma GameIsWonExact(b: Grid, chip: int)
    requires WellShaped(b)
    ensures GameIsWon(b, chip) <==> FourInARow(b, chip)
  {
    RowScanExact(b, chip);
    ColumnScanExact(b, chip);
    DiagonalScanExact(b, chip);
    DiagonalScanExact(FlipColumns(b), chip);
    FlipTurnsFallingIntoRising(b, chip);
    if FourInARow(b, chip) {
      var r, c, d :| RunAt(b, chip, r, c, d);
      assert FourInDirection(b, chip, d);
    }
  }

  /** Whether chip has won depends only on which cells hold chip: the other
      chip and empty cells are interchangeable. */
  lemma WinDependsOnlyOnChipCells(b1: Grid, b2: Grid, chip: int)
    requires WellShaped(b1) && WellShaped(b2)
    requires forall r, c :: 0 <= r < Rows && 0 <= c < Cols ==> (b1[r][c] == chip <==> b2[r][c] == chip)
    ensures GameIsWon(b1, chip) <==> GameIsWon(b2, chip)
  {
    GameIsWonExact(b1, chip);
    GameIsWonExact(b2, chip);
    if r, c, d :| RunAt(b1, chip, r, c, d) {
      assert RunAt(b2, chip, r, c, d);
    }
    if r, c, d :| RunAt(b2, chip, r, c, d) {
      assert RunAt(b1, chip, r, c, d);
    }
  }
}
