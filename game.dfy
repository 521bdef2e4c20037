/** The game state s = [board, heuristic value, current player, empty cell
    count] (connect4.py:204-208) and the computer's move, makeAlphaBetaMove
    (connect4.py:186-195), which updates that state in place. */
module Game {
  import opened Board
  import opened WinDetection
  import opened Evaluation
  import opened Search

  /** The number of empty cells of a row. */
  function EmptyInRow(row: seq<int>): nat
  {
    if |row| == 0 then 0
    else EmptyInRow(row[..|row| - 1]) + (if row[|row| - 1] == EmptyCell then 1 else 0)
  }

  /** The number of empty cells of a board. */
  function CountEmpty(b: Grid): nat
  {
    if |b| == 0 then 0 else CountEmpty(b[..|b| - 1]) + EmptyInRow(b[|b| - 1])
  }

  /** Filling one empty cell of a row with a chip leaves one empty cell fewer. */
  lemma {:induction false} FillRowCell(row: seq<int>, c: int, chip: int)
    requires 0 <= c < |row| && row[c] == EmptyCell && chip != EmptyCell
    ensures EmptyInRow(row[c := chip]) + 1 == EmptyInRow(row)
  {
    var row' := row[c := chip];
    var n := |row|;
    if c < n - 1 {
      FillRowCell(row[..n - 1], c, chip);
      assert row'[..n - 1] == row[..n - 1][c := chip];
    } else {
      assert row'[..n - 1] == row[..n - 1];
    }
  }

  /** Replacing row r by a row with one empty cell fewer leaves one empty cell fewer. */
  lemma {:induction false} ReplaceRow(b: Grid, r: int, row': seq<int>)
    requires 0 <= r < |b| && EmptyInRow(row') + 1 == EmptyInRow(b[r])
    ensures CountEmpty(b[r := row']) + 1 == CountEmpty(b)
  {
    var b' := b[r := row'];
    var n := |b|;
    if r < n - 1 {
      ReplaceRow(b[..n - 1], r, row');
      assert b'[..n - 1] == b[..n - 1][r := row'];
    } else {
      assert b'[..n - 1] == b[..n - 1];
    }
  }

  /** Dropping a chip into an empty cell leaves one empty cell fewer. */
  lemma DropCountsDown(b: Grid, row: int, col: int, chip: int)
    requires WellShaped(b) && 0 <= row < Rows && 0 <= col < Cols
    requires b[row][col] == EmptyCell && chip != EmptyCell
    ensures CountEmpty(Drop(b, row, col, chip)) + 1 == CountEmpty(b)
  {
    FillRowCell(b[row], col, chip);
    ReplaceRow(b, row, b[row][col := chip]);
  }

  lemma {:induction false} EmptyRowCount(row: seq<int>)
    requires forall c :: 0 <= c < |row| ==> row[c] == EmptyCell
    ensures EmptyInRow(row) == |row|
  {
    if |row| > 0 {
      EmptyRowCount(row[..|row| - 1]);
    }
  }

  lemma {:induction false} EmptyBoardCount(b: Grid)
    requires forall r :: 0 <= r < |b| ==> |b[r]| == Cols && forall c :: 0 <= c < Cols ==> b[r][c] == EmptyCell
    ensures CountEmpty(b) == |b| * Cols
  {
    if |b| > 0 {
      EmptyBoardCount(b[..|b| - 1]);
      EmptyRowCount(b[|b| - 1]);
    }
  }

  /** A fresh board has ROW_COUNT * COLUMN_COUNT empty cells. */
  lemma CreateBoardCount()
    ensures CountEmpty(CreateBoard()) == Rows * Cols
  {
    EmptyBoardCount(CreateBoard());
  }

  /** What dropping chip into playable column col of a valid board does to
      the facts the game state keeps. */
  lemma CommitFacts(b: Grid, col: int, chip: int)
    requires ValidBoard(b) && 0 <= col < Cols && IsValidLocation(b, col)
    ensures NextOpenRow(b, col).Some?
    ensures var b' := Drop(b, NextOpenRow(b, col).value, col, chip);
      && (IsChip(chip) ==> ValidBoard(b'))
      && (Gravity(b) ==> Gravity(b'))
      && (chip != EmptyCell ==> CountEmpty(b') + 1 == CountEmpty(b))
  {
    var row := NextOpenRow(b, col).value;
    var b' := Drop(b, row, col, chip);
    if Gravity(b) {
      DropKeepsGravity(b, col, chip);
    }
    if chip != EmptyCell {
      DropCountsDown(b, row, col, chip);
    }
  }

  /** The list s of the game loop. */
  class State {
    var board: array2<int>
    var score: int
    var player: int
    var emptyCount: int

    ghost predicate Valid()
      reads this
    {
      board.Length0 == Rows && board.Length1 == Cols
    }

    /** The empty cell counter agrees with the board. */
    ghost predicate Consistent()
      reads this, board
    {
      Valid() && emptyCount == CountEmpty(Cells(board))
    }

    /** s = [create_board(), 0, COMPUTER, ROW_COUNT * COLUMN_COUNT]. */
    constructor ()
      ensures Valid() && fresh(board)
      ensures Cells(board) == CreateBoard()
      ensures score == 0 && player == Computer && emptyCount == Rows * Cols
      ensures Consistent()
    {
      board := new int[Rows, Cols]((_, _) => EmptyCell);
      score := 0;
      player := Computer;
      emptyCount := Rows * Cols;
      new;
      CellsAt(board);
      assert forall r :: 0 <= r < Rows ==> Cells(board)[r] == CreateBoard()[r];
      CreateBoardCount();
    }

    /** The commit half of makeAlphaBetaMove for a column the search chose:
        drop playerChip into the column's next open row, count the cell off,
        pass the turn and re-score the board. */
    method PlayColumn(col: int, playerChip: int)
      requires Valid() && ValidBoard(Cells(board)) && 0 <= col < Cols && IsValidLocation(Cells(board), col)
      modifies this, board
      ensures Valid() && board == old(board)
      ensures var b0 := old(Cells(board));
        && NextOpenRow(b0, col).Some?
        && Cells(board) == Drop(b0, NextOpenRow(b0, col).value, col, playerChip)
      ensures emptyCount == old(emptyCount) - 1
      ensures player == (if playerChip == Computer then Human else Computer)
      ensures var h := Heuristic(Cells(board));
        score == (if emptyCount == 0 && h != Loss && h != Vic then Tie else h)
      ensures IsChip(playerChip) ==> ValidBoard(Cells(board))
      ensures old(Gravity(Cells(board))) ==> Gravity(Cells(board))
      ensures old(Consistent()) && playerChip != EmptyCell ==> Consistent()
    {
      PlaceChip(col, playerChip);
      Rescore();
    }

    /** drop_chip into the column's next open row, one empty cell fewer, and
        the turn passes: the player becomes HUMAN for the chip COMPUTER and
        COMPUTER for any other chip. */
    method PlaceChip(col: int, playerChip: int)
      requires Valid() && ValidBoard(Cells(board)) && 0 <= col < Cols && IsValidLocation(Cells(board), col)
      modifies this, board
      ensures Valid() && board == old(board) && score == old(score)
      ensures var b0 := old(Cells(board));
        && NextOpenRow(b0, col).Some?
        && Cells(board) == Drop(b0, NextOpenRow(b0, col).value, col, playerChip)
      ensures emptyCount == old(emptyCount) - 1
      ensures player == (if playerChip == Computer then Human else Computer)
      ensures IsChip(playerChip) ==> ValidBoard(Cells(board))
      ensures old(Gravity(Cells(board))) ==> Gravity(Cells(board))
      ensures old(Consistent()) && playerChip != EmptyCell ==> Consistent()
    {
      ghost var b := Cells(board);
      CommitFacts(b, col, playerChip);
      var row := GetNextOpenRow(Cells(board), col);
      DropChip(board, row.value, col, playerChip);
      emptyCount := emptyCount - 1;
      player := if playerChip == Computer then Human else Computer;
    }

    /** s[1] = evaluateBoard(board), and a full board that is neither won nor
        lost is scored as a tie. */
    method Rescore()
      requires Valid() && WellShaped(Cells(board))
      modifies this
      ensures board == old(board) && emptyCount == old(emptyCount) && player == old(player)
      ensures var h := Heuristic(Cells(board));
        score == (if emptyCount == 0 && h != Loss && h != Vic then Tie else h)
    {
      EvaluateIsCenterColumn(Cells(board));
      score := EvaluateBoard(Cells(board));
      if emptyCount == 0 && score != Loss && score != Vic {
        score := Tie;
      }
    }

    /** makeAlphaBetaMove: search from the board as the maximizer with the
        full window and, unless the root is a leaf, play the column found. */
    method MakeAlphaBetaMove(playerChip: int, depth: nat)
      requires Valid() && ValidBoard(Cells(board))
      modifies this, board
      ensures Valid() && board == old(board)
      ensures RootColumn(old(Cells(board)), depth).None? ==>
        Cells(board) == old(Cells(board)) && score == old(score) &&
        player == old(player) && emptyCount == old(emptyCount)
      ensures RootColumn(old(Cells(board)), depth).Some? ==>
        var b0 := old(Cells(board));
        var col := RootColumn(b0, depth).value;
        && NextOpenRow(b0, col).Some?
        && Cells(board) == Drop(b0, NextOpenRow(b0, col).value, col, playerChip)
        && emptyCount == old(emptyCount) - 1
        && player == (if playerChip == Computer then Human else Computer)
        && var h := Heuristic(Cells(board));
           score == (if emptyCount == 0 && h != Loss && h != Vic then Tie else h)
      ensures RootColumn(old(Cells(board)), depth).Some? && playerChip == Red ==> player == Computer
      ensures IsChip(playerChip) ==> ValidBoard(Cells(board))
      ensures old(Gravity(Cells(board))) ==> Gravity(Cells(board))
      ensures old(Consistent()) && playerChip != EmptyCell ==> Consistent()
    {
      var col, minimaxScore := SearchFromRoot(Cells(board), depth);
      if col.Some? {
        PlayColumn(col.value, playerChip);
      }
    }
  }
}
