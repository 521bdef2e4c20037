/** Worked examples of win detection on boards built by dropping chips into
    a fresh board: a new board is won by nobody, and a row or a column of the
    same chip wins exactly from its fourth chip on. */
module WinExamples {
  import opened Board
  import opened WinDetection

  /** A fresh board with Red dropped into each of the columns 0 .. n - 1. */
  function RedRow(n: nat): (b: Grid)
    requires n <= Cols
    ensures WellShaped(b)
    ensures forall r, c :: 0 <= r < Rows && 0 <= c < Cols ==>
      b[r][c] == (if r == 0 && c < n then Red else EmptyCell)
  {
    if n == 0 then CreateBoard() else Drop(RedRow(n - 1), 0, n - 1, Red)
  }

  /** A fresh board with Red dropped n times into column col. */
  function RedStack(col: int, n: nat): (b: Grid)
    requires 0 <= col < Cols && n <= Rows
    ensures WellShaped(b)
    ensures forall r, c :: 0 <= r < Rows && 0 <= c < Cols ==>
      b[r][c] == (if c == col && r < n then Red else EmptyCell)
  {
    if n == 0 then CreateBoard() else Drop(RedStack(col, n - 1), n - 1, col, Red)
  }

  /** Each chip of RedRow lands where drop_chip puts it: in its column's next open row. */
  lemma RedRowFollowsGravity(n: nat)
    requires 0 < n <= Cols
    ensures NextOpenRow(RedRow(n - 1), n - 1) == Some(0)
  {
  }

  /** Each chip of RedStack lands on the one below it. */
  lemma RedStackFollowsGravity(col: int, n: nat)
    requires 0 <= col < Cols && 0 < n <= Rows
    ensures NextOpenRow(RedStack(col, n - 1), col) == Some(n - 1)
  {
    var b := RedStack(col, n - 1);
    assert forall r :: 0 <= r < n - 1 ==> b[r][col] != EmptyCell;
    assert b[n - 1][col] == EmptyCell;
  }

  /** Nobody has won a fresh board. */
  lemma EmptyBoardNotWon(chip: int)
    requires chip != EmptyCell
    ensures !GameIsWon(CreateBoard(), chip)
  {
    var b := CreateBoard();
    GameIsWonExact(b, chip);
    forall r, c, d
      ensures !RunAt(b, chip, r, c, d)
    {
      if 0 <= r < Rows && 0 <= c < Cols {
        assert b[r][c] == EmptyCell;
      }
    }
  }

  /** n Red chips side by side on the bottom row win for Red exactly when n >= 4. */
  lemma RedRowWinsFromFour(n: nat)
    requires n <= Cols
    ensures GameIsWon(RedRow(n), Red) <==> n >= Size
  {
    var b := RedRow(n);
    GameIsWonExact(b, Red);
    if n >= Size {
      assert RunAt(b, Red, 0, 0, Horizontal);
    } else {
      forall r, c, d
        ensures !RunAt(b, Red, r, c, d)
      {
        NoRunInShortRow(n, r, c, d);
      }
    }
  }

  lemma NoRunInShortRow(n: nat, r: int, c: int, d: Direction)
    requires n < Size
    ensures !RunAt(RedRow(n), Red, r, c, d)
  {
    var b := RedRow(n);
    match d
    case Horizontal =>
      if 0 <= r < Rows && 0 <= c && c + 3 < Cols {
        assert b[r][c + 3] != Red;
      }
    case Vertical =>
      if 0 <= r && r + 3 < Rows && 0 <= c < Cols {
        assert b[r + 1][c] != Red;
      }
    case Rising =>
      if 0 <= r && r + 3 < Rows && 0 <= c && c + 3 < Cols {
        assert b[r + 1][c + 1] != Red;
      }
    case Falling =>
      if 0 <= r && r + 3 < Rows && 3 <= c < Cols {
        assert b[r + 1][c - 1] != Red;
      }
  }

  /** n Red chips stacked in one column win for Red exactly when n >= 4. */
  lemma RedStackWinsFromFour(col: int, n: nat)
    requires 0 <= col < Cols && n <= Rows
    ensures GameIsWon(RedStack(col, n), Red) <==> n >= Size
  {
    var b := RedStack(col, n);
    GameIsWonExact(b, Red);
    if n >= Size {
      assert RunAt(b, Red, 0, col, Vertical);
    } else {
      forall r, c, d
        ensures !RunAt(b, Red, r, c, d)
      {
        NoRunInShortStack(col, n, r, c, d);
      }
    }
  }

  lemma NoRunInShortStack(col: int, n: nat, r: int, c: int, d: Direction)
    requires 0 <= col < Cols && n < Size
    ensures !RunAt(RedStack(col, n), Red, r, c, d)
  {
    var b := RedStack(col, n);
    match d
    case Horizontal =>
      if 0 <= r < Rows && 0 <= c && c + 3 < Cols {
        assert b[r][c] != Red || b[r][c + 1] != Red;
      }
    case Vertical =>
      if 0 <= r && r + 3 < Rows && 0 <= c < Cols {
        assert b[r + 3][c] != Red;
      }
    case Rising =>
      if 0 <= r && r + 3 < Rows && 0 <= c && c + 3 < Cols {
        assert b[r][c] != Red || b[r + 1][c + 1] != Red;
      }
    case Falling =>
      if 0 <= r && r + 3 < Rows && 3 <= c < Cols {
        assert b[r][c] != Red || b[r + 1][c - 1] != Red;
      }
  }

  /** Red at row 0 of columns 0 .. 3 wins; with any one of those four cells
      turned Blue it does not. */
  lemma OneBlueBreaksTheRow(k: int)
    requires 0 <= k < Size
    ensures GameIsWon(RedRow(Size), Red)
    ensures !GameIsWon(Drop(RedRow(Size), 0, k, Blue), Red)
  {
    RedRowWinsFromFour(Size);
    var b := Drop(RedRow(Size), 0, k, Blue);
    GameIsWonExact(b, Red);
    forall r, c, d
      ensures !RunAt(b, Red, r, c, d)
    {
      NoRunAcrossBlue(k, r, c, d);
    }
  }

  lemma NoRunAcrossBlue(k: int, r: int, c: int, d: Direction)
    requires 0 <= k < Size
    ensures !RunAt(Drop(RedRow(Size), 0, k, Blue), Red, r, c, d)
  {
    var b := Drop(RedRow(Size), 0, k, Blue);
    match d
    case Horizontal =>
      if 0 <= r < Rows && 0 <= c && c + 3 < Cols {
        if r != 0 {
          assert b[r][c] != Red;
        } else if c != 0 {
          assert b[r][c + 3] != Red;
        } else {
          assert b[r][k] == Blue;
        }
      }
    case Vertical =>
      if 0 <= r && r + 3 < Rows && 0 <= c < Cols {
        assert b[r + 1][c] != Red;
      }
    case Rising =>
      if 0 <= r && r + 3 < Rows && 0 <= c && c + 3 < Cols {
        assert b[r + 1][c + 1] != Red;
      }
    case Falling =>
      if 0 <= r && r + 3 < Rows && 3 <= c < Cols {
        assert b[r + 1][c - 1] != Red;
      }
  }

  /** A Red row does not count as a win for Blue. */
  lemma RedRowNotBlueWin(n: nat)
    requires n <= Cols
    ensures !GameIsWon(RedRow(n), Blue)
  {
    WinDependsOnlyOnChipCells(RedRow(n), CreateBoard(), Blue);
    EmptyBoardNotWon(Blue);
  }
}
