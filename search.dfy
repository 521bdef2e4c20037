/** The game-tree search, alpha_beta_pruning (connect4.py:137-183). The
    maximizer plays Red, the minimizer Blue. The search works on board values:
    each child is a copy of the board with one chip dropped. Python's
    -float('inf') and float('inf') are -Inf and Inf, which lie outside every
    score the search can return (all scores are in [Loss, Vic]). */
module Search {
  import opened Board
  import opened WinDetection
  import opened Evaluation

  /** float('inf'): above every score. */
  const Inf := Vic + 1

  /** The chip the player to move drops: RED_INT for the maximizer, BLUE_INT otherwise. */
  function PlayerChip(maximizing: bool): int
  {
    if maximizing then Red else Blue
  }

  /** is_terminal: either chip has won, or no column is playable. */
  predicate IsTerminal(b: Grid)
    requires WellShaped(b)
  {
    GameIsWon(b, Red) || GameIsWon(b, Blue) || |ValidLocations(b)| == 0
  }

  /** The value of a terminal board; a board won by both chips counts as Red's. */
  function TerminalValue(b: Grid): int
    requires WellShaped(b)
  {
    if GameIsWon(b, Red) then Vic else if GameIsWon(b, Blue) then Loss else Tie
  }

  /** The board after the player to move drops into playable column c. */
  function Child(b: Grid, c: int, maximizing: bool): (b': Grid)
    requires ValidBoard(b) && 0 <= c < Cols && IsValidLocation(b, c)
    ensures ValidBoard(b')
  {
    Drop(b, NextOpenRow(b, c).value, c, PlayerChip(maximizing))
  }

  // The full-width minimax value the search approximates.

  /** The maximum (the minimum, for the minimizer) of vals, folded left to
      right from -Inf (Inf) as the search's loops fold their scores. */
  function Extremum(maximizing: bool, vals: seq<int>): int
  {
    if |vals| == 0 then (if maximizing then -Inf else Inf)
    else
      var rest := Extremum(maximizing, vals[..|vals| - 1]);
      var last := vals[|vals| - 1];
      if maximizing then Max(rest, last) else Min(rest, last)
  }

  /** Over scores in [Loss, Vic], Extremum is the extremum: no value beats
      it, and a non-empty list attains it. */
  lemma {:induction false} ExtremumIsExtremum(maximizing: bool, vals: seq<int>)
    requires forall j :: 0 <= j < |vals| ==> Loss <= vals[j] <= Vic
    ensures maximizing ==> forall j :: 0 <= j < |vals| ==> vals[j] <= Extremum(maximizing, vals)
    ensures !maximizing ==> forall j :: 0 <= j < |vals| ==> Extremum(maximizing, vals) <= vals[j]
    ensures |vals| > 0 ==> exists j :: 0 <= j < |vals| && vals[j] == Extremum(maximizing, vals)
  {
    if |vals| > 0 {
      var init := vals[..|vals| - 1];
      assert forall j :: 0 <= j < |init| ==> init[j] == vals[j];
      ExtremumIsExtremum(maximizing, init);
      var e := Extremum(maximizing, vals);
      if |init| == 0 {
        assert vals[0] == e;
      } else if vals[|vals| - 1] != e {
        var j :| 0 <= j < |init| && init[j] == Extremum(maximizing, init);
        assert vals[j] == e;
      }
    }
  }

  /** The minimax value of b searched to the given depth, leaves scored as the
      search scores them. */
  ghost function Minimax(b: Grid, depth: nat, maximizing: bool): (v: int)
    requires ValidBoard(b)
    ensures Loss <= v <= Vic
    decreases depth, 2, 0
  {
    if IsTerminal(b) then TerminalValue(b)
    else if depth == 0 then EvaluateBounds(b); Heuristic(b)
    else
      var vals := ChildValues(b, depth, maximizing, ValidLocations(b));
      ExtremumIsExtremum(maximizing, vals);
      Extremum(maximizing, vals)
  }

  /** Every entry of cols is a playable column of b. */
  predicate Playable(b: Grid, cols: seq<int>)
    requires WellShaped(b)
  {
    forall j :: 0 <= j < |cols| ==> 0 <= cols[j] < Cols && IsValidLocation(b, cols[j])
  }

  /** The minimax values of the children reached by playing each of cols. */
  ghost function ChildValues(b: Grid, depth: nat, maximizing: bool, cols: seq<int>): (vals: seq<int>)
    requires ValidBoard(b) && depth > 0
    requires Playable(b, cols)
    ensures |vals| == |cols|
    ensures forall j :: 0 <= j < |vals| ==> Loss <= vals[j] <= Vic
    decreases depth, 1, |cols|
  {
    if |cols| == 0 then []
    else
      ChildValues(b, depth, maximizing, cols[..|cols| - 1]) +
      [ChildValue(b, depth, maximizing, cols[|cols| - 1])]
  }

  /** The minimax value of the child reached by playing column c. */
  ghost function ChildValue(b: Grid, depth: nat, maximizing: bool, c: int): (v: int)
    requires ValidBoard(b) && depth > 0 && 0 <= c < Cols && IsValidLocation(b, c)
    ensures Loss <= v <= Vic
    decreases depth, 0, 0
  {
    Minimax(Child(b, c, maximizing), depth - 1, !maximizing)
  }

  /** Entry j of ChildValues is the value of the child for column cols[j]. */
  lemma {:induction false} ChildValuesAt(b: Grid, depth: nat, maximizing: bool, cols: seq<int>, j: int)
    requires ValidBoard(b) && depth > 0
    requires Playable(b, cols)
    requires 0 <= j < |cols|
    ensures ChildValues(b, depth, maximizing, cols)[j] == ChildValue(b, depth, maximizing, cols[j])
    decreases |cols|
  {
    if j < |cols| - 1 {
      var init := cols[..|cols| - 1];
      ChildValuesAt(b, depth, maximizing, init, j);
      assert init[j] == cols[j];
    }
  }

  /** A fail-soft alpha-beta result for the window (alpha, beta): a result at
      or below alpha is an upper bound of the exact value, one strictly
      inside the window is the exact value, one at or above beta a lower bound. */
  predicate FailSoft(alpha: int, beta: int, result: int, exact: int)
  {
    && (result <= alpha ==> exact <= result)
    && (alpha < result < beta ==> exact == result)
    && (beta <= result ==> result <= exact)
  }

  /** Column col is valid[k] and k is the first index whose value is v. */
  ghost predicate FirstAttaining(valid: seq<int>, vals: seq<int>, col: int, v: int)
  {
    exists k :: 0 <= k < |valid| && k < |vals| && valid[k] == col && vals[k] == v &&
      forall j :: 0 <= j < k ==> vals[j] != v
  }

  /** alpha_beta_pruning: the column to play (None at a leaf) and the value.
      The maximizer's and the minimizer's loops are MaximizeOver and MinimizeOver. */
  method AlphaBetaPruning(b: Grid, depth: nat, alpha: int, beta: int, maximizing: bool)
    returns (column: Option<int>, value: int)
    requires ValidBoard(b)
    requires -Inf <= alpha < beta <= Inf
    ensures Loss <= value <= Vic
    ensures FailSoft(alpha, beta, value, Minimax(b, depth, maximizing))
    ensures alpha == -Inf && beta == Inf ==> value == Minimax(b, depth, maximizing)
    ensures column.Some? <==> !IsTerminal(b) && depth > 0
    ensures column.None? ==> value == Minimax(b, depth, maximizing)
    ensures IsTerminal(b) ==> value == TerminalValue(b)
    ensures !IsTerminal(b) && depth < 1 ==> value == Heuristic(b)
    ensures column.Some? ==> 0 <= column.value < Cols && IsValidLocation(b, column.value)
    ensures column.Some? && alpha < value < beta ==>
      ChildValue(b, depth, maximizing, column.value) == value &&
      forall c :: 0 <= c < column.value && IsValidLocation(b, c) ==> ChildValue(b, depth, maximizing, c) != value
    decreases depth, 2
  {
    var valid := GetValidLocations(b);
    var redWon := CheckGameWon(b, Red);
    var blueWon := CheckGameWon(b, Blue);
    var isTerminal := redWon || blueWon || |valid| == 0;

    if depth == 0 || isTerminal {
      if isTerminal {
        if redWon {
          return None, Vic;
        } else if blueWon {
          return None, Loss;
        } else {
          return None, Tie;
        }
      } else {
        EvaluateBounds(b);
        value := EvaluateBoard(b);
        return None, value;
      }
    }

    if maximizing {
      column, value := MaximizeOver(b, depth, alpha, beta, valid);
    } else {
      column, value := MinimizeOver(b, depth, alpha, beta, valid);
    }
    if alpha < value < beta {
      FirstColumnAttaining(b, depth, maximizing, valid, column.value, value);
    }
  }

  /** Read FirstAttaining on the child values as a statement about columns. */
  lemma FirstColumnAttaining(b: Grid, depth: nat, maximizing: bool, valid: seq<int>, col: int, v: int)
    requires ValidBoard(b) && depth > 0 && valid == ValidLocations(b)
    requires FirstAttaining(valid, ChildValues(b, depth, maximizing, valid), col, v)
    ensures 0 <= col < Cols && IsValidLocation(b, col)
    ensures ChildValue(b, depth, maximizing, col) == v
    ensures forall c :: 0 <= c < col && IsValidLocation(b, c) ==> ChildValue(b, depth, maximizing, c) != v
  {
    var vals := ChildValues(b, depth, maximizing, valid);
    var k :| 0 <= k < |valid| && valid[k] == col && vals[k] == v && forall j :: 0 <= j < k ==> vals[j] != v;
    ChildValuesAt(b, depth, maximizing, valid, k);
    EarlierColumnsFirst(b, valid, k);
    forall c | 0 <= c < col && IsValidLocation(b, c)
      ensures ChildValue(b, depth, maximizing, c) != v
    {
      var j :| 0 <= j < k && valid[j] == c;
      ChildValuesAt(b, depth, maximizing, valid, j);
    }
  }

  /** The maximizer's loop of alpha_beta_pruning: try each playable column in
      order, keep the first best score, raise alpha, stop once alpha >= beta. */
  method MaximizeOver(b: Grid, depth: nat, alpha: int, beta: int, valid: seq<int>)
    returns (column: Option<int>, value: int)
    requires ValidBoard(b) && depth > 0 && -Inf <= alpha < beta <= Inf
    requires Playable(b, valid) && |valid| > 0
    ensures Loss <= value <= Vic
    ensures FailSoft(alpha, beta, value, Extremum(true, ChildValues(b, depth, true, valid)))
    ensures column.Some? && column.value in valid
    ensures alpha < value < beta ==> FirstAttaining(valid, ChildValues(b, depth, true, valid), column.value, value)
    decreases depth, 1
  {
    ghost var vals := ChildValues(b, depth, true, valid);
    ExtremumIsExtremum(true, vals);
    ghost var best := 0;
    value := -Inf;
    column := None;
    var a := alpha;
    for i := 0 to |valid|
      invariant a == Max(alpha, value) && a < beta
      invariant i == 0 ==> value == -Inf && column.None?
      invariant i > 0 ==> Loss <= value <= Vic && best < i && column == Some(valid[best])
      invariant forall j :: 0 <= j < i ==> vals[j] <= value
      invariant i > 0 && alpha < value ==> vals[best] == value
      invariant i > 0 && alpha < value ==> forall j :: 0 <= j < best ==> vals[j] < value
    {
      var col := valid[i];
      var newScore := ScoreChild(b, depth, a, beta, true, valid, i);
      if newScore > value {
        value := newScore;
        column := Some(col);
        best := i;
      }
      a := Max(a, value);
      if a >= beta {
        return;
      }
    }
  }

  /** The minimizer's loop of alpha_beta_pruning: try each playable column in
      order, keep the first lowest score, lower beta, stop once alpha >= beta. */
  method MinimizeOver(b: Grid, depth: nat, alpha: int, beta: int, valid: seq<int>)
    returns (column: Option<int>, value: int)
    requires ValidBoard(b) && depth > 0 && -Inf <= alpha < beta <= Inf
    requires Playable(b, valid) && |valid| > 0
    ensures Loss <= value <= Vic
    ensures FailSoft(alpha, beta, value, Extremum(false, ChildValues(b, depth, false, valid)))
    ensures column.Some? && column.value in valid
    ensures alpha < value < beta ==> FirstAttaining(valid, ChildValues(b, depth, false, valid), column.value, value)
    decreases depth, 1
  {
    ghost var vals := ChildValues(b, depth, false, valid);
    ExtremumIsExtremum(false, vals);
    ghost var best := 0;
    value := Inf;
    column := None;
    var z := beta;
    for i := 0 to |valid|
      invariant z == Min(beta, value) && alpha < z
      invariant i == 0 ==> value == Inf && column.None?
      invariant i > 0 ==> Loss <= value <= Vic && best < i && column == Some(valid[best])
      invariant forall j :: 0 <= j < i ==> value <= vals[j]
      invariant i > 0 && value < beta ==> vals[best] == value
      invariant i > 0 && value < beta ==> forall j :: 0 <= j < best ==> value < vals[j]
    {
      var col := valid[i];
      var newScore := ScoreChild(b, depth, alpha, z, false, valid, i);
      if newScore < value {
        value := newScore;
        column := Some(col);
        best := i;
      }
      z := Min(z, value);
      if alpha >= z {
        return;
      }
    }
  }

  /** One iteration's child search for column valid[i]: copy the board, drop
      the player's chip into the column's next open row, and search the copy
      one level shallower for the other player. */
  method ScoreChild(b: Grid, depth: nat, alpha: int, beta: int, maximizing: bool, valid: seq<int>, i: int)
    returns (newScore: int)
    requires ValidBoard(b) && depth > 0 && -Inf <= alpha < beta <= Inf
    requires Playable(b, valid) && 0 <= i < |valid|
    ensures Loss <= newScore <= Vic
    ensures FailSoft(alpha, beta, newScore, ChildValues(b, depth, maximizing, valid)[i])
    decreases depth, 0
  {
    var col := valid[i];
    var row := GetNextOpenRow(b, col);
    var bCopy := Drop(b, row.value, col, PlayerChip(maximizing));
    assert bCopy == Child(b, col, maximizing);
    ChildValuesAt(b, depth, maximizing, valid, i);
    var _, score := AlphaBetaPruning(bCopy, depth - 1, alpha, beta, !maximizing);
    newScore := score;
  }

  // The move the root search picks.

  /** The first playable column at or after c whose child value is target. */
  ghost function FirstColumnFrom(b: Grid, depth: nat, target: int, c: nat): (col: Option<int>)
    requires ValidBoard(b) && depth > 0 && c <= Cols
    ensures col.Some? ==> c <= col.value < Cols && IsValidLocation(b, col.value)
    decreases Cols - c
  {
    if c == Cols then None
    else if IsValidLocation(b, c) && ChildValue(b, depth, true, c) == target then Some(c)
    else FirstColumnFrom(b, depth, target, c + 1)
  }

  /** The column makeAlphaBetaMove plays on b: none when the root is a leaf,
      otherwise the leftmost playable column whose child attains the root's
      minimax value. */
  ghost function RootColumn(b: Grid, depth: nat): Option<int>
    requires ValidBoard(b)
  {
    if IsTerminal(b) || depth < 1 then None
    else FirstColumnFrom(b, depth, Minimax(b, depth, true), 0)
  }

  /** A playable column attaining target with no playable column between c
      and it attaining target is what FirstColumnFrom finds from c. */
  lemma {:induction false} FirstColumnFromFinds(b: Grid, depth: nat, target: int, col: int, c: nat)
    requires ValidBoard(b) && depth > 0 && c <= col < Cols && IsValidLocation(b, col)
    requires ChildValue(b, depth, true, col) == target
    requires forall c' :: c <= c' < col && IsValidLocation(b, c') ==> ChildValue(b, depth, true, c') != target
    ensures FirstColumnFrom(b, depth, target, c) == Some(col)
    decreases col - c
  {
    if c < col {
      FirstColumnFromFinds(b, depth, target, col, c + 1);
    }
  }

  /** The call makeAlphaBetaMove makes: a maximizer's search with the full
      window, which yields the minimax value and the column RootColumn names. */
  method SearchFromRoot(b: Grid, depth: nat) returns (column: Option<int>, value: int)
    requires ValidBoard(b)
    ensures value == Minimax(b, depth, true)
    ensures column == RootColumn(b, depth)
  {
    column, value := AlphaBetaPruning(b, depth, -Inf, Inf, true);
    if column.Some? {
      FirstColumnFromFinds(b, depth, value, column.value, 0);
    }
  }

  /** A playable column left of valid[k] comes before index k in the list. */
  lemma EarlierColumnsFirst(b: Grid, valid: seq<int>, k: int)
    requires WellShaped(b) && valid == ValidLocations(b) && 0 <= k < |valid|
    ensures forall c :: 0 <= c < valid[k] && IsValidLocation(b, c) ==>
      exists j :: 0 <= j < k && valid[j] == c
  {
    forall c | 0 <= c < valid[k] && IsValidLocation(b, c)
      ensures exists j :: 0 <= j < k && valid[j] == c
    {
      var j :| 0 <= j < |valid| && valid[j] == c;
      assert j < k;
    }
  }
}
