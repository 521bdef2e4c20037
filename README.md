# Connect-4 search engine, modelled in Dafny

This project models the game engine of `connect4.py`, a Connect-4 player, in Dafny. The engine has five parts:

- the 6x7 board and its queries (`create_board`, `drop_chip`, `is_valid_location`, `get_next_open_row`, `get_valid_locations`);
- win detection (`game_is_won`);
- the static evaluator (`evaluateBoard`);
- depth-limited fail-soft alpha-beta minimax (`alpha_beta_pruning`);
- the move commit (`makeAlphaBetaMove`), which updates the game state list `s = [board, score, player, emptyCount]` in place.

Files and modules:

- `board.dfy` (module `Board`)
  - The constants, the board as a value (`Grid = seq<seq<int>>`, row 0 at the bottom), and the board operations.
  - The game's own board is an `array2<int>`. `DropChip` writes into it in place, and `Cells` reads it as a value.
- `win.dfy` (module `WinDetection`)
  - `GameIsWon` is the four scans of `game_is_won`. `CheckGameWon` runs them loop by loop with early returns.
  - `RunAt` / `FourInARow` is an independent geometric definition of "four in a row". The lemmas prove the two agree.
- `win_examples.dfy` (module `WinExamples`): concrete boards built by dropping chips into a fresh board.
- `evaluate.dfy` (module `Evaluation`)
  - `EvaluateBoard` is the evaluator's nested loops. `Heuristic` is the value they compute, defined for any rectangular board.
  - Lemmas show what that value is on the 6x7 board.
- `search.dfy` (module `Search`)
  - `AlphaBetaPruning` is proved fail-soft against a ghost full-width `Minimax`.
  - Its two loops are `MaximizeOver` and `MinimizeOver`. `ScoreChild` is one iteration's child search.
  - `SearchFromRoot` is the root call that `makeAlphaBetaMove` makes.
- `game.dfy` (module `Game`)
  - Class `State` is the list `s`. It holds the `array2` board and the three counters, which its methods update in place.
  - `MakeAlphaBetaMove` = `SearchFromRoot` + `PlayColumn`, and `PlayColumn` = `PlaceChip` + `Rescore`.

Behaviour as written that the model keeps, and proves consequences of:

- **The evaluator scores no window on the 6x7 board.**
  - Its direction vectors are already multiplied by `SIZE - 1`, and the loop scales them again by `k`. The window stride is therefore 3.
  - The last cell of every window falls off the board, so no window is ever scored.
  - The result is 3 times the sum of column 3 (`Evaluation.EvaluateIsCenterColumn`). It is never `VIC` (`Evaluation.EvaluateNeverSentinel`), and for cells in {0, 1, 2} it lies in [0, 36].
- **The evaluator's codes do not match the chips.** It looks for `COMPUTER = 5` and `HUMAN = 1`, while the game places `RED_INT = 1` and `BLUE_INT = 2`.
- **The turn switch uses the same mismatched codes.** `makeAlphaBetaMove` switches the turn with `HUMAN if playerChip == COMPUTER else COMPUTER`. The computer plays `RED_INT = 1`, which is not `COMPUTER`, so the player always becomes `COMPUTER`.
- **A board won by both chips is scored as Red's win.**
- **The centre bias sums cell codes.** The evaluator masks the board down to column `cols // 2` and adds 3 times the sum of that column's cell codes, so a Blue chip there is worth twice a Red one.
- **A full column has no next open row.** `get_next_open_row` falls off the end of its loop and returns Python's `None`, modelled as `Option.None`.

## Model

| member | source | states |
|---|---|---|
| Board.CreateBoard | connect4.py:27-30 | the new board is a valid 6x7 board, every cell is empty, and gravity holds |
| Board.Drop | connect4.py:33-35 | only cell (row, col) changes, it becomes chip, and a valid board stays valid for a chip in {0, 1, 2} |
| Board.DropChip | connect4.py:33-35 | writing into the game's array has the effect of `Drop` on the board value |
| Board.LowestEmptyFrom | connect4.py:43-48 | the row found is empty and every cell between `from` and it is occupied; none is found iff every cell from `from` up is occupied |
| Board.ValidLocationIffOpenRow | connect4.py:38-48 | is_valid_location (the top cell, row 5, is empty) implies that get_next_open_row finds a row; under gravity the converse holds too |
| Board.GetNextOpenRow | connect4.py:43-48 | the scan returns the lowest empty row of the column (all cells below it occupied), and None exactly when the column is full |
| Board.GravityNextOpenRow | connect4.py:43-48 | under gravity, a playable column has a next open row; every cell below it is occupied, it and every cell above it are empty |
| Board.DropKeepsGravity | connect4.py:33-48 | dropping into the next open row keeps gravity |
| Board.ValidLocationsBelowExact | connect4.py:82-87 | the columns collected below n are playable, strictly ascending, and include every playable column below n |
| Board.ValidLocations | connect4.py:82-87 | the list holds playable columns only, in strictly ascending order, and every playable column is in it |
| Board.GetValidLocations | connect4.py:82-87 | the loop builds exactly that list: c is in it iff 0 <= c < 7 and the top cell of c is empty; strictly ascending |
| Board.EmptyBoardAllValid | connect4.py:38-40 | on an empty board the valid locations are exactly 0, 1, ..., 6 in order |
| Board.AllValidBelow | connect4.py:82-87 | when every column below n is playable, the list is 0 .. n - 1 |
| WinDetection.CheckGameWon | connect4.py:59-79 | the four scans with early returns answer GameIsWon, and that answer is true iff the chip has four in a row |
| WinDetection.GameIsWonExact | connect4.py:59-79 | game_is_won holds iff some row, column, rising or falling diagonal has four consecutive cells equal to chip |
| WinDetection.WindowIsRun | connect4.py:63-66 | a window equals the winning sequence iff its four cells equal chip (containment of the joined strings, cells being single digits) |
| WinDetection.ScannedOffsetsAreLongDiagonals | connect4.py:73-79 | the offsets -2..3 are exactly the diagonals of a 6x7 grid with at least four cells |
| WinDetection.RowScanExact | connect4.py:64-67 | the row scan finds a run iff there is a horizontal four in a row |
| WinDetection.ColumnScanExact | connect4.py:68-71 | the column scan finds a run iff there is a vertical four in a row |
| WinDetection.DiagonalScanExact | connect4.py:72-75 | scanning diagonal offsets -2..3 finds a run iff there is a rising four in a row |
| WinDetection.DiagonalRunIsRising | connect4.py:72-75 | a run on a scanned diagonal is a rising four in a row |
| WinDetection.RisingRunOnDiagonal | connect4.py:72-75 | every rising four in a row lies on a scanned diagonal |
| WinDetection.FlipTurnsFallingIntoRising | connect4.py:76-79 | a rising run of the column-flipped board is exactly a falling run of the board |
| WinDetection.WinDependsOnlyOnChipCells | connect4.py:59-79 | two boards that agree on which cells hold chip agree on whether chip has won |
| WinExamples.EmptyBoardNotWon | connect4.py:59-61 | a fresh board is won by neither chip |
| WinExamples.RedRowWinsFromFour | connect4.py:59-61 | Red in columns 0 .. n - 1 of the bottom row wins iff n >= 4 |
| WinExamples.RedRowFollowsGravity | connect4.py:43-48 | each chip of that row lands in row 0, the next open row of its column |
| WinExamples.RedStackWinsFromFour | connect4.py:59-61 | n Red chips dropped into one column of a fresh board win iff n >= 4 |
| WinExamples.RedStackFollowsGravity | connect4.py:43-48 | the n-th chip dropped into the column lands in row n - 1 |
| WinExamples.OneBlueBreaksTheRow | connect4.py:59-61 | Red in row 0 columns 0 .. 3 wins, and turning any one of those cells Blue makes it not won |
| WinExamples.RedRowNotBlueWin | connect4.py:59-61 | a Red row is not a win for Blue |
| Evaluation.EvaluateBoard | connect4.py:98-134 | the nested loops, with their short-circuit and penalty, compute Heuristic(b) |
| Evaluation.ScanWindow | connect4.py:111-120 | the k-loop reports the window as valid iff all four cells fit on the board, and then its sum is the window's cell sum |
| Evaluation.NoVicInRows | connect4.py:121-123 | when the scan has not short-circuited on the first n rows, no window there sums to COMPUTER * SIZE |
| Evaluation.NoWindowScoredOnSmallBoard | connect4.py:108-120 | on a board of at most 9x9 the stride-3 window never fits, so it is never scored |
| Evaluation.BoardTotalZero | connect4.py:105-126 | on such a board the windows contribute nothing in total |
| Evaluation.EvaluateIsCenterColumn | connect4.py:98-134 | on the 6x7 board the value is 3 * (b[0][3] + ... + b[5][3]) |
| Evaluation.EvaluateBounds | connect4.py:98-134 | on a valid board the value lies in [0, 36] |
| Evaluation.EvaluateNeverSentinel | connect4.py:122-123 | on the 6x7 board the value is never VIC or LOSS |
| Search.Child | connect4.py:155-158 | the board a child searches is a valid board |
| Search.ExtremumIsExtremum | connect4.py:152-183 | the left fold of max (min) from -inf (+inf) bounds every score and, on a non-empty list, is attained |
| Search.Minimax | connect4.py:137-183 | the full-width minimax value lies in [LOSS, VIC] |
| Search.ChildValuesAt | connect4.py:155-160 | entry j of the children's values is the minimax value of the child for column cols[j] |
| Search.AlphaBetaPruning | connect4.py:137-183 | the score is in [LOSS, VIC] and fail-soft against Minimax (exact with the full window); a terminal board gives None and VIC / LOSS / TIE in that precedence; depth 0 gives None and evaluateBoard; a strictly-inside score comes with the first valid column whose child value equals it |
| Search.MaximizeOver | connect4.py:152-167 | the maximizer's loop is fail-soft against the maximum of the child values, and a strictly-inside score is attained first at the column kept |
| Search.MinimizeOver | connect4.py:168-183 | the minimizer's loop is fail-soft against the minimum of the child values, and a strictly-inside score is attained first at the column kept |
| Search.ScoreChild | connect4.py:155-160 | searching the copy with the chip dropped is fail-soft against that child's minimax value |
| Search.FirstColumnAttaining | connect4.py:161-167 | the first index attaining the score names a valid column whose child attains it, and no valid column left of it does |
| Search.FirstColumnFromFinds | connect4.py:152-167 | a valid column attaining the target with none before it is the first such column |
| Search.SearchFromRoot | connect4.py:187 | the root call with (-inf, +inf) returns the unpruned minimax value and the first valid column attaining it (None at a leaf) |
| Search.EarlierColumnsFirst | connect4.py:82-87 | a valid column left of valid[k] appears before index k |
| Game.DropCountsDown | connect4.py:190-191 | dropping a chip into an empty cell leaves exactly one empty cell fewer |
| Game.CreateBoardCount | connect4.py:208 | a fresh board has ROW_COUNT * COLUMN_COUNT empty cells |
| Game.CommitFacts | connect4.py:189-191 | dropping into a playable column keeps the board valid and gravity, and leaves one empty cell fewer |
| Game.State.constructor | connect4.py:204-208 | s starts as an empty board, score 0, COMPUTER to play, 42 empty cells, with the counter consistent |
| Game.State.PlaceChip | connect4.py:189-192 | exactly the drop's cell changes; the counter drops by one; the player becomes HUMAN iff the chip is COMPUTER, else COMPUTER; validity, gravity and the counter's consistency are kept |
| Game.State.Rescore | connect4.py:193-195 | the score is evaluateBoard of the board, forced to TIE when no empty cell is left and it is neither LOSS nor VIC |
| Game.State.PlayColumn | connect4.py:189-195 | the commit: drop, count, turn switch and rescoring as above, in one step |
| Game.State.MakeAlphaBetaMove | connect4.py:186-195 | s is unchanged when the root search returns no column; otherwise the first column attaining the root's minimax value is played and the score, counter and player updated as above; after RED_INT the player is COMPUTER |

## Left out

- `print_board`, the `termcolor` colouring, `moveRandom` and the 100-game match loop with its win and tie counters are not modelled: they are console output, randomness and glue around the engine.
- The `random.choice` default columns of both loops are not modelled. The first child's score always beats the initial infinity and replaces the default, so the model starts from None.
- `float('inf')` is modelled as the integer `Inf = VIC + 1`. Every score the search returns lies in [LOSS, VIC].
- The children's unused metadata `new_s[1..3]` (the copied score, the player and the `np.count_nonzero` count) is not modelled, because the recursion reads only the board.
- numpy and `copy` are not modelled. The search works on board values, so `copy.deepcopy` is a value copy and the input board cannot change (the same holds for `evaluateBoard`). `board.diagonal` and `np.flip` are explicit index maps.
- The string joining of `game_is_won` is modelled as containment of a four-cell window. This matches the source only while every cell is a single digit, as the cells of a valid board are.
- Search.AlphaBetaPruning: `depth` is a natural number. A negative depth, with which the source searches until the game ends, is not modelled.
- Search.SearchFromRoot: `depth` is a natural number, for the same reason; the source passes any integer through.
- Game.State.MakeAlphaBetaMove: `depth` is a natural number, while `makeAlphaBetaMove` accepts any integer depth; a negative one is not modelled.
- Search.AlphaBetaPruning: when the score falls outside the window (a pruned node), the contract only says the column is a valid one. It does not say which valid column the loop kept.
- Game.State.MakeAlphaBetaMove: the closed form of the new score (3 times the sum of column 3, or TIE) is not an `ensures` of the method. It follows from `Evaluation.EvaluateIsCenterColumn` applied to the new board.
- The search is split into helper methods. The loops of `alpha_beta_pruning` are `MaximizeOver` and `MinimizeOver`, and one iteration's child search is `ScoreChild`. The commit is split into `PlaceChip` and `Rescore`. The statements and their order are the source's.
