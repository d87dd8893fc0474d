# Connect Four: the board and the negamax player

This project models the core of a Connect Four program in Dafny and proves properties of it. The core has two parts:

- the 7x7 game board, which is updated in place (`Board.java`);
- the computer player's depth-limited negamax search over that board (`MyPlayer.java`).

The model has four modules:

- `Grids` (grids.dfy) treats the board as a value: a grid of 7 rows of 7 cells, with row 0 at the bottom. It defines the following:
  - where a dropped tile lands (`FirstEmptySlot`, `Drop`);
  - which tile came last (`LastMoveRow`, `Lift`);
  - gravity;
  - lines of four through a cell;
  - the game status code (`GameStatus`: the winner, 0 for a tie, -1 while the game goes on).
- `Boards` (board.dfy) is the `Board` class over an `array2<int>`. Every method of `Board.java` except the console output (`printBoard`, `cellToString`) is a method of the class, and each is specified against the grid value `Grid()` and the functions of `Grids`. The scan loops of `checkColumn`, `checkRow` and `checkDiagonal` are proved exact: each count reaches four exactly when a line of four passes through the last tile.
- `GameTree` (negamax.dfy) is the value the search computes:
  - `Candidates` is the list of moves the search's loop records;
  - `Score` is the value of dropping into one column: terminal, heuristic, or the negated reply one level deeper;
  - `BestIndex` is getBestMove's choice;
  - `Negamax` is the move returned.
- `Players` (my_player.dfy) holds the imperative search (`Search`, `ScoreColumn`, `ValuePosition`, `GetBestMove`) on the one shared board, with two proofs about it:
  - it returns `Negamax(...)` of the grid it was given;
  - it hands the board back exactly as it received it.

  The module also holds the weighted table of cell values, with a proof of the claim its comment makes.

Scores are `real`. The two board scans the heuristic combines, `evaluateColumn` and `evaluateRow`, are parameters of the model (an `Evaluator`). Only the heuristic's choice of the larger of the two is modelled.

Two points of the model follow the code:

- The opponent is `playerNumber == 1 ? 2 : 1` (MyPlayer.java:85); the model follows it, and it equals 3 - p on players 1 and 2.
- The loss branch of the terminal scoring (value -1.0) is kept as written. It can never be reached: the tile that ends the game is always the mover's own (`GameTree.ScoreCases`).

## Model

| member | source | states |
|---|---|---|
| Grids.EmptyGrid | Board.java:17-25 | the empty grid is 7x7, every cell is 0, and it obeys gravity |
| Grids.FirstEmptySlot | Board.java:161-174 | -1 exactly when the column is out of range or full; otherwise a row holding 0 with every cell below it occupied (the lowest empty row) |
| Grids.LowestEmptyFrom | Board.java:167-172 | the upward scan from row i finds the lowest empty row at or above i, or -1 when there is none |
| Grids.LastMoveRow | Board.java:176-190 | -1 exactly when the column is out of range or empty; otherwise an occupied row with every cell above it empty (the highest tile) |
| Grids.HighestTileFrom | Board.java:182-187 | the downward scan from row i finds the highest occupied row at or below i, or -1 when there is none |
| Grids.Drop | Board.java:67-75 | on an open column the tile lands in the lowest empty row and no other cell changes |
| Grids.Lift | Board.java:81-89 | on a non-empty column the highest tile is cleared and no other cell changes |
| Grids.TopMeetsBottom | Board.java:161-190 | under gravity the lowest empty row of a column is just above its highest tile |
| Grids.DropKeepsGravity | Board.java:67-75 | a move keeps every column a gap-free stack from row 0 |
| Grids.LiftKeepsGravity | Board.java:81-89 | an undo keeps every column a gap-free stack from row 0 |
| Grids.DropKeepsTiles | Board.java:67-75 | a move by player 1 or 2 keeps every cell in {0,1,2} |
| Grids.LiftKeepsTiles | Board.java:81-89 | an undo keeps every cell in {0,1,2} |
| Grids.LiftDrop | Board.java:67-89 | under gravity, undoing a move removes exactly the tile just placed and restores the grid |
| Grids.DropLift | Board.java:67-89 | under gravity, replaying the tile an undo removed restores the grid |
| Grids.TopRowFullMeansNoOpenColumn | Board.java:152-159 | under gravity the top row is full exactly when no column is open |
| Grids.RunCells | Board.java:197-203 | a run counts exactly the consecutive owned cells from its start, and the next cell is not owned |
| Grids.Run | Board.java:197-203 | definition: the number of consecutive cells of the player from a start cell along a direction, stopping at the edge of the board or at another cell, as each connectNum loop counts |
| Grids.LineThrough | Board.java:101-112 | definition: the four cells at offsets -k..3-k from the cell along a direction, for some k in 0..3, are on the board and all the player's (a line of four through the cell) |
| Grids.WinThrough | Board.java:101-112 | definition: a line of four through the cell in one of the four directions: vertical, horizontal, rising or falling diagonal |
| Grids.LineThroughWindows | Board.java:101-112 | a line of four through a cell occupies one of the four windows at offsets -k..3-k |
| Grids.WinThroughDirections | Board.java:101-112 | a win through a cell is a line of four vertically, horizontally or on either diagonal |
| Grids.LineThroughReversed | Board.java:194-210 | a line through a cell is the same line walked in the opposite direction |
| Grids.RunsSpanWindow | Board.java:212-235 | a forward run and a backward run add up to four exactly when a window of four containing the cell is filled |
| Grids.ForwardRunCells | Board.java:214-220 | what a forward count says about the cells at offsets 0..3 |
| Grids.BackwardRunCells | Board.java:222-228 | what the backward count from the neighbour says about the cells at offsets -1..-3 |
| Grids.TwoRunsSpanLine | Board.java:212-235 | two-way counting through an owned cell reaches 4 iff a line of four along that direction passes through it |
| Grids.DownRunSpansLine | Board.java:194-210 | for the highest tile of a column, counting downward alone reaches 4 iff a vertical line of four passes through it |
| Grids.GameStatus | Board.java:101-115 | definition: the owner of the highest tile of the column when a line of four passes through it, else 0 when the top row is full, else -1 |
| Grids.GameStatusFromLines | Board.java:101-115 | the status is the owner when one of the four line tests holds, else 0 on a full top row, else -1 |
| Grids.GameStatusCodes | Board.java:101-115 | the status is -1, 0 or the owner of the highest tile; it is at least 1 iff that tile completes a line of four; 0 iff there is no such line and the top row is full; -1 implies an open column |
| Boards.Board.constructor | Board.java:17-25 | a fresh array holding the empty grid |
| Boards.Board.Copy | Board.java:30-37 | a fresh array (so the two boards do not share cells) holding the same grid as the original |
| Boards.Board.GetBoard | Board.java:39-41 | returns the cells of the board |
| Boards.Board.GetFirstEmptySlot | Board.java:161-174 | the scan loop returns FirstEmptySlot of the grid |
| Boards.Board.GetLastMoveRow | Board.java:176-190 | the scan loop returns LastMoveRow of the grid |
| Boards.Board.IsColumnOpen | Board.java:48-54 | true iff the column is in range and has an empty cell |
| Boards.Board.Move | Board.java:67-75 | answers true iff the column was open; the grid becomes Drop of the old grid, or is unchanged when the answer is false |
| Boards.Board.UndoMove | Board.java:81-89 | answers true iff the column was non-empty; the grid becomes Lift of the old grid, or is unchanged when the answer is false |
| Boards.Board.CountRun | Board.java:214-228 | the counting loop returns the number of consecutive cells of the player from the start cell along the direction |
| Boards.Board.CheckColumn | Board.java:194-210 | for the highest tile of a column, true iff a vertical line of four passes through it |
| Boards.Board.CheckRow | Board.java:212-235 | for a cell of the player's, true iff a horizontal line of four passes through it |
| Boards.Board.CheckDiagonal | Board.java:237-283 | for a cell of the player's, true iff a line of four on the rising or on the falling diagonal passes through it, each counted from zero |
| Boards.Board.IsGameTied | Board.java:152-159 | 0 when every cell of the top row is occupied, otherwise -1 |
| Boards.Board.CheckIfGameOver | Board.java:101-115 | needs a non-empty column, changes nothing, and returns GameStatus: the owner of the highest tile when a line of four passes through it, else 0 for a full top row, else -1 |
| GameTree.Move | MyPlayer.java:11-19 | definition: a move is a column and the value the search gave it |
| GameTree.Opponent | MyPlayer.java:85 | the player to move next is 1 or 2, and differs from a mover who is 1 or 2 |
| GameTree.Heuristic | MyPlayer.java:261-273 | the heuristic is at least both scans and equal to one of them |
| GameTree.TerminalValue | MyPlayer.java:66-77 | definition: status 0 scores 0.0, the mover's own number 1.0, any other status -1.0 |
| GameTree.IsBestChoice | MyPlayer.java:276-289 | definition: the first move whose value exceeds -1.0 and every earlier value and is at least every value, or move 0 when no value exceeds -1.0 |
| GameTree.BestFrom | MyPlayer.java:281-286 | the rest of getBestMove's loop, from any state the loop can be in, ends on the best choice |
| GameTree.BestIndex | MyPlayer.java:276-289 | the index getBestMove picks is the first move that beats -1.0 and every earlier value and is at least every value, or move 0 when no value beats -1.0 |
| GameTree.BestChoiceUnique | MyPlayer.java:276-289 | the tie-breaking rule determines a single move |
| GameTree.FirstMoveBelowMinusOne | MyPlayer.java:278-286 | for every non-empty list whose values are all at most -1.0, the first move is the one returned |
| GameTree.FirstMoveBelowMinusOneExample | MyPlayer.java:278-286 | example: of the values -2.0 and -1.5 the first is returned although the second is larger |
| GameTree.Score | MyPlayer.java:57-87 | definition: the value of dropping the mover's tile into an open column: the terminal value when that ends the game, the heuristic at depth 0, else the negation of the opponent's Negamax value one level shallower |
| GameTree.Candidates | MyPlayer.java:46-94 | definition: the moves recorded after looking at the columns below a bound, one per open column with its Score, appended in column order |
| GameTree.Negamax | MyPlayer.java:44-99 | definition: the candidate of all seven columns that getBestMove's rule picks |
| GameTree.DropForOpponent | MyPlayer.java:57-65 | the position after a move is a valid search position for the opponent, its column is non-empty for checkIfGameOver, and it has an open column when the game goes on |
| GameTree.ScoreByStatus | MyPlayer.java:65-87 | the value search computes from the status code (0.0 / 1.0 / -1.0, the heuristic at depth 0, or the negated reply) is the Score of the column |
| GameTree.OpenColumnBelow | MyPlayer.java:49-54 | an open column below the bound is noticed by the loop |
| GameTree.OpenBelowN | MyPlayer.java:49-54 | a grid with an open column has one among the N columns the loop visits |
| GameTree.CandidatesNonEmpty | MyPlayer.java:49-97 | when a visited column is open, at least one move is recorded, so moves.get(0) is safe |
| GameTree.CandidatesStep | MyPlayer.java:49-91 | one pass of the loop appends the scored move of the column when it is open, and nothing otherwise |
| GameTree.OpenColumns | MyPlayer.java:49-54 | the open columns below the bound, each exactly once, in strictly increasing order |
| GameTree.CandidateColumns | MyPlayer.java:49-91 | the recorded moves are exactly one per open column, in ascending column order |
| GameTree.CandidateValues | MyPlayer.java:56-90 | every recorded move is in an open column and carries the Score of that column |
| GameTree.NegamaxPicksBestCandidate | MyPlayer.java:97 | the move search returns is the best choice (getBestMove's rule) among the candidates |
| GameTree.NegamaxValue | MyPlayer.java:49-97 | the returned move is in an open column and its value is the Score of that column |
| GameTree.ScoreCases | MyPlayer.java:65-87 | a move that completes a line of four scores 1.0; one that fills the top row without a line scores 0.0; otherwise the opponent faces a valid position with an open column, and the score is the heuristic at depth 0 or else the negated best reply one level deeper |
| Players.GetBestMove | MyPlayer.java:276-289 | the loop returns the move at BestIndex, i.e. the best choice under the tie-breaking rule |
| Players.Search | MyPlayer.java:44-99 | given a position with an open column, returns Negamax of the grid and hands the board back unchanged |
| Players.ScoreColumn | MyPlayer.java:56-93 | move, check and undo on one open column: the board is restored and the value is the Score of the column |
| Players.ValuePosition | MyPlayer.java:65-87 | the valuation after a move, including the recursive search one level shallower, equals the Score of the column and leaves the board as it found it |
| Players.ChooseMove | MyPlayer.java:31-42 | a depth-7 search returns an open column, the one Negamax picks, and the board is unchanged |
| Players.ChooseMoveOnCopy | Game.java:66-67 | the player searches a copy, so the game's own board is not modified, and the answer is an open column |
| Players.WeightedTable | MyPlayer.java:102-110 | definition: the seven rows of cell weights, entry for entry |
| Players.WindowsThrough | MyPlayer.java:101 | definition: the number of windows of four cells on the board, vertical, horizontal or on either diagonal, that contain a cell |
| Players.WindowIsOnBoard | MyPlayer.java:101 | a line of four only lies in a window of four cells on the board |
| Players.WindowCellsOnBoard | MyPlayer.java:101 | every cell of a window whose ends are on the board is on the board |
| Players.VerticalWindows | MyPlayer.java:101-110 | closed form of the vertical windows through a cell |
| Players.HorizontalWindows | MyPlayer.java:101-110 | closed form of the horizontal windows through a cell |
| Players.RisingWindows | MyPlayer.java:101-110 | closed form of the rising diagonal windows through a cell |
| Players.FallingWindows | MyPlayer.java:101-110 | closed form of the falling diagonal windows through a cell |
| Players.SharedWindowsCount | MyPlayer.java:101-110 | the windows of four through any cell, counted in closed form |
| Players.WeightedTableEntries | MyPlayer.java:101-110 | the table is 7x7 and each entry equals the closed-form count |
| Players.WeightedTableCountsWindows | MyPlayer.java:101-110 | each entry of the table is the number of windows of four (vertical, horizontal or diagonal) on the board that contain the cell |

## Left out

- `evaluateColumn` and `evaluateRow` (MyPlayer.java:122-253) are floating-point accumulators. The model takes them as given functions of the grid and the player (`GameTree.Evaluator`), so nothing is proved about their values.
- Doubles are `real`. The search only compares, negates and assigns the constants 0.0, 1.0 and -1.0, so no rounding is involved.
- chooseMove's timing (`System.nanoTime`) and printing are left out, and so is the instance field `playerNumber`, which is a parameter here. `MyPlayer()` and `setPlayerNumber` only set fields.
- Board.printBoard and cellToString (console output), and the Game turn loop except for the copy it hands to the player, are left out. HumanPlayer (console input), RandomPlayer (randomness), Main and Player (wiring) are left out as well.
- Players.Search: requires a position with tiles 1 and 2 only, obeying gravity, with player 1 or 2 to move and some column open. The program starts the search only on such positions. With no open column, moves.get(0) fails in Java.
- Players.Search: maxDepth is a `nat`. A negative depth, which Java would accept and which searches until every line ends, is not modelled.
- Boards.Board.Valid: states only that the board is 7x7. Gravity and the tile values belong to the positions the search is given (`SearchPosition`), which Move and UndoMove keep by `DropKeepsGravity`, `LiftKeepsGravity`, `DropKeepsTiles` and `LiftKeepsTiles`. Arbitrary `move(p, c)` calls with other values of p are allowed, as in Java.
- Boards.Board.CheckColumn: the equivalence is stated only for the highest tile of a column owned by the player, which is the only way checkIfGameOver calls it.
- Boards.Board.CheckRow: the equivalence is stated only when the start cell is the player's, which is the only way checkIfGameOver calls it.
- Boards.Board.CheckDiagonal: the equivalence is stated only when the start cell is the player's, which is the only way checkIfGameOver calls it.
- Boards.Board.CheckIfGameOver: requires a non-empty column in range. On any other column Java indexes row -1 and throws.
- Boards.Board.GetBoard: returns the cells as a value instead of the array itself. Only the heuristic reads it, and it never writes it, so sharing the array is not modelled.
- The body of search's loop is split over three methods: Search, ScoreColumn (move, check, undo) and ValuePosition (the valuation). They make the same board operations in the same order as the Java loop, except that the move is appended to the list after the undo instead of before it; the list is local to search, so nothing observes the difference.
- The `Move(int)` constructor, which sets the value to 0.0 before it is overwritten, is folded into constructing `Move(column, value)` once the value is known.
