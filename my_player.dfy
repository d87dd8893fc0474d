/**
 * MyPlayer.java: the depth-limited negamax search over the shared Board,
 * proved to compute Negamax(...) and to hand the board back unchanged, and
 * the weighted table of cell values.
 */
module Players {
  import opened Grids
  import opened Boards
  import opened GameTree

  /** The depth chooseMove searches to. */
  const SearchDepth: nat := 7

  /** getBestMove: keep the first move whose value beats the best so far,
      starting from -1.0 with the first move in hand. */
  method GetBestMove(moves: seq<Move>) returns (bestMove: Move)
    requires |moves| > 0
    ensures bestMove == moves[BestIndex(moves)]
  {
    var max := -1.0;
    bestMove := moves[0];
    ghost var k := 0;
    for i := 0 to |moves|
      invariant ScanState(moves, i, max, k) && bestMove == moves[k]
      invariant BestFrom(moves, i, max, k) == BestIndex(moves)
    {
      var cm := moves[i];
      if cm.value > max {
        max := cm.value;
        bestMove := cm;
        k := i;
      }
    }
  }

  /** search: try every open column in turn, score it and take the tile back,
      then pick the best candidate. The board is the one shared by every level
      of the recursion; it is handed back exactly as it was received. */
  method Search(ev: Evaluator, gameBoard: Board, maxDepth: nat, playerNumber: int) returns (best: Move)
    requires gameBoard.Valid() && SearchPosition(gameBoard.Grid(), playerNumber)
    requires HasOpenColumn(gameBoard.Grid())
    modifies gameBoard.cells
    ensures gameBoard.Valid() && gameBoard.Grid() == old(gameBoard.Grid())
    ensures best == Negamax(ev, old(gameBoard.Grid()), maxDepth, playerNumber)
    decreases maxDepth, 2
  {
    ghost var g := gameBoard.Grid();
    var moves: seq<Move> := [];
    for i := 0 to N
      invariant gameBoard.Valid() && gameBoard.Grid() == g
      invariant moves == Candidates(ev, g, maxDepth, playerNumber, i)
    {
      CandidatesStep(ev, g, maxDepth, playerNumber, i);
      var open := gameBoard.IsColumnOpen(i);
      if !open {
        continue;
      }
      var value := ScoreColumn(ev, gameBoard, maxDepth, playerNumber, i);
      moves := moves + [Move(i, value)];
    }
    OpenBelowN(g);
    CandidatesNonEmpty(ev, g, maxDepth, playerNumber, N);
    best := GetBestMove(moves);
  }

  /** The body of search's loop for one open column: drop the tile, value the
      position it makes, and take the tile back. */
  method ScoreColumn(ev: Evaluator, gameBoard: Board, maxDepth: nat, playerNumber: int, column: int) returns (value: real)
    requires gameBoard.Valid() && SearchPosition(gameBoard.Grid(), playerNumber)
    requires ColumnOpen(gameBoard.Grid(), column)
    modifies gameBoard.cells
    ensures gameBoard.Valid() && gameBoard.Grid() == old(gameBoard.Grid())
    ensures value == Score(ev, old(gameBoard.Grid()), maxDepth, playerNumber, column)
    decreases maxDepth, 1
  {
    ghost var g := gameBoard.Grid();
    LiftDrop(g, playerNumber, column);
    var placed := gameBoard.Move(playerNumber, column);
    var gameStatus := gameBoard.CheckIfGameOver(column);
    value := ValuePosition(ev, gameBoard, maxDepth, playerNumber, gameStatus, g, column);
    placed := gameBoard.UndoMove(column);
  }

  /** The valuation of the position p's drop into column of g made, given its
      status code: the end of the game (0 for a tie, 1 when the mover won, -1
      otherwise), the heuristic at depth 0, or the negated best reply of the
      opponent found by a search one level shallower, which leaves the board as
      it found it. This is the Score of the column. */
  method ValuePosition(ev: Evaluator, gameBoard: Board, maxDepth: nat, playerNumber: int, gameStatus: int,
                       ghost g: Grid, ghost column: int) returns (value: real)
    requires gameBoard.Valid() && SearchPosition(g, playerNumber) && ColumnOpen(g, column)
    requires gameBoard.Grid() == Drop(g, playerNumber, column)
    requires ColumnNonEmpty(Drop(g, playerNumber, column), column)
    requires gameStatus == GameStatus(Drop(g, playerNumber, column), column)
    modifies gameBoard.cells
    ensures gameBoard.Valid() && gameBoard.Grid() == old(gameBoard.Grid())
    ensures value == Score(ev, g, maxDepth, playerNumber, column)
    decreases maxDepth, 0
  {
    DropForOpponent(g, playerNumber, column);
    if gameStatus >= 0 {
      if gameStatus == 0 {
        value := 0.0;
      } else if gameStatus == playerNumber {
        value := 1.0;
      } else {
        value := -1.0;
      }
    } else if maxDepth == 0 {
      var grid := gameBoard.GetBoard();
      value := Heuristic(ev, grid, playerNumber);
    } else {
      var responseMove := Search(ev, gameBoard, maxDepth - 1, if playerNumber == 1 then 2 else 1);
      value := -responseMove.value;
    }
    ScoreByStatus(ev, g, maxDepth, playerNumber, column, gameStatus, value);
  }

  /** chooseMove without its timing and printing: a search of depth
      SearchDepth for playerNumber, answering the column of the best move. */
  method ChooseMove(ev: Evaluator, gameBoard: Board, playerNumber: int) returns (column: int)
    requires gameBoard.Valid() && SearchPosition(gameBoard.Grid(), playerNumber)
    requires HasOpenColumn(gameBoard.Grid())
    modifies gameBoard.cells
    ensures gameBoard.Valid() && gameBoard.Grid() == old(gameBoard.Grid())
    ensures ColumnOpen(gameBoard.Grid(), column)
    ensures column == Negamax(ev, gameBoard.Grid(), SearchDepth, playerNumber).column
  {
    var bestMove := Search(ev, gameBoard, SearchDepth, playerNumber);
    column := bestMove.column;
    NegamaxValue(ev, gameBoard.Grid(), SearchDepth, playerNumber);
  }

  /** The turn loop of Game hands the player a copy of the game board: the
      search runs on the copy and the game board itself is left alone. */
  method ChooseMoveOnCopy(ev: Evaluator, gameBoard: Board, playerNumber: int) returns (column: int)
    requires gameBoard.Valid() && SearchPosition(gameBoard.Grid(), playerNumber)
    requires HasOpenColumn(gameBoard.Grid())
    ensures ColumnOpen(gameBoard.Grid(), column)
    ensures column == Negamax(ev, gameBoard.Grid(), SearchDepth, playerNumber).column
  {
    var copy := new Board.Copy(gameBoard);
    column := ChooseMove(ev, copy, playerNumber);
  }

  // ---------------------------------------------------------------------------
  // weightedTable
  // ---------------------------------------------------------------------------

  /** weightedTable: the weight of each cell, by row and column. */
  const WeightedTable: seq<seq<int>> := [
    [3, 4, 5, 7, 5, 4, 3],
    [4, 6, 8, 10, 8, 6, 4],
    [5, 8, 11, 13, 11, 8, 5],
    [7, 10, 13, 16, 13, 10, 7],
    [5, 8, 11, 13, 11, 8, 5],
    [4, 6, 8, 10, 8, 6, 4],
    [3, 4, 5, 7, 5, 4, 3]
  ]

  /** The window of four cells at offsets -k .. 3-k from (r, c) along (dr, dc)
      lies on the board: both of its end cells are on it, and so then are the
      two between them. These are the cells Window(g, r, c, dr, dc, p, k) looks at. */
  predicate WindowOnBoard(r: int, c: int, dr: int, dc: int, k: int) {
    InBounds(Step(r, dr, -k), Step(c, dc, -k)) && InBounds(Step(r, dr, 3 - k), Step(c, dc, 3 - k))
  }

  /** A line of four can only lie in a window on the board. */
  lemma WindowIsOnBoard(g: Grid, r: int, c: int, dr: int, dc: int, p: int, k: int)
    requires WellSized(g) && Window(g, r, c, dr, dc, p, k)
    ensures WindowOnBoard(r, c, dr, dc, k)
  {
  }

  /** Every cell of a window on the board is on the board. */
  lemma WindowCellsOnBoard(r: int, c: int, dr: int, dc: int, k: int, i: int)
    requires IsDirection(dr, dc) && WindowOnBoard(r, c, dr, dc, k) && -k <= i <= 3 - k
    ensures InBounds(Step(r, dr, i), Step(c, dc, i))
  {
  }

  function Indicator(b: bool): int {
    if b then 1 else 0
  }

  /** The number of windows of four along (dr, dc) on the board that contain (r, c). */
  function WindowsAlong(r: int, c: int, dr: int, dc: int): int {
    Indicator(WindowOnBoard(r, c, dr, dc, 0)) + Indicator(WindowOnBoard(r, c, dr, dc, 1)) +
    Indicator(WindowOnBoard(r, c, dr, dc, 2)) + Indicator(WindowOnBoard(r, c, dr, dc, 3))
  }

  /** The number of windows of four on the board, in any of the four
      directions, that contain (r, c). */
  function WindowsThrough(r: int, c: int): int {
    WindowsAlong(r, c, 1, 0) + WindowsAlong(r, c, 0, 1) + WindowsAlong(r, c, 1, 1) + WindowsAlong(r, c, 1, -1)
  }

  /** The number of offsets k in 0 .. 3 for which both x-k .. x+3-k and
      y-k .. y+3-k lie within 0 .. N-1: windows along a line whose two
      coordinates both climb by one per step, through coordinates x and y. */
  function SharedWindows(x: int, y: int): int {
    Indicator(0 <= x && x + 3 < N && 0 <= y && y + 3 < N) +
    Indicator(1 <= x && x + 2 < N && 1 <= y && y + 2 < N) +
    Indicator(2 <= x && x + 1 < N && 2 <= y && y + 1 < N) +
    Indicator(3 <= x && x < N && 3 <= y && y < N)
  }

  /** Vertical windows through an on-board cell depend on its row alone. */
  lemma VerticalWindows(r: int, c: int)
    requires InBounds(r, c)
    ensures WindowsAlong(r, c, 1, 0) == SharedWindows(r, r)
  {
  }

  /** Horizontal windows through an on-board cell depend on its column alone. */
  lemma HorizontalWindows(r: int, c: int)
    requires InBounds(r, c)
    ensures WindowsAlong(r, c, 0, 1) == SharedWindows(c, c)
  {
  }

  /** Rising diagonal windows climb in the row and the column at once. */
  lemma RisingWindows(r: int, c: int)
    ensures WindowsAlong(r, c, 1, 1) == SharedWindows(r, c)
  {
  }

  /** Falling diagonal windows climb in the row and in the mirrored column. */
  lemma FallingWindows(r: int, c: int)
    ensures WindowsAlong(r, c, 1, -1) == SharedWindows(r, N - 1 - c)
  {
  }

  /** The windows through (r, c) counted direction by direction in closed form. */
  function SharedWindowsThrough(r: int, c: int): int {
    SharedWindows(r, r) + SharedWindows(c, c) + SharedWindows(r, c) + SharedWindows(r, N - 1 - c)
  }

  /** The closed form counts the windows through every cell of the board. */
  lemma SharedWindowsCount(r: int, c: int)
    requires InBounds(r, c)
    ensures WindowsThrough(r, c) == SharedWindowsThrough(r, c)
  {
    VerticalWindows(r, c);
    HorizontalWindows(r, c);
    RisingWindows(r, c);
    FallingWindows(r, c);
  }

  /** The table, entry by entry, against the closed form. */
  lemma WeightedTableEntries()
    ensures |WeightedTable| == N && forall r :: 0 <= r < N ==> |WeightedTable[r]| == N
    ensures forall r, c :: InBounds(r, c) ==> WeightedTable[r][c] == SharedWindowsThrough(r, c)
  {
    forall r, c | InBounds(r, c)
      ensures WeightedTable[r][c] == SharedWindowsThrough(r, c)
    {
      assert r == 0 || r == 1 || r == 2 || r == 3 || r == 4 || r == 5 || r == 6;
      assert c == 0 || c == 1 || c == 2 || c == 3 || c == 4 || c == 5 || c == 6;
    }
  }

  /** Every entry of the table is the number of combinations of four the cell
      can be part of. */
  lemma WeightedTableCountsWindows()
    ensures |WeightedTable| == N && forall r :: 0 <= r < N ==> |WeightedTable[r]| == N
    ensures forall r, c :: InBounds(r, c) ==> WeightedTable[r][c] == WindowsThrough(r, c)
  {
    WeightedTableEntries();
    forall r, c | InBounds(r, c)
      ensures WeightedTable[r][c] == WindowsThrough(r, c)
    {
      SharedWindowsCount(r, c);
    }
  }
}
