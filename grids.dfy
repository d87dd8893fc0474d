/**
 * The Connect Four grid as a value: 7 rows of 7 cells, indexed g[row][column],
 * row 0 at the bottom. A cell holds 0 (empty) or the number of the player whose
 * tile occupies it. This module is the specification the Board class and the
 * search are proved against.
 */
module Grids {

  /** Board.BOARD_SIZE: the board has this many rows and this many columns. */
  const N: nat := 7
  /** Board.CONNECT_GOAL: tiles in a line needed to win. */
  const ConnectGoal: nat := 4
  /** The highest row; a column is full when its cell in this row is occupied. */
  const TopRow: nat := N - 1

  type Grid = seq<seq<int>>

  predicate WellSized(g: Grid) {
    |g| == N && forall r :: 0 <= r < N ==> |g[r]| == N
  }

  predicate InBounds(r: int, c: int) {
    0 <= r < N && 0 <= c < N
  }

  /** Every cell is empty or holds a tile of player 1 or player 2. */
  predicate Tiles(g: Grid)
    requires WellSized(g)
  {
    forall r, c :: 0 <= r < N && 0 <= c < N ==> 0 <= g[r][c] <= 2
  }

  /** Gravity: above an empty cell the rest of its column is empty too, so the
      occupied cells of a column form one run starting at row 0. */
  predicate Gravity(g: Grid)
    requires WellSized(g)
  {
    forall r1, r2, c :: 0 <= r1 <= r2 < N && 0 <= c < N && g[r1][c] == 0 ==> g[r2][c] == 0
  }

  function EmptyGrid(): (g: Grid)
    ensures WellSized(g) && Gravity(g) && Tiles(g)
    ensures forall r, c :: InBounds(r, c) ==> g[r][c] == 0
  {
    seq(N, r => seq(N, c => 0))
  }

  /** Two well-sized grids that agree on every cell are equal. */
  lemma GridExt(g1: Grid, g2: Grid)
    requires WellSized(g1) && WellSized(g2)
    requires forall r, c :: InBounds(r, c) ==> g1[r][c] == g2[r][c]
    ensures g1 == g2
  {
    forall r | 0 <= r < N
      ensures g1[r] == g2[r]
    {
      assert forall c :: 0 <= c < N ==> g1[r][c] == g2[r][c];
    }
  }

  // ---------------------------------------------------------------------------
  // Columns: where the next tile lands and which tile came last
  // ---------------------------------------------------------------------------

  predicate ColumnOpen(g: Grid, c: int)
    requires WellSized(g)
  {
    0 <= c < N && exists r :: 0 <= r < N && g[r][c] == 0
  }

  predicate ColumnNonEmpty(g: Grid, c: int)
    requires WellSized(g)
  {
    0 <= c < N && exists r :: 0 <= r < N && g[r][c] != 0
  }

  predicate HasOpenColumn(g: Grid)
    requires WellSized(g)
  {
    exists c :: 0 <= c < N && ColumnOpen(g, c)
  }

  /** The lowest empty row of column c at or above row i, or -1. */
  function LowestEmptyFrom(g: Grid, c: int, i: int): (r: int)
    requires WellSized(g) && 0 <= c < N && 0 <= i <= N
    ensures r == -1 <==> forall k :: i <= k < N ==> g[k][c] != 0
    ensures r != -1 ==> i <= r < N && g[r][c] == 0 && forall k :: i <= k < r ==> g[k][c] != 0
    decreases N - i
  {
    if i == N then -1
    else if g[i][c] == 0 then i
    else LowestEmptyFrom(g, c, i + 1)
  }

  /** Board.getFirstEmptySlot: the lowest empty row of column c; -1 when the
      column is full or out of range. */
  function FirstEmptySlot(g: Grid, c: int): (r: int)
    requires WellSized(g)
    ensures r == -1 <==> !ColumnOpen(g, c)
    ensures r != -1 ==> 0 <= r < N && g[r][c] == 0 && forall k :: 0 <= k < r ==> g[k][c] != 0
  {
    if c < 0 || c >= N then -1 else LowestEmptyFrom(g, c, 0)
  }

  /** The highest occupied row of column c at or below row i, or -1. */
  function HighestTileFrom(g: Grid, c: int, i: int): (r: int)
    requires WellSized(g) && 0 <= c < N && -1 <= i < N
    ensures r == -1 <==> forall k :: 0 <= k <= i ==> g[k][c] == 0
    ensures r != -1 ==> 0 <= r <= i && g[r][c] != 0 && forall k :: r < k <= i ==> g[k][c] == 0
    decreases i + 1
  {
    if i == -1 then -1
    else if g[i][c] != 0 then i
    else HighestTileFrom(g, c, i - 1)
  }

  /** Board.getLastMoveRow: the highest occupied row of column c; -1 when the
      column is empty or out of range. */
  function LastMoveRow(g: Grid, c: int): (r: int)
    requires WellSized(g)
    ensures r == -1 <==> !ColumnNonEmpty(g, c)
    ensures r != -1 ==> 0 <= r < N && g[r][c] != 0 && forall k :: r < k < N ==> g[k][c] == 0
  {
    if c < 0 || c >= N then -1 else HighestTileFrom(g, c, N - 1)
  }

  /** Board.move on an open column: tile p lands in the lowest empty row. */
  function Drop(g: Grid, p: int, c: int): (d: Grid)
    requires WellSized(g) && ColumnOpen(g, c)
    ensures WellSized(d)
    ensures d[FirstEmptySlot(g, c)][c] == p
    ensures forall r, k :: InBounds(r, k) && (r, k) != (FirstEmptySlot(g, c), c) ==> d[r][k] == g[r][k]
  {
    var r := FirstEmptySlot(g, c);
    g[r := g[r][c := p]]
  }

  /** Board.undoMove on a non-empty column: the highest tile is removed. */
  function Lift(g: Grid, c: int): (d: Grid)
    requires WellSized(g) && ColumnNonEmpty(g, c)
    ensures WellSized(d)
    ensures d[LastMoveRow(g, c)][c] == 0
    ensures forall r, k :: InBounds(r, k) && (r, k) != (LastMoveRow(g, c), c) ==> d[r][k] == g[r][k]
  {
    var r := LastMoveRow(g, c);
    g[r := g[r][c := 0]]
  }

  /** Under gravity the highest tile of column c sits right below its lowest empty cell. */
  lemma TopMeetsBottom(g: Grid, c: int)
    requires WellSized(g) && Gravity(g) && 0 <= c < N
    ensures FirstEmptySlot(g, c) == if ColumnOpen(g, c) then LastMoveRow(g, c) + 1 else -1
    ensures LastMoveRow(g, c) == if ColumnNonEmpty(g, c) then (if ColumnOpen(g, c) then FirstEmptySlot(g, c) else N) - 1 else -1
  {
    var e, t := FirstEmptySlot(g, c), LastMoveRow(g, c);
    if e != -1 && t != -1 {
      assert g[t][c] != 0;
      assert t < e;
    }
    if e == -1 && t != -1 {
      assert g[TopRow][c] != 0;
    }
  }

  lemma DropKeepsGravity(g: Grid, p: int, c: int)
    requires WellSized(g) && Gravity(g) && ColumnOpen(g, c)
    ensures Gravity(Drop(g, p, c))
  {
  }

  lemma LiftKeepsGravity(g: Grid, c: int)
    requires WellSized(g) && Gravity(g) && ColumnNonEmpty(g, c)
    ensures Gravity(Lift(g, c))
  {
  }

  lemma DropKeepsTiles(g: Grid, p: int, c: int)
    requires WellSized(g) && Tiles(g) && ColumnOpen(g, c) && (p == 1 || p == 2)
    ensures Tiles(Drop(g, p, c))
  {
  }

  lemma LiftKeepsTiles(g: Grid, c: int)
    requires WellSized(g) && Tiles(g) && ColumnNonEmpty(g, c)
    ensures Tiles(Lift(g, c))
  {
  }

  /** Undoing a move restores the grid: under gravity the tile just dropped is
      the highest of its column, so undo removes exactly that tile. */
  lemma LiftDrop(g: Grid, p: int, c: int)
    requires WellSized(g) && Gravity(g) && ColumnOpen(g, c) && p != 0
    ensures ColumnNonEmpty(Drop(g, p, c), c)
    ensures LastMoveRow(Drop(g, p, c), c) == FirstEmptySlot(g, c)
    ensures Lift(Drop(g, p, c), c) == g
  {
    var r := FirstEmptySlot(g, c);
    var d := Drop(g, p, c);
    assert d[r][c] != 0;
    assert forall k :: r < k < N ==> d[k][c] == 0;
    GridExt(Lift(d, c), g);
  }

  /** Replaying the undone tile restores the grid as well. */
  lemma DropLift(g: Grid, c: int)
    requires WellSized(g) && Gravity(g) && ColumnNonEmpty(g, c)
    ensures ColumnOpen(Lift(g, c), c)
    ensures Drop(Lift(g, c), g[LastMoveRow(g, c)][c], c) == g
  {
    var t := LastMoveRow(g, c);
    var u := Lift(g, c);
    assert u[t][c] == 0;
    assert FirstEmptySlot(u, c) == t;
    GridExt(Drop(u, g[t][c], c), g);
  }

  /** The top row is full exactly when no column is open (under gravity the
      board is then full). */
  predicate TopRowFull(g: Grid)
    requires WellSized(g)
  {
    forall c :: 0 <= c < N ==> g[TopRow][c] != 0
  }

  lemma TopRowFullMeansNoOpenColumn(g: Grid)
    requires WellSized(g) && Gravity(g)
    ensures TopRowFull(g) <==> !HasOpenColumn(g)
  {
    if !TopRowFull(g) {
      var c :| 0 <= c < N && g[TopRow][c] == 0;
      assert ColumnOpen(g, c);
    } else {
      forall c | 0 <= c < N
        ensures !ColumnOpen(g, c)
      {
        assert g[TopRow][c] != 0;
      }
    }
  }

  // ---------------------------------------------------------------------------
  // Lines of tiles
  // ---------------------------------------------------------------------------

  /** A direction (dr, dc) moves one row and/or one column at a time. */
  predicate IsDirection(dr: int, dc: int) {
    -1 <= dr <= 1 && -1 <= dc <= 1 && (dr != 0 || dc != 0)
  }

  /** The coordinate i steps away from x along step d (i may be negative). */
  function Step(x: int, d: int, i: int): int {
    if d == 1 then x + i else if d == -1 then x - i else x
  }

  predicate Owns(g: Grid, r: int, c: int, p: int)
    requires WellSized(g)
  {
    InBounds(r, c) && g[r][c] == p
  }

  /** The cell i steps away from (r, c) along (dr, dc) is on the board and p's. */
  predicate OwnsAt(g: Grid, r: int, c: int, dr: int, dc: int, p: int, i: int)
    requires WellSized(g)
  {
    Owns(g, Step(r, dr, i), Step(c, dc, i), p)
  }

  /** The number of consecutive cells owned by p starting at (r, c) and walking
      along (dr, dc) until the edge of the board or another cell. */
  function Run(g: Grid, r: int, c: int, dr: int, dc: int, p: int): nat
    requires WellSized(g) && IsDirection(dr, dc)
    decreases if dr == 1 then N - r else if dr == -1 then r + 1 else if dc == 1 then N - c else c + 1
  {
    if Owns(g, r, c, p) then 1 + Run(g, r + dr, c + dc, dr, dc, p) else 0
  }

  /** The first Run(...) cells are p's, the next one is not. */
  lemma {:induction false} RunCells(g: Grid, r: int, c: int, dr: int, dc: int, p: int, i: nat)
    requires WellSized(g) && IsDirection(dr, dc)
    ensures i < Run(g, r, c, dr, dc, p) ==> OwnsAt(g, r, c, dr, dc, p, i)
    ensures i == Run(g, r, c, dr, dc, p) ==> !OwnsAt(g, r, c, dr, dc, p, i)
    decreases i
  {
    if i > 0 && Owns(g, r, c, p) {
      RunCells(g, r + dr, c + dc, dr, dc, p, i - 1);
      assert Step(r + dr, dr, i - 1) == Step(r, dr, i) && Step(c + dc, dc, i - 1) == Step(c, dc, i);
    }
  }

  /** Walking backward from the cell before (r, c) visits the negative offsets. */
  lemma BackStep(g: Grid, r: int, c: int, dr: int, dc: int, p: int, j: int)
    requires WellSized(g) && IsDirection(dr, dc)
    ensures OwnsAt(g, r - dr, c - dc, -dr, -dc, p, j) == OwnsAt(g, r, c, dr, dc, p, -(j + 1))
  {
    assert Step(r - dr, -dr, j) == Step(r, dr, -(j + 1));
    assert Step(c - dc, -dc, j) == Step(c, dc, -(j + 1));
  }

  /** The ConnectGoal (= 4) cells at offsets -k .. 3-k from (r, c) along
      (dr, dc) are on the board and all owned by p. */
  predicate Window(g: Grid, r: int, c: int, dr: int, dc: int, p: int, k: int)
    requires WellSized(g)
  {
    OwnsAt(g, r, c, dr, dc, p, -k) && OwnsAt(g, r, c, dr, dc, p, 1 - k) &&
    OwnsAt(g, r, c, dr, dc, p, 2 - k) && OwnsAt(g, r, c, dr, dc, p, 3 - k)
  }

  /** Some line of four p tiles along (dr, dc) passes through (r, c). */
  predicate LineThrough(g: Grid, r: int, c: int, dr: int, dc: int, p: int)
    requires WellSized(g)
  {
    exists k :: 0 <= k < ConnectGoal && Window(g, r, c, dr, dc, p, k)
  }

  /** The four windows a line through (r, c) can occupy. */
  lemma LineThroughWindows(g: Grid, r: int, c: int, dr: int, dc: int, p: int)
    requires WellSized(g)
    ensures LineThrough(g, r, c, dr, dc, p) <==>
      Window(g, r, c, dr, dc, p, 0) || Window(g, r, c, dr, dc, p, 1) ||
      Window(g, r, c, dr, dc, p, 2) || Window(g, r, c, dr, dc, p, 3)
  {
    if LineThrough(g, r, c, dr, dc, p) {
      var k :| 0 <= k < ConnectGoal && Window(g, r, c, dr, dc, p, k);
      assert k == 0 || k == 1 || k == 2 || k == 3;
    }
  }

  /** The four line directions, as (DirRow(d), DirColumn(d)) for d = 0 .. 3:
      vertical, horizontal, rising diagonal, falling diagonal. */
  function DirRow(d: int): int {
    if d == 1 then 0 else 1
  }

  function DirColumn(d: int): int {
    if d == 0 then 0 else if d == 3 then -1 else 1
  }

  /** p has four in a row through (r, c) in one of the four directions. */
  predicate WinThrough(g: Grid, r: int, c: int, p: int)
    requires WellSized(g)
  {
    exists d :: 0 <= d < 4 && LineThrough(g, r, c, DirRow(d), DirColumn(d), p)
  }

  /** The four directions written out: vertically, horizontally, or on either
      diagonal. */
  lemma WinThroughDirections(g: Grid, r: int, c: int, p: int)
    requires WellSized(g)
    ensures WinThrough(g, r, c, p) <==>
      LineThrough(g, r, c, 1, 0, p) || LineThrough(g, r, c, 0, 1, p) ||
      LineThrough(g, r, c, 1, 1, p) || LineThrough(g, r, c, 1, -1, p)
  {
    if WinThrough(g, r, c, p) {
      var d :| 0 <= d < 4 && LineThrough(g, r, c, DirRow(d), DirColumn(d), p);
      assert d == 0 || d == 1 || d == 2 || d == 3;
    }
    assert DirRow(0) == 1 && DirColumn(0) == 0 && DirRow(1) == 0 && DirColumn(1) == 1;
    assert DirRow(2) == 1 && DirColumn(2) == 1 && DirRow(3) == 1 && DirColumn(3) == -1;
  }

  /** A line through a cell is a line whichever way it is walked. */
  lemma LineThroughReversed(g: Grid, r: int, c: int, dr: int, dc: int, p: int)
    requires WellSized(g)
    ensures LineThrough(g, r, c, dr, dc, p) <==> LineThrough(g, r, c, -dr, -dc, p)
  {
    forall k | 0 <= k < ConnectGoal
      ensures Window(g, r, c, dr, dc, p, k) == Window(g, r, c, -dr, -dc, p, 3 - k)
    {
      forall i ensures OwnsAt(g, r, c, dr, dc, p, i) == OwnsAt(g, r, c, -dr, -dc, p, -i) {
        assert Step(r, dr, i) == Step(r, -dr, -i) && Step(c, dc, i) == Step(c, -dc, -i);
      }
    }
    LineThroughWindows(g, r, c, dr, dc, p);
    LineThroughWindows(g, r, c, -dr, -dc, p);
  }

  /** The counting argument behind the local scan, for any cells f: a forward
      run of length a from offset 0 and a backward run of length b from
      offset -1 together reach 4 exactly when some window of four consecutive
      offsets containing 0 is all f. */
  lemma RunsSpanWindow(a: nat, b: nat, f: int -> bool)
    requires f(0)
    requires (1 < a ==> f(1)) && (2 < a ==> f(2)) && (3 < a ==> f(3))
    requires (a == 1 ==> !f(1)) && (a == 2 ==> !f(2)) && (a == 3 ==> !f(3)) && a != 0
    requires (0 < b ==> f(-1)) && (1 < b ==> f(-2)) && (2 < b ==> f(-3))
    requires (b == 0 ==> !f(-1)) && (b == 1 ==> !f(-2)) && (b == 2 ==> !f(-3))
    ensures a + b >= 4 <==>
      (f(0) && f(1) && f(2) && f(3)) || (f(-1) && f(0) && f(1) && f(2)) ||
      (f(-2) && f(-1) && f(0) && f(1)) || (f(-3) && f(-2) && f(-1) && f(0))
  {
  }

  /** What the forward run says about offsets 0 .. 3. */
  lemma ForwardRunCells(g: Grid, r: int, c: int, dr: int, dc: int, p: int)
    requires WellSized(g) && IsDirection(dr, dc)
    ensures var a := Run(g, r, c, dr, dc, p);
      (0 < a ==> OwnsAt(g, r, c, dr, dc, p, 0)) && (1 < a ==> OwnsAt(g, r, c, dr, dc, p, 1)) &&
      (2 < a ==> OwnsAt(g, r, c, dr, dc, p, 2)) && (3 < a ==> OwnsAt(g, r, c, dr, dc, p, 3)) &&
      (a == 0 ==> !OwnsAt(g, r, c, dr, dc, p, 0)) && (a == 1 ==> !OwnsAt(g, r, c, dr, dc, p, 1)) &&
      (a == 2 ==> !OwnsAt(g, r, c, dr, dc, p, 2)) && (a == 3 ==> !OwnsAt(g, r, c, dr, dc, p, 3))
  {
    RunCells(g, r, c, dr, dc, p, 0);
    RunCells(g, r, c, dr, dc, p, 1);
    RunCells(g, r, c, dr, dc, p, 2);
    RunCells(g, r, c, dr, dc, p, 3);
  }

  /** What the backward run from the cell before (r, c) says about offsets -1 .. -3. */
  lemma BackwardRunCells(g: Grid, r: int, c: int, dr: int, dc: int, p: int)
    requires WellSized(g) && IsDirection(dr, dc)
    ensures var b := Run(g, r - dr, c - dc, -dr, -dc, p);
      (0 < b ==> OwnsAt(g, r, c, dr, dc, p, -1)) && (1 < b ==> OwnsAt(g, r, c, dr, dc, p, -2)) &&
      (2 < b ==> OwnsAt(g, r, c, dr, dc, p, -3)) &&
      (b == 0 ==> !OwnsAt(g, r, c, dr, dc, p, -1)) && (b == 1 ==> !OwnsAt(g, r, c, dr, dc, p, -2)) &&
      (b == 2 ==> !OwnsAt(g, r, c, dr, dc, p, -3))
  {
    RunCells(g, r - dr, c - dc, -dr, -dc, p, 0);
    RunCells(g, r - dr, c - dc, -dr, -dc, p, 1);
    RunCells(g, r - dr, c - dc, -dr, -dc, p, 2);
    BackStep(g, r, c, dr, dc, p, 0);
    BackStep(g, r, c, dr, dc, p, 1);
    BackStep(g, r, c, dr, dc, p, 2);
  }

  /** The local scan is exact: counting p's tiles forward from (r, c) and
      backward from the cell before it reaches ConnectGoal exactly when a line
      of four p tiles along that direction passes through (r, c). */
  lemma TwoRunsSpanLine(g: Grid, r: int, c: int, dr: int, dc: int, p: int)
    requires WellSized(g) && IsDirection(dr, dc) && Owns(g, r, c, p)
    ensures Run(g, r, c, dr, dc, p) + Run(g, r - dr, c - dc, -dr, -dc, p) >= ConnectGoal
            <==> LineThrough(g, r, c, dr, dc, p)
  {
    var a, b := Run(g, r, c, dr, dc, p), Run(g, r - dr, c - dc, -dr, -dc, p);
    ForwardRunCells(g, r, c, dr, dc, p);
    BackwardRunCells(g, r, c, dr, dc, p);
    assert OwnsAt(g, r, c, dr, dc, p, 0);
    RunsSpanWindow(a, b, i => OwnsAt(g, r, c, dr, dc, p, i));
    LineThroughWindows(g, r, c, dr, dc, p);
  }

  /** The vertical check only walks down: above the highest tile of a column
      there is nothing of p's, so the downward run alone decides the line. */
  lemma DownRunSpansLine(g: Grid, r: int, c: int, p: int)
    requires WellSized(g) && Owns(g, r, c, p) && !Owns(g, r + 1, c, p)
    ensures Run(g, r, c, -1, 0, p) >= ConnectGoal <==> LineThrough(g, r, c, 1, 0, p)
  {
    assert Run(g, r + 1, c, 1, 0, p) == 0;
    TwoRunsSpanLine(g, r, c, -1, 0, p);
    LineThroughReversed(g, r, c, 1, 0, p);
  }

  // ---------------------------------------------------------------------------
  // Board.checkIfGameOver
  // ---------------------------------------------------------------------------

  /** The outcome after the last tile went into column c: the owner p of the
      highest tile of c if p has four in a row through it, otherwise 0 when the
      top row is full (a tie) and -1 when the game goes on. */
  function GameStatus(g: Grid, c: int): int
    requires WellSized(g) && ColumnNonEmpty(g, c)
  {
    var r := LastMoveRow(g, c);
    var p := g[r][c];
    if WinThrough(g, r, c, p) then p
    else if TopRowFull(g) then 0
    else -1
  }

  /** GameStatus once the line tests through the highest tile are decided. */
  lemma GameStatusFromLines(g: Grid, c: int, r: int, p: int, win: bool)
    requires WellSized(g) && ColumnNonEmpty(g, c) && r == LastMoveRow(g, c) && p == g[r][c]
    requires win == (LineThrough(g, r, c, 1, 0, p) || LineThrough(g, r, c, 0, 1, p) ||
                     LineThrough(g, r, c, 1, 1, p) || LineThrough(g, r, c, 1, -1, p))
    ensures GameStatus(g, c) == if win then p else if TopRowFull(g) then 0 else -1
  {
    WinThroughDirections(g, r, c, p);
  }

  /** The encoding of GameStatus: -1 (going on), 0 (tie) or the winner, who owns
      the highest tile of the column; on a board of tiles 1 and 2 the codes
      never clash, and a game that goes on leaves a column open. */
  lemma GameStatusCodes(g: Grid, c: int)
    requires WellSized(g) && Tiles(g) && ColumnNonEmpty(g, c)
    ensures var s := GameStatus(g, c);
      (s == -1 || s == 0 || s == g[LastMoveRow(g, c)][c]) &&
      (s >= 1 <==> WinThrough(g, LastMoveRow(g, c), c, g[LastMoveRow(g, c)][c])) &&
      (s == 0 <==> !WinThrough(g, LastMoveRow(g, c), c, g[LastMoveRow(g, c)][c]) && TopRowFull(g)) &&
      (s == -1 ==> HasOpenColumn(g))
  {
    if GameStatus(g, c) == -1 {
      var k :| 0 <= k < N && g[TopRow][k] == 0;
      assert ColumnOpen(g, k);
    }
  }
}
