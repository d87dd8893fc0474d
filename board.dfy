/**
 * Board.java: the game board as an object whose 7x7 int array is updated in
 * place. Every method is specified against the grid value Grid() and the
 * functions of module Grids.
 */
module Boards {
  import opened Grids

  class Board {
    /** board[row][column] of the Java class; row 0 is the bottom. */
    var cells: array2<int>

    /** The board is 7x7. (That its columns obey gravity is a property of the
        positions the search is given, SearchPosition, which Move and UndoMove
        keep by DropKeepsGravity and LiftKeepsGravity.) */
    predicate Valid()
      reads this
    {
      cells.Length0 == N && cells.Length1 == N
    }

    /** The contents of the board as a value. It is chosen by its cell-wise
        ensures rather than built, so that callers reason about cells only and
        never about how the sequence is put together. */
    ghost function Grid(): (g: Grid)
      reads this, cells
      requires cells.Length0 == N && cells.Length1 == N
      ensures WellSized(g)
      ensures forall r, c :: InBounds(r, c) ==> g[r][c] == cells[r, c]
    {
      CellsAsGrid(cells);
      var g :| WellSized(g) && forall r, c :: InBounds(r, c) ==> g[r][c] == cells[r, c];
      g
    }

    /** A 7x7 array is read by the grid of its cells. */
    static lemma CellsAsGrid(a: array2<int>)
      requires a.Length0 == N && a.Length1 == N
      ensures exists g: Grid :: WellSized(g) && forall r, c :: InBounds(r, c) ==> g[r][c] == a[r, c]
    {
      var w := seq(N, r requires 0 <= r < N reads a => seq(N, c requires 0 <= c < N reads a => a[r, c]));
      assert WellSized(w) && forall r, c :: InBounds(r, c) ==> w[r][c] == a[r, c];
    }

    /** getBoard: the cells of the board, handed out as a value. */
    method GetBoard() returns (g: Grid)
      requires Valid()
      ensures g == Grid()
    {
      var a := cells;
      g := seq(N, r requires 0 <= r < N reads a => seq(N, c requires 0 <= c < N reads a => a[r, c]));
      GridExt(g, Grid());
    }

    /** Board(): an empty board. */
    constructor ()
      ensures Valid() && fresh(cells)
      ensures Grid() == EmptyGrid()
    {
      var a := new int[N, N];
      for i := 0 to N
        invariant forall r, c :: 0 <= r < i && 0 <= c < N ==> a[r, c] == 0
      {
        for j := 0 to N
          invariant forall r, c :: 0 <= r < i && 0 <= c < N ==> a[r, c] == 0
          invariant forall c :: 0 <= c < j ==> a[i, c] == 0
        {
          a[i, j] := 0;
        }
      }
      cells := a;
      new;
      GridExt(Grid(), EmptyGrid());
    }

    /** Board(Board toCopy): a board with the same cells in a fresh array, so
        that later moves on either board leave the other unchanged. */
    constructor Copy(toCopy: Board)
      requires toCopy.Valid()
      ensures Valid() && fresh(cells)
      ensures Grid() == toCopy.Grid()
    {
      var a := new int[N, N];
      for i := 0 to N
        invariant forall r, c :: 0 <= r < i && 0 <= c < N ==> a[r, c] == toCopy.cells[r, c]
      {
        for j := 0 to N
          invariant forall r, c :: 0 <= r < i && 0 <= c < N ==> a[r, c] == toCopy.cells[r, c]
          invariant forall c :: 0 <= c < j ==> a[i, c] == toCopy.cells[i, c]
        {
          a[i, j] := toCopy.cells[i, j];
        }
      }
      cells := a;
      new;
      GridExt(Grid(), toCopy.Grid());
    }

    /** getFirstEmptySlot: scan column upward from row 0 for the first 0. */
    method GetFirstEmptySlot(column: int) returns (row: int)
      requires Valid()
      ensures row == FirstEmptySlot(Grid(), column)
    {
      if column < 0 || column >= N {
        return -1;
      }
      row := -1;
      var i := 0;
      while i < N
        invariant 0 <= i <= N
        invariant forall k :: 0 <= k < i ==> cells[k, column] != 0
      {
        if cells[i, column] == 0 {
          row := i;
          break;
        }
        i := i + 1;
      }
    }

    /** getLastMoveRow: scan column downward from the top row for the first tile. */
    method GetLastMoveRow(column: int) returns (row: int)
      requires Valid()
      ensures row == LastMoveRow(Grid(), column)
    {
      if column < 0 || column >= N {
        return -1;
      }
      row := -1;
      var i := TopRow;
      while i >= 0
        invariant -1 <= i <= TopRow
        invariant forall k :: i < k < N ==> cells[k, column] == 0
      {
        if cells[i, column] != 0 {
          row := i;
          break;
        }
        i := i - 1;
      }
    }

    /** isColumnOpen: a column is open when it is in range and has an empty cell. */
    method IsColumnOpen(column: int) returns (open: bool)
      requires Valid()
      ensures open == ColumnOpen(Grid(), column)
    {
      var row := GetFirstEmptySlot(column);
      open := row >= 0;
    }

    /** move: on an open column drop player's tile into the lowest empty row and
        answer true; otherwise answer false and change nothing. */
    method Move(player: int, column: int) returns (ok: bool)
      requires Valid()
      modifies cells
      ensures Valid()
      ensures ok == old(ColumnOpen(Grid(), column))
      ensures Grid() == if ok then Drop(old(Grid()), player, column) else old(Grid())
    {
      var row := GetFirstEmptySlot(column);
      if row < 0 {
        return false;
      }
      ghost var g := Grid();
      cells[row, column] := player;
      GridExt(Grid(), Drop(g, player, column));
      ok := true;
    }

    /** undoMove: on a non-empty column clear its highest tile and answer true;
        otherwise answer false and change nothing. */
    method UndoMove(column: int) returns (ok: bool)
      requires Valid()
      modifies cells
      ensures Valid()
      ensures ok == old(ColumnNonEmpty(Grid(), column))
      ensures Grid() == if ok then Lift(old(Grid()), column) else old(Grid())
    {
      var row := GetLastMoveRow(column);
      if row < 0 {
        return false;
      }
      ghost var g := Grid();
      cells[row, column] := 0;
      GridExt(Grid(), Lift(g, column));
      ok := true;
    }

    /** The loops of checkColumn, checkRow and checkDiagonal: count player's
        tiles from (row, column) along (dr, dc) until the edge or another cell. */
    method CountRun(player: int, row: int, column: int, dr: int, dc: int) returns (count: nat)
      requires Valid() && IsDirection(dr, dc)
      ensures count == Run(Grid(), row, column, dr, dc, player)
    {
      count := 0;
      var i, j := row, column;
      while InBounds(i, j) && cells[i, j] == player
        invariant count + Run(Grid(), i, j, dr, dc, player) == Run(Grid(), row, column, dr, dc, player)
        decreases if dr == 1 then N - i else if dr == -1 then i + 1 else if dc == 1 then N - j else j + 1
      {
        count := count + 1;
        i, j := i + dr, j + dc;
      }
    }

    /** checkColumn: count downward only. Since nothing of player's lies above
        the highest tile of a column, this finds every vertical line through it. */
    method CheckColumn(player: int, lastMoveRow: int, lastMoveColumn: int) returns (won: bool)
      requires Valid()
      ensures Owns(Grid(), lastMoveRow, lastMoveColumn, player) && !Owns(Grid(), lastMoveRow + 1, lastMoveColumn, player)
              ==> (won <==> LineThrough(Grid(), lastMoveRow, lastMoveColumn, 1, 0, player))
    {
      var connectNum := CountRun(player, lastMoveRow, lastMoveColumn, -1, 0);
      won := connectNum >= ConnectGoal;
      if Owns(Grid(), lastMoveRow, lastMoveColumn, player) && !Owns(Grid(), lastMoveRow + 1, lastMoveColumn, player) {
        DownRunSpansLine(Grid(), lastMoveRow, lastMoveColumn, player);
      }
    }

    /** checkRow: count rightward from the cell and leftward from its left
        neighbour; a line of four through the cell exists iff they reach 4. */
    method CheckRow(player: int, lastMoveRow: int, lastMoveColumn: int) returns (won: bool)
      requires Valid()
      ensures Owns(Grid(), lastMoveRow, lastMoveColumn, player)
              ==> (won <==> LineThrough(Grid(), lastMoveRow, lastMoveColumn, 0, 1, player))
    {
      var right := CountRun(player, lastMoveRow, lastMoveColumn, 0, 1);
      var left := CountRun(player, lastMoveRow, lastMoveColumn - 1, 0, -1);
      won := right + left >= ConnectGoal;
      if Owns(Grid(), lastMoveRow, lastMoveColumn, player) {
        TwoRunsSpanLine(Grid(), lastMoveRow, lastMoveColumn, 0, 1, player);
      }
    }

    /** checkDiagonal: the same two-way count on the rising diagonal and then,
        with the counter reset, on the falling one. */
    method CheckDiagonal(player: int, lastMoveRow: int, lastMoveColumn: int) returns (won: bool)
      requires Valid()
      ensures Owns(Grid(), lastMoveRow, lastMoveColumn, player)
              ==> (won <==> LineThrough(Grid(), lastMoveRow, lastMoveColumn, 1, 1, player)
                            || LineThrough(Grid(), lastMoveRow, lastMoveColumn, 1, -1, player))
    {
      ghost var g := Grid();
      var up := CountRun(player, lastMoveRow, lastMoveColumn, 1, 1);
      var down := CountRun(player, lastMoveRow - 1, lastMoveColumn - 1, -1, -1);
      assert Owns(g, lastMoveRow, lastMoveColumn, player) ==>
             (up + down >= ConnectGoal <==> LineThrough(g, lastMoveRow, lastMoveColumn, 1, 1, player)) by {
        if Owns(g, lastMoveRow, lastMoveColumn, player) {
          TwoRunsSpanLine(g, lastMoveRow, lastMoveColumn, 1, 1, player);
        }
      }
      if up + down >= ConnectGoal {
        return true;
      }
      up := CountRun(player, lastMoveRow, lastMoveColumn, 1, -1);
      down := CountRun(player, lastMoveRow - 1, lastMoveColumn + 1, -1, 1);
      assert Owns(g, lastMoveRow, lastMoveColumn, player) ==>
             (up + down >= ConnectGoal <==> LineThrough(g, lastMoveRow, lastMoveColumn, 1, -1, player)) by {
        if Owns(g, lastMoveRow, lastMoveColumn, player) {
          TwoRunsSpanLine(g, lastMoveRow, lastMoveColumn, 1, -1, player);
        }
      }
      won := up + down >= ConnectGoal;
    }

    /** isGameTied: 0 when every cell of the top row is occupied, otherwise -1. */
    method IsGameTied() returns (status: int)
      requires Valid()
      ensures status == if TopRowFull(Grid()) then 0 else -1
    {
      for j := 0 to N
        invariant forall k :: 0 <= k < j ==> cells[TopRow, k] != 0
      {
        if cells[TopRow, j] == 0 {
          return -1;
        }
      }
      return 0;
    }

    /** checkIfGameOver: the owner of the highest tile of the column when it
        completes a line of four, else 0 for a full top row, else -1. The Java
        code indexes row -1 when the column is empty or out of range. */
    method CheckIfGameOver(lastMoveColumn: int) returns (status: int)
      requires Valid() && ColumnNonEmpty(Grid(), lastMoveColumn)
      ensures status == GameStatus(Grid(), lastMoveColumn)
    {
      var lastMoveRow := GetLastMoveRow(lastMoveColumn);
      var player := cells[lastMoveRow, lastMoveColumn];
      ghost var g := Grid();
      assert Owns(g, lastMoveRow, lastMoveColumn, player) && !Owns(g, lastMoveRow + 1, lastMoveColumn, player);
      var winner := CheckColumn(player, lastMoveRow, lastMoveColumn);
      if !winner {
        winner := CheckRow(player, lastMoveRow, lastMoveColumn);
      }
      if !winner {
        winner := CheckDiagonal(player, lastMoveRow, lastMoveColumn);
      }
      GameStatusFromLines(g, lastMoveColumn, lastMoveRow, player, winner);
      if winner {
        return player;
      }
      status := IsGameTied();
    }
  }
}
