/**
 * The value the depth-limited negamax search of MyPlayer.java computes, as
 * functions of a grid: the candidate move of every open column, the score of
 * each, and the choice among them. The imperative search in module Players is
 * proved to return exactly Negamax(...).
 */
module GameTree {
  import opened Grids

  /** MyPlayer.Move: a column and the value the search gave it. */
  datatype Move = Move(column: int, value: real)

  /** The two board scans the heuristic combines (evaluateColumn and
      evaluateRow), taken as given functions of the grid and the player. */
  datatype Evaluator = Evaluator(scanColumns: (Grid, int) -> real, scanRows: (Grid, int) -> real)

  /** The player to move after p: 2 after player 1, 1 otherwise. */
  function Opponent(p: int): (q: int)
    ensures q == 1 || q == 2
    ensures p == 1 || p == 2 ==> q != p
  {
    if p == 1 then 2 else 1
  }

  /** heuristic: the larger of the two scans. */
  function Heuristic(ev: Evaluator, g: Grid, p: int): (h: real)
    ensures h >= ev.scanColumns(g, p) && h >= ev.scanRows(g, p)
    ensures h == ev.scanColumns(g, p) || h == ev.scanRows(g, p)
  {
    var col := ev.scanColumns(g, p);
    var row := ev.scanRows(g, p);
    if col >= row then col else row
  }

  /** The value of a move that ended the game: 0 for a tie, 1 when the mover
      won, -1 when anyone else did. */
  function TerminalValue(status: int, p: int): real
    requires status >= 0
  {
    if status == 0 then 0.0 else if status == p then 1.0 else -1.0
  }

  // ---------------------------------------------------------------------------
  // getBestMove
  // ---------------------------------------------------------------------------

  /** k is the move getBestMove picks: the first move whose value exceeds -1.0
      and every value before it (so the largest value, earliest column first),
      or the first move when no value exceeds -1.0. */
  predicate IsBestChoice(moves: seq<Move>, k: int) {
    0 <= k < |moves| &&
    if forall j :: 0 <= j < |moves| ==> moves[j].value <= -1.0 then k == 0
    else
      moves[k].value > -1.0 &&
      (forall j :: 0 <= j < k ==> moves[j].value < moves[k].value) &&
      (forall j :: 0 <= j < |moves| ==> moves[j].value <= moves[k].value)
  }

  /** Only one move is the best choice. */
  lemma BestChoiceUnique(moves: seq<Move>, k1: int, k2: int)
    requires IsBestChoice(moves, k1) && IsBestChoice(moves, k2)
    ensures k1 == k2
  {
  }

  /** What getBestMove's loop knows after looking at moves[..i]: max is -1.0 and
      k is 0 while no value exceeded -1.0; afterwards k is the first move of
      the largest value seen and max is its value. */
  predicate ScanState(moves: seq<Move>, i: int, max: real, k: int) {
    0 <= k < |moves| && 0 <= i <= |moves| &&
    ((k == 0 && max == -1.0 && forall j :: 0 <= j < i ==> moves[j].value <= -1.0) ||
     (k < i && max == moves[k].value && max > -1.0 &&
      (forall j :: 0 <= j < k ==> moves[j].value < max) &&
      (forall j :: 0 <= j < i ==> moves[j].value <= max)))
  }

  /** The rest of getBestMove's loop from moves[i] on, in state (max, k). */
  function BestFrom(moves: seq<Move>, i: int, max: real, k: int): (b: int)
    requires ScanState(moves, i, max, k)
    ensures IsBestChoice(moves, b)
    decreases |moves| - i
  {
    if i == |moves| then k
    else if moves[i].value > max then BestFrom(moves, i + 1, moves[i].value, i)
    else BestFrom(moves, i + 1, max, k)
  }

  /** The index getBestMove picks; moves.get(0) needs a move to exist. */
  function BestIndex(moves: seq<Move>): (k: int)
    requires |moves| > 0
    ensures IsBestChoice(moves, k)
  {
    BestFrom(moves, 0, -1.0, 0)
  }

  /** When every value is at most -1.0 the first move is picked, whatever the
      later values are. */
  lemma FirstMoveBelowMinusOne(moves: seq<Move>)
    requires |moves| > 0 && forall j :: 0 <= j < |moves| ==> moves[j].value <= -1.0
    ensures BestIndex(moves) == 0
  {
  }

  /** An instance: the first move is picked although a later one is larger. */
  lemma FirstMoveBelowMinusOneExample()
    ensures BestIndex([Move(0, -2.0), Move(1, -1.5)]) == 0
  {
    assert IsBestChoice([Move(0, -2.0), Move(1, -1.5)], 0);
    BestChoiceUnique([Move(0, -2.0), Move(1, -1.5)], 0, BestIndex([Move(0, -2.0), Move(1, -1.5)]));
  }

  // ---------------------------------------------------------------------------
  // search
  // ---------------------------------------------------------------------------

  /** The positions the search is started on: a 7x7 grid of tiles 1 and 2
      obeying gravity, with player 1 or 2 to move. */
  predicate SearchPosition(g: Grid, p: int) {
    WellSized(g) && Gravity(g) && Tiles(g) && (p == 1 || p == 2)
  }

  /** The value the search gives dropping p's tile into open column c: the
      terminal value if that ends the game, the heuristic at depth 0, and
      otherwise the negation of the opponent's best value one level deeper. */
  function Score(ev: Evaluator, g: Grid, depth: nat, p: int, c: int): real
    requires SearchPosition(g, p) && ColumnOpen(g, c)
    decreases depth, 0, 0
  {
    var next := Drop(g, p, c);
    DropKeepsGravity(g, p, c);
    DropKeepsTiles(g, p, c);
    LiftDrop(g, p, c);
    var status := GameStatus(next, c);
    if status >= 0 then TerminalValue(status, p)
    else if depth == 0 then Heuristic(ev, next, p)
    else
      GameStatusCodes(next, c);
      -Negamax(ev, next, depth - 1, Opponent(p)).value
  }

  /** The position a drop makes is one the opponent can search, with the
      dropped tile as the highest of its column. */
  lemma DropForOpponent(g: Grid, p: int, c: int)
    requires SearchPosition(g, p) && ColumnOpen(g, c)
    ensures SearchPosition(Drop(g, p, c), Opponent(p)) && ColumnNonEmpty(Drop(g, p, c), c)
    ensures GameStatus(Drop(g, p, c), c) < 0 ==> HasOpenColumn(Drop(g, p, c))
  {
    LiftDrop(g, p, c);
    DropKeepsGravity(g, p, c);
    DropKeepsTiles(g, p, c);
    GameStatusCodes(Drop(g, p, c), c);
  }

  /** Score by the status code of the position the drop makes: the value search
      computes from that code is the Score of the column. */
  lemma ScoreByStatus(ev: Evaluator, g: Grid, depth: nat, p: int, c: int, status: int, value: real)
    requires SearchPosition(g, p) && ColumnOpen(g, c)
    requires SearchPosition(Drop(g, p, c), Opponent(p)) && ColumnNonEmpty(Drop(g, p, c), c)
    requires status == GameStatus(Drop(g, p, c), c) && (status < 0 ==> HasOpenColumn(Drop(g, p, c)))
    requires value == if status >= 0 then TerminalValue(status, p)
                      else if depth == 0 then Heuristic(ev, Drop(g, p, c), p)
                      else -Negamax(ev, Drop(g, p, c), depth - 1, Opponent(p)).value
    ensures value == Score(ev, g, depth, p, c)
  {
  }

  /** The moves search's loop has recorded once it has looked at the columns
      below upTo: one per open column, appended in increasing column order
      (CandidateColumns), each carrying the Score of its column
      (CandidateValues), and at least one when a column below upTo is open
      (CandidatesNonEmpty). */
  function Candidates(ev: Evaluator, g: Grid, depth: nat, p: int, upTo: int): seq<Move>
    requires SearchPosition(g, p) && 0 <= upTo <= N
    decreases depth, 1, upTo
  {
    if upTo == 0 then []
    else if ColumnOpen(g, upTo - 1) then Candidates(ev, g, depth, p, upTo - 1) + [Move(upTo - 1, Score(ev, g, depth, p, upTo - 1))]
    else Candidates(ev, g, depth, p, upTo - 1)
  }

  /** Some column below upTo is open. */
  predicate OpenBelow(g: Grid, upTo: int)
    requires WellSized(g)
    decreases upTo
  {
    upTo > 0 && (ColumnOpen(g, upTo - 1) || OpenBelow(g, upTo - 1))
  }

  lemma {:induction false} OpenColumnBelow(g: Grid, upTo: int, c: int)
    requires WellSized(g) && 0 <= c < upTo && ColumnOpen(g, c)
    ensures OpenBelow(g, upTo)
    decreases upTo
  {
    if c < upTo - 1 {
      OpenColumnBelow(g, upTo - 1, c);
    }
  }

  /** A grid with an open column has one below N. */
  lemma OpenBelowN(g: Grid)
    requires WellSized(g) && HasOpenColumn(g)
    ensures OpenBelow(g, N)
  {
    var c :| 0 <= c < N && ColumnOpen(g, c);
    OpenColumnBelow(g, N, c);
  }

  /** Every open column below upTo contributes a move, so there is one as soon
      as such a column exists. */
  lemma {:induction false} CandidatesNonEmpty(ev: Evaluator, g: Grid, depth: nat, p: int, upTo: int)
    requires SearchPosition(g, p) && 0 <= upTo <= N
    ensures OpenBelow(g, upTo) ==> |Candidates(ev, g, depth, p, upTo)| > 0
    decreases depth, 1, upTo + 1
  {
    if upTo > 0 && !ColumnOpen(g, upTo - 1) {
      CandidatesNonEmpty(ev, g, depth, p, upTo - 1);
    }
  }

  /** One step of Candidates: column c adds its scored move when it is open. */
  lemma CandidatesStep(ev: Evaluator, g: Grid, depth: nat, p: int, c: int)
    requires SearchPosition(g, p) && 0 <= c < N
    ensures Candidates(ev, g, depth, p, c + 1) ==
      if ColumnOpen(g, c) then Candidates(ev, g, depth, p, c) + [Move(c, Score(ev, g, depth, p, c))]
      else Candidates(ev, g, depth, p, c)
  {
  }

  /** The open columns below upTo, in increasing order. */
  function OpenColumns(g: Grid, upTo: int): (cs: seq<int>)
    requires WellSized(g) && 0 <= upTo <= N
    ensures forall c :: c in cs <==> 0 <= c < upTo && ColumnOpen(g, c)
    ensures forall k1, k2 :: 0 <= k1 < k2 < |cs| ==> cs[k1] < cs[k2]
    decreases upTo
  {
    if upTo == 0 then []
    else
      var rest := OpenColumns(g, upTo - 1);
      if ColumnOpen(g, upTo - 1) then
        assert forall k :: 0 <= k < |rest| ==> rest[k] in rest;
        rest + [upTo - 1]
      else rest
  }

  /** The columns of a list of moves. */
  function Columns(ms: seq<Move>): (cs: seq<int>)
    ensures |cs| == |ms| && forall k :: 0 <= k < |ms| ==> cs[k] == ms[k].column
  {
    seq(|ms|, k requires 0 <= k < |ms| => ms[k].column)
  }

  lemma ColumnsSnoc(ms: seq<Move>, m: Move)
    ensures Columns(ms + [m]) == Columns(ms) + [m.column]
  {
    assert forall k :: 0 <= k < |ms| ==> (ms + [m])[k] == ms[k];
  }

  /** The search records exactly one move per open column, in increasing
      column order. */
  lemma {:induction false} CandidateColumns(ev: Evaluator, g: Grid, depth: nat, p: int, upTo: int)
    requires SearchPosition(g, p) && 0 <= upTo <= N
    ensures Columns(Candidates(ev, g, depth, p, upTo)) == OpenColumns(g, upTo)
    decreases upTo
  {
    if upTo > 0 {
      CandidateColumns(ev, g, depth, p, upTo - 1);
      CandidatesStep(ev, g, depth, p, upTo - 1);
      if ColumnOpen(g, upTo - 1) {
        ColumnsSnoc(Candidates(ev, g, depth, p, upTo - 1), Move(upTo - 1, Score(ev, g, depth, p, upTo - 1)));
      }
    }
  }

  /** Every move of ms is in an open column and carries the Score of that column. */
  predicate Scored(ev: Evaluator, g: Grid, depth: nat, p: int, ms: seq<Move>)
    requires SearchPosition(g, p)
  {
    forall k :: 0 <= k < |ms| ==> ColumnOpen(g, ms[k].column) && ms[k].value == Score(ev, g, depth, p, ms[k].column)
  }

  lemma SnocScored(ev: Evaluator, g: Grid, depth: nat, p: int, ms: seq<Move>, m: Move)
    requires SearchPosition(g, p) && ColumnOpen(g, m.column)
    requires m.value == Score(ev, g, depth, p, m.column)
    requires Scored(ev, g, depth, p, ms)
    ensures Scored(ev, g, depth, p, ms + [m])
  {
    var all := ms + [m];
    forall k | 0 <= k < |all|
      ensures ColumnOpen(g, all[k].column) && all[k].value == Score(ev, g, depth, p, all[k].column)
    {
      if k < |ms| {
        assert all[k] == ms[k];
      }
    }
  }

  /** Each candidate carries the Score of its column. */
  lemma {:induction false} CandidateValues(ev: Evaluator, g: Grid, depth: nat, p: int, upTo: int)
    requires SearchPosition(g, p) && 0 <= upTo <= N
    ensures Scored(ev, g, depth, p, Candidates(ev, g, depth, p, upTo))
    decreases upTo
  {
    if upTo > 0 {
      CandidateValues(ev, g, depth, p, upTo - 1);
      CandidatesStep(ev, g, depth, p, upTo - 1);
      if ColumnOpen(g, upTo - 1) {
        SnocScored(ev, g, depth, p, Candidates(ev, g, depth, p, upTo - 1), Move(upTo - 1, Score(ev, g, depth, p, upTo - 1)));
      }
    }
  }

  /** search(board, depth, p): the move getBestMove picks among the candidates
      of all N columns. Some column must be open for moves.get(0) to exist. */
  function Negamax(ev: Evaluator, g: Grid, depth: nat, p: int): Move
    requires SearchPosition(g, p) && HasOpenColumn(g)
    decreases depth, 2, 0
  {
    OpenBelowN(g);
    CandidatesNonEmpty(ev, g, depth, p, N);
    var moves := Candidates(ev, g, depth, p, N);
    moves[BestIndex(moves)]
  }

  /** The chosen move is the first candidate of largest value above -1.0, or the
      first candidate when none is above -1.0. */
  lemma NegamaxPicksBestCandidate(ev: Evaluator, g: Grid, depth: nat, p: int)
    requires SearchPosition(g, p) && HasOpenColumn(g)
    ensures exists k :: IsBestChoice(Candidates(ev, g, depth, p, N), k) &&
                        Negamax(ev, g, depth, p) == Candidates(ev, g, depth, p, N)[k]
  {
    OpenBelowN(g);
    CandidatesNonEmpty(ev, g, depth, p, N);
    var moves := Candidates(ev, g, depth, p, N);
    var k := BestIndex(moves);
    assert IsBestChoice(moves, k) && Negamax(ev, g, depth, p) == moves[k];
  }

  /** The chosen move is in an open column, and its value is the Score of that
      column. */
  lemma NegamaxValue(ev: Evaluator, g: Grid, depth: nat, p: int)
    requires SearchPosition(g, p) && HasOpenColumn(g)
    ensures ColumnOpen(g, Negamax(ev, g, depth, p).column)
    ensures Negamax(ev, g, depth, p).value == Score(ev, g, depth, p, Negamax(ev, g, depth, p).column)
  {
    OpenBelowN(g);
    CandidatesNonEmpty(ev, g, depth, p, N);
    var moves := Candidates(ev, g, depth, p, N);
    var k := BestIndex(moves);
    assert Negamax(ev, g, depth, p) == moves[k];
    CandidateValues(ev, g, depth, p, N);
    assert ColumnOpen(g, moves[k].column) && moves[k].value == Score(ev, g, depth, p, moves[k].column);
  }

  /** Terminal scoring: a tile that completes a line of four through the cell
      it lands in scores 1.0, one that fills the top row without a line scores
      0.0; since the last tile is the mover's own, the loss value -1.0 never
      arises from a terminal move. Otherwise the heuristic (depth 0) or the
      negated reply decides. */
  lemma ScoreCases(ev: Evaluator, g: Grid, depth: nat, p: int, c: int)
    requires SearchPosition(g, p) && ColumnOpen(g, c)
    ensures var next, r := Drop(g, p, c), FirstEmptySlot(g, c);
      (WinThrough(next, r, c, p) ==> Score(ev, g, depth, p, c) == 1.0) &&
      (!WinThrough(next, r, c, p) && TopRowFull(next) ==> Score(ev, g, depth, p, c) == 0.0) &&
      (!WinThrough(next, r, c, p) && !TopRowFull(next) ==>
        SearchPosition(next, Opponent(p)) && HasOpenColumn(next) &&
        Score(ev, g, depth, p, c) ==
          if depth == 0 then Heuristic(ev, next, p)
          else -Negamax(ev, next, depth - 1, Opponent(p)).value)
  {
    var next, r := Drop(g, p, c), FirstEmptySlot(g, c);
    LiftDrop(g, p, c);
    DropKeepsGravity(g, p, c);
    DropKeepsTiles(g, p, c);
    GameStatusCodes(next, c);
  }
}
