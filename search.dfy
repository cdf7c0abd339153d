/**
 * The exhaustive game-tree search of `AI.minimax` (tictactoe.py), stated as
 * recursive functions over board values, with what it promises proved about it.
 *
 * Evaluations are +1 when player 1 has won, -1 when player 2 has won and 0 for
 * a full board with no winner. The maximizing side always places mark 1; the
 * minimizing side places the searching AI's own `player`, so an AI built with
 * `player = 1` places 1 on both sides of the tree.
 */
module Search {
  import opened Options
  import opened Boards

  /** A search result: the evaluation and the chosen square, if any. */
  type Outcome = (int, Option<Square>)

  /** The mark placed at a search node. */
  function Side(maximizing: bool, player: Player): Player {
    if maximizing then 1 else player
  }

  /** The strict comparison by which a node replaces its best move: `>` when
      maximizing, `<` when minimizing. */
  predicate Better(maximizing: bool, a: int, b: int) {
    if maximizing then a > b else a < b
  }

  /** Every square of `moves` is an empty square of `s`. */
  predicate Movable(s: Snapshot, moves: seq<Square>) {
    forall m :: m in moves ==> m in EmptySqrs(s)
  }

  /** `minimax(board, maximizing)`: a terminal board is scored at once with no
      move; otherwise every empty square is tried in row-major order and the
      first one reaching the best child evaluation is kept. The starting values
      -100 and 100 are the source's. */
  function Minimax(s: Snapshot, maximizing: bool, player: Player): Outcome
    decreases Zeros(s.squares), 2, 0
  {
    var winner := FinalState(s);
    if winner == 1 then (1, None)
    else if winner == 2 then (-1, None)
    else if IsFull(s) then (0, None)
    else Pick(s, EmptySqrs(s), maximizing, player, if maximizing then -100 else 100, None)
  }

  /** The loop over the empty squares: `best` and `bestMove` are `max_eval` (or
      `min_eval`) and `best_move` so far; `moves` are the squares still to try. */
  function Pick(s: Snapshot, moves: seq<Square>, maximizing: bool, player: Player,
                best: int, bestMove: Option<Square>): Outcome
    requires Movable(s, moves)
    decreases Zeros(s.squares), 1, |moves|
  {
    if moves == [] then (best, bestMove)
    else
      var e := ChildEval(s, moves[0], maximizing, player);
      if Better(maximizing, e, best) then Pick(s, moves[1..], maximizing, player, e, Some(moves[0]))
      else Pick(s, moves[1..], maximizing, player, best, bestMove)
  }

  /** The evaluation of the child reached by marking square `m` for the side to move,
      searched with the other side to move (the deep copy, `mark_sqr` and recursive call). */
  function ChildEval(s: Snapshot, m: Square, maximizing: bool, player: Player): int
    requires m in EmptySqrs(s)
    decreases Zeros(s.squares), 0, 0
  {
    EmptySqrsSpec(s);
    MarkSpec(s, m.0, m.1, Side(maximizing, player));
    Minimax(Mark(s, m.0, m.1, Side(maximizing, player)), !maximizing, player).0
  }

  /** No child beats the fold's result, and neither does the starting `best`. */
  lemma {:induction false} PickUpper(s: Snapshot, moves: seq<Square>, maximizing: bool, player: Player,
                                     best: int, bestMove: Option<Square>)
    requires Movable(s, moves)
    ensures var v := Pick(s, moves, maximizing, player, best, bestMove).0;
      !Better(maximizing, best, v) &&
      forall j :: 0 <= j < |moves| ==> !Better(maximizing, ChildEval(s, moves[j], maximizing, player), v)
  {
    if moves != [] {
      var e := ChildEval(s, moves[0], maximizing, player);
      var rest := moves[1..];
      var better := Better(maximizing, e, best);
      PickUpper(s, rest, maximizing, player, if better then e else best, if better then Some(moves[0]) else bestMove);
      forall j | 1 <= j < |moves|
        ensures ChildEval(s, moves[j], maximizing, player) == ChildEval(s, rest[j - 1], maximizing, player)
      {
        assert rest[j - 1] == moves[j];
      }
    }
  }

  /** The fold's result is either the starting pair, or the child at some index k
      that beats `best` and every child before k: the first square reaching the
      extreme evaluation. */
  lemma {:induction false} PickChoice(s: Snapshot, moves: seq<Square>, maximizing: bool, player: Player,
                                      best: int, bestMove: Option<Square>)
    requires Movable(s, moves)
    ensures var r := Pick(s, moves, maximizing, player, best, bestMove);
      r == (best, bestMove) ||
      exists k :: 0 <= k < |moves| && r == (ChildEval(s, moves[k], maximizing, player), Some(moves[k])) &&
        Better(maximizing, r.0, best) &&
        forall j :: 0 <= j < k ==> Better(maximizing, r.0, ChildEval(s, moves[j], maximizing, player))
  {
    if moves != [] {
      var e := ChildEval(s, moves[0], maximizing, player);
      var rest := moves[1..];
      var better := Better(maximizing, e, best);
      var best', bestMove' := if better then e else best, if better then Some(moves[0]) else bestMove;
      PickChoice(s, rest, maximizing, player, best', bestMove');
      var r := Pick(s, rest, maximizing, player, best', bestMove');
      assert r == Pick(s, moves, maximizing, player, best, bestMove);
      if r != (best', bestMove') {
        var k :| 0 <= k < |rest| && r == (ChildEval(s, rest[k], maximizing, player), Some(rest[k])) &&
          Better(maximizing, r.0, best') &&
          forall j :: 0 <= j < k ==> Better(maximizing, r.0, ChildEval(s, rest[j], maximizing, player));
        assert rest[k] == moves[k + 1];
        forall j | 0 <= j < k + 1 ensures Better(maximizing, r.0, ChildEval(s, moves[j], maximizing, player)) {
          if j > 0 {
            assert rest[j - 1] == moves[j];
          }
        }
      } else if better {
        assert r == (ChildEval(s, moves[0], maximizing, player), Some(moves[0]));
      }
    }
  }

  /** On a board whose counter is exact, `minimax` scores a terminal board +1, -1
      or 0 with no move, and on any other board returns an evaluation in
      {-1, 0, 1} together with one of the board's empty squares. */
  lemma {:induction false} MinimaxBounds(s: Snapshot, maximizing: bool, player: Player)
    requires Counted(s)
    ensures Minimax(s, maximizing, player).0 in {-1, 0, 1}
    ensures Minimax(s, maximizing, player).1 == None <==> IsOver(s)
    ensures Minimax(s, maximizing, player).1 != None ==> Minimax(s, maximizing, player).1.value in EmptySqrs(s)
    ensures IsOver(s) ==>
              Minimax(s, maximizing, player).0 == if FinalState(s) == 1 then 1 else if FinalState(s) == 2 then -1 else 0
    decreases Zeros(s.squares)
  {
    if !IsOver(s) {
      var moves := EmptySqrs(s);
      EmptySqrsSpec(s);
      FullAndEmptySpec(s);
      forall j | 0 <= j < |moves| ensures ChildEval(s, moves[j], maximizing, player) in {-1, 0, 1} {
        var m := moves[j];
        assert m in moves;
        MarkSpec(s, m.0, m.1, Side(maximizing, player));
        MinimaxBounds(Mark(s, m.0, m.1, Side(maximizing, player)), !maximizing, player);
      }
      var init := if maximizing then -100 else 100;
      PickUpper(s, moves, maximizing, player, init, None);
      PickChoice(s, moves, maximizing, player, init, None);
      assert !Better(maximizing, ChildEval(s, moves[0], maximizing, player), Minimax(s, maximizing, player).0);
    }
  }

  /** On a non-terminal board with an exact counter, `minimax` returns the first
      empty square, in row-major order, whose child evaluation is the extreme one
      (the maximum when maximizing, the minimum when minimizing), with that
      evaluation: no child is better and every earlier child is strictly worse. */
  lemma MinimaxChoice(s: Snapshot, maximizing: bool, player: Player)
    requires Counted(s) && !IsOver(s)
    ensures var moves, r := EmptySqrs(s), Minimax(s, maximizing, player);
      (forall j :: 0 <= j < |moves| ==> !Better(maximizing, ChildEval(s, moves[j], maximizing, player), r.0)) &&
      exists k :: 0 <= k < |moves| && r == (ChildEval(s, moves[k], maximizing, player), Some(moves[k])) &&
        forall j :: 0 <= j < k ==> Better(maximizing, r.0, ChildEval(s, moves[j], maximizing, player))
  {
    var init := if maximizing then -100 else 100;
    MinimaxBounds(s, maximizing, player);
    PickUpper(s, EmptySqrs(s), maximizing, player, init, None);
    PickChoice(s, EmptySqrs(s), maximizing, player, init, None);
  }
}
