/**
 * The computer player (class `AI` of tictactoe.py): a difficulty `level`
 * (0 picks a random empty square, anything else searches) and the mark
 * `player` it plays for. Its methods work on the mutable `Board` and are proved
 * against the search functions of module `Search`.
 */
module Ai {
  import opened Options
  import opened Boards
  import Search

  class AI {
    var level: int
    const player: Player

    /** `AI(level, player)`. */
    constructor (level: int, player: Player)
      ensures this.level == level && this.player == player
    {
      this.level := level;
      this.player := player;
    }

    /** `rnd`: the random index is the `roll` argument taken modulo the number of
        empty squares, so every empty square is some roll's answer. With no empty
        square the source's `random.randrange` raises, so callers must not ask. */
    method Rnd(board: Board, roll: nat) returns (move: Square)
      requires board.Valid() && EmptySqrs(board.Value()) != []
      ensures move in EmptySqrs(board.Value())
      ensures move == EmptySqrs(board.Value())[roll % |EmptySqrs(board.Value())|]
    {
      var emptySqrs := board.GetEmptySqrs();
      var idx := roll % |emptySqrs|;
      move := emptySqrs[idx];
    }

    /** `minimax(board, maximizing)`: each child is searched on a fresh copy of the
        board, so the caller's board is never changed (the method modifies nothing
        it did not allocate), and the answer is the value `Search.Minimax` gives,
        which makes repeated calls on the same board agree. */
    method Minimax(board: Board, maximizing: bool) returns (eval: int, move: Option<Square>)
      requires board.Valid()
      ensures (eval, move) == Search.Minimax(board.Value(), maximizing, player)
      decreases Zeros(board.Value().squares), 1
    {
      ghost var s := board.Value();
      var winner := FinalState(board.Value());
      if winner == 1 {
        return 1, None;
      }
      if winner == 2 {
        return -1, None;
      } else if IsFull(board.Value()) {
        return 0, None;
      }

      var emptySqrs := board.GetEmptySqrs();
      if maximizing {
        eval, move := -100, None;
        for i := 0 to |emptySqrs|
          invariant Search.Pick(s, emptySqrs, true, player, -100, None) ==
                    Search.Pick(s, emptySqrs[i..], true, player, eval, move)
        {
          var (row, col) := emptySqrs[i];
          assert emptySqrs[i] in emptySqrs && emptySqrs[i..][1..] == emptySqrs[i + 1..];
          var e := SearchChild(board, row, col, true);
          if e > eval {
            eval := e;
            move := Some((row, col));
          }
        }
      } else {
        eval, move := 100, None;
        for i := 0 to |emptySqrs|
          invariant Search.Pick(s, emptySqrs, false, player, 100, None) ==
                    Search.Pick(s, emptySqrs[i..], false, player, eval, move)
        {
          var (row, col) := emptySqrs[i];
          assert emptySqrs[i] in emptySqrs && emptySqrs[i..][1..] == emptySqrs[i + 1..];
          var e := SearchChild(board, row, col, false);
          if e < eval {
            eval := e;
            move := Some((row, col));
          }
        }
      }
    }

    /** The body of both loops of `minimax`: deep-copy the board, mark (row, col)
        on the copy (1 when maximizing, `player` when minimizing) and search the
        copy with the other side to move, keeping only the evaluation. */
    method SearchChild(board: Board, row: int, col: int, maximizing: bool) returns (e: int)
      requires board.Valid() && (row, col) in EmptySqrs(board.Value())
      ensures e == Search.ChildEval(board.Value(), (row, col), maximizing, player)
      decreases Zeros(board.Value().squares), 0
    {
      ghost var s := board.Value();
      EmptySqrsSpec(s);
      var tempBoard := new Board.Copy(board);
      tempBoard.MarkSqr(row, col, if maximizing then 1 else player);
      ghost var child := Mark(s, row, col, Search.Side(maximizing, player));
      assert tempBoard.Value() == child;
      MarkSpec(s, row, col, Search.Side(maximizing, player));
      var childMove;
      e, childMove := Minimax(tempBoard, !maximizing);
      assert e == Search.Minimax(child, !maximizing, player).0;
    }

    /** `eval`: level 0 plays `rnd`, any other level plays the move of
        `minimax(board, False)`. On a board with an exact counter that is not
        over, the answer is always one of its empty squares. */
    method Eval(board: Board, roll: nat) returns (move: Option<Square>)
      requires board.Valid()
      requires level == 0 ==> EmptySqrs(board.Value()) != []
      ensures level == 0 ==> move == Some(EmptySqrs(board.Value())[roll % |EmptySqrs(board.Value())|])
      ensures level != 0 ==> move == Search.Minimax(board.Value(), false, player).1
      ensures Counted(board.Value()) && !IsOver(board.Value()) ==> move.Some? && move.value in EmptySqrs(board.Value())
    {
      if level == 0 {
        var m := Rnd(board, roll);
        move := Some(m);
      } else {
        var _, m := Minimax(board, false);
        move := m;
        if Counted(board.Value()) {
          Search.MinimaxBounds(board.Value(), false, player);
        }
      }
    }
  }
}
