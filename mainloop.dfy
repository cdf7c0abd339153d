/**
 * The move rules of `main()` in tictactoe.py. `main` keeps its own references
 * to the game's board and computer players (`board`, `ai_1`, `ai_2`), fetched
 * once at start and again after the 'r' key; class `Session` holds those
 * references next to the game. Every rule reads the square's emptiness and
 * the winner through `main`'s `board`, and marks through `game.make_move`.
 *
 * The Restart button resets the game without fetching the references again,
 * so after it `main`'s `board` is the discarded one (see `StaleRestartScenario`).
 * `Restart` is the reset that keeps the references in step, as the 'r' key does.
 */
module MainLoop {
  import opened Options
  import opened Boards
  import opened Ai
  import opened Games
  import Search

  class Session {
    const game: Game
    /** `main`'s `board`, `ai_1` and `ai_2`. */
    var board: Board
    var ai1: AI
    var ai2: AI

    ghost predicate Valid()
      reads this, game, game.board, game.ai1, game.ai2, board, ai1, ai2
    {
      game.Valid() && board.Valid() && ai1 != ai2 && ai1.player == 1 && ai2.player == 2
    }

    /** `main`'s references are the game's current ones. */
    ghost predicate Synced()
      reads this, game
    {
      board == game.board && ai1 == game.ai1 && ai2 == game.ai2
    }

    /** The start of `main`: a new game and references to its parts. */
    constructor ()
      ensures Valid() && Synced() && game.Initial()
      ensures fresh(game) && fresh(board) && fresh(board.squares) && fresh(ai1) && fresh(ai2)
    {
      var g := new Game();
      game := g;
      board, ai1, ai2 := g.board, g.ai1, g.ai2;
    }

    /** The 'r' key: reset the game and fetch the new references. */
    method Restart()
      requires Valid()
      modifies this, game
      ensures Valid() && Synced() && game.Initial()
      ensures fresh(board) && fresh(board.squares) && fresh(ai1) && fresh(ai2)
    {
      game.Reset();
      board, ai1, ai2 := game.board, game.ai1, game.ai2;
    }

    /** The Restart button as written: the game is reset, `main`'s references
        are left pointing at the discarded board and computer players. */
    method RestartButton()
      requires Valid()
      modifies game
      ensures Valid() && game.Initial()
      ensures fresh(game.board) && fresh(game.board.squares) && fresh(game.ai1) && fresh(game.ai2)
      ensures board == old(board) && ai1 == old(ai1) && ai2 == old(ai2)
      ensures board.Value() == old(board.Value())
    {
      game.Reset();
    }

    /** The '0' and '1' keys: both of `main`'s computer players get the level. */
    method SetLevel(level: int)
      requires Valid() && (level == 0 || level == 1)
      modifies ai1, ai2
      ensures ai1.level == level && ai2.level == level
    {
      ai1.level := level;
      ai2.level := level;
    }

    /** What the three move rules of `main` do once a square is chosen:
        `game.make_move(row, col)`, then, if `game.isover()`, stop the game and
        report the name `main`'s board says has won. */
    method PlayAndCheck(row: int, col: int) returns (winner: Option<string>)
      requires Valid() && InRange(row, col) && game.running
      modifies game, game.board, game.board.squares
      ensures Valid() && Synced() == old(Synced())
      ensures game.board == old(game.board) && game.ai1 == old(game.ai1) && game.ai2 == old(game.ai2)
      ensures game.gamemode == old(game.gamemode) && game.players == old(game.players)
      ensures game.board.Value() == Mark(old(game.board.Value()), row, col, old(game.player))
      ensures game.player == NextPlayer(old(game.player))
      ensures game.running == !IsOver(game.board.Value())
      ensures winner == if game.running then None else Some(Winner(board.Value(), game.players))
      ensures old(Synced() && game.Consistent() && EmptySqr(game.board.Value(), row, col)) ==> game.Consistent()
    {
      ghost var s := game.board.Value();
      game.MakeMove(row, col);
      MarkSpec(s, row, col, NextPlayer(game.player));
      winner := None;
      if IsOver(game.board.Value()) {
        game.running := false;
        winner := Some(Winner(board.Value(), game.players));
      }
    }

    /** The test a click must pass: `main`'s board shows the square empty, the
        game is running and the mode is not ai_vs_ai. */
    ghost predicate Accepts(row: int, col: int)
      reads this, game, board, board.squares
      requires board.Valid() && InRange(row, col)
    {
      EmptySqr(board.Value(), row, col) && game.running && game.gamemode != AiVsAi
    }

    /** A click on square (row, col): the move is made only when `main`'s board
        shows the square empty, the game is running and the mode is not
        ai_vs_ai; a move that ends the game stops it and reports the winner. */
    method HumanClick(row: int, col: int) returns (winner: Option<string>)
      requires Valid() && InRange(row, col)
      modifies game, game.board, game.board.squares
      ensures Valid() && Synced() == old(Synced())
      ensures game.board == old(game.board) && game.ai1 == old(game.ai1) && game.ai2 == old(game.ai2)
      ensures game.gamemode == old(game.gamemode) && game.players == old(game.players)
      ensures if old(Accepts(row, col)) then
                game.board.Value() == Mark(old(game.board.Value()), row, col, old(game.player)) &&
                game.player == NextPlayer(old(game.player)) &&
                game.running == !IsOver(game.board.Value()) &&
                winner == if game.running then None else Some(Winner(board.Value(), game.players))
              else
                game.board.Value() == old(game.board.Value()) && game.player == old(game.player) &&
                game.running == old(game.running) && winner == None
      ensures old(Synced() && game.Consistent()) ==> game.Consistent()
    {
      winner := None;
      if EmptySqr(board.Value(), row, col) && game.running && game.gamemode != AiVsAi {
        winner := PlayAndCheck(row, col);
      }
    }

    /** The computer's turn in ai_vs_human mode: when it is player 2's turn and
        the game runs, `ai_2` chooses a square on `main`'s board and it is
        played; a move that ends the game stops it and reports the winner. */
    method AiHumanTurn(roll: nat) returns (move: Option<Square>, winner: Option<string>)
      requires Valid() && Synced() && game.Consistent()
      modifies game, game.board, game.board.squares
      ensures Valid() && Synced() && game.Consistent()
      ensures game.board == old(game.board) && game.gamemode == old(game.gamemode) && game.players == old(game.players)
      ensures if old(game.gamemode == AiVsHuman && game.player == 2 && game.running) then
                move.Some? && move.value in EmptySqrs(old(game.board.Value())) && InRange(move.value.0, move.value.1) &&
                (old(ai2.level) == 0 ==>
                   move.value == old(EmptySqrs(game.board.Value())[roll % |EmptySqrs(game.board.Value())|])) &&
                (old(ai2.level) != 0 ==> move == Search.Minimax(old(game.board.Value()), false, 2).1) &&
                game.board.Value() == Mark(old(game.board.Value()), move.value.0, move.value.1, 2) &&
                game.player == 1 && game.running == !IsOver(game.board.Value()) &&
                winner == if game.running then None else Some(Winner(game.board.Value(), game.players))
              else
                move == None && winner == None && game.board.Value() == old(game.board.Value()) &&
                game.player == old(game.player) && game.running == old(game.running)
    {
      move, winner := None, None;
      if game.gamemode == AiVsHuman && game.player == ai2.player && game.running {
        ghost var s := board.Value();
        FullAndEmptySpec(s);
        move := ai2.Eval(board, roll);
        var (row, col) := move.value;
        EmptySqrsSpec(s);
        winner := PlayAndCheck(row, col);
      }
    }

    /** A turn in ai_vs_ai mode: while the game runs, the computer player whose
        mark is to move (`ai_1` for 1, `ai_2` for 2) chooses a square on `main`'s
        board and it is played; a move that ends the game stops it and reports
        the winner. Both start their search as the minimizing side. */
    method AiAiTurn(roll: nat) returns (move: Option<Square>, winner: Option<string>)
      requires Valid() && Synced() && game.Consistent()
      modifies game, game.board, game.board.squares
      ensures Valid() && Synced() && game.Consistent()
      ensures game.board == old(game.board) && game.gamemode == old(game.gamemode) && game.players == old(game.players)
      ensures if old(game.gamemode == AiVsAi && game.running) then
                var level := old(if game.player == 1 then ai1.level else ai2.level);
                move.Some? && move.value in EmptySqrs(old(game.board.Value())) && InRange(move.value.0, move.value.1) &&
                (level == 0 ==>
                   move.value == old(EmptySqrs(game.board.Value())[roll % |EmptySqrs(game.board.Value())|])) &&
                (level != 0 ==> move == Search.Minimax(old(game.board.Value()), false, old(game.player)).1) &&
                game.board.Value() == Mark(old(game.board.Value()), move.value.0, move.value.1, old(game.player)) &&
                game.player == NextPlayer(old(game.player)) && game.running == !IsOver(game.board.Value()) &&
                winner == if game.running then None else Some(Winner(game.board.Value(), game.players))
              else
                move == None && winner == None && game.board.Value() == old(game.board.Value()) &&
                game.player == old(game.player) && game.running == old(game.running)
    {
      move, winner := None, None;
      if game.gamemode == AiVsAi && game.running {
        ghost var s := board.Value();
        FullAndEmptySpec(s);
        if game.player == ai1.player {
          move := ai1.Eval(board, roll);
        } else {
          move := ai2.Eval(board, roll);
        }
        var (row, col) := move.value;
        EmptySqrsSpec(s);
        winner := PlayAndCheck(row, col);
      }
    }
  }

  /** As written: after the Restart button the '0' key sets `main`'s discarded
      computer players to level 0, while the game's new ones stay at level 1. */
  method StaleLevelScenario() returns (mainLevel: int, gameLevel: int)
    ensures mainLevel == 0 && gameLevel == 1
  {
    var session := new Session();
    session.RestartButton();
    session.SetLevel(0);
    mainLevel := session.ai1.level;
    gameLevel := session.game.ai1.level;
  }

  /** A new session in which player 1 has clicked (0, 0) and the Restart button
      has then been pressed: the game is back at its start, `main`'s board is
      the old one. */
  method StaleSession() returns (session: Session)
    ensures session.Valid() && session.game.board.Value() == Boards.Initial
    ensures session.game.player == 1 && session.game.running && session.game.gamemode == Pvp
    ensures session.board.Value() == Mark(Boards.Initial, 0, 0, 1)
    ensures session.board != session.game.board && session.board.squares != session.game.board.squares
    ensures fresh(session.game) && fresh(session.game.board) && fresh(session.game.board.squares)
  {
    session := new Session();
    assert session.Accepts(0, 0);
    var w := session.HumanClick(0, 0);
    session.RestartButton();
  }

  /** A click on (0, 0) after the Restart button is ignored: `main`'s old board
      shows the square taken, although the game's new board is empty. */
  method StaleCornerClick(session: Session) returns (corner: Cell)
    requires session.Valid() && session.game.board.Value() == Boards.Initial
    requires session.game.player == 1 && session.game.running && session.game.gamemode == Pvp
    requires session.board.Value() == Mark(Boards.Initial, 0, 0, 1)
    requires session.board != session.game.board && session.board.squares != session.game.board.squares
    modifies session.game, session.game.board, session.game.board.squares
    ensures session.Valid() && session.game.board.Value() == Boards.Initial
    ensures session.game.player == 1 && session.game.running && session.game.gamemode == Pvp
    ensures session.board.Value() == Mark(Boards.Initial, 0, 0, 1)
    ensures session.board != session.game.board && session.board.squares != session.game.board.squares
    ensures session.game.board == old(session.game.board)
    ensures corner == 0
  {
    ghost var cornerTaken := CornerTaken();
    assert !session.Accepts(0, 0);
    var w := session.HumanClick(0, 0);
    corner := At(session.game.board.Value(), 0, 0);
  }

  /** As written: with the Restart button, `main` keeps the old board, on which
      (0, 0) is taken and (1, 1) stays empty forever. The click on (0, 0) is
      ignored although the new board's square is empty, and both clicks on
      (1, 1) are accepted, so player 2 overwrites player 1's mark and the counter
      says two marks while one square is marked. */
  method StaleRestartScenario() returns (corner: Cell, centreFirst: Cell, centreSecond: Cell, counted: bool)
    ensures corner == 0 && centreFirst == 1 && centreSecond == 2 && !counted
  {
    ghost var cornerTaken := CornerTaken();
    var session := StaleSession();
    corner := StaleCornerClick(session);
    var stale := session.board;
    assert session.Accepts(1, 1);
    var w := session.HumanClick(1, 1);
    ghost var centreTaken := CentreTaken();
    assert session.game.board.Value() == centreTaken;
    centreFirst := At(session.game.board.Value(), 1, 1);
    assert stale.Value() == cornerTaken && session.game.running && session.game.gamemode == Pvp;
    assert session.Accepts(1, 1);
    w := session.HumanClick(1, 1);
    ghost var overwritten := CentreOverwritten();
    assert session.game.board.Value() == overwritten;
    centreSecond := At(session.game.board.Value(), 1, 1);
    counted := Counted(session.game.board.Value());
  }

  /** The boards the scenarios go through: one mark in a corner or in the
      centre is not over; overwriting the centre breaks the counter. */
  lemma CornerTaken() returns (s: Snapshot)
    ensures s == Mark(Boards.Initial, 0, 0, 1) && !IsOver(s) && EmptySqr(s, 1, 1)
  {
    s := Mark(Boards.Initial, 0, 0, 1);
  }

  lemma CentreTaken() returns (s: Snapshot)
    ensures s == Mark(Boards.Initial, 1, 1, 1) && !IsOver(s)
  {
    s := Mark(Boards.Initial, 1, 1, 1);
  }

  lemma CentreOverwritten() returns (s: Snapshot)
    ensures s == Mark(Mark(Boards.Initial, 1, 1, 1), 1, 1, 2) && !Counted(s)
  {
    var centre := Mark(Boards.Initial, 1, 1, 1);
    s := Mark(centre, 1, 1, 2);
    assert Zeros(Boards.Initial.squares) == 9;
    ZerosUpdate(Boards.Initial.squares, 4, 1);
    ZerosUpdate(centre.squares, 4, 2);
  }

  lemma CornerAndCentre() returns (s: Snapshot)
    ensures s == Mark(Mark(Boards.Initial, 0, 0, 1), 1, 1, 2) && !IsOver(s) && Counted(s)
  {
    var corner := Mark(Boards.Initial, 0, 0, 1);
    s := Mark(corner, 1, 1, 2);
    assert Zeros(Boards.Initial.squares) == 9;
    ZerosUpdate(Boards.Initial.squares, 0, 1);
    ZerosUpdate(corner.squares, 4, 2);
  }

  /** Corrected: with a restart that fetches the new references, the same clicks
      play (0, 0) for player 1 and (1, 1) for player 2, the repeated click on
      (1, 1) is ignored and the counter stays exact. */
  method RestartScenario() returns (corner: Cell, centreFirst: Cell, centreSecond: Cell, counted: bool)
    ensures corner == 1 && centreFirst == 2 && centreSecond == 2 && counted
  {
    ghost var cornerTaken := CornerTaken();
    var session := new Session();
    var w := session.HumanClick(0, 0);
    session.Restart();
    assert session.Accepts(0, 0);
    w := session.HumanClick(0, 0);
    assert session.game.board.Value() == cornerTaken;
    corner := At(session.game.board.Value(), 0, 0);
    assert session.game.running && session.game.gamemode == Pvp && session.game.player == 2;
    assert session.Accepts(1, 1);
    w := session.HumanClick(1, 1);
    ghost var both := CornerAndCentre();
    assert session.game.board.Value() == both;
    centreFirst := At(session.game.board.Value(), 1, 1);
    assert !session.Accepts(1, 1);
    w := session.HumanClick(1, 1);
    centreSecond := At(session.game.board.Value(), 1, 1);
    counted := Counted(session.game.board.Value());
  }
}
