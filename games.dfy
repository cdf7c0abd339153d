/**
 * The turn and mode state machine of class `Game` (tictactoe.py), without its
 * drawing: the board it owns, the two computer players, whose turn it is, the
 * game mode, whether the game is still running and the two display names.
 */
module Games {
  import opened Boards
  import opened Ai

  /** `gamemode`: 'pvp', 'ai_vs_human' or 'ai_vs_ai'. */
  datatype Mode = Pvp | AiVsHuman | AiVsAi

  /** The mode `change_gamemode` moves to. */
  function NextMode(m: Mode): Mode {
    match m
    case Pvp => AiVsHuman
    case AiVsHuman => AiVsAi
    case AiVsAi => Pvp
  }

  /** `change_gamemode` visits every mode and comes back after three steps. */
  lemma ModeCycle(m: Mode)
    ensures NextMode(m) != m && NextMode(NextMode(m)) != m
    ensures NextMode(NextMode(NextMode(m))) == m
  {
  }

  /** `next_turn`: `player % 2 + 1`, which hands the turn to the other player. */
  function NextPlayer(p: Player): (q: Player)
    ensures q != p
  {
    p % 2 + 1
  }

  /** The name shown when the game ends: the name of the player whose mark
      `final_state` reports, or "No one" when nobody has won. */
  function Winner(s: Snapshot, players: seq<string>): string
    requires |players| == 2
  {
    var mark := FinalState(s);
    if mark != 0 then players[mark - 1] else "No one"
  }

  /** The reported name belongs to the owner of the first winning line, and is
      "No one" exactly when no line wins. */
  lemma WinnerSpec(s: Snapshot, players: seq<string>)
    requires |players| == 2
    ensures forall k :: (0 <= k < |Lines| && Wins(s, Lines[k]) &&
                         (forall j :: 0 <= j < k ==> !Wins(s, Lines[j]))) ==>
              Winner(s, players) == players[s.squares[Lines[k].a] - 1]
    ensures (forall k :: 0 <= k < |Lines| ==> !Wins(s, Lines[k])) ==> Winner(s, players) == "No one"
  {
    FinalStateSpec(s);
  }

  const DefaultNames: seq<string> := ["Player 1", "Player 2"]

  class Game {
    var board: Board
    var ai1: AI
    var ai2: AI
    var player: Player
    var gamemode: Mode
    var running: bool
    var players: seq<string>

    ghost predicate Valid()
      reads this, board, ai1, ai2
    {
      board.Valid() && ai1 != ai2 && ai1.player == 1 && ai2.player == 2 && |players| == 2
    }

    /** What every move of the main loop keeps: the counter is exact, and a
        running game is not over. */
    ghost predicate Consistent()
      reads this, board, board.squares
      requires board.Valid()
    {
      Counted(board.Value()) && (running ==> !IsOver(board.Value()))
    }

    /** The state `Game()` builds: an empty board, player 1 to move, mode pvp,
        both computer players at level 1, running, default names. */
    ghost predicate Initial()
      reads this, board, board.squares, ai1, ai2
      requires board.Valid()
    {
      board.Value() == Boards.Initial && player == 1 && gamemode == Pvp && running &&
      players == DefaultNames && ai1.level == 1 && ai2.level == 1
    }

    /** `Game()`. */
    constructor ()
      ensures Valid() && Initial()
      ensures fresh(board) && fresh(board.squares) && fresh(ai1) && fresh(ai2)
    {
      board := new Board();
      ai1 := new AI(1, 1);
      ai2 := new AI(1, 2);
      player := 1;
      gamemode := Pvp;
      running := true;
      players := DefaultNames;
    }

    /** `reset`, which re-runs `__init__`: every field gets a fresh initial value,
        including a new board and new computer players. */
    method Reset()
      modifies this
      ensures Valid() && Initial()
      ensures fresh(board) && fresh(board.squares) && fresh(ai1) && fresh(ai2)
    {
      var g := new Game();
      board, ai1, ai2 := g.board, g.ai1, g.ai2;
      player, gamemode, running, players := g.player, g.gamemode, g.running, g.players;
    }

    /** `change_gamemode`: pvp -> ai_vs_human (second name "Computer"),
        ai_vs_human -> ai_vs_ai ("Computer 1", "Computer 2"),
        ai_vs_ai -> pvp ("Player 1", "Player 2"); nothing else changes. */
    method ChangeGamemode()
      requires Valid()
      modifies this`gamemode, this`players
      ensures Valid()
      ensures gamemode == NextMode(old(gamemode))
      ensures players == match old(gamemode)
                         case Pvp => [old(players)[0], "Computer"]
                         case AiVsHuman => ["Computer 1", "Computer 2"]
                         case AiVsAi => DefaultNames
    {
      if gamemode == Pvp {
        gamemode := AiVsHuman;
        players := players[1 := "Computer"];
      } else if gamemode == AiVsHuman {
        gamemode := AiVsAi;
        players := players[0 := "Computer 1"];
        players := players[1 := "Computer 2"];
      } else {
        gamemode := Pvp;
        players := players[0 := "Player 1"];
        players := players[1 := "Player 2"];
      }
    }

    /** `change_difficulty`: the first computer player's level toggles (1 becomes
        0, anything else becomes 1) and the second one's is set equal to it. */
    method ChangeDifficulty()
      requires Valid()
      modifies ai1, ai2
      ensures ai1.level == (if old(ai1.level) == 1 then 0 else 1) && ai2.level == ai1.level
    {
      ai1.level := if ai1.level == 1 then 0 else 1;
      ai2.level := ai1.level;
    }

    /** `next_turn`. */
    method NextTurn()
      modifies this`player
      ensures player == NextPlayer(old(player)) && player != old(player)
    {
      player := player % 2 + 1;
    }

    /** `make_move` without its drawing: mark the square for the player to move,
        whatever it holds (callers check it is empty), then pass the turn. */
    method MakeMove(row: int, col: int)
      requires Valid() && InRange(row, col)
      modifies board, board.squares, this`player
      ensures Valid()
      ensures board.Value() == Mark(old(board.Value()), row, col, old(player))
      ensures player == NextPlayer(old(player))
    {
      board.MarkSqr(row, col, player);
      NextTurn();
    }
  }

  /** A game in its initial state keeps the main loop's invariant. */
  lemma InitialConsistent(g: Game)
    requires g.Valid() && g.Initial()
    ensures g.Consistent()
  {
    InitialNotOver();
  }

  /** A fresh board is not over: nobody has won and it is not full. */
  lemma InitialNotOver()
    ensures Counted(Boards.Initial) && !IsOver(Boards.Initial)
  {
    assert !Wins(Boards.Initial, Lines[0]);
    FinalStateSpec(Boards.Initial);
  }
}
