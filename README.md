# Tic-tac-toe with a minimax opponent: a verified model

This project models the game logic of `tictactoe.py`, a pygame tic-tac-toe with
two computer players, and proves what that logic promises. All drawing is
removed. The model has five modules.

- `Boards` (`boards.dfy`) is the `Board` class: a 3×3 grid of cells holding 0
  (empty), 1 or 2, plus the counter `marked_sqrs`.
  - The class keeps the grid in an `array2<Cell>`. `Snapshot` is the grid and
    counter as a value: nine cells in row-major order, and the counter.
  - Win detection (`final_state`), `mark_sqr`, `empty_sqr`, `get_empty_sqrs`,
    `isfull` and `isempty` are here.
  - `FirstWin` over `Lines` is an independent reference for win detection. It
    scans the eight lines in the source's order: columns, rows, descending
    diagonal, ascending diagonal.
- `Search` (`search.dfy`) defines `minimax` as recursive functions over board
  values. It proves the bounds, the terminal cases and the tie-breaking rule of
  that search.
- `Ai` (`ai.dfy`) is the `AI` class: `rnd`, the imperative `minimax` with its two
  loops over deep copies, and `eval`. `minimax` is proved equal to the search
  functions, `rnd` to an index into the empty-squares list, and `eval` to one
  or the other by level.
- `Games` (`games.dfy`) is the `Game` class without rendering: `make_move`,
  `next_turn`, `isover`, `change_gamemode`, `change_difficulty` and `reset`,
  plus the winner name shown at the end of a game.
- `MainLoop` (`mainloop.dfy`) covers `main`. Class `Session` holds `main`'s
  locals `game`, `board`, `ai_1` and `ai_2`. Its methods are the rules by which
  `main` accepts a human click, plays a computer turn in each mode, and handles
  the 'r' key, the '0' and '1' keys and the Restart button.

Two quantities are central:
- Counting invariant (`Counted`): `marked_sqrs` equals the number of non-zero
  cells.
- Main-loop invariant (`Game.Consistent`): the counter is exact, and a running
  game is not over.

`mark_sqr` does not check occupancy. Its contract says the counter stays exact
exactly when the square was empty. The click rule checks emptiness on `main`'s
`board`, which is the game's board except after the Restart button. Computer
moves are not checked at all; they are proved to be empty squares through
`AI.Eval`.

`random.randrange` becomes a `roll: nat` argument. `rnd` takes the empty square
at index `roll % n`, where `n` is the number of empty squares.

Behaviour of the code that a reader might not expect, modelled as written:
- Marking an occupied square does not fail. It overwrites the square and still
  increments `marked_sqrs`.
- `final_state` reports only the winning mark. It does not say which line won.
- `reset` re-runs `__init__`. The mode returns to pvp, both computer players go
  back to level 1, and the default names come back.
- Both computer players start `minimax` as the minimizing side. The minimizing
  side places the searching player's own mark, and the maximizing side always
  places 1.

## Model

| member | source | states |
|---|---|---|
| Boards.MarkSpec | tictactoe.py:72-74 | `mark_sqr` sets exactly the chosen square to `player`, leaves the other eight alone and adds one to `marked_sqrs`. On a counted board the counter stays exact if and only if the square was empty. |
| Boards.Board.MarkSqr | tictactoe.py:72-74 | Marking in place changes the board's value to `Mark` of its old value, with no occupancy check. |
| Boards.Board.constructor | tictactoe.py:19-22 | A new board has a fresh grid of zeros and `marked_sqrs` 0, so it is empty and not full. |
| Boards.Board.Copy | tictactoe.py:132 | `copy.deepcopy(board)` gives a board with a new grid and the same value, so later marks on the copy never reach the original. |
| Boards.Board.GetEmptySqrs | tictactoe.py:79-86 | The nested loops return exactly the list `EmptySqrs` of the board's value. |
| Boards.EmptySqrsSpec | tictactoe.py:76-86 | `get_empty_sqrs` lists exactly the in-range squares holding 0, each once, in strictly increasing row-major order. Its length is the number of zeros, which is 9 − `marked_sqrs` on a counted board. |
| Boards.FullAndEmptySpec | tictactoe.py:88-92 | On a counted board, `isfull` holds iff there is no empty square, and `isempty` holds iff all nine squares are empty. |
| Boards.ColumnWinIsFirstWin | tictactoe.py:31-39 | The vertical scan from column `col` on returns what the reference scan over the remaining column lines returns. |
| Boards.RowWinIsFirstWin | tictactoe.py:41-49 | The horizontal scan from row `row` on returns what the reference scan over the remaining row lines returns. |
| Boards.FinalStateIsFirstWin | tictactoe.py:24-70 | `final_state`, with both diagonals returning `squares[1][1]`, equals the reference first-winning-line scan over the eight lines in the source's order. |
| Boards.FinalStateSpec | tictactoe.py:24-70 | `final_state` is non-zero iff some column, row or diagonal holds three equal non-zero marks, and then it is the mark of the first such line in the source's order. |
| Search.PickUpper | tictactoe.py:131-139 | After the loop over the empty squares, no child's evaluation is strictly better than the result, and neither is the starting bound. |
| Search.PickChoice | tictactoe.py:146-154 | The loop's result is either the starting pair, or the child at some position `k` whose evaluation beats the start and is strictly better than every earlier child's. That makes `k` the first square reaching the result. |
| Search.MinimaxBounds | tictactoe.py:109-154 | On a counted board, `minimax` returns a value in {-1, 0, 1}. The move is None exactly when the board is over, and otherwise it is an empty square. A board won by 1 gives (1, None), won by 2 gives (-1, None), and full without a winner gives (0, None). |
| Search.MinimaxChoice | tictactoe.py:126-154 | On a counted board that is not over, no child beats the returned value. The returned move is the first empty square in row-major order whose child reaches it. |
| Ai.AI.constructor | tictactoe.py:95-97 | `AI(level, player)` stores both fields. |
| Ai.AI.Rnd | tictactoe.py:101-105 | Given at least one empty square, `rnd` returns the empty square at position `roll % n` of `get_empty_sqrs`, so the result is always an empty square. |
| Ai.AI.Minimax | tictactoe.py:109-154 | The imperative search returns exactly the pair `Search.Minimax` gives. It has no `modifies` clause, so the caller's board is never changed, and two calls on the same board agree. |
| Ai.AI.SearchChild | tictactoe.py:131-134 | One loop iteration (deep copy, mark with 1 or `player`, recurse with the other side) yields the child evaluation the search function assigns to that square. |
| Ai.AI.Eval | tictactoe.py:158-172 | Level 0 plays `rnd`'s square; any other level plays the move of `minimax(board, False)`. On a counted board that is not over, the answer is always an empty square. |
| Games.ModeCycle | tictactoe.py:294-305 | `change_gamemode` never stays in the same mode, and three calls restore it. |
| Games.NextPlayer | tictactoe.py:320-321 | `next_turn` always hands the turn to the other player. |
| Games.WinnerSpec | tictactoe.py:396 | The winner's name belongs to the owner of the first winning line. It is "No one" when no line wins. |
| Games.Game.constructor | tictactoe.py:175-185 | A new game has an empty fresh board, player 1 to move, mode pvp, running, the default names and two fresh computer players at level 1 for marks 1 and 2. |
| Games.Game.Reset | tictactoe.py:333-334 | `reset` re-runs `__init__`. Every field gets its initial value, including a fresh board and fresh computer players. |
| Games.Game.ChangeGamemode | tictactoe.py:294-307 | The mode advances pvp → ai_vs_human → ai_vs_ai → pvp. The names become [first name, "Computer"], then ["Computer 1", "Computer 2"], then the defaults. |
| Games.Game.ChangeDifficulty | tictactoe.py:309-313 | `ai_1.level` becomes 0 if it was 1 and 1 otherwise, and `ai_2.level` is set equal to it. |
| Games.Game.NextTurn | tictactoe.py:320-321 | The player to move becomes the other one. |
| Games.Game.MakeMove | tictactoe.py:315-318 | The square is marked for the player to move, and the turn then passes to the other player. |
| Games.InitialConsistent | tictactoe.py:175-185 | A game in its initial state keeps the main-loop invariant. |
| Games.InitialNotOver | tictactoe.py:19-22 | A fresh board is counted, and it is not over. |
| MainLoop.Session.constructor | tictactoe.py:339-342 | `main` starts a new game and takes references to its board and computer players, all newly built. |
| MainLoop.Session.Restart | tictactoe.py:364-368 | The 'r' key resets the game and re-fetches the references, so `main`'s board and computer players are again the game's, all newly built. |
| MainLoop.Session.RestartButton | tictactoe.py:250-251 | The Restart button resets the game but leaves `main`'s references on the discarded board and computer players. The game gets a new board and new computer players, and the discarded board's value is unchanged. |
| MainLoop.StaleLevelScenario | tictactoe.py:370-374 | As written: after the Restart button the '0' key sets `main`'s discarded computer players to level 0, while the game's new ones stay at level 1. |
| MainLoop.Session.SetLevel | tictactoe.py:370-378 | The '0' and '1' keys set both of `main`'s computer players to that level. |
| MainLoop.Session.PlayAndCheck | tictactoe.py:392-397 | `make_move` followed by the `isover` check stops the game exactly when the new board is over, and then reports the winner from `main`'s board. On a synchronized session an empty square keeps the main-loop invariant. |
| MainLoop.Session.HumanClick | tictactoe.py:391-397 | A click is played only when `main`'s board shows the square empty, the game runs and the mode is not ai_vs_ai. Otherwise nothing changes. On a synchronized session the main-loop invariant is preserved. |
| MainLoop.Session.AiHumanTurn | tictactoe.py:403-414 | In ai_vs_human mode, when it is player 2's turn and the game runs, `ai_2` plays an empty square: `rnd`'s at level 0 and the minimizer's move otherwise. The turn returns to player 1, and the game stops exactly when it is over. The invariant is kept. |
| MainLoop.Session.AiAiTurn | tictactoe.py:417-430 | In ai_vs_ai mode, while the game runs, the computer player owning the mark to move plays an empty square chosen by its level. The turn passes, and the game stops exactly when it is over. The invariant is kept. |
| MainLoop.StaleSession | tictactoe.py:250-251 | After a click on (0, 0) and the Restart button, the game is back at its start while `main`'s board still shows (0, 0) taken. |
| MainLoop.StaleCornerClick | tictactoe.py:391-392 | A click on (0, 0) after the Restart button is ignored, although the game's new board is empty there. |
| MainLoop.StaleRestartScenario | tictactoe.py:250-251 | As written: after the Restart button, the same square is accepted twice, so player 2 overwrites player 1 and the counter is no longer exact. |
| MainLoop.RestartScenario | tictactoe.py:364-368 | Corrected: with a restart that re-fetches the references, the same clicks are played once each and the counter stays exact. |
| MainLoop.CornerTaken | tictactoe.py:250-251 | Scenario fixture: one mark in a corner leaves a board that is not over, with the centre still empty. |
| MainLoop.CentreTaken | tictactoe.py:250-251 | Scenario fixture: one mark in the centre leaves a board that is not over. |
| MainLoop.CentreOverwritten | tictactoe.py:250-251 | Scenario fixture: marking the occupied centre again breaks the counting invariant. |
| MainLoop.CornerAndCentre | tictactoe.py:364-368 | Scenario fixture: a corner and the centre, marked by different players, give a counted board that is not over. |

## Left out

- Rendering is not modelled: `show_lines`, `draw_fig`, the `show=True` line drawing in `final_state`, the buttons, the text fields and `display_winner`. These only draw on a global screen.
- Window setup, the pygame event loop and the 1-second `pygame.time.delay` are not modelled. They are I/O and timing.
- The mapping from a mouse position to a square (`pos // SQSIZE`) is not modelled. The click methods take an in-range `(row, col)`. `constants.py` is not part of this model, so the pixel bounds are unknown.
- Button hit-testing and name editing in the text fields (`handle_input_field_click`, `handle_input_field_event`) are not modelled. They are UI. The buttons' effects are modelled: the mode button by `Game.ChangeGamemode`, the difficulty button by `Game.ChangeDifficulty`, and the Restart button by `Session.RestartButton`.
- The `print` calls in `eval` are left out.
- The uniform distribution of `random.randrange` is not modelled. The index is the `roll` argument reduced modulo the number of empty squares, so every empty square is reachable.
- numpy's float storage is not modelled. Cells are the integers 0, 1 and 2.
- Which line won is not reported, because `final_state` returns only the mark.
- The game-theoretic outcome is not proved: there is no lemma that two optimal players draw. That would need the whole game tree evaluated.
- MainLoop.Session.AiHumanTurn: requires `main`'s references to be the game's (`Synced`). Computer turns after the Restart button, which search the discarded board, are not covered.
- MainLoop.Session.AiAiTurn: requires `Synced` for the same reason.
- Games.Game.constructor: the widget set-up inside `__init__` (`show_lines`, `create_buttons`, `create_input_fields`) is left out.

## Findings

| source | as written | input that shows it | evidently intended | confidence | as-written member | corrected member |
|---|---|---|---|---|---|---|
| tictactoe.py:250-251 | The Restart button calls `game.reset()`, which builds a new board and new computer players. `main`'s locals `board`, `ai_1` and `ai_2` are not re-fetched, unlike the 'r' key at lines 364-368. Later clicks are then checked against the discarded board (line 391) but played on the new one, and the '0' and '1' keys set the discarded computer players' level. | In pvp mode: click (0, 0), press Restart, click (0, 0) (ignored), then click (1, 1) twice. Both centre clicks are accepted: player 2 overwrites player 1 and `marked_sqrs` is 2 with one square marked. | The button restarts like the 'r' key, so the same clicks play (0, 0) and (1, 1) once each and the counter stays exact. | not executed | MainLoop.StaleRestartScenario | MainLoop.RestartScenario |
