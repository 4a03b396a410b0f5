# Tic-tac-toe rules engine, modelled in Dafny

The repository is a graphical tic-tac-toe game in which a human plays against a
bot that picks an empty cell at random. Its only logic beyond drawing is the
rules engine: class `TicTacToe` in `main.py`. The same class appears again as
`Morpion` in `principal.py`, renamed into French and otherwise line-for-line the
same. This project models that engine, and the part of the controller that turns
a mouse click into moves.

- `rules.dfy`, module `Rules`: the rules as pure functions over the grid value
  (`seq<seq<int>>`, three rows of three cells).
  - Cells keep the source's encoding: `0` empty, `1` player, `-1` bot.
  - The outcome keeps the source's integers: `1`, `-1`, `200` for a tie,
    `0` while the game is open.
  - `check_rows`, `check_columns`, `check_diagonals` and `check_tie` become
    functions, and `check_winner` is their chain of Python `or`s (`OrElse`).
  - `Outcome`, `Code` and `Evaluate` give an independent reading of the outcome:
    a flat list of the eight lines in precedence order. `CheckWinnerIsEvaluate`
    proves that `check_winner` agrees with it.
  - `player_move` becomes the function `PlayerMove`.
  - `bot_move` becomes the relation `BotMoved`: `-1` goes into any cell of
    `valid_coords`.
- `engine.dfy`, module `Engine`: class `TicTacToe`.
  - It holds the grid as an `array2<int>` and the field `winner`.
  - Its methods update the grid in place, as the source does.
  - `CheckRows`, `CheckColumns` and `CheckTie` are loops with early return, and
    `ValidCoords` is a nested loop; each is proved equal to its `Rules`
    function. `CheckDiagonals` is two tests, as `check_diagonals` is.
- `controller.dfy`, module `Controller`: the pixel-to-cell arithmetic of
  `handle_mouse_click`, and class `GameController` with the click handler.
  - A click becomes the relation `Clicked`: the handler plays the bot only
    after a successful player move.
  - The controller's invariant, `Balanced`, is kept by every click: the player
    leads the bot by at most one cell, and by one only on a full board.

The precedence rows, then columns, then diagonals, then tie can be observed.
Nothing checks for a winner between the player's move and the bot's reply
(main.py:299-300). So one click can leave a complete player row and a complete
bot row on the board together. `Controller.ThreeClicks` proves this happens
from the empty grid after three clicks. `check_winner` then
reports `-1`, because row 0 is scanned before row 1.

## Model

| member | source | states |
|---|---|---|
| `Rules.EmptyGrid` | main.py:33 | the initial grid is 3x3 and every cell is 0 |
| `Rules.FirstCompleteIndex` | main.py:58-61 | a scan with early return stops at the first complete line: every earlier line is incomplete, and it stops at the end only if no line is complete |
| `Rules.FirstComplete` | main.py:58-61 | the scan returns non-zero exactly when some line is complete |
| `Rules.FirstCompleteIndexAppend` | main.py:43-48 | scanning two lists one after the other stops in the first list if it can, otherwise in the second one |
| `Rules.FirstCompleteAppend` | main.py:43-48 | scanning `a + b` returns `scan(a) or scan(b)` |
| `Rules.OrElse` | main.py:43-48 | Python `x or y` on ints: 0 exactly when both operands are 0, and always one of the two operands |
| `Rules.CheckRows` | main.py:58-61 | non-zero exactly when some row holds three equal non-zero cells; then it is the value of the topmost such row; with valid cells the result is 0, 1 or -1 |
| `Rules.CheckColumns` | main.py:70-75 | non-zero exactly when some column is complete; then it is `grid[0][c]` of the leftmost such column; with valid cells the result is 0, 1 or -1 |
| `Rules.CheckDiagonals` | main.py:84-94 | `grid[0][0]` if the main diagonal is complete, else `grid[0][2]` if the anti-diagonal is, else 0; a non-zero result is the centre cell |
| `Rules.FullIffNoEmptyCell` | main.py:103 | a grid has no empty cell exactly when its count of empty cells is 0 |
| `Rules.CheckTie` | main.py:103 | 200 exactly when no cell is 0, and 0 otherwise |
| `Rules.CheckWinner` | main.py:43-48 | 0 exactly when there is no complete line and some cell is empty; with valid cells the result is 0, 1, -1 or 200 |
| `Rules.CheckWinnerPrecedence` | main.py:43-48 | the chain rows, columns, diagonals, tie equals one scan of the eight lines in that order, with the tie test last; that scan is non-zero exactly when some line is complete |
| `Rules.CheckWinnerIsEvaluate` | main.py:43-48 | on every grid of valid cells, `check_winner` returns the code of the reference outcome `Evaluate` |
| `Rules.OneSideWins` | main.py:43-48 | when all complete lines belong to one side, that side is reported, also on a full board; so a full board with a winning line does not report 200 |
| `Rules.PlayerMove` | main.py:116-119 | succeeds exactly when cell (i, j) is 0; on success that cell becomes 1; every other cell is unchanged; on failure the grid is unchanged |
| `Rules.PlayerMoveCounts` | main.py:116-119 | a player move keeps cells valid; a successful one adds one player cell and removes one empty cell, and the bot count does not change |
| `Rules.Place` | main.py:117 | the assignment `grid[i][j] = v`: cell (i, j) holds `v` and every other cell keeps its value |
| `Rules.EmptyInRowSpec` | main.py:128-130 | the list built for one row holds exactly that row's empty cells, in column order |
| `Rules.EmptyInRowsSpec` | main.py:128-130 | the list built for the first m rows holds exactly their empty cells, in row-major order |
| `Rules.EmptyCells` | main.py:128-130 | `valid_coords` lists every empty cell once, only in-range empty cells, and is non-empty exactly when the grid is not full |
| `Rules.BotMoved` | main.py:128-135 | succeeds exactly when `valid_coords` is non-empty, that is when the grid is not full; the new grid is then the old one with -1 in any one listed cell; otherwise it is unchanged |
| `Rules.BotMoveEffect` | main.py:128-135 | a bot move succeeds exactly when some cell is empty; then exactly one empty cell becomes -1; on a full grid nothing changes |
| `Rules.BotMoveKeepsCells` | main.py:128-135 | a bot move never overwrites a non-zero cell and keeps cells valid |
| `Rules.BotMoveCounts` | main.py:128-135 | a successful bot move adds one bot cell and removes one empty cell; the player count never changes |
| `Rules.BotPicks` | main.py:132-133 | writing -1 into any cell listed in `valid_coords` is a bot move |
| `Rules.BotTakesLastEmptyCell` | main.py:128-135 | with exactly one empty cell, the bot move succeeds and fills that cell |
| `Controller.EmptyGridBalanced` | main.py:33 | the initial grid has as many player cells as bot cells |
| `Controller.Clicked` | main.py:299-300 | the player's move on (i, j), then a bot move only if that move succeeded; a click on an occupied cell leaves the grid unchanged |
| `Controller.ClickKeepsBalance` | main.py:299-300 | every click keeps cells valid and never overwrites an occupied cell; player cells minus bot cells stays 0, or 1 on a full board |
| `Controller.ClickAnsweredAt` | main.py:299-300 | a click on an empty cell may be answered by the bot on any cell still empty after the player's move |
| `Controller.ThreatReachable` | main.py:299-300 | from the empty grid, two clicks reach a board with two player cells in row 1 and two bot cells in row 0 |
| `Controller.PlayerRowReportedAsBotWin` | main.py:299-300 | from that board, the click that completes the player's row can be answered by the bot completing row 0; `check_winner` then returns -1 |
| `Controller.ThreeClicks` | main.py:299-300 | from the empty grid, three clicks along row 1 can each be answered in row 0, leaving the player's row 1 complete while `check_winner` returns -1 |
| `Engine.TicTacToe.constructor` | main.py:27-34 | a fresh grid with every cell 0, and `winner` is 0 |
| `Engine.TicTacToe.CheckWinner` | main.py:36-49 | returns `check_winner` of the current grid, stores it in `winner`, and leaves the grid unchanged, so a second call returns the same value |
| `Engine.TicTacToe.CheckRows` | main.py:51-61 | the loop over the rows returns `Rules.CheckRows` of the grid |
| `Engine.TicTacToe.CheckColumns` | main.py:63-75 | the loop over the columns returns `Rules.CheckColumns` of the grid |
| `Engine.TicTacToe.CheckDiagonals` | main.py:77-94 | returns `Rules.CheckDiagonals` of the grid |
| `Engine.TicTacToe.CheckTie` | main.py:96-103 | the scan over all cells returns `Rules.CheckTie` of the grid |
| `Engine.TicTacToe.PlayerMove` | main.py:105-119 | the result and the new grid are `Rules.PlayerMove` of the old grid; the grid stays valid |
| `Engine.TicTacToe.ValidCoords` | main.py:128-130 | the nested loop collects exactly `Rules.EmptyCells` of the grid |
| `Engine.TicTacToe.BotMove` | main.py:121-135 | the result and the new grid stand in the `BotMoved` relation to the old grid; the grid stays valid |
| `Controller.CellAt` | main.py:297 | row i is the horizontal strip `i * (height // 3) <= y < (i + 1) * (height // 3)` holding the pixel, and column j the vertical strip holding it |
| `Controller.CellAtInGrid` | main.py:297 | in a window whose sides are multiples of 3, every pixel inside maps to a cell with 0 <= i, j < 3 |
| `Controller.WindowClicksHitGrid` | main.py:315 | in the 600x600 window every click with 0 <= x, y < 600 maps to a cell of the grid |
| `Controller.GameController.constructor` | main.py:262-274 | a new game on the empty grid, which satisfies the controller's invariant |
| `Controller.GameController.HandleMouseClick` | main.py:289-300 | the grid after the click is the player's move on the clicked cell, followed by a bot move only when the player's move succeeded; the invariant `Balanced` is kept |

## French copy

`principal.py` holds the same engine and controller under French names. Each row
names the model member that covers it.

| principal.py | main.py | model |
|---|---|---|
| `Morpion.__init__`, principal.py:13-20 | main.py:27-34 | `Engine.TicTacToe.constructor` |
| `verifier_gagnant`, principal.py:22-35 | main.py:36-49 | `Engine.TicTacToe.CheckWinner`, `Rules.CheckWinner` |
| `verifier_lignes`, principal.py:37-47 | main.py:51-61 | `Engine.TicTacToe.CheckRows`, `Rules.CheckRows` |
| `verifier_colonnes`, principal.py:49-61 | main.py:63-75 | `Engine.TicTacToe.CheckColumns`, `Rules.CheckColumns` |
| `verifier_diagonales`, principal.py:63-80 | main.py:77-94 | `Engine.TicTacToe.CheckDiagonals`, `Rules.CheckDiagonals` |
| `verifier_egalite`, principal.py:82-89 | main.py:96-103 | `Engine.TicTacToe.CheckTie`, `Rules.CheckTie` |
| `coup_joueur`, principal.py:91-105 | main.py:105-119 | `Engine.TicTacToe.PlayerMove`, `Rules.PlayerMove` |
| `coup_bot`, principal.py:107-121 | main.py:121-135 | `Engine.TicTacToe.BotMove`, `Rules.BotMoved` |
| `GestionnaireJeu.__init__`, principal.py:235-247 | main.py:262-274 | `Controller.GameController.constructor` |
| `gerer_clic_souris`, principal.py:262-273 | main.py:289-300 | `Controller.GameController.HandleMouseClick`, `Controller.CellAt` |

The fields map as `grille` to `grid` and `gagnant` to `winner`. The list
`coords_valides` maps to `valid_coords`.

## Behaviour worth noting

- `check_winner` stores its result in the field `winner` (`gagnant`) before
  returning it (main.py:43-49). `Engine.TicTacToe.CheckWinner` does the same
  and leaves the grid unchanged.
- Its docstring (main.py:41) lists 1, -1 and 0 as the possible results. It
  also returns 200 on a full board with no line, because `check_tie`
  (main.py:103) is the last link of the chain. `Rules.CheckWinner` states all
  four values.
- `player_move` indexes the grid directly (main.py:116). An index of 3 raises
  `IndexError`, and a negative index wraps to the end of the row. The move
  methods therefore require 0 <= i, j < 3.
- One click can complete a player line and a bot line together. Nothing
  checks for a winner between the player's move (main.py:299) and the bot's
  reply (main.py:300), so the order of the checks decides the result.
  `Controller.ThreeClicks` builds
  such a game from the empty grid. It reaches a board where row 1 belongs to
  the player and row 0 to the bot, and `check_winner` reports the bot.

## Left out

- Rendering (`UserInterface`, `InterfaceUtilisateur`): pygame drawing, fonts
  and window calls. This includes the float division that centres the result
  message.
- The event loops `run` / `update_ui` (`executer` / `mettre_a_jour_iu`):
  event polling, `sleep(2)`, display updates and the `running` flag. They are
  I/O. They call `check_winner` twice per frame, and
  `Engine.TicTacToe.CheckWinner` already says that a call leaves the grid
  unchanged.
- The player and bot colours drawn at random when the module is imported.
  They are presentation only.
- How likely each cell is under `rd.choice` / `random.choice`. The bot may pick
  any listed empty cell, but uniformity is a probabilistic claim Dafny cannot
  state.
- The window's own share of the grid: the UI holds a reference to the same
  list, but only reads it.
- `Controller.GameController.Valid` assumes that only clicks change the grid.
  In the program, nothing else writes to it.
- Python's behaviour for indices outside 0..2 (wrap-around, `IndexError`). The
  move methods and `HandleMouseClick` require an in-range cell instead.
- `Controller.CellAt` requires both window sides to be at least 3. With a
  smaller side, `size // 3` is 0 and the source raises `ZeroDivisionError`.
