# Tic-tac-toe game engine and computer opponent

A Dafny model of the game logic of a browser tic-tac-toe game in which a
human plays X against a computer playing O at one of three difficulties.
The model covers the nine-cell board (`gameState`), the eight winning lines,
win and draw detection, applying a move and ending the game, restarting, and
the three opponents: a random empty cell (easy), a one-ply scan for a winning
and then a blocking cell (medium) and exhaustive minimax (hard).

Modules:

- `Wrappers` (wrappers.dfy): `Option`, used where the source yields `undefined`
  or starts a fold from an infinite sentinel.
- `Board` (board.dfy): cells, players, `WinPatterns`, `CheckWinner`, `Full`,
  `EmptyIndices`, and lemmas about them.
- `Opponent` (opponent.dfy): the medium strategy's scan as a function, the
  minimax score (`Score`, with its fold `Fold` over cells 0..8) as ghost
  functions, the hard strategy's choice as the predicate `IsBestMove`, and
  lemmas about them.
- `TicTacToe` (game.dfy): class `Game` holding the board as an `array<Cell>` of
  length 9 with the `gameActive` and `currentPlayer` fields. Its methods update
  the board in place as the source does. The searches mark a cell, evaluate
  and clear it again, and each is proved to return the board unchanged and to
  compute what module `Opponent` specifies.

Decisions:

- `minimax` takes `state` but calls `checkWinner`, which reads the global
  `gameState`. Both are the same array, so the model has one board.
- `getBestMove` evaluates each candidate with `minimax(gameState, 0, false)`
  (script.js:126). The model follows the code and uses depth 0, not depth 1.
  Starting one ply deeper would score every O win one less and every X win
  one more, with draws still 0. From `getBestMove` a game ends at most 8
  plies below the candidate, so O wins score at least 2 and X wins at most
  -2. On those values the change keeps the order of the scores, so the same
  move would be chosen. The model does not prove this.
- `-Infinity`/`Infinity` starting values become `Option<int>`, where `None`
  means "no child seen yet". This is exact, because `Math.max(s, -Infinity)`
  is `s`.
- On a full board, `getRandomMove` and `getBestMove` return `undefined`. The
  model returns `None` there. `getMediumMove` inherits this through its
  random fallback.
- `makeMove` does not check the range of its index. For an index of 9 or
  more, `gameState[index]` is `undefined`, which is not `''`, so the call
  returns with nothing changed. The model requires `index < 9` instead,
  since the only callers pass a cell's own index or a move the opponent
  picked.

## Model

| member | source | states |
|---|---|---|
| `Board.CheckWinner` | script.js:70-79 | true exactly when some one of the 8 `winPatterns` triples holds `p` in all three cells |
| `Board.WinPatternsAreLines` | script.js:12-21 | the 8 patterns are exactly the three rows, three columns and two diagonals of the 3x3 grid: `CheckWinner` agrees with the geometric definition |
| `Board.Other` | script.js:66 | the player whose turn follows is never the one who just moved |
| `Board.PlacingKeepsOtherLoser` | script.js:49-57 | placing one player's mark never completes a line for the other player, so X and O never both have a line |
| `Board.EmptyBoardHasNoWinner` | script.js:168 | after the board is cleared, neither player has a line |
| `Board.EmptyIndices` | script.js:82-84 | holds exactly the indices of the empty cells, ascending, at most 9 of them, and none exactly when the board is full |
| `Board.PlacingRemovesOneEmpty` | script.js:145-148 | marking an empty cell leaves exactly one empty cell fewer, which is why the minimax recursion terminates |
| `Opponent.FirstWinningCell` | script.js:91-112 | returns the lowest empty cell at or after `from` where placing `p` wins for `p`; `None` only when no such cell exists |
| `Opponent.FoldHasChild` | script.js:143-152 | once the loop has passed an empty cell, the best score is a real score and no longer the infinite sentinel |
| `Opponent.ScoreRange` | script.js:137-140 | with depth >= 0 and depth + empties <= 9, the score is in [depth-10, 10-depth], so in [-10, 10]; it equals 10-depth exactly when O has won and depth-10 exactly when only X has |
| `Opponent.FoldIsExtremum` | script.js:142-163 | the fold over cells 0..n-1 is at least (O to move) or at most (X to move) every scanned child's score, and some scanned child attains it |
| `Opponent.ScoreIsExtremum` | script.js:142-164 | a position that is not terminal scores the maximum over its children when O is to move and the minimum when X is, and one child attains it |
| `Opponent.BestMoveIsUnique` | script.js:128-131 | the strict `>` tie-break leaves at most one best move |
| `Opponent.BestMoveAttainsValue` | script.js:119-134 | on a position that is not terminal, the chosen move's score is the minimax value with O to move |
| `Opponent.HardTakesImmediateWin` | script.js:89-134 | when O can win at once, the hard choice is the lowest cell that completes a line for O, the same cell the medium strategy takes |
| `Opponent.TakeWinBeforeBlock` | script.js:89-134 | on O O _ / X X _ / _ _ _, both medium and hard choose cell 2, taking the win instead of blocking |
| `Opponent.MediumBlocks` | script.js:102-112 | on X X _ / _ _ _ / _ _ _, O has no winning cell and the medium scan for X finds cell 2 to block |
| `TicTacToe.Game.constructor` | script.js:7-9 | the game starts with an empty board, X to move and the game active |
| `TicTacToe.Game.MakeMove` | script.js:48-68 | on an occupied cell or an inactive game nothing changes. Otherwise exactly cell `index` becomes `player`. The game ends when `player` wins or the board is full, and otherwise the turn passes to the other player. The consistency invariant is preserved |
| `TicTacToe.Game.Restart` | script.js:167-170 | whatever the prior state, all 9 cells become empty, the game is active and X is to move |
| `TicTacToe.Game.RandomMove` | script.js:81-86 | returns some empty cell, and `None` exactly when the board is full |
| `TicTacToe.Game.ScanForWin` | script.js:91-100 | returns the lowest empty cell where `p` wins, with every trial mark cleared again |
| `TicTacToe.Game.MediumMove` | script.js:89-116 | the board is unchanged. The result is O's lowest winning cell if there is one, else X's lowest winning cell (a block), else some empty cell, and `None` exactly on a full board |
| `TicTacToe.Game.Minimax` | script.js:137-165 | the board is unchanged and the result is `Score` of the board at entry |
| `TicTacToe.Game.BestMove` | script.js:119-135 | the board is unchanged. On a full board the result is `None`. Otherwise it is the lowest empty cell of maximal minimax score |
| `TicTacToe.Game.ComputerMove` | script.js:36-43 | the board is unchanged and the result is `None` exactly on a full board. Otherwise it is an empty cell: any one on Easy, the win-then-block priority cell on Medium, the best minimax move on Hard |
| `TicTacToe.Game.HandleCellClick` | script.js:27-46 | a click on an occupied cell or an inactive game changes nothing. Otherwise the cell becomes X. If that wins or fills the board, the game ends and nothing else changes. Otherwise O is placed on the cell the chosen strategy picks on the board after X's move; the game ends if O wins or the board fills, and otherwise X is to move. The consistency invariant is preserved |

## Left out

- Rendering and the DOM: `document.getElementById`, cell `textContent`, the status messages and their Japanese strings. These are presentation only.
- Event wiring: the click and change listeners and the difficulty dropdown. The difficulty is a parameter of `ComputerMove` and `HandleCellClick`.
- The 300 ms `setTimeout` before the computer replies. `HandleCellClick` makes the click and the reply one atomic step. In the source, `gameActive` stays true during the delay and `currentPlayer` is not checked, so a second click can place a second X before O replies, and a restart during the delay lets the pending O reply land on the cleared board. These interleavings are not modelled.
- `dataset.index` arrives as a string. The model takes a natural-number index.
- TicTacToe.Game.RandomMove: returns an arbitrary empty cell (a nondeterministic choice). It does not model that `Math.random` makes every empty cell equally likely.
- TicTacToe.Game.MakeMove: requires `index < 9`. In the source an index of 9 or more reads `undefined`, fails the emptiness test and changes nothing; the model does not cover that case.
- The claim that the hard opponent never loses from the empty board, and the scripted X 0, 4, 8 game, are not proved. Both need the verifier to evaluate the whole game tree, which is too large for it. What is proved is that `BestMove` returns exactly the minimax-optimal, lowest-index move.
