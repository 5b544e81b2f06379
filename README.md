# Lights Out: grid model and bounded solver

A Dafny model of the puzzle logic of a single-file Lights Out game. The
game keeps a rows x cols board of cells that are lit (1) or unlit (0).
Toggling a cell flips it and each of its up/down/left/right neighbours that
lies on the board. A puzzle is made by toggling random cells of an all-off
board. The solver looks for a move sequence that turns every light off. It
runs an iterative-deepening depth-first search with bounds 0 .. rows * cols.
The search tries moves in row-major order and skips any state already on the
current path.

Files and modules:

- `grid.dfy`, module `GridModel`. Grids are `seq<seq<int>>` values. `Toggle`
  is the reference meaning of a toggle: flip exactly the in-bounds cells at
  Manhattan distance at most 1. `ToggleCell` is the source's loop over its
  five-cell list, proved equal to `Toggle`. The module also has the all-off
  test, the effect `Apply` of a move sequence, and the algebra of toggles:
  each toggle is self-inverse, toggles commute, and a cell flips iff an odd
  number of moves hit it.
- `solver.dfy`, module `BoundedSolver`. `Dfs` and `Scan` are functions that
  say what the recursive search returns. `Scan` is its row-major move loop.
  `SearchTrail` is a class holding the two objects the search shares and
  updates in place: the `path` list and the `visited` set. `DfsSolve` is the
  recursive method; `TryMove` is one turn of its move loop, which
  appends/adds before the recursive call and pops/removes after a failed
  one. It is proved to return what `Dfs` says
  and to restore the trail on failure. `Deepen` is the depth loop as a
  function and `RunSolver` is the loop itself. The lemmas prove that a
  result solves the start within the bound, and that the search fails only
  when no solution fits the bound. Since smaller bounds are tried first, the
  result is a shortest solution.
- `game.dfy`, module `Game`. `Board` is the game object: its size and live
  board. It covers the size clamp, toggling the live board, the game-over
  test, and puzzle generation from an explicit list of draws. Two lemmas
  cover generated puzzles. Replaying the draws, in any order, solves the
  puzzle. The solver never answers "not found" on a generated puzzle.
- `scenarios.dfy`, module `SolverScenarios`. Two worked examples of the
  depth loop: a lit 1 x 1 board, and a 3 x 3 board with only the centre toggled.

The tuple-of-tuples state key used for the visited set is the grid value
itself here. Dafny sequences compare by value, so two keys are equal exactly
when the grids are equal.

An out-of-range board size is clamped to [1, 12], not rejected, and the
board is rebuilt at the clamped size. The model follows that
(`Game.ClampDimension`, `Game.Board.SetGrid`).

## Model

| member | source | states |
|---|---|---|
| `GridModel.Toggle` | LightsOut.py:210-213 | a toggle keeps the grid's rows x cols shape |
| `GridModel.ToggleCell` | LightsOut.py:210-213 | walking the five listed cells and flipping the in-bounds ones gives exactly `Toggle`: the in-bounds cells at distance at most 1 from (r, c) are flipped and every other cell is unchanged |
| `GridModel.NearIsNeighbourhood` | LightsOut.py:211 | the five-cell list (the cell, up, down, left, right) is exactly the set of cells at Manhattan distance at most 1 |
| `GridModel.TogglePreservesBinary` | LightsOut.py:211-213 | `1 - x` keeps every cell in {0, 1} |
| `GridModel.ToggleInvolution` | LightsOut.py:213 | toggling the same cell twice gives back the original grid |
| `GridModel.AllOff` | LightsOut.py:141 | the fresh board has shape rows x cols and every cell is 0 |
| `GridModel.IsSolved` | LightsOut.py:276-277 | the game-over test on any grid: it holds iff every row is a row of zeros |
| `GridModel.SolvedIffAllOff` | LightsOut.py:276-277 | "every cell equals 0" holds iff the grid is the all-off grid of its shape |
| `GridModel.Apply` | LightsOut.py:142-144 | toggling a sequence of moves keeps the grid's shape |
| `GridModel.ApplyAppend` | LightsOut.py:142-144 | applying `a + b` is applying `a` and then `b` |
| `GridModel.ApplyPreservesBinary` | LightsOut.py:142-144 | a sequence of toggles keeps every cell in {0, 1} |
| `GridModel.ApplyCell` | LightsOut.py:211-213 | after a move sequence a cell is flipped iff an odd number of the moves hit it |
| `GridModel.CountNearPermutation` | LightsOut.py:211-213 | how many moves hit a cell depends only on the multiset of moves |
| `GridModel.ApplyPermutation` | LightsOut.py:142-144 | toggles commute: any reordering of a move sequence gives the same grid |
| `GridModel.ApplyReplay` | LightsOut.py:142-144 | replaying a move sequence, in the same or any other order, restores the grid it started from |
| `BoundedSolver.Dfs` | LightsOut.py:183-202 | the search's result: the solved test comes before the budget test, so a solved state returns the current path even with no budget left; a result is longer than `path` by at most `depth_left` moves, and by at least one when the state is unsolved |
| `BoundedSolver.Scan` | LightsOut.py:188-202 | the row-major move loop: a move whose state is on the path is skipped, the first successful recursion wins, and every result commits at least one and at most `depth_left` moves beyond `path` |
| `BoundedSolver.DfsSound` | LightsOut.py:183-202 | a returned list is `path` extended by at most `depth_left` in-bounds moves; applying the new moves to the state solves it; no state along them was in `visited` |
| `BoundedSolver.ScanSound` | LightsOut.py:188-202 | the same guarantee for the row-major move loop from any cell on |
| `BoundedSolver.DfsComplete` | LightsOut.py:183-202 | the search succeeds whenever some in-bounds solution within the budget passes through distinct states, none of them in `visited` |
| `BoundedSolver.ScanComplete` | LightsOut.py:188-202 | the move loop succeeds when started at or before the first move of such a solution |
| `BoundedSolver.StateOnWalk` | LightsOut.py:195-197 | every state added along a path is the result of some non-empty prefix of its moves |
| `BoundedSolver.FindRepeat` | LightsOut.py:193 | a walk that is not simple returns to an earlier state |
| `BoundedSolver.Shorten` | LightsOut.py:193-194 | every solution can have its loops cut out, leaving a simple solution that is no longer |
| `BoundedSolver.Deepen` | LightsOut.py:164-178 | the depth loop: each bound runs a fresh search from an empty path and a visited set holding only the start, the first success is returned, a result never exceeds the last bound, and an already-solved start gives `[]` |
| `BoundedSolver.FailureExcludesShortSolution` | LightsOut.py:164-167 | when the depth-`d` search from the start fails, every solution is longer than `d` |
| `BoundedSolver.DeepenSound` | LightsOut.py:164-177 | a result of the depth loop solves the start with in-bounds moves in at most rows x cols moves |
| `BoundedSolver.DeepenOptimal` | LightsOut.py:164-178 | the result is no longer than any solution, and "not found" only happens when every solution is longer than rows x cols |
| `BoundedSolver.SearchTrail.constructor` | LightsOut.py:165-166 | each bound starts with an empty path and a visited set holding only the start |
| `BoundedSolver.DfsSolve` | LightsOut.py:183-202 | returns what `Dfs` specifies; on `None`, `path` and `visited` are exactly as on entry; on success, `path` is the returned list and `visited` gained exactly the states along the new moves |
| `BoundedSolver.TryMove` | LightsOut.py:190-199 | one turn of the move loop on the shared trail: a success is what the loop from (r, c) returns, with the trail holding the result; a failure restores `path` and `visited` exactly and hands over to the next cell |
| `BoundedSolver.RunSolver` | LightsOut.py:160-178 | the depth loop returns a shortest in-bounds solution of length at most rows x cols, `[]` for an already-solved start, and "not found" only when no solution of length at most rows x cols exists |
| `Game.ClampDimension` | LightsOut.py:230-231 | the clamped size lies in [1, 12], equals the request when that is in range, and is 1 or 12 otherwise |
| `Game.RandomMoveCountRange` | LightsOut.py:132-138 | the random move count lies between 3 and the number of cells once the board has at least three cells, and between 1 and the number of cells otherwise |
| `Game.Board.constructor` | LightsOut.py:21-23 | a new game has a 3 x 3 board holding a generated puzzle (the generation call at LightsOut.py line 114) |
| `Game.Board.ToggleState` | LightsOut.py:205-208 | toggling the live board replaces it by `Toggle` of the old board and keeps the board invariant |
| `Game.Board.IsGameOver` | LightsOut.py:273-274 | the game is over iff the live board is all off |
| `Game.Board.GeneratePuzzle` | LightsOut.py:140-144 | the new board is the all-off board with the drawn moves toggled in order |
| `Game.Board.SetGrid` | LightsOut.py:230-237 | the size becomes the clamped request and the board a fresh puzzle of that size |
| `Game.GeneratedPuzzleSolvedByReplay` | LightsOut.py:141-144 | a generated puzzle is solved by replaying its draws in the same or any other order |
| `Game.GeneratedPuzzleIsSolvable` | LightsOut.py:131-178 | on a generated puzzle the depth loop returns a solution, and one no longer than the draws |
| `SolverScenarios.SingleLitCell` | LightsOut.py:164-201 | a lit 1 x 1 board is solved by the single move (0, 0) |
| `SolverScenarios.CentrePuzzle` | LightsOut.py:164-201 | the 3 x 3 board with the centre toggled is solved by exactly the centre move |
| `SolverScenarios.CentreDeadEnds` | LightsOut.py:188-199 | on that board the four moves before the centre in row-major order each leave a lit cell and are passed over |
| `SolverScenarios.CentreMoveSolves` | LightsOut.py:184-185 | on that board the centre move leads to a solved state, so the search returns `[(1, 1)]` |

## Left out

- The tkinter interface is not modelled: window layout, `create_grid`, `update_buttons`, `animate_ai_move`, the log widget (`_log`, `clear_move_log`), message boxes and key bindings. It has no behaviour to model.
- The solver thread, the lock and the `root.after` scheduling of solution moves are not modelled, and neither is `_finalize_ai_move`, which replays each move on the live board. The solver is modelled as a plain call on a snapshot of the board.
- `random.randint` and `random.randrange` are replaced by an explicit `draws` sequence. `Game.RandomDraws` states the range the random calls can return.
- `time.time()` and the elapsed-time report are not modelled (wall-clock input).
- Reading the size from the spin boxes, including the silent return when the text is not an integer, is not modelled. Only the clamp is kept.
- `_minimax_cache` and `ai_move_log` are not modelled: they are reset but never read.
- `reset_game` only calls `generate_puzzle_random` and logs, so it has no member of its own.
- `GridModel.Toggle` requires the grid to be rows x cols, the shape the program always keeps. Python would raise an error on a grid with fewer cells, and the model does not cover that case.
