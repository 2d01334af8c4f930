# Path Game — a Dafny model

The Path Game is a small pyxel game on a 9x9 grid. Walls sit on the outer ring
and on every cell whose coordinates are both even. The remaining odd/odd cells
are intersections: start (1, 1), goal (7, 7), and fourteen intersections that
hold 1, 2 or 3 points, three of which are then overwritten by multipliers
(x2, x2, x3). The player steps two cells at a time from intersection to
intersection with the arrow keys. A step is allowed only when the passage cell
halfway is still unvisited. Arriving on points adds them; arriving on an unused
multiplier multiplies the score. The game ends on the goal, or when no
neighbouring cell is free, and Space then starts it again.

This project models the `Game` class of `main.py` in three modules:

- `Board` (`board.dfy`) — cells, the layout, and board generation as a function
  `Generate` of the random draws, with lemmas for the layout it promises: walls
  exactly on the ring and the even/even lattice, blank passages, start and goal
  tagged, every other intersection 1–3 points or a multiplier, and exactly three
  multipliers on distinct scored intersections whose factors are a permutation
  of 2, 2, 3.
- `Rules` (`rules.dfy`) — the game's fields as a value `Session`, the move test
  (`MoveOk`), one move attempt (`Attempt`), `get_valid_moves` (`ValidMoves`),
  and one frame of `update` (`Tick`), with lemmas for the traversal rules: the
  invariant `Inv` is kept by every tick, visited entries are never cleared,
  multipliers are applied at most once, a rejected move changes nothing, a
  stuck position rejects every move, backtracking is impossible, and the
  game-over gating.
- `PathGame` (`game.dfy`) — class `Game` with the source's fields, updated in
  place by methods that follow the source's loops (`InitGame` and its wall,
  score, multiplier and visited loops, `ResetGame`, `Update`, `MovePlayer`,
  `GetValidMoves`). Each method is proved against the functions of `Board` and
  `Rules`: `Update` leaves the fields equal to `Rules.Play` of the old fields,
  or to a fresh session on the same generated board after Space.

The random module's draws are a `Draws` value held by the game: the fourteen
score draws in loop order, the shuffled factor list, and the sequence of
(x, y) pairs the placement loop draws. The script builds the game with the
fixed seed 12345 (main.py:190), and `reset_game` reseeds with it, so every
reset replays the same draws: the class holds them as a constant and a restart
rebuilds the same board. `Rules.Tick` takes the restart session as a parameter
and so also covers a restart on a different board.

The move test looks only at the passage, not at the destination, so an
intersection already visited can be entered again through another passage, and
its points then count again. The model keeps this behaviour (`Rules.AcceptedMove`
states scoring without regard to the destination's visited entry).

Dafny's `/` by a positive divisor rounds down, as Python's `//` does, so the
passage coordinate `(p + next) // 2` is written with `/`. Python integers are unbounded, as Dafny's are.

## Model

| member | source | states |
|---|---|---|
| Board.GenerateWalls | main.py:33-40 | after generation a cell is a wall exactly when it is on the outer ring or both its coordinates are even |
| Board.GenerateCells | main.py:43-66 | start holds the start tag, goal the goal tag, every other intersection 1, 2 or 3 points or a x2/x3 multiplier, and every passage cell is blank |
| Board.GenerateWellFormed | main.py:31-67 | the generated board has the full layout (`WellFormedBoard`): every cell fits the role of its coordinates |
| Board.GenerateMultipliers | main.py:48-57 | the placement loop chooses three distinct scored intersections (never start or goal) and the i-th holds the i-th shuffled factor |
| Board.MultiplierFactors | main.py:49-57 | the three placed multiplier cells hold factors forming the multiset {2, 2, 3} |
| Board.MultipliersOnlyPlaced | main.py:48-57 | no cell other than the three placed ones holds a multiplier |
| Board.PlaceSpec | main.py:51-57 | the rejection loop's chosen cells are distinct, each held points (and was neither start nor goal) when chosen, each now holds its factor, and every other cell is unchanged |
| Board.ScoredBoard | main.py:43-46 | the board after the score loop: a 9x9 grid whose scored intersections hold the score draws in loop order and whose other cells are the wall layout (`Board.ScoredBoardCells`, `PathGame.Game.PlaceScores`) |
| Board.Place | main.py:48-57 | the rejection loop: on success a 9x9 grid and one chosen cell per factor; what it chose and wrote is `Board.PlaceSpec` |
| Board.Generate | main.py:31-67 | the generated board exists exactly when the placement succeeds, and is then a 9x9 grid; its layout is `Board.GenerateWalls`, `Board.GenerateCells`, `Board.GenerateMultipliers`, `Board.MultiplierFactors`, `Board.MultipliersOnlyPlaced` |
| Rules.MoveOk | main.py:95-97 | the move test; `PathGame.MoveTest` shows it is the source's inline test, and `Rules.NullMoveRejected`, `Rules.AcceptedTarget`, `Rules.ValidMovesMatchMoves` characterise it |
| Rules.Arrive | main.py:106-117 | scoring on arrival; characterised by `Rules.AcceptedMove`, `Rules.AttemptUsed` and `Rules.MultiplierAppliedOnce` |
| Rules.OpenAmong | main.py:122-126 | the filtering loop of `get_valid_moves`; characterised by `Rules.OpenAmongMembers` |
| Rules.ValidMoves | main.py:119-127 | `get_valid_moves`; characterised by `Rules.ValidMovesOpen` and `Rules.ValidMovesMatchMoves` |
| Rules.Play | main.py:75-104 | a tick while not over; characterised by `Rules.GoalEndsGame`, `Rules.StuckEndsGame`, `Rules.RejectedMoveChangesNothing`, `Rules.AcceptedMove` and `Rules.PlayPreservesInv` |
| Rules.Tick | main.py:69-104 | one `update` frame; characterised by `Rules.GameOverGate`, `Rules.TickPreservesInv`, `Rules.VisitedOnlyGrows`, `Rules.MultiplierAppliedOnce` and `PathGame.UpdateIsTick` |
| Rules.KeyDelta | main.py:83-87 | the attempted move is (0, 0) exactly when no arrow is pressed; otherwise it is the step of the pressed arrow that comes first in the order Up, Down, Left, Right |
| Rules.Attempt | main.py:89-104 | a move attempt never changes the board, the game-over flag or the set of visited keys |
| PathGame.MoveTest | main.py:90-97 | the passage is the cell halfway to the destination, in range and present in the visited map; the source's inline test is exactly `MoveOk`, and a failed test leaves the session unchanged |
| Rules.NullMoveRejected | main.py:83-97 | with no arrow pressed the attempt is rejected, because the player's own cell is visited |
| Rules.AcceptedTarget | main.py:90-104 | an accepted move goes to a different intersection through an in-range passage, and a scoring destination holds at least 1 point or a factor of at least 2 |
| Rules.OpenAmongMembers | main.py:119-127 | the filtering loop keeps exactly the open directions of its input and is never longer than it |
| Rules.ValidMovesOpen | main.py:119-127 | a direction is in `get_valid_moves` exactly when it is one of the four and its neighbour is neither wall nor visited |
| Rules.NeighbourOfIntersection | main.py:121-125 | around an intersection each neighbour is an in-range passage, the passage of the two-cell step, and a wall exactly when the step leaves the board |
| Rules.ValidMovesMatchMoves | main.py:119-127 | a direction is in `get_valid_moves` exactly when the two-cell step in that direction passes the move test |
| Rules.StuckRejectsEveryMove | main.py:80-97 | when `get_valid_moves` is empty every move attempt is rejected |
| Rules.AttemptPreservesInv | main.py:89-117 | a move attempt keeps the invariant: layout, player on a visited intersection, used multipliers visited, score non-negative |
| Rules.PlayPreservesInv | main.py:75-117 | the playing part of a tick keeps the invariant |
| Rules.TickPreservesInv | main.py:69-117 | every tick, restart included, keeps the invariant |
| Rules.VisitedOnlyGrows | main.py:99-102 | a tick without restart keeps the board and the visited keys, never clears a visited entry and never forgets a used multiplier |
| Rules.AttemptGrows | main.py:99-115 | a move attempt only sets visited entries and only adds used cells |
| Rules.RejectedMoveChangesNothing | main.py:80-104 | a rejected move leaves position, score, visited map and used set unchanged, and the game is over exactly when `get_valid_moves` was empty |
| Rules.AcceptedMove | main.py:75-117 | an accepted move marks destination and passage visited, puts the player on the destination, and scores it: points add, an unused multiplier multiplies and becomes used, a used multiplier, start or goal score nothing; the board is kept and the game is not over after the move, even on the goal, since only the next tick's goal check ends it |
| Rules.AttemptAccepted | main.py:99-117 | the same scoring stated for one accepted attempt on any session with a full visited map |
| Rules.MultiplierAppliedOnce | main.py:113-115 | a tick adds at most the cell it arrives on to the used set, only when that cell is an unused multiplier, and then multiplies the score by its factor |
| Rules.AttemptUsed | main.py:110-115 | one attempt adds to the used set only an unused multiplier cell it arrives on, multiplying the score |
| Rules.GameOverGate | main.py:70-73 | while the game is over a tick restarts on Space and otherwise changes nothing |
| Rules.GoalEndsGame | main.py:75-77 | standing on the goal the tick only sets game over, before reading any input |
| Rules.StuckEndsGame | main.py:80-81 | with no valid move the tick sets game over and the player does not move |
| Rules.NoBacktrack | main.py:93-102 | right after a move, the move straight back is rejected |
| Rules.AttemptMarksPassage | main.py:99-104 | an accepted attempt moves to the destination and marks the passage visited |
| Rules.StepBackCrossesSamePassage | main.py:93 | the step back from the destination crosses the same passage cell |
| Rules.FreshUnique | main.py:22-29 | the session `reset_game` leaves is determined by the board alone |
| Rules.ResetSpec | main.py:22-67 | a fresh session on a generated board satisfies the invariant |
| Rules.FirstMoveRight | main.py:83-104 | from a fresh game Right is accepted: the player reaches (3, 1) and exactly (1, 1), (2, 1), (3, 1) are visited |
| Rules.FirstMoveUpRejected | main.py:84-97 | from a fresh game Up is rejected and nothing changes |
| PathGame.Game.constructor | main.py:10-17 | the new game holds the draws, is valid, and is the fresh session on the generated board |
| PathGame.Game.ResetGame | main.py:22-29 | succeeds exactly when the draws generate a board, and then leaves score 0, the player on start, nothing used, not over, every cell unvisited but start |
| PathGame.Game.InitGame | main.py:31-67 | the board becomes `Generate` of the draws; every cell gets a visited entry, true on start only, and other keys are kept |
| PathGame.Game.BuildWalls | main.py:33-40 | the nested loops leave a 9x9 board that is the wall layout |
| PathGame.Game.PlaceScores | main.py:43-46 | the score loop writes the draws, in loop order, on the fourteen scored intersections and nothing else |
| PathGame.Game.PlaceMultipliers | main.py:48-57 | the rejection loop fails exactly when `Place` runs out of draws and otherwise leaves the board `Place` computes |
| PathGame.Game.ClearVisited | main.py:60-62 | every cell gets a visited entry false; other keys are kept |
| PathGame.Game.GetValidMoves | main.py:119-127 | returns `ValidMoves` of the current fields and changes nothing |
| PathGame.Game.MovePlayer | main.py:106-117 | the player moves by (dx, dy) and score and used set become `Arrive` of the destination cell |
| PathGame.Game.Update | main.py:69-104 | keeps `Valid`; when over, Space resets to the fresh session on the same board and otherwise nothing changes; when not over the fields become `Rules.Play` of the old fields |
| PathGame.Game.Play | main.py:75-104 | the goal check, the stuck check, key priority and the move attempt leave the fields equal to `Rules.Play` of the old fields |
| PathGame.Game.TryMove | main.py:89-104 | the inline move test and the move leave the fields equal to `Attempt` of the old fields |
| PathGame.UpdateIsTick | main.py:69-73 | whatever `Update` leaves is `Tick` of the old session with the fresh session as restart |
| PathGame.DrawStep | main.py:43-46 | the score loop's draw counter stays within the 14 draws on scored intersections and advances by one there, by none on start or goal |
| PathGame.FillStep | main.py:45-46 | writing the next draw on a scored intersection extends the scored prefix of the board by one cell |
| PathGame.SkipStep | main.py:45 | passing start or goal leaves the scored prefix valid one cell further on |
| PathGame.NextRow | main.py:43-44 | the end of one odd row is the start of the next, for both the board and the draw counter |
| PathGame.ScoredAll | main.py:43-46 | after the last row the board is `ScoredBoard` of the draws |

## Left out

- `draw`, the window size and `cell_size` (main.py:12-14, 129 onward) are rendering and are not modelled.
- `pyxel.init`, `pyxel.run` and `pyxel.btnp` are device I/O. A frame's input is a set of pressed arrow keys plus a Space flag. The if/elif priority of the arrows is kept.
- `random.seed`, `random.choice` and `random.shuffle` come from a library whose generator is not part of this model. Their outcomes are the `Draws` value, and `WellFormedDraws` states only what the calls guarantee: scores in {1, 2, 3}, a permutation of the factor list, and odd coordinates in 1..7. The `seed` field itself is not modelled.
- The unbounded `while True` placement loop consumes a finite sequence of drawn cells and fails when it runs out. The source would keep drawing, so a game is only constructed from draws that generate a board.
- PathGame.Game.ResetGame: when the placement draws run out, the fields are left unspecified; the source never reaches that state.
- PathGame.Game.InitGame: when the placement draws run out, the board is left unspecified (only the visited map is stated unchanged).
- PathGame.Game.MovePlayer: requires the destination to be on the board, where Python's negative indices would wrap; `update` calls it only after its own range test.
- PathGame.Game.Play and PathGame.Game.TryMove: require only a 9x9 board, a player inside the ring and a full visited map, not the whole invariant; `Update` is the method that keeps `Valid`.
- PathGame.Game: models the seeded game the script constructs (main.py:190). With the default `seed=None` (main.py:10), `random.seed(None)` at main.py:23 reseeds from the system, so a restart draws a new board; `Game` always rebuilds the board of its one `Draws` value and does not capture that case (`Rules.Tick`, whose restart is a parameter, does).
- The TODO features at the top of main.py (a trail look, undoing a step, saving the path, a date-derived seed) are not implemented by the source and are not modelled.
- `player_pos` is a list in the source and compared with `list(self.goal_pos)`; the model uses a pair, which compares the same way.
