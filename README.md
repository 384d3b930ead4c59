# 2048 board engine, modelled in Dafny

This project models the board engine of a 2048-style sliding-tile game
(`game_1024.py`). The board is a 4 by 4 grid of naturals, where 0 is an empty
cell. Each move takes every row (left, right) or column (up, down) in turn
and runs the same line operation on it: `compress` (occupied cells to the
front, in order, padded with zeros), then `merge` (one left-to-right pass: a
pair of equal occupied neighbours becomes the doubled value followed by an
empty cell), then `compress` again. Right and down reverse the line first and
reverse the result back. A move reports whether the grid changed.
`add_tile` puts a 2 or a 4 into one empty cell chosen at random.
`game_over` scans the cells and says the game is over when no cell is empty
and no two horizontally or vertically adjacent cells are equal.

Layout:

- `Lines.dfy` (module `Lines`): one line and its pipeline. `Compress` is a
  function. `Merge` is a method that rewrites an `array<nat>` in place, and
  it is proved against `MergePass`, the functional left fold of the single
  pass. `Pipeline` is the compress/merge/compress sequence the moves run, and
  `Slide` is its specification. `Combine` is an independent reference merge
  on the gap-free list of tiles, and `SlideCombines` proves that the pipeline
  agrees with it. The sum, occupied-cell and tile-value facts are lemmas here.
- `Boards.dfy` (module `Boards`): the board as a value. It holds `Move` for
  the four directions, the list of empty cells, `Spawn`, `IsOver`, and
  lemmas about whole boards.
- `Engine.dfy` (module `Engine`): class `Game`, holding the program's global
  grid as a field of type `seq<seq<nat>>`. Its methods are the source's
  loops: `MoveLeft`, `MoveRight`, `MoveUp`, `MoveDown`, `AddTile`,
  `GameOver`, and `Turn`, one key press of the event loop.
- `Examples.dfy` (module `Examples`): the documented example lines and
  boards, and counterexamples to two plausible claims that do not hold.

The random choices in `add_tile` are parameters. `pick` indexes the
row-major list of empty cells, the same list `random.choice` draws from.
`four` says whether the new tile is 4 rather than 2.

Two claims that one might expect of this game are false for this code, and
the model follows the code:

- A second identical move is not always a no-op. `[2, 2, 4, 0]` moved left
  gives `[4, 4, 0, 0]`, and moved left again gives `[8, 0, 0, 0]`
  (`Examples.SecondMoveCanStillChange`).
- A move can lower the number of occupied cells. Each merge empties exactly
  one cell, and the sum of the values stays the same (`Lines.SlideOccupied`,
  `Lines.SlideSum`).

The game-over test is also not the same as "no move changes the board". On
the empty board no move changes anything, yet `game_over` returns false
(`Examples.EmptyBoardIsStuckButNotOver`). Only the direction "over implies
stuck" holds (`Boards.OverBoardDoesNotMove`).

## Model

| member | source | states |
|---|---|---|
| `Lines.Compress` | game_1024.py:50-53 | a line of at most 4 cells becomes exactly 4 cells; its occupied entries are those of the input in the same order; no occupied cell follows an empty one |
| `Lines.CompressIdempotent` | game_1024.py:50-53 | compressing twice is the same as compressing once |
| `Lines.CompressSum` | game_1024.py:50-53 | compress keeps the sum of the line |
| `Lines.Merge` | game_1024.py:55-60 | after the in-place loop the array holds the single left-to-right pass over the pairs (0,1), (1,2), (2,3) of its old contents |
| `Lines.MergesOnce` | game_1024.py:55-60 | when the pass merges pair (i, i+1), cell i ends with the doubled value and cell i+1 ends empty; the pair (i+1, i+2) is then not merged, so no cell takes part in two merges |
| `Lines.ScannedCounts` | game_1024.py:56-59 | every step of the pass keeps the sum of the line and empties exactly one cell per merge |
| `Lines.Pipeline` | game_1024.py:65-67 | compress, merge in place on a fresh list, compress: the result is the line operation `Slide` |
| `Lines.SlideCombines` | game_1024.py:50-67 | the line operation equals the reference merge: the occupied cells, with equal neighbours paired greedily from the front (each tile in at most one pair), then zeros up to 4 cells |
| `Lines.SlideSum` | game_1024.py:65-67 | the line operation keeps the sum of the line |
| `Lines.SlideOccupied` | game_1024.py:55-67 | the occupied-cell count afterwards plus the number of merges of the pass equals the count before, so the count never grows |
| `Lines.SlideFixed` | game_1024.py:50-60 | a full line without equal neighbours is unchanged by the line operation |
| `Lines.SlideChangedLeavesRoom` | game_1024.py:65-70 | a line that the operation changes ends with at least one empty cell |
| `Lines.SlideTiles` | game_1024.py:55-60 | if every cell is 0 or a power of two of at least 2, the same holds after the line operation |
| `Boards.EmptyCells` | game_1024.py:32 | the list holds a cell exactly when it is inside the board and empty; the cells come in strictly increasing row-major order, so none is listed twice |
| `Boards.Spawn` | game_1024.py:31-35 | on a full board nothing changes; otherwise exactly one previously empty cell receives 2, or 4 when `four` is set, and every other cell keeps its value |
| `Boards.SpawnFillsOnlyEmptyCell` | game_1024.py:31-35 | with exactly one empty cell, the spawn fills that cell and the board changes |
| `Boards.SpawnKeepsTileValues` | game_1024.py:35 | spawning keeps every cell 0 or a power of two of at least 2 |
| `Boards.MoveKeepsTotal` | game_1024.py:62-111 | every move keeps the total of the board |
| `Boards.MoveKeepsOrLowersTiles` | game_1024.py:62-111 | no move increases the number of occupied cells |
| `Boards.MoveKeepsTileValues` | game_1024.py:62-111 | moves keep every cell 0 or a power of two of at least 2 |
| `Boards.ColumnOfSlideColumns` | game_1024.py:85-111 | after up or down, each column is the line operation applied to that column, or to the reversed column and reversed back |
| `Boards.MoveIsPerLine` | game_1024.py:62-111 | two boards that agree on a row (for left and right) or a column (for up and down) still agree on it after the move |
| `Boards.RightMirrorsLeft` | game_1024.py:73-83 | moving right equals mirroring every row, moving left, and mirroring back |
| `Boards.UpTransposesLeft` | game_1024.py:85-96 | moving up equals transposing, moving left, and transposing back |
| `Boards.DownTransposesRight` | game_1024.py:98-111 | moving down equals transposing, moving right, and transposing back |
| `Boards.OverIffAllSettled` | game_1024.py:113-122 | the board is over exactly when every cell is occupied and differs from its right and lower neighbours, which is what the scan checks cell by cell |
| `Boards.OverBoardDoesNotMove` | game_1024.py:113-122 | on a board that is over, every move leaves every cell unchanged |
| `Boards.ChangingMoveLeavesRoom` | game_1024.py:156-157 | after a move that changed the board there is an empty cell, so the spawn that follows always places a tile |
| `Engine.Game.constructor` | game_1024.py:29 | the grid starts as 4 by 4 empty cells |
| `Engine.Game.AddTile` | game_1024.py:31-35 | the grid becomes `Spawn` of the old grid with the caller's choices |
| `Engine.Game.MoveLeft` | game_1024.py:62-71 | the grid becomes the left move of the old grid; the result is true exactly when the grid changed |
| `Engine.Game.MoveRight` | game_1024.py:73-83 | the grid becomes the right move of the old grid; the result is true exactly when the grid changed |
| `Engine.Game.MoveUp` | game_1024.py:85-96 | the grid becomes the up move of the old grid; the result is true exactly when the grid changed |
| `Engine.Game.MoveDown` | game_1024.py:98-111 | the grid becomes the down move of the old grid; the result is true exactly when the grid changed |
| `Engine.Game.WriteColumn` | game_1024.py:92-95 | the cell-by-cell write-back of one column: that column takes the new values, every other cell is kept, and the flag is raised exactly when some cell of the column changed |
| `Engine.Game.GameOver` | game_1024.py:113-122 | the nested scan with early returns answers exactly `IsOver` of the grid |
| `Engine.Game.Turn` | game_1024.py:146-162 | one arrow key: `moved` is true exactly when the move changes the grid; then the grid is the move followed by a spawn, otherwise it is unchanged; the game ends exactly when the move changed the grid and the grid is then over |
| `Examples.FourEqualTilesMergeInPairs` | game_1024.py:55-60 | `[2,2,2,2]` gives `[4,4,0,0]`: a doubled tile is not merged again |
| `Examples.PairSlidesAndMerges` | game_1024.py:62-71 | `[0,0,2,2]` moved left gives `[4,0,0,0]` |
| `Examples.RowMovedRight` | game_1024.py:73-83 | `[2,0,0,2]` moved right gives `[0,0,0,4]` |
| `Examples.ColumnMovedUp` | game_1024.py:85-96 | the column `[2,2,0,0]` moved up gives `[4,0,0,0]` |
| `Examples.ColumnMovedDown` | game_1024.py:98-111 | the column `[2,2,0,0]` moved down gives `[0,0,0,4]` |
| `Examples.SecondMoveCanStillChange` | game_1024.py:62-71 | `[2,2,4,0]` moved left gives `[4,4,0,0]`, and a second left move gives `[8,0,0,0]` |
| `Examples.EmptyBoardIsStuckButNotOver` | game_1024.py:113-122 | on the empty board no move changes anything, and the board is not over |
| `Examples.CheckerboardIsOver` | game_1024.py:113-122 | a full checkerboard of 2 and 4 is over |

## Left out

- Rendering and the window are not modelled. This covers pygame set-up, the
  `TILE_COLORS` palette, `draw_grid`, `show_game_over`, `clock.tick`,
  `pygame.time.wait` and `sys.exit` (game_1024.py:1-27, 37-48, 124-131,
  161-167). They are I/O through a foreign library.
- The event loop of `main` is modelled only as `Turn`, one arrow-key press
  (game_1024.py:146-162). Window-close events, keys other than the arrows
  (they leave `moved` false and change nothing), and the two start-up
  `add_tile` calls (game_1024.py:134-135, two calls of `AddTile` on the new
  game) are not separate members.
- The randomness of `add_tile` is not modelled. `random.choice` becomes the
  index `pick`, and the draw `random.random() < 0.9` becomes the flag `four`.
  The 90% probability and the float comparison are not modelled.
- `Lines.Merge` requires a list of at least 4 cells. On a shorter list the
  Python code raises an index error. Every caller passes the output of
  `compress`, which always has at least 4 cells.
- Object identity of the row lists is not modelled. `merge` returns the
  list it was given, and `move_left`/`move_right` replace whole row lists.
  Rows are values here, so aliasing between row lists cannot be expressed.
- No integer width is involved: Python integers are unbounded, like Dafny's.
