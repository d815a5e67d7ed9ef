# Falling-block game core, modelled in Dafny

This project models the game logic of `Tetris3.py`, a single-file falling-block
puzzle game. It covers the logic only: the rendering, timing and input handling
are left out. Four modules:

- `Shapes` (`shapes.dfy`) holds the catalog of seven shapes and the rotation.
  A shape is a `seq<seq<int>>` matrix, and a cell is filled when it is non-zero.
  `Rotated` is the rotation as a function. `RotatePiece` is the nested loop that
  fills a zeroed C x R matrix, and it is proved equal to `Rotated`.
  `CatalogIndex` is the list lookup `SHAPES.index(m)`.
- `Grid` (`grid.dfy`) holds the field, which has 20 rows of 10 cells. A cell is
  0 when empty, or 1..7 for a cell locked by that catalog shape.
  `Collides(board, m, x, y)` is the collision predicate. `ScanCollision` is the
  early-exit double loop of `is_collision`, proved equal to it. `Stamp` is the
  field after a lock.
- `Lines` (`lines.dfy`) holds line clearing. `ClearLines` is the specification:
  one empty row for each full row, then the non-full rows in their original
  order. `RemoveAll(b, lines, t)` is the field after "pop row l, insert an
  empty row at index 0" has been done for each of the first t listed rows, as
  the source does. `RemoveAllClears` proves that removing
  the full rows of a top-to-bottom scan, each at its original index, gives
  `ClearLines`.
- `Game` (`game.dfy`) holds the class `TetrisGame`. Its fields are `board`,
  `piece`, `x`, `y`, `score` and `status`. Its methods are the key commands
  (`MoveLeft`, `MoveRight`, `SoftDrop`, `RotateCmd`, dispatched by `KeyDown`)
  and the gravity tick (`GravityTick`, whose lock branch is `LockAndSpawn`).
  `JoinPiece` and `CheckLines` update `board` and `score` in place with loops.
  The shape that `random.choice` would draw is passed in as a catalog index.

The object invariant `Valid()` says:

- the field stays 20 x 10;
- every cell is in 0..7;
- the piece is a non-empty rectangular matrix;
- `y >= 0`;
- the score is a non-negative multiple of 100.

While playing, `Valid()` also says that the piece either fits where it is, or
its row above fits. Gravity moves the piece down without checking the new row,
so the piece can sit one row into a collision. If it still collides at the
next tick, that tick moves it back up one row and locks it there. A key press
in between may instead move it to a place where it fits. Because the row above
fits, the lock always writes inside the field, onto empty cells.

## Model

| member | source | states |
|---|---|---|
| Shapes.CatalogShapes | Tetris3.py:15-35 | each of the seven catalog shapes is a rectangular matrix with 1 or 2 rows and 2 to 4 columns |
| Shapes.RotatePiece | Tetris3.py:105-111 | the nested fill loop returns exactly the clockwise rotation `Rotated(piece)`; the argument is a value and is not changed |
| Shapes.RotatedCell | Tetris3.py:110 | the input cell at row y, column x lands at row x, column R-1-y of the rotation |
| Shapes.HalfTurn | Tetris3.py:105-111 | two rotations give an R x C matrix whose cell (i, j) is the input's cell (R-1-i, C-1-j) |
| Shapes.FullTurn | Tetris3.py:105-111 | four rotations give back the original matrix |
| Shapes.HalfTurnSymmetric | Tetris3.py:15-35 | the S, Z, O and I shapes are unchanged by two rotations |
| Shapes.RotationLeavesCatalog | Tetris3.py:15-35 | a quarter turn of a catalog shape is again a catalog entry exactly for the square O; for T, S, Z, J, L and I the `SHAPES.index` lookup (lines 70 and 88) finds nothing |
| Shapes.IndexFrom | Tetris3.py:88 | the search from position i returns the first equal catalog position at or after i, or None if there is none |
| Shapes.CatalogIndex | Tetris3.py:88 | the lookup returns None exactly when the matrix is not in the catalog, and otherwise a position below 7 that holds the matrix |
| Grid.EmptyBoard | Tetris3.py:53 | the starting field is 20 x 10 with every cell 0 |
| Grid.ScanCollision | Tetris3.py:78-85 | the early-exit scan returns true exactly when some filled cell is at row 20 or below, left of column 0, at column 10 or beyond, or on a non-zero cell |
| Grid.FreeIsInBounds | Tetris3.py:78-92 | a placement that does not collide lies on the field and covers only empty cells, so locking it there writes inside the field |
| Grid.EmptyBoardCollision | Tetris3.py:78-85 | on an empty field, a placement collides exactly when some filled cell lies outside it |
| Grid.StampCells | Tetris3.py:87-92 | a lock writes the value into every cell under a filled piece cell and leaves every other cell unchanged |
| Grid.StampInRange | Tetris3.py:88-92 | locking with a catalog number 1..7 keeps every cell in 0..7 |
| Grid.StampOccupies | Tetris3.py:87-92 | after the lock, the same piece at the same place collides |
| Lines.NonFullRowsNotFull | Tetris3.py:96-97 | no row kept by line clearing is full |
| Lines.NonFullRowsFrom | Tetris3.py:100-102 | every row kept by line clearing is a row of the field before the clear |
| Lines.AppendRows | Tetris3.py:96-97 | filtering out full rows and counting them both split over concatenation |
| Lines.NoFullRows | Tetris3.py:96-97 | a field with no full row is unchanged by the filter, and its count of full rows is 0 |
| Lines.ClearLinesShape | Tetris3.py:94-103 | clearing keeps the field 20 x 10, with every cell in 0..7 |
| Lines.ClearLinesLeavesNoFullRow | Tetris3.py:94-103 | after clearing, no row is full: every full row was removed |
| Lines.ClearLinesIdempotent | Tetris3.py:94-103 | clearing a cleared field changes nothing |
| Lines.NonFullRowSurvives | Tetris3.py:96-98 | a row that is not full (for example, one missing a single cell) is kept |
| Lines.SingleFullRow | Tetris3.py:94-103 | with exactly one full row f, the scan lists f alone and the result is an empty row, then rows 0..f-1, then the rows below f |
| Lines.GapNotFull | Tetris3.py:95-98 | between consecutive rows of the scan's list, no row is full |
| Lines.PopStep | Tetris3.py:100-102 | at the next listed row's turn, that row still sits at its original index, so the pop removes it |
| Lines.AdvanceClear | Tetris3.py:100-102 | one more pop of the next full row and insert of an empty row takes the part-way field past that row |
| Lines.RemoveAllStep | Tetris3.py:100-102 | if the first t-1 removals leave the part-way field just below the (t-1)-th listed row, and the t-th listed row is the next full row, the first t removals leave it just below the t-th |
| Lines.RemoveAllPartly | Tetris3.py:100-102 | after t pop/insert steps: t empty rows, then the kept rows above the t-th full row, then the untouched rest |
| Lines.FinishClear | Tetris3.py:100-102 | once no full row is left from the resume row on, the part-way field is the cleared field and t is the number of full rows |
| Lines.RemoveAllClears | Tetris3.py:94-103 | popping the scanned full rows in order, each at its original index, gives `ClearLines`; the list length is the number of full rows |
| Game.SpawnFits | Tetris3.py:55 | every catalog shape spawns at column 3 or 4 and does not collide on an empty field |
| Game.SpawnStraight | Tetris3.py:155 | `[[1,1,1,1]]` spawns at x = 3 and fits on the empty field |
| Game.TetrisGame.constructor | Tetris3.py:53-56 | empty field, the first piece centred at row 0, score 0, playing, invariant established |
| Game.TetrisGame.IsCollision | Tetris3.py:78-85 | returns the collision predicate for the current piece at (x, y) |
| Game.TetrisGame.IsCollisionWithRotated | Tetris3.py:166-173 | returns the same predicate for the given matrix at (x, y), so applied to the current piece it equals `IsCollision` |
| Game.TetrisGame.JoinPiece | Tetris3.py:87-92 | the new field is `Stamp` of the old one with the catalog position + 1; nothing else changes |
| Game.TetrisGame.FullRows | Tetris3.py:95-98 | the scan lists, in increasing order, exactly the full rows |
| Game.TetrisGame.CheckLines | Tetris3.py:94-103 | the field becomes `ClearLines` of the old field, and the score rises by 100 per full row |
| Game.TetrisGame.MoveLeft | Tetris3.py:126-129 | x becomes x-1 if the piece fits there; otherwise nothing changes; the invariant is kept |
| Game.TetrisGame.MoveRight | Tetris3.py:130-133 | x becomes x+1 if the piece fits there; otherwise nothing changes; the invariant is kept |
| Game.TetrisGame.SoftDrop | Tetris3.py:134-137 | y becomes y+1 if the piece fits there; otherwise nothing changes; it never locks |
| Game.TetrisGame.RotateCmd | Tetris3.py:138-141 | the piece becomes its rotation if the rotation fits at the unchanged (x, y); otherwise it is unchanged |
| Game.TetrisGame.KeyDown | Tetris3.py:125-141 | each arrow key acts as its command, leaves the other coordinates alone, and any other key changes nothing |
| Game.TetrisGame.LockAndSpawn | Tetris3.py:151-158 | non-catalog piece: lookup fails, nothing else changes. Otherwise: lock, clear, score, spawn at (SpawnX, 0); game over iff the spawn collides |
| Game.TetrisGame.Spawn | Tetris3.py:154-158 | the given catalog shape becomes the piece at (SpawnX, 0); the status becomes game over exactly when it collides there; the invariant is kept |
| Game.TetrisGame.GravityTick | Tetris3.py:145-158 | free at (x, y): y+1, nothing else changes. Colliding: y-1, then lock, clear and score, spawn the given shape; game over iff that spawn collides. Score never falls |

## Left out

- Window, caption, screen fill and display update (Tetris3.py:4, 50-51, 160-164) are library I/O.
- `draw_board`, `draw_piece` and the RGB colour table (Tetris3.py:37-45, 61-76) only compute pixels. But `draw_piece` also looks the current matrix up with `SHAPES.index` (Tetris3.py:70), at the end of every loop iteration (Tetris3.py:162). That is after all of that frame's key events (Tetris3.py:120-141) and its tick (Tetris3.py:145-158). So the program stops with `ValueError` at the end of any frame that leaves a non-catalog matrix as the piece. If that frame's tick locks such a piece, `join_piece` raises earlier, at Tetris3.py:88. A rotation can leave the catalog and come back within one frame: by `RotationLeavesCatalog`, one quarter turn leaves the catalog for every shape but O. By `HalfTurnSymmetric`, two turns bring S, Z and I back, and by `FullTurn`, four bring back any shape. The model has no end-of-frame stop. After such a frame it plays on where the program has stopped, and it reaches `LookupFailed` only when a tick locks a non-catalog piece.
- Frame pacing and the drop accumulator (Tetris3.py:114-118, 143-146) are wall-clock timing. Each tick is an explicit `GravityTick` call.
- The event loop and QUIT (Tetris3.py:117-124) are input plumbing. Each key press is a `KeyDown` call.
- `random.choice` (Tetris3.py:58-59) is a foreign random source. The drawn shape is a parameter in 0..6.
- Negative rows: `is_collision` would index the board at a negative row with Python's wrap-around. That never happens in play, because y >= 0 always holds. So `Collides` requires y >= 0, and `Valid()` carries it. Cells above the top are not treated as free: `is_collision` has no case for them.
- Gravity is modelled as written: `run` tests the current position and then moves down without testing the new row (Tetris3.py:148-149).
- Game.TetrisGame.JoinPiece: it requires every filled cell to lie on the field. In Python a negative column would wrap silently, and a row past the bottom or a column at or past 10 would raise `IndexError` (Tetris3.py:92). Every caller meets this requirement, because the invariant makes the lock row fit.
- Game.TetrisGame.JoinPiece: it requires the piece to be in the catalog. A rotated matrix outside the catalog makes `SHAPES.index` raise `ValueError`, which ends the program. `LockAndSpawn` models this as the terminal status `LookupFailed`, reached after `y -= 1` and before any cell is written.
- The command methods require status `Playing`. The source's loop returns at game over, so no command reaches a finished game.
- Some operations are split into helpers: the first pass of `check_lines` is `FullRows`, the lock branch of the tick is `LockAndSpawn`, and its spawn step is `Spawn`. The behaviour is unchanged.
- The board is a list of row lists updated in place. The model reassigns a `seq` field. No two rows share a list in the source, so aliasing between rows plays no part.
