# Falling-block game core in Dafny

This project models the board and piece simulation of a small Tetris-like
game written in C++ on SDL. The repository holds three versions of that
simulation:

- `core/src/main.cpp` is the complete game, on a 10 x 20 board. It has the
  five-shape piece catalog and the collision check. It locks a piece into
  the occupancy grid and clears full lines, re-examining a row after each
  clear. It also has the hard drop (which also gives the ghost preview), the
  quarter turn about a pivot block, and the key and gravity steps of the
  main loop.
- `core/src/main4.cpp` is an earlier version on a 20 x 15 board. It has the
  same catalog and collision check and a factored `moveTetromino`
  (translate if legal). Nothing ever locks in this version: the board is
  only read, and no member of `TetrisV4` modifies it.
- `core/src/main3.cpp` has only the catalog, on a 26 x 20 board.

Modules:

- `Pieces` (pieces.dfy) holds the `Block` and `Tetromino` values and the
  catalog `CreateTetromino`. It defines the reference meaning of a move
  (`Translate`) and of a turn (`Rotated`). `ShiftBlocks` is the per-block
  loop that every move runs on a copy of the piece.
- `Playfield` (playfield.dfy) covers the board, an `array2<int>` indexed
  `[row, column]`. `Rows` views it as a sequence of rows. It also holds the
  collision oracle (`Collides` and the `CheckCollision` loop) and the
  meaning of locking (`Placed`).
- `Lines` (lines.dfy) gives the meaning of line clearing on rows: `Cleared`
  is empty rows on top of the rows that were not full, in their original
  order.
- `Tetris` (tetris.dfy) models main.cpp with its constants 300/30 and
  600/30. It has the imperative operations `PlaceTetromino`,
  `ClearFullLines`, `DropTetromino` and `RotateTetromino`, the key step
  `HandleKey` and the timer step `GravityTick`.
- `TetrisV4` (tetris_v4.dfy) models main4.cpp with its constants 800/40 and
  600/40: `MoveTetromino` and the down-only gravity step.
- `TetrisV3` (tetris_v3.dfy) models main3.cpp's catalog on the board given
  by 800/30 and 600/30.

The board's own dimensions (`Length0` rows, `Length1` columns) stand for
`BOARD_HEIGHT` and `BOARD_WIDTH` in the shared collision check. Each
version's members require the board to have that version's dimensions,
because the C++ code indexes with the constants. The random shape draw
`rand() % 5` is an input `kind < 5`, or a raw draw passed through
`ShapeOf`.

Two behaviours of the code are worth stating, because they are easy to
misread:

- Rotating the line piece {(4,0),(5,0),(6,0),(7,0)} about block 1 gives
  {(5,-1),(5,0),(5,1),(5,2)}: the turn puts block 0 at (5,-1).
  `Pieces.RotateLineExample` proves this result.
- A hard drop (SPACE) only moves the piece to its landing row. The lock
  happens on the next gravity tick, and until then the piece can still be
  moved.

The hard drop loop `while (!checkCollision(...))` ends only because every
piece of the catalog has blocks: a piece with no blocks never collides, so
on it the loop would run forever. `DropTetromino` and `TetrisV4.GravityStep`
therefore require at least one block, which every shape meets (it has four).

## Model

| member | source | states |
|---|---|---|
| `Pieces.CreateTetromino` | core/src/main.cpp:27-58 | each of the five shapes has four pairwise-distinct blocks in columns 4..7 and rows 0..1; the pivot is -1 for the square only and 1 (a valid index) otherwise |
| `Pieces.ShapeOf` | core/src/main3.cpp:31 | the draw `rand() % 5` always selects one catalog entry, and draws 0..4 select themselves |
| `Pieces.Translate` | core/src/main4.cpp:86-90 | defines a move: every block shifted by (dx, dy); the block count and the pivot index are kept, and a zero move changes nothing |
| `Pieces.RotateAbout` | core/src/main.cpp:184-192 | defines the quarter turn of one block about the pivot, offset (u, v) to (-v, u); the pivot is the only block it leaves in place |
| `Pieces.Rotated` | core/src/main.cpp:176-194 | a quarter turn keeps the block count, the pivot index and well-formedness, and leaves the pivot block where it is |
| `Pieces.ShiftBlocks` | core/src/main.cpp:282-284 | the per-block loop over a copy of the piece yields the piece moved by (dx, dy) |
| `Pieces.TranslateWellFormed` | core/src/main4.cpp:85-90 | a move keeps the block count, the pivot index and well-formedness |
| `Pieces.TranslateCompose` | core/src/main.cpp:139-148 | moving by (a, b) and then by (c, d) equals moving by (a + c, b + d) |
| `Pieces.TranslateInverse` | core/src/main.cpp:139-148 | moving down and back up one row restores the piece |
| `Pieces.RotateAboutFourTimes` | core/src/main.cpp:184-192 | four quarter turns of one block about a point give the block back |
| `Pieces.RotateFourTimes` | core/src/main.cpp:176-194 | rotating a piece four times gives back the original piece |
| `Pieces.RotatedDistinct` | core/src/main.cpp:176-194 | rotation keeps pairwise-distinct blocks distinct |
| `Pieces.RotateLineExample` | core/src/main.cpp:35-37 | the line piece turned about block 1 is {(5,-1),(5,0),(5,1),(5,2)} |
| `Pieces.SquareNeverRotates` | core/src/main.cpp:178-179 | the square, whose pivot is -1, is unchanged by rotation |
| `Playfield.BlockCollides` | core/src/main.cpp:64-67 | defines an illegal block: beyond a side wall or the floor, or on an occupied visible cell; a legal block is inside the walls and above the floor |
| `Playfield.Collides` | core/src/main.cpp:60-70 | defines an illegal piece: some block is illegal; a piece with no blocks never collides |
| `Playfield.CheckCollision` | core/src/main.cpp:60-70 | the read-only scan returns true iff some block is left of column 0, at or right of the width, at or below the height, or on the board (y >= 0) over a non-zero cell |
| `Playfield.CollisionReadsOnlyCoveredCells` | core/src/main.cpp:66-67 | two equal-size boards that agree on the cells under the piece's on-board blocks give the same collision answer, so blocks with y < 0 never consult the board |
| `Playfield.CollisionFreeIsPlaceable` | core/src/main.cpp:64-67 | every on-board block of a legal piece lies inside the board and over a zero cell, which is what locking needs |
| `Playfield.Placed` | core/src/main.cpp:72-79 | locking keeps the number of rows and the width of every row |
| `Playfield.PlacedProperties` | core/src/main.cpp:72-79 | locking keeps cells in {0,1}, never frees an occupied cell, and leaves every on-board block's cell at 1 |
| `Lines.Kept` | core/src/main.cpp:81-115 | the rows that survive clearing are never full and are no more than the original rows |
| `Lines.Cleared` | core/src/main.cpp:81-115 | defines the board after `clearFullLines`: one empty row per removed full row, on top of the rows that were not full in their original order; the number of rows is kept |
| `Lines.Collapse` | core/src/main.cpp:97-110 | defines removing full row y: an empty row at the top, the rows above y one lower, the rows below y untouched; the number of rows is kept |
| `Lines.KeptMembers` | core/src/main.cpp:81-115 | a row survives iff it is one of the original rows and is not full |
| `Lines.KeptNoFull` | core/src/main.cpp:83-93 | when no row is full, every row survives |
| `Lines.KeptDropsFullRows` | core/src/main.cpp:95-114 | full rows below the others contribute nothing to the surviving rows |
| `Lines.ClearedShape` | core/src/main.cpp:81-115 | clearing keeps the number of rows and the width of every row |
| `Lines.ClearedNoFullRow` | core/src/main.cpp:81-115 | after clearing, no row is full |
| `Lines.ClearedIdempotent` | core/src/main.cpp:81-115 | a board without full rows is unchanged by clearing, so clearing twice is clearing once |
| `Lines.ClearedBinary` | core/src/main.cpp:97-110 | clearing keeps every cell in {0,1} |
| `Lines.ClearBottomFullRows` | core/src/main.cpp:95-114 | n full rows under non-full rows vanish: the rows above move down by n and n empty rows fill the top |
| `Lines.ClearedSkipRow` | core/src/main.cpp:83-93 | passing over a non-full row moves it to the finished part without changing the final result |
| `Lines.ClearedCollapseRow` | core/src/main.cpp:95-113 | removing a full row and letting an empty row in at the top does not change the final result |
| `Lines.ScanStepFull` | core/src/main.cpp:95-113 | a clear at row y keeps the scan's final result and removes occupied cells, so re-examining row y still terminates |
| `Lines.ScanStepSkip` | core/src/main.cpp:83-93 | passing over a non-full row at y keeps the scan's final result |
| `Lines.CollapseRemovesWidthCells` | core/src/main.cpp:95-114 | each clear takes exactly BOARD_WIDTH occupied cells off the board |
| `Tetris.CollisionBounds` | core/src/main.cpp:64-65 | any block with x < 0, x >= 10 or y >= 20 makes the piece collide |
| `Tetris.SpawnCollidesIffOccupied` | core/src/main.cpp:290-295 | a new piece collides, which ends the game, iff a cell under one of its blocks is non-zero |
| `Tetris.SpawnOnEmptyBoard` | core/src/main.cpp:226-227 | every shape is legal on the all-zero starting board |
| `Tetris.PlaceTetromino` | core/src/main.cpp:72-79 | exactly the cells of the blocks with y >= 0 become 1; every other cell is unchanged |
| `Tetris.RowIsFull` | core/src/main.cpp:85-93 | the row scan with early exit returns true iff no cell of row y is 0 |
| `Tetris.CopyRowDown` | core/src/main.cpp:100-103 | row `row - 1` is copied into row `row`; every other row is unchanged |
| `Tetris.RemoveRow` | core/src/main.cpp:97-110 | rows 0..y-1 move down one row, row 0 becomes empty, rows below y are unchanged |
| `Tetris.ClearFullLines` | core/src/main.cpp:81-115 | the board becomes k empty rows over the original non-full rows in their original order; the loop terminates although it re-examines a row after each clear |
| `Tetris.ClearFullLinesOutcome` | core/src/main.cpp:81-115 | after clearing, the board is still 20 x 10, no row is full, and cells stay in {0,1} |
| `Tetris.LandsAfter` | core/src/main.cpp:137-148 | defines landing d rows down: the piece is legal at its own row and at each of the d rows below, and collides one row further; landing implies d >= 0 and a piece with blocks |
| `Tetris.DropTetromino` | core/src/main.cpp:134-150 | from a legal piece, every block moves down by the same d >= 0; every row on the way is legal, the result is legal, and one more row down collides; from an illegal piece, the piece moves up one row |
| `Tetris.BackUpOneRow` | core/src/main.cpp:144-148 | once the copy first collides d rows down, backing up one row gives the landing position when d > 0, and the start was illegal when d = 0 |
| `Tetris.DropDistanceUnique` | core/src/main.cpp:137-148 | the landing distance is unique |
| `Tetris.HardDropOnEmptyBoard` | core/src/main.cpp:134-150 | on an empty board a spawned piece lands with its lowest block in row 19 |
| `Tetris.RotateTetromino` | core/src/main.cpp:176-194 | unchanged when the pivot index is -1; otherwise each block (x,y) becomes (px - (y - py), py + (x - px)) about the original pivot |
| `Tetris.HandleKey` | core/src/main.cpp:245-274 | LEFT, RIGHT, DOWN and UP replace the piece with the moved or rotated copy iff that copy is legal, and otherwise leave it unchanged; SPACE drops the piece to its landing row; other keys do nothing; a legal piece stays legal |
| `Tetris.GravityTick` | core/src/main.cpp:282-300 | if the piece one row down collides, the piece is locked, full lines are cleared, the piece of the given shape spawns, and the game is over iff it collides; otherwise the piece moves down and the board is untouched |
| `TetrisV4.CollisionBounds` | core/src/main4.cpp:65-66 | any block with x < 0, x >= 20 or y >= 15 makes the piece collide |
| `TetrisV4.EmptyBoardCollision` | core/src/main4.cpp:61-71 | on the never-written all-zero board, a piece collides iff one of its blocks is beyond a side wall or the floor |
| `TetrisV4.SpawnIsLegal` | core/src/main4.cpp:128-131 | every shape is legal on the starting board |
| `TetrisV4.MoveTetromino` | core/src/main4.cpp:83-95 | the piece becomes the copy shifted by (dx, dy) iff that copy is legal, and is otherwise unchanged; the block count and pivot never change; a legal piece stays legal |
| `TetrisV4.GravityStep` | core/src/main4.cpp:169 | the piece stays put iff the piece one row down collides, and otherwise moves down one row |
| `TetrisV3.SpawnInsideBoard` | core/src/main3.cpp:28-59 | every spawned piece has four distinct blocks inside the 26 x 20 board; the pivot is disabled exactly for the square, and is otherwise 1 |

## Left out

- SDL setup and teardown, window and renderer creation, and error logging
  are left out. They are calls into a foreign library.
- All rendering is left out: `renderBoard`, `renderTetromino` and the
  drawing part of `renderGhostTetromino`. The ghost preview's only logic is
  its call to `dropTetromino`, and `Tetris.DropTetromino` models that call.
- Event polling and key-code dispatch are left out. A key press is the
  `Tetris.Key` input of `HandleKey`. The quit event only clears
  `isRunning`, and so does game over. Game over is the `gameOver` result of
  `GravityTick`. The loop that stops on these flags is not modelled.
- Timing is left out: `SDL_GetTicks`, the 500 ms threshold and main4.cpp's
  floating-point `deltaTime`. The caller decides when `GravityTick` or
  `TetrisV4.GravityStep` runs.
- `rand`/`srand` and the random colour are left out. The shape is an input
  index, and colour is cosmetic, so it is dropped from `Tetromino`.
- The 32-bit `int` range is not modelled. Coordinates are unbounded
  integers, because in the game they stay within a few cells of the board.
- core/src/main1.cpp and core/src/main2.cpp are not part of this model.
  They contain only SDL boilerplate and a draw loop.
