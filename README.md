# A verified model of the tetris engine

This project models the game engine of a small falling-block game written in C (`src/engine.c`) and proves what its steps do.

The engine's state is a `GameData` record:
- a 10 × 20 arena of settled cells, stored as one flat buffer of 200 ints, row by row (0 means empty);
- the current and next pieces;
- the anchor position of the current piece;
- score, level, cleared lines, per-kind piece counters and the defeat flag.

A piece is a tag plus a square row-major matrix: 2 × 2 for O, 4 × 4 for I and 3 × 3 for the rest. The engine:
- spawns pieces and aligns them past their empty leading rows and columns;
- tests for collisions with the walls and with settled blocks;
- moves and rotates by trying the change and reverting it on a collision;
- locks a piece by adding its cells into the arena;
- clears full rows into a fresh buffer and scores them;
- levels up every ten cleared lines;
- overlays the piece on a copy of the arena for drawing.

Module layout:
- `pieces.dfy` (module `Pieces`): the kinds, the matrix index, the canonical spawn shapes, rotation, and the occupied-row and occupied-column scans. It also holds the `array_index_to_coords` finding.
- `arena.dfy` (module `Arena`): the flat arena index and full rows. It specifies line clearing as a function:
  - the kept rows in their original order, packed to the bottom, below one empty row per cleared row;
  - the four-slot row buffer the C code fills;
  - scoring;
  - the overlay of a piece on the arena.
- `collision.dfy` (module `Collision`): the wall test and the block test as predicates, with what they mean cell by cell.
- `engine.dfy` (module `Engine`): the engine state as the class `Game`. Its fields are those the C steps update in place. The arena and the piece counters are `array`s, and `check_filled_rows` swaps in a freshly allocated arena. The C functions that loop over a matrix or the arena, or that update `GameData`, are methods with the C loops, proved against the functions above; `get_piece_size`, `coords_to_array_index`, `array_index_to_coords` and the shapes of `generate_next_piece` are functions (`Pieces.Size`, `Pieces.CoordsToArrayIndex`, `Pieces.ArrayIndexToCoords`, `Pieces.Canonical`). The scanning and copying loops of `check_filled_rows` and the matrix copy of `rotate_piece_right` are separate methods, each with its own loop invariants.
- `lifecycle.dfy` (module `Lifecycle`): the front end's run-state rules. These cover the pause key, the restart key, which keys reach the engine, and game over after a losing drop.

The class invariant `Game.Valid` holds after construction and after every step:
- no row of the arena is full;
- the falling piece is clear of both walls;
- `level == clearedLines / 10`;
- every cell of the current and next piece is 0 or a colour 1..7;
- until defeat, every arena cell is 0 or a colour 1..7, and the falling piece overlaps no settled block.

Three consequences follow:
- A lock can fill only the rows the piece spans, so at most four, which is what the four-slot row buffer of `check_filled_rows` needs.
- Every occupied cell of a locked piece lands in its own column. Until defeat it also lands on an empty cell, so the `+=` of `write_piece_to_arena` only ever adds a colour onto 0.
- Until defeat, arena cells stay within 0..7.

## Model

| member | source | states |
|---|---|---|
| `Pieces.KindIndex` | include/engine.h:51-53 | The enum value of a kind indexes one of the seven per-kind counters. |
| `Pieces.Size` | src/engine.c:6-23 | The matrix width is 2 exactly for O, 4 exactly for I, and 3 otherwise. |
| `Pieces.CoordsToArrayIndex` | src/engine.c:238-241 | For a column inside the width, the index lies in the stretch of row y: at least y * width and below (y + 1) * width. |
| `Pieces.IndexOfCoords` | src/engine.c:238-241 | A cell inside an n-by-n matrix has its row-major index inside the matrix. Dividing by n gives back the row, and the remainder gives back the column. |
| `Pieces.CoordsOfIndex` | src/engine.c:238-241 | Every index of an n-by-n matrix is the row-major index of its own column and row, both inside the matrix. |
| `Pieces.Canonical` | src/engine.c:87-228 | The shape generated for a kind carries that kind's tag and a matrix of the kind's size, and each of its cells is 0 or a colour 1..7. |
| `Pieces.CanonicalIsTetromino` | src/engine.c:87-228 | Every generated shape has exactly four occupied cells. |
| `Pieces.CanonicalColours` | src/engine.c:87-228 | Every cell of a generated shape is empty or holds the kind's enum value plus one. |
| `Pieces.RotatedRight` | src/engine.c:300-324 | An O piece is returned unchanged. Otherwise the kind is kept, and the new cell at column x, row y is the old cell at column y, row size-1-x. A matrix of cells in 0..7 stays so. |
| `Pieces.RotatedLeft` | src/engine.c:326-330 | Three right rotations keep the kind, leave an O piece unchanged, and keep cells in 0..7. |
| `Pieces.RotatedLeftMovesCells` | src/engine.c:326-330 | A left rotation moves the cell at column i, row j to column j, row size-1-i. |
| `Pieces.FourTurnsCell` | src/engine.c:300-324 | Four right rotations bring every cell of a piece other than O back to its own column and row. |
| `Pieces.RotateRightFourTimes` | src/engine.c:300-324 | Four right rotations give back the original piece exactly. |
| `Pieces.LeftThenRight` | src/engine.c:326-330 | A right rotation undoes a left rotation. |
| `Pieces.RightThenLeft` | src/engine.c:326-330 | A left rotation undoes a right rotation. |
| `Pieces.RotateLeftFourTimes` | src/engine.c:326-330 | Four left rotations give back the original piece exactly. |
| `Pieces.FirstOccupiedColumn` | src/engine.c:35-43 | The column where the scan from a start column stops lies between that start column and the size. |
| `Pieces.FirstOccupiedColumnExact` | src/engine.c:35-43 | Every column the scan passes is empty, and the column it stops at, unless it runs off the matrix, is occupied. |
| `Pieces.FirstOccupiedRow` | src/engine.c:25-33 | The row where the scan from a start row stops lies between that start row and the size. |
| `Pieces.FirstOccupiedRowExact` | src/engine.c:25-33 | Every row the scan passes is empty, and the row it stops at, unless it runs off the matrix, is occupied. |
| `Pieces.LastOccupiedColumn` | src/engine.c:258-268 | The column where the right-to-left scan stops lies between -1 and its start. |
| `Pieces.LastOccupiedColumnExact` | src/engine.c:258-268 | Every column the right-to-left scan passes is empty, and the column it stops at, if any, is occupied. |
| `Pieces.LeftEdge` | src/engine.c:245-256 | The left scan of the wall test stops at a column of the matrix with only empty columns left of it, and yields the default 0 for an empty matrix. |
| `Pieces.RightEdge` | src/engine.c:258-268 | The right scan of the wall test stops at a column of the matrix with only empty columns right of it, and yields the default 0 for an empty matrix. |
| `Pieces.OccupiedColumnHasCell` | src/engine.c:245-268 | A column where a scan stops holds an occupied cell, so the matrix is not empty. |
| `Pieces.EdgesBoundOccupiedCells` | src/engine.c:243-272 | Every occupied cell lies between the left and the right edge column. In a piece with an occupied cell, both edges are occupied columns. |
| `Pieces.ArrayIndexToCoordsAsWritten` | src/engine.c:230-236 | The conversion as written yields a pair (q, r) with q * width + r == index and r < width. That puts the row in x and the column in y. |
| `Pieces.ArrayIndexToCoordsSwapsAxes` | src/engine.c:230-236 | As written, column 1, row 0 goes to index 1 and comes back as (0, 1). The conversion is therefore not the inverse of `coords_to_array_index`. |
| `Pieces.ArrayIndexToCoords` | src/engine.c:230-236 | The corrected conversion yields a column below the width whose row-major index is the given index. |
| `Pieces.CoordsRoundTrip` | src/engine.c:238-241 | For any column below the width and any row, the corrected conversion undoes `coords_to_array_index`. |
| `Arena.CellOfIndex` | src/engine.c:370-371 | Every cell of the 200-cell buffer is the flat index of a column in 0..9 and a row in 0..19. |
| `Arena.IndexInjective` | src/engine.c:370-371 | Within the width, two columns and rows have the same flat index exactly when they are the same column and row. |
| `Arena.IndexInArena` | src/engine.c:370-371 | A column and row inside the grid give a flat index inside the 200-cell buffer, whose row and column read back as the ones given. |
| `Arena.FilledFromAt` | src/engine.c:388-390 | The scan along a row from column x reaches the right wall exactly when every cell from x to the wall is occupied. |
| `Arena.RowFullAt` | src/engine.c:387-391 | A row counts as full exactly when all ten of its cells are occupied. |
| `Arena.EmptyArena` | src/engine.c:47 | The freshly allocated arena has all 200 cells zero and no full row. |
| `Arena.FullRowsFrom` | src/engine.c:387-391 | At most as many rows are recorded as were scanned. |
| `Arena.FullRowsExact` | src/engine.c:387-391 | The recorded rows are exactly the full rows in the scanned range, strictly descending, that is, bottom row first. |
| `Arena.KeptRowsFrom` | src/engine.c:414-422 | The rows a clear keeps are ten cells wide, and there are no more of them than rows scanned. |
| `Arena.KeptPlusFull` | src/engine.c:414-422 | The kept rows and the recorded full rows together number exactly the rows scanned. |
| `Arena.Packed` | src/engine.c:411-422 | The rows stacked at the bottom of an otherwise empty grid form a 200-cell arena. |
| `Arena.PackedNothing` | src/engine.c:411-412 | Before any row is copied, the new arena is the zeroed one. |
| `Arena.PackedAt` | src/engine.c:411-422 | In a packed arena, a cell above the stacked rows is empty. Any other cell holds the corresponding cell of the stacked row placed at its height. |
| `Arena.PackedCons` | src/engine.c:420-421 | Packing one more row on top writes its ten cells into the row just above the others and changes no other cell. |
| `Arena.Cleared` | src/engine.c:410-426 | Clearing the full rows gives a 200-cell arena. |
| `Arena.ClearedAt` | src/engine.c:410-426 | After a clear of k rows: the top k rows are empty, every lower cell comes from the kept rows in their original order, and kept plus cleared rows make 20. |
| `Arena.KeptRowsColoured` | src/engine.c:414-422 | If every arena cell is 0 or a colour 1..7, so is every cell of every kept row. |
| `Arena.ClearedColoured` | src/engine.c:410-426 | Clearing rows keeps every arena cell in 0..7 when it was so before. |
| `Arena.KeptRowsNotFull` | src/engine.c:414-422 | No kept row is full. |
| `Arena.CopyRowPacks` | src/engine.c:420-421 | Copying a kept row to the current target row of the new arena gives the packed arena of all rows kept so far. |
| `Arena.KeepRow` | src/engine.c:420-421 | Copying a row that is not full adds one kept row and no full row. |
| `Arena.SkipFullRow` | src/engine.c:415-417 | Skipping a full row adds one full row and leaves the kept rows unchanged. |
| `Arena.KeptRowsStep` | src/engine.c:414-422 | A full row contributes no kept row. Any other row goes on top of the rows kept below it. |
| `Arena.ClearedHasNoFullRow` | src/engine.c:382-429 | After a clear, no row of the arena is full. |
| `Arena.KeptAllRows` | src/engine.c:414-422 | With no full row, every row is kept, in order. |
| `Arena.ClearedWithoutFullRows` | src/engine.c:398-399 | There is no full row exactly when the count is 0, and then clearing leaves the arena unchanged. |
| `Arena.FullRowsPrefix` | src/engine.c:387-391 | The rows recorded while scanning from the bottom up to a row are the first ones recorded by the whole scan. Every later one lies above it. |
| `Arena.RowBufferFrom` | src/engine.c:385-391 | The row buffer keeps its four slots throughout the scan. |
| `Arena.RowBufferSlots` | src/engine.c:385-391 | After the scan, slot k holds the k-th full row from the bottom, or 0xFF when there are fewer than k+1 full rows. |
| `Arena.RowBuffer` | src/engine.c:385-391 | The buffer after the whole scan has four slots. |
| `Arena.RowBufferStep` | src/engine.c:390 | With at most four full rows, a full row always finds a free slot, and scanning a row adds one to the count exactly when the row is full. |
| `Arena.RowBufferMarksFullRow` | src/engine.c:414-418 | At each row of the copying loop, once the full rows below it have been passed, the buffer slot it reads (guarded to stay in the buffer) names that row exactly when the row is full. |
| `Arena.Points` | src/engine.c:394-408 | A clear scores on level 0 exactly when at least one row is cleared, at least 40 per row and at most 1200. |
| `Arena.Award` | src/engine.c:394-408 | The score added is 0 exactly when no row is cleared. Otherwise it is at least the level-0 points plus 40 per row for each level. |
| `Arena.AwardRewardsMultipleRows` | src/engine.c:394-408 | Clearing 2 to 4 rows at once scores more than clearing them one at a time, and more than clearing one row fewer. |
| `Arena.Overlay` | src/engine.c:363-374 | Adding a piece's cells into the arena gives a 200-cell arena. |
| `Arena.OverlayAt` | src/engine.c:363-374 | Each cell after the overlay is the arena's value plus the piece's value at that column and row. |
| `Arena.OverlayFillsOnlyPieceRows` | src/engine.c:363-374 | On an arena with no full row, writing a piece can fill only rows the piece spans. So at most its size, and never more than 4, rows become full. |
| `Arena.OverlayOutsidePiece` | src/engine.c:363-374 | Writing a piece changes no cell outside the piece's square. |
| `Arena.SlotsReadAsWritten` | src/engine.c:414-418 | As written, the copying loop reads at most one slot per row, the slot index never falls and grows by at most one per row, and only the last read can be slot 4 or beyond. |
| `Arena.ReadsSlotFour` | src/engine.c:414-418 | As written, once the remaining slots hold the remaining matches in descending order, the copying loop reads slot 4. |
| `Arena.FourRowClearReadsPastBuffer` | src/engine.c:414-418 | As written, clearing four rows the highest of which is not row 0 reads slot 4 of the four-slot buffer. |
| `Collision.WallCollisionIffCellOutside` | src/engine.c:243-272 | For a piece with an occupied cell, the wall test compares only the two edge columns. It still fires exactly when some occupied cell lies outside columns 0..9. |
| `Collision.WallCollision` | src/engine.c:243-272 | When the wall test does not fire, every occupied cell lands in a column of the grid. |
| `Collision.PiecesCollision` | src/engine.c:275-288 | The block test fires only for a piece with an occupied cell. |
| `Collision.SideCollision` | src/engine.c:290-294 | When neither test fires, every occupied cell at or below the top row lies inside the grid on an empty cell. |
| `Collision.EmptyArenaCollision` | src/engine.c:275-288 | On an empty arena, the block test fires exactly when an occupied cell left of the right wall lands on or below the floor. |
| `Collision.BelowFloorCollides` | src/engine.c:275-288 | A non-empty piece clear of the walls with its anchor at or below the floor always collides. |
| `Collision.LockFillsEmptyCells` | src/engine.c:363-374 | A piece that hits neither a wall nor a block lies over empty cells inside the grid. Locking it sets each of those cells to the piece's value and overwrites no settled block. |
| `Collision.LockKeepsColours` | src/engine.c:363-374 | Locking a piece that passes the side test, with cells in 0..7, on an arena with cells in 0..7 leaves every arena cell in 0..7. |
| `Collision.LockedCellColoured` | src/engine.c:363-374 | The same for one grid cell: after locking, that cell holds a value in 0..7. |
| `Collision.AboveTopCellNeverHits` | src/engine.c:281-284 | With the read guarded to the buffer, a matrix cell on a row above the top row hits nothing, whatever the arena holds. |
| `Collision.CollisionIgnoresRowsAboveTop` | src/engine.c:275-288 | With the read guarded to the buffer, the block test fires exactly when some matrix cell on row 0 or below hits: cells above the top row count as empty. |
| `Collision.AboveArenaNeverCollides` | src/engine.c:275-288 | With the read guarded to the buffer, a piece whose occupied cells all lie above the top row collides with nothing, whatever the arena holds. |
| `Engine.Delta` | src/engine.c:433-434 | A move shifts by one column, to the left exactly for LEFT. |
| `Engine.Turned` | src/engine.c:332-334 | Turning a piece keeps its kind and matrix size. |
| `Engine.TurnedBack` | src/engine.c:336-340 | The revert turn, the other direction, restores the matrix exactly. |
| `Engine.SpawnX` | src/engine.c:349-353 | After `align_x` the anchor column is at most one matrix width left of the start column, and never right of it. |
| `Engine.SpawnY` | src/engine.c:349-352 | After `align_y` the anchor row is at most one matrix height above the start row, and never below it. |
| `Engine.SpawnPlacement` | src/engine.c:343-353 | After alignment, a spawned piece is clear of both walls, its leftmost occupied column is on the start column, its top occupied row is on the start row, and all its occupied cells are in the top Size rows. |
| `Engine.SpawnOnEmptyArena` | src/engine.c:45-77 | On the empty arena of a new game, the first spawned piece never collides. |
| `Engine.CoverStep` | src/engine.c:368-371 | Passing matrix cell (x, y) adds its value to column px+x, row py+y only. |
| `Engine.CoverCell` | src/engine.c:368-371 | With the piece clear of the walls, passing matrix cell (x, y) adds its value to exactly one buffer cell, its flat index. |
| `Engine.CoverRow` | src/engine.c:366-367 | Finishing a matrix row starts the next one, and a matrix row at or below the floor adds nothing. |
| `Engine.CoverAll` | src/engine.c:363-374 | Once every matrix row is passed, the loops have added exactly the overlay of the piece. |
| `Engine.RotationBufferStart` | src/engine.c:308 | The fresh rotation buffer is all zero. |
| `Engine.RotationBufferStep` | src/engine.c:316-318 | Copying source cell (i, j) writes it to target index (size-1-j, i), inside the buffer, and changes nothing else. |
| `Engine.RotationBufferRow` | src/engine.c:311-320 | A finished source row leads into the next one. |
| `Engine.RotationBufferDone` | src/engine.c:311-323 | After all rows are copied, the buffer holds the right rotation. |
| `Engine.ScanRow` | src/engine.c:388-391 | A row is recorded in the next slot, and the slot index advances, exactly when all ten of its cells are occupied. Otherwise the buffer is unchanged. |
| `Engine.ScanFilledRows` | src/engine.c:384-392 | With at most four full rows, the scan returns the number of full rows and the buffer that marks them bottom up. |
| `Engine.CopyRowCells` | src/engine.c:420 | The `memcpy` copies row `row` into target row `cur` and leaves the rest of the new arena as it was, which packs one more kept row. |
| `Engine.ZeroedArena` | src/engine.c:411 | The new buffer is fresh and all zero. |
| `Engine.CompactRow` | src/engine.c:414-422 | One pass either skips the row the buffer names next or copies the row one target row higher. Either way the new arena then holds the rows kept so far, packed at the bottom. |
| `Engine.CompactRows` | src/engine.c:410-426 | The copying loop produces exactly the cleared arena: the rows that are not full, in order, packed to the bottom. |
| `Engine.Game.constructor` | src/engine.c:45-77 | A new game is playing with zero score, level and lines, and an empty arena. The first kind is spawned and counted once, the second kind is next, and the invariant holds: the piece overlaps nothing and all cells are in 0..7. |
| `Engine.Game.AlignY` | src/engine.c:25-33 | The anchor row goes up by the number of empty rows at the top of the matrix. |
| `Engine.Game.AlignX` | src/engine.c:35-43 | The anchor column goes left by the number of empty columns at the left of the matrix. |
| `Engine.Game.CheckCollisionArenaWall` | src/engine.c:243-272 | Returns true exactly when the leftmost occupied column plus position_x is negative, or the rightmost plus position_x is at least 10. |
| `Engine.TSpawnsAboveTop` | src/engine.c:343-353 | With the start row 0, alignment puts a T's anchor on the start column and on row -1, because the T's matrix row 0 is empty. |
| `Engine.SpawnedTWritesBeforeBuffer` | src/engine.c:466-474 | As written, for a freshly spawned T the render loop adds matrix row 0 at flat indices -6, -5 and -4, before the buffer. |
| `Engine.TurnedSpawnReadsBeforeArena` | src/engine.c:275-288 | As written, a T spawns with its anchor on row -1, and after a right turn an occupied cell left of the right wall lies on row -1 at a negative flat index, which the block test reads. |
| `Engine.Game.CheckCollisionArenaPieces` | src/engine.c:275-288 | Returns true exactly when an occupied cell left of the right wall is on or below the floor or on a settled block. It changes nothing. |
| `Engine.Game.CheckCollisionSide` | src/engine.c:290-294 | Returns true exactly when either test fires. |
| `Engine.Game.RotatePieceRight` | src/engine.c:300-324 | The current piece becomes its right rotation. |
| `Engine.Game.RotatePieceLeft` | src/engine.c:326-330 | The current piece becomes its left rotation. |
| `Engine.Game.RotatePiece` | src/engine.c:332-341 | The piece takes the turned matrix unless that hits a wall or a block, in which case it keeps its old matrix exactly. Nothing else changes, and the invariant is kept. |
| `Engine.Game.Move` | src/engine.c:431-435 | position_x moves by -1 or +1 unless the moved piece hits a wall or a block, in which case it stays. Nothing else changes, and the invariant is kept. |
| `Engine.Game.WritePieceToArena` | src/engine.c:363-374 | The arena becomes its overlay with the piece. |
| `Engine.Game.CheckFilledRows` | src/engine.c:382-429 | Returns the number k of full rows and adds 40, 100, 300 or 1200 times level+1 to the score. The arena becomes the cleared one. For k = 0 the arena buffer and the score are unchanged, and no other field changes. |
| `Engine.Game.LevelUp` | src/engine.c:437-440 | The level becomes the cleared lines divided by ten. |
| `Engine.Game.SpawnNewPiece` | src/engine.c:343-358 | Next becomes current, and a new next of the given kind is made. The anchor is the aligned start, the new kind's counter goes up by one, and defeat is set when the spawned piece collides. |
| `Engine.Game.SettlePiece` | src/engine.c:447-451 | Locking writes the piece, then clears at most four full rows, scores them and leaves no full row. Before defeat, every occupied cell of the piece is written onto a cell that was empty, and the arena cells stay in 0..7. |
| `Engine.Game.LockPiece` | src/engine.c:447-455 | Locking also adds the cleared rows to the cleared lines, spawns the next piece and updates the level, keeping the invariant. Before defeat, the piece was written only onto empty cells. |
| `Engine.Game.Drop` | src/engine.c:442-458 | If the piece one row lower collides with nothing, only position_y grows by one and 0 is returned. Otherwise the piece is locked where it was, onto empty cells unless the game was already lost, its full rows are cleared and scored, and the next piece spawns. The number of cleared rows is returned and the invariant is kept. |
| `Engine.Game.GenerateBlockPositions` | src/engine.c:460-477 | A given buffer receives the arena with the piece overlaid. A null buffer is left alone. |
| `Lifecycle.TogglePause` | src/main.c:69-73 | The pause key swaps playing and paused, and leaves a finished game over. |
| `Lifecycle.TogglePauseTwice` | src/main.c:69-73 | Pressing the pause key twice restores the state. |
| `Lifecycle.AfterDrop` | src/update.c:28-31 | After a timed drop, the game is over exactly when the drop ended in defeat. Otherwise the state is unchanged. |
| `Lifecycle.Restart` | src/main.c:75-80 | After the restart key the game is never over, and the key changes the state only of a finished game. |
| `Lifecycle.RestartSettles` | src/main.c:75-80 | A second press of the restart key changes nothing, and the movement keys then reach the engine. |
| `Engine.RestartGame` | src/main.c:75-80 | On game over the restart key replaces the game by new game data (`init_gamedata`): playing, empty arena, zero score, level and lines, no defeat, the given first and next pieces, and the invariant. In any other state the same game is kept. Either way the new state is `Restart` of the old. |
| `Lifecycle.GameOverIsFinal` | src/main.c:38-80 | Game over is left only by restarting: pausing, moving and turning are ignored there, and pieces do not fall. |

## Left out

- Rendering, audio, window and keyboard handling, and frame timing are not part of this model. This covers the OpenGL and SDL calls, the `double` delta times, `calc_drop_time` and the fast-drop flag. The model keeps only the run-state rules of the keyboard callback and the update loop (module `Lifecycle`).
- Randomness: `rand() % 7` and the seed. The kind of each new piece is a parameter of the constructor, of `SpawnNewPiece`, of `LockPiece` and of `Drop`. The seed and `accumulated_time` fields are not modelled.
- `free_gamedata`, the `free` calls and `exit` on a failed allocation are not modelled. Allocation always succeeds here.
- `get_piece_size` exits on an unknown tag. Here the tag is the datatype `Kind`, which has no unknown value.
- `array_index_to_coords` returns its pair instead of writing through two pointers. Its early return on a null pointer is not modelled.
- `ARENA_WIDTH`, `ARENA_HEIGHT`, `COORDS_TO_ARENA_INDEX` and `START_POSITION_X/Y` come from a header that is not part of this model. The model uses 10, 20, row*10+col, 4 and 0. The copy of `include/engine.h` shown with the source is an older revision: it has no `cleared_lines` or `is_defeat` and uses `uint8_t` fields. The fields follow `src/engine.c` instead.
- Integer widths: score, level, cleared lines, positions and the piece counters are unbounded integers, so the wrap-around of the C unsigned fields after about four billion points is not modelled.
- Out-of-bounds accesses: where C would read the arena outside its buffer (a piece partly above the top row, see the third finding), the read yields 0, and such a write is dropped. A column left of the wall reads the neighbouring row through the flat index, as in C.
- Engine.Game.CheckFilledRows: requires at most four full rows. With more, the C code writes past its four-slot buffer. `Game.Valid` together with `Arena.OverlayFillsOnlyPieceRows` shows the engine never calls it with more.
- Engine.Game.WritePieceToArena: requires the piece to be clear of the walls, which `Game.Valid` always provides. Empty matrix columns may still lie left of the wall (an L piece at position_x = -1). Their cells are written through the flat index into the last column of the previous row, adding 0, in the model as in C.
- Engine.Game.GenerateBlockPositions: requires the piece to be clear of the walls, which `Game.Valid` always provides. Like the C loop it skips no column, so empty matrix columns left of the wall add 0 into the last column of the previous row, in the model as in C. The C loop also skips no row: matrix rows above the top row or below the floor are added before or past the caller's 200-int buffer (src/render.c:164). A T, Z or S just after spawning writes indices -6 to -4, and a piece resting on the floor with an empty bottom matrix row writes index 200 and beyond. The model drops these out-of-buffer writes (see the fourth finding).
- Engine.CompactRow: reads the row buffer only while a slot is left (the guard of the second finding below), so it models the corrected copying loop rather than the out-of-bounds read.

## Findings

| source | as written | input that shows it | evidently intended | confidence | as-written member | corrected member |
|---|---|---|---|---|---|---|
| src/engine.c:230-236 | `array_index_to_coords` sets x to index / width and y to index % width. | Width 10, index 1, which `coords_to_array_index` gives for column 1, row 0: it comes back as x = 0, y = 1. | x = index % width, y = index / width, the inverse of `coords_to_array_index`. | not executed; the function has no caller in the engine | `Pieces.ArrayIndexToCoordsSwapsAxes` | `Pieces.CoordsRoundTrip` |
| src/engine.c:414-418 | The copying loop of `check_filled_rows` reads `row_buffer[buffer_index]` without checking that `buffer_index < 4`. | Any clear of four rows whose highest is not row 0, e.g. an I piece placed upright to complete rows 16 to 19: after skipping row 16, row 15 reads `row_buffer[4]`, outside the array. | Compare only while a slot is left (`buffer_index < 4 &&`). The result is the same when the stray read does not equal the row. | not executed | `Arena.FourRowClearReadsPastBuffer` | `Engine.CompactRows` |
| src/engine.c:275-288 | `check_collision_arena_pieces` reads `arena[COORDS_TO_ARENA_INDEX(x, y)]` without checking that the row is at least 0. `write_piece_to_arena` (src/engine.c:366-371) writes the same way. | With `START_POSITION_Y` = 0, the value this model assumes because the header defining it is not part of the model: a T spawns with its anchor at column 4, row -1. Rotating it right puts an occupied cell in matrix row 0, and the test in `rotate_piece` (src/engine.c:337) reads flat index -5, before the arena. | Cells above the top row count as empty and are not read or written. | not executed; depends on `START_POSITION_Y` = 0 | `Engine.TurnedSpawnReadsBeforeArena` | `Collision.CollisionIgnoresRowsAboveTop` |
| src/engine.c:466-474 | `generate_block_positions` adds every cell of the piece matrix into the caller's `int block_positions[200]` (src/render.c:164) at `COORDS_TO_ARENA_INDEX`, skipping no row. | With `START_POSITION_Y` = 0: right after a T spawns at anchor column 4, row -1, the frame's render call adds its empty matrix row 0 at indices -6, -5 and -4, before the buffer. | Add only cells whose flat index lies inside the buffer (or only rows 0 to 19). | not executed; depends on `START_POSITION_Y` = 0 | `Engine.SpawnedTWritesBeforeBuffer` | `Engine.Game.GenerateBlockPositions` |
