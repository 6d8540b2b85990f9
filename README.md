# Tetris simulation in Dafny

A model of the board-and-piece simulation of a browser Tetris game, `tetris.js`. The board has 20 rows of 10 cells. Each cell holds 0 for empty or 1..7 for the type of tetromino locked there. One piece falls at a time. The player moves it left and right, drops it one row, hard-drops it to the floor, and rotates it clockwise with a simple wall kick. Once it can fall no further it is written into the board. Complete rows are then removed and scored, and a new random piece spawns. A game is over when a new piece overlaps the board.

The project has five modules:

- `Shapes` (`shapes.dfy`): the shape table and matrix rotation. There is a specification function `Rotated`, the source's loop as the method `Rotate`, and lemmas that rotation keeps a shape valid and that four rotations are the identity.
- `Playfield` (`playfield.dfy`): boards, pieces and the collision predicate. It also defines `Stamp`, the board after a lock writes the piece into it, and line clearing as `Cleared`: one empty row per complete row, on top of the remaining rows in their original order. Lemmas relate these, including the bound that a lock can complete at most as many rows as the piece is tall.
- `Rules` (`rules.dfy`): the whole game state as a value and every transition as a function of the state before. The state invariant `Inv` says:
  - the board is well formed and has no complete row;
  - unless the game is over, the piece overlaps neither the walls, the floor nor an occupied cell;
  - level and drop interval agree with the line count.

  Every transition preserves `Inv`. `Lock` relies on it: at most four rows can complete, so the points table is never indexed out of range.
- `Engine` (`game.dfy`): the class `Game`. Its fields are the game's globals: an `array` of rows for the board, the current piece, the counters and the two flags. Its methods update those fields step by step with the loops of the source. Each method is proved to leave the object in exactly the state the matching `Rules` function gives. The operations a player or the game loop triggers (the constructor, `MovePiece`, `DropPiece`, `HardDrop`, `RotatePiece`, `LockPiece`, `TogglePause`, `Restart`, `HandleKeyPress`, and `SpawnPiece` from a valid state) are also proved to keep `Valid()`, which is `Inv` of the object's state. The helpers that run in the middle of a lock or a hard drop state only their effect on the board and counters.
- `Scenarios` (`scenarios.dfy`): concrete games. An O piece hard-dropped from the top of the empty board lands on the bottom two rows for 36 points. An I piece laid into a four-cell gap clears the bottom row for 100 points.

The random choice of the next piece is a parameter `k` in 1..7 of every operation that may spawn. A gravity tick of the game loop is a call of `DropPiece`.

## Model

| member | source | states |
|---|---|---|
| Shapes.Rotate | tetris.js:157-169 | builds an M x N matrix from an N x M one, with cell (i, j) equal to the input cell (N-1-j, i), and equal to the specification `Rotated` |
| Shapes.HalfTurn | tetris.js:157-169 | two rotations turn the matrix upside down and mirror it: cell (i, j) becomes cell (N-1-i, M-1-j) |
| Shapes.RotateFourTimes | tetris.js:157-169 | four clockwise rotations give back the original shape |
| Shapes.RotatedValid | tetris.js:157-169 | rotation keeps a shape rectangular, at most 4 x 4, and with a filled cell |
| Shapes.TableValid | tetris.js:17-26 | each of the seven spawnable entries of the shape table is a valid shape |
| Playfield.CollidesShifted | tetris.js:81-99 | checking a piece at offset (dx, dy) is the same as checking the piece moved by (dx, dy) |
| Playfield.CollidesAt | tetris.js:84-94 | a filled cell that lands off the sides, below the floor, or on an occupied cell in a row at or below the top makes the check report a collision |
| Playfield.PlacedInBounds | tetris.js:172-183 | every filled cell of a collision-free piece lies between the side walls and above the floor, and lands on an empty cell when it is on the board |
| Playfield.StampWritesPiece | tetris.js:172-183 | the lock writes the piece's type into every board cell under a filled cell at row 0 or below, all of which are in bounds, and changes no other cell |
| Playfield.RemainingRows | tetris.js:191-209 | each row is either complete or kept; kept rows are rows of the board that are not complete |
| Playfield.NothingToClear | tetris.js:191-209 | a board with no complete row has no row to clear and keeps all its rows |
| Playfield.EmptyBoardHasNoCompleteRow | tetris.js:364-370 | the empty board has no complete row |
| Playfield.CountCompleteAppend | tetris.js:194-209 | the complete rows of two stacked boards are counted separately |
| Playfield.RemainingAppend | tetris.js:194-209 | the kept rows of two stacked boards are the kept rows of each, in order |
| Playfield.ClearedWellFormed | tetris.js:191-209 | clearing keeps 20 rows of 10 cells with values in 0..7, leaves no complete row, and changes nothing when no row is complete |
| Playfield.NoneCompleteKeepsAll | tetris.js:191-209 | when no row is complete, every row is kept |
| Playfield.StampCompletesAtMostHeight | tetris.js:172-216 | writing a piece into a board without complete rows completes at most as many rows as the piece is tall, which is at most 4, so the points table index at line 216 is in range |
| Rules.Points | tetris.js:215 | the points for k cleared rows are zero exactly when k is zero |
| Rules.IntervalFor | tetris.js:220 | from level 1 on, the drop interval lies between 100 and 1000 ms and is 100 from level 10 on |
| Rules.NewPiece | tetris.js:66-72 | the new piece of type k carries shape k and colour k, starts in row 0 at column floor(COLS/2) - floor(width/2), is a valid piece, and fits on the empty board |
| Rules.SpawnFitsEmpty | tetris.js:70-75 | a valid shape centred in the top row never collides with the empty board |
| Rules.Spawn | tetris.js:65-78 | the new piece replaces the active one, the game is over exactly when it was over or the new piece collides, and nothing else changes |
| Rules.Move | tetris.js:102-109 | x changes by dir exactly when the game is neither paused nor over and the moved piece fits; nothing else changes; the invariant is kept |
| Rules.ClearLines | tetris.js:191-224 | the board becomes `Cleared`; with k > 0 rows cleared, lines += k, score += points[k] x the level before, then level and interval are recomputed; with k = 0 the state is unchanged |
| Rules.Lock | tetris.js:172-188 | at most four rows complete, and the result is the spawn of the next piece after `ClearLines` of the state with the piece written in: the cleared rows are counted and scored; the board becomes the cleared stamped board, score and lines never decrease, the game is over exactly when the new piece collides, and the invariant is kept |
| Rules.Drop | tetris.js:112-121 | when paused or over nothing changes; when the piece can fall, y grows by 1 and nothing else changes; otherwise the piece locks (`Lock`); the invariant is kept and the score never decreases |
| Rules.AboveFloor | tetris.js:127 | a piece that can still fall has its top row above the floor row, which bounds the hard-drop loop |
| Rules.Landing | tetris.js:127-130 | the hard-drop position is the same piece lower down: every row passed could fall one further, the final one cannot, and a collision-free start gives a collision-free landing |
| Rules.Fallen | tetris.js:127-130 | the state after the hard-drop loop: the piece at its landing position and 2 points added per row fallen; the invariant still holds and the game is not over |
| Rules.HardDrop | tetris.js:124-132 | when paused or over nothing changes; otherwise the lock of the `Fallen` state, that is, the piece at its landing position after adding 2 points per row fallen; the invariant is kept |
| Rules.Kicked | tetris.js:135-154 | the rotated piece at x, else x+1, else x-1, taking the first that fits, or the piece unchanged when none fits; y and type never change; a collision-free piece stays collision-free |
| Rules.RotatePiece | tetris.js:135-154 | only the piece changes: it is kicked unless paused or over; the invariant is kept |
| Rules.Restart | tetris.js:362-385 | empty board, score 0, lines 0, level 1, interval 1000, both flags cleared, piece k spawned and fitting; the invariant holds |
| Rules.HandleKey | tetris.js:309-337 | no key does anything once the game is over; otherwise ArrowLeft and ArrowRight move by -1 and +1, ArrowDown drops and then adds one point whatever the drop did, ArrowUp rotates, space hard-drops, P flips the pause flag, and any other key does nothing; the score never decreases and the invariant is kept |
| Engine.NewBoard | tetris.js:47-53 | a fresh array of 20 all-zero rows of 10 cells |
| Engine.Game.constructor | tetris.js:43-62 | empty board, a spawned piece of type k, counters 0, 0, 1, 1000, not paused, not over, and the invariant holds |
| Engine.Game.CheckCollision | tetris.js:81-99 | the nested scan with early return answers exactly the collision predicate |
| Engine.Game.SpawnPiece | tetris.js:65-78 | the object's state becomes `Rules.Spawn` of the state before, keeping the invariant when it held before |
| Engine.Game.MovePiece | tetris.js:102-109 | the object's state becomes `Rules.Move` of the state before, keeping the invariant |
| Engine.Game.DropPiece | tetris.js:112-121 | the object's state becomes `Rules.Drop` of the state before, keeping the invariant |
| Engine.Game.HardDrop | tetris.js:124-132 | the object's state becomes `Rules.HardDrop` of the state before, keeping the invariant |
| Engine.Game.FallToLanding | tetris.js:127-130 | the loop stops at `Landing` of the starting position and adds 2 points per row fallen |
| Engine.Game.RotatePiece | tetris.js:135-154 | the object's state becomes `Rules.RotatePiece` of the state before, keeping the invariant |
| Engine.Game.LockPiece | tetris.js:172-188 | the object's state becomes `Rules.Lock` of the state before, keeping the invariant |
| Engine.Game.WritePiece | tetris.js:173-183 | the nested write loop leaves the board equal to `Stamp` of the board before |
| Engine.Game.RowComplete | tetris.js:195-201 | the scan with break answers whether the row has no empty cell |
| Engine.Game.RemoveRow | tetris.js:204-205 | splice and unshift: an empty row on top, then the rows above y, then the rows below y |
| Engine.Game.RemoveCompleteRows | tetris.js:192-209 | the bottom-up scan that re-examines a row after removing one leaves `Cleared` of the board before and counts its complete rows |
| Engine.Game.ScanStep | tetris.js:195-208 | one pass of the scan at row y: a complete row is removed and row y examined again, otherwise the scan moves up a row; the board stays equal to the scan state and the count of removed rows stays the number of complete rows among the examined ones |
| Engine.Game.ClearLines | tetris.js:191-224 | the object's state becomes `Rules.ClearLines` of the state before |
| Engine.Game.TogglePause | tetris.js:341 | only the pause flag flips, and the invariant is kept |
| Engine.Game.Restart | tetris.js:362-385 | the object's state becomes `Rules.Restart` of the state before, keeping the invariant |
| Engine.Game.HandleKeyPress | tetris.js:309-337 | the object's state becomes `Rules.HandleKey` of the state before, keeping the invariant |
| Scenarios.NewOPiece | tetris.js:66-72 | a new O piece starts at column 4 of row 0 |
| Scenarios.OPieceLanding | tetris.js:127-130 | an O piece at the top of the empty board lands with its top row at 18 |
| Scenarios.HardDropOPiece | tetris.js:124-132 | that hard drop scores 36, clears nothing, writes 2 into cells (18,4), (18,5), (19,4) and (19,5), and leaves the neighbouring cells (17,4) and (19,3) empty |
| Scenarios.RestartThenHardDrop | tetris.js:362-385 | a restart that draws an O piece followed by a hard drop gives score 36 and no lines |
| Scenarios.LockOPieceOnFloor | tetris.js:172-188 | locking the O piece on the floor of the empty board changes no counter and fills its four cells |
| Scenarios.OPieceStamp | tetris.js:172-183 | the O piece written on the floor fills its four cells and completes no row |
| Scenarios.LockWithoutClear | tetris.js:185-186 | a lock that completes no row only writes the piece and spawns |
| Scenarios.LockCompletesBottomRow | tetris.js:172-224 | an I piece that fills the gap of the bottom row clears it: one line, 100 points at level 1, and an empty board |

## Left out

- Drawing (`draw`, `drawBlock`, the colour table, the block size, and the pause overlay of `togglePause`): rendering only.
- `updateScore` and the DOM updates in `gameOver` and `restart`: the model keeps only the game-over flag and the state resets.
- Event wiring in `init` and the page-load hook: browser plumbing. The board initialisation in `init` is `Engine.NewBoard`, which is shared with `Restart`.
- The `update` timing loop (`dropCounter`, `lastTime`, frame timestamps): floating-point time and the animation scheduler. A gravity tick is `Engine.Game.DropPiece`, and `dropInterval` is kept as a counter only.
- `Math.random` in `spawnPiece`: replaced by a caller-supplied piece type `k` in 1..7.
- Row identity: each board row is a value, not a shared array object. The source never aliases rows, so no behaviour is lost.
- Rules.Points: defined only for 0..4 cleared rows. In the source, `points[k]` for k > 4 would be `undefined` and the score would become `NaN`. This can never happen: the invariant that no row is complete between locks, together with `Playfield.StampCompletesAtMostHeight`, shows that k is at most 4 at every call.
- `handleKeyPress` maps both `'p'` and `'P'` to `PauseKey`, and every key with no case to `OtherKey`. The `preventDefault` call on space is browser plumbing.
