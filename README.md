# Tetris game-state core in Dafny

This project models the game state of `Tetris.java`: the inner class
`PlayManager` and the abstract class `Mino` with its seven subclasses
(`Mino_I`, `Mino_J`, `Mino_L1`, `Mino_O`, `Mino_S`, `Mino_T`, `Mino_Z`).
The board is a 20 x 10 grid of cells, each 0 (empty) or 1 (settled). The
current piece can move, rotate with a wall-kick search, and lock into the
board. Full rows are cleared for 100 points each, and the next piece is
then spawned at column 5, row 0.

The project has four modules:

- `Shapes` (Shapes.dfy) holds the shape table of the seven subclasses as
  pure data. `SetXYOffsets` gives the layout that `setXY` uses, and
  `UpdateXYOffsets` gives the layout that `updateXY` uses for each
  orientation. Lemmas state how the orientations relate.
- `Rules` (Rules.dfy) states the game rules on values: the board as a
  sequence of rows, a piece as its four block cells. It holds the
  placement test `Fits`, locking (`Lock`, `LockCount`), line clearing
  (`Cleared`) and the wall-kick search (`FirstKick`, `RotationTarget`).
- `Pieces` (Pieces.dfy) models `Mino` as a class. Its committed blocks `b`
  and candidate blocks `tempB` are arrays, and its orientation is a field
  that the methods update in place.
- `Play` (Play.dfy) models `PlayManager` as a class. The board is an
  `array2<int>`, and the current piece, next piece and score are fields.
  Each method's `ensures` states the new state as a function of the old
  one, using the functions of `Rules`.

Coordinates are in cells, not pixels. Every pixel coordinate in the source
is a multiple of `CELL_SIZE` = 30: spawn is at `cols / 2 * 30`, every move
is ±30, and every offset is `Block.SIZE` or `2 * Block.SIZE`. Java's
truncating `/` and Dafny's `/` agree on such values, so one cell of the
model is 30 pixels of the source.

Where the comments in the source and its code disagree, the model follows
the code:

- **Failed rotation.** The comments in `rotateMino` at Tetris.java:168
  and :209 speak of a backup and a restore. The code performs neither.
  `updateXY` has already recorded the new orientation, and when no kick
  fits, the "restore" copies the turned, unkicked candidate into `b`. The
  model does the same: `Rules.FailedRotationCommitsInvalidPlacement`
  shows a board on which a rotation leaves the piece overlapping settled
  blocks.
- **The kick `(0, -1)`.** Its comment at Tetris.java:110 calls it a move
  down one row. Rows grow downward, so it moves the piece up one row. The
  model uses the numbers in the table.

Two further behaviours of the code shape the model:

- **Game over.** Game over is checked only in `spawnNewMino`, after a
  piece locks. The constructor lays out the first piece without a check.
- **Crashes.** A rotation can commit blocks beside the walls or below the
  floor. A later blocked downward move then makes `lockMino` index the
  board out of range, which throws. The model records this in the flag
  `crashed`, together with the cells written before the throw.

## Model

| member | source | states |
|---|---|---|
| Shapes.SetXYOffsets | Tetris.java:347-360 | The orientation-1 layout of each kind, from `setXY` of `Mino_L1` and of the other six subclasses (lines 413-426, 463-476, 491-504, 557-570, 607-620, 657-670). Each layout has four distinct offsets, and block 0 sits at the anchor. |
| Shapes.UpdateXYOffsets | Tetris.java:364-404 | The layout that `updateXY(d)` writes for each kind other than O and each orientation 1..4 (also lines 430-453, 508-547, 574-597, 624-647, 674-711). Each layout has four distinct offsets, and block 0 never moves, so rotation pivots on `b[0]`. |
| Shapes.SetXYIsOrientationOne | Tetris.java:347-378 | For every kind that rotates, `setXY` lays the piece out exactly as `updateXY(1)` does. |
| Shapes.TwoLayoutKinds | Tetris.java:437-452 | I, S and Z have two layouts: two turns give back the same layout, and one turn gives a different one. |
| Shapes.QuarterTurnKinds | Tetris.java:508-547 | For J, L and T, each step of the orientation cycle is a quarter turn of every block about `b[0]`. |
| Shapes.NextDirection | Tetris.java:166 | `(direction % 4) + 1` always lies in 1..4 and cycles 1, 2, 3, 4, 1. |
| Shapes.FourTurnsIdentity | Tetris.java:166 | Four turns bring the orientation back to where it started. |
| Shapes.ShiftUndo | Tetris.java:153-156 | Moving the candidate by `(dx, dy)` and then by `(-dx, -dy)` restores it exactly. |
| Shapes.ShiftKeepsDistinct | Tetris.java:141-144 | Moving a piece keeps its four blocks distinct. |
| Rules.OutOfBoundsNeverFits | Tetris.java:268 | A block beside a wall or below the floor makes the placement invalid, whatever the board holds. |
| Rules.AboveBoardFits | Tetris.java:268 | Blocks above the board are checked against the walls only, never against the board. |
| Rules.LockCount | Tetris.java:230-238 | The number of blocks `lockMino` writes before it reaches a block it cannot index. Every block before that point can be indexed, and the block at that point cannot. |
| Rules.LockAt | Tetris.java:230-238 | After locking, a cell on the board holds 1 exactly when a block of the piece lies on it; every other cell keeps its value. |
| Rules.LockAboveBoard | Tetris.java:234 | A piece lying wholly above the board leaves the board unchanged. |
| Rules.LockKeepsBinary | Tetris.java:235 | Locking keeps every cell 0 or 1. |
| Rules.FitsIsLockable | Tetris.java:263-273 | A placement that passes `checkValidMove` is locked in full: `lockMino` cannot throw on it. |
| Rules.Kept | Tetris.java:240-254 | The rows that `clearLines` keeps. None of them is full, each is a row of the old board, and their number plus the number of full rows is the board height. |
| Rules.ClearedStep | Tetris.java:240-254 | Taking one more row into account adds an empty row on top if that row is full, and otherwise appends that row at the bottom. |
| Rules.ClearLinesStep | Tetris.java:241-253 | One pass of the `clearLines` loop. If rows `0..y-1` are already cleared and row `y` is unchanged, then clearing row `y` when it is full (via `clearLine`) leaves rows `0..y` cleared. The count of full rows grows by one exactly when row `y` is full. |
| Rules.ClearedKeepsBinary | Tetris.java:256-261 | Clearing keeps every cell 0 or 1. |
| Rules.ClearedHasNoFullRow | Tetris.java:240-254 | No full row is left after `clearLines`. |
| Rules.NoFullRowIsKept | Tetris.java:240-254 | On a board without full rows, nothing is counted and every row is kept. |
| Rules.NoFullRowIsCleared | Tetris.java:240-254 | `clearLines` leaves a board without full rows unchanged. |
| Rules.ClearedIdempotent | Tetris.java:240-254 | Clearing a cleared board changes nothing. |
| Rules.ClearedKeepsBottom | Tetris.java:256-261 | If no row from `m` down is full, clearing changes only rows above `m`; the rows below the lowest full row are not moved. |
| Rules.FirstKick | Tetris.java:187-205 | The first wall kick, in table order, that makes the turned piece fit. Every earlier kick fails, and `None` means no kick fits. |
| Rules.RotationIsFirstFittingKick | Tetris.java:175-213 | If no kick fits, the rotation commits the turned piece unkicked, in an invalid placement. Otherwise it commits the turned piece moved by the first kick that fits. |
| Rules.RotationFitsIffSomeKickFits | Tetris.java:175-213 | The committed placement after a rotation is valid if and only if some wall kick makes the turned piece fit. |
| Rules.FailedRotationCommitsInvalidPlacement | Tetris.java:205-213 | A vertical I in column 0, with settled blocks in columns 1..3 on its top two rows, fits. Its rotation commits a placement that does not fit. |
| Rules.SpawnFitsEmptyBoard | Tetris.java:129-132 | Every kind fits at the spawn point of an empty board. |
| Pieces.Mino.constructor | Tetris.java:312-322 | A new piece has four committed and four candidate blocks, all at (0, 0), in orientation 1. |
| Pieces.Mino.Update | Tetris.java:327-332 | `update` makes the committed blocks equal the candidate blocks. |
| Pieces.Mino.SetXY | Tetris.java:347-360 | `setXY(x, y)` puts the committed blocks at the orientation-1 layout around `(x, y)` and copies them into the candidate. |
| Pieces.Mino.UpdateXY | Tetris.java:364-404 | `updateXY(d)` records `d` as the orientation and writes the layout of orientation `d` around `b[0]` into candidate blocks 1..3. Candidate block 0 is untouched. A `d` outside 1..4 writes nothing. `Mino_O` changes nothing (line 480). |
| Play.PlayManager.constructor | Tetris.java:129-134 | An empty board, score 0, the first piece laid out at the spawn point with candidate equal to committed, and a second piece waiting in orientation 1. The board, both pieces and their block arrays are newly allocated. |
| Play.PlayManager.CheckValidMove | Tetris.java:263-273 | The result is true if and only if every candidate block is within the walls, above the floor, and either above the board or on a cell that does not hold 1. |
| Play.PlayManager.LockMino | Tetris.java:230-238 | The board becomes the old board with 1 written at each block that can be indexed, up to the first block that cannot. The method crashes exactly when not all four blocks can be indexed. |
| Play.PlayManager.ClearLine | Tetris.java:256-261 | Row `line` is removed, the rows above it move down one, and an empty row appears on top. Rows below `line` are untouched. |
| Play.PlayManager.ClearLines | Tetris.java:240-254 | The board becomes `Cleared` of the old board: one empty row per full row, then the non-full rows in order. The score grows by 100 per full row. |
| Play.PlayManager.ClearIfFull | Tetris.java:242-252 | One pass of the `clearLines` loop on the board itself. If the rows above `y` are already cleared, then afterwards the rows through `y` are cleared. The score grows by 100 exactly when row `y` was full. |
| Play.PlayManager.SpawnNewMino | Tetris.java:219-228 | The next piece becomes current, laid out in orientation 1 at the spawn point, and a fresh piece of the given kind, with newly allocated block arrays, waits next. The game ends if and only if the spawned piece does not fit. The score is unchanged. |
| Play.PlayManager.MoveMino | Tetris.java:140-158 | Four outcomes. (1) A valid move commits the shifted blocks. (2) A blocked move with `dy <= 0` changes nothing. (3) A blocked downward move locks the last committed blocks, then clears lines and spawns the next piece; the new next piece and its block arrays are newly allocated. (4) If locking throws, the session crashes. In (1), (2) and (4) the next piece and its blocks are untouched. Candidate equals committed after every outcome but the crash. |
| Play.PlayManager.RowIsFull | Tetris.java:242-248 | The inner scan of `clearLines`: the result is true if and only if no cell of row `y` holds 0. |
| Play.PlayManager.CopyRowDown | Tetris.java:258 | `System.arraycopy(board[y - 1], 0, board[y], 0, cols)`: row `y` becomes a copy of row `y - 1`, and every other row is unchanged. |
| Play.PlayManager.Settle | Tetris.java:148-151 | A blocked downward move locks, then clears lines, then spawns, in that order. If the lock throws, nothing after it runs and only the written cells change. Otherwise the board is `Cleared` of the locked board, the score grows by 100 per full row, and the spawned piece decides game over. |
| Play.PlayManager.KickTurned | Tetris.java:184-214 | The wall-kick loop and the "restore": the committed blocks become the turned candidate moved by the first kick that fits (`FirstKick`), or the unkicked candidate if none fits. Candidate equals committed afterwards. |
| Pieces.Mino.SyncCandidate | Tetris.java:169-172 | The copy loop at the start of `rotateMino`, also at the end of every `setXY` (lines 357-360): the candidate blocks become equal to the committed ones. |
| Pieces.Mino.ShiftCandidate | Tetris.java:141-144 | Every candidate block moves by the same offset: the loops of `moveMino` (also 153-156) and of the kick search (187-190, 200-203). |
| Play.PlayManager.RotateMino | Tetris.java:160-217 | An O piece is unchanged. Any other piece takes the next orientation, and its committed blocks become `RotationTarget`: the turned piece moved by the first fitting kick, or unkicked if none fits. Candidate equals committed afterwards. |

## Left out

- The Swing window, panel, key listener and all drawing (`draw` of `PlayManager`, `Mino` and `Block`, colours, `create`'s colour argument). `PlayManager.draw` also moves `nextMino` to display pixels (400, 70); `spawnNewMino` overwrites that position, so the model never records it.
- The game thread, `Thread.sleep(500)` and the `running` loop. The key listener and the game thread call `moveMino` without synchronisation; the model treats calls as strictly sequential.
- `java.util.Random` in `getRandomMino`: the kind of each new piece is a parameter of the constructor, `MoveMino` and `SpawnNewMino`. The unreachable `default` arm is not modelled.
- `JOptionPane` and `System.exit` on game over: they become the terminal flag `gameOver`.
- The index exception in `lockMino`: it becomes the terminal flag `crashed`. What Swing or the game thread would do after the exception is not modelled.
- `System.out.println` debug logging.
- `getScore`: a plain read of the `score` field.
- Play.PlayManager.ClearLines: the score is an unbounded integer. Java's 32-bit wrap-around of `score` is not modelled; it would need over 21 million cleared rows.
- Play.PlayManager.Valid: does not state that the score is a multiple of 100, which holds because every increment is 100. Only `score >= 0` is kept as an invariant.
- Pixels: coordinates are modelled in cells, as explained above.
