/**
 * `PlayManager` of Tetris.java: the board, the current and next piece, the
 * score, and the operations that move, rotate, lock, clear and spawn. Each
 * method is proved to change the state exactly as the functions of module
 * Rules say.
 *
 * Randomness (`getRandomMino`) is a parameter: the caller passes the kind
 * of the piece that becomes `nextMino`. The game-over dialog and
 * `System.exit` become the terminal flag `gameOver`; the exception that
 * `lockMino` throws on a block it cannot index becomes the terminal flag
 * `crashed`. Calls are sequential; nothing runs after either flag is set.
 */
module Play {
  import opened Shapes
  import opened Rules
  import opened Pieces

  class PlayManager {
    /** `board[y][x]` of the source, `rows` x `cols`; 1 marks a settled block. */
    const board: array2<int>
    var currentMino: Mino
    var nextMino: Mino
    var score: int
    /** The game-over dialog was shown and the process exits. */
    var gameOver: bool
    /** `lockMino` threw an index exception out of moveMino. */
    var crashed: bool

    /** The contents of `board` as rows of cells. */
    ghost function Snapshot(): (g: Grid)
      reads board
      ensures |g| == board.Length0
      ensures forall y :: 0 <= y < board.Length0 ==> |g[y]| == board.Length1
      ensures forall y, x :: 0 <= y < board.Length0 && 0 <= x < board.Length1 ==> g[y][x] == board[y, x]
    {
      seq(board.Length0, y requires 0 <= y < board.Length0 reads board =>
        seq(board.Length1, x requires 0 <= x < board.Length1 reads board => board[y, x]))
    }

    /** A grid of the board's shape that agrees with it cell by cell is its contents. */
    lemma SnapshotIs(h: Grid)
      requires |h| == board.Length0
      requires forall y :: 0 <= y < |h| ==> |h[y]| == board.Length1
      requires forall y, x :: 0 <= y < board.Length0 && 0 <= x < board.Length1 ==> h[y][x] == board[y, x]
      ensures Snapshot() == h
    {
      var g := Snapshot();
      forall y | 0 <= y < |h|
        ensures g[y] == h[y]
      {
      }
    }

    /** What every state of a session satisfies. */
    ghost predicate Consistent()
      reads this, board
    {
      && board.Length0 == Rows && board.Length1 == Cols
      && Binary(Snapshot())
      && currentMino.Valid() && nextMino.Valid() && currentMino != nextMino
      && currentMino.b != nextMino.b && currentMino.b != nextMino.tempB
      && currentMino.tempB != nextMino.b && currentMino.tempB != nextMino.tempB
      && score >= 0
    }

    /**
     * Between two calls: a consistent state, orientations in range, a next
     * piece not yet turned, and, unless lockMino threw, the candidate blocks
     * equal to the committed ones.
     */
    ghost predicate Valid()
      reads this, board, currentMino, nextMino, currentMino.b, currentMino.tempB
    {
      && Consistent()
      && IsDirection(currentMino.direction) && nextMino.direction == 1
      && (!crashed ==> currentMino.tempB[..] == currentMino.b[..])
    }

    /** The session still accepts calls. */
    predicate Live()
      reads this
    {
      !gameOver && !crashed
    }

    /**
     * `new PlayManager()`: an empty board, the first piece laid out at the
     * spawn point (without a game-over check), a second piece waiting.
     */
    constructor (first: Kind, second: Kind)
      ensures Valid() && Live() && score == 0
      ensures Snapshot() == EmptyGrid()
      ensures currentMino.kind == first && currentMino.direction == 1
      ensures currentMino.b[..] == SpawnCells(first)
      ensures nextMino.kind == second && nextMino.direction == 1
      ensures fresh(board) && fresh(currentMino) && fresh(currentMino.b) && fresh(currentMino.tempB)
      ensures fresh(nextMino) && fresh(nextMino.b) && fresh(nextMino.tempB)
    {
      board := new int[Rows, Cols]((_, _) => 0);
      var current := new Mino(first);
      current.SetXY(SpawnAnchor.x, SpawnAnchor.y);
      currentMino := current;
      nextMino := new Mino(second);
      score := 0;
      gameOver, crashed := false, false;
      new;
      SnapshotIs(EmptyGrid());
    }

    /** `checkValidMove`: is the candidate a valid placement on the board? */
    method CheckValidMove() returns (ok: bool)
      requires Consistent()
      ensures ok == Fits(Snapshot(), currentMino.tempB[..])
    {
      var blocks := currentMino.tempB;
      var i := 0;
      while i < 4
        invariant 0 <= i <= 4
        invariant forall j :: 0 <= j < i ==> Free(Snapshot(), blocks[j])
      {
        var c := blocks[i];
        if c.x < 0 || c.x >= Cols || c.y >= Rows || (c.y >= 0 && board[c.y, c.x] == 1) {
          assert !Free(Snapshot(), blocks[..][i]);
          return false;
        }
        i := i + 1;
      }
      return true;
    }

    /**
     * `lockMino`: write 1 at each committed block on the board, skipping
     * blocks above it. A block on or below the floor or beside the walls
     * makes `board[y][x]` throw; the blocks before it are already written.
     */
    method LockMino()
      requires Consistent() && !crashed
      modifies board, this`crashed
      ensures Consistent()
      ensures crashed == (LockCount(currentMino.b[..]) < 4)
      ensures Snapshot() == Lock(old(Snapshot()), currentMino.b[..][..LockCount(currentMino.b[..])])
    {
      ghost var g := Snapshot();
      var blocks := currentMino.b;
      ghost var n := LockCount(blocks[..]);
      var i := 0;
      while i < 4
        invariant 0 <= i <= n
        invariant !crashed
        invariant forall y, x :: 0 <= y < Rows && 0 <= x < Cols ==>
          board[y, x] == if Cell(x, y) in blocks[..i] then 1 else g[y][x]
      {
        var c := blocks[i];
        if c.y >= 0 {
          if c.y >= Rows || c.x < 0 || c.x >= Cols {
            crashed := true;
            break;
          }
          board[c.y, c.x] := 1;
        }
        assert blocks[..i + 1] == blocks[..i] + [c];
        i := i + 1;
      }
      assert i == n;
      forall y, x | 0 <= y < Rows && 0 <= x < Cols
        ensures Lock(g, blocks[..n])[y][x] == board[y, x]
      {
        LockAt(g, blocks[..n], y, x);
      }
      SnapshotIs(Lock(g, blocks[..n]));
      LockKeepsBinary(g, blocks[..n]);
    }

    /**
     * `clearLine(line)`: every row above `line` moves down one, overwriting
     * `line`, and row 0 becomes a new empty row. Rows below `line` are not
     * touched.
     */
    method ClearLine(line: int)
      requires board.Length0 == Rows && board.Length1 == Cols
      requires 0 <= line < Rows
      modifies board
      ensures Snapshot() == [EmptyRow()] + old(Snapshot())[..line] + old(Snapshot())[line + 1..]
      ensures Snapshot()[line + 1..] == old(Snapshot())[line + 1..]
    {
      ghost var g := Snapshot();
      var y := line;
      while y > 0
        invariant 0 <= y <= line
        invariant forall r, x :: 0 <= r <= y && 0 <= x < Cols ==> board[r, x] == g[r][x]
        invariant forall r, x :: y < r <= line && 0 <= x < Cols ==> board[r, x] == g[r - 1][x]
        invariant forall r, x :: line < r < Rows && 0 <= x < Cols ==> board[r, x] == g[r][x]
      {
        CopyRowDown(y);
        y := y - 1;
      }
      // board[0] = new int[cols]
      for x := 0 to Cols
        invariant forall c :: 0 <= c < x ==> board[0, c] == 0
        invariant forall c :: x <= c < Cols ==> board[0, c] == g[0][c]
        invariant forall r, c :: 0 < r <= line && 0 <= c < Cols ==> board[r, c] == g[r - 1][c]
        invariant forall r, c :: line < r < Rows && 0 <= c < Cols ==> board[r, c] == g[r][c]
      {
        board[0, x] := 0;
      }
      var h := [EmptyRow()] + g[..line] + g[line + 1..];
      forall r, x | 0 <= r < Rows && 0 <= x < Cols
        ensures h[r][x] == board[r, x]
      {
        if r == 0 {
        } else if r <= line {
          assert h[r] == g[r - 1];
        } else {
          assert h[r] == g[r];
        }
      }
      SnapshotIs(h);
    }

    /** `System.arraycopy(board[y - 1], 0, board[y], 0, cols)`: row `y` becomes a copy of row `y - 1`. */
    method CopyRowDown(y: int)
      requires board.Length0 == Rows && board.Length1 == Cols && 0 < y < Rows
      modifies board
      ensures forall c :: 0 <= c < Cols ==> board[y, c] == old(board[y - 1, c])
      ensures forall r, c :: 0 <= r < Rows && r != y && 0 <= c < Cols ==> board[r, c] == old(board[r, c])
    {
      for x := 0 to Cols
        invariant forall c :: 0 <= c < x ==> board[y, c] == old(board[y - 1, c])
        invariant forall r, c :: 0 <= r < Rows && 0 <= c < Cols && (r != y || x <= c) ==>
          board[r, c] == old(board[r, c])
      {
        board[y, x] := board[y - 1, x];
      }
    }

    /**
     * `clearLines`: scan the rows top to bottom and clear each full one,
     * adding 100 per row. The board ends as `Cleared` of the board before
     * the call, which judges every row against that earlier board.
     */
    method ClearLines()
      requires Consistent()
      modifies board, this`score
      ensures Consistent()
      ensures Snapshot() == Cleared(old(Snapshot()))
      ensures score == old(score) + 100 * FullCount(old(Snapshot()))
    {
      ghost var g := Snapshot();
      for y := 0 to Rows
        invariant Snapshot() == Cleared(g[..y]) + g[y..]
        invariant score == old(score) + 100 * FullCount(g[..y])
      {
        ClearIfFull(g, y);
      }
      assert g[..Rows] == g;
      ClearedKeepsBinary(g);
    }

    /**
     * One pass of the loop of clearLines: clear row `y` if it is full and
     * score it. The rows above `y` are already cleared; row `y` and those
     * below it are still those of the board `g` the loop started from.
     */
    method ClearIfFull(ghost g: Grid, y: int)
      requires board.Length0 == Rows && board.Length1 == Cols
      requires WellFormed(g) && 0 <= y < Rows
      requires Snapshot() == Cleared(g[..y]) + g[y..]
      modifies board, this`score
      ensures Snapshot() == Cleared(g[..y + 1]) + g[y + 1..]
      ensures score == old(score) + if FullRow(g[y]) then 100 else 0
      ensures FullCount(g[..y + 1]) == FullCount(g[..y]) + if FullRow(g[y]) then 1 else 0
    {
      ghost var s := Snapshot();
      var full := RowIsFull(y);
      assert s[y] == g[y];
      if full {
        ClearLine(y);
        score := score + 100;
      }
      ClearLinesStep(g, y, s, Snapshot());
    }

    /** The scan of clearLines over one row: does no cell of row `y` hold 0? */
    method RowIsFull(y: int) returns (full: bool)
      requires board.Length0 == Rows && board.Length1 == Cols && 0 <= y < Rows
      ensures full == FullRow(Snapshot()[y])
    {
      full := true;
      for x := 0 to Cols
        invariant full <==> forall c :: 0 <= c < x ==> board[y, c] != 0
      {
        if board[y, x] == 0 {
          full := false;
          break;
        }
      }
    }

    /**
     * `spawnNewMino`: the next piece becomes the current one, laid out in
     * orientation 1 at the spawn point; a new piece of kind `k` waits next.
     * The game ends iff the spawned piece does not fit.
     */
    method SpawnNewMino(k: Kind)
      requires Consistent() && nextMino.direction == 1 && !crashed && !gameOver
      modifies this`currentMino, this`nextMino, this`gameOver, nextMino.b, nextMino.tempB
      ensures Valid()
      ensures currentMino == old(nextMino) && currentMino.direction == 1
      ensures currentMino.b[..] == SpawnCells(currentMino.kind)
      ensures fresh(nextMino) && fresh(nextMino.b) && fresh(nextMino.tempB) && nextMino.kind == k
      ensures gameOver <==> !Fits(Snapshot(), SpawnCells(currentMino.kind))
    {
      currentMino := nextMino;
      nextMino := new Mino(k);
      currentMino.SetXY(SpawnAnchor.x, SpawnAnchor.y);
      var ok := CheckValidMove();
      if !ok {
        gameOver := true;
      }
    }

    /**
     * `moveMino(dx, dy)`: try the committed blocks moved by `(dx, dy)`.
     * A valid move is committed. A blocked downward move locks the piece
     * where it was, clears lines and spawns `next`; any other blocked move
     * changes nothing.
     */
    method MoveMino(dx: int, dy: int, next: Kind)
      requires Valid() && Live()
      modifies this, board, currentMino.b, currentMino.tempB, nextMino.b, nextMino.tempB
      ensures Valid()
      ensures var cand := Shift(old(currentMino.b[..]), Cell(dx, dy));
        Fits(old(Snapshot()), cand) ==>
          && Live() && currentMino == old(currentMino) && nextMino == old(nextMino)
          && currentMino.b[..] == cand
          && nextMino.b[..] == old(nextMino.b[..]) && nextMino.tempB[..] == old(nextMino.tempB[..])
          && Snapshot() == old(Snapshot()) && score == old(score)
      ensures var cand := Shift(old(currentMino.b[..]), Cell(dx, dy));
        !Fits(old(Snapshot()), cand) && dy <= 0 ==>
          && Live() && currentMino == old(currentMino) && nextMino == old(nextMino)
          && currentMino.b[..] == old(currentMino.b[..])
          && nextMino.b[..] == old(nextMino.b[..]) && nextMino.tempB[..] == old(nextMino.tempB[..])
          && Snapshot() == old(Snapshot()) && score == old(score)
      ensures var cand := Shift(old(currentMino.b[..]), Cell(dx, dy));
        var cells := old(currentMino.b[..]);
        !Fits(old(Snapshot()), cand) && dy > 0 && LockCount(cells) < 4 ==>
          && crashed && !gameOver && currentMino == old(currentMino) && nextMino == old(nextMino)
          && currentMino.b[..] == cells
          && nextMino.b[..] == old(nextMino.b[..]) && nextMino.tempB[..] == old(nextMino.tempB[..])
          && Snapshot() == Lock(old(Snapshot()), cells[..LockCount(cells)])
          && score == old(score)
      ensures var cand := Shift(old(currentMino.b[..]), Cell(dx, dy));
        var cells := old(currentMino.b[..]);
        !Fits(old(Snapshot()), cand) && dy > 0 && LockCount(cells) == 4 ==>
          && !crashed
          && Snapshot() == Cleared(Lock(old(Snapshot()), cells))
          && score == old(score) + 100 * FullCount(Lock(old(Snapshot()), cells))
          && currentMino == old(nextMino) && currentMino.direction == 1
          && currentMino.b[..] == SpawnCells(currentMino.kind)
          && fresh(nextMino) && fresh(nextMino.b) && fresh(nextMino.tempB) && nextMino.kind == next
          && (gameOver <==> !Fits(Snapshot(), SpawnCells(currentMino.kind)))
    {
      ghost var cells := currentMino.b[..];
      ghost var g := Snapshot();
      currentMino.ShiftCandidate(Cell(dx, dy));
      var ok := CheckValidMove();
      if ok {
        currentMino.Update();
      } else if dy > 0 {
        Settle(next);
      } else if dx != 0 || dy != 0 {
        currentMino.ShiftCandidate(Cell(-dx, -dy));
        ShiftUndo(cells, Cell(dx, dy));
      } else {
        assert currentMino.tempB[..] == Shift(cells, Cell(0, 0));
      }
    }

    /**
     * The blocked downward move of moveMino: lockMino, then, unless it threw,
     * clearLines and spawnNewMino.
     */
    method Settle(next: Kind)
      requires Consistent() && IsDirection(currentMino.direction) && nextMino.direction == 1
      requires Live()
      modifies board, this`crashed, this`score, this`currentMino, this`nextMino, this`gameOver
      modifies nextMino.b, nextMino.tempB
      ensures Valid()
      ensures var cells := old(currentMino.b[..]);
        LockCount(cells) < 4 ==>
          && crashed && !gameOver && currentMino == old(currentMino) && nextMino == old(nextMino)
          && currentMino.b[..] == cells
          && nextMino.b[..] == old(nextMino.b[..]) && nextMino.tempB[..] == old(nextMino.tempB[..])
          && Snapshot() == Lock(old(Snapshot()), cells[..LockCount(cells)])
          && score == old(score)
      ensures var cells := old(currentMino.b[..]);
        LockCount(cells) == 4 ==>
          && !crashed
          && Snapshot() == Cleared(Lock(old(Snapshot()), cells))
          && score == old(score) + 100 * FullCount(Lock(old(Snapshot()), cells))
          && currentMino == old(nextMino) && currentMino.direction == 1
          && currentMino.b[..] == SpawnCells(currentMino.kind)
          && fresh(nextMino) && fresh(nextMino.b) && fresh(nextMino.tempB) && nextMino.kind == next
          && (gameOver <==> !Fits(Snapshot(), SpawnCells(currentMino.kind)))
    {
      ghost var cells := currentMino.b[..];
      LockMino();
      if !crashed {
        assert cells[..4] == cells;
        ClearLines();
        SpawnNewMino(next);
      }
    }

    /**
     * `rotateMino`: O pieces do not turn. Any other piece records its next
     * orientation and takes the turned layout around `b[0]`, moved by the
     * first wall kick that fits; if none fits it still takes the turned
     * layout, unkicked, whether or not that placement is valid.
     */
    method RotateMino()
      requires Valid() && Live()
      modifies currentMino, currentMino.b, currentMino.tempB
      ensures Valid()
      ensures old(currentMino.kind) == O ==>
        currentMino.direction == old(currentMino.direction) && currentMino.b[..] == old(currentMino.b[..])
      ensures old(currentMino.kind) != O ==>
        && currentMino.direction == NextDirection(old(currentMino.direction))
        && currentMino.b[..] == RotationTarget(Snapshot(), currentMino.kind, old(currentMino.direction), old(currentMino.b[0]))
    {
      var mino := currentMino;
      if mino.kind != O {
        ghost var g := Snapshot();
        ghost var anchor := mino.b[0];
        var newDirection := (mino.direction % 4) + 1;
        mino.SyncCandidate();
        mino.UpdateXY(newDirection);
        ghost var cand := Turned(mino.kind, old(mino.direction), anchor);
        assert mino.tempB[..] == cand;
        var ok := CheckValidMove();
        if ok {
          mino.direction := newDirection;
          mino.Update();
        } else {
          KickTurned(cand, newDirection);
        }
      }
    }

    /**
     * The wall-kick loop of rotateMino and the "restore" after it: try the
     * kicks in table order on the turned candidate and commit the first one
     * that fits; if none fits, commit the unkicked candidate.
     */
    method KickTurned(ghost cand: seq<Cell>, newDirection: int)
      requires Consistent() && currentMino.tempB[..] == cand && currentMino.direction == newDirection
      modifies currentMino, currentMino.b, currentMino.tempB
      ensures currentMino.direction == newDirection
      ensures currentMino.tempB[..] == currentMino.b[..]
      ensures currentMino.b[..] == match FirstKick(Snapshot(), cand, 0)
        case Some(j) => Shift(cand, WallKicks[j])
        case None => cand
    {
      var mino := currentMino;
      ghost var g := Snapshot();
      var kicked := false;
      var i := 0;
      while i < |WallKicks|
        invariant 0 <= i <= |WallKicks|
        invariant !kicked && mino.tempB[..] == cand && mino.direction == newDirection
        invariant FirstKick(g, cand, i) == FirstKick(g, cand, 0)
      {
        var offset := WallKicks[i];
        mino.ShiftCandidate(offset);
        var ok := CheckValidMove();
        if ok {
          mino.direction := newDirection;
          mino.Update();
          kicked := true;
          break;
        } else {
          mino.ShiftCandidate(Neg(offset));
          ShiftUndo(cand, offset);
        }
        i := i + 1;
      }
      if !kicked {
        // the "restore" copies the candidate into the committed blocks
        mino.Update();
      }
    }
  }
}
