/**
 * The rules of PlayManager in Tetris.java, stated on values: the board as a
 * sequence of rows, a piece as the sequence of its four block cells. The
 * class in Play.dfy is proved to change its state exactly as these
 * functions say.
 */
module Rules {
  import opened Shapes

  datatype Option<T> = None | Some(value: T)

  /** The board is `rows` x `cols` = 20 x 10 cells. */
  const Rows: int := 20
  const Cols: int := 10

  /** A piece spawns with `b[0]` at `(cols / 2, 0)`: column 5, row 0. */
  const SpawnAnchor: Cell := Cell(Cols / 2, 0)

  /**
   * `wallKickOffsets`, in the order rotateMino tries them. Rows grow downward,
   * so the last three lift the piece one row.
   */
  const WallKicks: seq<Cell> :=
    [Cell(0, 0), Cell(-1, 0), Cell(-2, 0), Cell(1, 0), Cell(0, -1), Cell(-1, -1), Cell(1, -1)]

  /** The board as rows of cells, 0 for empty and 1 for occupied. */
  type Grid = seq<seq<int>>

  predicate WellFormed(g: Grid)
  {
    |g| == Rows && forall y :: 0 <= y < |g| ==> |g[y]| == Cols
  }

  /** Every cell holds 0 or 1, the only values the game ever writes. */
  predicate Binary(g: Grid)
  {
    forall y, x :: 0 <= y < |g| && 0 <= x < |g[y]| ==> g[y][x] == 0 || g[y][x] == 1
  }

  function EmptyRow(): (r: seq<int>)
    ensures |r| == Cols && forall x :: 0 <= x < |r| ==> r[x] == 0
  {
    seq(Cols, _ => 0)
  }

  function EmptyGrid(): (g: Grid)
    ensures WellFormed(g) && Binary(g)
  {
    seq(Rows, _ => EmptyRow())
  }

  // ---------------------------------------------------------------------
  // Placement (checkValidMove)

  /**
   * One block may stand at `c`: inside the side walls, above the floor, and
   * either above the board or on a cell that does not hold 1.
   */
  predicate Free(g: Grid, c: Cell)
    requires WellFormed(g)
  {
    0 <= c.x < Cols && c.y < Rows && (c.y < 0 || g[c.y][c.x] != 1)
  }

  /** A placement is valid when every one of its blocks may stand where it is. */
  predicate Fits(g: Grid, cells: seq<Cell>)
    requires WellFormed(g)
  {
    forall i :: 0 <= i < |cells| ==> Free(g, cells[i])
  }

  /** A block beside the walls or below the floor makes any placement invalid. */
  lemma OutOfBoundsNeverFits(g: Grid, cells: seq<Cell>, i: int)
    requires WellFormed(g) && 0 <= i < |cells|
    requires cells[i].x < 0 || cells[i].x >= Cols || cells[i].y >= Rows
    ensures !Fits(g, cells)
  {
  }

  /** Blocks above the board are checked against the walls only. */
  lemma AboveBoardFits(g: Grid, cells: seq<Cell>)
    requires WellFormed(g)
    requires forall i :: 0 <= i < |cells| ==> cells[i].y < 0 && 0 <= cells[i].x < Cols
    ensures Fits(g, cells)
  {
  }

  // ---------------------------------------------------------------------
  // Locking (lockMino)

  /**
   * lockMino can handle a block at `c`: it skips rows above the board and
   * indexes `board[y][x]` for the others, which throws unless `(x, y)` is
   * on the board.
   */
  predicate Lockable(c: Cell)
  {
    c.y < 0 || (0 <= c.x < Cols && c.y < Rows)
  }

  /** How many blocks lockMino writes before it reaches one it cannot index. */
  function LockCount(cells: seq<Cell>): (n: nat)
    ensures n <= |cells|
    ensures forall i :: 0 <= i < n ==> Lockable(cells[i])
    ensures n < |cells| ==> !Lockable(cells[n])
  {
    if cells == [] || !Lockable(cells[0]) then 0 else 1 + LockCount(cells[1..])
  }

  function Mark(g: Grid, c: Cell): (r: Grid)
    requires WellFormed(g) && Lockable(c)
    ensures WellFormed(r)
  {
    if c.y < 0 then g else g[c.y := g[c.y][c.x := 1]]
  }

  /** The board after writing 1 at each block, in order, skipping rows above the board. */
  function Lock(g: Grid, cells: seq<Cell>): (r: Grid)
    requires WellFormed(g)
    requires forall i :: 0 <= i < |cells| ==> Lockable(cells[i])
    ensures WellFormed(r)
    decreases |cells|
  {
    if cells == [] then g else Mark(Lock(g, cells[..|cells| - 1]), cells[|cells| - 1])
  }

  /**
   * Locking writes 1 exactly at the cells of the piece that lie on the
   * board, and leaves every other cell as it was.
   */
  lemma {:induction false} LockAt(g: Grid, cells: seq<Cell>, y: int, x: int)
    requires WellFormed(g)
    requires forall i :: 0 <= i < |cells| ==> Lockable(cells[i])
    requires 0 <= y < Rows && 0 <= x < Cols
    ensures Lock(g, cells)[y][x] == if Cell(x, y) in cells then 1 else g[y][x]
    decreases |cells|
  {
    if cells != [] {
      var init := cells[..|cells| - 1];
      LockAt(g, init, y, x);
      assert cells == init + [cells[|cells| - 1]];
    }
  }

  /** A piece lying wholly above the board leaves the board unchanged. */
  lemma LockAboveBoard(g: Grid, cells: seq<Cell>)
    requires WellFormed(g)
    requires forall i :: 0 <= i < |cells| ==> cells[i].y < 0
    ensures Lock(g, cells) == g
  {
    var r := Lock(g, cells);
    forall y | 0 <= y < Rows
      ensures r[y] == g[y]
    {
      forall x | 0 <= x < Cols
        ensures r[y][x] == g[y][x]
      {
        LockAt(g, cells, y, x);
      }
    }
  }

  lemma LockKeepsBinary(g: Grid, cells: seq<Cell>)
    requires WellFormed(g) && Binary(g)
    requires forall i :: 0 <= i < |cells| ==> Lockable(cells[i])
    ensures Binary(Lock(g, cells))
  {
    var r := Lock(g, cells);
    forall y, x | 0 <= y < |r| && 0 <= x < |r[y]|
      ensures r[y][x] == 0 || r[y][x] == 1
    {
      LockAt(g, cells, y, x);
    }
  }

  /** A valid placement is always lockable in full: lockMino cannot throw on it. */
  lemma FitsIsLockable(g: Grid, cells: seq<Cell>)
    requires WellFormed(g) && Fits(g, cells)
    ensures LockCount(cells) == |cells|
  {
  }

  // ---------------------------------------------------------------------
  // Clearing lines (clearLines, clearLine)

  /** clearLines calls a row full when none of its cells holds 0. */
  predicate FullRow(row: seq<int>)
  {
    forall x :: 0 <= x < |row| ==> row[x] != 0
  }

  /** The number of full rows. */
  function FullCount(g: Grid): (n: nat)
    ensures n <= |g|
  {
    if g == [] then 0 else FullCount(g[..|g| - 1]) + (if FullRow(g[|g| - 1]) then 1 else 0)
  }

  /** The rows that are not full, in their original order. */
  function Kept(g: Grid): (r: Grid)
    ensures |r| + FullCount(g) == |g|
    ensures forall y :: 0 <= y < |r| ==> !FullRow(r[y]) && r[y] in g
  {
    if g == [] then []
    else Kept(g[..|g| - 1]) + (if FullRow(g[|g| - 1]) then [] else [g[|g| - 1]])
  }

  /**
   * The board after clearLines: one empty row on top for every full row,
   * then the rows that were not full, in order.
   */
  function Cleared(g: Grid): (r: Grid)
    ensures |r| == |g|
  {
    seq(FullCount(g), _ => EmptyRow()) + Kept(g)
  }

  /**
   * One step of clearLines: taking row `y` into account either puts an
   * empty row on top (row `y` was full) or keeps row `y` at the bottom.
   */
  lemma ClearedStep(g: Grid, y: int)
    requires 0 <= y < |g|
    ensures Cleared(g[..y + 1]) ==
      if FullRow(g[y]) then [EmptyRow()] + Cleared(g[..y]) else Cleared(g[..y]) + [g[y]]
  {
    var p := g[..y + 1];
    assert p[..|p| - 1] == g[..y];
    assert p[|p| - 1] == g[y];
  }

  /**
   * The loop of clearLines, one row at a time: when the rows above `y` are
   * already cleared and row `y` is still the original one, clearing row `y`
   * if it is full (clearLine) extends the cleared part by one row.
   */
  lemma ClearLinesStep(g: Grid, y: int, s: Grid, t: Grid)
    requires 0 <= y < |g|
    requires s == Cleared(g[..y]) + g[y..]
    requires t == if FullRow(g[y]) then [EmptyRow()] + s[..y] + s[y + 1..] else s
    ensures t == Cleared(g[..y + 1]) + g[y + 1..]
    ensures FullCount(g[..y + 1]) == FullCount(g[..y]) + if FullRow(g[y]) then 1 else 0
  {
    ClearedStep(g, y);
    assert g[..y + 1][..y] == g[..y];
    assert s[..y] == Cleared(g[..y]);
    assert s[y + 1..] == g[y + 1..];
    if !FullRow(g[y]) {
      assert g[y..] == [g[y]] + g[y + 1..];
    }
  }

  lemma ClearedKeepsBinary(g: Grid)
    requires Binary(g)
    ensures Binary(Cleared(g))
  {
    var r := Cleared(g);
    forall y, x | 0 <= y < |r| && 0 <= x < |r[y]|
      ensures r[y][x] == 0 || r[y][x] == 1
    {
      if y >= FullCount(g) {
        var k := Kept(g)[y - FullCount(g)];
        assert r[y] == k && k in g;
      }
    }
  }

  /** No full row is left after clearLines. */
  lemma ClearedHasNoFullRow(g: Grid)
    ensures forall y :: 0 <= y < |Cleared(g)| ==> !FullRow(Cleared(g)[y])
  {
    var r := Cleared(g);
    forall y | 0 <= y < |r|
      ensures !FullRow(r[y])
    {
      if y < FullCount(g) {
        assert r[y] == EmptyRow() && r[y][0] == 0;
      } else {
        assert r[y] == Kept(g)[y - FullCount(g)];
      }
    }
  }

  /** A board without full rows is left as it is. */
  lemma {:induction false} NoFullRowIsKept(g: Grid)
    requires forall y :: 0 <= y < |g| ==> !FullRow(g[y])
    ensures FullCount(g) == 0 && Kept(g) == g
  {
    if g != [] {
      var n := |g| - 1;
      var init := g[..n];
      forall y | 0 <= y < |init|
        ensures !FullRow(init[y])
      {
        assert init[y] == g[y];
      }
      NoFullRowIsKept(init);
      assert !FullRow(g[n]);
      assert FullCount(g) == FullCount(init);
      assert Kept(g) == init + [g[n]];
      assert init + [g[n]] == g;
    }
  }

  /** clearLines leaves a board without full rows as it is. */
  lemma NoFullRowIsCleared(g: Grid)
    requires forall y :: 0 <= y < |g| ==> !FullRow(g[y])
    ensures Cleared(g) == g
  {
    NoFullRowIsKept(g);
    assert seq(FullCount(g), _ => EmptyRow()) == [];
  }

  /** Clearing twice clears nothing more. */
  lemma ClearedIdempotent(g: Grid)
    ensures Cleared(Cleared(g)) == Cleared(g)
  {
    ClearedHasNoFullRow(g);
    NoFullRowIsCleared(Cleared(g));
  }

  /**
   * Rows below the lowest full row are not moved: if no row from `m` down
   * is full, clearing changes only the rows above `m`.
   */
  lemma {:induction false} ClearedKeepsBottom(g: Grid, m: int)
    requires 0 <= m <= |g|
    requires forall y :: m <= y < |g| ==> !FullRow(g[y])
    ensures Cleared(g) == Cleared(g[..m]) + g[m..]
    decreases |g| - m
  {
    if m < |g| {
      var n := |g| - 1;
      ClearedKeepsBottom(g[..n], m);
      ClearedStep(g, n);
      assert g[..n][..m] == g[..m];
      assert g[..n + 1] == g;
      assert g[..n][m..] + [g[n]] == g[m..];
    } else {
      assert g[..m] == g;
    }
  }

  // ---------------------------------------------------------------------
  // Rotation with wall kicks (rotateMino)

  /**
   * The first wall kick, from index `from` on, that moves `cand` to a valid
   * placement; later kicks are never looked at.
   */
  function FirstKick(g: Grid, cand: seq<Cell>, from: nat): (r: Option<nat>)
    requires WellFormed(g)
    ensures r.Some? ==> from <= r.value < |WallKicks| && Fits(g, Shift(cand, WallKicks[r.value]))
    ensures r.Some? ==> forall i :: from <= i < r.value ==> !Fits(g, Shift(cand, WallKicks[i]))
    ensures r.None? ==> forall i :: from <= i < |WallKicks| ==> !Fits(g, Shift(cand, WallKicks[i]))
    decreases |WallKicks| - from
  {
    if from >= |WallKicks| then None
    else if Fits(g, Shift(cand, WallKicks[from])) then Some(from)
    else FirstKick(g, cand, from + 1)
  }

  /**
   * The blocks `updateXY` proposes for the turn from orientation `d`:
   * the next layout of the piece around its current `b[0]`.
   */
  function Turned(k: Kind, d: int, anchor: Cell): (r: seq<Cell>)
    requires k != O && IsDirection(d)
    ensures |r| == 4 && r[0] == anchor
  {
    Shift(UpdateXYOffsets(k, NextDirection(d)), anchor)
  }

  /**
   * Where rotateMino leaves the blocks `b`: the turned piece if it fits,
   * else the turned piece moved by the first wall kick that fits, else the
   * turned piece where it is, valid or not.
   */
  function RotationTarget(g: Grid, k: Kind, d: int, anchor: Cell): (r: seq<Cell>)
    requires WellFormed(g) && k != O && IsDirection(d)
  {
    var cand := Turned(k, d, anchor);
    if Fits(g, cand) then cand
    else match FirstKick(g, cand, 0)
      case Some(j) => Shift(cand, WallKicks[j])
      case None => cand
  }

  /**
   * The outcome of a turn: the turned layout moved by some kick, and that
   * kick is the first one in table order that fits; when none fits the piece
   * stays turned and unkicked, in a placement that is not valid.
   */
  lemma RotationIsFirstFittingKick(g: Grid, k: Kind, d: int, anchor: Cell)
    requires WellFormed(g) && k != O && IsDirection(d)
    ensures var cand := Turned(k, d, anchor);
      (forall i :: 0 <= i < |WallKicks| ==> !Fits(g, Shift(cand, WallKicks[i]))) ==>
        RotationTarget(g, k, d, anchor) == cand && !Fits(g, RotationTarget(g, k, d, anchor))
    ensures var cand := Turned(k, d, anchor);
      forall j :: 0 <= j < |WallKicks| && Fits(g, Shift(cand, WallKicks[j])) &&
                  (forall i :: 0 <= i < j ==> !Fits(g, Shift(cand, WallKicks[i])))
        ==> RotationTarget(g, k, d, anchor) == Shift(cand, WallKicks[j])
  {
    var cand := Turned(k, d, anchor);
    assert WallKicks[0] == Cell(0, 0);
    assert Shift(cand, WallKicks[0]) == cand;
  }

  /**
   * The rotation succeeds (leaves a valid placement) iff some wall kick
   * makes the turned piece fit.
   */
  lemma RotationFitsIffSomeKickFits(g: Grid, k: Kind, d: int, anchor: Cell)
    requires WellFormed(g) && k != O && IsDirection(d)
    ensures Fits(g, RotationTarget(g, k, d, anchor)) <==>
      exists i :: 0 <= i < |WallKicks| && Fits(g, Shift(Turned(k, d, anchor), WallKicks[i]))
  {
    var cand := Turned(k, d, anchor);
    assert Shift(cand, WallKicks[0]) == cand;
  }

  /**
   * A rotation can leave the piece in an invalid placement. A vertical I
   * standing in an empty column 0 next to a filled block of columns 1..3 on
   * its top two rows fits; its turn and every kick of the turn overlap the
   * filled cells or the wall, so rotateMino commits the turned, overlapping
   * blocks.
   */
  lemma FailedRotationCommitsInvalidPlacement(g: Grid, r: int)
    requires WellFormed(g) && 1 <= r <= Rows - 3
    requires forall y :: r - 1 <= y <= r + 2 ==> g[y][0] == 0
    requires g[r - 1][1] == 1 && g[r - 1][2] == 1 && g[r - 1][3] == 1
    requires g[r][1] == 1 && g[r][2] == 1 && g[r][3] == 1
    ensures Fits(g, Shift(UpdateXYOffsets(I, 1), Cell(0, r)))
    ensures !Fits(g, RotationTarget(g, I, 1, Cell(0, r)))
  {
    UprightFits(g, r);
    TurnedUpright(r);
    NoKickFits(g, Turned(I, 1, Cell(0, r)), r);
    RotationIsFirstFittingKick(g, I, 1, Cell(0, r));
  }

  lemma UprightFits(g: Grid, r: int)
    requires WellFormed(g) && 1 <= r <= Rows - 3
    requires forall y :: r - 1 <= y <= r + 2 ==> g[y][0] == 0
    ensures Fits(g, Shift(UpdateXYOffsets(I, 1), Cell(0, r)))
  {
    var upright := Shift(UpdateXYOffsets(I, 1), Cell(0, r));
    assert upright[0] == Cell(0, r) && upright[1] == Cell(0, r - 1);
    assert upright[2] == Cell(0, r + 1) && upright[3] == Cell(0, r + 2);
  }

  lemma TurnedUpright(r: int)
    ensures Turned(I, 1, Cell(0, r))[1] == Cell(-1, r)
    ensures Turned(I, 1, Cell(0, r))[3] == Cell(2, r)
  {
  }

  lemma NoKickFits(g: Grid, cand: seq<Cell>, r: int)
    requires WellFormed(g) && |cand| == 4 && 1 <= r < Rows
    requires cand[1] == Cell(-1, r) && cand[3] == Cell(2, r)
    requires g[r - 1][1] == 1 && g[r - 1][2] == 1 && g[r - 1][3] == 1
    requires g[r][1] == 1 && g[r][2] == 1 && g[r][3] == 1
    ensures forall i :: 0 <= i < |WallKicks| ==> !Fits(g, Shift(cand, WallKicks[i]))
  {
    forall i | 0 <= i < |WallKicks|
      ensures !Fits(g, Shift(cand, WallKicks[i]))
    {
      var moved := Shift(cand, WallKicks[i]);
      var k := WallKicks[i];
      if i == 2 {
        assert moved[1] == Cell(-3, r);
      } else {
        assert moved[3] == Cell(2 + k.x, r + k.y);
        assert 1 <= 2 + k.x <= 3 && (k.y == 0 || k.y == -1);
        assert !Free(g, moved[3]);
      }
    }
  }

  // ---------------------------------------------------------------------
  // Spawning (setXY at the spawn anchor)

  /** The blocks of a freshly spawned piece of kind `k`. */
  function SpawnCells(k: Kind): (r: seq<Cell>)
    ensures |r| == 4 && r[0] == SpawnAnchor
  {
    Shift(SetXYOffsets(k), SpawnAnchor)
  }

  /** Every kind fits at the spawn point of an empty board: the first piece never ends the game. */
  lemma SpawnFitsEmptyBoard(k: Kind)
    ensures Fits(EmptyGrid(), SpawnCells(k))
  {
  }
}
