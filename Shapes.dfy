/**
 * The tetromino shape table: the seven `Mino_*` subclasses of Tetris.java,
 * reduced to data. Every coordinate is in board cells (column, row); the
 * source works in pixels that are always whole multiples of CELL_SIZE = 30,
 * so one cell here is 30 pixels there. Rows grow downward.
 */
module Shapes {

  /** The seven piece kinds; `L` is the source's `Mino_L1`. */
  datatype Kind = I | J | L | O | S | T | Z

  /** A block position, or an offset between two of them. */
  datatype Cell = Cell(x: int, y: int)

  function Plus(a: Cell, d: Cell): Cell { Cell(a.x + d.x, a.y + d.y) }

  function Neg(d: Cell): Cell { Cell(-d.x, -d.y) }

  /** Every block of `cells` moved by `d`. */
  function Shift(cells: seq<Cell>, d: Cell): (r: seq<Cell>)
    ensures |r| == |cells|
    ensures forall i :: 0 <= i < |r| ==> r[i] == Plus(cells[i], d)
  {
    seq(|cells|, i requires 0 <= i < |cells| => Plus(cells[i], d))
  }

  predicate AllDistinct(cells: seq<Cell>)
  {
    forall i, j :: 0 <= i < j < |cells| ==> cells[i] != cells[j]
  }

  /** The orientations a piece can be in. */
  predicate IsDirection(d: int) { 1 <= d <= 4 }

  /**
   * `(direction % 4) + 1` of rotateMino. A direction is never negative, so
   * Dafny's `%` and Java's agree on every value it can take.
   */
  function NextDirection(d: nat): (r: int)
    ensures IsDirection(r)
    ensures IsDirection(d) ==> r == if d == 4 then 1 else d + 1
  {
    (d % 4) + 1
  }

  /**
   * The offsets from the anchor `b[0]` at which `setXY` places `b[0..3]`
   * (orientation 1; for O its only layout).
   */
  function SetXYOffsets(k: Kind): (r: seq<Cell>)
    ensures |r| == 4 && r[0] == Cell(0, 0) && AllDistinct(r)
  {
    match k
    case L => [Cell(0, 0), Cell(0, -1), Cell(0, 1), Cell(1, 1)]
    case I => [Cell(0, 0), Cell(0, -1), Cell(0, 1), Cell(0, 2)]
    case O => [Cell(0, 0), Cell(1, 0), Cell(0, 1), Cell(1, 1)]
    case T => [Cell(0, 0), Cell(-1, 0), Cell(1, 0), Cell(0, 1)]
    case S => [Cell(0, 0), Cell(1, 0), Cell(0, 1), Cell(-1, 1)]
    case Z => [Cell(0, 0), Cell(-1, 0), Cell(0, 1), Cell(1, 1)]
    case J => [Cell(0, 0), Cell(0, -1), Cell(0, 1), Cell(-1, 1)]
  }

  /**
   * The offsets from `b[0]` that `updateXY(d)` writes into `tempB[1..3]`,
   * preceded by the zero offset of `b[0]` itself, which `updateXY` never
   * moves. `Mino_O.updateXY` writes nothing, hence `k != O`.
   */
  function UpdateXYOffsets(k: Kind, d: int): (r: seq<Cell>)
    requires k != O && IsDirection(d)
    ensures |r| == 4 && r[0] == Cell(0, 0) && AllDistinct(r)
  {
    match k
    case L =>
      if d == 1 then [Cell(0, 0), Cell(0, -1), Cell(0, 1), Cell(1, 1)]
      else if d == 2 then [Cell(0, 0), Cell(1, 0), Cell(-1, 0), Cell(-1, 1)]
      else if d == 3 then [Cell(0, 0), Cell(0, 1), Cell(0, -1), Cell(-1, -1)]
      else [Cell(0, 0), Cell(-1, 0), Cell(1, 0), Cell(1, -1)]
    case I =>
      if d == 1 || d == 3 then [Cell(0, 0), Cell(0, -1), Cell(0, 1), Cell(0, 2)]
      else [Cell(0, 0), Cell(-1, 0), Cell(1, 0), Cell(2, 0)]
    case T =>
      if d == 1 then [Cell(0, 0), Cell(-1, 0), Cell(1, 0), Cell(0, 1)]
      else if d == 2 then [Cell(0, 0), Cell(0, -1), Cell(0, 1), Cell(-1, 0)]
      else if d == 3 then [Cell(0, 0), Cell(1, 0), Cell(-1, 0), Cell(0, -1)]
      else [Cell(0, 0), Cell(0, 1), Cell(0, -1), Cell(1, 0)]
    case S =>
      if d == 1 || d == 3 then [Cell(0, 0), Cell(1, 0), Cell(0, 1), Cell(-1, 1)]
      else [Cell(0, 0), Cell(0, -1), Cell(1, 0), Cell(1, 1)]
    case Z =>
      if d == 1 || d == 3 then [Cell(0, 0), Cell(-1, 0), Cell(0, 1), Cell(1, 1)]
      else [Cell(0, 0), Cell(0, -1), Cell(-1, 0), Cell(-1, 1)]
    case J =>
      if d == 1 then [Cell(0, 0), Cell(0, -1), Cell(0, 1), Cell(-1, 1)]
      else if d == 2 then [Cell(0, 0), Cell(1, 0), Cell(-1, 0), Cell(-1, -1)]
      else if d == 3 then [Cell(0, 0), Cell(0, 1), Cell(0, -1), Cell(1, -1)]
      else [Cell(0, 0), Cell(-1, 0), Cell(1, 0), Cell(1, 1)]
  }

  /** A quarter turn clockwise on screen (rows grow downward) about the anchor. */
  function QuarterTurn(offsets: seq<Cell>): (r: seq<Cell>)
    ensures |r| == |offsets|
    ensures forall i :: 0 <= i < |r| ==> r[i] == Cell(-offsets[i].y, offsets[i].x)
  {
    seq(|offsets|, i requires 0 <= i < |offsets| => Cell(-offsets[i].y, offsets[i].x))
  }

  /** `setXY` lays a rotating piece out exactly as `updateXY(1)` would. */
  lemma SetXYIsOrientationOne(k: Kind)
    requires k != O
    ensures SetXYOffsets(k) == UpdateXYOffsets(k, 1)
  {
  }

  /** I, S and Z have only two distinct layouts: 1 = 3 and 2 = 4. */
  lemma TwoLayoutKinds(k: Kind, d: int)
    requires k == I || k == S || k == Z
    requires IsDirection(d)
    ensures UpdateXYOffsets(k, NextDirection(NextDirection(d))) == UpdateXYOffsets(k, d)
    ensures UpdateXYOffsets(k, NextDirection(d)) != UpdateXYOffsets(k, d)
  {
  }

  /**
   * For J, L and T each turn of rotateMino is a true quarter turn about
   * `b[0]`, block by block.
   */
  lemma QuarterTurnKinds(k: Kind, d: int)
    requires k == J || k == L || k == T
    requires IsDirection(d)
    ensures UpdateXYOffsets(k, NextDirection(d)) == QuarterTurn(UpdateXYOffsets(k, d))
  {
  }

  /** Four turns bring a piece back to where it started. */
  lemma FourTurnsIdentity(d: int)
    requires IsDirection(d)
    ensures NextDirection(NextDirection(NextDirection(NextDirection(d)))) == d
  {
  }

  /** Moving by `d` and then by `-d` is no move at all: the undo of moveMino. */
  lemma ShiftUndo(cells: seq<Cell>, d: Cell)
    ensures Shift(Shift(cells, d), Neg(d)) == cells
  {
  }

  /** Moving keeps the blocks of a piece apart. */
  lemma ShiftKeepsDistinct(cells: seq<Cell>, d: Cell)
    requires AllDistinct(cells)
    ensures AllDistinct(Shift(cells, d))
  {
  }
}
