/**
 * The abstract class `Mino` of Tetris.java and the `setXY`/`updateXY`
 * overrides of its seven subclasses, as one class whose `kind` selects the
 * row of the shape table. A `Block` is a `Cell` value; its colour belongs to
 * drawing and is left out. `b` holds the committed blocks, `tempB` the
 * candidate blocks that PlayManager tests before committing them.
 */
module Pieces {
  import opened Shapes

  class Mino {
    /** Which `Mino_*` subclass this piece is. */
    const kind: Kind
    /** The committed blocks; `b[0]` is the anchor the other three hang on. */
    const b: array<Cell>
    /** The candidate blocks. */
    const tempB: array<Cell>
    /** The orientation, 1..4; a new piece starts in orientation 1. */
    var direction: int

    ghost predicate Valid()
    {
      b.Length == 4 && tempB.Length == 4 && b != tempB
    }

    /** `new Mino_*()`: `create` makes four blocks for each array, all at (0, 0). */
    constructor (k: Kind)
      ensures Valid() && kind == k && direction == 1
      ensures fresh(b) && fresh(tempB)
      ensures b[..] == tempB[..] == [Cell(0, 0), Cell(0, 0), Cell(0, 0), Cell(0, 0)]
    {
      kind := k;
      b := new Cell[4](_ => Cell(0, 0));
      tempB := new Cell[4](_ => Cell(0, 0));
      direction := 1;
    }

    /** `update`: commit the candidate, block by block. */
    method Update()
      requires Valid()
      modifies b
      ensures b[..] == tempB[..]
    {
      for i := 0 to 4
        invariant b[..i] == tempB[..i]
      {
        b[i] := tempB[i];
      }
    }

    /**
     * Copy the committed blocks into the candidate: the loop that ends every
     * `setXY` and the one at the start of rotateMino.
     */
    method SyncCandidate()
      requires Valid()
      modifies tempB
      ensures tempB[..] == b[..]
    {
      for i := 0 to 4
        invariant tempB[..i] == b[..i]
      {
        tempB[i] := b[i];
      }
    }

    /**
     * Move every candidate block by `d`: the loops of moveMino and of the
     * wall-kick search in rotateMino, and the loops that undo them.
     */
    method ShiftCandidate(d: Cell)
      requires Valid()
      modifies tempB
      ensures tempB[..] == Shift(old(tempB[..]), d)
    {
      for i := 0 to 4
        invariant tempB[..i] == Shift(old(tempB[..]), d)[..i]
        invariant tempB[i..] == old(tempB[..])[i..]
      {
        tempB[i] := Plus(tempB[i], d);
      }
    }

    /** `setXY(x, y)`: lay the piece out in orientation 1 with `b[0]` at `(x, y)`. */
    method SetXY(x: int, y: int)
      requires Valid()
      modifies b, tempB
      ensures b[..] == Shift(SetXYOffsets(kind), Cell(x, y))
      ensures tempB[..] == b[..]
    {
      var offsets := SetXYOffsets(kind);
      var anchor := Cell(x, y);
      b[0] := Plus(anchor, offsets[0]);
      b[1] := Plus(anchor, offsets[1]);
      b[2] := Plus(anchor, offsets[2]);
      b[3] := Plus(anchor, offsets[3]);
      SyncCandidate();
    }

    /**
     * `updateXY(d)`: record `d` as the orientation and write into
     * `tempB[1..3]` the layout of orientation `d` around the committed
     * `b[0]`. `tempB[0]` is not written. An orientation outside 1..4 matches
     * no case of the switch and writes nothing; `Mino_O` does nothing at all.
     */
    method UpdateXY(d: int)
      requires Valid()
      modifies this`direction, tempB
      ensures kind == O ==> direction == old(direction) && tempB[..] == old(tempB[..])
      ensures kind != O ==> direction == d
      ensures kind != O && IsDirection(d) ==>
        tempB[..] == [old(tempB[0])] + Shift(UpdateXYOffsets(kind, d), b[0])[1..]
      ensures kind != O && !IsDirection(d) ==> tempB[..] == old(tempB[..])
    {
      if kind != O {
        direction := d;
        if IsDirection(d) {
          var offsets := UpdateXYOffsets(kind, d);
          var anchor := b[0];
          tempB[1] := Plus(anchor, offsets[1]);
          tempB[2] := Plus(anchor, offsets[2]);
          tempB[3] := Plus(anchor, offsets[3]);
        }
      }
    }
  }
}
