/**
 * Falling pieces: blocks, the five-shape catalog, translation and the
 * 90-degree rotation about a pivot block. Colour is cosmetic and is not
 * modelled.
 */
module Pieces {

  /** One cell of a piece, as a (column, row) grid coordinate; rows grow downwards. */
  datatype Block = Block(x: int, y: int)

  /**
   * A piece: its ordered blocks and the index of the pivot block, or
   * NO_PIVOT when the shape never rotates.
   */
  datatype Tetromino = Tetromino(blocks: seq<Block>, pivotIndex: int)

  const NO_PIVOT: int := -1

  /** Number of shapes in the catalog; the shape is chosen by `rand() % SHAPES`. */
  const SHAPES: nat := 5

  /** The shape index `rand() % 5`: every random draw selects exactly one catalog entry. */
  function ShapeOf(draw: nat): (kind: nat)
    ensures kind < SHAPES
    ensures draw < SHAPES ==> kind == draw
  {
    draw % SHAPES
  }

  /** A piece has blocks, and its pivot is either disabled or one of its blocks. */
  predicate WellFormed(t: Tetromino) {
    |t.blocks| > 0 && (t.pivotIndex == NO_PIVOT || 0 <= t.pivotIndex < |t.blocks|)
  }

  /**
   * The piece factory: shape `kind` of the catalog at its spawn position.
   * 0 line, 1 square, 2 T, 3 L, 4 reverse L.
   */
  function CreateTetromino(kind: nat): (t: Tetromino)
    requires kind < SHAPES
    ensures WellFormed(t) && |t.blocks| == 4
    ensures t.pivotIndex == (if kind == 1 then NO_PIVOT else 1)
    ensures forall i, j :: 0 <= i < j < |t.blocks| ==> t.blocks[i] != t.blocks[j]
    ensures forall i :: 0 <= i < |t.blocks| ==> 4 <= t.blocks[i].x <= 7 && 0 <= t.blocks[i].y <= 1
    ensures t.blocks[0] == Block(4, 0) && t.blocks[1] == Block(5, 0)
  {
    match kind
    case 0 => Tetromino([Block(4, 0), Block(5, 0), Block(6, 0), Block(7, 0)], 1)
    case 1 => Tetromino([Block(4, 0), Block(5, 0), Block(4, 1), Block(5, 1)], NO_PIVOT)
    case 2 => Tetromino([Block(4, 0), Block(5, 0), Block(6, 0), Block(5, 1)], 1)
    case 3 => Tetromino([Block(4, 0), Block(5, 0), Block(6, 0), Block(4, 1)], 1)
    case 4 => Tetromino([Block(4, 0), Block(5, 0), Block(6, 0), Block(6, 1)], 1)
  }

  /** The piece with every block moved by (dx, dy); pivot index unchanged. */
  function Translate(t: Tetromino, dx: int, dy: int): (r: Tetromino)
    ensures |r.blocks| == |t.blocks| && r.pivotIndex == t.pivotIndex
    ensures dx == 0 && dy == 0 ==> r == t
  {
    Tetromino(seq(|t.blocks|, i requires 0 <= i < |t.blocks| =>
                    Block(t.blocks[i].x + dx, t.blocks[i].y + dy)),
              t.pivotIndex)
  }

  /** Block `b` turned by 90 degrees about `p`: offset (u, v) becomes (-v, u). */
  function RotateAbout(b: Block, p: Block): (r: Block)
    ensures r == p <==> b == p
  {
    Block(p.x - (b.y - p.y), p.y + (b.x - p.x))
  }

  /** The piece turned by 90 degrees about its pivot block; unchanged without a pivot. */
  function Rotated(t: Tetromino): (r: Tetromino)
    requires WellFormed(t)
    ensures WellFormed(r) && |r.blocks| == |t.blocks| && r.pivotIndex == t.pivotIndex
    ensures t.pivotIndex != NO_PIVOT ==> r.blocks[t.pivotIndex] == t.blocks[t.pivotIndex]
  {
    if t.pivotIndex == NO_PIVOT then t
    else
      var p := t.blocks[t.pivotIndex];
      Tetromino(seq(|t.blocks|, i requires 0 <= i < |t.blocks| => RotateAbout(t.blocks[i], p)),
                t.pivotIndex)
  }

  /**
   * The per-block loop `block.x += dx; block.y += dy` over a copy of the
   * piece, as every move in the game performs it.
   */
  method ShiftBlocks(t: Tetromino, dx: int, dy: int) returns (r: Tetromino)
    ensures r == Translate(t, dx, dy)
  {
    var blocks := t.blocks;
    var i := 0;
    while i < |blocks|
      invariant 0 <= i <= |blocks| == |t.blocks|
      invariant forall j :: 0 <= j < i ==> blocks[j] == Block(t.blocks[j].x + dx, t.blocks[j].y + dy)
      invariant forall j :: i <= j < |blocks| ==> blocks[j] == t.blocks[j]
    {
      var b := blocks[i];
      blocks := blocks[i := Block(b.x + dx, b.y + dy)];
      i := i + 1;
    }
    r := Tetromino(blocks, t.pivotIndex);
  }

  /** Translation keeps the piece well formed, its block count and its pivot index. */
  lemma TranslateWellFormed(t: Tetromino, dx: int, dy: int)
    requires WellFormed(t)
    ensures WellFormed(Translate(t, dx, dy))
    ensures |Translate(t, dx, dy).blocks| == |t.blocks|
    ensures Translate(t, dx, dy).pivotIndex == t.pivotIndex
  {
  }

  /** Two translations add up: moving by (a, b) then (c, d) is moving by (a + c, b + d). */
  lemma TranslateCompose(t: Tetromino, a: int, b: int, c: int, d: int)
    ensures Translate(Translate(t, a, b), c, d) == Translate(t, a + c, b + d)
  {
    var lhs := Translate(Translate(t, a, b), c, d);
    var rhs := Translate(t, a + c, b + d);
    assert |lhs.blocks| == |rhs.blocks|;
    forall i | 0 <= i < |lhs.blocks|
      ensures lhs.blocks[i] == rhs.blocks[i]
    {
    }
    assert lhs.blocks == rhs.blocks;
  }

  /** Moving by (dx, dy) and back by (-dx, -dy) restores the piece. */
  lemma TranslateInverse(t: Tetromino, dx: int, dy: int)
    ensures Translate(Translate(t, dx, dy), -dx, -dy) == t
  {
    TranslateCompose(t, dx, dy, -dx, -dy);
    var z := Translate(t, 0, 0);
    assert |z.blocks| == |t.blocks|;
    forall i | 0 <= i < |t.blocks|
      ensures z.blocks[i] == t.blocks[i]
    {
    }
    assert z.blocks == t.blocks;
  }

  /** Four quarter turns about a fixed point give back the block. */
  lemma RotateAboutFourTimes(b: Block, p: Block)
    ensures RotateAbout(RotateAbout(RotateAbout(RotateAbout(b, p), p), p), p) == b
  {
  }

  /**
   * Rotating a piece four times gives back the original piece: the pivot
   * block stays where it is, so every turn is about the same point.
   */
  lemma RotateFourTimes(t: Tetromino)
    requires WellFormed(t)
    ensures Rotated(Rotated(Rotated(Rotated(t)))) == t
  {
    if t.pivotIndex != NO_PIVOT {
      var k := t.pivotIndex;
      var p := t.blocks[k];
      var r1 := Rotated(t);
      var r2 := Rotated(r1);
      var r3 := Rotated(r2);
      var r4 := Rotated(r3);
      assert r1.blocks[k] == p && r2.blocks[k] == p && r3.blocks[k] == p;
      forall i | 0 <= i < |t.blocks|
        ensures r4.blocks[i] == t.blocks[i]
      {
        assert r1.blocks[i] == RotateAbout(t.blocks[i], p);
        assert r2.blocks[i] == RotateAbout(r1.blocks[i], p);
        assert r3.blocks[i] == RotateAbout(r2.blocks[i], p);
        assert r4.blocks[i] == RotateAbout(r3.blocks[i], p);
        RotateAboutFourTimes(t.blocks[i], p);
      }
      assert r4.blocks == t.blocks;
    }
  }

  /** Rotation keeps the blocks pairwise distinct: a quarter turn is one-to-one. */
  lemma RotatedDistinct(t: Tetromino)
    requires WellFormed(t)
    requires forall i, j :: 0 <= i < j < |t.blocks| ==> t.blocks[i] != t.blocks[j]
    ensures forall i, j :: 0 <= i < j < |t.blocks| ==> Rotated(t).blocks[i] != Rotated(t).blocks[j]
  {
    var r := Rotated(t);
    forall i, j | 0 <= i < j < |t.blocks|
      ensures r.blocks[i] != r.blocks[j]
    {
      if t.pivotIndex != NO_PIVOT {
        var p := t.blocks[t.pivotIndex];
        RotateAboutFourTimes(t.blocks[i], p);
        RotateAboutFourTimes(t.blocks[j], p);
        if r.blocks[i] == r.blocks[j] {
          assert false;
        }
      }
    }
  }

  /**
   * The line piece turned about its second block stands vertically in
   * column 5, from row -1 to row 2.
   */
  lemma RotateLineExample()
    ensures Rotated(CreateTetromino(0)).blocks == [Block(5, -1), Block(5, 0), Block(5, 1), Block(5, 2)]
  {
  }

  /** The square never turns. */
  lemma SquareNeverRotates()
    ensures Rotated(CreateTetromino(1)) == CreateTetromino(1)
  {
  }
}
