/**
 * The occupancy grid and the collision oracle. The board is a
 * two-dimensional array indexed `board[y, x]` (row, then column), with
 * `Length0` rows and `Length1` columns; a cell holds 0 when it is free.
 * Each version of the game fixes these dimensions with its own constants
 * and requires its board to have them.
 */
module Playfield {
  import opened Pieces

  /** The board as a sequence of rows, read cell by cell. */
  ghost function Rows(board: array2<int>): (rows: seq<seq<int>>)
    reads board
    ensures |rows| == board.Length0
    ensures forall y :: 0 <= y < |rows| ==> |rows[y]| == board.Length1
    ensures forall y, x :: 0 <= y < board.Length0 && 0 <= x < board.Length1 ==> rows[y][x] == board[y, x]
  {
    seq(board.Length0, y requires 0 <= y < board.Length0 reads board =>
      seq(board.Length1, x requires 0 <= x < board.Length1 reads board => board[y, x]))
  }

  /** A sequence of rows that agrees with the board cell by cell is the board's row view. */
  lemma RowsExt(board: array2<int>, rows: seq<seq<int>>)
    requires |rows| == board.Length0
    requires forall y :: 0 <= y < |rows| ==> |rows[y]| == board.Length1
    requires forall y, x :: 0 <= y < board.Length0 && 0 <= x < board.Length1 ==> rows[y][x] == board[y, x]
    ensures Rows(board) == rows
  {
    var r := Rows(board);
    forall y | 0 <= y < |rows|
      ensures r[y] == rows[y]
    {
    }
  }

  /** Every cell is 0 or 1, as locking writes only 1 and clearing only 0 or copies. */
  predicate Binary(rows: seq<seq<int>>) {
    forall y, x :: 0 <= y < |rows| && 0 <= x < |rows[y]| ==> rows[y][x] == 0 || rows[y][x] == 1
  }

  /** Every cell is 0. */
  predicate AllZero(board: array2<int>)
    reads board
  {
    forall y, x :: 0 <= y < board.Length0 && 0 <= x < board.Length1 ==> board[y, x] == 0
  }

  /**
   * One block is illegal: outside the side walls, at or below the floor,
   * or, when it is on the visible board (y >= 0), on an occupied cell.
   * Blocks above the top edge are checked against the walls only.
   */
  predicate BlockCollides(b: Block, board: array2<int>)
    reads board
    ensures !BlockCollides(b, board) ==> 0 <= b.x < board.Length1 && b.y < board.Length0
  {
    b.x < 0 || b.x >= board.Length1 || b.y >= board.Length0 ||
    (b.y >= 0 && board[b.y, b.x] != 0)
  }

  /** Some block of the piece is illegal. */
  predicate Collides(t: Tetromino, board: array2<int>)
    reads board
    ensures Collides(t, board) ==> |t.blocks| > 0
  {
    exists i :: 0 <= i < |t.blocks| && BlockCollides(t.blocks[i], board)
  }

  /**
   * `checkCollision`: scans the blocks in order and reports the first
   * illegal one. It only reads the board.
   */
  method CheckCollision(t: Tetromino, board: array2<int>) returns (hit: bool)
    ensures hit <==> Collides(t, board)
  {
    var i := 0;
    while i < |t.blocks|
      invariant 0 <= i <= |t.blocks|
      invariant forall j :: 0 <= j < i ==> !BlockCollides(t.blocks[j], board)
    {
      var block := t.blocks[i];
      if block.x < 0 || block.x >= board.Length1 || block.y >= board.Length0 {
        return true;
      }
      if block.y >= 0 && board[block.y, block.x] != 0 {
        return true;
      }
      i := i + 1;
    }
    return false;
  }

  /**
   * Collision looks at no cell other than those under the piece's visible
   * blocks: two boards of the same size that agree there give the same
   * answer, whatever they hold elsewhere and above the top edge.
   */
  lemma CollisionReadsOnlyCoveredCells(t: Tetromino, b1: array2<int>, b2: array2<int>)
    requires b1.Length0 == b2.Length0 && b1.Length1 == b2.Length1
    requires forall i :: 0 <= i < |t.blocks| && 0 <= t.blocks[i].y < b1.Length0 && 0 <= t.blocks[i].x < b1.Length1 ==>
               b1[t.blocks[i].y, t.blocks[i].x] == b2[t.blocks[i].y, t.blocks[i].x]
    ensures Collides(t, b1) <==> Collides(t, b2)
  {
    if Collides(t, b1) {
      var i :| 0 <= i < |t.blocks| && BlockCollides(t.blocks[i], b1);
      assert BlockCollides(t.blocks[i], b2);
    }
    if Collides(t, b2) {
      var i :| 0 <= i < |t.blocks| && BlockCollides(t.blocks[i], b2);
      assert BlockCollides(t.blocks[i], b1);
    }
  }

  /**
   * A legal piece is safe to lock: every block that is on the visible
   * board lies inside it.
   */
  predicate Placeable(t: Tetromino, width: int, height: int) {
    forall i :: 0 <= i < |t.blocks| && t.blocks[i].y >= 0 ==>
      0 <= t.blocks[i].x < width && t.blocks[i].y < height
  }

  lemma CollisionFreeIsPlaceable(t: Tetromino, board: array2<int>)
    requires !Collides(t, board)
    ensures Placeable(t, board.Length1, board.Length0)
    ensures forall i :: 0 <= i < |t.blocks| && t.blocks[i].y >= 0 ==> board[t.blocks[i].y, t.blocks[i].x] == 0
  {
    forall i | 0 <= i < |t.blocks| && t.blocks[i].y >= 0
      ensures 0 <= t.blocks[i].x < board.Length1 && t.blocks[i].y < board.Length0
      ensures board[t.blocks[i].y, t.blocks[i].x] == 0
    {
      assert !BlockCollides(t.blocks[i], board);
    }
  }

  /** The rows after locking `t`: the cells under its blocks become 1, all others keep their value. */
  function Placed(rows: seq<seq<int>>, t: Tetromino): (r: seq<seq<int>>)
    ensures |r| == |rows| && forall y :: 0 <= y < |r| ==> |r[y]| == |rows[y]|
  {
    seq(|rows|, y requires 0 <= y < |rows| =>
      seq(|rows[y]|, x requires 0 <= x < |rows[y]| => if Block(x, y) in t.blocks then 1 else rows[y][x]))
  }

  /**
   * Locking keeps every cell 0 or 1, never frees an occupied cell, and
   * leaves every block of the piece that is on the board occupied.
   */
  lemma PlacedProperties(rows: seq<seq<int>>, t: Tetromino)
    ensures Binary(rows) ==> Binary(Placed(rows, t))
    ensures forall y, x :: 0 <= y < |rows| && 0 <= x < |rows[y]| && rows[y][x] != 0 ==> Placed(rows, t)[y][x] != 0
    ensures forall i :: 0 <= i < |t.blocks| && 0 <= t.blocks[i].y < |rows| && 0 <= t.blocks[i].x < |rows[t.blocks[i].y]| ==>
              Placed(rows, t)[t.blocks[i].y][t.blocks[i].x] == 1
  {
    var p := Placed(rows, t);
    forall i | 0 <= i < |t.blocks| && 0 <= t.blocks[i].y < |rows| && 0 <= t.blocks[i].x < |rows[t.blocks[i].y]|
      ensures p[t.blocks[i].y][t.blocks[i].x] == 1
    {
      var b := t.blocks[i];
      assert Block(b.x, b.y) == b;
    }
  }
}
