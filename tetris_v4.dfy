/**
 * The earlier game (core/src/main4.cpp): a 20 x 15 board that is never
 * written, a factored translate-if-legal move, and gravity that only
 * moves the piece down. Nothing ever locks in this version.
 */
module TetrisV4 {
  import opened Pieces
  import opened Playfield

  const SCREEN_WIDTH: int := 800
  const SCREEN_HEIGHT: int := 600
  const BLOCK_SIZE: int := 40

  const BOARD_WIDTH: int := SCREEN_WIDTH / BLOCK_SIZE
  const BOARD_HEIGHT: int := SCREEN_HEIGHT / BLOCK_SIZE

  /** The board of this version: BOARD_HEIGHT rows of BOARD_WIDTH cells. */
  predicate IsBoard(board: array2<int>) {
    board.Length0 == BOARD_HEIGHT && board.Length1 == BOARD_WIDTH
  }

  /** `checkCollision` reports every block beyond a side wall or the floor of the 20 x 15 board. */
  lemma CollisionBounds(t: Tetromino, board: array2<int>, i: int)
    requires IsBoard(board) && 0 <= i < |t.blocks|
    requires t.blocks[i].x < 0 || t.blocks[i].x >= BOARD_WIDTH || t.blocks[i].y >= BOARD_HEIGHT
    ensures Collides(t, board)
  {
    assert BOARD_WIDTH == 20 && BOARD_HEIGHT == 15;
    assert BlockCollides(t.blocks[i], board);
  }

  /**
   * On this version's board, which stays all zeros, a piece collides
   * exactly when one of its blocks is beyond a side wall or the floor.
   */
  lemma EmptyBoardCollision(t: Tetromino, board: array2<int>)
    requires IsBoard(board) && AllZero(board)
    ensures Collides(t, board) <==>
              exists i :: 0 <= i < |t.blocks| && (t.blocks[i].x < 0 || t.blocks[i].x >= BOARD_WIDTH || t.blocks[i].y >= BOARD_HEIGHT)
  {
    if Collides(t, board) {
      var i :| 0 <= i < |t.blocks| && BlockCollides(t.blocks[i], board);
    }
    if exists i :: 0 <= i < |t.blocks| && (t.blocks[i].x < 0 || t.blocks[i].x >= BOARD_WIDTH || t.blocks[i].y >= BOARD_HEIGHT) {
      var i :| 0 <= i < |t.blocks| && (t.blocks[i].x < 0 || t.blocks[i].x >= BOARD_WIDTH || t.blocks[i].y >= BOARD_HEIGHT);
      CollisionBounds(t, board, i);
    }
  }

  /** Every shape spawns legally on the starting board. */
  lemma SpawnIsLegal(kind: nat, board: array2<int>)
    requires IsBoard(board) && AllZero(board) && kind < SHAPES
    ensures !Collides(CreateTetromino(kind), board)
  {
    EmptyBoardCollision(CreateTetromino(kind), board);
  }

  /**
   * `moveTetromino`: the piece shifted by (dx, dy) replaces the piece
   * exactly when it is legal; otherwise the piece is left as it was.
   * A legal piece stays legal.
   */
  method MoveTetromino(t: Tetromino, dx: int, dy: int, board: array2<int>) returns (r: Tetromino)
    requires IsBoard(board)
    ensures !Collides(Translate(t, dx, dy), board) ==> r == Translate(t, dx, dy)
    ensures Collides(Translate(t, dx, dy), board) ==> r == t
    ensures |r.blocks| == |t.blocks| && r.pivotIndex == t.pivotIndex
    ensures !Collides(t, board) ==> !Collides(r, board)
  {
    r := t;
    var moved := ShiftBlocks(t, dx, dy);
    var hit := CheckCollision(moved, board);
    if !hit {
      r := moved;
    }
  }

  /**
   * The gravity step `moveTetromino(0, 1)`: the piece stays put exactly
   * when it has landed; otherwise it moves down one row.
   */
  method GravityStep(t: Tetromino, board: array2<int>) returns (r: Tetromino)
    requires IsBoard(board) && |t.blocks| > 0
    ensures r == t <==> Collides(Translate(t, 0, 1), board)
    ensures r != t ==> r == Translate(t, 0, 1)
  {
    r := MoveTetromino(t, 0, 1, board);
    assert Translate(t, 0, 1).blocks[0].y == t.blocks[0].y + 1;
  }
}
