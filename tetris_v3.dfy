/**
 * The first game version with pieces (core/src/main3.cpp): only the
 * shape catalog, on a 26 x 20 board.
 */
module TetrisV3 {
  import opened Pieces

  const SCREEN_WIDTH: int := 800
  const SCREEN_HEIGHT: int := 600
  const BLOCK_SIZE: int := 30

  const BOARD_WIDTH: int := SCREEN_WIDTH / BLOCK_SIZE
  const BOARD_HEIGHT: int := SCREEN_HEIGHT / BLOCK_SIZE

  /**
   * Every spawned piece has four distinct blocks, all inside the
   * 26 x 20 board (columns 4..7, rows 0..1), and a pivot that is either
   * disabled (square only) or block 1.
   */
  lemma SpawnInsideBoard(draw: nat)
    ensures var t := CreateTetromino(ShapeOf(draw));
      |t.blocks| == 4 &&
      (forall i, j :: 0 <= i < j < 4 ==> t.blocks[i] != t.blocks[j]) &&
      (forall i :: 0 <= i < 4 ==> 0 <= t.blocks[i].x < BOARD_WIDTH && 0 <= t.blocks[i].y < BOARD_HEIGHT) &&
      (t.pivotIndex == NO_PIVOT <==> ShapeOf(draw) == 1) &&
      (t.pivotIndex != NO_PIVOT ==> t.pivotIndex == 1 && t.pivotIndex < |t.blocks|)
  {
  }
}
