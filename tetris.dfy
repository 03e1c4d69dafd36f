/**
 * The complete game (core/src/main.cpp): a 10 x 20 board, locking, line
 * clearing, hard drop, rotation, and the key and gravity steps of the
 * main loop. The random shape choice is the `kind` parameter.
 */
module Tetris {
  import opened Pieces
  import opened Playfield
  import opened Lines

  const SCREEN_WIDTH: int := 300
  const SCREEN_HEIGHT: int := 600
  const BLOCK_SIZE: int := 30

  const BOARD_WIDTH: int := SCREEN_WIDTH / BLOCK_SIZE
  const BOARD_HEIGHT: int := SCREEN_HEIGHT / BLOCK_SIZE

  /** The board of this version: BOARD_HEIGHT rows of BOARD_WIDTH cells. */
  predicate IsBoard(board: array2<int>) {
    board.Length0 == BOARD_HEIGHT && board.Length1 == BOARD_WIDTH
  }

  // ------------------------------------------------------------ collision

  /**
   * `checkCollision` reports every block beyond a side wall or the floor
   * of the 10 x 20 board.
   */
  lemma CollisionBounds(t: Tetromino, board: array2<int>, i: int)
    requires IsBoard(board) && 0 <= i < |t.blocks|
    requires t.blocks[i].x < 0 || t.blocks[i].x >= BOARD_WIDTH || t.blocks[i].y >= BOARD_HEIGHT
    ensures Collides(t, board)
  {
    assert BOARD_WIDTH == 10 && BOARD_HEIGHT == 20;
    assert BlockCollides(t.blocks[i], board);
  }

  /**
   * A freshly spawned piece collides exactly when a cell under it is
   * already occupied: this is the game-over test.
   */
  lemma SpawnCollidesIffOccupied(kind: nat, board: array2<int>)
    requires IsBoard(board) && kind < SHAPES
    ensures Collides(CreateTetromino(kind), board) <==>
              exists i :: 0 <= i < 4 && board[CreateTetromino(kind).blocks[i].y, CreateTetromino(kind).blocks[i].x] != 0
  {
    var t := CreateTetromino(kind);
    if Collides(t, board) {
      var i :| 0 <= i < |t.blocks| && BlockCollides(t.blocks[i], board);
      assert board[t.blocks[i].y, t.blocks[i].x] != 0;
    }
  }

  /** On the empty starting board the first piece is legal. */
  lemma SpawnOnEmptyBoard(kind: nat, board: array2<int>)
    requires IsBoard(board) && AllZero(board) && kind < SHAPES
    ensures !Collides(CreateTetromino(kind), board)
  {
    SpawnCollidesIffOccupied(kind, board);
  }

  // -------------------------------------------------------------- locking

  /**
   * `placeTetromino`: the cells under the blocks that are on the board
   * become 1, blocks above the top edge are skipped.
   */
  method PlaceTetromino(t: Tetromino, board: array2<int>)
    requires IsBoard(board) && Placeable(t, BOARD_WIDTH, BOARD_HEIGHT)
    modifies board
    ensures forall y, x :: 0 <= y < BOARD_HEIGHT && 0 <= x < BOARD_WIDTH ==>
              board[y, x] == if Block(x, y) in t.blocks then 1 else old(board[y, x])
    ensures Rows(board) == Placed(old(Rows(board)), t)
  {
    ghost var before := Rows(board);
    var i := 0;
    while i < |t.blocks|
      invariant 0 <= i <= |t.blocks|
      invariant forall y, x :: 0 <= y < BOARD_HEIGHT && 0 <= x < BOARD_WIDTH ==>
                  board[y, x] == if Block(x, y) in t.blocks[..i] then 1 else old(board[y, x])
    {
      var block := t.blocks[i];
      if block.y >= 0 {
        board[block.y, block.x] := 1;
      }
      assert t.blocks[..i + 1] == t.blocks[..i] + [block];
      i := i + 1;
    }
    assert t.blocks[..i] == t.blocks;
    RowsExt(board, Placed(before, t));
  }

  // --------------------------------------------------------- line clearing

  /** The scan of one row in `clearFullLines`, stopping at the first free cell. */
  method RowIsFull(board: array2<int>, y: int) returns (isFull: bool)
    requires IsBoard(board) && 0 <= y < BOARD_HEIGHT
    ensures isFull <==> IsFull(Rows(board)[y])
  {
    isFull := true;
    var x := 0;
    while x < BOARD_WIDTH
      invariant 0 <= x <= BOARD_WIDTH
      invariant isFull && forall c :: 0 <= c < x ==> board[y, c] != 0
    {
      if board[y, x] == 0 {
        isFull := false;
        break;
      }
      x := x + 1;
    }
  }

  /** The inner loop of the shift in `clearFullLines`: row `row - 1` is copied into row `row`. */
  method CopyRowDown(board: array2<int>, row: int)
    requires IsBoard(board) && 0 < row < BOARD_HEIGHT
    modifies board
    ensures forall r, c :: 0 <= r < BOARD_HEIGHT && 0 <= c < BOARD_WIDTH ==>
              board[r, c] == if r == row then old(board[row - 1, c]) else old(board[r, c])
  {
    var x := 0;
    while x < BOARD_WIDTH
      invariant 0 <= x <= BOARD_WIDTH
      invariant forall r, c :: 0 <= r < BOARD_HEIGHT && 0 <= c < BOARD_WIDTH ==>
                  board[r, c] == if r == row && c < x then old(board[row - 1, c]) else old(board[r, c])
    {
      board[row, x] := board[row - 1, x];
      x := x + 1;
    }
  }

  /**
   * The clearing of row `y` in `clearFullLines`: every row above it is
   * copied one row down, then the top row is emptied.
   */
  method RemoveRow(board: array2<int>, y: int)
    requires IsBoard(board) && 0 <= y < BOARD_HEIGHT
    modifies board
    ensures Rows(board) == Collapse(old(Rows(board)), y, BOARD_WIDTH)
  {
    ghost var before := Rows(board);
    var row := y;
    while row > 0
      invariant 0 <= row <= y
      invariant forall r, c :: 0 <= r < BOARD_HEIGHT && 0 <= c < BOARD_WIDTH ==>
                  board[r, c] == if row < r <= y then before[r - 1][c] else before[r][c]
    {
      CopyRowDown(board, row);
      row := row - 1;
    }
    var x := 0;
    while x < BOARD_WIDTH
      invariant 0 <= x <= BOARD_WIDTH
      invariant forall r, c :: 0 <= r < BOARD_HEIGHT && 0 <= c < BOARD_WIDTH ==>
                  board[r, c] == if r == 0 && c < x then 0 else if 0 < r <= y then before[r - 1][c] else before[r][c]
    {
      board[0, x] := 0;
      x := x + 1;
    }
    CollapseRows(before, y, BOARD_WIDTH);
    RowsExt(board, Collapse(before, y, BOARD_WIDTH));
  }

  /**
   * `clearFullLines`: scans rows from the bottom up; after clearing a full
   * row it examines the same row index again, since a full row may have
   * moved into it. The result is the original rows with every full row
   * removed, in their original order, below as many empty rows.
   */
  method ClearFullLines(board: array2<int>)
    requires IsBoard(board)
    modifies board
    ensures Rows(board) == Cleared(old(Rows(board)), BOARD_WIDTH)
  {
    ghost var target := Cleared(Rows(board), BOARD_WIDTH);
    ghost var rows := Rows(board);
    var y := BOARD_HEIGHT - 1;
    assert rows[..y + 1] == rows && rows[y + 1..] == [];
    while y >= 0
      invariant -1 <= y < BOARD_HEIGHT
      invariant rows == Rows(board)
      invariant Cleared(rows[..y + 1], BOARD_WIDTH) + rows[y + 1..] == target
      decreases Occupied(rows), y + 1
    {
      var isFull := RowIsFull(board, y);
      if isFull {
        RemoveRow(board, y);
        ScanStepFull(rows, y, BOARD_WIDTH, target);
        rows := Collapse(rows, y, BOARD_WIDTH);
        y := y + 1;
      } else {
        ScanStepSkip(rows, y, BOARD_WIDTH, target);
      }
      y := y - 1;
    }
    assert rows[..0] == [] && rows[0..] == rows;
  }

  /**
   * What clearing promises about the whole board: the size is unchanged,
   * no row is full afterwards, and cells stay 0 or 1.
   */
  lemma ClearFullLinesOutcome(rows: seq<seq<int>>)
    requires |rows| == BOARD_HEIGHT && forall y :: 0 <= y < |rows| ==> |rows[y]| == BOARD_WIDTH
    ensures |Cleared(rows, BOARD_WIDTH)| == BOARD_HEIGHT
    ensures forall y :: 0 <= y < BOARD_HEIGHT ==> |Cleared(rows, BOARD_WIDTH)[y]| == BOARD_WIDTH
    ensures forall y :: 0 <= y < BOARD_HEIGHT ==> !IsFull(Cleared(rows, BOARD_WIDTH)[y])
    ensures Binary(rows) ==> Binary(Cleared(rows, BOARD_WIDTH))
  {
    ClearedShape(rows, BOARD_WIDTH);
    ClearedNoFullRow(rows, BOARD_WIDTH);
    if Binary(rows) {
      ClearedBinary(rows, BOARD_WIDTH);
    }
  }

  // ------------------------------------------------------------ hard drop

  /**
   * Falling straight down from `t`, the piece is legal at each of the
   * first `d` rows below it and at its own row, and not one row further:
   * it lands `d` rows down.
   */
  predicate LandsAfter(t: Tetromino, board: array2<int>, d: int)
    reads board
    ensures LandsAfter(t, board, d) ==> d >= 0 && |t.blocks| > 0
  {
    d >= 0 &&
    (forall k :: 0 <= k <= d ==> !Collides(Translate(t, 0, k), board)) &&
    Collides(Translate(t, 0, d + 1), board)
  }

  /**
   * `dropTetromino`: moves a copy of the piece down one row at a time
   * while it is legal, then backs up one row. From a legal piece this is
   * the lowest position reached by falling straight down: every row on the
   * way is legal and one row further is not. From an illegal piece the
   * loop does not run and the piece ends one row higher.
   */
  method DropTetromino(t: Tetromino, board: array2<int>) returns (r: Tetromino)
    requires IsBoard(board) && |t.blocks| > 0
    ensures Collides(t, board) ==> r == Translate(t, 0, -1)
    ensures !Collides(t, board) ==> exists d :: LandsAfter(t, board, d) && r == Translate(t, 0, d)
    ensures !Collides(t, board) ==> !Collides(r, board) && Collides(Translate(r, 0, 1), board)
  {
    var dropped := t;
    ghost var d := 0;
    TranslateInverse(t, 0, 0);
    var hit := CheckCollision(dropped, board);
    while !hit
      invariant d >= 0 && dropped == Translate(t, 0, d)
      invariant hit <==> Collides(dropped, board)
      invariant forall k :: 0 <= k < d ==> !Collides(Translate(t, 0, k), board)
      decreases BOARD_HEIGHT - dropped.blocks[0].y
    {
      assert !BlockCollides(dropped.blocks[0], board);
      ghost var y0 := dropped.blocks[0].y;
      dropped := ShiftBlocks(dropped, 0, 1);
      assert dropped.blocks[0].y == y0 + 1;
      TranslateCompose(t, 0, d, 0, 1);
      d := d + 1;
      hit := CheckCollision(dropped, board);
    }
    dropped := ShiftBlocks(dropped, 0, -1);
    r := dropped;
    BackUpOneRow(t, board, d);
  }

  /**
   * The end of the drop loop: the piece first collides `d` rows down, and
   * backing up one row gives the landing position (or, when `d` is 0, the
   * piece one row above its start).
   */
  lemma BackUpOneRow(t: Tetromino, board: array2<int>, d: int)
    requires d >= 0 && Collides(Translate(t, 0, d), board)
    requires forall k :: 0 <= k < d ==> !Collides(Translate(t, 0, k), board)
    ensures Translate(Translate(t, 0, d), 0, -1) == Translate(t, 0, d - 1)
    ensures d == 0 ==> Collides(t, board)
    ensures d > 0 ==> LandsAfter(t, board, d - 1) && !Collides(t, board)
    ensures d > 0 ==> !Collides(Translate(t, 0, d - 1), board) && Collides(Translate(Translate(t, 0, d - 1), 0, 1), board)
  {
    TranslateCompose(t, 0, d, 0, -1);
    TranslateInverse(t, 0, 0);
    if d > 0 {
      TranslateCompose(t, 0, d - 1, 0, 1);
      assert !Collides(Translate(t, 0, 0), board);
    }
  }

  /**
   * The drop distance is determined: two distances that both satisfy the
   * postcondition of DropTetromino are equal.
   */
  lemma DropDistanceUnique(t: Tetromino, board: array2<int>, d1: int, d2: int)
    requires LandsAfter(t, board, d1) && LandsAfter(t, board, d2)
    ensures d1 == d2
  {
  }

  /**
   * On an empty board a freshly spawned piece falls until its lowest block
   * reaches the bottom row: 19 rows for the line, 18 for the other shapes.
   */
  lemma HardDropOnEmptyBoard(kind: nat, board: array2<int>)
    requires IsBoard(board) && AllZero(board) && kind < SHAPES
    ensures var t := CreateTetromino(kind);
      var d := if kind == 0 then BOARD_HEIGHT - 1 else BOARD_HEIGHT - 2;
      LandsAfter(t, board, d) && Translate(t, 0, d).blocks[3].y == BOARD_HEIGHT - 1
  {
    var t := CreateTetromino(kind);
    var d := if kind == 0 then BOARD_HEIGHT - 1 else BOARD_HEIGHT - 2;
    assert t.blocks[3].y == (if kind == 0 then 0 else 1);
    forall k | 0 <= k <= d
      ensures !Collides(Translate(t, 0, k), board)
    {
      var m := Translate(t, 0, k);
      forall i | 0 <= i < |m.blocks|
        ensures !BlockCollides(m.blocks[i], board)
      {
        assert m.blocks[i].y == t.blocks[i].y + k;
      }
    }
    assert BlockCollides(Translate(t, 0, d + 1).blocks[3], board);
  }

  // ------------------------------------------------------------- rotation

  /**
   * `rotateTetromino`: nothing happens without a pivot; otherwise every
   * block is turned a quarter about the pivot block as it was before the
   * loop.
   */
  method RotateTetromino(t: Tetromino) returns (r: Tetromino)
    requires WellFormed(t)
    ensures r == Rotated(t)
    ensures t.pivotIndex == NO_PIVOT ==> r == t
    ensures t.pivotIndex != NO_PIVOT ==>
              forall i :: 0 <= i < |t.blocks| ==>
                r.blocks[i] == Block(t.blocks[t.pivotIndex].x - (t.blocks[i].y - t.blocks[t.pivotIndex].y),
                                     t.blocks[t.pivotIndex].y + (t.blocks[i].x - t.blocks[t.pivotIndex].x))
  {
    if t.pivotIndex == NO_PIVOT {
      return t;
    }
    var pivot := t.blocks[t.pivotIndex];
    var blocks := t.blocks;
    var i := 0;
    while i < |blocks|
      invariant 0 <= i <= |blocks| == |t.blocks|
      invariant forall j :: 0 <= j < i ==> blocks[j] == RotateAbout(t.blocks[j], pivot)
      invariant forall j :: i <= j < |blocks| ==> blocks[j] == t.blocks[j]
    {
      var block := blocks[i];
      var relativeX := block.x - pivot.x;
      var relativeY := block.y - pivot.y;
      var rotatedX := -relativeY;
      var rotatedY := relativeX;
      blocks := blocks[i := Block(pivot.x + rotatedX, pivot.y + rotatedY)];
      i := i + 1;
    }
    r := Tetromino(blocks, t.pivotIndex);
  }

  // ------------------------------------------------------- main-loop steps

  /** The keys the main loop reacts to; any other key does nothing. */
  datatype Key = Left | Right | Down | Up | Space | OtherKey

  /**
   * One key press: LEFT, RIGHT and DOWN translate a copy of the piece,
   * UP rotates it, and the copy replaces the piece exactly when it is
   * legal. SPACE hard-drops the piece in place (it locks on a later
   * gravity tick). A legal piece stays legal.
   */
  method HandleKey(current: Tetromino, key: Key, board: array2<int>) returns (next: Tetromino)
    requires IsBoard(board) && WellFormed(current)
    ensures WellFormed(next)
    ensures key == Left ==>
              next == if Collides(Translate(current, -1, 0), board) then current else Translate(current, -1, 0)
    ensures key == Right ==>
              next == if Collides(Translate(current, 1, 0), board) then current else Translate(current, 1, 0)
    ensures key == Down ==>
              next == if Collides(Translate(current, 0, 1), board) then current else Translate(current, 0, 1)
    ensures key == Up ==>
              next == if Collides(Rotated(current), board) then current else Rotated(current)
    ensures key == Space && Collides(current, board) ==> next == Translate(current, 0, -1)
    ensures key == Space && !Collides(current, board) ==>
              exists d :: LandsAfter(current, board, d) && next == Translate(current, 0, d)
    ensures key == OtherKey ==> next == current
    ensures !Collides(current, board) ==> !Collides(next, board)
  {
    var moved := current;
    next := current;
    match key
    case Left =>
      moved := ShiftBlocks(moved, -1, 0);
      var hit := CheckCollision(moved, board);
      if !hit { next := moved; }
    case Right =>
      moved := ShiftBlocks(moved, 1, 0);
      var hit := CheckCollision(moved, board);
      if !hit { next := moved; }
    case Down =>
      moved := ShiftBlocks(moved, 0, 1);
      var hit := CheckCollision(moved, board);
      if !hit { next := moved; }
    case Up =>
      moved := RotateTetromino(moved);
      var hit := CheckCollision(moved, board);
      if !hit { next := moved; }
    case Space =>
      next := DropTetromino(current, board);
    case OtherKey =>
  }

  /**
   * One gravity tick. If the piece can move down a row, it does and the
   * board is untouched. Otherwise the piece locks, full lines are cleared,
   * the piece of shape `kind` spawns, and the game is over exactly when
   * that piece is illegal on the new board.
   */
  method GravityTick(current: Tetromino, kind: nat, board: array2<int>) returns (next: Tetromino, gameOver: bool)
    requires IsBoard(board) && WellFormed(current) && kind < SHAPES
    requires Placeable(current, BOARD_WIDTH, BOARD_HEIGHT)
    modifies board
    ensures old(Collides(Translate(current, 0, 1), board)) ==>
              Rows(board) == Cleared(Placed(old(Rows(board)), current), BOARD_WIDTH) &&
              next == CreateTetromino(kind) &&
              (gameOver <==> Collides(next, board))
    ensures !old(Collides(Translate(current, 0, 1), board)) ==>
              unchanged(board) && next == Translate(current, 0, 1) && !gameOver
    ensures WellFormed(next) && (!gameOver ==> !Collides(next, board))
    ensures old(Binary(Rows(board))) ==> Binary(Rows(board))
    ensures old(Collides(Translate(current, 0, 1), board)) ==>
              forall y :: 0 <= y < BOARD_HEIGHT ==> !IsFull(Rows(board)[y])
  {
    var moved := ShiftBlocks(current, 0, 1);
    var landed := CheckCollision(moved, board);
    if landed {
      ghost var before := Rows(board);
      PlaceTetromino(current, board);
      PlacedProperties(before, current);
      ghost var placed := Rows(board);
      ClearFullLines(board);
      ClearFullLinesOutcome(placed);
      next := CreateTetromino(kind);
      gameOver := CheckCollision(next, board);
    } else {
      next := moved;
      gameOver := false;
      TranslateWellFormed(current, 0, 1);
    }
  }
}
