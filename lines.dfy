/**
 * What clearing full lines does to the board, stated on rows: every full
 * row disappears, the remaining rows keep their order and sink to the
 * bottom, and empty rows fill the top.
 */
module Lines {

  /** A row is full when none of its cells is 0. */
  predicate IsFull(row: seq<int>) {
    forall x :: 0 <= x < |row| ==> row[x] != 0
  }

  function EmptyRow(width: nat): (row: seq<int>)
    ensures |row| == width && forall x :: 0 <= x < width ==> row[x] == 0
  {
    seq(width, _ => 0)
  }

  function EmptyRows(k: nat, width: nat): (rows: seq<seq<int>>)
    ensures |rows| == k && forall y :: 0 <= y < k ==> rows[y] == EmptyRow(width)
  {
    seq(k, _ => EmptyRow(width))
  }

  /** The rows that are not full, in their original order (top to bottom). */
  function Kept(rows: seq<seq<int>>): (r: seq<seq<int>>)
    ensures |r| <= |rows|
    ensures forall y :: 0 <= y < |r| ==> !IsFull(r[y])
  {
    if rows == [] then []
    else
      var last := rows[|rows| - 1];
      Kept(rows[..|rows| - 1]) + (if IsFull(last) then [] else [last])
  }

  /** The board after clearing: as many empty rows as were full, then the kept rows. */
  function Cleared(rows: seq<seq<int>>, width: nat): (r: seq<seq<int>>)
    ensures |r| == |rows|
  {
    EmptyRows(|rows| - |Kept(rows)|, width) + Kept(rows)
  }

  /** Removing the full row `y`: rows above it move down by one, an empty row enters at the top. */
  function Collapse(rows: seq<seq<int>>, y: nat, width: nat): (r: seq<seq<int>>)
    requires y < |rows|
    ensures |r| == |rows| && r[0] == EmptyRow(width)
    ensures r[y + 1..] == rows[y + 1..]
  {
    [EmptyRow(width)] + rows[..y] + rows[y + 1..]
  }

  /** Row by row, the collapsed board: empty on top, then the rows above `y` one lower, then the rest. */
  lemma CollapseRows(rows: seq<seq<int>>, y: nat, width: nat)
    requires y < |rows|
    ensures |Collapse(rows, y, width)| == |rows|
    ensures forall r :: 0 <= r < |rows| ==>
              Collapse(rows, y, width)[r] == if r == 0 then EmptyRow(width) else if r <= y then rows[r - 1] else rows[r]
  {
  }

  /** Number of occupied cells in a row. */
  function RowCount(row: seq<int>): nat {
    if row == [] then 0 else RowCount(row[..|row| - 1]) + (if row[|row| - 1] != 0 then 1 else 0)
  }

  /** Number of occupied cells on the board. */
  function Occupied(rows: seq<seq<int>>): nat {
    if rows == [] then 0 else Occupied(rows[..|rows| - 1]) + RowCount(rows[|rows| - 1])
  }

  // ---------------------------------------------------------------- Kept

  /** A row is kept iff it is one of the rows and is not full. */
  lemma {:induction false} KeptMembers(rows: seq<seq<int>>, row: seq<int>)
    ensures row in Kept(rows) <==> row in rows && !IsFull(row)
  {
    if rows != [] {
      var init := rows[..|rows| - 1];
      KeptMembers(init, row);
      assert rows == init + [rows[|rows| - 1]];
    }
  }

  lemma {:induction false} KeptPrepend(first: seq<int>, rows: seq<seq<int>>)
    ensures Kept([first] + rows) == (if IsFull(first) then [] else [first]) + Kept(rows)
    decreases |rows|
  {
    var all := [first] + rows;
    if rows == [] {
      assert all[..|all| - 1] == [];
    } else {
      var init := rows[..|rows| - 1];
      assert all[..|all| - 1] == [first] + init;
      KeptPrepend(first, init);
    }
  }

  lemma KeptAppend(rows: seq<seq<int>>, last: seq<int>)
    ensures Kept(rows + [last]) == Kept(rows) + (if IsFull(last) then [] else [last])
  {
    assert (rows + [last])[..|rows|] == rows;
  }

  /** Rows none of which is full are all kept. */
  lemma {:induction false} KeptNoFull(rows: seq<seq<int>>)
    requires forall y :: 0 <= y < |rows| ==> !IsFull(rows[y])
    ensures Kept(rows) == rows
  {
    if rows != [] {
      var init := rows[..|rows| - 1];
      KeptNoFull(init);
      assert rows == init + [rows[|rows| - 1]];
    }
  }

  // ------------------------------------------------------------- Cleared

  /** Clearing keeps the number of rows and the width of every row. */
  lemma ClearedShape(rows: seq<seq<int>>, width: nat)
    requires forall y :: 0 <= y < |rows| ==> |rows[y]| == width
    ensures |Cleared(rows, width)| == |rows|
    ensures forall y :: 0 <= y < |rows| ==> |Cleared(rows, width)[y]| == width
  {
    var c := Cleared(rows, width);
    var k := |rows| - |Kept(rows)|;
    forall y | 0 <= y < |rows|
      ensures |c[y]| == width
    {
      if y >= k {
        KeptMembers(rows, c[y]);
      }
    }
  }

  /** After clearing, no row is full (rows have at least one column). */
  lemma ClearedNoFullRow(rows: seq<seq<int>>, width: nat)
    requires width > 0
    ensures forall y :: 0 <= y < |Cleared(rows, width)| ==> !IsFull(Cleared(rows, width)[y])
  {
    var c := Cleared(rows, width);
    var k := |rows| - |Kept(rows)|;
    forall y | 0 <= y < |c|
      ensures !IsFull(c[y])
    {
      if y < k {
        assert c[y][0] == 0;
      } else {
        assert c[y] == Kept(rows)[y - k];
      }
    }
  }

  /** A board without full rows is left as it is; so clearing twice is clearing once. */
  lemma ClearedIdempotent(rows: seq<seq<int>>, width: nat)
    requires width > 0
    ensures (forall y :: 0 <= y < |rows| ==> !IsFull(rows[y])) ==> Cleared(rows, width) == rows
    ensures Cleared(Cleared(rows, width), width) == Cleared(rows, width)
  {
    if forall y :: 0 <= y < |rows| ==> !IsFull(rows[y]) {
      KeptNoFull(rows);
    }
    var c := Cleared(rows, width);
    ClearedNoFullRow(rows, width);
    KeptNoFull(c);
  }

  /** Clearing keeps every cell 0 or 1 when it was. */
  lemma ClearedBinary(rows: seq<seq<int>>, width: nat)
    requires forall y, x :: 0 <= y < |rows| && 0 <= x < |rows[y]| ==> rows[y][x] == 0 || rows[y][x] == 1
    ensures forall y, x :: 0 <= y < |Cleared(rows, width)| && 0 <= x < |Cleared(rows, width)[y]| ==>
              Cleared(rows, width)[y][x] == 0 || Cleared(rows, width)[y][x] == 1
  {
    var c := Cleared(rows, width);
    var k := |rows| - |Kept(rows)|;
    forall y, x | 0 <= y < |c| && 0 <= x < |c[y]|
      ensures c[y][x] == 0 || c[y][x] == 1
    {
      if y >= k {
        KeptMembers(rows, c[y]);
      }
    }
  }

  /**
   * Full rows stacked at the bottom under rows none of which is full all
   * disappear: the rows above move down by as many rows, and as many empty
   * rows appear at the top.
   */
  lemma ClearBottomFullRows(above: seq<seq<int>>, full: seq<seq<int>>, width: nat)
    requires forall y :: 0 <= y < |above| ==> !IsFull(above[y])
    requires forall y :: 0 <= y < |full| ==> IsFull(full[y])
    ensures Cleared(above + full, width) == EmptyRows(|full|, width) + above
  {
    KeptDropsFullRows(above, full);
    KeptNoFull(above);
  }

  /** Full rows appended below contribute nothing to the kept rows. */
  lemma {:induction false} KeptDropsFullRows(above: seq<seq<int>>, full: seq<seq<int>>)
    requires forall y :: 0 <= y < |full| ==> IsFull(full[y])
    ensures Kept(above + full) == Kept(above)
    decreases |full|
  {
    if full == [] {
      assert above + full == above;
    } else {
      var init := full[..|full| - 1];
      KeptDropsFullRows(above, init);
      assert above + full == (above + init) + [full[|full| - 1]];
      KeptAppend(above + init, full[|full| - 1]);
    }
  }

  // ------------------------------------------- one step of the clearing scan

  /**
   * The scan keeps `Cleared(upper) + lower` fixed, where `upper` holds the
   * rows still to be examined. Passing over a row that is not full moves
   * it from `upper` to `lower`.
   */
  lemma ClearedSkipRow(upper: seq<seq<int>>, width: nat)
    requires upper != [] && !IsFull(upper[|upper| - 1])
    ensures Cleared(upper, width) == Cleared(upper[..|upper| - 1], width) + [upper[|upper| - 1]]
  {
  }

  /**
   * Removing a full row at the bottom of `upper` and letting an empty row in
   * at the top does not change what the scan will produce.
   */
  lemma ClearedCollapseRow(above: seq<seq<int>>, full: seq<int>, width: nat)
    requires IsFull(full) && width > 0
    ensures Cleared([EmptyRow(width)] + above, width) == Cleared(above + [full], width)
  {
    var e := EmptyRow(width);
    assert !IsFull(e) by { assert e[0] == 0; }
    var kept := Kept(above);
    var k := |above| - |kept|;
    KeptPrepend(e, above);
    assert Kept([e] + above) == [e] + kept;
    KeptAppend(above, full);
    assert Kept(above + [full]) == kept;
    assert EmptyRows(k, width) + [e] == EmptyRows(k + 1, width);
    calc {
      Cleared([e] + above, width);
      EmptyRows(k, width) + ([e] + kept);
      (EmptyRows(k, width) + [e]) + kept;
      EmptyRows(k + 1, width) + kept;
      Cleared(above + [full], width);
    }
  }

  /**
   * One step of the bottom-up scan at row `y` when that row is full: the
   * collapsed board still yields `target`, with the same row to examine
   * again, and it has `width` fewer occupied cells.
   */
  lemma ScanStepFull(rows: seq<seq<int>>, y: nat, width: nat, target: seq<seq<int>>)
    requires y < |rows| && IsFull(rows[y]) && |rows[y]| == width && width > 0
    requires Cleared(rows[..y + 1], width) + rows[y + 1..] == target
    ensures Cleared(Collapse(rows, y, width)[..y + 1], width) + Collapse(rows, y, width)[y + 1..] == target
    ensures Occupied(Collapse(rows, y, width)) < Occupied(rows)
  {
    var now := Collapse(rows, y, width);
    CollapseRemovesWidthCells(rows, y, width);
    assert now[..y + 1] == [EmptyRow(width)] + rows[..y];
    assert now[y + 1..] == rows[y + 1..];
    assert rows[..y + 1] == rows[..y] + [rows[y]];
    ClearedCollapseRow(rows[..y], rows[y], width);
  }

  /**
   * One step of the scan at row `y` when that row is not full: the row
   * joins the finished rows below it.
   */
  lemma ScanStepSkip(rows: seq<seq<int>>, y: nat, width: nat, target: seq<seq<int>>)
    requires y < |rows| && !IsFull(rows[y])
    requires Cleared(rows[..y + 1], width) + rows[y + 1..] == target
    ensures Cleared(rows[..y], width) + rows[y..] == target
  {
    assert rows[..y + 1][..y] == rows[..y];
    ClearedSkipRow(rows[..y + 1], width);
    assert rows[y..] == [rows[y]] + rows[y + 1..];
  }

  lemma {:induction false} RowCountAppend(a: seq<int>, b: seq<int>)
    ensures RowCount(a + b) == RowCount(a) + RowCount(b)
    decreases |b|
  {
    if b == [] {
      assert a + b == a;
    } else {
      var init := b[..|b| - 1];
      assert (a + b)[..|a + b| - 1] == a + init;
      RowCountAppend(a, init);
    }
  }

  lemma {:induction false} OccupiedAppend(a: seq<seq<int>>, b: seq<seq<int>>)
    ensures Occupied(a + b) == Occupied(a) + Occupied(b)
    decreases |b|
  {
    if b == [] {
      assert a + b == a;
    } else {
      var init := b[..|b| - 1];
      assert (a + b)[..|a + b| - 1] == a + init;
      OccupiedAppend(a, init);
    }
  }

  /** A full row has every cell occupied; an empty row none. */
  lemma {:induction false} RowCountFullOrEmpty(row: seq<int>)
    ensures IsFull(row) ==> RowCount(row) == |row|
    ensures (forall x :: 0 <= x < |row| ==> row[x] == 0) ==> RowCount(row) == 0
  {
    if row != [] {
      RowCountFullOrEmpty(row[..|row| - 1]);
    }
  }

  /**
   * Why the scan terminates although it re-examines a row after clearing
   * it: each removal of a full row takes `width` occupied cells off the
   * board.
   */
  lemma CollapseRemovesWidthCells(rows: seq<seq<int>>, y: nat, width: nat)
    requires y < |rows| && IsFull(rows[y]) && |rows[y]| == width
    ensures Occupied(Collapse(rows, y, width)) + width == Occupied(rows)
  {
    var e := EmptyRow(width);
    RowCountFullOrEmpty(e);
    RowCountFullOrEmpty(rows[y]);
    assert rows == rows[..y] + [rows[y]] + rows[y + 1..];
    OccupiedAppend([e] + rows[..y], rows[y + 1..]);
    OccupiedAppend([e], rows[..y]);
    OccupiedAppend(rows[..y] + [rows[y]], rows[y + 1..]);
    OccupiedAppend(rows[..y], [rows[y]]);
    assert Occupied([e]) == RowCount(e) by {
      assert [e][..0] == [];
    }
    assert Occupied([rows[y]]) == RowCount(rows[y]) by {
      assert [rows[y]][..0] == [];
    }
  }
}
