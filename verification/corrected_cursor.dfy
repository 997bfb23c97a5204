/**
 The scan the cursor of mapping.cpp evidently means to perform: every row
 from start_y to end_y, each from start_x to end_x, resuming where the last
 call stopped; a hit returns the stored value; the distance filter is
 measured from the centre the cursor was built around. The three changes
 against `Cursor` are the rewind of curr_x at the end of a row, returning
 the value read rather than the comparison, and the centre of the filter.
 Bounds, start-of-scan and the checked Get are as in the code.
 */
module CorrectedCursor {
  import opened Grid
  import opened Storage
  import opened History
  import Mapping
  import opened Cursor

  /** Cells the scan stops at: within the distance of (cx, cy) and not EMPTY. */
  predicate Matches(m: Map, distance: byte, cx: int, cy: int, x: int, y: int)
    requires Valid(m)
  {
    WithinDistance(distance, cx, cy, x, y) && Mapping.Get(m, x, y) != EMPTY
  }

  /**
   (x, y) is still ahead of the cursor: on the current row at or after
   curr_x, or on a later row within the column bounds; never past the end
   row.
   */
  predicate Pending(it: Iterator, x: int, y: int)
  {
    && x <= it.endX && y <= it.endY
    && ((y == it.currY && it.currX <= x) || (it.currY < y && it.startX <= x))
  }

  /** (x, y) comes strictly before (x', y') in row-major order. */
  predicate Before(x: int, y: int, x': int, y': int)
  {
    y < y' || (y == y' && x < x')
  }

  /** The cursor's bounds: [startX, endX] x [startY, endY]. */
  predicate InBounds(it: Iterator, x: int, y: int)
  {
    it.startX <= x <= it.endX && it.startY <= y <= it.endY
  }

  /**
   The corrected next_valid_position, filtering by distance from (cx, cy).
   A hit is the first matching cell ahead of the cursor in row-major order;
   it returns the stored value, and afterwards exactly the cells after it
   are still ahead. A miss means no matching cell was ahead, and the cursor
   is back at its start corner (if it had a row left to scan).
   */
  function Next(m: Map, distance: byte, cx: int, cy: int, it: Iterator): (r: Step)
    requires Valid(m)
    ensures SameBounds(r.cursor, it)
    ensures r.found.FoundAt? <==> r.value != EMPTY
    ensures r.found.FoundAt? ==>
              && Pending(it, r.found.x, r.found.y)
              && Matches(m, distance, cx, cy, r.found.x, r.found.y)
              && r.value == Mapping.Get(m, r.found.x, r.found.y)
              && (forall x, y :: Pending(it, x, y) && Before(x, y, r.found.x, r.found.y) ==>
                    !Matches(m, distance, cx, cy, x, y))
              && (forall x, y :: Pending(r.cursor, x, y) <==>
                    Pending(it, x, y) && Before(r.found.x, r.found.y, x, y))
    ensures r.found.NotFound? ==>
              && (forall x, y :: Pending(it, x, y) ==> !Matches(m, distance, cx, cy, x, y))
              && r.cursor.currY == it.startY
              && r.cursor.currX == if it.currY <= it.endY then it.startX else it.currX
    decreases if it.currY <= it.endY then it.endY - it.currY + 1 else 0,
              if it.currX <= it.endX then it.endX - it.currX + 1 else 0
  {
    if it.currY > it.endY then
      Step(EMPTY, it.(currY := it.startY), NotFound)
    else if it.currX > it.endX then
      // End of a row: back to the first column, on to the next row.
      RowEndKeepsPending(it);
      Next(m, distance, cx, cy, it.(currX := it.startX, currY := it.currY + 1))
    else
      AdvanceDropsCurrent(it);
      if !WithinDistance(distance, cx, cy, it.currX, it.currY) then
        Next(m, distance, cx, cy, it.(currX := it.currX + 1))
      else if Mapping.Get(m, it.currX, it.currY) != EMPTY then
        Step(Mapping.Get(m, it.currX, it.currY), it.(currX := it.currX + 1), FoundAt(it.currX, it.currY))
      else
        Next(m, distance, cx, cy, it.(currX := it.currX + 1))
  }

  /** Past the end of a row, moving to the start of the next row leaves the same cells ahead. */
  lemma RowEndKeepsPending(it: Iterator)
    requires it.currX > it.endX
    ensures forall x, y :: Pending(it.(currX := it.startX, currY := it.currY + 1), x, y) <==> Pending(it, x, y)
  {
  }

  /** Stepping one column on drops exactly the current cell from the cells ahead. */
  lemma AdvanceDropsCurrent(it: Iterator)
    requires it.currX <= it.endX && it.currY <= it.endY
    ensures Pending(it, it.currX, it.currY)
    ensures forall x, y :: Pending(it.(currX := it.currX + 1), x, y) <==>
              Pending(it, x, y) && Before(it.currX, it.currY, x, y)
  {
  }

  /**
   The corrected GetNextValidPosition: the same bounds, no distance filter.
   A hit returns the stored value of a cell in the window; on a fresh
   cursor it is the first non-EMPTY cell of the window in row-major order,
   and a miss means the whole window is EMPTY.
   */
  function GetNextValidPosition(m: Map, it: Iterator): (r: Step)
    requires Valid(m)
    ensures r.cursor.initialized
    ensures r.found.FoundAt? ==>
              InWindow(m, r.found.x, r.found.y) && r.value == Mapping.Get(m, r.found.x, r.found.y) != EMPTY
    ensures !it.initialized && r.found.FoundAt? ==>
              forall x, y :: InWindow(m, x, y) && Before(x, y, r.found.x, r.found.y) ==> Mapping.Get(m, x, y) == EMPTY
    ensures !it.initialized && r.found.NotFound? ==> forall x, y :: InWindow(m, x, y) ==> Mapping.Get(m, x, y) == EMPTY
  {
    var c := MaybeInitialize(m.minX, m.minY, W + m.minX, H + m.minY, it);
    if it.initialized then Next(m, 0, 0, 0, c)
    else FreshCursorCoversWindow(m, c); Next(m, 0, 0, 0, c)
  }

  /**
   The corrected GetNextValidPositionAround: the same square bounds, fixed
   on the first call, and the filter measured from their centre. On a fresh
   cursor a hit is the first non-EMPTY cell of the square, in row-major
   order, within the distance of (x0, y0), and returns its value; a miss
   means there is none.
   */
  function GetNextValidPositionAround(m: Map, x0: int, y0: int, distance: byte, it: Iterator): (r: Step)
    requires Valid(m)
    ensures r.cursor.initialized
    ensures r.found.FoundAt? ==> r.value == Mapping.Get(m, r.found.x, r.found.y) != EMPTY
    ensures !it.initialized ==>
              var sq := Iterator(x0 - distance as int, y0 - distance as int, 0, 0,
                                 x0 + distance as int, y0 + distance as int, true);
              && (r.found.FoundAt? ==>
                    && InBounds(sq, r.found.x, r.found.y)
                    && WithinDistance(distance, x0, y0, r.found.x, r.found.y)
                    && forall x, y :: InBounds(sq, x, y) && Before(x, y, r.found.x, r.found.y) ==>
                         !Matches(m, distance, x0, y0, x, y))
              && (r.found.NotFound? ==> forall x, y :: InBounds(sq, x, y) ==> !Matches(m, distance, x0, y0, x, y))
  {
    var c := MaybeInitialize(x0 - distance as int, y0 - distance as int, x0 + distance as int, y0 + distance as int, it);
    if it.initialized then Next(m, distance, c.startX + distance as int, c.startY + distance as int, c)
    else FreshCursorCoversBounds(c); Next(m, distance, c.startX + distance as int, c.startY + distance as int, c)
  }

  /** On a cursor at its start corner, the cells ahead are exactly the cells in bounds. */
  lemma FreshCursorCoversBounds(it: Iterator)
    requires it.currX == it.startX && it.currY == it.startY
    ensures forall x, y :: Pending(it, x, y) <==> InBounds(it, x, y)
  {
  }

  /** A fresh cursor built from the window's bounds has every cell of the window ahead of it. */
  lemma FreshCursorCoversWindow(m: Map, it: Iterator)
    requires it.currX == it.startX == m.minX && it.currY == it.startY == m.minY
    requires it.endX >= m.minX + W - 1 && it.endY >= m.minY + H - 1
    ensures forall x, y :: InWindow(m, x, y) ==> Pending(it, x, y)
  {
  }

  /**
   After a miss the scan starts over: unlike the code, which stays
   exhausted, the next call on any map finds a matching cell if there is
   one in bounds.
   */
  lemma MissRestartsScan(m: Map, m': Map, distance: byte, cx: int, cy: int, it: Iterator, x: int, y: int)
    requires Valid(m) && Valid(m') && it.currY <= it.endY
    requires Next(m, distance, cx, cy, it).found.NotFound?
    requires InBounds(it, x, y) && Matches(m', distance, cx, cy, x, y)
    ensures Next(m', distance, cx, cy, Next(m, distance, cx, cy, it).cursor).found.FoundAt?
  {
    var c := Next(m, distance, cx, cy, it).cursor;
    FreshCursorCoversBounds(c);
    assert Pending(c, x, y);
  }

  /**
   With the filter measured from the centre, a non-EMPTY centre is always
   in reach: the first call of a fresh cursor reports a cell, at or before
   the centre in scan order, and reports the centre itself when no other
   non-EMPTY cell of the square within the distance precedes it.
   */
  lemma AroundReachesCentre(m: Map, x0: int, y0: int, distance: byte)
    requires Valid(m) && Mapping.Get(m, x0, y0) != EMPTY
    ensures var r := GetNextValidPositionAround(m, x0, y0, distance, Zero);
            && r.found.FoundAt?
            && !Before(x0, y0, r.found.x, r.found.y)
            && ((forall x, y :: InBounds(r.cursor, x, y) && Before(x, y, x0, y0) ==>
                   !Matches(m, distance, x0, y0, x, y)) ==>
                  r.found == FoundAt(x0, y0) && r.value == Mapping.Get(m, x0, y0))
  {
    assert Matches(m, distance, x0, y0, x0, y0);
  }

  /**
   The map of `Cursor.CursorScenario` ((0, 1) = 5, (1, 0) = 7): the
   corrected cursor reports (1, 0) with 7, then (0, 1) with 5, then
   EMPTY.
   */
  lemma CorrectedScenario()
    ensures var ws := [Write(0, 1, 5), Write(1, 0, 7)];
            var m := Replay(ws);
            var first := GetNextValidPosition(m, Zero);
            var second := GetNextValidPosition(m, first.cursor);
            var third := GetNextValidPosition(m, second.cursor);
            && SpreadOk(ws)
            && first.found == FoundAt(1, 0) && first.value == 7
            && second.found == FoundAt(0, 1) && second.value == 5
            && third.value == EMPTY
  {
    var ws := [Write(0, 1, 5), Write(1, 0, 7)];
    ScenarioMap(ws);
    var m := Replay(ws);
    var c := Iterator(0, 0, 0, 0, W, H, true);
    var first := GetNextValidPosition(m, Zero);
    assert first == Next(m, 0, 0, 0, c);
    assert InWindow(m, 1, 0) && Mapping.Get(m, 1, 0) != EMPTY;
    assert first.found == FoundAt(1, 0);
    var second := Next(m, 0, 0, 0, first.cursor);
    assert second == GetNextValidPosition(m, first.cursor);
    assert Pending(first.cursor, 0, 1) && Matches(m, 0, 0, 0, 0, 1);
    assert second.found == FoundAt(0, 1);
    var third := Next(m, 0, 0, 0, second.cursor);
    assert third == GetNextValidPosition(m, second.cursor);
    assert third.found.NotFound?;
  }
}
