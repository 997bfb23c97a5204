/**
 The resumable cursor of mapping.cpp (next_valid_position,
 maybe_initialize_iterator, GetNextValidPosition[Around]), modelled as
 written. Three traits of the code carry through to the contracts:
 - a hit returns 1, not the stored byte: the if-declaration binds
   `value = (Get(..) != EMPTY)`;
 - the statement after the inner loop computes `curr_x - start_x` and
   discards it, so curr_x is never rewound and only the start row is ever
   scanned; once a call comes back empty every later call does too;
 - the distance filter measures the z-distance from the scan's start corner
   (x0 - d, y0 - d), not from (x0, y0).
 Module `CorrectedCursor` models the evidently intended scan.
 */
module Cursor {
  import opened Grid
  import opened Storage
  import opened History
  import Mapping

  /**
   The scan state `Iterator`. Its declaration is not part of this model; the
   fields are the ones the code reads and writes. A zeroed cursor is
   uninitialised.
   */
  datatype Iterator = Iterator(startX: int, startY: int, currX: int, currY: int,
                               endX: int, endY: int, initialized: bool)

  const Zero := Iterator(0, 0, 0, 0, 0, 0, false)

  /** Whether a call wrote a coordinate to *x, *y (it leaves them alone on a miss). */
  datatype Found = NotFound | FoundAt(x: int, y: int)

  /** What one call returns, the cursor afterwards, and what it wrote to *x, *y. */
  datatype Step = Step(value: byte, cursor: Iterator, found: Found)

  /** The source's ABS macro. */
  function Abs(n: int): nat
  {
    if n > 0 then n else -n
  }

  /** The implicit third axial coordinate. */
  function Z(x: int, y: int): int
  {
    -x - y
  }

  /** A non-zero distance admits only cells whose z lies within it of the z of (sx, sy). */
  predicate WithinDistance(distance: byte, sx: int, sy: int, x: int, y: int)
  {
    distance == 0 || Abs(Z(x, y) - Z(sx, sy)) <= distance as int
  }

  /** The cells next_valid_position stops at: past the filter (from the start corner) and not EMPTY. */
  predicate Reportable(m: Map, distance: byte, sx: int, sy: int, x: int, y: int)
    requires Valid(m)
  {
    WithinDistance(distance, sx, sy, x, y) && Mapping.Get(m, x, y) != EMPTY
  }

  predicate SameBounds(a: Iterator, b: Iterator)
  {
    && a.startX == b.startX && a.startY == b.startY
    && a.endX == b.endX && a.endY == b.endY
    && a.initialized == b.initialized
  }

  /**
   next_valid_position. It looks only at row curr_y, from curr_x to end_x
   inclusive: a hit is the first reportable cell there, the call returns 1
   and leaves the cursor just past it. Otherwise it returns EMPTY and leaves
   curr_x past end_x, having walked curr_y past end_y over rows it cannot
   scan and set it back to start_y. Bounds are never touched.
   */
  function NextValidPosition(m: Map, distance: byte, it: Iterator): (r: Step)
    requires Valid(m)
    ensures SameBounds(r.cursor, it)
    ensures r.found.FoundAt? <==> r.value != EMPTY
    ensures r.found.FoundAt? ==>
              && r.value == 1
              && r.found.y == it.currY <= it.endY
              && it.currX <= r.found.x <= it.endX
              && Reportable(m, distance, it.startX, it.startY, r.found.x, r.found.y)
              && (forall x :: it.currX <= x < r.found.x ==> !Reportable(m, distance, it.startX, it.startY, x, it.currY))
              && r.cursor.currX == r.found.x + 1 && r.cursor.currY == r.found.y
    ensures r.found.NotFound? ==>
              && (it.currY <= it.endY ==>
                    forall x :: it.currX <= x <= it.endX ==> !Reportable(m, distance, it.startX, it.startY, x, it.currY))
              && r.cursor.currY == it.startY
              && r.cursor.currX == if it.currY <= it.endY && it.currX <= it.endX then it.endX + 1 else it.currX
    decreases if it.currY <= it.endY then it.endY - it.currY + 1 else 0,
              if it.currX <= it.endX then it.endX - it.currX + 1 else 0
  {
    if it.currY > it.endY then
      Step(EMPTY, it.(currY := it.startY), NotFound)
    else if it.currX > it.endX then
      // End of the inner loop: `curr_x - start_x;` has no effect, curr_y++.
      NextValidPosition(m, distance, it.(currY := it.currY + 1))
    else if !WithinDistance(distance, it.startX, it.startY, it.currX, it.currY) then
      NextValidPosition(m, distance, it.(currX := it.currX + 1))
    else if Mapping.Get(m, it.currX, it.currY) != EMPTY then
      Step(1, it.(currX := it.currX + 1), FoundAt(it.currX, it.currY))
    else
      NextValidPosition(m, distance, it.(currX := it.currX + 1))
  }

  /**
   maybe_initialize_iterator: a cursor already initialised is returned as
   is, whatever bounds are offered; a zeroed one takes the bounds and starts
   at their start corner.
   */
  function MaybeInitialize(startX: int, startY: int, endX: int, endY: int, it: Iterator): (c: Iterator)
    ensures c.initialized
    ensures it.initialized ==> c == it
    ensures !it.initialized ==>
              c.startX == c.currX == startX && c.startY == c.currY == startY && c.endX == endX && c.endY == endY
  {
    if it.initialized then it
    else Iterator(startX, startY, startX, startY, endX, endY, true)
  }

  /** A cursor between calls: its current row is its start row (true of a zeroed cursor too). */
  predicate OnStartRow(it: Iterator)
  {
    it.currY == it.startY
  }

  /**
   GetNextValidPosition: the bounds are the window with an inclusive end one
   past it in each axis, computed on the first call only. A hit is a
   non-EMPTY cell of the map (so inside the window, since Get is checked),
   on the start row, and returns 1. Every call leaves the cursor on its
   start row.
   */
  function GetNextValidPosition(m: Map, it: Iterator): (r: Step)
    requires Valid(m)
    ensures r.cursor.initialized
    ensures !it.initialized ==>
              && r.cursor.startX == m.minX && r.cursor.startY == m.minY
              && r.cursor.endX == m.minX + W && r.cursor.endY == m.minY + H
    ensures it.initialized ==> SameBounds(r.cursor, it)
    ensures r.found.NotFound? <==> r.value == EMPTY
    ensures r.found.FoundAt? ==>
              && r.value == 1
              && Mapping.Get(m, r.found.x, r.found.y) != EMPTY
              && InWindow(m, r.found.x, r.found.y)
    ensures OnStartRow(it) ==> OnStartRow(r.cursor) && (r.found.FoundAt? ==> r.found.y == r.cursor.startY)
  {
    var c := MaybeInitialize(m.minX, m.minY, W + m.minX, H + m.minY, it);
    NextValidPosition(m, 0, c)
  }

  /**
   GetNextValidPositionAround(x0, y0, distance): bounds are the square
   [x0 - d, x0 + d] x [y0 - d, y0 + d], fixed on the first call. A hit is a
   non-EMPTY cell whose z lies within `distance` of the z of the start
   corner (x0 - d, y0 - d), and returns 1.
   */
  function GetNextValidPositionAround(m: Map, x0: int, y0: int, distance: byte, it: Iterator): (r: Step)
    requires Valid(m)
    ensures r.cursor.initialized
    ensures !it.initialized ==>
              && r.cursor.startX == x0 - distance as int && r.cursor.startY == y0 - distance as int
              && r.cursor.endX == x0 + distance as int && r.cursor.endY == y0 + distance as int
    ensures it.initialized ==> SameBounds(r.cursor, it)
    ensures r.found.NotFound? <==> r.value == EMPTY
    ensures r.found.FoundAt? ==>
              && r.value == 1
              && Mapping.Get(m, r.found.x, r.found.y) != EMPTY
              && r.found.x <= r.cursor.endX
              && (distance != 0 ==>
                    Abs(Z(r.found.x, r.found.y) - Z(r.cursor.startX, r.cursor.startY)) <= distance as int)
    ensures OnStartRow(it) ==> OnStartRow(r.cursor) && (r.found.FoundAt? ==> r.found.y == r.cursor.startY)
  {
    var c := MaybeInitialize(x0 - distance as int, y0 - distance as int, x0 + distance as int, y0 + distance as int, it);
    NextValidPosition(m, distance, c)
  }

  /**
   Once a call on a cursor between calls comes back empty, the cursor is
   exhausted: every later call, on any map (re-based or not), returns EMPTY
   and leaves the cursor as it is.
   */
  lemma ExhaustionIsAbsorbing(m: Map, m': Map, distance: byte, it: Iterator)
    requires Valid(m) && Valid(m') && OnStartRow(it)
    requires NextValidPosition(m, distance, it).found.NotFound?
    ensures var c := NextValidPosition(m, distance, it).cursor;
            NextValidPosition(m', distance, c) == Step(EMPTY, c, NotFound)
  {
    var c := NextValidPosition(m, distance, it).cursor;
    var r := NextValidPosition(m', distance, c);
    assert r.found.NotFound?;
  }

  /**
   The same at the level of GetNextValidPosition: after it returns EMPTY,
   it returns EMPTY on every later call, with any map.
   */
  lemma GetNextValidPositionStaysExhausted(m: Map, m': Map, it: Iterator)
    requires Valid(m) && Valid(m') && OnStartRow(it)
    requires GetNextValidPosition(m, it).value == EMPTY
    ensures var c := GetNextValidPosition(m, it).cursor;
            GetNextValidPosition(m', c) == Step(EMPTY, c, NotFound)
  {
    var c0 := MaybeInitialize(m.minX, m.minY, W + m.minX, H + m.minY, it);
    ExhaustionIsAbsorbing(m, m', 0, c0);
  }

  /**
   The bounds are computed on the first call only: a second call keeps them
   even if the map was re-based in between.
   */
  lemma BoundsFixedAtFirstCall(m: Map, m': Map, it: Iterator)
    requires Valid(m) && Valid(m')
    ensures var c := GetNextValidPosition(m, it).cursor;
            SameBounds(GetNextValidPosition(m', c).cursor, c)
  {
  }

  /**
   With a non-zero distance, the centre (x0, y0) itself never passes the
   filter: its z differs from the start corner's by 2 * distance. So
   GetNextValidPositionAround never reports the centre.
   */
  lemma AroundNeverReportsCentre(m: Map, x0: int, y0: int, distance: byte, it: Iterator)
    requires Valid(m) && distance != 0
    requires !it.initialized || (it.startX == x0 - distance as int && it.startY == y0 - distance as int)
    ensures GetNextValidPositionAround(m, x0, y0, distance, it).found != FoundAt(x0, y0)
  {
    assert Z(x0, y0) - Z(x0 - distance as int, y0 - distance as int) == -2 * (distance as int);
  }

  /** The map left by writing (0, 1) = 5 and then (1, 0) = 7. */
  lemma ScenarioMap(ws: seq<Write>)
    requires ws == [Write(0, 1, 5), Write(1, 0, 7)]
    ensures SpreadOk(ws)
    ensures Replay(ws).minX == 0 && Replay(ws).minY == 0
    ensures forall x, y :: Mapping.Get(Replay(ws), x, y) ==
              if x == 1 && y == 0 then 7 else if x == 0 && y == 1 then 5 else EMPTY
  {
    assert SpreadOk(ws);
    var m := Replay(ws);
    assert Reflects(m, ws);
    assert InWindow(m, ws[0].x, ws[0].y) && InWindow(m, ws[1].x, ws[1].y);
    ScenarioWrites(ws);
    Mapping.GetReturnsLastWrite(ws);
  }

  lemma ScenarioWrites(ws: seq<Write>)
    requires ws == [Write(0, 1, 5), Write(1, 0, 7)]
    ensures forall x, y :: LastWrite(ws, x, y) == if x == 1 && y == 0 then 7 else if x == 0 && y == 1 then 5 else EMPTY
  {
    assert ws[..1] == [Write(0, 1, 5)] && ws[..1][..0] == [];
    forall x, y
      ensures LastWrite(ws, x, y) == if x == 1 && y == 0 then 7 else if x == 0 && y == 1 then 5 else EMPTY
    {
      if !(x == 1 && y == 0) {
        assert LastWrite(ws, x, y) == LastWrite(ws[..1], x, y);
        if !(x == 0 && y == 1) {
          assert LastWrite(ws[..1], x, y) == LastWrite([], x, y);
        }
      }
    }
  }

  /**
   Writing (0, 1) = 5 and (1, 0) = 7: the first call on a zeroed cursor
   reports (1, 0) and returns 1 rather than 7; the second call already
   returns EMPTY, though (0, 1) holds 5 and is never reported.
   */
  lemma CursorScenario()
    ensures var ws := [Write(0, 1, 5), Write(1, 0, 7)];
            var m := Replay(ws);
            var first := GetNextValidPosition(m, Zero);
            var second := GetNextValidPosition(m, first.cursor);
            && SpreadOk(ws)
            && first.found == FoundAt(1, 0) && first.value == 1 && Mapping.Get(m, 1, 0) == 7
            && second.value == EMPTY && Mapping.Get(m, 0, 1) == 5
  {
    var ws := [Write(0, 1, 5), Write(1, 0, 7)];
    ScenarioMap(ws);
    var m := Replay(ws);
    var first := GetNextValidPosition(m, Zero);
    assert first.found == FoundAt(1, 0) by {
      assert Reportable(m, 0, 0, 0, 1, 0);
    }
    var second := GetNextValidPosition(m, first.cursor);
    assert second.found.NotFound?;
  }
}
