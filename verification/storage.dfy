/**
 The state and the write path shared by both revisions of the map (map.cpp
 and mapping.cpp carry the same struct, clear, move, Set, Initialized and
 Reset): a W x H byte window whose cell (r, c) holds absolute coordinate
 (c + minX, r + minY), re-based toward smaller coordinates whenever a write
 falls below the current minimum.
 */
module Storage {
  import opened Grid

  /**
   Window width and height. They come from a configuration header; they are
   equal because move()'s byte count is only right for square windows (see
   Grid.Move).
   */
  const W: nat := 8
  const H: nat := 8

  datatype Map = Map(cells: seq<byte>, minX: int, minY: int, initialized: bool)

  /** The array has W * H cells. */
  predicate Valid(m: Map)
  {
    Fits(m.cells, W, H)
  }

  /** (x, y) lies in the window [minX, minX + W) x [minY, minY + H). */
  predicate InWindow(m: Map, x: int, y: int)
  {
    m.minX <= x < m.minX + W && m.minY <= y < m.minY + H
  }

  /** The cell that holds coordinate (x, y): positions[y - min_y][x - min_x]. */
  function At(m: Map, x: int, y: int): byte
    requires Valid(m) && InWindow(m, x, y)
  {
    Cell(m.cells, W, H, y - m.minY, x - m.minX)
  }

  /** The coordinate range the header asks of Set: x in [-W, W), y in [-H, H). */
  predicate InRange(x: int, y: int)
  {
    -(W as int) <= x < W && -(H as int) <= y < H
  }

  /**
   Set's precondition. Besides the coordinate range, the header asks that the
   spread of all written coordinates stay below W columns and H rows. The
   minimum (minX, minY) is itself a written coordinate, so for one call this
   means the new coordinate lies less than W columns and H rows from it.
   `History.SpreadAllowsEverySet` shows the header's condition over a whole
   write sequence implies this one at every step.
   */
  predicate CanSet(m: Map, x: int, y: int)
  {
    && InRange(x, y)
    && (m.initialized ==> m.minX - W < x < m.minX + W && m.minY - H < y < m.minY + H)
  }

  /**
   The re-basing half of Set on an initialised map: lower the minimum to
   (x, y) where x or y is smaller, and move the array by the two deltas. It
   is a change of frame: every absolute coordinate of the new window holds
   what it held in the old window, or EMPTY if the old window did not reach
   it.
   */
  function Rebase(m: Map, x: int, y: int): (m': Map)
    requires Valid(m) && m.initialized
    requires m.minX - W < x && m.minY - H < y
    ensures Valid(m') && m'.initialized
    ensures m'.minX <= x && m'.minX <= m.minX && (m'.minX == x || m'.minX == m.minX)
    ensures m'.minY <= y && m'.minY <= m.minY && (m'.minY == y || m'.minY == m.minY)
    ensures forall x', y' :: InWindow(m', x', y') ==>
              At(m', x', y') == if InWindow(m, x', y') then At(m, x', y') else EMPTY
  {
    var dx: nat := if x < m.minX then m.minX - x else 0;
    var nx := if x < m.minX then x else m.minX;
    var dy: nat := if y < m.minY then m.minY - y else 0;
    var ny := if y < m.minY then y else m.minY;
    // move() is only correct because W == H; Grid.Move states it as `w == h ==> Shift`.
    assert MoveInBounds(W, H, dx, dy);
    var m' := Map(Move(m.cells, W, H, dx, dy), nx, ny, true);
    ShiftKeepsCoordinates(m, m', dx, dy);
    m'
  }

  /** Shifting the array by (dx, dy) while lowering the minimum by the same amounts keeps every coordinate's value. */
  lemma ShiftKeepsCoordinates(m: Map, m': Map, dx: nat, dy: nat)
    requires Valid(m) && Offset(W, dy, dx) <= W * H
    requires m' == m.(cells := Shift(m.cells, W, H, dx, dy), minX := m.minX - dx, minY := m.minY - dy, initialized := m'.initialized)
    ensures Valid(m')
    ensures forall x', y' :: InWindow(m', x', y') ==>
              At(m', x', y') == if InWindow(m, x', y') then At(m, x', y') else EMPTY
  {
    forall x', y' | InWindow(m', x', y')
      ensures At(m', x', y') == if InWindow(m, x', y') then At(m, x', y') else EMPTY
    {
      var r: nat, c: nat := y' - m'.minY, x' - m'.minX;
      assert At(m', x', y') == Cell(m'.cells, W, H, r, c);
    }
  }

  /** Writing v into the cell of (x, y) changes that coordinate only. */
  lemma PutKeepsOthers(base: Map, m': Map, x: int, y: int, v: byte)
    requires Valid(base) && InWindow(base, x, y)
    requires m' == base.(cells := SetCell(base.cells, W, H, y - base.minY, x - base.minX, v), initialized := true)
    ensures Valid(m') && InWindow(m', x, y) && At(m', x, y) == v
    ensures forall x', y' :: InWindow(m', x', y') && (x', y') != (x, y) ==> At(m', x', y') == At(base, x', y')
  {
    forall x', y' | InWindow(m', x', y') && (x', y') != (x, y)
      ensures At(m', x', y') == At(base, x', y')
    {
      var r: nat, c: nat := y' - m'.minY, x' - m'.minX;
      assert At(m', x', y') == Cell(m'.cells, W, H, r, c);
    }
  }

  /**
   Set(x, y, value). The first call after a reset fixes the minimum at (x, y)
   and moves no data: each cell keeps its place in the array, so it now
   stands for a coordinate relative to (x, y). Later calls re-base first. The
   minimum is never raised, and afterwards (x, y) holds `v`; on an
   initialised map every other coordinate of the new window that the old
   window covered keeps its value, and the coordinates the window newly
   covers read EMPTY.
   */
  function Set(m: Map, x: int, y: int, v: byte): (m': Map)
    requires Valid(m) && CanSet(m, x, y)
    ensures Valid(m') && m'.initialized && InWindow(m', x, y) && At(m', x, y) == v
    ensures m'.minX <= x && (m'.minX == x || (m.initialized && m'.minX == m.minX))
    ensures m'.minY <= y && (m'.minY == y || (m.initialized && m'.minY == m.minY))
    ensures m.initialized ==> m'.minX <= m.minX && m'.minY <= m.minY
    ensures !m.initialized ==> m'.minX == x && m'.minY == y
    ensures !m.initialized ==> forall r: nat, c: nat :: r < H && c < W && (r, c) != (0, 0) ==>
              Cell(m'.cells, W, H, r, c) == Cell(m.cells, W, H, r, c)
    ensures m.initialized ==> forall x', y' :: InWindow(m', x', y') && (x', y') != (x, y) ==>
              At(m', x', y') == if InWindow(m, x', y') then At(m, x', y') else EMPTY
  {
    var base := if m.initialized then Rebase(m, x, y) else m.(minX := x, minY := y);
    var m' := base.(cells := SetCell(base.cells, W, H, y - base.minY, x - base.minX, v), initialized := true);
    PutKeepsOthers(base, m', x, y, v);
    m'
  }

  /**
   Starting from a blank map (as after Reset), the first Set leaves every
   coordinate other than (x, y) EMPTY, just as a re-basing Set leaves the
   coordinates it newly covers.
   */
  lemma FirstSetOnBlank(m: Map, x: int, y: int, v: byte)
    requires Valid(m) && CanSet(m, x, y) && !m.initialized && Blank(m.cells, W, H)
    ensures forall x', y' :: InWindow(Set(m, x, y, v), x', y') && (x', y') != (x, y) ==>
              At(Set(m, x, y, v), x', y') == EMPTY
  {
    var m' := Set(m, x, y, v);
    forall x', y' | InWindow(m', x', y') && (x', y') != (x, y)
      ensures At(m', x', y') == EMPTY
    {
      var r: nat, c: nat := y' - y, x' - x;
      assert (r, c) != (0, 0);
      assert At(m', x', y') == Cell(m'.cells, W, H, r, c) == Cell(m.cells, W, H, r, c);
    }
  }

  /** Initialized(): whether Set has run since the last Reset. */
  function Initialized(m: Map): bool
  {
    m.initialized
  }

  /** Reset(): memset of the whole struct to zero. */
  function Reset(): (m: Map)
    ensures Valid(m) && !Initialized(m) && Blank(m.cells, W, H)
    ensures m.minX == 0 && m.minY == 0
  {
    Map(Zeroed(W, H), 0, 0, false)
  }
}
