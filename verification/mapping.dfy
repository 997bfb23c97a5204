/**
 The later revision of the map (mapping.cpp / mapping.h): the shared write
 path of `Storage`, read back through a bounds-checked Get that answers
 EMPTY outside the window instead of indexing out of the array. Its
 resumable cursor is in module `Cursor`.
 */
module Mapping {
  import opened Grid
  import opened Storage
  import opened History

  /**
   Get(x, y): EMPTY for every coordinate outside [minX, minX + W) x
   [minY, minY + H); inside, the cell positions[y - min_y][x - min_x].
   */
  function Get(m: Map, x: int, y: int): (v: byte)
    requires Valid(m)
    ensures !InWindow(m, x, y) ==> v == EMPTY
    ensures InWindow(m, x, y) ==> v == At(m, x, y)
  {
    if x < m.minX || y < m.minY || x >= W + m.minX || y >= H + m.minY then EMPTY
    else Cell(m.cells, W, H, y - m.minY, x - m.minX)
  }

  /**
   After Set(x, y, v), Get(x, y) is v and the map is initialised. On an
   initialised map, or a blank one, every other coordinate reads what it
   read before if the new window holds it, and EMPTY otherwise.
   */
  lemma SetThenGet(m: Map, x: int, y: int, v: byte)
    requires Valid(m) && CanSet(m, x, y)
    ensures Get(Set(m, x, y, v), x, y) == v
    ensures Initialized(Set(m, x, y, v))
    ensures m.initialized || Blank(m.cells, W, H) ==>
              forall x', y' :: (x', y') != (x, y) ==>
                Get(Set(m, x, y, v), x', y') == if InWindow(Set(m, x, y, v), x', y') then Get(m, x', y') else EMPTY
  {
    if !m.initialized && Blank(m.cells, W, H) {
      FirstSetOnBlank(m, x, y, v);
    }
  }

  /** A reset map is uninitialised, based at (0, 0), and reads EMPTY everywhere. */
  lemma ResetEmptiesMap()
    ensures !Initialized(Reset()) && Reset().minX == 0 && Reset().minY == 0
    ensures forall x, y :: Get(Reset(), x, y) == EMPTY
  {
  }

  /**
   For any run of writes since a reset that meets the header's precondition,
   Get returns the last value written at each coordinate and EMPTY at every
   coordinate never written, however often the window was re-based; the map
   is initialised exactly when there was a write.
   */
  lemma GetReturnsLastWrite(ws: seq<Write>)
    requires SpreadOk(ws)
    ensures Initialized(Replay(ws)) <==> |ws| > 0
    ensures forall x, y :: Get(Replay(ws), x, y) == LastWrite(ws, x, y)
  {
    var m := Replay(ws);
    forall x, y
      ensures Get(m, x, y) == LastWrite(ws, x, y)
    {
      if !InWindow(m, x, y) {
        UnwrittenIsEmpty(ws, x, y);
      }
    }
  }

  /**
   Why EMPTY must not be stored as a payload: writing it into a fresh map
   reads back exactly like the untouched map at every coordinate, although
   the map now counts as initialised.
   */
  lemma StoredEmptyIsInvisible(x: int, y: int)
    requires InRange(x, y)
    ensures Initialized(Set(Reset(), x, y, EMPTY)) && !Initialized(Reset())
    ensures forall x', y' :: Get(Set(Reset(), x, y, EMPTY), x', y') == Get(Reset(), x', y')
  {
  }

  /**
   Writing (0, 0) = 5, (1, 0) = 7 and then (-1, 0) = 9 re-bases the window
   one column to the left and keeps the earlier values.
   */
  lemma RebaseScenario()
    ensures var ws := [Write(0, 0, 5), Write(1, 0, 7), Write(-1, 0, 9)];
            SpreadOk(ws) &&
            Get(Replay(ws), -1, 0) == 9 && Get(Replay(ws), 0, 0) == 5 &&
            Get(Replay(ws), 1, 0) == 7 && Get(Replay(ws), 2, 0) == EMPTY
  {
    var ws := [Write(0, 0, 5), Write(1, 0, 7), Write(-1, 0, 9)];
    assert SpreadOk(ws);
    RebaseWrites(ws);
    GetReturnsLastWrite(ws);
  }

  lemma RebaseWrites(ws: seq<Write>)
    requires ws == [Write(0, 0, 5), Write(1, 0, 7), Write(-1, 0, 9)]
    ensures LastWrite(ws, -1, 0) == 9 && LastWrite(ws, 0, 0) == 5
    ensures LastWrite(ws, 1, 0) == 7 && LastWrite(ws, 2, 0) == EMPTY
  {
    var ws2, ws1 := ws[..2], ws[..2][..1];
    assert ws2 == [Write(0, 0, 5), Write(1, 0, 7)] && ws1 == [Write(0, 0, 5)] && ws1[..0] == [];
    assert LastWrite(ws, 0, 0) == LastWrite(ws2, 0, 0) == LastWrite(ws1, 0, 0);
    assert LastWrite(ws, 1, 0) == LastWrite(ws2, 1, 0);
    assert LastWrite(ws, 2, 0) == LastWrite(ws2, 2, 0) == LastWrite(ws1, 2, 0) == LastWrite([], 2, 0);
  }
}
