/**
 What a sequence of Set calls since the last Reset leaves in the map. The
 reference meaning of the map is "each coordinate reads the value of its
 last write, or EMPTY"; `Replay` runs the writes through `Storage.Set`, and
 its contract says the two agree, re-basing included, whenever the writes
 meet the header's precondition.
 */
module History {
  import opened Grid
  import opened Storage

  datatype Write = Write(x: int, y: int, value: byte)

  /**
   The header's precondition for a whole run of Set calls: every coordinate
   in [-W, W) x [-H, H), and highest minus lowest below W for x and below H
   for y, i.e. any two written coordinates differ by less than that.
   */
  predicate SpreadOk(ws: seq<Write>)
  {
    && (forall i :: 0 <= i < |ws| ==> InRange(ws[i].x, ws[i].y))
    && (forall i, j :: 0 <= i < |ws| && 0 <= j < |ws| ==> ws[i].x - ws[j].x < W && ws[i].y - ws[j].y < H)
  }

  ghost predicate Written(ws: seq<Write>, x: int, y: int)
  {
    exists i :: 0 <= i < |ws| && ws[i].x == x && ws[i].y == y
  }

  /** The value of the last write to (x, y), or EMPTY if there is none. */
  function LastWrite(ws: seq<Write>, x: int, y: int): byte
  {
    if |ws| == 0 then EMPTY
    else if ws[|ws| - 1].x == x && ws[|ws| - 1].y == y then ws[|ws| - 1].value
    else LastWrite(ws[..|ws| - 1], x, y)
  }

  lemma {:induction false} UnwrittenIsEmpty(ws: seq<Write>, x: int, y: int)
    requires !Written(ws, x, y)
    ensures LastWrite(ws, x, y) == EMPTY
  {
    if |ws| > 0 {
      UnwrittenIsEmpty(ws[..|ws| - 1], x, y);
    }
  }

  /**
   m is what the writes ws leave behind: it is initialised exactly when
   there was a write (and blank until then), its minimum is the least written x and the least
   written y, every written coordinate lies in its window, and every cell of
   the window reads the last value written there (EMPTY if none).
   */
  ghost predicate Reflects(m: Map, ws: seq<Write>)
  {
    && Valid(m)
    && m.initialized == (|ws| > 0)
    && (!m.initialized ==> Blank(m.cells, W, H))
    && (forall i :: 0 <= i < |ws| ==> InWindow(m, ws[i].x, ws[i].y))
    && (|ws| > 0 ==> exists i :: 0 <= i < |ws| && ws[i].x == m.minX)
    && (|ws| > 0 ==> exists j :: 0 <= j < |ws| && ws[j].y == m.minY)
    && (forall x, y :: InWindow(m, x, y) ==> At(m, x, y) == LastWrite(ws, x, y))
  }

  /** The header's precondition over the writes so far makes the next write a legal Set. */
  lemma NextSetAllowed(m: Map, ws: seq<Write>, w: Write)
    requires Reflects(m, ws) && SpreadOk(ws + [w])
    ensures CanSet(m, w.x, w.y)
  {
    var all := ws + [w];
    assert all[|ws|] == w;
    if |ws| > 0 {
      var i :| 0 <= i < |ws| && ws[i].x == m.minX;
      var j :| 0 <= j < |ws| && ws[j].y == m.minY;
      assert all[i] == ws[i] && all[j] == ws[j];
    }
  }

  /** The first write after a reset: the blank map now holds exactly that write. */
  lemma FirstSetReflected(m: Map, w: Write)
    requires Reflects(m, []) && InRange(w.x, w.y)
    ensures Reflects(Set(m, w.x, w.y, w.value), [w])
  {
    var m' := Set(m, w.x, w.y, w.value);
    FirstSetOnBlank(m, w.x, w.y, w.value);
    assert [w][..0] == [];
    forall x, y | InWindow(m', x, y)
      ensures At(m', x, y) == LastWrite([w], x, y)
    {
    }
  }

  /** A later write keeps every write in the window and the minimum attained by a write. */
  lemma LaterSetBounds(m: Map, ws: seq<Write>, w: Write)
    requires |ws| > 0 && Reflects(m, ws) && SpreadOk(ws + [w]) && CanSet(m, w.x, w.y)
    ensures forall i :: 0 <= i < |ws + [w]| ==> InWindow(Set(m, w.x, w.y, w.value), (ws + [w])[i].x, (ws + [w])[i].y)
    ensures exists i :: 0 <= i < |ws + [w]| && (ws + [w])[i].x == Set(m, w.x, w.y, w.value).minX
    ensures exists j :: 0 <= j < |ws + [w]| && (ws + [w])[j].y == Set(m, w.x, w.y, w.value).minY
  {
    var m' := Set(m, w.x, w.y, w.value);
    var all := ws + [w];
    assert all[|ws|] == w;
    forall i | 0 <= i < |all|
      ensures InWindow(m', all[i].x, all[i].y)
    {
      if i < |ws| {
        assert all[i] == ws[i];
      }
    }
    if m'.minX != w.x {
      var i :| 0 <= i < |ws| && ws[i].x == m.minX;
      assert all[i] == ws[i];
    }
    if m'.minY != w.y {
      var j :| 0 <= j < |ws| && ws[j].y == m.minY;
      assert all[j] == ws[j];
    }
  }

  /** A later write: each cell of the re-based window reads its last write. */
  lemma LaterSetValues(m: Map, ws: seq<Write>, w: Write)
    requires |ws| > 0 && Reflects(m, ws) && CanSet(m, w.x, w.y)
    ensures forall x, y :: InWindow(Set(m, w.x, w.y, w.value), x, y) ==>
              At(Set(m, w.x, w.y, w.value), x, y) == LastWrite(ws + [w], x, y)
  {
    var m' := Set(m, w.x, w.y, w.value);
    var all := ws + [w];
    assert all[..|ws|] == ws;
    forall x, y | InWindow(m', x, y)
      ensures At(m', x, y) == LastWrite(all, x, y)
    {
      if !(x == w.x && y == w.y) && !InWindow(m, x, y) {
        UnwrittenIsEmpty(ws, x, y);
      }
    }
  }

  lemma NextSetReflected(m: Map, ws: seq<Write>, w: Write)
    requires Reflects(m, ws) && SpreadOk(ws + [w]) && CanSet(m, w.x, w.y)
    ensures Reflects(Set(m, w.x, w.y, w.value), ws + [w])
  {
    if |ws| == 0 {
      assert ws + [w] == [w];
      assert InRange(w.x, w.y) by { assert (ws + [w])[0] == w; }
      FirstSetReflected(m, w);
    } else {
      LaterSetBounds(m, ws, w);
      LaterSetValues(m, ws, w);
    }
  }

  /** The map left by the writes ws, each applied with Set, starting from Reset. */
  function Replay(ws: seq<Write>): (m: Map)
    requires SpreadOk(ws)
    ensures Reflects(m, ws)
    decreases |ws|
  {
    if |ws| == 0 then Reset()
    else
      var ps := ws[..|ws| - 1];
      var w := ws[|ws| - 1];
      assert ps + [w] == ws;
      var prev := Replay(ps);
      NextSetAllowed(prev, ps, w);
      NextSetReflected(prev, ps, w);
      Set(prev, w.x, w.y, w.value)
  }

  /**
   The header's precondition, stated over the coordinates written since the
   last reset, makes every further write meet Set's precondition.
   */
  lemma SpreadAllowsEverySet(ws: seq<Write>, w: Write)
    requires SpreadOk(ws + [w])
    ensures SpreadOk(ws) && CanSet(Replay(ws), w.x, w.y)
  {
    var all := ws + [w];
    assert forall i :: 0 <= i < |ws| ==> all[i] == ws[i];
    NextSetAllowed(Replay(ws), ws, w);
  }
}
