/**
 The earlier revision of the map (map.cpp / map.h): the shared write path
 of `Storage`, an unchecked Get, and AllPositions, a row-major visitor over
 the whole window whose handler may rewrite the cell it is given and may
 stop the walk.
 */
module UncheckedMap {
  import opened Grid
  import opened Storage
  import opened History
  import Mapping

  /**
   Get(x, y) of map.cpp indexes positions[y - min_y][x - min_x] without a
   check, so (x, y) must lie in the window. There it reads what the checked
   Get of the later revision reads.
   */
  function Get(m: Map, x: int, y: int): (v: byte)
    requires Valid(m) && InWindow(m, x, y)
    ensures v == Mapping.Get(m, x, y)
  {
    Cell(m.cells, W, H, y - m.minY, x - m.minX)
  }

  /**
   For writes since a reset that meet the header's precondition, every
   written coordinate stays inside the window, re-basing included, and Get
   there returns its last written value; the rest of the window reads EMPTY.
   */
  lemma GetReturnsLastWrite(ws: seq<Write>)
    requires SpreadOk(ws)
    ensures forall x, y :: Written(ws, x, y) ==> InWindow(Replay(ws), x, y)
    ensures forall x, y :: InWindow(Replay(ws), x, y) ==> Get(Replay(ws), x, y) == LastWrite(ws, x, y)
  {
    Mapping.GetReturnsLastWrite(ws);
  }

  /** After Reset the map is uninitialised and its whole window reads EMPTY. */
  lemma ResetEmptiesMap()
    ensures !Initialized(Reset())
    ensures forall x, y :: InWindow(Reset(), x, y) ==> Get(Reset(), x, y) == EMPTY
  {
  }

  datatype Pos = Pos(x: int, y: int)

  /**
   A PositionHandler: given the absolute coordinate and the cell's value it
   returns whether to go on, and the value it leaves in the cell (it writes
   through the pointer it is handed, whether or not it stops the walk).
   */
  type Handler = (int, int, byte) -> (bool, byte)

  /** The coordinate of the k-th cell of the array in row-major order. */
  function PositionOf(m: Map, k: nat): Pos
  {
    Pos(k % W + m.minX, k / W + m.minY)
  }

  /** What the handler answers for the cell at p. */
  function Visit(handler: Handler, m: Map, p: Pos): (bool, byte)
    requires Valid(m) && InWindow(m, p.x, p.y)
  {
    handler(p.x, p.y, At(m, p.x, p.y))
  }

  /** The k-th cell in row-major order lies in the window and is cells[k]; distinct k give distinct cells. */
  lemma PositionOfCell(m: Map, k: nat)
    requires Valid(m) && k < W * H
    ensures InWindow(m, PositionOf(m, k).x, PositionOf(m, k).y)
    ensures At(m, PositionOf(m, k).x, PositionOf(m, k).y) == m.cells[k]
  {
    IndexIsOffset(W, H, k);
  }

  /** Walking the first n cells: what the loops of AllPositions have done after n handler calls. */
  ghost predicate Walked(m: Map, handler: Handler, cells: seq<byte>, visited: seq<Pos>)
  {
    && Valid(m) && |cells| == W * H && |visited| <= W * H
    && (forall k :: 0 <= k < |visited| ==> visited[k] == PositionOf(m, k))
    && (forall k :: 0 <= k < |visited| ==> cells[k] == handler(visited[k].x, visited[k].y, m.cells[k]).1)
    && (forall k :: |visited| <= k < W * H ==> cells[k] == m.cells[k])
  }

  /** Visited cells lie in the window, and the handler saw the value each held before the walk. */
  lemma WalkedPositions(m: Map, handler: Handler, cells: seq<byte>, visited: seq<Pos>)
    requires Walked(m, handler, cells, visited)
    ensures forall k :: 0 <= k < |visited| ==> InWindow(m, visited[k].x, visited[k].y)
    ensures forall k :: 0 <= k < |visited| ==> Visit(handler, m, visited[k]) == handler(visited[k].x, visited[k].y, m.cells[k])
  {
    forall k | 0 <= k < |visited|
      ensures InWindow(m, visited[k].x, visited[k].y)
      ensures Visit(handler, m, visited[k]) == handler(visited[k].x, visited[k].y, m.cells[k])
    {
      PositionOfCell(m, k);
    }
  }

  /** Each visited cell now holds what the handler left in it. */
  lemma WalkedValues(m: Map, handler: Handler, cells: seq<byte>, visited: seq<Pos>)
    requires Walked(m, handler, cells, visited)
    ensures Valid(m.(cells := cells))
    ensures forall k :: 0 <= k < |visited| ==>
              InWindow(m, visited[k].x, visited[k].y) &&
              At(m.(cells := cells), visited[k].x, visited[k].y) == Visit(handler, m, visited[k]).1
  {
    var m' := m.(cells := cells);
    WalkedPositions(m, handler, cells, visited);
    forall k | 0 <= k < |visited|
      ensures At(m', visited[k].x, visited[k].y) == Visit(handler, m, visited[k]).1
    {
      var p := visited[k];
      assert PositionOf(m', k) == p;
      PositionOfCell(m', k);
      assert At(m', p.x, p.y) == cells[k] == handler(p.x, p.y, m.cells[k]).1;
    }
  }

  /** No cell is visited twice. */
  lemma WalkedDistinct(m: Map, handler: Handler, cells: seq<byte>, visited: seq<Pos>)
    requires Walked(m, handler, cells, visited)
    ensures forall i, j :: 0 <= i < j < |visited| ==> visited[i] != visited[j]
  {
    forall i, j | 0 <= i < j < |visited|
      ensures visited[i] != visited[j]
    {
      IndexIsOffset(W, H, i);
      IndexIsOffset(W, H, j);
    }
  }

  /** Cells not visited keep their value; a full walk visits every cell of the window. */
  lemma WalkedRest(m: Map, handler: Handler, cells: seq<byte>, visited: seq<Pos>)
    requires Walked(m, handler, cells, visited)
    ensures Valid(m.(cells := cells))
    ensures forall x, y :: InWindow(m, x, y) && Pos(x, y) !in visited ==>
              At(m.(cells := cells), x, y) == At(m, x, y)
    ensures |visited| == W * H ==> forall x, y :: InWindow(m, x, y) ==> Pos(x, y) in visited
  {
    var m' := m.(cells := cells);
    assert Valid(m');
    forall x, y | InWindow(m, x, y)
      ensures Pos(x, y) !in visited ==> At(m', x, y) == At(m, x, y)
      ensures |visited| == W * H ==> Pos(x, y) in visited
    {
      var k := Offset(W, y - m.minY, x - m.minX);
      OffsetInBounds(W, H, y - m.minY, x - m.minX);
      OffsetDivMod(W, y - m.minY, x - m.minX);
      if k < |visited| {
        assert visited[k] == Pos(x, y);
      }
    }
  }

  /** Cell (r, c) of the window is the (r * W + c)-th cell of the array in row-major order. */
  lemma RowMajor(r: nat, c: nat)
    requires r < H && c < W
    ensures r * W + c < W * H && (r * W + c) / W == r && (r * W + c) % W == c
  {
    OffsetInBounds(W, H, r, c);
    OffsetDivMod(W, r, c);
  }

  /** One more handler call extends the walk by the next cell in row-major order. */
  lemma WalkStep(m: Map, handler: Handler, cells: seq<byte>, visited: seq<Pos>)
    requires Walked(m, handler, cells, visited) && |visited| < W * H
    ensures var p := PositionOf(m, |visited|);
            Walked(m, handler, cells[|visited| := handler(p.x, p.y, cells[|visited|]).1], visited + [p])
  {
  }

  /**
   The inner loop of AllPositions: row y, left to right, until the row ends
   (go) or the handler says stop (!go, the stopping cell visited last).
   */
  method WalkRow(m: Map, handler: Handler, y: nat, cells: seq<byte>, visited: seq<Pos>)
    returns (go: bool, cells': seq<byte>, visited': seq<Pos>)
    requires y < H && |visited| == y * W && Walked(m, handler, cells, visited)
    requires forall k :: 0 <= k < |visited| ==> handler(visited[k].x, visited[k].y, m.cells[k]).0
    ensures Walked(m, handler, cells', visited') && |visited| < |visited'| <= |visited| + W
    ensures go ==> |visited'| == (y + 1) * W
    ensures forall k :: 0 <= k < |visited'| - 1 ==> handler(visited'[k].x, visited'[k].y, m.cells[k]).0
    ensures go == handler(visited'[|visited'| - 1].x, visited'[|visited'| - 1].y, m.cells[|visited'| - 1]).0
  {
    cells', visited' := cells, visited;
    var x := 0;
    go := true;
    while x < W
      invariant 0 <= x <= W
      invariant |visited'| == y * W + x
      invariant Walked(m, handler, cells', visited')
      invariant forall k :: 0 <= k < |visited'| ==> handler(visited'[k].x, visited'[k].y, m.cells[k]).0
    {
      var k := y * W + x;
      RowMajor(y, x);
      assert PositionOf(m, k) == Pos(x + m.minX, y + m.minY);
      assert cells'[k] == m.cells[k];
      var v;
      go, v := handler(x + m.minX, y + m.minY, cells'[k]).0, handler(x + m.minX, y + m.minY, cells'[k]).1;
      WalkStep(m, handler, cells', visited');
      cells' := cells'[k := v];
      visited' := visited' + [Pos(x + m.minX, y + m.minY)];
      if !go {
        return;
      }
      x := x + 1;
    }
  }

  /** Every cell of the window is among the visited positions. */
  ghost predicate CoversWindow(m: Map, visited: seq<Pos>)
  {
    forall x, y :: InWindow(m, x, y) ==> Pos(x, y) in visited
  }

  /** A handler that never asks to stop. */
  ghost predicate NeverStops(handler: Handler)
  {
    forall x, y, v :: handler(x, y, v).0
  }

  /**
   The outer loop of AllPositions: rows top to bottom, each walked by
   WalkRow, until a row ends in a stop or all rows are done.
   */
  method WalkRows(m: Map, handler: Handler) returns (complete: bool, cells: seq<byte>, visited: seq<Pos>)
    requires Valid(m)
    ensures Walked(m, handler, cells, visited) && |visited| > 0
    ensures complete ==> |visited| == W * H
    ensures forall k :: 0 <= k < |visited| - 1 ==> handler(visited[k].x, visited[k].y, m.cells[k]).0
    ensures complete == handler(visited[|visited| - 1].x, visited[|visited| - 1].y, m.cells[|visited| - 1]).0
  {
    cells := m.cells;
    visited := [];
    complete := true;
    var y := 0;
    while y < H
      invariant 0 <= y <= H
      invariant |visited| == y * W
      invariant Walked(m, handler, cells, visited)
      invariant forall k :: 0 <= k < |visited| ==> handler(visited[k].x, visited[k].y, m.cells[k]).0
    {
      var go;
      go, cells, visited := WalkRow(m, handler, y, cells, visited);
      if !go {
        complete := false;
        return;
      }
      y := y + 1;
    }
  }

  /** Which cells a walk visited, in what order, and why it ended. */
  lemma WalkOrder(m: Map, handler: Handler, complete: bool, cells: seq<byte>, visited: seq<Pos>)
    requires Walked(m, handler, cells, visited)
    requires complete ==> |visited| == W * H
    requires forall k :: 0 <= k < |visited| - 1 ==> handler(visited[k].x, visited[k].y, m.cells[k]).0
    requires |visited| > 0
    requires complete == handler(visited[|visited| - 1].x, visited[|visited| - 1].y, m.cells[|visited| - 1]).0
    ensures forall k :: 0 <= k < |visited| ==> InWindow(m, visited[k].x, visited[k].y)
    ensures forall i, j :: 0 <= i < j < |visited| ==> visited[i] != visited[j]
    ensures forall k :: 0 <= k < |visited| - 1 ==> Visit(handler, m, visited[k]).0
    ensures complete ==> Visit(handler, m, visited[|visited| - 1]).0
    ensures complete ==> CoversWindow(m, visited)
    ensures !complete ==> !Visit(handler, m, visited[|visited| - 1]).0
    ensures NeverStops(handler) ==> complete
  {
    WalkedPositions(m, handler, cells, visited);
    WalkedDistinct(m, handler, cells, visited);
    WalkedRest(m, handler, cells, visited);
    var last := visited[|visited| - 1];
    assert Visit(handler, m, last) == handler(last.x, last.y, m.cells[|visited| - 1]);
  }

  /** Each visited cell of m' holds what the handler left in it. */
  ghost predicate HandlerWritesLand(m: Map, handler: Handler, m': Map, visited: seq<Pos>)
    requires Valid(m) && Valid(m')
  {
    forall k :: 0 <= k < |visited| ==>
      && InWindow(m, visited[k].x, visited[k].y) && InWindow(m', visited[k].x, visited[k].y)
      && At(m', visited[k].x, visited[k].y) == Visit(handler, m, visited[k]).1
  }

  /** Every cell of the window that was not visited reads in m' what it read in m. */
  ghost predicate OthersUnchanged(m: Map, m': Map, visited: seq<Pos>)
    requires Valid(m) && Valid(m')
  {
    forall x, y :: InWindow(m, x, y) && Pos(x, y) !in visited ==>
      InWindow(m', x, y) && At(m', x, y) == At(m, x, y)
  }

  /** What a walk left in the cells: the handler's values where it went, the old ones elsewhere. */
  lemma WalkEffect(m: Map, handler: Handler, cells: seq<byte>, visited: seq<Pos>)
    requires Walked(m, handler, cells, visited)
    ensures Valid(m.(cells := cells))
    ensures HandlerWritesLand(m, handler, m.(cells := cells), visited)
    ensures OthersUnchanged(m, m.(cells := cells), visited)
  {
    WalkedValues(m, handler, cells, visited);
    WalkedRest(m, handler, cells, visited);
  }

  /**
   AllPositions(handler): calls the handler on the cells of the window in
   row-major order, at absolute coordinates (c + min_x, r + min_y), each
   cell once, until the handler says stop. It returns true exactly when
   every one of the W * H cells was visited and the handler never said stop.
   Each handler write lands in the cell being visited; cells after the stop
   are neither visited nor changed; the minimum and the initialised flag are
   untouched.
   */
  method AllPositions(m: Map, handler: Handler) returns (complete: bool, m': Map, visited: seq<Pos>)
    requires Valid(m)
    ensures Valid(m') && m'.minX == m.minX && m'.minY == m.minY && m'.initialized == m.initialized
    ensures |visited| <= W * H
    ensures forall k :: 0 <= k < |visited| ==> visited[k] == PositionOf(m, k)
    ensures forall k :: 0 <= k < |visited| ==> InWindow(m, visited[k].x, visited[k].y)
    ensures forall i, j :: 0 <= i < j < |visited| ==> visited[i] != visited[j]
    ensures forall k :: 0 <= k < |visited| - 1 ==> Visit(handler, m, visited[k]).0
    ensures complete ==> |visited| == W * H && Visit(handler, m, visited[|visited| - 1]).0
    ensures complete ==> CoversWindow(m, visited)
    ensures !complete ==> |visited| > 0 && !Visit(handler, m, visited[|visited| - 1]).0
    ensures NeverStops(handler) ==> complete
    ensures HandlerWritesLand(m, handler, m', visited)
    ensures OthersUnchanged(m, m', visited)
  {
    var cells;
    complete, cells, visited := WalkRows(m, handler);
    WalkOrder(m, handler, complete, cells, visited);
    WalkEffect(m, handler, cells, visited);
    m' := m.(cells := cells);
  }
}
