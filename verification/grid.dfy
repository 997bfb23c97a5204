/**
 The backing store of the map: a fixed W x H byte array kept in row-major
 order and viewed here as one flat sequence of w * h bytes, together with the
 two raw-memory routines that re-base it, `memmove` and the vacated-region
 `clear`. The dimensions are parameters so that the byte count used by `move`
 can be studied for non-square grids as well.
 */
module Grid {

  newtype byte = b: int | 0 <= b < 256

  /** The reserved "no entry" cell value; zero, like a freshly zeroed array. */
  const EMPTY: byte := 0

  /** Flat offset of row r, column c in a row-major grid with w columns. */
  function Offset(w: nat, r: nat, c: nat): int
  {
    r * w + c
  }

  predicate Fits(s: seq<byte>, w: nat, h: nat)
  {
    |s| == w * h
  }

  lemma MulMonotone(a: nat, b: nat, w: nat)
    requires a <= b
    ensures a * w <= b * w
  {
    assert b * w == a * w + (b - a) * w;
  }

  lemma OffsetInBounds(w: nat, h: nat, r: nat, c: nat)
    requires r < h && c < w
    ensures 0 <= Offset(w, r, c) < w * h
  {
    MulMonotone(r + 1, h, w);
    assert (r + 1) * w == r * w + w;
  }

  /** Distinct cells have distinct offsets. */
  lemma OffsetInjective(w: nat, r: nat, c: nat, r': nat, c': nat)
    requires c < w && c' < w
    requires Offset(w, r, c) == Offset(w, r', c')
    ensures r == r' && c == c'
  {
    if r < r' {
      assert (r + 1) * w == r * w + w;
      MulMonotone(r + 1, r', w);
    } else if r' < r {
      assert (r' + 1) * w == r' * w + w;
      MulMonotone(r' + 1, r, w);
    }
  }

  /** Division and remainder by the row stride recover row and column. */
  lemma OffsetDivMod(w: nat, r: nat, c: nat)
    requires c < w
    ensures Offset(w, r, c) / w == r && Offset(w, r, c) % w == c
  {
    var i := Offset(w, r, c);
    var q, m := i / w, i % w;
    assert q * w + m == i;
    assert q >= 0;
    OffsetInjective(w, q, m, r, c);
  }

  /** Every flat index of a w-column grid is the offset of some cell. */
  lemma IndexIsOffset(w: nat, h: nat, i: nat)
    requires i < w * h
    ensures w > 0 && i / w < h && i % w < w
    ensures i == Offset(w, i / w, i % w)
  {
    assert w > 0;
    var q, m := i / w, i % w;
    assert q * w + m == i;
    if q >= h {
      MulMonotone(h, q, w);
    }
  }

  /** The value at row r, column c. */
  function Cell(s: seq<byte>, w: nat, h: nat, r: nat, c: nat): byte
    requires Fits(s, w, h) && r < h && c < w
  {
    OffsetInBounds(w, h, r, c);
    s[Offset(w, r, c)]
  }

  /** Every cell holds EMPTY, as in a zeroed array. */
  predicate Blank(s: seq<byte>, w: nat, h: nat)
    requires Fits(s, w, h)
  {
    forall r: nat, c: nat :: r < h && c < w ==> Cell(s, w, h, r, c) == EMPTY
  }

  /** A zero-filled array, what memset(0) leaves behind. */
  function Zeroed(w: nat, h: nat): (s: seq<byte>)
    ensures Fits(s, w, h) && Blank(s, w, h)
  {
    var s := seq(w * h, _ => EMPTY);
    assert forall r: nat, c: nat :: r < h && c < w ==> Cell(s, w, h, r, c) == EMPTY by {
      forall r: nat, c: nat | r < h && c < w {
        OffsetInBounds(w, h, r, c);
      }
    }
    s
  }

  /** positions[r][c] = v: the one cell changes, every other cell keeps its value. */
  function SetCell(s: seq<byte>, w: nat, h: nat, r: nat, c: nat, v: byte): (t: seq<byte>)
    requires Fits(s, w, h) && r < h && c < w
    ensures Fits(t, w, h)
    ensures forall r': nat, c': nat :: r' < h && c' < w ==>
              Cell(t, w, h, r', c') == if r' == r && c' == c then v else Cell(s, w, h, r', c')
  {
    OffsetInBounds(w, h, r, c);
    var t := s[Offset(w, r, c) := v];
    assert forall r': nat, c': nat :: r' < h && c' < w ==>
             Cell(t, w, h, r', c') == if r' == r && c' == c then v else Cell(s, w, h, r', c') by {
      forall r': nat, c': nat | r' < h && c' < w
        ensures Cell(t, w, h, r', c') == if r' == r && c' == c then v else Cell(s, w, h, r', c')
      {
        OffsetInBounds(w, h, r', c');
        if Offset(w, r', c') == Offset(w, r, c) {
          OffsetInjective(w, r', c', r, c);
        }
      }
    }
    t
  }

  /** Two grids of the same shape are equal when they agree cell by cell. */
  lemma CellsDetermineGrid(s: seq<byte>, t: seq<byte>, w: nat, h: nat)
    requires Fits(s, w, h) && Fits(t, w, h)
    requires forall r: nat, c: nat :: r < h && c < w ==> Cell(s, w, h, r, c) == Cell(t, w, h, r, c)
    ensures s == t
  {
    forall i | 0 <= i < |s|
      ensures s[i] == t[i]
    {
      IndexIsOffset(w, h, i);
      assert Cell(s, w, h, i / w, i % w) == Cell(t, w, h, i / w, i % w);
    }
  }

  /**
   The C library's memmove on a flat byte array: the n bytes starting at src
   are copied to dst as if through a temporary buffer, so overlapping ranges
   are copied correctly; every other byte is left alone. Both ranges must lie
   inside the array.
   */
  function MemMove(s: seq<byte>, dst: nat, src: nat, n: nat): seq<byte>
    requires dst + n <= |s| && src + n <= |s|
  {
    seq(|s|, i requires 0 <= i < |s| => if dst <= i < dst + n then s[i - dst + src] else s[i])
  }

  /**
   memmove as a C library typically performs it: one byte at a time, front
   to back when the destination lies at or before the source, back to front
   otherwise, so that no source byte is overwritten before it is read. The
   result is exactly `MemMove`, the copy through a temporary buffer.
   */
  method CopyBytes(s: seq<byte>, dst: nat, src: nat, n: nat) returns (t: seq<byte>)
    requires dst + n <= |s| && src + n <= |s|
    ensures t == MemMove(s, dst, src, n)
  {
    if dst <= src {
      t := CopyForward(s, dst, src, n);
    } else {
      t := CopyBackward(s, dst, src, n);
    }
  }

  /** The front-to-back copy; safe because every byte read lies at or after the bytes already written. */
  method CopyForward(s: seq<byte>, dst: nat, src: nat, n: nat) returns (t: seq<byte>)
    requires dst + n <= |s| && src + n <= |s| && dst <= src
    ensures t == MemMove(s, dst, src, n)
  {
    t := s;
    var k := 0;
    while k < n
      invariant 0 <= k <= n && |t| == |s|
      invariant forall i :: dst <= i < dst + k ==> t[i] == s[i - dst + src]
      invariant forall i :: 0 <= i < |s| && !(dst <= i < dst + k) ==> t[i] == s[i]
    {
      t := t[dst + k := t[src + k]];
      k := k + 1;
    }
    assert forall i :: 0 <= i < |s| ==> t[i] == MemMove(s, dst, src, n)[i];
  }

  /** The back-to-front copy; safe because every byte read lies before the bytes already written. */
  method CopyBackward(s: seq<byte>, dst: nat, src: nat, n: nat) returns (t: seq<byte>)
    requires dst + n <= |s| && src + n <= |s| && src < dst
    ensures t == MemMove(s, dst, src, n)
  {
    t := s;
    var k := n;
    while k > 0
      invariant 0 <= k <= n && |t| == |s|
      invariant forall i :: dst + k <= i < dst + n ==> t[i] == s[i - dst + src]
      invariant forall i :: 0 <= i < |s| && !(dst + k <= i < dst + n) ==> t[i] == s[i]
    {
      k := k - 1;
      t := t[dst + k := t[src + k]];
    }
    assert forall i :: 0 <= i < |s| ==> t[i] == MemMove(s, dst, src, n)[i];
  }

  /**
   clear(delta_x, delta_y): every cell whose column is below dx or whose row
   is below dy becomes EMPTY; all other cells keep their value.
   */
  function Clear(s: seq<byte>, w: nat, h: nat, dx: nat, dy: nat): (t: seq<byte>)
    requires Fits(s, w, h)
    ensures Fits(t, w, h)
    ensures forall r: nat, c: nat :: r < h && c < w ==>
              Cell(t, w, h, r, c) == if c < dx || r < dy then EMPTY else Cell(s, w, h, r, c)
  {
    if w == 0 then s
    else
      var t := seq(|s|, i requires 0 <= i < |s| => if i % w < dx || i / w < dy then EMPTY else s[i]);
      ClearedCells(s, t, w, h, dx, dy);
      t
  }

  lemma ClearedCells(s: seq<byte>, t: seq<byte>, w: nat, h: nat, dx: nat, dy: nat)
    requires Fits(s, w, h) && |t| == |s| && w > 0
    requires forall i :: 0 <= i < |s| ==> t[i] == if i % w < dx || i / w < dy then EMPTY else s[i]
    ensures forall r: nat, c: nat :: r < h && c < w ==>
              Cell(t, w, h, r, c) == if c < dx || r < dy then EMPTY else Cell(s, w, h, r, c)
  {
    forall r: nat, c: nat | r < h && c < w
      ensures Cell(t, w, h, r, c) == if c < dx || r < dy then EMPTY else Cell(s, w, h, r, c)
    {
      OffsetDivMod(w, r, c);
      OffsetInBounds(w, h, r, c);
    }
  }

  /**
   The nested loops of clear(): rows outer, columns inner, writing EMPTY into
   each cell that lies left of column dx or above row dy.
   */
  method ClearRows(s: seq<byte>, w: nat, h: nat, dx: nat, dy: nat) returns (t: seq<byte>)
    requires Fits(s, w, h)
    ensures t == Clear(s, w, h, dx, dy)
  {
    var goal := Clear(s, w, h, dx, dy);
    t := s;
    var y := 0;
    while y < h
      invariant 0 <= y <= h
      invariant |t| == |s|
      invariant forall i :: 0 <= i < |s| ==> t[i] == if i < Offset(w, y, 0) then goal[i] else s[i]
    {
      var x := 0;
      while x < w
        invariant 0 <= x <= w
        invariant |t| == |s|
        invariant forall i :: 0 <= i < |s| ==> t[i] == if i < Offset(w, y, x) then goal[i] else s[i]
      {
        OffsetInBounds(w, h, y, x);
        assert Cell(goal, w, h, y, x) == if x < dx || y < dy then EMPTY else Cell(s, w, h, y, x);
        if x < dx || y < dy {
          t := t[Offset(w, y, x) := EMPTY];
        }
        x := x + 1;
      }
      assert Offset(w, y, w) == Offset(w, y + 1, 0);
      y := y + 1;
    }
  }

  /**
   Number of bytes move() hands to memmove, exactly as the source computes it:
   the row term multiplies delta_y by the grid HEIGHT although a row of the
   row-major array holds WIDTH bytes.
   */
  function MovedBytes(w: nat, h: nat, dx: nat, dy: nat): int
  {
    w * h - (dy * h + dx)
  }

  /** move()'s memmove stays inside the array (the C code has no check). */
  predicate MoveInBounds(w: nat, h: nat, dx: nat, dy: nat)
  {
    0 <= MovedBytes(w, h, dx, dy) && Offset(w, dy, dx) + MovedBytes(w, h, dx, dy) <= w * h
  }

  /**
   move(delta_x, delta_y) as written: memmove the array's first MovedBytes
   bytes to the address of row dy, column dx, then clear the vacated rows and
   columns. For a square grid this is exactly the two-dimensional shift
   `Shift`; for other shapes it is not (see MoveOverrunsWhenWide and
   MoveLeavesStaleTailWhenTall), which is why the map uses square dimensions.
   */
  function Move(s: seq<byte>, w: nat, h: nat, dx: nat, dy: nat): (t: seq<byte>)
    requires Fits(s, w, h) && MoveInBounds(w, h, dx, dy)
    ensures Fits(t, w, h)
    ensures w == h ==> t == Shift(s, w, h, dx, dy)
  {
    Clear(MemMove(s, Offset(w, dy, dx), 0, MovedBytes(w, h, dx, dy) as nat), w, h, dx, dy)
  }

  /** Bytes that must be moved so that every cell travels dy rows down and dx columns right. */
  function ShiftedBytes(w: nat, h: nat, dx: nat, dy: nat): int
  {
    w * h - Offset(w, dy, dx)
  }

  /**
   The re-basing move with the row stride used consistently: cell (r, c) of
   the result holds cell (r - dy, c - dx) of the input when both of those are
   non-negative, and EMPTY otherwise. Cells pushed past the right edge wrap
   into the next row's first dx columns, which the clear then empties.
   */
  function Shift(s: seq<byte>, w: nat, h: nat, dx: nat, dy: nat): (t: seq<byte>)
    requires Fits(s, w, h) && Offset(w, dy, dx) <= w * h
    ensures Fits(t, w, h)
    ensures forall r: nat, c: nat :: r < h && c < w ==>
              Cell(t, w, h, r, c) == if r >= dy && c >= dx then Cell(s, w, h, r - dy, c - dx) else EMPTY
  {
    var moved := MemMove(s, Offset(w, dy, dx), 0, ShiftedBytes(w, h, dx, dy) as nat);
    ShiftedCells(s, moved, w, h, dx, dy);
    Clear(moved, w, h, dx, dy)
  }

  lemma ShiftedCells(s: seq<byte>, moved: seq<byte>, w: nat, h: nat, dx: nat, dy: nat)
    requires Fits(s, w, h) && Offset(w, dy, dx) <= w * h
    requires moved == MemMove(s, Offset(w, dy, dx), 0, ShiftedBytes(w, h, dx, dy) as nat)
    ensures forall r: nat, c: nat :: r < h && c < w && r >= dy && c >= dx ==>
              Cell(moved, w, h, r, c) == Cell(s, w, h, r - dy, c - dx)
  {
    forall r: nat, c: nat | r < h && c < w && r >= dy && c >= dx
      ensures Cell(moved, w, h, r, c) == Cell(s, w, h, r - dy, c - dx)
    {
      OffsetInBounds(w, h, r, c);
      MulMonotone(dy, r, w);
      assert r * w - dy * w == (r - dy) * w;
      assert Offset(w, r, c) - Offset(w, dy, dx) == Offset(w, r - dy, c - dx);
    }
  }

  /** A move by (0, 0), which Set performs whenever no minimum drops, changes nothing. */
  lemma MoveZeroIsIdentity(s: seq<byte>, w: nat, h: nat)
    requires Fits(s, w, h)
    ensures MoveInBounds(w, h, 0, 0) && Move(s, w, h, 0, 0) == s
  {
    var moved := MemMove(s, 0, 0, |s|);
    assert moved == s;
    CellsDetermineGrid(Clear(s, w, h, 0, 0), s, w, h);
  }

  /**
   On a grid wider than it is tall, move() as written hands memmove more bytes
   than fit between the destination and the end of the array whenever it
   shifts by at least one row.
   */
  lemma MoveOverrunsWhenWide(w: nat, h: nat, dx: nat, dy: nat)
    requires h < w && 0 < dy
    ensures !MoveInBounds(w, h, dx, dy)
  {
    MulMonotone(h + 1, w, dy);
    assert (h + 1) * dy == h * dy + dy;
  }

  /**
   On a grid taller than it is wide, move() as written copies too few bytes:
   in a 2-wide, 3-tall grid holding 1..6, a shift down by one row should leave
   4 in the bottom-right cell, but the stale 6 stays there.
   */
  lemma MoveLeavesStaleTailWhenTall()
    ensures MoveInBounds(2, 3, 0, 1)
    ensures Cell(Move([1, 2, 3, 4, 5, 6], 2, 3, 0, 1), 2, 3, 2, 1) == 6
    ensures Cell(Shift([1, 2, 3, 4, 5, 6], 2, 3, 0, 1), 2, 3, 2, 1) == 4
  {
    var s: seq<byte> := [1, 2, 3, 4, 5, 6];
    var moved := MemMove(s, Offset(2, 1, 0), 0, MovedBytes(2, 3, 0, 1) as nat);
    assert Cell(moved, 2, 3, 2, 1) == 6;
  }
}
