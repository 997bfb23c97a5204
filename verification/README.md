# blinks-map in Dafny

A model of the Blinks map module: a fixed W x H byte window keyed by signed
axial hex coordinates. Coordinate (x, y) lives at `positions[y - min_y][x - min_x]`.
A write below the current minimum lowers the minimum, shifts the array with one
flat `memmove`, and then clears the vacated rows and columns. The value 0
(`EMPTY`) means "no entry".

The module exists in two revisions, and the model covers both:

- **Revision B** (`mapping.cpp`, `mapping.h`):
  - `Get` is bounds-checked.
  - A resumable cursor (`GetNextValidPosition`, `GetNextValidPositionAround`) scans the map.
- **Revision A** (`map.cpp`, `map.h`):
  - `Get` is unchecked.
  - `AllPositions` is a row-major visitor whose handler may rewrite the cell it is handed and may stop the walk.

Modules:

- `Grid` models the flat row-major byte array:
  - cell access and `memmove`;
  - `clear`, including its nested loops;
  - `move` with its byte count exactly as written;
  - `Shift`, the two-dimensional shift that `move` is meant to perform.

  `Grid` is generic in the width and height, so the non-square failures of `move` can be stated.
- `Storage` holds the state record and the write path that both revisions share: `Set`, the re-base, `Initialized` and `Reset`. `W = H = 8`.
- `History` gives the reference meaning of a map: each coordinate reads its last write, or `EMPTY`. It also covers the header's precondition over a whole run of writes. `Replay` applies a run of writes with `Set`, and its contract says the map reflects the run.
- `Mapping` is revision B's checked `Get` and the read-back properties.
- `UncheckedMap` is revision A's unchecked `Get` and `AllPositions`.
- `Cursor` is revision B's cursor as written.
- `CorrectedCursor` is the scan that the cursor evidently intends.

Where the code's comments and its statements disagree, the model follows the statements.

- **Cursor.** The comment at mapping.cpp:62-63 says a hit advances the cursor so that the next call starts at the following position, and the row loop at mapping.cpp:47 runs up to end_y. Line 70 never rewinds curr_x, however, so once the first row is done the inner loop does nothing and only the start row is ever scanned; and the declaration at lines 57-58 makes a hit return 1 rather than the stored byte (see Findings).
- **Blank state before the first `Set`.** mapping.h:44-49 says `Initialized()` is true once `Set` has run since the last `Reset()`, and that `Reset()` empties the map. In revision A, however, `AllPositions` (map.cpp:71-82) walks and lets its handler write the array whatever the flag says, so a map can be uninitialised without being blank. For that reason `Storage.Valid` is only the shape invariant. `Set`'s contract then separates two cases:
  - the first write, which moves no data;
  - a later write, which re-bases the window.

## Model

| member | source | states |
|---|---|---|
| `Grid.Clear` | mapping.cpp:23-32 | Every cell whose column is below delta_x or whose row is below delta_y becomes EMPTY. Every other cell keeps its value. |
| `Grid.ClearRows` | map.cpp:22-30 | The nested row/column loops of clear compute exactly `Clear`. |
| `Grid.CopyBytes` | mapping.cpp:38-40 | A byte-by-byte copy, front to back when dst <= src and back to front otherwise, yields exactly `MemMove`: the n bytes from src appear at dst as if copied through a buffer, overlapping ranges included, and every other byte is unchanged. |
| `Grid.Move` | mapping.cpp:34-43 | move as written: memmove with the literal count `W*H - (dy*H + dx)`, then clear. On a square grid it equals the two-dimensional shift `Shift`. |
| `Grid.Shift` | mapping.cpp:34-36 | The intended re-base: cell (r, c) takes the old cell (r - dy, c - dx) when r >= dy and c >= dx, and is EMPTY otherwise. |
| `Grid.MoveZeroIsIdentity` | map.cpp:35-40 | move(0, 0), which Set performs when no minimum drops, changes nothing. |
| `Grid.MoveOverrunsWhenWide` | mapping.cpp:38-40 | On a grid wider than it is tall, any shift by at least one row makes memmove run past the end of the array. |
| `Grid.MoveLeavesStaleTailWhenTall` | map.cpp:36-37 | In a 2-wide, 3-tall grid holding 1..6, a shift down one row leaves the stale 6 in cell (2, 1) where the shift puts 4. |
| `Grid.SetCell` | map.cpp:62 | Writing positions[r][c] changes that one cell and no other. |
| `Storage.Rebase` | mapping.cpp:94-107 | Lowering the minimum is a change of frame. Each absolute coordinate of the new window reads what it read in the old window, or EMPTY if the old window did not cover it. The new minimum is the old one or the written coordinate, whichever is lower. |
| `Storage.Set` | map.cpp:42-65 | Afterwards (x, y) is in the window and holds v, and the map is initialised. The first call fixes min := (x, y) and leaves every other cell in place. Later calls only lower the minimum, to min(old, x) and min(old, y). They keep every other coordinate that both the old and the new window cover, and show EMPTY at newly covered ones. A coordinate the re-base pushes out of the window is lost; the header's spread condition rules this out for written coordinates (`History.Replay`). |
| `Storage.FirstSetOnBlank` | mapping.cpp:108-113 | On a blank map, the first Set leaves every coordinate other than (x, y) EMPTY. |
| `Storage.Initialized` | mapping.cpp:142 | Returns the initialised flag. What the flag means, true exactly when Set ran since the last Reset, is proved over every legal run of writes in `Mapping.GetReturnsLastWrite`. |
| `Storage.Reset` | mapping.cpp:144 | The zeroed struct is uninitialised, has its minimum at (0, 0), and every cell is EMPTY. |
| `History.NextSetAllowed` | mapping.h:28-33 | The header's range and spread condition over the writes so far and the next write makes that write meet Set's per-call precondition. |
| `History.SpreadAllowsEverySet` | map.h:26-31 | The header's condition over a run of writes implies Set's precondition at every step of the run. |
| `History.UnwrittenIsEmpty` | mapping.h:18-20 | A coordinate never written reads EMPTY in the reference meaning. |
| `History.Replay` | mapping.cpp:93-116 | After a run of writes since Reset that meets the header's condition, the map satisfies four things. It is initialised exactly when there was a write. Every written coordinate is in the window. Its minimum is the least written x and the least written y. Each window cell holds its last written value. |
| `Mapping.Get` | mapping.cpp:118-125 | EMPTY outside [min_x, min_x + W) x [min_y, min_y + H). Inside, the cell at positions[y - min_y][x - min_x], so the array is never read out of bounds. |
| `Mapping.SetThenGet` | mapping.cpp:93-125 | After Set(x, y, v), Get(x, y) == v and Initialized() holds. On an initialised or blank map, every other coordinate reads as before if the new window covers it, and EMPTY otherwise. |
| `Mapping.ResetEmptiesMap` | mapping.cpp:142-144 | After Reset, Initialized() is false, the minimum is (0, 0), and Get is EMPTY at every coordinate. |
| `Mapping.GetReturnsLastWrite` | mapping.h:35-46 | For every run of legal writes since Reset, Get(x, y) is the last value written at (x, y), or EMPTY, across re-basing. Initialized() holds exactly when there was a write. |
| `Mapping.StoredEmptyIsInvisible` | mapping.h:18-20 | Storing EMPTY is indistinguishable through Get from never writing, even though the map becomes initialised, which is why EMPTY is reserved. |
| `Mapping.RebaseScenario` | mapping.cpp:94-113 | Writing (0,0)=5, (1,0)=7, (-1,0)=9 re-bases one column left and keeps 5 and 7. |
| `Cursor.NextValidPosition` | mapping.cpp:45-76 | next_valid_position as written. A hit is the first reportable cell of row curr_y from curr_x to end_x, returns 1, and leaves curr_x one past it. A miss means no reportable cell was left in that row. It puts curr_y back to start_y; when the cursor had a row left to scan, it also leaves curr_x past end_x, and otherwise curr_x is unchanged. The bounds never change. |
| `Cursor.MaybeInitialize` | mapping.cpp:78-91 | An initialised cursor is left untouched. A zeroed one takes the given bounds and starts at their start corner. |
| `Cursor.GetNextValidPosition` | mapping.cpp:127-132 | On the first call the bounds become the window with an inclusive end one past it. A hit is a non-EMPTY cell inside the window and returns 1. Every call leaves the cursor on its start row. |
| `Cursor.GetNextValidPositionAround` | mapping.cpp:134-140 | On the first call the bounds become [x0-d, x0+d] x [y0-d, y0+d]. A hit is non-EMPTY, returns 1, and its z lies within d of the z of the start corner (x0-d, y0-d). |
| `Cursor.ExhaustionIsAbsorbing` | mapping.cpp:70-75 | Once a call comes back empty, every later call on any map returns EMPTY and leaves the cursor unchanged. |
| `Cursor.GetNextValidPositionStaysExhausted` | mapping.cpp:127-132 | After GetNextValidPosition returns EMPTY once, it returns EMPTY forever, even after the map is re-based. |
| `Cursor.BoundsFixedAtFirstCall` | mapping.cpp:81 | A second call keeps the first call's bounds even if the map was re-based in between. |
| `Cursor.AroundNeverReportsCentre` | mapping.cpp:49-54 | With a non-zero distance the centre (x0, y0) is never reported, because its z differs from the corner's by 2d. |
| `Cursor.CursorScenario` | mapping.cpp:57-70 | With (0,1)=5 and (1,0)=7, the first call reports (1,0) with value 1 rather than 7. The second call already returns EMPTY, and (0,1) is never reported. |
| `CorrectedCursor.Next` | mapping.cpp:45-76 | The intended scan. A hit is the first matching cell ahead of the cursor in row-major order over all rows, and it returns the stored value. Afterwards exactly the cells after it remain ahead. A miss means no matching cell was ahead, and, when the cursor had a row left to scan, it is back at its start corner; otherwise only curr_y returns to start_y and curr_x is unchanged. |
| `CorrectedCursor.GetNextValidPosition` | mapping.cpp:127-132 | A hit returns the stored value of a window cell. On a fresh cursor it is the first non-EMPTY window cell in row-major order, and a miss means the whole window is EMPTY. |
| `CorrectedCursor.GetNextValidPositionAround` | mapping.cpp:134-140 | On a fresh cursor, a hit is the first non-EMPTY cell of the square, in row-major order, whose z is within d of the z of (x0, y0), and it returns that cell's value. A miss means no such cell exists. |
| `CorrectedCursor.MissRestartsScan` | mapping.cpp:70-75 | After a miss, the next call finds a matching cell whenever one is in bounds. |
| `CorrectedCursor.AroundReachesCentre` | mapping.cpp:49-54 | A non-EMPTY centre is always reached. The first call reports a cell at or before the centre, and it reports the centre itself when no earlier cell matches. |
| `CorrectedCursor.CorrectedScenario` | mapping.cpp:57-70 | With (0,1)=5 and (1,0)=7 the scan reports (1,0) with 7, then (0,1) with 5, and then EMPTY. |
| `UncheckedMap.Get` | map.cpp:67-69 | Unchecked Get, defined only inside the window, where it reads what the checked Get reads. |
| `UncheckedMap.GetReturnsLastWrite` | map.cpp:42-69 | After legal writes since Reset, every written coordinate is inside the window and Get there returns its last written value. The rest of the window reads EMPTY. |
| `UncheckedMap.ResetEmptiesMap` | map.cpp:84-86 | After Reset the map is uninitialised and its whole window reads EMPTY. |
| `UncheckedMap.PositionOfCell` | map.cpp:74-75 | The k-th cell in row-major order is positions[k / W][k % W] at absolute coordinate (k % W + min_x, k / W + min_y), inside the window. |
| `UncheckedMap.WalkRow` | map.cpp:73-78 | The inner loop visits row y left to right and stops right after the first cell whose handler says stop. |
| `UncheckedMap.WalkRows` | map.cpp:71-81 | The outer loop walks the rows top to bottom, the handler said go at every visited cell but the last, and the result is the last cell's answer; a true result means all W*H cells were visited. |
| `UncheckedMap.AllPositions` | map.cpp:71-82 | Cells are visited in row-major order at (c + min_x, r + min_y), each once. It returns true exactly when all W*H cells were visited with no stop; an always-true handler therefore gets true. A stop ends the walk at that cell, and later cells are neither visited nor changed. Handler writes land in the visited cell. The minimum and the initialised flag are unchanged. |

## Left out

- Integer width: `int8_t` coordinates, `byte` deltas and the cursor's `int8_t` z arithmetic are all unbounded integers here. For the map itself, `Set`'s coordinate-range precondition keeps every computation in range. For the cursor, `x0 ± distance` and the z values can wrap for large distances, and that wrap-around is not modelled.
- Configuration: `W` and `H` are the constants 8. Their real values come from a configuration header that is not part of this model. Any square size behaves the same, and a non-square size is exactly the case covered under Findings.
- `memmove` and `memset` are operations on a flat `seq<byte>` of length W*H, not pointer copies.
- Out-of-bounds accesses: a write that does not meet `Set`'s precondition, and revision A's `Get` outside the window, are preconditions rather than behaviour.
- `mapping.h` declares `AllPositions`, but `mapping.cpp` does not define it. The visitor is modelled once, from `map.cpp`.
- The `Iterator` struct is declared in a header that is not part of this model. Its fields are taken from their uses.
- The namespace mismatch between `map.h` and `map.cpp`, `blinklib`, and the build configuration are left out, because they do not change behaviour.
- Operations that do not appear in this code (filtered visitors and extent tracking) are not invented.
- `AllPositions` handlers are pure functions of (x, y, value) returning (continue, new value). A C `PositionHandler` may keep state between calls or call `Set` or `Reset` in the middle of a walk; stateful handlers and handlers that mutate the map are not modelled.
- Concurrency and mutating the map during a cursor scan are not modelled. There is no concurrency in the module, and that mutation is unsupported.
- `History.SpreadAllowsEverySet`: the header states Set's precondition over all coordinates written since Reset. `Storage.Set` instead requires the per-call form: in range, and within W columns and H rows of the current minimum. This lemma shows that the header's form implies the per-call form at every step.

## Findings

| source | as written | input that shows it | evidently intended | confidence | as-written member | corrected member |
|---|---|---|---|---|---|---|
| mapping.cpp:38-40 | memmove count `W*H - (delta_y*H + delta_x)` uses the height as row stride | 2-wide, 3-tall grid holding 1..6, shift down one row: cell (2, 1) keeps 6 instead of 4; when wider than tall, any row shift runs past the array | `W*H - (delta_y*W + delta_x)` | not executed | `Grid.MoveLeavesStaleTailWhenTall` | `Grid.Shift` |
| mapping.cpp:70 | `curr_x - start_x;` discards its value, so curr_x is never rewound | map with (0,1)=5 and (1,0)=7: the second GetNextValidPosition returns EMPTY and (0,1) is never reported | `curr_x = start_x;` | not executed | `Cursor.CursorScenario` | `CorrectedCursor.Next` |
| mapping.cpp:57-58 | the if-declaration binds `value` to `Get(..) != EMPTY` | same map: the first call returns 1 while (1,0) holds 7 | bind the value read, then compare with EMPTY | not executed | `Cursor.NextValidPosition` | `CorrectedCursor.CorrectedScenario` |
| mapping.cpp:50-54 | z-distance is measured from the start corner (x0-d, y0-d) | any d > 0 with a non-EMPTY centre: the centre is never reported | measure from the centre (x0, y0) | not executed | `Cursor.AroundNeverReportsCentre` | `CorrectedCursor.AroundReachesCentre` |

About the first row: the map modules use the byte count as written (`Storage.Rebase` calls `Grid.Move`). `Grid.Move`'s contract proves that on the square window the map uses, this count gives exactly `Grid.Shift`.
