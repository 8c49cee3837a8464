# Colour-match puzzle engine, modelled in Dafny

The game board is a `width` by `height` grid of 8-bit cells, stored row
major in one flat vector (cell `(x, y)` at `y * width + x`). A cell holds a
colour below `colors` or the sentinel `EMPTY = 255`. Matching a selected
cell runs three steps:

- the region finder `test` collects the 4-connected same-coloured region
  around it by breadth-first search;
- `match` clears that region when it has more than one cell;
- `compact` then lets the remaining tiles fall down within rows
  `0..maxy` of every column it scans. It scans the columns `minx..maxx` of
  the cleared cells' bounding box. When the clear reached the bottom row
  and a scanned column is left without a tile, that column is where the
  collapse starts: the scan goes on to the last column of the board, and
  each later column that holds a tile slides leftwards onto the next free
  column.

A small colour modulator (`ColorModulation`) sweeps a display colour back and
forth between two packed RGBA colours. After construction or `set` the
colour is the min colour, but the counter starts at `speed / 2`, the middle
of the sweep, so for `speed >= 3` the first update jumps to step `speed / 2 + 1`. From then
on the colour moves one step per frame. The min colour shown right after
`set` is therefore in general not seen again: a full period later the step
is `speed / 2`, not 0.

The model has seven modules:

- `Board`: cells, coordinates, the row-major index arithmetic and the
  coordinate-pair hash.
- `Region`: what a region is. A component is the set of cells reachable
  through same-colour neighbours, and the region finder's answer is
  `Matched`.
- `Gravity`: what compaction does, stated declaratively. Settling a column
  puts its EMPTY cells on top and its tiles below in order. The collapse
  moves the tile-holding columns to the right of the first emptied column
  leftwards, packing them from that column on. The result board is
  `Compacted`.
- `Scan` (proof steps of `compact`): the compactor's board part way through the scan of one column.
- `Compaction` (proof steps of `compact`): the compactor's board part way through its outer loop, and
  the step lemmas that carry it from column to column.
- `PuzzleEngine`: the class `Puzzle`. It has the board array and the
  imperative `Test` (a queue and a visited set), `Match`, `Compact` (its
  outer loop, its column scan and its swaps) and `Randomize`. Each is proved
  against the functions above.
- `Modulation`: the class `ColorModulation` with `Set` and `Update`. The
  C++ truncating division is modelled explicitly.

`rand()` is a parameter: `rolls[i]` is the value the call for cell `i`
returns.

## Model

Rows whose third column starts with "proof step" belong to the proof
rather than to the program: the `Scan` and `Compaction` modules and a few
lemmas state what one iteration of a loop keeps, so that the methods of
`Puzzle` can be proved against `Compacted` and `Matched`.

| member | source | states |
|---|---|---|
| Board.Idx | include/puzzle.hpp:26 | the position `y * w + x` of an on-board cell lies among the `w * h` cells and gives back its column (`i % w`) and row (`i / w`) |
| Board.IdxOfPosition | include/puzzle.hpp:22 | every position of the `w * h` vector is the index of exactly one on-board cell |
| Board.SwapPermutes | source/puzzle.cpp:93 | swapping two cells keeps the multiset of cell values |
| Board.PaletteSwap | source/puzzle.cpp:93 | swapping two cells keeps every cell EMPTY or below `colors` |
| Board.PairHash | include/puzzle.hpp:8-14 | the 64-bit hash holds the first coordinate in its high 32 bits and the second in its low 32 bits |
| Board.PairHashInjective | include/puzzle.hpp:10-13 | distinct coordinate pairs never share a hash |
| Region.AdjacentCases | source/puzzle.cpp:41-60 | a 4-neighbour is the left (when `x >= 1`), right, upper (when `y >= 1`) or lower cell, the four the search checks |
| Region.ConnectedStep | source/puzzle.cpp:41-60 | an on-board neighbour of a reachable cell with the origin's colour is reachable |
| Region.ConnectedSelf | source/puzzle.cpp:33-34 | the origin is reachable from itself |
| Region.Component | source/puzzle.cpp:33-61 | the cells reachable from the origin through same-colour neighbours; the origin is one of them |
| Region.ComponentMonochrome | source/puzzle.cpp:41-60 | every cell of the component is on the board and has the origin's colour |
| Region.ComponentClosed | source/puzzle.cpp:36-61 | no cell of the component has a same-colour neighbour outside it |
| Region.ComponentLeast | source/puzzle.cpp:36-61 | every set that holds the origin and is closed under same-colour adjacency contains the whole component (maximality) |
| Region.Matched | source/puzzle.cpp:23-67 | the region finder's answer is never a single cell; it is non-empty exactly when the origin is a colour and its component has more than one cell, and then it holds the origin |
| Region.MatchedIsRegion | source/puzzle.cpp:23-67 | the answer is never a single cell; a non-empty answer holds the origin, is the whole component, is on the board, one colour and closed |
| Region.IsolatedCellNoMatch | source/puzzle.cpp:63-64 | a cell with no same-coloured neighbour yields no region |
| Gravity.Settle | source/puzzle.cpp:83-97 | a column segment after gravity, as long as the segment: its EMPTY cells on top, its tiles below in their order (properties in the rows that follow) |
| Gravity.SettleAt | source/puzzle.cpp:83-97 | cell `j` of a settled column segment is EMPTY in the top rows, one per EMPTY cell, then the tiles in their order |
| Gravity.SettleSettled | source/puzzle.cpp:83-97 | after gravity no tile sits above an EMPTY cell |
| Gravity.SettleKeepsTiles | source/puzzle.cpp:83-97 | gravity keeps the tiles and their top-to-bottom order |
| Gravity.TilesAndBlanks | source/puzzle.cpp:83-97 | a segment's multiset is its tiles plus one EMPTY per missing tile |
| Gravity.SettlePermutes | source/puzzle.cpp:93 | gravity keeps the multiset of a segment |
| Gravity.SettleIdempotent | source/puzzle.cpp:83-97 | settling twice is settling once |
| Gravity.SettleBottom | source/puzzle.cpp:98 | the bottom cell of a settled segment is EMPTY exactly when the segment held no tile |
| Gravity.SettleConsEmpty | source/puzzle.cpp:87-88 | an EMPTY cell on top of a segment stays on top when it settles |
| Gravity.SettleConsFull | source/puzzle.cpp:89-96 | a tile on top of a segment without EMPTY cells stays on top when it settles |
| Gravity.FirstHollow | source/puzzle.cpp:98-102 | the answer is the first column in range without a tile, or -1 exactly when every column there has one |
| Gravity.Packed | source/puzzle.cpp:98-104 | the packed columns number at most the columns scanned, and each is settled, full height and holds a tile |
| Gravity.BoundingBoxExtend | source/puzzle.cpp:72-78 | one more cell taken into the running min/max gives the bounding box of the larger set |
| Gravity.BoundingBoxExists | source/puzzle.cpp:71-78 | every set of on-board cells has a bounding box |
| Gravity.BoundingBoxUnique | source/puzzle.cpp:71-78 | a set of cells has only one bounding box |
| Gravity.BoundingBoxOnBoard | source/puzzle.cpp:71-78 | the box of on-board cells lies on the board (`minx <= w`, `maxx < w`, `maxy < h`) |
| Gravity.Bounds | source/puzzle.cpp:71-78 | the box is the bounding box of the hints and lies on the board |
| Gravity.Compacted | source/puzzle.cpp:69-106 | the board after compaction over a box; it has as many cells as the board |
| Gravity.CompactedCell | source/puzzle.cpp:69-106 | cell `(c, r)` of the compacted board is `CompactedAt(c, r)`: settled in place up to the collapse, packed columns from it on, untouched outside the scan |
| Gravity.CompactedLocal | source/puzzle.cpp:71-85 | compaction leaves untouched every column left of `minx`, every row below `maxy` and every column after the scan; when `maxy < height - 1` the scan ends at `maxx` |
| Gravity.CompactedSettled | source/puzzle.cpp:83-97 | in every scanned column no tile sits above an EMPTY cell within rows `0..maxy` |
| Gravity.CompactedCollapsed | source/puzzle.cpp:98-104 | when the clear reached the bottom row, every column right of any scanned column whose bottom is EMPTY (inside the box or past `maxx` in the collapse) is wholly EMPTY |
| Gravity.HollowBefore | source/puzzle.cpp:98-102 | a scanned column left EMPTY at the bottom lies at or after the column the collapse starts from |
| Gravity.CollapsedAt | source/puzzle.cpp:98-104 | from the column the collapse starts at, column `c` holds the `(c - hollow)`-th packed column, or is EMPTY past the packed ones |
| Gravity.PastPacked | source/puzzle.cpp:98-104 | a column from the collapse on whose bottom cell is EMPTY lies past every packed column |
| Gravity.PackedBottom | source/puzzle.cpp:103-104 | every packed full-height column has a tile in its bottom cell |
| Scan.ScanningStill | source/puzzle.cpp:87-88 | proof step: a scan row whose cell is EMPTY, or a tile with no gap below that stays in its column, moves nothing |
| Scan.ScanningSwap | source/puzzle.cpp:89-96 | proof step: a scan row holding a tile swaps it with the EMPTY cell of the target column at the mark row, `y` plus the EMPTY cells already scanned |
| Scan.MarkStep | source/puzzle.cpp:87-94 | proof step: `y_mark` moves to the first EMPTY cell and then up one row per tile placed; the column has a tile once a scanned row has one |
| Scan.ScanStart | source/puzzle.cpp:83-85 | proof step: before its first row the scan has changed nothing |
| Scan.StillScan | source/puzzle.cpp:87-88 | proof step: a row that moves nothing advances the scan state |
| Scan.SwappedScan | source/puzzle.cpp:89-96 | proof step: the swap of a row with a tile advances the scan state |
| Compaction.CompactStart | source/puzzle.cpp:80-81 | proof step: before the first column nothing is compacted and no collapse has started |
| Compaction.ColumnUntouched | source/puzzle.cpp:81-85 | proof step: a column still holds its starting contents when its scan begins |
| Compaction.SettledInPlace | source/puzzle.cpp:85-98 | proof step: with `x_mark == -1` the scan settles the column in place; its bottom cell is EMPTY exactly when it held no tile |
| Compaction.HollowStarts | source/puzzle.cpp:98-102 | proof step: a column found without a tile becomes the column the collapse starts from |
| Compaction.TargetReady | source/puzzle.cpp:91 | proof step: during the collapse `x_mark` lies left of `x` and is EMPTY in every scanned row |
| Compaction.MovedLeft | source/puzzle.cpp:83-104 | proof step: during the collapse column `x` moves, settled, to `x_mark` and is left EMPTY; `x_mark` moves on exactly when the column held a tile |
| Compaction.PackedStep | source/puzzle.cpp:103-104 | proof step: the packed columns up to `x + 1` are those up to `x`, plus column `x` settled when it holds a tile |
| Compaction.MovedLeftCell | source/puzzle.cpp:89-96 | proof step: each cell after the move is the progress board's cell one column on |
| Compaction.ProgressAtMark | source/puzzle.cpp:91-93 | proof step: after the move, column `x_mark` is column `x` settled |
| Compaction.ProgressUnmoved | source/puzzle.cpp:89-96 | proof step: the move changes no column but `x` and `x_mark` |
| Compaction.HollowTrack | source/puzzle.cpp:98 | proof step: column `x` starts the collapse exactly when the box reaches the bottom row and the column holds no tile |
| Compaction.CompactDone | source/puzzle.cpp:81 | proof step: when the outer loop stops the board is the compacted board |
| PuzzleEngine.Cleared | source/puzzle.cpp:15-16 | each cell of the region is EMPTY and every other cell is unchanged |
| PuzzleEngine.ClearedStep | source/puzzle.cpp:15-16 | clearing one more cell is one more EMPTY write |
| PuzzleEngine.ClearedCount | source/puzzle.cpp:15-20 | clearing a region of on-board tiles removes exactly as many tiles as the region has cells |
| PuzzleEngine.BoundingBoxStep | source/puzzle.cpp:72-78 | one loop step moves a cell from the unvisited hints to the visited ones and extends the box |
| PuzzleEngine.Puzzle.constructor | include/puzzle.hpp:22-25 | the board has `w * h` cells and every cell is `rolls[i] % c`, a colour and never EMPTY |
| PuzzleEngine.Puzzle.WithDefaultColors | include/puzzle.hpp:22-25 | the same with the default 5 colours |
| PuzzleEngine.Puzzle.Randomize | source/puzzle.cpp:108-112 | every cell becomes `rolls[i] % colors`, below `colors` and so never EMPTY |
| PuzzleEngine.Puzzle.At | include/puzzle.hpp:26 | the cell read at `(x, y)` is EMPTY or a colour below `colors` |
| PuzzleEngine.Puzzle.Test | source/puzzle.cpp:23-67 | the search returns exactly `Matched` (empty for an EMPTY cell or a one-cell component, else the whole component) and does not modify the board |
| PuzzleEngine.Puzzle.Match | source/puzzle.cpp:8-21 | with no region the answer is 1 and the board is unchanged; otherwise the answer is the region's size, the tile count drops by it, and the board is the compacted cleared board |
| PuzzleEngine.Puzzle.Clear | source/puzzle.cpp:15-16 | the board becomes the board with the region cleared |
| PuzzleEngine.Puzzle.BoundingBox | source/puzzle.cpp:71-78 | the loop computes the bounding box of the hints |
| PuzzleEngine.Puzzle.Compact | source/puzzle.cpp:69-106 | the board becomes the compacted board for the hints' bounding box, and its multiset of cells is unchanged |
| PuzzleEngine.Puzzle.CompactBox | source/puzzle.cpp:80-105 | the outer loop turns the board into the compacted board and keeps its multiset |
| PuzzleEngine.Puzzle.CompactColumn | source/puzzle.cpp:81-105 | one outer-loop pass keeps the loop invariant: `x_mark`, `maxx` and the board agree with the sweep one column on |
| PuzzleEngine.Puzzle.SettleInPlace | source/puzzle.cpp:85-102 | before the collapse the column settles in place, and the collapse starts here exactly when this is the first tile-less column of a box that reaches the bottom row |
| PuzzleEngine.Puzzle.MoveLeft | source/puzzle.cpp:85-104 | during the collapse the column moves settled to `x_mark`, and the new `x_mark` counts the packed columns |
| PuzzleEngine.Puzzle.SettleColumn | source/puzzle.cpp:83-97 | the inner loop completes the scan state of the column and keeps the multiset; when `x_mark != -1`, `moved_one` is set exactly when the column held a tile |
| PuzzleEngine.Puzzle.ScanRow | source/puzzle.cpp:85-96 | one row of the inner loop advances the scan state and `y_mark` |
| PuzzleEngine.Puzzle.Drop | source/puzzle.cpp:91-95 | the swap advances the scan state and keeps the multiset and the palette |
| PuzzleEngine.Puzzle.Expand | source/puzzle.cpp:38-60 | after one dequeued cell every same-colour neighbour of it is visited, and the visited set stays inside the component |
| PuzzleEngine.Puzzle.NeighboursChecked | source/puzzle.cpp:41-60 | checking the left, right, upper and lower neighbours covers every same-colour neighbour |
| PuzzleEngine.Puzzle.Enqueue | source/puzzle.cpp:41-59 | `(nx, ny)` is queued at the back and added to visited exactly when it is on the board, unvisited and of the origin's colour; otherwise the queue and visited set are unchanged; the search invariants hold and the unvisited count never grows |
| PuzzleEngine.Puzzle.WantedCell | source/puzzle.cpp:41-56 | proof step: an on-board cell is wanted by the search exactly when it has the origin's colour |
| PuzzleEngine.Puzzle.EnqueueNew | source/puzzle.cpp:41-59 | proof step: visiting and queueing a new same-colour neighbour keeps the search invariants and lowers the unvisited count |
| PuzzleEngine.Puzzle.FrontierPush | source/puzzle.cpp:43-44 | proof step: pushing a cell as it is visited keeps every queued cell visited and every visited cell queued or done |
| PuzzleEngine.Puzzle.Visit | source/puzzle.cpp:41-59 | a newly visited neighbour is in the component, and the count of unvisited cells drops |
| Modulation.Unpack | source/color_modulation.cpp:6-14 | splitting a word into its four bytes loses nothing: packing them gives the word back |
| Modulation.ChannelsPack | source/color_modulation.cpp:6-14 | packing the four bytes taken from a word gives the word back |
| Modulation.UnpackPack | source/color_modulation.cpp:6-14 | the bytes taken from a packed colour are its channels, red in byte 0 |
| Modulation.TruncDivBounds | source/color_modulation.cpp:41-44 | the quotient's product with the divisor lies within one divisor of the dividend, on the side toward zero |
| Modulation.TruncDiv | source/color_modulation.cpp:41-44 | the quotient rounds toward zero like C++ integer division, for negative dividends too |
| Modulation.NextCount | source/color_modulation.cpp:36 | the counter stays in `[0, 2*speed-2)`, stepping by one and wrapping to 0 |
| Modulation.Advance | source/color_modulation.cpp:36 | the counter after `k` updates stays in `[0, 2*speed-2)` |
| Modulation.AdvanceMod | source/color_modulation.cpp:36 | after `k` updates the counter is `(count + k) mod (2*speed-2)` |
| Modulation.AdvancePeriod | source/color_modulation.cpp:36-44 | `2*speed-2` updates bring the counter back to where it started |
| Modulation.AdvanceShift | source/color_modulation.cpp:36-44 | `k + 2*speed-2` updates leave the counter where `k` updates do |
| Modulation.Step | source/color_modulation.cpp:37-39 | the step lies in `[0, speed-1]` |
| Modulation.StepIsTriangle | source/color_modulation.cpp:36-39 | the step rises `0 .. speed-1` with the counter and falls back as `2*speed-2 - count` |
| Modulation.Lerp | source/color_modulation.cpp:41-44 | a channel lies between its min and max, is the min at step 0, and equals the max only when min and max are equal |
| Modulation.Blend | source/color_modulation.cpp:41-44 | every channel of the blended colour lies between its min and max, and the colour is the min colour at step 0 |
| Modulation.ColourPeriodic | source/color_modulation.cpp:36-44 | for `k >= 1`, the colour after `k` updates (the blend at the counter's step) recurs after `2*speed-2` more updates |
| Modulation.StartMidSweep | source/color_modulation.cpp:15-44 | with the counter starting at `speed / 2`, the first update gives step `speed / 2 + 1`, and a full period later the step is `speed / 2`, not the step 0 of the colour right after `set` |
| Modulation.ColorModulation.constructor | source/color_modulation.cpp:4-16 | the current and min colours are the bytes of `modulate_min`, the max colour those of `modulate_max`, and `count == speed / 2` rounded toward zero; the modulator is ready for `update` when `2 <= speed <= MAX_SPEED` |
| Modulation.ColorModulation.Set | source/color_modulation.cpp:18-32 | the same state as the constructor, from `min`, `max` and `spd` |
| Modulation.ColorModulation.Update | source/color_modulation.cpp:34-45 | the counter steps round its period, each channel becomes the blend at the counter's step, and every channel stays between its min and max |

## Left out

- SDL windowing, input, drawing, the game loop and score keeping live in
  `main.cpp`, `SDLGame.cpp`, `Game.hpp` and `SDLGame.hpp`. These files are
  not part of this model.
- `rand()`: each call's result is a parameter (`rolls`); the random source
  and its seeding are not modelled.
- The `std::deque` and the `unordered_set` are modelled as a sequence and a
  set. Hashing into buckets and iteration order are not modelled, since the
  result is the same set whatever the order.
- PuzzleEngine.Puzzle.constructor: boards of zero width or height and zero
  colours are excluded (`Shaped` requires each to be at least 1). With zero
  colours `rand() % colors` divides by zero.
- PuzzleEngine.Puzzle.Compact: `w * h`, `y * width + x` and the coordinates
  are unbounded integers. The source's 32-bit unsigned arithmetic would wrap
  for boards of 2^32 cells or more. The signed 32-bit `y`, `y_mark`,
  `x_mark`, `movex` and `movey` (source/puzzle.cpp:80-92) would overflow
  already for a width or height of 2^31 or more.
- PuzzleEngine.Puzzle.Test: the source's lookups of `x - 1` / `y - 1` wrap
  to 2^32 - 1 at the edge. They find nothing, and the `x >= 1` / `y >= 1`
  guard stops the read, so the model checks bounds instead.
- `miny` is computed by `compact` but never used, so it is left out of `Box`.
- Modulation.ColorModulation.Update: requires `2 <= speed <= MAX_SPEED`
  (8421505). Below 2 the modulus `2*speed-2` is 0 or negative. Above the
  bound `(max - min) * step` can overflow 32-bit `int`.
- Modulation.ColorModulation: the four byte fields of each colour (`r, g, b,
  a`, the mins and the maxes) are held as one `Rgba` value per colour. The
  accessors `red()` .. `alpha()` and the default constructor, which leaves
  the fields uninitialised, are not modelled. `Update` needs the
  parameterised constructor or `Set` first.
