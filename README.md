# Game of Life engine — a verified Dafny model

This project models the cellular-automaton engine inside the `App` component of a
Yew (Rust/WebAssembly) Game of Life. The engine keeps a toroidal grid of
`width * height` cells, row-major, each `Dead` or `Alive`. It counts a cell's
live neighbours over eight wrapped offsets and advances one generation with the
classic Life rules, computing the new grid into a fresh buffer. It also flips a
single cell when the user clicks it. The start-up grid is 64 by 64, and cell `i`
starts alive when `i` is even or a multiple of 7.

Files:

- `life.dfy`, module `Life`: the value model. It holds the `Cell` datatype,
  row-major `Index`, the neighbour count (`Visit`, `RowSum`, `GridSum`,
  `NeighborCount`), the rule `NextCell`, one generation `Step`, the seed `Seed`
  and the toggle `Toggle`, with lemmas about them.
- `app.dfy`, module `Game`: class `App` with the fields `width`, `height` and
  `cells` (an array). `LiveNeighborCount` runs the source's two nested loops over
  the offset arrays. `Tick` fills a cloned buffer in nested row/column loops and
  then replaces `cells`. `Click` flips one cell in place. Each method's
  postcondition ties its result or new state to the functions of `Life`.
- `unit_test.dfy`, module `LifeTests`: the crate's unit test of the neighbour
  count, restated as lemmas on the 64 by 64 grid.

Three details of `src/main.rs` shape the model:

- The click toggles a cell by its linear index (`Msg::Click(idx)`), not by
  (row, column).
- `live_neighbor_count` skips an offset pair when both values are zero. On a
  grid of height 1, the "one back" row offset `height - 1` is itself 0, so that
  offset is skipped as well. The offset 1 then wraps onto the cell's own row, and
  the cell can count itself. `Life.OneByOneCount` and `Life.TwoByTwoCount` state
  the resulting counts. For sides of length 3 or more, `Life.OffsetsDistinct`
  shows per axis that the three offsets reach three different positions, and
  `Life.NeighborsDistinct` and `Life.NeighborsNotSelf` combine the two axes: the
  eight visited offsets reach eight different cells, none of them the cell itself.
- The neighbour count does not require `row < height` or `column < width`. Every
  coordinate is reduced modulo the grid size before it is used, so the source
  handles out-of-range coordinates too, as long as `row + (height - 1)` and
  `column + (width - 1)` fit in a `u32` (see the machine-width line under
  "## Left out").

## Model

| member | source | states |
|---|---|---|
| `Life.Weight` | src/main.rs:11-16 | a cell adds 1 to a count exactly when it is `Alive` (discriminant 1) and 0 otherwise |
| `Life.Flip` | src/main.rs:155-158 | the flipped state always differs from the original |
| `Life.Index` | src/main.rs:26-28 | the row and the column can be read back from the linear index by division and remainder by `width` |
| `Life.IndexInGrid` | src/main.rs:26-28 | an in-range (row, column) has an index below `width * height`, the buffer length |
| `Life.IndexOfCoordinates` | src/main.rs:26-28 | every index below `width * height` is the index of the in-range coordinate it decomposes into |
| `Life.Deltas` | src/main.rs:32-33 | there are three offsets per axis, and modulo the axis length they are one back, none and one forward |
| `Life.Visit` | src/main.rs:34-41 | one offset adds at most 1, and the pair (0, 0) adds nothing |
| `Life.RowSum` | src/main.rs:33-42 | the inner loop over column offsets adds at most one per offset |
| `Life.GridSum` | src/main.rs:32-43 | the outer loop adds at most three per row offset |
| `Life.NeighborCount` | src/main.rs:30-45 | the live-neighbour count is at most 8 |
| `Life.NeighborCountUnfold` | src/main.rs:30-45 | the count is the sum over the nine offset pairs (rows `height-1, 0, 1` times columns `width-1, 0, 1`), in the loops' order |
| `Life.WrapByOne` | src/main.rs:38-39 | adding `n-1` modulo `n` steps one back with wrap-around, adding 1 steps one forward with wrap-around |
| `Life.OffsetsDistinct` | src/main.rs:32-39 | on an axis of length at least 3 the three offsets reach three different positions |
| `Life.NeighborsDistinct` | src/main.rs:32-40 | with both sides at least 3, two different offset pairs reach two different cell indices |
| `Life.NeighborsNotSelf` | src/main.rs:32-40 | with both sides at least 3, every offset pair other than the skipped (0, 0) reaches a cell other than (row, column) |
| `Life.OneByOneCount` | src/main.rs:32-41 | on a 1 by 1 grid the count is 5 for a live cell and 0 for a dead one |
| `Life.TwoByTwoCount` | src/main.rs:32-41 | on a 2 by 2 grid the side neighbours count twice and the diagonal one four times |
| `Life.NextCell` | src/main.rs:86-101 | the next state is `Alive` exactly when the count is 3, or the cell is alive and the count is 2 |
| `Life.Step` | src/main.rs:77-108 | a generation keeps the number of cells |
| `Life.CellAfter` | src/main.rs:82-101 | the new state of cell `i` is `Alive` exactly when its count in the old grid is 3, or it was alive with count 2 |
| `Life.StepAt` | src/main.rs:82-103 | the new state at (row, column) is the rule applied to that cell's old state and old neighbour count |
| `Life.StepRules` | src/main.rs:86-101 | per cell: alive with fewer than 2 dies, alive with 2 or 3 lives, alive with more than 3 dies, dead with 3 is born, any other dead cell stays dead |
| `Life.NeighborCountAllDead` | src/main.rs:205-210 | on a grid with no live cell, every coordinate has count 0 |
| `Life.StepAllDead` | src/main.rs:77-108 | a grid with no live cell is its own next generation |
| `Life.SeedCell` | src/main.rs:52-58 | the closure gives `Alive` exactly when `i % 2 == 0` or `i % 7 == 0` |
| `Life.Seed` | src/main.rs:47-59 | the seed grid has exactly `n` cells, and cell `i` is alive if and only if `i % 2 == 0` or `i % 7 == 0` |
| `Life.Toggle` | src/main.rs:154-159 | toggling keeps the length, changes the cell at `idx` and keeps every other cell |
| `Life.ToggleTwice` | src/main.rs:154-159 | toggling the same index twice gives back the original grid |
| `Game.App.constructor` | src/main.rs:47-67 | the new component has a 64 by 64 grid of 4096 cells holding the seed pattern |
| `Game.App.Width` | src/main.rs:69-71 | the width is positive and times the height gives the buffer length |
| `Game.App.Height` | src/main.rs:73-75 | the height is positive and the width times it gives the buffer length |
| `Game.App.LiveNeighborCount` | src/main.rs:30-45 | the nested loops over the offset arrays return `NeighborCount` of the current cells, at most 8 |
| `Game.App.Tick` | src/main.rs:77-108 | the new buffer is fresh and equals `Step` of the old cells, so no cell is read from the buffer being written; width and height are unchanged |
| `Game.App.Click` | src/main.rs:154-159 | the cell buffer becomes `Toggle` of the old one at `idx`; width, height and the other cells stay unchanged |
| `LifeTests.EmptyGrid` | src/main.rs:206 | the test's grid is a valid 64 by 64 grid with no live cell |
| `LifeTests.CornerAloneHasNoNeighbors` | src/main.rs:213-214 | with only cell 0 alive, the count at (0, 0) is 0 |
| `LifeTests.PairSeenAcrossEdges` | src/main.rs:215-220 | with cells 0 and 1 alive, the counts at (0,0), (63,0), (0,63) and (63,63) are 1, 2, 1 and 1 |
| `LifeTests.TopRightCornerAdded` | src/main.rs:222-223 | with cell 63 also alive, the count at (1, 63) is 2 |

## Left out

- Start-up (`main`, the logger and the Yew renderer) is host set-up with no engine logic.
- The timer: `create_interval`, the `_interval` handle and the `Msg::StartStop` branch. They decide only when ticks arrive, never what a tick does. The `interval` argument of `new` is dropped with them.
- Rendering: `view`, `view_cell`, the markup and the click callbacks. They read the grid and never change it.
- The `Component` wiring: `create`, the `Msg::Tick` dispatch (which only calls `tick`, modelled by `Tick`) and the `bool` returned by `update`.
- Machine integer widths: `u32` coordinates and sizes, `usize` indices and the `u8` count are unbounded naturals here. With a 64 by 64 grid no intermediate value exceeds `2 * 64 * 64` and the count never exceeds 8, so nothing wraps.
- No lemma shows that a 2 by 2 block on a larger torus is unchanged by `Step`; `Life.StepAt` gives the per-cell rule it would rest on.
