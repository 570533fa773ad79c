# Game of Life grid, modelled in Dafny

This project models the `Grid` type of a terminal Game of Life simulator
(`src/main.rs`). The grid is Conway's Game of Life, rule B3/S23, on a bounded
grid that does not wrap around. Its state is a hash map from every position
`(x, y)` of the `width x height` rectangle to an alive flag, plus the fixed
dimensions and the glyph mode (`ascii`).

The model has four modules:

- `LifeRules` (`life_rules.dfy`) holds the pure part:
  - the coordinate space and the row-major order in which the grid visits it
    (`each_position`: y outer, x inner);
  - the live-neighbour count of the 3 x 3 window, visited in the source's
    loop order;
  - Conway's rule and the chain of branches a step takes for one cell;
  - the step as a fold over any visiting order, with the proof that the
    order does not matter.
- `Rendering` (`rendering.dfy`) holds the glyph pair, the frame a grid
  renders to, and a decoder that reads a frame back.
- `GridState` (`grid.dfy`) holds the class `Grid`. Its field `cells` is a
  `map<(int, int), bool>`; `width`, `height` and `ascii` are constants. The
  methods `constructor`, `Randomize`, `CopyGrid`, `AliveCount`, `Step` and
  `PrintTo` keep the source's nested loops; the inner loop of `print_to`
  (one row of cells) is the method `PrintRow`. Each is proved against the
  functions of the other two modules.
- `Patterns` (`patterns.dfy`) runs two classic configurations through the
  step: the 2 x 2 block is a still life, and the three-cell blinker
  oscillates with period 2.

The object invariant `Grid.Valid()` says that the key set of `cells` is exactly
the rectangle `[0, width) x [0, height)`. The constructor establishes it, and
`Randomize` and `Step` preserve it. The three configuration fields cannot change
because they are `const`.

`step` writes each cell's next state into a copy of the map. It reads only
the old map, then swaps the copy in. The branch chain at `src/main.rs:37-45`
has no branch for a dead cell with exactly two live neighbours. Such a cell
keeps the value already in the copy, which is its old value `false`.
`RuleBranch` models the chain: it proves that this is the only cell left
unwritten and that every write is the B3/S23 value. `RuleBranchFollowsLife`
proves that B3/S23 keeps the state of that cell too. The step therefore
computes B3/S23 exactly, and `Grid.Step` is specified by the rule itself.

The grid is bounded, not toroidal. A neighbour offset that leaves the rectangle
finds no key in the map and adds nothing to the count
(`NeighbourCountIsLiveNeighbours`, `CornerAndInteriorCounts`).

## Model

| member | source | states |
|---|---|---|
| `GridState.Grid.constructor` | src/main.rs:17-31 | the new grid has the given width, height and glyph mode; its key set is exactly the rectangle and every cell is dead |
| `GridState.Grid.Randomize` | src/main.rs:51-55 | every cell takes the value the random source gives it; the key set stays the rectangle |
| `GridState.Grid.CopyGrid` | src/main.rs:57-65 | the copy has the same key set as `cells` and the same state at every position |
| `GridState.Grid.AliveCount` | src/main.rs:67-87 | the loop's count equals `NeighbourCount` of the current cells and lies in 0..8 |
| `GridState.Grid.Step` | src/main.rs:33-49 | the key set stays the rectangle; the new map is the next generation, each cell given by B3/S23 from the pre-step map; it is also exactly the fold `StepInto` of the branch chain over the row-major visit, reading the old map and writing the copy |
| `GridState.Grid.PrintRow` | src/main.rs:99-102 | the glyphs printed for row y are exactly `RowGlyphs` of that row: one per cell, left to right |
| `GridState.Grid.PrintTo` | src/main.rs:97-107 | the rows produced are exactly `Render` of the current cells, size and glyph mode |
| `LifeRules.RowMajor` | src/main.rs:89-95 | the enumeration holds a position iff it lies in the grid rectangle |
| `LifeRules.RowMajorLength` | src/main.rs:89-95 | the enumeration has width * height entries, one per position |
| `LifeRules.RowMajorOrdered` | src/main.rs:89-95 | positions come in strictly increasing row-major order (row outer, column inner), so none is visited twice |
| `LifeRules.PartialCount` | src/main.rs:68-84 | after k of the nine window offsets the count is at most k, and at most k - 1 once the skipped centre has passed |
| `LifeRules.NeighbourCount` | src/main.rs:67-87 | the neighbour count lies in 0..8 |
| `LifeRules.NeighbourCountIsLiveNeighbours` | src/main.rs:67-87 | the count equals the number of live cells at Chebyshev distance 1 that the map holds; the centre is never counted and off-grid positions add nothing |
| `LifeRules.CornerAndInteriorCounts` | src/main.rs:74-82 | no wrap-around: on a fully live grid the corner (0, 0) sees 3 neighbours and the interior cell (1, 1) sees 8 |
| `LifeRules.LifeRule` | src/main.rs:37-45 | B3/S23: under 2 neighbours dies, a live cell with 2 or 3 survives, over 3 dies, a dead cell with 3 is born, a dead cell with 2 stays dead |
| `LifeRules.RuleBranch` | src/main.rs:37-45 | the branch chain leaves a cell unwritten iff it is dead with exactly 2 neighbours, and every value it writes is the B3/S23 value |
| `LifeRules.RuleBranchFollowsLife` | src/main.rs:37-45 | the cell the chain leaves unwritten keeps a state equal to B3/S23 |
| `LifeRules.WriteCell` | src/main.rs:36-45 | one callback of the step touches only its own position in the copy; if that position still holds the old state (or already the new one), it ends holding the B3/S23 value |
| `LifeRules.StepInto` | src/main.rs:35-46 | folding the callback over a visiting order keeps the copy's key set and leaves every position the order does not visit unchanged |
| `LifeRules.NextGeneration` | src/main.rs:33-48 | the next generation has the same key set as the old map |
| `LifeRules.StepOrderIndependent` | src/main.rs:33-48 | visiting the positions in any order that covers them all (repeats allowed), reading the snapshot and writing the copy, yields the pointwise next generation |
| `LifeRules.RowMajorStep` | src/main.rs:33-48 | in particular the grid's own row-major visit yields the next generation |
| `Rendering.DeadGlyph` | src/main.rs:117-123 | the dead glyph is never a newline |
| `Rendering.AliveGlyph` | src/main.rs:109-115 | in each mode the alive glyph differs from the dead glyph and from the newline |
| `Rendering.CellGlyph` | src/main.rs:125-129 | the glyph printed for a cell is the alive glyph iff the cell is alive, and it is never a newline |
| `Rendering.RowGlyphs` | src/main.rs:99-102 | the first n glyphs of row y have length n, with the glyph of cell (x, y) at column x |
| `Rendering.Render` | src/main.rs:97-107 | the frame has `height` rows; row y is the glyphs of row y followed by a newline |
| `Rendering.RenderShape` | src/main.rs:97-107 | every row has width + 1 characters ending in a newline, with the glyph of cell (x, y) at column x of row y |
| `Rendering.RenderNextRow` | src/main.rs:98-104 | printing one more row appends that row's glyphs and a newline to the frame printed so far |
| `Rendering.DecodeRender` | src/main.rs:97-107 | rendering loses nothing: reading the frame back gives the original cell map |
| `Rendering.RenderTwoCells` | src/main.rs:109-129 | a 2 x 1 grid [alive, dead] renders as `x.` plus newline in ASCII mode and as U+2588 U+2591 plus newline otherwise |
| `Patterns.PatternCount` | src/main.rs:67-87 | on a grid whose live cells form a rectangle, the neighbour count is the number of the eight surrounding positions that are live cells of the grid |
| `Patterns.BlockIsStill` | src/main.rs:33-49 | the 2 x 2 block in a 4 x 4 grid is a still life: one step leaves the grid unchanged |
| `Patterns.BlinkerRowToColumn` | src/main.rs:33-49 | a horizontal three-cell row in a 5 x 5 grid steps to the vertical column through the same centre |
| `Patterns.BlinkerColumnToRow` | src/main.rs:33-49 | the vertical column steps back to the horizontal row |
| `Patterns.BlinkerOscillates` | src/main.rs:33-49 | the blinker has period 2: one step changes it and two steps restore it |

## Left out

- `main` (src/main.rs:138-150) is not modelled. It holds the infinite render, sleep and step loop, the ANSI clear-screen sequence, the `--ascii` argument scan and the `unwrap` of write results. These are I/O and timing, with no state beyond what `Grid` already models.
- `PrintTo` returns the frame as a sequence of rows, one string per grid row with its newline. The source writes glyphs to a `Write` stream instead, and write failures (`io::Result` errors) come from that stream, so neither is modelled.
- GridState.Grid.PrintTo: assumes that every `write` takes its whole buffer. The source ignores the byte count that `write` returns (src/main.rs:103, 131), so on a short write it would drop the rest of that glyph or newline without any error; the model's frame is what a stream that accepts every byte would receive.
- Glyphs are modelled as characters, not bytes. The source writes U+2588 and U+2591 as their three-byte UTF-8 encodings.
- The `rng: ThreadRng` field and `rng.gen()` are not modelled.
- GridState.Grid.Randomize: the random source becomes a parameter `coin`. `coin(p)` is the boolean drawn when the loop reaches `p`. The model says that every cell takes an arbitrary value and that the key set is kept. It does not say that the draws are uniform or independent.
- `each_position` is not modelled as a callback. Each method that uses it runs the same two nested loops in place of the callback. `RowMajor` is the order those loops visit; `Grid.Step` proves that its loops compute the `StepInto` fold over `RowMajor`, and the other loops are proved against their results directly.
- `width` and `height` are natural numbers and coordinates are unbounded integers. The source's `i32` fields could be negative, which would just give an empty grid. The source's `x + x_offset` could overflow `i32`, which the fixed 70 x 30 grid never reaches.
