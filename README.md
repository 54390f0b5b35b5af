# Game of Life engine, modelled in Dafny

A model of the Conway's Game of Life engine of `wasm-game-of-life`: a
`Universe` holding a toroidal, row-major grid of one-byte cells, which the
browser host seeds, edits and advances one generation at a time.

- `cells.dfy` (module `Cells`): the `Cell` enum (Dead = 0, Alive = 1), its
  toggle, and `invert_cells`.
- `grid.dfy` (module `Grid`): the pure parts: the row-major layout and its
  inverse, the offset as computed in `u32` arithmetic, a modulus-based
  reference census `NeighborsSpec`, the engine's branchy
  `live_neighbor_count` proved equal to it, Conway's rule, the next
  generation as a function, and the buffers the engine builds (seeded,
  all-dead, toggled).
- `life.dfy` (module `Life`): the `Universe` class with the fields of the
  Rust struct and its methods. `Tick` runs the nested row/column loops of
  `tick` and is proved to produce `NextGeneration` of the pre-tick buffer.
- `glider.dfy` (module `Glider`): the spaceship fixture of the browser test
  suite. One tick of the 6-by-6 input glider gives exactly the expected
  glider, and the test's sequence of universe calls is reproduced as a
  method.

Integers are unbounded in Dafny. The `u32` dimensions are bounded by
`MaxU32` in `Universe.Valid`. The offset `row * width + column`
(src/lib.rs:112, 207) is computed with explicit wrap-around modulo 2^32,
as a release build does. A debug build panics on that overflow instead.
The random seeding is a parameter: `draw(i)` stands for the i-th result of
`quad_rand::gen_range(0, 20)`.

Coordinates are not bounds-checked. The code computes the wrapped `u32`
offset and indexes the buffer with it. Indexing panics when that offset is
outside the buffer. `ToggleCell`, `SetCellValue` and `SetCells` therefore
require only that the computed offset is inside the buffer. They write to
that offset. For an off-grid coordinate, that offset can be the offset of
another cell.

## Model

| member | source | states |
|---|---|---|
| Cells.Cell.Value | src/lib.rs:64-70 | a cell is the byte 0 or 1, and 1 exactly for Alive, so live cells can be counted by summing |
| Cells.Cell.Toggle | src/lib.rs:73-78 | the toggled cell is the other state |
| Cells.ToggleTwice | src/lib.rs:73-78 | toggling twice restores the cell |
| Cells.InvertCells | src/lib.rs:166-175 | same length as the input, every cell flipped |
| Cells.InvertInvolutive | src/lib.rs:166-175 | inverting twice gives back the input buffer |
| Grid.Index | src/lib.rs:110-113 | the offset row * w + col of a position on the grid is inside the w * h buffer |
| Grid.CoordOf | src/lib.rs:94-96 | every offset inside the buffer is the offset of an on-grid position, its row and column (that this position is unique is CoordOfIndex) |
| Grid.CoordOfIndex | src/lib.rs:94-96 | the layout is injective: the coordinates of a position's offset are the position |
| Grid.WrapSum | src/lib.rs:110-113 | wrapping the product before the addition gives the same u32 result as wrapping once at the end |
| Grid.U32Offset | src/lib.rs:110-113 | the offset computed in u32 arithmetic is at most 2^32 - 1 and equals (row * w + col) mod 2^32 |
| Grid.OffsetOnGrid | src/lib.rs:110-113 | on a grid whose size fits a u32, an on-grid position's computed offset does not wrap: it is the row-major offset and maps back to the position |
| Grid.Targets | src/lib.rs:338-346 | the set of offsets set_cells writes is exactly the computed offsets of the listed positions, on the grid or not: every listed position's offset is in it, every element is some listed position's offset, and each is a u32 |
| Grid.TargetsOnGrid | src/lib.rs:338-346 | for on-grid positions, an offset is written exactly when its coordinates are listed |
| Grid.CountAlive | src/lib.rs:124-132 | the live count over a list of offsets is at most the list's length, and it is 0 exactly when every listed neighbour is Dead |
| Grid.NeighborsSpec | src/lib.rs:116-135 | the reference census over the 8 offsets, taken modulo height and width, is in [0, 8] |
| Grid.NeighborsSpecUnfolded | src/lib.rs:124-132 | the reference census is the sum of the eight wrapped neighbours' bytes, one per offset, with no deduplication |
| Grid.WrapSteps | src/lib.rs:119-122 | stepping with the explicit edge tests (0 to n-1 going back, n-1 to 0 going forward) is the same as adding -1, 0 or +1 modulo n |
| Grid.SteppedCensus | src/lib.rs:116-135 | the eight lookups at up/down/left/right as the engine computes them sum to the reference census |
| Grid.LiveNeighborCount | src/lib.rs:116-135 | the engine's branchy count is in [0, 8] and equals the modulus-based reference census |
| Grid.CornersTouch | src/lib.rs:119-122 | the grid is a torus: the top-left cell is the (+1, +1) neighbour of the bottom-right cell and the reverse, so a live top-left cell adds at least 1 to the bottom-right cell's census |
| Grid.LoneCellCountsItself | src/lib.rs:116-135 | on a 1-by-1 grid, a lone live cell is counted 8 times: the offsets are counted with multiplicity |
| Grid.Rule | src/lib.rs:236-248 | the four match arms, in source order, amount to B3/S23: alive next exactly with 3 live neighbours, or when alive now with 2 |
| Grid.NextGeneration | src/lib.rs:226-251 | the next generation has as many cells as the current one |
| Grid.NextGenerationAt | src/lib.rs:230-249 | each next-generation cell is the rule applied to the old cell and its wrapped census in the pre-tick buffer |
| Grid.NextGenerationOfEmpty | src/lib.rs:230-231 | on a grid with no rows or no columns, the next generation is the same empty buffer |
| Grid.GenerateCells | src/lib.rs:141-164 | the seeded buffer has width * height cells; cell i is Alive exactly when draw i is 0, whatever the pattern |
| Grid.AllDead | src/lib.rs:190-195 | the buffer a resize builds has the requested length and every cell is Dead |
| Grid.ToggleAt | src/lib.rs:256-259 | toggling one offset flips that cell and leaves every other cell and the length unchanged |
| Grid.ToggleAtTwice | src/lib.rs:256-259 | toggling the same offset twice restores the buffer |
| Life.Universe.constructor | src/lib.rs:277-312 | a new universe is 128 by 128, seeded from the draws with the Random5050 pattern; the previous generation is the inverted buffer and no gesture is in progress |
| Life.Universe.SetMousedownValue | src/lib.rs:272-274 | sets the flag, changes nothing else and keeps validity |
| Life.Universe.SetWidth | src/lib.rs:190-195 | sets the width, rebuilds the buffer as width * height Dead cells, and keeps the height, prevcells and the flag |
| Life.Universe.SetHeight | src/lib.rs:198-203 | sets the height, rebuilds the buffer as width * height Dead cells, and keeps the width, prevcells and the flag |
| Life.Universe.GetIndex | src/lib.rs:110-113 | the u32 offset (row * width + column) mod 2^32; for an on-grid position it is the row-major offset inside the buffer, and its coordinates are the position |
| Life.Universe.GetCellIndex | src/lib.rs:205-208 | the host-facing u32 offset: the same wrapped value, the row-major offset for an on-grid position |
| Life.Universe.Tick | src/lib.rs:221-253 | prevcells becomes the exact pre-tick buffer; the buffer becomes NextGeneration of the pre-tick buffer; width, height and the flag are unchanged; validity is kept |
| Life.Universe.ComputeNext | src/lib.rs:226-251 | the row-by-row loops over a copy of the buffer, with the census always read from the unmodified buffer, produce NextGeneration |
| Life.Universe.ToggleCell | src/lib.rs:256-259 | the buffer becomes the old buffer toggled at exactly the computed offset; the other fields are unchanged |
| Life.Universe.SetCellValue | src/lib.rs:261-264 | the cell at the computed offset becomes the value; every other cell, the length and the other fields are unchanged |
| Life.Universe.SetCells | src/lib.rs:338-346 | every cell whose offset is the computed offset of a listed position becomes Alive; every other cell keeps its value |
| Life.Universe.ResetBoard | src/lib.rs:314-320 | prevcells becomes the old buffer; the buffer is reseeded at the current size from the draws; dimensions and flag unchanged |
| Glider.GliderAdvances | tests/web.rs:28-64 | on a 6-by-6 torus, the next generation of the board with live cells (1,2),(2,3),(3,1),(3,2),(3,3) is exactly the board with live cells (2,1),(2,3),(3,2),(3,3),(4,2) |
| Glider.Spaceship | tests/web.rs:28-43 | a new universe resized to 6 by 6 and given the listed cells holds exactly the board of those cells |
| Glider.TestTick | tests/web.rs:53-65 | after tick, the input universe's cells equal the expected universe's cells, which are the expected glider |

Plain accessors that return a field and state nothing more have no row:
`Width`, `Height`, `GetCells`, `GetPrevCells` (which also stand for the
raw-pointer exports `cells()` and `prevcells()`) and `IsMousedown`. Nor do
the definitions that only name a sub-term of another member's contract:
- `MaxU32`, `Shaped` and `Offsets`;
- the `InitialPattern` datatype (the pattern enum of src/lib.rs:86-92, which
  `GenerateCells` takes and ignores);
- the class invariant `Universe.Valid`, which the constructor establishes and every method that changes the universe keeps,
  and the loop invariant `DoneBefore` of `ComputeNext`;
- the glider fixture's constants `Input` and `Expected`;
- `NeighborAt` (one wrapped neighbour) and `LiveOne` (one census term, the
  conditional `if … == Cell::Alive { 1 } else { 0 }` of src/lib.rs:125-132,
  proved equal to `Cell.Value`);
- `NextCell` (one cell of `NextGeneration`) and `InOrderBefore`;
- `Board` (the buffer of a list of live positions, used by the glider
  fixture), and the predicates `InputShape` and `ExpectedShape`.

Nor do the helper lemmas that only split a proof:
- `MulStrict` and `DivModUnique`;
- `WrappedNeighbors` and `NeighborAtWrapped`;
- `DoneStep`, `DoneRow` and `DoneAll`;
- `NextFromNeighbors`, `Below36`, `ExpectedShapeUnique` and the per-row and
  per-cell glider lemmas.

`Cell::set_cell` (src/lib.rs:80-83) is the single assignment inside
`SetCellValue`.

## Left out

- Logging and instrumentation are not modelled: the `Timer`, the `log!` macro, `console` calls and the panic hook (src/lib.rs:17-57, 223, 279, 315). They have no effect on the state.
- The `wee_alloc` global allocator is not modelled. It is build configuration only.
- Time-based seeding is not modelled: `js_sys::Date`, `quad_rand::srand` and `gen_range`. Their results enter as the `draw` parameter.
- The constructor's dead random choice of an `InitialPattern` (src/lib.rs:291-296) is not modelled. The constructor always uses Random5050, as the code does.
- The commented-out Complex1 branch of `generate_cells` is not modelled.
- Life.Universe.SetWidth: requires that the new `width * height` fits a `u32`. A debug build panics on the overflow and a release build wraps, which would give a buffer shorter than width * height; neither is modelled.
- Life.Universe.SetHeight: as for SetWidth.
- Life.Universe.GetIndex: the offset wraps modulo 2^32 as in a release build. A debug build panics when `row * width + column` overflows a `u32`, which only off-grid coordinates can cause. That panic is not modelled. GetCellIndex, ToggleCell, SetCellValue and SetCells inherit this.
- Life.Universe.ToggleCell: requires the computed offset to be inside the buffer, because the engine panics otherwise. The same holds for SetCellValue and SetCells.
- Life.Universe.Tick: the double loop is written as the static method `ComputeNext`, which works on a `seq` value. The vector clone and its in-place writes become sequence updates, so aliasing between `next` and `cells` is not modelled (the Rust code has none).
- The host render loop (`www/index.js`) and the browser test harness are not modelled. Only the test's glider fixture is kept, as `Glider`.
