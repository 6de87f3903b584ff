# Conway's Game of Life: the generation engine

This project models the automaton at the heart of the `Game` class in `Main.cpp`
and proves properties of that model. The automaton is Conway's Game of Life on a
bounded grid whose edges do not wrap around. The game keeps two flat `bool`
buffers of `width * height` cells. Cell (x, y) lives at index `y * width + x`.
`oldWorld` holds the current generation and `newWorld` receives the next one:

- `CheckCell` reads a cell of `oldWorld`; a cell outside the grid reads as dead.
- `CheckLiveNeighbors` counts the live cells among the eight Moore neighbours.
- `Tick` applies the B3/S23 rule to every cell in row-major order, reading
  `oldWorld` and writing `newWorld`, and then copies `newWorld` back over `oldWorld`.
- `ClearWorld` zeroes both buffers.
- The mouse handlers force one cell of `oldWorld` alive or dead. They write at
  `y * width + x` without checking the coordinates.

The project has two modules:

- `Life` (life.dfy) is the specification, written over values. A generation is a
  `Grid` value holding the flat row-major cell sequence. `Alive` reads a cell with
  integer coordinates, and every coordinate outside the grid is dead. `LiveNeighbours`
  counts the live Moore neighbours. `Rule` is the decision table. `NextGen` advances a
  whole generation, `Dead` is the cleared grid and `Edit` is a single-cell edit.
- `GameOfLife` (game.dfy) holds the class `Game`. It has the two buffers as
  `array<bool>` fields and the dimensions as constants. `CheckCell` and
  `CheckLiveNeighbors` are functions that read `oldWorld`. Their coordinates are
  32-bit unsigned values, and `x - 1` and `x + 1` are computed modulo 2^32 as in the
  C++ code. `ClearWorld`, `Tick`, `SetCell` and `Reset` are methods that update the
  arrays in place. Each method is proved against the value-level specification, for
  example `Current() == NextGen(old(Current()))` for `Tick`.
- `Patterns` (patterns.dfy) advances concrete grids: a 2 × 2 block, which is a still
  life, and a blinker in the corner of a 5 × 5 grid, which has period two. A third
  pattern is a line of three cells along the top edge. The edge truncates it: the cell
  above the line, which would be born in an infinite Life universe, lies outside the grid.

The source's coordinates and indices are `uint32_t`. The unsigned wrap is written
out with `Dec32` and `Inc32`. Decrementing 0 gives 2^32 - 1, which satisfies the
`x > width - 1` test, so `CheckCell` returns false. A neighbour off the left or top
edge therefore reads as dead, just as it does with integer coordinates (`Alive`,
`LiveNeighboursWrapped`). The dimensions are signed 32-bit values in the source
(`game::Pointi`), which fixes them at 50 × 50.
Here they are constructor parameters that must satisfy `ValidSize`: both are
positive 32-bit signed values, and `width * height` is at most 2^31 - 1.
`ClearWorld` computes that product as a signed 32-bit value (Main.cpp:115-116), so the
bound keeps it from overflowing. The bound also keeps the unsigned index
`y * width + x` from wrapping.

The source runs the per-cell step of `Tick` (lines 128-160) inline in the inner loop.
Here that step is the method `UpdateCell`, which `Tick`'s inner loop calls. The loop
structure, the order of writes and the final copy are unchanged.

## Model

| member | source | states |
|---|---|---|
| `Life.Dec32` | Main.cpp:94-108 | `x - 1` on a `uint32_t`: one less, except that 0 wraps to 2^32 - 1 |
| `Life.Inc32` | Main.cpp:98-104 | `x + 1` on a `uint32_t`: one more, except that 2^32 - 1 wraps to 0 |
| `Life.Index` | Main.cpp:87 | the row-major position `y * width + x` of an in-bounds cell lies inside the buffer |
| `Life.Alive` | Main.cpp:81-88 | a cell reads as alive only when its coordinates lie inside the grid (the grid does not wrap) |
| `Life.CountAlive` | Main.cpp:90-111 | counting live cells over a list of offsets gives at most one per offset |
| `Life.LiveNeighbours` | Main.cpp:90-111 | the live-neighbour count of any cell is between 0 and 8 |
| `Life.Rule` | Main.cpp:131-160 | the decision table (under/over-population, survival, birth) is exactly B3/S23: next state alive iff n == 3, or the cell is alive and n == 2 |
| `Life.NextGen` | Main.cpp:124-162 | the next generation has the same dimensions and is again a well-formed grid |
| `Life.Generations` | Main.cpp:119-166 | n successive ticks keep the grid's dimensions and leave a well-formed grid |
| `Life.Dead` | Main.cpp:113-117 | the cleared grid has no live cell at any coordinate |
| `Life.Edit` | Main.cpp:239-250 | an edit sets cell (x, y) to the given state and leaves every other coordinate as it was |
| `Life.WriteAt` | Main.cpp:239-250 | storing a state at flat position i, as the edit handlers do without a bounds check, is the edit of whichever in-bounds cell is stored at position i |
| `Life.WriteAtDecodes` | Main.cpp:239-250 | the write at position i edits the cell (i mod width, i div width), which always lies inside the grid |
| `Life.PastRowEndEditsNextRow` | Main.cpp:239-250 | with x equal to the width, the unchecked write edits cell (0, y + 1), the first cell of the next row |
| `Life.NextGenAt` | Main.cpp:128-160 | every in-bounds cell of the next generation is Rule of its current state and live-neighbour count; outside the grid it stays dead |
| `Life.NextGenIndex` | Main.cpp:128-159 | the next state of cell (x, y) is stored at that cell's own index `y * width + x` |
| `Life.NextGenCells` | Main.cpp:124-162 | a cell sequence applies Rule at every cell's index if and only if it is NextGen's cell sequence |
| `Life.CountAliveZero` | Main.cpp:90-111 | a neighbour count is 0 if and only if none of the examined cells is alive |
| `Life.DeadStaysDead` | Main.cpp:151-159 | advancing the all-dead grid gives the all-dead grid again |
| `Life.LiveNeighboursUnrolled` | Main.cpp:92-110 | the live-neighbour count is the sum of the eight neighbour tests, in the source's order |
| `Life.SameCells` | Main.cpp:81-88 | two grids of the same dimensions with the same live coordinates are the same grid, so the cell buffer holds nothing but the cells |
| `Life.WriteNext` | Main.cpp:124-162 | writing next states into an output buffer, at the positions of a visiting order, keeps the buffer's length |
| `Life.WriteNextAt` | Main.cpp:124-162 | after those writes, each visited position holds its cell's next state, computed from the current generation alone; every other position keeps what the buffer held |
| `Life.AnyOrderGivesNextGen` | Main.cpp:124-162 | once every position has been visited, the output buffer is the next generation, whatever the visiting order and whatever the buffer held before; this is stated of the writes on their own, and `Tick` proves its row-major instance separately |
| `Patterns.BlockStep` | Main.cpp:128-160 | on any grid whose live cells are exactly one 2 × 2 block, at any position inside the grid, the next generation's live cells are exactly that block |
| `Patterns.BlockIsStill` | Main.cpp:119-166 | advancing the block grid gives the same grid: the block is a still life |
| `Patterns.BlockStaysStill` | Main.cpp:119-166 | a block at any position inside the grid, with every other cell dead, is unchanged after any number of generations |
| `Patterns.HorizontalStep` | Main.cpp:128-160 | on any grid of at least 5 × 5 whose live cells are exactly (0, 1), (1, 1) and (2, 1), the next generation's live cells are exactly (1, 0), (1, 1) and (1, 2) |
| `Patterns.HorizontalTurnsVertical` | Main.cpp:119-166 | the horizontal blinker against the left edge advances to the vertical blinker against the top edge |
| `Patterns.VerticalStep` | Main.cpp:128-160 | on any grid of at least 5 × 5 whose live cells are exactly (1, 0), (1, 1) and (1, 2), the next generation's live cells are exactly (0, 1), (1, 1) and (2, 1) |
| `Patterns.VerticalTurnsHorizontal` | Main.cpp:119-166 | the vertical blinker advances back to the horizontal one |
| `Patterns.BlinkerPeriodTwo` | Main.cpp:119-166 | the blinker returns after two generations and differs after one |
| `Patterns.TopRowStep` | Main.cpp:81-88 | on any grid of at least 5 × 5 whose live cells are exactly (0, 0), (1, 0) and (2, 0), the next generation's live cells are exactly (1, 0) and (1, 1); cell (1, -1) has three live neighbours but is not born, because cells outside the grid are dead and the grid does not wrap |
| `Patterns.TopRowTruncated` | Main.cpp:119-166 | advancing the top-row line gives exactly the grid holding (1, 0) and (1, 1) |
| `Life.LiveNeighboursWrapped` | Main.cpp:94-108 | stepping to a neighbour with 32-bit unsigned arithmetic reads the same cells as stepping with integer coordinates (`Alive`), as long as x + 1 and y + 1 do not wrap |
| `GameOfLife.Game.constructor` | Main.cpp:47-73 | both buffers are freshly allocated with `width * height` cells; after the clear and the first tick, both are all dead |
| `GameOfLife.Game.CheckCell` | Main.cpp:81-88 | reading (x, y) with unsigned coordinates gives the cell's state in `oldWorld`, and dead outside the grid |
| `GameOfLife.Game.CheckLiveNeighbors` | Main.cpp:90-111 | the count is at most 8, and it equals the number of live in-bounds Moore neighbours of (x, y) in `oldWorld` |
| `GameOfLife.Game.ClearWorld` | Main.cpp:113-117 | afterwards every cell of both `oldWorld` and `newWorld` is dead |
| `GameOfLife.Game.Tick` | Main.cpp:119-166 | the new `oldWorld` is NextGen of the old `oldWorld` alone, whatever `newWorld` held before, and `newWorld` equals `oldWorld` afterwards |
| `GameOfLife.Game.UpdateCell` | Main.cpp:128-160 | one step of the inner loop writes the next state of its cell at `y * width + x` and changes no other entry of `newWorld`; `oldWorld` is not modified |
| `GameOfLife.Game.SetCell` | Main.cpp:239-250 | an edit stores the state at position `y * width + x` of `oldWorld` and changes nothing else: it edits the cell that position decodes to, which is (x, y) itself when (x, y) lies inside the grid; `newWorld` stays as it was |
| `GameOfLife.Game.Reset` | Main.cpp:209-214 | clearing followed by a tick leaves every cell of both buffers dead, whatever the state before |

## Left out

- Rendering is not modelled: the `pixelMode.PixelClip` calls in `Tick` and in the edit
  paths, `pixelMode.Render`, and the sprite-batch and sprite-font text. These are
  calls into a graphics framework, and nothing they do feeds back into the grid.
- Input and window handling is not modelled: the keyboard, the mouse, fullscreen
  toggling and stopping the engine. `SetCell` stands for the two mouse edits and
  takes the cell coordinates as parameters. `Reset` stands for the clear key.
- Frame timing is not modelled: `tickSpeed`, the static `time` accumulator and the
  comma/period adjustments. These are float arithmetic driven by the frame clock.
  The `running` and `hideText` toggles are left out too.
- Allocation and release are not modelled. The `new[]` in `LoadContent` becomes the
  constructor's `new bool[...]`, and `Shutdown`'s `delete[]` has no counterpart. The
  buffers are `const` fields because the source never reassigns them after loading.
- `Initialize`, font loading, the logger and `main` are not modelled. The fixed
  50 × 50 size becomes a constructor parameter.
- `GameOfLife.Game.SetCell` requires `y * width + x` to be a position inside the buffer.
  The source writes there without checking the coordinates. A column past the right
  edge edits a cell of the next row (`Life.PastRowEndEditsNextRow`). Only a position
  before or beyond the buffer writes outside it. That write is undefined behaviour,
  so it is not modelled.
- `GameOfLife.Game.constructor` requires valid dimensions. The code has no error path
  for invalid dimensions: they are fixed constants.
- `GameOfLife.Game.CheckLiveNeighbors` states the exact count only when `x + 1` and
  `y + 1` do not wrap. At `x = 2^32 - 1` the source's `x + 1` wraps to column 0 and
  would read that column. `Tick`, the only caller, never passes such coordinates,
  because a dimension is at most 2^31 - 1.
- The `x < 0` and `y < 0` tests in `CheckCell` are always false on unsigned values,
  so they are not modelled.
