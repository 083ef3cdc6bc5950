# Game of Life grid simulator, modelled in Dafny

A model of the `GameOfLife` simulator of life-rs (`src/main.rs`): a fixed-size
rectangular grid of boolean cells that advances one generation at a time under
Conway's B3/S23 rule, with neighbour windows clipped at the grid edges (no
wrap-around), and renders itself as lines of glyphs.

The project has five modules, one file each:

- `board.dfy` (`Board`): the `GameOfLife` struct as a datatype
  (`width`, `height`, `grid: seq<seq<bool>>`), its invariant `Valid` (the grid is
  `height` rows of `width` cells), and construction `New` with the random
  source passed in as a function `coin(row, column)`.
- `neighbours.dfy` (`Neighbours`): `count_neighbors`. The clipped window
  (`WindowLo` is `i.saturating_sub(1)`, `WindowHi` is `(i + 1).min(n - 1)`), the
  count over that window as a function (`WindowCount`) and as the nested loop
  the program runs (`CountNeighbors`). Both are proved equal to a declarative
  count, `MooreCount`: the number of live on-grid cells at Chebyshev distance
  exactly 1. That count is in turn proved to be the size of the set
  `LiveNeighbours`.
- `life.dfy` (`Life`): the rule (`Rule`) and `next`, as a function (`Step`) and
  as the program's double loop filling a fresh grid (`Next`). It also holds the
  count bounds and the one-generation properties.
- `patterns.dfy` (`Patterns`): the blinker, which turns over and has period 2
  even on a 3x3 grid. It also holds `InPlaceSweep`, an update that overwrites
  cells in scan order instead of filling a fresh grid. Proved: the sweep
  already gets the blinker wrong, so the fresh buffer of `next` is needed.
- `render.dfy` (`Render`): `print` as a pure function from the grid to lines
  of glyphs (`Lines`), the program's loop producing them (`Print`), and a
  reading-back function (`Parse`) that proves rendering loses nothing.

Snapshot semantics: the model's grids are immutable values. `Next` reads only
the old `game` and writes only its fresh `nextGrid`. Its contract says that every
result cell is `Rule(old cell, MooreCount(old grid, cell))`. So no cell's count
can see an updated cell, and the new grid takes effect only when `Next`
returns it.

The blinker needs no margin around it: `BlinkerTurns` proves that the
vertical blinker becomes the horizontal one on a grid of exactly 3x3, where
every window but the centre's is clipped.

## Model

| member | source | states |
|---|---|---|
| Board.New | src/main.rs:14-24 | construction yields a valid grid of exactly `height` rows of `width` cells, each cell being the value drawn for it |
| Board.NewReachesEveryGrid | src/main.rs:14-18 | every rectangular grid of the given dimensions is a possible outcome of construction |
| Neighbours.WindowIsClippedNeighbourhood | src/main.rs:46-47 | the window bounds never go below 0 or past the last index and contain the centre; an index is in the window iff it is on the grid and within distance 1; the window spans 3 indices inside, 2 at an edge, 1 on a length-1 axis |
| Neighbours.RowTallyIsMooreRow | src/main.rs:47-51 | the inner loop over one row of the window counts exactly that row's live neighbours |
| Neighbours.WindowCountIsMoore | src/main.rs:43-53 | the clipped-window count equals the number of live on-grid cells at Chebyshev distance exactly 1 |
| Neighbours.MooreCountIsCardinality | src/main.rs:43-53 | that number is the size of the set of live on-grid cells (x, y) with abs(x-i) <= 1, abs(y-j) <= 1 and (x, y) != (i, j) |
| Neighbours.CountNeighbors | src/main.rs:43-53 | the nested inclusive-range loop, with every grid access in bounds, returns the declarative count and the size of the live-neighbour set |
| Life.Rule | src/main.rs:32-36 | a live cell survives iff it has 2 or 3 live neighbours; a dead cell is born iff it has exactly 3; every other case is dead |
| Life.Step | src/main.rs:27-40 | one generation keeps width and height, and every cell is the rule applied to the old cell and its count in the old grid |
| Life.Next | src/main.rs:27-40 | the loop filling a fresh all-dead grid cell by cell yields the same dimensions and cells as the snapshot update, and equals `Step` |
| Life.CountBounds | src/main.rs:43-53 | the count is at most the window's size minus the centre, so at most 8 anywhere, 5 on an edge and 3 in a corner |
| Life.InteriorCount | src/main.rs:46-51 | away from the edges the window is the full 3x3 block and the count is the sum over all eight surrounding cells |
| Life.StepKeepsDeadGridDead | src/main.rs:28-36 | an all-dead grid is still all dead after one generation |
| Life.IsolatedCellDies | src/main.rs:32-35 | a live cell with no live neighbours is dead after one generation |
| Patterns.BlinkerTurns | src/main.rs:27-40 | a vertical blinker on a 3x3 grid becomes a horizontal one and vice versa |
| Patterns.BlinkerHasPeriodTwo | src/main.rs:27-40 | two generations bring a blinker back to itself |
| Patterns.InPlaceSweepBreaksBlinker | src/main.rs:28-39 | an update that overwrote cells in scan order would leave cell (1, 0) of the vertical blinker dead where the fresh-buffer update brings it to life, so building `next_grid` separately matters |
| Render.RenderRow | src/main.rs:59-62 | a row's line has one glyph per cell, the live glyph exactly where the cell is alive |
| Render.Lines | src/main.rs:57-65 | rendering yields `height` lines of `width` glyphs, then one empty line, each glyph the live one iff its cell is alive |
| Render.ParseLines | src/main.rs:57-65 | the grid can be read back from its rendered lines, so distinct grids render differently |
| Render.Print | src/main.rs:57-65 | the program's row and column loops produce exactly those lines |

## Left out

- Random initialisation: `thread_rng` and `rng.gen::<bool>()` are a foreign random source. `New` takes the drawn values as a parameter `coin` instead.
- Terminal output: the clear-screen escape sequence and the `print!`/`println!` writes are not modelled. `Lines` and `Print` return the lines that would be written.
- The driver in `main`: the 100 ms `thread::sleep` and the fixed 2000-iteration loop over a 30x10 grid. They only pace and repeat `print` and `next`.
- The exact glyphs: the two Unicode symbols are abstracted as the two distinct constructors of `Glyph`.
- Zero-dimension grids: every count takes `i < height` and `j < width`. So the `height - 1` and `width - 1` of `count_neighbors` never wrap below 0. `next` and `print` handle empty grids: their loops do not run.
- Machine integers: indices are unbounded naturals. `i + 1` cannot overflow in the program either, since `i < height`.
- In-place mutation of `self.grid`: `Next` returns the new simulator value instead of assigning the field.
