# gogol: Game of Life grid and generation step, in Dafny

This project models the core of `gogol`, a terminal Game of Life in Go. The
core is the grid, a flat row-major buffer of `width*height` booleans in which
cell (x, y) sits at index `y*width+x`. The grid is read with `get` and written
with `set` under one of two boundary policies:

- **Clamped**: off-grid cells read as dead.
- **Toroidal**: a coordinate off an edge is corrected to the opposite edge.

On top of the grid sit `neighborCount`, which adds up eight `get` reads, one
at each Moore offset, and `step`. `step` writes the next generation into
the `current` buffer, reading only from `last`, and then copies `current`
back into `last`.

The program keeps `width`, `height` and the `--toroidal` flag in globals. In
the model they are an immutable `Grid.Shape(width, height, boundary)` that
every operation takes as a parameter. Buffers are `seq<bool>` (`Grid.Board`).

Modules:

- `Grid` (grid.dfy): shape, index arithmetic, `Get`, `Set`, wrap behaviour.
- `Life` (life.dfy): `NeighborCount`, the transition rule `NextCell`, and the
  whole next generation `Next`. `Next` is the reference definition the step
  is proved against.
- `Engine` (engine.dfy): `step`, twice. `Step` works on buffers passed by
  value and returns both new buffers. `StepInPlace` works on two distinct
  mutable arrays, as the program does.
- `Patterns` (patterns.dfy): the start-up seed (a glider and a blinker,
  written with `set`) and the blinker's period-two oscillation.

Toroidal `get` and `set` (main.go:32-42, 50-61) send *every* negative
coordinate to `width-1` and *every* coordinate at or past `width` to 0, and
likewise for rows. The model keeps this exactly, so in toroidal mode
`Grid.Get` and `Grid.Set` take any coordinate. The correction is one jump,
not a modulus: `Grid.ToroidalWrapIsNotModulo` shows that column -2 reads
column `width-1`. On a toroidal grid narrower or shorter than 3, several of
the eight offsets read the same cell (with one column, the left and right
reads are the cell itself), and `neighborCount` counts every read:
`Life.NarrowTorusCountsTwice`.

## Model

| member | source | states |
|---|---|---|
| Grid.Empty | main.go:131 | a freshly made buffer has one cell per grid position and every cell dead |
| Grid.Wrap | main.go:33-42 | the corrected coordinate always lies in `[0, n)`, and a coordinate already in range is left unchanged |
| Grid.Index | main.go:46 | the row-major index `y*width+x` of an on-grid cell lies in `[0, width*height)`, and division by `width` gives back (x, y) |
| Grid.IndexInjective | main.go:46 | two on-grid cells share a buffer index exactly when they are the same cell |
| Grid.IndexSurjective | main.go:46 | every buffer index is the index of the on-grid cell `(i % width, i / width)` |
| Grid.Target | main.go:32-42 | the index `get`/`set` touch is always inside the buffer, and for an on-grid cell it is that cell's own index |
| Grid.Get | main.go:31-47 | in both modes an on-grid read returns `board[y*width+x]`, and a clamped read off the grid is false |
| Grid.Set | main.go:49-63 | the result keeps the buffer's length, holds `v` at the normalised index, and agrees with the input at every other index |
| Grid.GetOfDeadBoard | main.go:31-47 | an all-dead buffer reads dead at every coordinate, in both modes |
| Grid.ToroidalWrapsColumns | main.go:33-37 | in toroidal mode column -1 reads as column `width-1`, and column `width` reads as column 0 |
| Grid.ToroidalWrapsRows | main.go:38-42 | in toroidal mode row -1 reads as row `height-1`, and row `height` reads as row 0 |
| Grid.ToroidalWrapsAnyDistance | main.go:32-42 | in toroidal mode every negative column reads column `width-1`, every column at or past `width` reads column 0, and the same holds for rows |
| Grid.ToroidalSetWraps | main.go:50-61 | in toroidal mode a write any distance off an edge is the same write as one at the opposite edge's first column or row |
| Grid.ToroidalWrapIsNotModulo | main.go:33-34 | the toroidal correction is one fixed jump, not a modulus: column -2 reads column `width-1`, a different cell from column `width-2` |
| Grid.GetSetSame | main.go:31-63 | reading back a cell just written with `set` gives the written value, in both modes |
| Grid.GetSetOther | main.go:49-63 | writing one on-grid cell leaves every other on-grid cell's value unchanged |
| Life.MooreIsNeighbourhood | main.go:65-91 | the eight offsets visited by `neighborCount` are exactly the non-zero steps of at most one in each direction |
| Life.MooreDistinct | main.go:65-91 | the eight visited offsets are pairwise distinct |
| Life.NarrowTorusCountsTwice | main.go:65-91 | on a toroidal grid one or two columns wide, the left and right reads of a column-0 cell hit the same cell and the count includes it twice; with one column that cell is the cell itself |
| Life.NeighborCount | main.go:65-91 | the count is between 0 and 8 |
| Life.NeighborCountOfDeadBoard | main.go:65-91 | on an all-dead buffer every cell has a neighbour count of 0 |
| Life.NeighborCountIsMooreCount | main.go:65-91 | the eight unrolled tests add up to the live count over the Moore offset list |
| Life.LiveAmongAppend | main.go:65-91 | counting live cells over a concatenation of offset lists is the sum of the two counts |
| Life.LiveAmongExtract | main.go:65-91 | taking one offset out of a list takes exactly that neighbour's contribution out of the count |
| Life.LiveAmongPermutation | main.go:65-91 | the live count over an offset list does not depend on the order of the offsets |
| Life.NeighborCountAnyOrder | main.go:65-91 | summing the eight neighbours in any order gives the program's count |
| Life.LonelyIffNoNeighbours | main.go:65-91 | the count is 0 if and only if none of the eight adjacent cells is alive |
| Life.CrowdedIffAllNeighbours | main.go:65-91 | the count is 8 if and only if all eight adjacent cells are alive |
| Life.NextCell | main.go:97 | the program's rule (alive and n == 2, or n == 3) is the B3/S23 rule: a live cell survives with 2 or 3 neighbours, and a dead cell is born with exactly 3 |
| Life.Next | main.go:94-99 | the next generation has the buffer's length, and each on-grid cell holds the rule applied to that cell's state and neighbour count in the old buffer |
| Life.Run | main.go:110-111 | any number of generations keeps the buffer at one cell per grid position |
| Life.RunAdditive | main.go:110-111 | `j` generations followed by `k` more give the same board as `j + k` generations |
| Life.BoardsAgree | main.go:94-99 | two right-sized buffers that agree at every grid position are equal |
| Life.DeadStaysDead | main.go:97 | in either mode, a fully dead board is its own next generation |
| Life.DeadStaysDeadForever | main.go:103-113 | a fully dead board stays fully dead after any number of steps |
| Life.IsolatedCellDies | main.go:97 | a cell with no live adjacent cell is dead in the next generation, whatever its own state |
| Life.CrowdedCellDies | main.go:97 | the centre of a fully live 3x3 block dies of overpopulation |
| Engine.Step | main.go:94-101 | each on-grid cell of the new `current` equals the rule (alive in `last` and n == 2, or n == 3), with `n` counted on the old `last`; afterwards `last` equals `current` and both keep length `width*height` |
| Engine.StepIsNext | main.go:94-99 | any buffer meeting the step's cell-wise contract is exactly the reference next generation |
| Engine.AdvanceRow | main.go:96-98 | one pass of the inner loop fills row `y` of `current` from `last`, leaving the rows above it correct |
| Engine.StepInPlace | main.go:94-101 | on two distinct arrays, `current` ends up holding the next generation of the old `last`, and `last` ends up equal to `current` |
| Engine.CopyInto | main.go:100 | `copy` of two equal-length buffers makes the destination equal to the source |
| Patterns.Plant | main.go:135-144 | writing `true` at a list of cells keeps the buffer's length, never kills a live cell, and leaves every listed cell's buffer slot alive, in both modes |
| Patterns.PlantExactly | main.go:135-144 | in either mode, after planting a buffer slot is alive exactly when it was alive before or some listed cell's (possibly wrapped) write lands on it |
| Patterns.PlantMarks | main.go:135-144 | writing `true` at a list of on-grid cells makes exactly those cells alive and leaves every other cell as it was |
| Patterns.PatternCells | main.go:135-144 | a dead board with listed on-grid cells planted is alive exactly at those cells, and on a clamped grid nowhere else |
| Patterns.Seed | main.go:131-144 | the start-up board has one cell per grid position, and on a grid at least 21 by 7 its buffer is `true` exactly at the glider and blinker cells |
| Patterns.SeedCells | main.go:134-144 | on a grid at least 21 by 7, the start-up board is alive exactly at the five glider cells and the three blinker cells |
| Patterns.SeedWritable | main.go:134-144 | the seed's writes are all legal exactly when the grid is toroidal, or clamped and at least 21 by 7 |
| Patterns.VerticalLineNext | main.go:97 | under the rule, the cells alive after a vertical line of three are exactly the horizontal line through its centre |
| Patterns.HorizontalLineNext | main.go:97 | under the rule, the cells alive after a horizontal line of three are exactly the vertical line through its centre |
| Patterns.VerticalCells | main.go:142-144 | a planted vertical line on a clamped grid is alive exactly at its three cells |
| Patterns.HorizontalCells | main.go:142-144 | a planted horizontal line on a clamped grid is alive exactly at its three cells |
| Patterns.BlinkerTurnsHorizontal | main.go:94-101 | on a clamped grid with room around it, a vertical blinker becomes horizontal after one step |
| Patterns.BlinkerTurnsVertical | main.go:94-101 | on a clamped grid with room around it, a horizontal blinker becomes vertical after one step |
| Patterns.BlinkerPeriodTwo | main.go:94-101 | the blinker returns to its starting board after two steps: a period-two oscillator |

## Left out

- `draw` (main.go:19-29): terminal rendering only, with no logic.
- `loop` (main.go:103-117): terminal event polling only. The model does not
  map keys to actions. A run of `k` space presses is `Life.Run`.
- `init` and flag parsing (main.go:9, 119-121), and `termbox.Init`/`Size`/`Close`
  in `main` (main.go:124-132): these are foreign library calls. The boundary
  mode and the dimensions are plain inputs (`Grid.Shape`).
- The copy of the seed into `curState` at start-up (main.go:146) is a plain
  buffer copy and is not modelled separately. `Engine.CopyInto` states what
  `copy` does.
- Clamped `set` with an off-grid coordinate (main.go:62): the program writes
  an unchecked index, so it either writes the wrong cell or panics. The model
  makes an on-grid coordinate a precondition of `Grid.Set` in clamped mode.
  For the seed, `Patterns.SeedWritable` states when that precondition holds.
- Grids with zero width or height: the model requires both to be positive.
  With a zero dimension the buffers are empty and the loops in `draw` and
  `step` never run, but the first seed `set` (main.go:135) indexes an empty
  slice and panics, in both modes.
- Go's 64-bit `int`: the model's integers are unbounded. `y*width+x` cannot
  overflow for any buffer that fits in memory.
- Glider displacement over four generations: this holds for the seed but is
  a multi-step concrete computation, and the program does not rely on it.
  Only the blinker's oscillation is proved.
