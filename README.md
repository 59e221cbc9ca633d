# Conway's Game of Life on a bounded grid

This project models the engine of a terminal Game of Life program (`life.py`)
and proves what it computes. The grid has `w` columns and `h` rows. Cell
`(i, j)` is column `i`, row `j`; it is `true` when alive. The edges are hard:
a coordinate off the grid is not a neighbour, and nothing wraps around.

The engine has three operations:

- `neigh_num` counts the live cells among the eight Moore neighbours of a
  cell. It walks a fixed list of eight offsets and skips those that leave the
  grid.
- `evolve` allocates a fresh all-dead grid and fills it with the next
  generation. A live cell with 2 or 3 live neighbours survives. A dead cell
  with exactly 3 is born.
- `random_state` makes `n` dead cells of the caller's grid alive, one per
  round, in place.

The Dafny files:

- `grid.dfy` (module `Grid`): the grid as a value (`seq<seq<bool>>`), the
  shape predicate `IsGrid`, grids built from a set of live coordinates
  (`Pattern`), the sets of live and dead cells, and `Cells`, the value held
  by an `array2<bool>`.
- `rules.dfy` (module `Rules`): the offset list, the count (`Count`), its
  independent characterisation as the set of live neighbours
  (`LiveNeighbours`), the rule (`Rule`) and the next generation (`Next`),
  with the lemmas about them.
- `patterns.dfy` (module `Patterns`): the block, the blinker and the L-shaped
  tromino, each placed anywhere it fits on the grid, edges included.
- `life.dfy` (module `Life`): the three operations as methods over
  `array2<bool>`, each proved against the functions of `Rules`, and the
  program's seeding step. The inner loop of `evolve` over the rows of one
  column is the method `EvolveColumn`, which `Evolve` calls once per column;
  the cells visited and their order are those of the nested loops.

## Model

| member | source | states |
|---|---|---|
| `Rules.Count` | life.py:6-13 | the count of a cell is at most 8, one per offset |
| `Life.NeighNum` | life.py:6-13 | the loop over the offset list returns exactly `Count` of the array's contents, at most 8, and reads no cell off the grid |
| `Rules.CountIsLiveNeighbours` | life.py:8-12 | the count equals the number of live on-grid cells of the Moore neighbourhood: each one counted once, the cell itself never |
| `Rules.CountAtCorner` | life.py:10 | a corner cell counts at most 3 |
| `Rules.CountAtEdge` | life.py:10 | a cell on the border counts at most 5 |
| `Rules.CountIsLocal` | life.py:9-12 | two grids that agree on the on-grid neighbours of a cell give it the same count |
| `Rules.CountIgnoresCentre` | life.py:8 | changing the cell itself never changes its count |
| `Rules.CountOfEmpty` | life.py:6-13 | on a grid with no live cell every count is 0 |
| `Rules.CountOfSingle` | life.py:6-13 | with one live cell `c`, a cell counts 1 if `c` is its neighbour and 0 otherwise |
| `Rules.Next` | life.py:15-22 | the next generation of a `w` by `h` grid is a `w` by `h` grid |
| `Rules.NextCell` | life.py:17-21 | each next cell is alive iff it is alive with 2 or 3 live neighbours, or dead with exactly 3 |
| `Rules.NextDiesOfCrowding` | life.py:20-21 | a cell with fewer than 2 or more than 3 live neighbours is dead next |
| `Rules.LoneCellDies` | life.py:20-21 | a live cell with no live neighbour dies |
| `Rules.EmptyStaysEmpty` | life.py:15-22 | an all-dead grid evolves to an all-dead grid |
| `Rules.SingleCellVanishes` | life.py:15-22 | a grid with one live cell evolves to an all-dead grid |
| `Life.Evolve` | life.py:15-22 | returns a fresh array of the same shape whose contents are `Next` of the input; the input is never written |
| `Life.EvolveColumn` | life.py:18-21 | one pass of the inner loop sets every cell of column `i` of the new grid by the rule applied to the input's count, and leaves every other column as it was |
| `Patterns.BlockIsStill` | life.py:15-22 | a 2 by 2 block anywhere on the grid evolves to itself |
| `Patterns.HorizontalBecomesVertical` | life.py:15-22 | a horizontal line of three becomes the vertical line centred on the same cell |
| `Patterns.VerticalBecomesHorizontal` | life.py:15-22 | the vertical line of three becomes the horizontal line again |
| `Patterns.BlinkerPeriodTwo` | life.py:15-22 | the blinker changes after one generation and is back after two |
| `Patterns.TrominoBecomesBlock` | life.py:15-22 | the empty corner of an L-shaped tromino is born and nothing else changes, giving a block |
| `Grid.MakeAliveSets` | life.py:29 | making a dead cell alive adds exactly that cell to the live cells and removes it from the dead cells |
| `Life.RandomState` | life.py:24-29 | given at least `n` dead cells, every live cell stays alive and exactly `n` more cells are alive (none when `n <= 0`) |
| `Grid.EmptyGridDeadCells` | life.py:40 | the all-dead `w` by `h` grid has no live cell and `w * h` dead ones |
| `Life.SeedTargetFits` | life.py:41 | a tenth of the cells, rounded down, never exceeds the dead cells of the empty grid, and is below them when the grid has a cell |
| `Life.InitialState` | life.py:40-41 | the program's start state is a fresh `w` by `h` grid with exactly `(w * h) / 10` live cells and the rest dead |

## Left out

- `print_state` (life.py:31-35) is not modelled: it writes to the terminal through curses.
- `main` (life.py:37-51) is not modelled beyond its first two grid steps (`InitialState`): terminal setup, the terminal size, clearing, redrawing and the key-driven loop that ends on `q` are terminal I/O.
- The random numbers of `randrange` (life.py:26, life.py:28) are not modelled. A round of `RandomState` picks any dead cell of the grid by nondeterministic choice instead. The retry loop, which ends on a dead cell only by chance, is not modelled as a loop.
- `RandomState`: its precondition is "at least `n` dead cells". A target equal to the number of dead cells is allowed, because each round still has a dead cell to find.
- The seeding target `int((w * h) / 10)` (life.py:41) goes through floating-point division. `SeedTarget` uses integer division, which gives the same value for any grid small enough to be exact in a double.
- Grids with non-positive width or height (a tiny terminal, life.py:39) are not modelled: `w` and `h` are natural numbers.
- The grid is a rectangular `array2<bool>`. Python's list of separate column lists, which could in principle be ragged or aliased, is not modelled.
