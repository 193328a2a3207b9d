# Game of Life engine, modelled in Dafny

This project models the simulation engine of a small Conway's Game of Life
program: the `GameOfLife` class in `src/game_of_life.py`. The engine holds a
grid of cells, each 0 (dead) or 1 (alive), and supports four operations:

- construction of an all-dead grid of a given size;
- counting the live Moore neighbours of a cell, with no wrap-around;
- one generation step under the B3/S23 rule;
- toggling one cell.

Modules:

- `Grids` (`grids.dfy`): the grid value (`seq<seq<int>>`) and the shape, bounds,
  0/1 and all-dead predicates.
- `Life` (`life.dfy`): the rule.
  - `NextState`, `Count`, `Step` and `Toggle` are pure definitions.
  - `CountLiveNeighbors` and `UpdateGrid` are methods whose loops follow the
    engine's own loops. They are proved equal to `Count` and `Step`.
- `LifeProperties` (`life_properties.dfy`): properties of the rule. These are:
  - neighbour bounds at corners and edges, and that the centre is never counted;
  - the dead-outside edge policy;
  - locality, so the step is synchronous;
  - symmetry under swapping the two indices;
  - the all-dead fixpoint;
  - toggling twice is the identity;
  - still lifes and period-two oscillators over any number of generations.
- `Engine` (`engine.dfy`): the class as a value `GameOfLife(size, grid)`. It
  models the index errors the engine raises when the grid's shape and the
  size disagree.
- `Scenarios` (`scenarios.dfy`): concrete configurations. These are:
  - a lone centre cell;
  - a 1x1 grid;
  - the block still life;
  - the blinker oscillator, both as a grid and drawn through the engine's own
    construction, toggles and updates.

Indexing. The engine builds `grid_size[1]` rows of `grid_size[0]` cells. Its
step and neighbour count, however, read `grid[i][j]` with
`i < grid_size[0]` and `j < grid_size[1]`.

- `Life` works on a grid indexed `[x][y]` whose outer length is the first
  bound. On such a grid the two bounds and the shape always agree.
- `Engine` keeps the constructor exactly as written. It shows that the step
  succeeds exactly when the size is square or has no cells, and raises an
  index error otherwise (see Findings).

## Model

| member | source | states |
|---|---|---|
| Grids.Zeros | src/game_of_life.py:4 | A fresh grid has exactly the requested number of rows and cells per row, and every cell is dead. |
| Engine.New | src/game_of_life.py:2-4 | After construction every cell is 0. The grid has `size.1` rows of `size.0` cells, where a negative dimension gives none, as `range` does. The engine satisfies its invariant, and `GetGridSize` returns exactly the size passed in. |
| Engine.GetGrid | src/game_of_life.py:9-10 | The grid returned keeps the constructor's shape and holds only 0 and 1. |
| Engine.GetGridSize | src/game_of_life.py:6-7 | Returns the size recorded at construction. Its property is carried by `Engine.New` (it returns exactly the size passed in) and `Engine.SizeIsFixed` (no operation changes it). |
| Engine.SizeIsFixed | src/game_of_life.py:3-7 | `get_grid_size` returns the construction size. Neither update nor toggle changes it. |
| Life.NextState | src/game_of_life.py:24-32 | The cell written is 0 or 1. It is 1 exactly when the B3/S23 rule (`ConwayAlive`, from the `Birth` and `Survival` sets) says so. A cell holding any other value becomes dead. |
| Life.Count | src/game_of_life.py:36-49 | On a 0/1 grid the neighbour count lies in [0, 8]. |
| Life.CountLiveNeighbors | src/game_of_life.py:36-49 | The two nested loops over the 3x3 block compute exactly `Count`: the centre is skipped, and so is every position outside the bounds. The result lies in [0, 8] on a 0/1 grid. |
| Life.ShapeIsReadable | src/game_of_life.py:43-48 | On a grid of the bounds' shape, every neighbour the count reads exists, whatever the centre. So the count never raises there. |
| Life.Step | src/game_of_life.py:12-34 | The next generation has the same shape and holds only 0 and 1. Cell (i, j) is 1 exactly when the rule applied to the old cell and its old neighbour count says alive. |
| Life.UpdateGrid | src/game_of_life.py:12-34 | The engine's loop writes live cells into a fresh all-dead grid. It produces exactly `Step`, with the same shape, values 0/1 and the cellwise rule. |
| Life.Toggle | src/game_of_life.py:51-52 | The cell becomes `1 - v`, so 0 and 1 swap. Every other cell and the shape are unchanged. A 0/1 grid stays 0/1. |
| LifeProperties.OutsideAddsNothing | src/game_of_life.py:43-45 | Positions outside the bounds add nothing: the count is at most the number of in-bounds neighbour positions. |
| LifeProperties.CornerCountAtMostThree | src/game_of_life.py:43-45 | A corner cell has at most 3 live neighbours. |
| LifeProperties.EdgeCountAtMostFive | src/game_of_life.py:43-45 | A cell on any edge has at most 5 live neighbours. |
| LifeProperties.CountIgnoresCentre | src/game_of_life.py:40-41 | The count of (x, y) is the same whatever (x, y) itself holds: the cell never counts itself. |
| LifeProperties.EdgeIsDeadVoid | src/game_of_life.py:43-48 | The count equals the count in the same grid surrounded by a border of dead cells. Bounded edges therefore behave as a permanently dead outside, with no wrap-around. |
| LifeProperties.StepIgnoresDeadBorder | src/game_of_life.py:12-34 | Every cell evolves in the dead-bordered grid exactly as in the original. |
| LifeProperties.StepIsLocal | src/game_of_life.py:13-21 | The next state of a cell depends only on the old generation's 3x3 block around it. No cell already written for the next generation is read, so the step is synchronous. |
| LifeProperties.CountTranspose | src/game_of_life.py:38-48 | Swapping the two indices of the grid and of the cell leaves the neighbour count unchanged. |
| LifeProperties.StepTranspose | src/game_of_life.py:14-32 | Stepping the transposed grid gives the transposed next generation. |
| LifeProperties.DeadStaysDead | src/game_of_life.py:13-32 | The all-dead grid is a fixpoint: with no neighbours nothing is born. |
| LifeProperties.ToggleTwice | src/game_of_life.py:51-52 | Toggling the same cell twice restores the original grid. |
| LifeProperties.StillLifeForever | src/game_of_life.py:12-34 | A grid that one step leaves unchanged stays unchanged for any number of generations. |
| LifeProperties.PeriodTwoForever | src/game_of_life.py:12-34 | A grid that two steps bring back is back after every even number of generations. |
| Engine.Advance | src/game_of_life.py:12-34 | This is the corrected step. It steps the grid over its own rows and columns and never fails. The result keeps the invariant and the size, and follows the rule cell by cell. |
| Engine.UpdateGrid | src/game_of_life.py:12-34 | This is the step as written. It raises an index error exactly when some cell the loops visit is missing from the grid. Otherwise each cell follows the rule, counted within the size's bounds. The invariant and the size are kept, and the result equals `Advance`. |
| Engine.AdvanceReadsSize | src/game_of_life.py:13-21 | When the size is square or empty, the corrected step visits the same cells with the same bounds as the step as written. |
| Engine.CountLiveNeighbors | src/game_of_life.py:36-49 | This is the count as written, with bounds from the size and cells from the grid. It raises exactly when an in-bounds neighbour other than the centre is missing from the grid. Otherwise the result lies in [0, 8] on a 0/1 grid. |
| Engine.MissingCentreIsNotRead | src/game_of_life.py:38-48 | The centre is skipped before any read, so a missing centre is no error: on size (2, 1) the count at (1, 0) succeeds with 0. |
| Engine.ToggleCell | src/game_of_life.py:51-52 | Exactly cell (x, y) flips to `1 - v`. The size, the shape and every other cell are unchanged, and the invariant is kept. |
| Engine.ToggleCellTwice | src/game_of_life.py:51-52 | Toggling the same cell twice gives back the same engine. |
| Engine.SquareNeverRaises | src/game_of_life.py:12-21 | On a square size the step never raises. Neither does the count, at any (x, y). |
| Engine.NonSquareUpdateRaises | src/game_of_life.py:4-18 | The step raises an index error if and only if both dimensions are non-empty and they differ. |
| Engine.TwoByOneUpdateRaises | src/game_of_life.py:4-18 | Construction with size (2, 1) followed by one update raises an index error. |
| Engine.NonSquareCountRaises | src/game_of_life.py:44-48 | On such a size some neighbour count raises as well. |
| Scenarios.LoneCentreCounts | src/game_of_life.py:36-49 | In a 3x3 grid whose only live cell is the centre, every other cell, corners included, counts 1 live neighbour. The centre counts 0. |
| Scenarios.LoneCentreDies | src/game_of_life.py:12-34 | That lone cell dies and nothing is born: the next generation is all dead. |
| Scenarios.SingleCellHasNoNeighbours | src/game_of_life.py:36-49 | On a 1x1 grid the count at (0, 0) is 0, whatever the cell holds. |
| Scenarios.BlockIsStill | src/game_of_life.py:12-34 | A 2x2 block in a 4x4 grid is unchanged by one step. |
| Scenarios.BlockForever | src/game_of_life.py:12-34 | The block is unchanged by any number of steps. |
| Scenarios.BlinkerTurns | src/game_of_life.py:12-34 | A three-cell line along one index becomes the line along the other index. |
| Scenarios.BlinkerTurnsBack | src/game_of_life.py:12-34 | The second phase turns back into the first. |
| Scenarios.BlinkerPeriodTwo | src/game_of_life.py:12-34 | Two steps bring back the original blinker grid. |
| Scenarios.BlinkerOscillates | src/game_of_life.py:12-34 | The blinker is back after every even number of steps. |
| Scenarios.EngineBlinkerSteps | src/game_of_life.py:12-34 | Drawn into a 5x5 engine, one update succeeds and turns the line. A second update restores the engine exactly. |
| Scenarios.EngineBlinker | src/game_of_life.py:2-52 | End-to-end scenario: a fresh 5x5 engine gets three toggles, and two updates give back the same engine. |

## Left out

- `src/main.py` is not modelled. It holds the window, drawing, event handling, frame pacing and the pause flag, and all of that is I/O.
- The floating-point mapping from mouse pixels to cells is not modelled, because it is user-interface code.
- Named presets, the random fill and clearing are not modelled, because the engine's source defines none of them.
- Object identity is not modelled. The engine is a value: every operation returns the next engine instead of updating fields, and `get_grid` returns the grid as a value. The aliasing of the returned list, through which a caller could mutate the engine, is not modelled.
- Life.Toggle: requires (x, y) to be a cell of the grid. The source would wrap negative indices to the other end of a row, and it raises an index error for indices that are too large.
- Engine.ToggleCell: the same in-bounds requirement as `Life.Toggle`, for the same reason.
- Cells are unbounded integers. Nothing in the engine stores anything other than 0 or 1, and the invariant `Valid` says so.

Consequences of following the code as written:

- In a 3x3 grid whose only live cell is the centre, a corner cell counts 1 live neighbour, because the centre is its diagonal neighbour (`Scenarios.LoneCentreCounts`).
- A non-positive dimension gives no cells, because `range` of a non-positive number is empty (`Engine.RangeLength`). Construction never fails.
- An out-of-range toggle is excluded by the requires of `Life.Toggle` and `Engine.ToggleCell`, as listed above.

## Findings

| source | as written | input that shows it | evidently intended | confidence | as-written member | corrected member |
|---|---|---|---|---|---|---|
| src/game_of_life.py:4-18 | The constructor allocates `grid_size[1]` rows of `grid_size[0]` cells. `update_grid` and `count_live_neighbors` read `grid[i][j]` with `i < grid_size[0]` and `j < grid_size[1]`. On every non-square size with cells, the step reads past the grid and raises `IndexError`. | `GameOfLife((2, 1))` followed by `update_grid()` reads `grid[1][0]` of a one-row grid. | Step every cell of the grid within its own rows and columns. The result keeps the shape and never raises. | high; not executed | Engine.UpdateGrid (with Engine.TwoByOneUpdateRaises and Engine.NonSquareUpdateRaises) | Engine.Advance |
