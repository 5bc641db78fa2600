# Game of Life core, in Dafny

This project models the simulation core of a small Go program that runs
Conway's Game of Life on a square grid, `main.go`, and proves properties of
that model. The grid is 100 × 100 cells and is clipped at its borders. Each
cell records its own coordinates, whether it is alive, and a cached count of
its live neighbours. One generation is two passes over the whole grid, done
in place:

- `updateGrid` applies the Life rule to every cell, using the counts cached
  by the previous pass.
- `countNeighbours` then refreshes every count. For each cell it scans the
  3 × 3 window around it, skips positions off the grid, and subtracts one
  when the centre cell is alive.

The main loop does the following, in order:

1. Seeds the grid again when its lifetime (the generations left) is used up.
2. Seeds it again when R is pressed.
3. Stops on Q.
4. Flips the pause flag on Space.
5. Toggles the clicked cell and recounts.
6. Advances one generation when paused and Right is pressed.
7. Advances one generation when running.

The project has four modules:

- `Life` (`life.dfy`) is the specification.
  - A board is a `seq<seq<bool>>`.
  - The reference count `Neighbours` counts the live on-board cells among the eight positions around a cell.
  - `NextState` is the rule for one cell.
  - `Step` is one synchronous generation.
  - `Flip` inverts one cell.
  - `Seed` is the seeded board.
- `Game` (`grid.dfy`) holds the grid as the program keeps it: a class `Grid` with a `Cell` array.
  - Its methods `InitGrid`, `CountNeighbours` and `UpdateGrid` are the source's three passes, written as loops with invariants.
  - Each is proved against `Life`. For example, a counting pass leaves every count equal to `Neighbours` of the unchanged states. An update pass on up-to-date counts turns the states into `Step` of the old states.
- `Driver` (`driver.dfy`) models the main loop.
  - One pass takes its input as a value, `Input`.
  - `FrameSpec` states the pass on an abstract `World` (board, lifetime, pause flag). It is built from `Restart`, `Respond` and `Run`.
  - The methods that act on a `Grid` are proved to follow those functions.
- `Patterns` (`patterns.dfy`) proves what the rules do to well-known configurations: an empty board, a lone cell, a block, and a blinker.

## Model

| member | source | states |
|---|---|---|
| Life.Neighbours | main.go:69-91 | a cell's count of live neighbours lies between 0 and 8 |
| Life.NeighboursExpanded | main.go:74-82 | the count is the sum of the eight surrounding positions, each adding 1 exactly when it is on the grid and alive |
| Life.WindowScanExcludesSelf | main.go:73-87 | the 3 × 3 window scan in the source's row-major order, clipped at the borders, minus one when the centre is alive, equals the count of the eight surrounding cells; the cell's own state never enters it |
| Life.NeighboursCountsLiveNeighbourSet | main.go:69-91 | the count equals the number of distinct live on-grid cells adjacent to the cell |
| Life.BorderNeighbours | main.go:76 | clipping at the border: a corner cell counts at most 3 neighbours, an edge cell at most 5 |
| Life.NeighboursLocal | main.go:74-82 | the count depends only on the on-grid cells adjacent to the cell |
| Life.NextState | main.go:98-110 | the four rules: a live cell with fewer than 2 or more than 3 neighbours dies, a live cell with 2 or 3 lives on, a dead cell with exactly 3 is born, any other dead cell stays dead |
| Life.Step | main.go:93-114 | one generation keeps the n × n shape |
| Life.StepLocal | main.go:93-114 | a cell's next state depends only on itself and its adjacent cells on the previous board, so one generation is synchronous |
| Life.StepN | main.go:197-202 | any number of generations keeps the n × n shape |
| Life.Flip | main.go:183 | toggling inverts the clicked cell and leaves every other cell as it was |
| Life.FlipNeighbours | main.go:183-184 | after a toggle, each on-grid neighbour of the clicked cell counts one more (the cell came alive) or one fewer (it died); every other count, the clicked cell's own included, is unchanged |
| Life.FlipTwice | main.go:183 | toggling the same cell twice restores the board |
| Life.Seed | main.go:54-65 | the seeded board is n × n |
| Patterns.DeadBoardIsStill | main.go:69-114 | on an all-dead board every count is 0 and a generation changes nothing |
| Patterns.SeedWithoutRandomIsDead | main.go:59-63 | seeding without randomness gives an all-dead board |
| Patterns.IsolatedCellDies | main.go:98-100 | a live cell with no live neighbour has count 0 and dies |
| Patterns.LoneCornerCell | main.go:74-87 | a lone live cell at (0, 0) has count 0 on a grid of any size, and the next generation is all dead |
| Patterns.LoneCornerCounts | main.go:74-87 | around a lone live cell at (0, 0), the corner counts 0 neighbours and every other cell at most 1 |
| Patterns.BlockCounts | main.go:69-91 | around a lone 2 × 2 block, each block cell has 3 neighbours and every other cell at most 2 |
| Patterns.BlockCellNext | main.go:98-110 | every cell around a lone block keeps its state for one generation |
| Patterns.BlockIsStill | main.go:93-114 | a lone block is a still life |
| Patterns.BlockForever | main.go:197-202 | a lone block is unchanged after any number of generations |
| Patterns.VerticalCounts | main.go:69-91 | the counts around a lone vertical blinker |
| Patterns.HorizontalCounts | main.go:69-91 | the counts around a lone horizontal blinker |
| Patterns.VerticalCellNext | main.go:98-110 | next to a vertical blinker, a cell is alive in the next generation exactly when it is on the horizontal phase |
| Patterns.HorizontalCellNext | main.go:98-110 | next to a horizontal blinker, a cell is alive in the next generation exactly when it is on the vertical phase |
| Patterns.VerticalTurnsHorizontal | main.go:93-114 | with room on the board for both phases, a lone vertical blinker becomes horizontal in one generation |
| Patterns.HorizontalTurnsVertical | main.go:93-114 | with room on the board for both phases, a lone horizontal blinker becomes vertical in one generation |
| Patterns.BlinkerPeriodTwo | main.go:197-202 | with room on the board for both phases, a blinker changes after one generation and is back after two |
| Game.Grid.constructor | main.go:146 | a new grid has no cells, a zero dimension and lifetime, and is not paused |
| Game.Grid.InitGrid | main.go:47-67 | a fresh 100 × 100 array; each cell holds its own coordinates, the drawn state (dead when seeding is not random) and count 0; lifetime 10000; paused |
| Game.Grid.CountNeighbours | main.go:69-91 | afterwards every count equals the reference count of the states before the pass; states and coordinates are unchanged |
| Game.Grid.CountRow | main.go:72-88 | the counting loop over one row writes each of its cells' counts with the reference count and no other cell |
| Game.Grid.CountWindow | main.go:73-82 | the loop over the 3 × 3 window counts exactly the live on-grid cells in it, the centre included |
| Game.Grid.UpdateGrid | main.go:93-114 | each cell gets the rule applied to its own state and cached count from before the pass, and nothing else changes; when the counts were up to date, the new states are exactly one synchronous generation of the old ones |
| Driver.Reseed | main.go:154-161 | seeding and recounting gives the seed board with up-to-date counts, a full lifetime and the pause flag set; without randomness every cell is dead with count 0 |
| Driver.Start | main.go:146-149 | at program start a new grid with a fresh cell array is seeded and counted |
| Driver.ToggleCell | main.go:183-184 | a click inverts exactly the clicked cell and leaves all counts up to date; when the counts were up to date before the click, only the clicked cell's neighbours' counts move, each by one |
| Driver.Generation | main.go:198-202 | update, recount, then one fewer generation: the board takes one synchronous step and the counts stay up to date |
| Driver.RestartGrid | main.go:154-161 | follows Restart: an exhausted grid is seeded again, and so is a reset one |
| Driver.RespondGrid | main.go:166-185 | follows Respond: the pause flag flips on Space, then the clicked cell is toggled |
| Driver.RunGrid | main.go:187-202 | follows Run: one generation when paused and stepping, then one when running |
| Driver.Frame | main.go:153-203 | one pass of the main loop follows FrameSpec, returns false exactly on quit, keeps the grid's counts up to date, and leaves the grid holding its old cell array or a fresh one |
| Driver.MainLoop | main.go:146-204 | starting the grid and running one pass per input until a pass quits leaves the grid ready, with the world the Replay of the inputs from the fresh seed |
| Driver.Replay | main.go:153-204 | any number of passes keeps the board 100 × 100 |
| Driver.FrameBoardSquare | main.go:153-202 | one pass keeps the board 100 × 100 |
| Driver.PausedIdleReplay | main.go:153-204 | with time left and no input, a paused world stays as it is for any number of passes |
| Driver.Restart | main.go:154-161 | restarting keeps the board 100 × 100 |
| Driver.Respond | main.go:166-185 | responding to input keeps the board 100 × 100 |
| Driver.Run | main.go:187-202 | running keeps the board 100 × 100 |
| Driver.RunAtMostOnce | main.go:187-202 | the end of a pass advances exactly one generation unless paused without a step, in which case it changes nothing; the pause flag is unchanged |
| Driver.FrameKeepsLifetime | main.go:153-202 | starting from at most 10000, the lifetime stays between 0 and 10000 after a pass |
| Driver.RunningIdleFrame | main.go:197-202 | with time left and nothing pressed, a running world advances exactly one generation |
| Driver.PausedIdleFrame | main.go:187-202 | with time left and nothing pressed, a paused world is unchanged |
| Driver.PausedStepFrame | main.go:187-191 | with time left and nothing else pressed, a paused world advances exactly one generation on Right |
| Driver.ExpiredFrame | main.go:154-157 | with nothing pressed, an exhausted world is seeded again and ends the pass paused on the fresh seed, whether or not it was running |
| Driver.QuitFrame | main.go:153-165 | on Q the pass ends with the expiry and reset seedings applied and nothing else: no pause flip, no toggle, no generation, whatever was clicked; with time left and no reset the world is unchanged |
| Driver.DoubleClickRestores | main.go:180-185 | with time left, two passes that each only click the same cell restore a paused world |

## Left out

- Drawing (`drawGrid`, main.go:116-139) and the window, text and frame-rate calls of the graphics library are not modelled. They only read the grid.
- Random seeding is not modelled. `rand.Float32() < probability` becomes a parameter `draw: (int, int) -> bool`, so the seeded board is arbitrary. `useRandom`, a constant `true` in the source, is a parameter too, so the all-dead seeding branch can be stated.
- Driver.RestartGrid: when one pass seeds twice (lifetime used up and R pressed), both seedings use the same `draw`, whereas the program draws fresh numbers the second time. Only the second seeding is visible afterwards, so no outcome is lost.
- The mouse position is not modelled. Its mapping to a cell through floating-point division and `math.Floor` (main.go:178-182) is replaced by integer cell coordinates in the `Input`. On a pass that does not quit, a click must lie on the grid (`ClickOnGrid`). The program does not check this, and an ordinary click can fall outside: the window is 1000 × 1050 pixels (main.go:142) with 10-pixel cells (main.go:150), so a click on the 50-pixel status strip below the grid gives a second index of 100 to 104 (main.go:182); an out-of-range index at main.go:183 would stop it with a run-time error rather than be rejected. On a Q pass the program returns at main.go:164 before indexing, so there the click may be anywhere.
- The tick rate is not modelled: the `-` and `=` keys, the `tickRate` field and the sleep (main.go:171-176, 195).
- The function-pointer fields of the `Grid` struct are not modelled. The program never assigns or calls them.
- The grid is an `array2<Cell>` where the program has a slice of row slices. Rows are never shared or resized, so no aliasing is lost.
- The grid is fixed at 100 × 100 (`GridDimension`). The lemmas in `Life` and `Patterns` hold for any side n ≥ 0.
- Integer widths are not modelled. Counts stay within 0..8 and the lifetime within 0..10000, so Go's `int` never overflows here.
