# Life game core

A model of the simulation core of a small Game of Life app. The board has
13 × 13 cells (`CellCount`). Each cell holds an integer state, 0 for dead
and 1 for alive. The app keeps one flag, `isExecuted`, which is set by
START and cleared by STOP. While it is set, a background loop replaces the
board with its next generation again and again, and taps on cells are
ignored. While it is clear, tapping a cell flips its state.

The model has two modules:

- `LifeRules` (`life_rules.dfy`) describes the board as a value of type
  `seq<seq<int>>`, where `g[x][y]` is the cell in column `x` and row `y`
  (the source's `Cells[x, y]`). In it:
  - `NeighborCount` counts the live cells among the eight Moore neighbours.
    Positions off the board count as nothing, so there is no wrap-around.
  - `NextLife` applies the B3/S23 rule to one cell.
  - `Next` is one synchronous generation and `Generations` is k of them.
  - `Toggle` and `Seed` are the two edits.
  - The lemmas state the properties of these definitions.
- `LifeApp` (`life_app.dfy`) holds the class `App`:
  - It keeps the board in an `array2<int>` and has a `bool isExecuted` field.
  - It has a ghost field `board`, and `Valid()` ties that field to the
    array. `Valid()` also requires the board to stay a 0/1 matrix.
  - Each method's `ensures` gives the new `board` as a `LifeRules` function
    of the old one.

The single `UpdateCells` method of the source is split into two parts,
each holding one of its loop nests. `JudgeAll` is lines 208-216: it calls
`JudgeNextLife` for every cell and writes the results into a fresh scratch
array. It modifies nothing else, so every cell is judged on the unchanged
board. `CommitAll` is lines 218-224: it copies the scratch array onto the
board. `UpdateCells` runs the two in that order, and its contract is
`board == Next(old(board))`.

## Model

| member | source | states |
|---|---|---|
| `LifeRules.NeighborSlotsByPosition` | XamarinLifeGame/XamarinLifeGame.cs:227-274 | an interior cell has 8 neighbour positions on the board, an edge cell 5 and a corner cell 3 |
| `LifeRules.NeighborCountBounds` | XamarinLifeGame/XamarinLifeGame.cs:227-274 | the live-neighbour count is between 0 and the number of on-board neighbour positions (so at most 8, 5 or 3), and equals that number on a board where every cell is alive |
| `LifeRules.NeighborCountIsLocal` | XamarinLifeGame/XamarinLifeGame.cs:227-274 | the count depends only on the on-board cells of the 3×3 square around the cell |
| `LifeRules.NoWraparound` | XamarinLifeGame/XamarinLifeGame.cs:231-274 | a cell in row 0 does not see row 12, and a cell in column 0 does not see column 12: changing only those cells leaves its count unchanged |
| `LifeRules.NextLife` | XamarinLifeGame/XamarinLifeGame.cs:276-296 | the next state is 0 or 1, and it is 1 exactly when the count is 3, or when the cell is alive (state 1) and the count is 2 |
| `LifeRules.RuleCases` | XamarinLifeGame/XamarinLifeGame.cs:279-292 | 3 neighbours always gives a live cell; 2 neighbours keeps a live cell alive and a dead cell dead; fewer than 2 or more than 3 gives a dead cell |
| `LifeRules.AllDeadIsStill` | XamarinLifeGame/XamarinLifeGame.cs:286-292 | one generation leaves an all-dead board unchanged |
| `LifeRules.AllDeadForever` | XamarinLifeGame/XamarinLifeGame.cs:176-179 | any number of generations leaves an all-dead board unchanged |
| `LifeRules.BlockIsStill` | XamarinLifeGame/XamarinLifeGame.cs:227-292 | a 2×2 block is left unchanged by one generation wherever it lies on the board, edges and corners included |
| `LifeRules.Toggle` | XamarinLifeGame/XamarinLifeGame.cs:117-123 | the tapped cell becomes 1 if it was 0 and 0 otherwise, and every other cell keeps its state |
| `LifeRules.ToggleInvolution` | XamarinLifeGame/XamarinLifeGame.cs:117-123 | on a 0/1 board, a toggle keeps the board 0/1 and always changes it, and a second toggle of the same cell restores it |
| `LifeRules.Seed` | XamarinLifeGame/XamarinLifeGame.cs:151-164 | the ten cells (4,6), (5,5), (6,5), (7,5), (8,5), (9,6), (5,7), (6,7), (7,7), (8,7) become 1, and every other cell keeps its state |
| `LifeRules.SeedShapes` | XamarinLifeGame/XamarinLifeGame.cs:151-164 | the seed is rows 5 and 7 of columns 5 to 8, plus (4,6) and (9,6) |
| `LifeRules.SeedFirstGeneration` | XamarinLifeGame/XamarinLifeGame.cs:151-164 | seeding the all-dead board and stepping once gives exactly the 14 live cells of `SeedSuccessorCells` |
| `LifeApp.App.constructor` | XamarinLifeGame/XamarinLifeGame.cs:42-63 | a fresh 13×13 board with every cell 0, and the flag clear |
| `LifeApp.App.JudgeNextLife` | XamarinLifeGame/XamarinLifeGame.cs:227-297 | the method counts neighbours with the source's per-direction bounds checks and returns exactly `NextLife` of the current board |
| `LifeApp.App.JudgeAll` | XamarinLifeGame/XamarinLifeGame.cs:208-216 | a fresh 13×13 scratch array holds every cell's `NextLife`, judged on the board as it was, which the method does not change |
| `LifeApp.App.CommitAll` | XamarinLifeGame/XamarinLifeGame.cs:218-224 | afterwards every cell equals the scratch array's entry, and only the cell array is written |
| `LifeApp.App.UpdateCells` | XamarinLifeGame/XamarinLifeGame.cs:204-225 | the new board is `Next` of the old board, the board stays a 0/1 matrix, and the flag is unchanged |
| `LifeApp.App.CellClicked` | XamarinLifeGame/XamarinLifeGame.cs:107-124 | while the flag is set the board is unchanged; otherwise the board becomes `Toggle` of the tapped cell; the flag is unchanged |
| `LifeApp.App.Start` | XamarinLifeGame/XamarinLifeGame.cs:134-143 | afterwards the flag is set; the call launches the run loop exactly when the flag was clear, and the board is unchanged |
| `LifeApp.App.StartButtonPressed` | XamarinLifeGame/XamarinLifeGame.cs:77-78 | the two deliveries of one START press launch the loop once if the flag was clear and not at all if it was set; either way the flag ends set |
| `LifeApp.App.Stop` | XamarinLifeGame/XamarinLifeGame.cs:144-146 | the flag is always clear afterwards, whatever it was, and the board is unchanged |
| `LifeApp.App.StartGame` | XamarinLifeGame/XamarinLifeGame.cs:166-181 | the loop runs only while the flag is set; when STOP arrives after n generations it leaves `Generations(board, n)` and a clear flag, and on a clear flag it leaves the board as it was |
| `LifeApp.App.InitializeCell` | XamarinLifeGame/XamarinLifeGame.cs:151-164 | the new board is `Seed` of the old one, and the flag is unchanged |

## Left out

- The user interface is not modelled: row and column definitions, the `Grid` layout, labels, buttons, the page and the tap-gesture wiring (lines 17-105). It is presentation code over a UI library.
- The colour change in the `Cell.State` setter (lines 339-347) is not modelled. Only the stored integer is kept.
- The run loop's asynchrony is not modelled: `Task.Run`, the one-second `Task.Delay`, `await`, the `TaskCompletionSource` and `Device.BeginInvokeOnMainThread` (lines 166-202). `StartGame` is a sequential loop with one `UpdateCells` per iteration. The moment the user presses STOP is the parameter `ticksBeforeStop`, and the STOP is applied between two iterations. Real interleavings of taps or START deliveries with a running loop are replaced by that single sequential order.
- `Start` models only the flag logic of the START branch. Because the loop runs in the background, the second delivery of a START press happens while the loop is running. So `Start` does not call `StartGame`: its `launched` result says whether the source would go on to run it.
- `UpdateCells` cannot throw in the model, because every array index is proved in range. The exception path of `ExecuteUpdateCells` (lines 190-198) is therefore not modelled.
- The unused `CancellationToken` (line 170), the `Debug.WriteLine` calls and the empty `OnSleep`/`OnResume` hooks (lines 305-313) are not modelled.
- Button dispatch by comparing `button.Text` (line 134) is replaced by the two operations `Start` and `Stop`.
- `OnStart` (lines 299-303) is not a separate member. It only calls `initializeCell`, which is `InitializeCell`.
- `App.constructor` fills the cell array with an initialiser instead of the source's nested loop (lines 47-63). The loop also builds UI cells, and its only effect on the model's state is setting every State to 0.
