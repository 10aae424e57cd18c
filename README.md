# Single-player bingo grid, modelled in Dafny

This project models the grid logic of the game's `BingoManager` component
(`Assets/Scripts/BingoManager.cs`). The player works on a 5x5 grid of buttons.
The inspector list of 25 buttons is laid out row by row: button `i` goes to
row `i / 5` and column `i % 5`. The game has two phases.

- **Placement.** Each click on a button that has no number yet writes the next
  number (1, 2, 3, …) on it and marks it placed. Clicking a placed button does
  nothing. Once 25 numbers are written, placement is done.
- **Cut.** Each click on a button that is still interactable cuts it: the
  button becomes non-interactable. Then the win check runs. Clicking a button
  that is already cut does nothing.

The win check counts the complete lines, meaning lines whose five cells are all
cut. There are 12 lines: 5 rows, 5 columns, the main diagonal and the
anti-diagonal. The player has won when at least 5 lines are complete. The file
has no terminal phase, so cuts are still accepted after a win.

The project has four modules:

- `BingoGrid` (`Grid.dfy`): the layout from list index to (row, column), the
  `Cell` a button carries, and a value view `Board` of the grid.
- `WinCheck` (`WinCheck.dfy`): the 12 lines, `CompletedLines` (the pure count)
  and `HasWon`, with their lemmas.
- `BingoRules` (`Rules.dfy`): the component's whole state as a value
  (`GameState`) and one click as a step function (`Click`). It also holds the
  invariant `Inv` that every click preserves, and the properties of placement,
  cutting and winning.
- `BingoManagerModel` (`BingoManager.dfy`): the component as a class. It has a
  constant `array2<Cell>` grid, the `isPlaced` map, `currentNumber`,
  `placementDone` and an abstract instruction label. `Start` and
  `OnButtonClick` update these in place. `CheckForWin` counts lines with the
  source's loops. Each method is proved against the pure layer:
  `OnButtonClick` ensures `State() == Click(old(State()), row, col)`, and
  `CheckForWin` ensures `won == HasWon(Board())`.

Buttons are identified by their index in the inspector list. `Cell.button`
records which button sits in a cell. The source's dictionary `isPlaced`, keyed
by button, becomes a `map<int, bool>` keyed by that index. The text of the
instruction label becomes the `Instruction` datatype, with one constructor per
message the file writes, plus `Unset` for whatever the label shows before
`Start` runs.

The repository's online two-player game, with turns, remote calls and a
terminal "finished" phase, is not in this file. The model follows the file: it
has no turn order, no peer and no finished state.

## Model

| member | source | states |
|---|---|---|
| BingoGrid.RowOf | Assets/Scripts/BingoManager.cs:24 | the row `i / 5` of a list index 0..24 is a row of the grid |
| BingoGrid.ColOf | Assets/Scripts/BingoManager.cs:25 | the column `i % 5` of a list index 0..24 is a column of the grid |
| BingoGrid.IndexOf | Assets/Scripts/BingoManager.cs:24-26 | the list index `5 * row + col` of a cell of the grid is an index 0..24 (that it inverts `RowOf` and `ColOf` is proved by `LayoutPlacesEveryButton` and `LayoutFillsEveryCell`) |
| BingoGrid.LayoutPlacesEveryButton | Assets/Scripts/BingoManager.cs:21-27 | button i of the 25 lands in a cell of the grid, at (i / 5, i % 5), and that cell maps back to i |
| BingoGrid.LayoutFillsEveryCell | Assets/Scripts/BingoManager.cs:21-27 | every cell (row, col) receives the button with index 5 * row + col, an index in 0..24 |
| BingoGrid.LayoutInjective | Assets/Scripts/BingoManager.cs:24-26 | two different button indices are never laid out in the same cell |
| WinCheck.AllLines | Assets/Scripts/BingoManager.cs:70-98 | the win check visits exactly 12 lines (their order is stated by `AllLinesAt`) |
| WinCheck.AllLinesAt | Assets/Scripts/BingoManager.cs:70-98 | the order of the 12 lines: line k is row k for k < 5, column k - 5 for k < 10, then the main diagonal and the anti-diagonal |
| WinCheck.LineCell | Assets/Scripts/BingoManager.cs:70-98 | cell i of a line, in the order its loop walks it (`grid[row, i]`, `grid[i, col]`, `grid[i, i]`, `grid[i, 4 - i]`), is a cell of the grid |
| WinCheck.CutCount | Assets/Scripts/BingoManager.cs:73-75 | the per-line counter (`count`, and likewise at lines 82-84, `diag1` at 89-91 and `diag2` at 95-97) after n steps never exceeds n |
| WinCheck.CutCountFull | Assets/Scripts/BingoManager.cs:73-75 | the per-line counter reaches n exactly when each of the first n cells of the line is cut |
| WinCheck.Complete | Assets/Scripts/BingoManager.cs:76 | definition: a line is complete when all five of its cells are non-interactable |
| WinCheck.CompleteIsAllCellsCut | Assets/Scripts/BingoManager.cs:70-98 | a line is complete exactly when each of the five cells its loop walks is cut |
| WinCheck.CompleteIsFiveCut | Assets/Scripts/BingoManager.cs:76 | a line is complete exactly when its counter over five cells equals 5, the `count == 5` (and `diag1 == 5`, `diag2 == 5`) test of lines 76, 85, 92 and 98 |
| WinCheck.CountComplete | Assets/Scripts/BingoManager.cs:68-98 | a count of complete lines never exceeds the number of lines counted |
| WinCheck.CompletedLines | Assets/Scripts/BingoManager.cs:66-98 | the number of complete lines lies in 0..12 |
| WinCheck.HasWon | Assets/Scripts/BingoManager.cs:100 | a win means at least 5 of the 12 lines, counted as a set of distinct lines, are complete |
| WinCheck.CompletedAmongStep | Assets/Scripts/BingoManager.cs:76 | visiting one more line raises the running count by one exactly when that line is complete |
| WinCheck.CountCompleteIsCardinality | Assets/Scripts/BingoManager.cs:68-98 | the count equals the size of the set of lines whose five cells are all cut, so it counts exactly those lines |
| WinCheck.NoCutsNoLines | Assets/Scripts/BingoManager.cs:66-100 | a grid with no cut cell has 0 complete lines and is not a win |
| WinCheck.AllCutAllLines | Assets/Scripts/BingoManager.cs:66-100 | a grid with every cell cut has all 12 lines complete and is a win |
| WinCheck.CompletedLinesMonotone | Assets/Scripts/BingoManager.cs:66-100 | if every cut of one grid is a cut of another, the second has at least as many complete lines, and a win on the first is a win on the second |
| BingoRules.InitialBoard | Assets/Scripts/BingoManager.cs:21-27 | the grid as built: button i sits at (i / 5, i % 5) with no number and interactable, so cell (row, col) holds button 5 * row + col |
| BingoRules.Initial | Assets/Scripts/BingoManager.cs:10-27 | the state `Start` leaves is well formed: no button is placed, no cell shows a number and none is cut |
| BingoRules.Inv | Assets/Scripts/BingoManager.cs:10-64 | definition of the invariant: counter in 1..26; placement done exactly at 26; a button is placed exactly when it shows a number; currentNumber - 1 buttons are placed and they show exactly the numbers 1..currentNumber - 1, each once; nothing is cut before placement is done |
| BingoRules.Unplaced | Assets/Scripts/BingoManager.cs:21-23 | grid construction gives isPlaced an entry, false, for exactly the buttons 0..n-1 |
| BingoRules.Click | Assets/Scripts/BingoManager.cs:36-64 | a click keeps the grid's shape: a 5x5 board, the button at (row, col) is 5 * row + col, and isPlaced has exactly the 25 buttons |
| BingoRules.Run | Assets/Scripts/BingoManager.cs:36-64 | any sequence of clicks keeps the grid's shape |
| BingoRules.InitialSatisfiesInv | Assets/Scripts/BingoManager.cs:10-27 | the freshly built grid satisfies the invariant: counter 1, placement not done, no number written, 0 complete lines |
| BingoRules.ClickPlacesNextNumber | Assets/Scripts/BingoManager.cs:40-52 | during placement, clicking an unplaced button writes currentNumber on that cell only and marks it placed; the counter rises by exactly one; placement becomes done exactly when the 25th number is written; the instruction becomes "next number" or "check the number" |
| BingoRules.ClickOnPlacedIsNoOp | Assets/Scripts/BingoManager.cs:40-54 | during placement, clicking a button already placed leaves the whole state unchanged |
| BingoRules.ClickCutsActiveCell | Assets/Scripts/BingoManager.cs:54-62 | in the cut phase, clicking an interactable cell cuts that cell and keeps its number; every other cell, isPlaced, the counter and the phase are unchanged; the instruction becomes the win message or "number cut" |
| BingoRules.ClickOnCutIsNoOp | Assets/Scripts/BingoManager.cs:54 | in the cut phase, clicking a cell that is already cut leaves the whole state unchanged |
| BingoRules.ClickTwiceIsOnce | Assets/Scripts/BingoManager.cs:54-57 | in the cut phase, clicking the same cell twice gives the same state as clicking it once |
| BingoRules.LastPlacementThenCut | Assets/Scripts/BingoManager.cs:44-56 | the click that writes the 25th number ends placement, so a second click on that button cuts it |
| BingoRules.NoCutDuringPlacement | Assets/Scripts/BingoManager.cs:40-54 | no click during placement leaves any cell cut |
| BingoRules.CutsNeverUndone | Assets/Scripts/BingoManager.cs:54-56 | every cell cut before a click is still cut after it |
| BingoRules.WinIsMonotone | Assets/Scripts/BingoManager.cs:56-62 | a grid that is a win stays a win after any click |
| BingoRules.ClickPreservesInv | Assets/Scripts/BingoManager.cs:36-64 | every click keeps the invariant. The counter stays in 1..26, and placement is done exactly when it is 26. A button is placed exactly when it shows a number. currentNumber - 1 buttons are placed. The numbers shown are exactly 1..currentNumber - 1, each in one cell. Nothing is cut before placement is done |
| BingoRules.PlacementDoneIsBijection | Assets/Scripts/BingoManager.cs:40-52 | once placement is done, every cell shows a number in 1..25, every number 1..25 is shown, and no two cells show the same number |
| BingoRules.RunPreservesInv | Assets/Scripts/BingoManager.cs:36-64 | the invariant holds after any sequence of clicks |
| BingoRules.RunKeepsCutsAndWin | Assets/Scripts/BingoManager.cs:54-62 | over any sequence of clicks, cuts only accumulate and a win stays a win |
| BingoRules.RowMajorPlacement | Assets/Scripts/BingoManager.cs:40-52 | after clicking the first k buttons in list order from the fresh grid: the counter is k + 1; placement is done exactly at k = 25; button i is placed and shows i + 1 exactly when i < k; nothing is cut |
| BingoRules.RowMajorPlacementComplete | Assets/Scripts/BingoManager.cs:40-52 | placing row by row ends placement, with the cell (row, col) showing 5 * row + col + 1 |
| BingoManagerModel.BingoManager.constructor | Assets/Scripts/BingoManager.cs:10-14 | the field initialisers: counter 1, placement not done, empty isPlaced, a fresh 5x5 grid |
| BingoManagerModel.BingoManager.Start | Assets/Scripts/BingoManager.cs:16-27 | building the grid puts button i at (i / 5, i % 5), active and without a number. Every button is marked not placed. The instruction says to start placing. The result is the initial state, which satisfies the invariant |
| BingoManagerModel.BingoManager.OnButtonClick | Assets/Scripts/BingoManager.cs:36-64 | a click updates the array and fields in place to exactly the state `Click` gives, and keeps the invariant |
| BingoManagerModel.BingoManager.CheckForWin | Assets/Scripts/BingoManager.cs:66-101 | returns true exactly when at least 5 of the 12 lines are complete on the current grid |
| BingoManagerModel.BingoManager.CheckRows | Assets/Scripts/BingoManager.cs:70-77 | the inner loop's `count` is `CutCount` of the row at every step, and the row loop adds the number of rows whose five cells are all cut |
| BingoManagerModel.BingoManager.CheckColumns | Assets/Scripts/BingoManager.cs:79-86 | the inner loop's `count` is `CutCount` of the column at every step, and the column loop adds the number of columns whose five cells are all cut |
| BingoManagerModel.BingoManager.CheckMainDiagonal | Assets/Scripts/BingoManager.cs:88-92 | `diag1` is `CutCount` of the main diagonal at every step, and the section adds one exactly when (i, i) is cut for every i |
| BingoManagerModel.BingoManager.CheckAntiDiagonal | Assets/Scripts/BingoManager.cs:94-98 | `diag2` is `CutCount` of the anti-diagonal at every step, and the section adds one exactly when (i, 4 - i) is cut for every i |

## Left out

- Unity plumbing is left out. That covers `MonoBehaviour`, the `Button` and `Text` objects, `GetComponentInChildren`, and the listener registration `onClick.AddListener` (lines 29-33). A click is a call `OnButtonClick(row, col)` naming the clicked button by its grid position. A button's `interactable` flag is the cell's `interactable` field.
- The instruction texts and the formatting of numbers as strings are display only. Each message is one constructor of `Instruction`. "Number … Cut" carries the cut cell's number, not its text.
- The inspector list is assumed to hold exactly 25 buttons. A list of another length is not modelled.
- The 25 list entries are assumed to be 25 distinct `Button` objects, since buttons are identified by list index. With a repeated button the source behaves differently, and the model does not capture it. `isPlaced` then has only 24 keys (line 23), and two grid cells hold the same object (line 26). That button gets two listeners (line 32), so each click on it runs `OnButtonClick` twice. Only 24 numbers can be placed, so `currentNumber` stops at 25, `placementDone` (line 50) is never set and the game never leaves placement.
- The grid array and the button list share the same `Button` objects in the source. The model keeps each button's state once, in its grid cell, and represents the list by the index each cell records.
- The initial state of the buttons, set in the Unity scene, is taken to be "no number" and interactable.
- Unity calls `Start` once, after the field initialisers. The model's `Start` therefore requires the state the constructor leaves. Calling `Start` a second time is not modelled.
- BingoManagerModel.BingoManager.CheckForWin keeps the source's loops and the source's order, but each of its four sections (rows, columns, main diagonal, anti-diagonal) is a helper method of its own. Each helper takes the running count of complete lines and returns it updated. This keeps each proof small.
- C#'s 32-bit `int` is not modelled. The counter stays within 1..26 and the line counts within 0..12, so no wrap-around can occur.
- Networking, turn order, remote calls and a terminal "finished" phase are not in this file, so they are not modelled.
