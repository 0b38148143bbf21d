# Sudoku solver by recursive backtracking

This project models the `Sudoku` class of a small Java Sudoku solver and proves it correct.

A `Sudoku` object holds:
- a 9×9 grid of cell values, where 0 marks an empty cell;
- a mask of the cells that were given in the initial configuration;
- three redundant presence indexes (per row, per column, per 3×3 subgrid). Each records which digits the group already holds, so that the legality of a placement is a lookup.

The solver tries the cells in row-major order, from cell index 0 to 81. It skips given cells. At every free cell it tries the digits 1 to 9 in ascending order. A digit that is legal there is placed, and the search recurses on the next cell. If the rest of the search fails, the digit is removed again and the next one is tried.

The model has four modules.

- `Tables`: rectangular nested sequences, single-entry updates, and the snapshots that turn a two- or three-dimensional array into a nested sequence.
- `SudokuRules`: the rules of the game on plain boards. It defines:
  - what a row, column or subgrid holds;
  - a grid without duplicates;
  - a solution;
  - what it means for a solution to *complete* a partly filled board from a cell index on. Every cell before that index, every given cell and every filled cell keeps its value.
- `PuzzleModel`: the object's state as a value (`Puzzle`). It contains:
  - every state change of the object as a function on that value;
  - the representation invariant `Consistent`: cells are in 0..9, and for every digit 1..9 each presence bit says exactly whether its row, column or subgrid holds the digit;
  - the lemmas that each change keeps the invariant;
  - the steps of the correctness argument for the search.
- `SudokuSolver`: the class itself. Its array fields are updated in place by methods with `modifies` clauses. Every method is proved against the value-level function of `PuzzleModel` through the ghost function `State()`, which reads the arrays into a `Puzzle`.

The main results:
- A new puzzle is empty and consistent.
- `PlaceVal` and `RemoveVal` change exactly the cell and the three bits, and nothing else.
- A legal placement followed by its removal restores the state exactly.
- `ReadConfig` on a new puzzle makes the grid equal to the configuration and fixes exactly its non-zero cells, with the invariant established.
- `Solve` returns true exactly when some solution keeps every given and filled cell, and then leaves such a solution in the grid.
- When `Solve` returns false, the state is exactly as it was.
- Fixed cells never change.
- Termination rests on `81 - count`.

## Model

| member | source | states |
|---|---|---|
| SudokuSolver.Sudoku.constructor | Sudoku.java:50-74 | The new puzzle has every cell 0, no cell fixed and every presence bit clear, and it satisfies the representation invariant |
| SudokuSolver.Sudoku.BlankState | Sudoku.java:51-61 | Freshly allocated arrays (all 0 and all false) read as a puzzle with an empty grid, nothing fixed and every bit clear |
| SudokuSolver.Sudoku.IndexGrid | Sudoku.java:63-73 | The triple loop over cells and digits leaves the presence bits as the scan `Scan` of the grid sets them; the grid and fixed mask are not written |
| SudokuSolver.Sudoku.PlaceVal | Sudoku.java:80-85 | The new state is the old one with the value written at the cell and its row, column and subgrid bits set; nothing else changes |
| SudokuSolver.Sudoku.RemoveVal | Sudoku.java:91-97 | The new state is the old one with the cell emptied and the row, column and subgrid bits of the value cleared; nothing else changes |
| SudokuSolver.Sudoku.ReadConfig | Sudoku.java:106-117 | The new state is the old one with the configuration loaded row by row: every value placed, and every non-zero value's cell fixed |
| SudokuSolver.Sudoku.IsSafe | Sudoku.java:151-156 | Under the invariant, a digit is safe at a cell exactly when the cell is not fixed and its row, column and subgrid do not hold the digit |
| SudokuSolver.Sudoku.SolveRB | Sudoku.java:162-186 | From a consistent, duplicate-free state whose cells from `count` on are filled exactly when fixed, the search keeps the invariant, no duplicates and the fixed mask. On true, every cell from `count` on holds a digit and every cell before `count`, fixed or filled on entry is unchanged. On false, the state equals the entry state and no solution completes it from `count`. It terminates on `81 - count` |
| SudokuSolver.Sudoku.Solve | Sudoku.java:192-195 | Returns true exactly when some solution keeps every fixed and filled cell; on true the grid is such a solution, on false the state is exactly as before; the fixed mask never changes |
| SudokuSolver.SolveConfiguration | Sudoku.java:197-225 | Loading a duplicate-free configuration into a new puzzle and solving it answers true exactly when some solution keeps every given, and then the grid is such a solution; on false the grid is the configuration again; either way exactly the given cells are fixed |
| PuzzleModel.EmptyConsistent | Sudoku.java:50-61 | A new puzzle satisfies the representation invariant |
| PuzzleModel.ScanBlank | Sudoku.java:50-74 | Scanning an empty grid from clear bits yields exactly the new puzzle, which is consistent |
| PuzzleModel.IndexFromClear | Sudoku.java:63-73 | Scanning any in-range grid from clear bits makes every row, column and subgrid bit agree with the grid, and leaves the unreachable bits clear |
| PuzzleModel.ScanIndexes | Sudoku.java:63-73 | After the scan of the first `r` rows, the bits agree with exactly the cells before row `r` |
| PuzzleModel.ScanRowIndexes | Sudoku.java:64-72 | After the scan of the first `c` cells of row `r`, the bits agree with exactly the cells before (r, c) |
| PuzzleModel.ScanCellIndexes | Sudoku.java:65-71 | After comparing the cell with the digits below `w`, the bits also record the cell's digit when it is below `w` |
| PuzzleModel.IndexStep | Sudoku.java:66-70 | Setting the three bits of the digit the cell holds keeps the bits in agreement with the part of the grid seen so far; any other digit adds nothing |
| PuzzleModel.IndexStart | Sudoku.java:59-63 | Before the scan, clear bits agree with a grid of which nothing has been seen |
| PuzzleModel.IndexNextCell | Sudoku.java:64-65 | Having compared a cell with every digit is having seen every cell before the next index |
| PuzzleModel.IndexDone | Sudoku.java:63-73 | Once every cell has been seen, the bits agree with the whole grid |
| PuzzleModel.MarkKeepsStray | Sudoku.java:67-69 | Setting the bits of a digit 1..9 never touches slot 0 or a subgrid past (2, 2) |
| PuzzleModel.ClearIsEmpty | Sudoku.java:50-61 | An empty, unfixed grid whose bits agree with it and whose unreachable bits are clear is exactly the new puzzle |
| PuzzleModel.PlaceKeepsConsistent | Sudoku.java:80-85 | Placing a value 0..9 into an empty cell keeps the representation invariant |
| PuzzleModel.PlaceKeepsRows | Sudoku.java:81-83 | Placing into an empty cell keeps every row bit equal to "the row holds the digit" |
| PuzzleModel.PlaceKeepsCols | Sudoku.java:81-84 | Placing into an empty cell keeps every column bit equal to "the column holds the digit" |
| PuzzleModel.PlaceKeepsBoxes | Sudoku.java:81-82 | Placing into an empty cell keeps every subgrid bit equal to "the subgrid holds the digit" |
| PuzzleModel.RemoveKeepsConsistent | Sudoku.java:91-97 | Removing a digit from the cell that holds it keeps the invariant in a duplicate-free grid, where that cell was the digit's only occurrence in its groups |
| PuzzleModel.RemoveKeepsRows | Sudoku.java:92-94 | Removal keeps every row bit equal to "the row holds the digit" |
| PuzzleModel.RemoveKeepsCols | Sudoku.java:92-95 | Removal keeps every column bit equal to "the column holds the digit" |
| PuzzleModel.RemoveKeepsBoxes | Sudoku.java:92-93 | Removal keeps every subgrid bit equal to "the subgrid holds the digit" |
| PuzzleModel.RemoveKeepsBox | Sudoku.java:92-93 | The same for one subgrid and one digit |
| PuzzleModel.RoundTrip | Sudoku.java:80-97 | Placing a value into an empty cell whose three bits for it are clear, then removing it, restores grid and all indexes exactly |
| PuzzleModel.PlaceSafe | Sudoku.java:175-177 | A safe placement at the search position keeps the invariant, keeps the grid duplicate-free, keeps "filled exactly when fixed" from the next cell on, and is undone exactly by the removal |
| PuzzleModel.LoadCellNext | Sudoku.java:109-113 | Loading the next cell extends by one cell the prefix that holds the configuration, and fixes it exactly when its value is not 0 |
| PuzzleModel.LoadRowFacts | Sudoku.java:108-116 | Loading the first `c` values of a row keeps the invariant and loads the configuration up to that cell |
| PuzzleModel.LoadPrefix | Sudoku.java:107-117 | Loading the first `r` rows into a new puzzle keeps the invariant and loads the cells before row `r` |
| PuzzleModel.LoadFromEmpty | Sudoku.java:106-117 | Loading a whole in-range configuration into a new puzzle makes the grid equal to it, fixes exactly its non-zero cells and establishes the invariant |
| PuzzleModel.LoadedAll | Sudoku.java:106-117 | A puzzle with every cell loaded has the configuration as its grid and its non-zero cells as the fixed mask |
| PuzzleModel.SearchDone | Sudoku.java:163-165 | Past the last cell, the search succeeds without changing anything |
| PuzzleModel.SearchSkip | Sudoku.java:171-173 | At a fixed cell holding a digit, the outcome of the search from the next cell is the outcome from this cell, success and failure alike |
| PuzzleModel.SearchFound | Sudoku.java:176-180 | A success from the next cell after a digit was placed at the free cell is a success from the free cell |
| PuzzleModel.SearchFailed | Sudoku.java:176-182 | A failure from the next cell after placing `v` rules out `v` at the cell for every completing solution |
| PuzzleModel.SearchExhausted | Sudoku.java:175-185 | With every digit ruled out at the cell, the search from it fails and the state is unchanged |
| SudokuRules.FillKeepsNoDuplicates | Sudoku.java:151-156 | Writing a digit that its row, column and subgrid do not hold never creates a duplicate |
| SudokuRules.OccupiedExcludes | Sudoku.java:151-156 | No completing solution puts a digit in an empty cell whose row, column or subgrid already holds it |
| SudokuRules.CompletesAfterFill | Sudoku.java:176-178 | A solution that completes the board and has `v` at the cell also completes the board with `v` written there, from the next cell |
| SudokuRules.FoundAfterFill | Sudoku.java:177-180 | A board found from the next cell after a digit was written at the empty, unfixed cell is filled from this cell and completes the board as it was before the write |
| SudokuRules.SkipFixed | Sudoku.java:171-173 | At a fixed digit, completing from its index is the same as completing from the next index, and filled from the next index means filled from this one |
| SudokuRules.SkipFixedCompletion | Sudoku.java:171-173 | At a fixed digit, a completion from its index exists exactly when one from the next index does |
| SudokuRules.GivensAfterFill | Sudoku.java:177 | Writing at an unfixed cell keeps "filled exactly when fixed" for every later cell |
| SudokuRules.ExcludeOccupied | Sudoku.java:175-176 | A digit that is unsafe at an empty cell because a group holds it is ruled out there for every completing solution |
| SudokuRules.ExcludeFailed | Sudoku.java:176-182 | A digit after whose placement nothing completes the board from the next cell is ruled out at this cell |
| SudokuRules.ExcludedAll | Sudoku.java:184-185 | When no digit 1..9 is possible at the cell, no solution completes the board from its index |
| SudokuRules.CompletesFromStart | Sudoku.java:106-117 | When exactly the non-zero cells are fixed, completing from cell 0 is keeping every given |
| SudokuRules.BoxDigitUnique | Sudoku.java:151-156 | In a duplicate-free grid a digit occurs at most once per subgrid |
| SudokuRules.CellIndexUnique | Sudoku.java:168-169 | Each cell has its own row-major index `9 * row + col` |

## Left out

- `printGrid`, `printRowSeparator` and the console and file handling of `main` (prompt, `Scanner`, `File`, `IOException`, `System.exit`) are output and I/O. `SolveConfiguration` models only `main`'s sequence of a new puzzle, `readConfig` and `solve`.
- The tokenising of `readConfig` (`nextInt`, `nextLine`) is not modelled. The configuration is a 9×9 sequence of integers.
- ReadConfig: requires every value to be in 0..9. For other values the source throws an index exception part-way through the load, and the model does not cover that.
- SolveRB: requires a grid without duplicates, and that from `count` on exactly the fixed cells are filled. This is what loading a configuration into a new puzzle gives. The source checks neither, so with givens that repeat a digit its `true` does not mean a solution, and the model says nothing about that case.
- Solve: requires the same as `SolveRB` from cell 0.
- PlaceVal: requires the value in 0..9 and the cell inside the grid. For other arguments the source throws an index exception, possibly after writing the cell, and the model does not cover that.
- RemoveVal: requires the same as `PlaceVal`, for the same reason.
- SolveConfiguration: requires a configuration without duplicates, for the same reason.
- The Java arrays of arrays are modelled as Dafny `array2` and `array3`. The fields are private and their rows are never shared, so no aliasing between rows is modelled.
- The subgrid index is allocated 9×9×10, as in the code, although its documentation describes 3×3 subgrids. Only subgrids (0..2, 0..2) are ever addressed, and the model keeps the other bits clear.
- `placeVal` is called with 0 for empty configuration cells, which sets slot 0 of the three indexes. The model does the same. The invariant covers digits 1..9 only, and slot 0 is never consulted.
- Performance (constant-time legality checks, exponential worst case) is not a functional property and is not modelled.
