/**
 * A Sudoku puzzle held in fixed-size arrays and updated in place, solved by
 * recursive backtracking over the cells in row-major order. Beside the grid
 * and the mask of given cells the object keeps three redundant presence
 * indexes (per row, per column, per subgrid), so that the legality of a
 * placement is a lookup rather than a scan.
 */
module SudokuSolver {
  import opened Tables
  import opened SudokuRules
  import opened PuzzleModel

  class Sudoku {
    /** The current contents of the cells; 0 marks an empty cell. */
    const grid: array2<int>
    /** valIsFixed[r, c] holds when the cell was given in the initial configuration. */
    const valIsFixed: array2<bool>
    /**
     * subgridHasVal[i, j, v] holds when subgrid (i, j) holds v. Allocated
     * 9 by 9 by 10, of which only subgrids (0..2, 0..2) are addressed.
     */
    const subgridHasVal: array3<bool>
    /** rowHasVal[r, v] holds when row r holds v. */
    const rowHasVal: array2<bool>
    /** colHasVal[c, v] holds when column c holds v. */
    const colHasVal: array2<bool>

    /** The arrays have the sizes the constructor allocates and the boolean tables are distinct. */
    ghost predicate Shaped()
    {
      grid.Length0 == 9 && grid.Length1 == 9 &&
      valIsFixed.Length0 == 9 && valIsFixed.Length1 == 9 &&
      subgridHasVal.Length0 == 9 && subgridHasVal.Length1 == 9 && subgridHasVal.Length2 == 10 &&
      rowHasVal.Length0 == 9 && rowHasVal.Length1 == 10 &&
      colHasVal.Length0 == 9 && colHasVal.Length1 == 10 &&
      valIsFixed != rowHasVal && valIsFixed != colHasVal && rowHasVal != colHasVal
    }

    /** The abstract value of the puzzle. */
    ghost function State(): (p: Puzzle)
      requires Shaped()
      reads grid, valIsFixed, subgridHasVal, rowHasVal, colHasVal
      ensures WellShaped(p)
    {
      Puzzle(Snapshot2(grid), Snapshot2(valIsFixed), Snapshot3(subgridHasVal),
             Snapshot2(rowHasVal), Snapshot2(colHasVal))
    }

    /** The representation invariant: cells in 0..9, presence indexes agree with the grid. */
    ghost predicate Valid()
      reads grid, valIsFixed, subgridHasVal, rowHasVal, colHasVal
    {
      Shaped() && Consistent(State())
    }

    /** A new puzzle: every cell empty, none fixed, every presence bit clear. */
    constructor ()
      ensures Valid() && State() == Empty()
      ensures fresh(grid) && fresh(valIsFixed) && fresh(subgridHasVal) && fresh(rowHasVal) && fresh(colHasVal)
    {
      grid := new int[9, 9]((r, c) => 0);
      valIsFixed := new bool[9, 9]((r, c) => false);
      subgridHasVal := new bool[9, 9, 10]((i, j, v) => false);
      rowHasVal := new bool[9, 10]((r, v) => false);
      colHasVal := new bool[9, 10]((c, v) => false);
      new;
      BlankState();
      ghost var blank := State();
      IndexGrid();
      ScanBlank(blank);
    }

    /** Arrays holding only 0 and false make a puzzle with every cell empty and every bit clear. */
    lemma BlankState()
      requires Shaped()
      requires forall r, c :: 0 <= r < 9 && 0 <= c < 9 ==> grid[r, c] == 0 && !valIsFixed[r, c]
      requires forall r, v :: 0 <= r < 9 && 0 <= v < 10 ==> !rowHasVal[r, v] && !colHasVal[r, v]
      requires forall i, j, v :: 0 <= i < 9 && 0 <= j < 9 && 0 <= v < 10 ==> !subgridHasVal[i, j, v]
      ensures AllClear(State())
      ensures forall r, c :: 0 <= r < 9 && 0 <= c < 9 ==> State().grid[r][c] == 0 && !State().fixed[r][c]
    {
    }

    /**
     * The constructor's scan of the grid: for every cell and every digit,
     * when the cell holds the digit, set the digit's row, column and
     * subgrid bits.
     */
    method IndexGrid()
      requires Shaped()
      modifies subgridHasVal, rowHasVal, colHasVal
      ensures State() == Scan(old(State()), 9)
    {
      for i := 0 to 9
        invariant State() == Scan(old(State()), i)
      {
        for j := 0 to 9
          invariant State() == ScanRow(Scan(old(State()), i), i, j)
        {
          for val := 1 to 10
            invariant State() == ScanCell(ScanRow(Scan(old(State()), i), i, j), i, j, val)
          {
            ghost var before := State();
            if grid[i, j] == val {
              rowHasVal[i, val] := true;
              Snapshot2Write(rowHasVal, before.rowHas, i, val, true);
              colHasVal[j, val] := true;
              Snapshot2Write(colHasVal, before.colHas, j, val, true);
              subgridHasVal[i / 3, j / 3, val] := true;
              Snapshot3Write(subgridHasVal, before.boxHas, i / 3, j / 3, val, true);
            }
          }
        }
      }
    }

    /** Write `val` at (row, col) and record it in the row, column and subgrid indexes. */
    method PlaceVal(val: int, row: int, col: int)
      requires Shaped() && 0 <= val <= 9 && 0 <= row < 9 && 0 <= col < 9
      modifies grid, subgridHasVal, rowHasVal, colHasVal
      ensures State() == Place(old(State()), val, row, col)
    {
      ghost var o := State();
      grid[row, col] := val;
      Snapshot2Write(grid, o.grid, row, col, val);
      subgridHasVal[row / 3, col / 3, val] := true;
      Snapshot3Write(subgridHasVal, o.boxHas, row / 3, col / 3, val, true);
      rowHasVal[row, val] := true;
      Snapshot2Write(rowHasVal, o.rowHas, row, val, true);
      colHasVal[col, val] := true;
      Snapshot2Write(colHasVal, o.colHas, col, val, true);
    }

    /** Empty (row, col) and clear the row, column and subgrid bits of `val`. */
    method RemoveVal(val: int, row: int, col: int)
      requires Shaped() && 0 <= val <= 9 && 0 <= row < 9 && 0 <= col < 9
      modifies grid, subgridHasVal, rowHasVal, colHasVal
      ensures State() == Remove(old(State()), val, row, col)
    {
      ghost var o := State();
      grid[row, col] := 0;
      Snapshot2Write(grid, o.grid, row, col, 0);
      subgridHasVal[row / 3, col / 3, val] := false;
      Snapshot3Write(subgridHasVal, o.boxHas, row / 3, col / 3, val, false);
      rowHasVal[row, val] := false;
      Snapshot2Write(rowHasVal, o.rowHas, row, val, false);
      colHasVal[col, val] := false;
      Snapshot2Write(colHasVal, o.colHas, col, val, false);
    }

    /**
     * Load a configuration, row by row: place every value and fix the cells
     * whose value is not 0.
     */
    method ReadConfig(config: Board)
      requires Shaped() && IsBoard(config) && InRange(config)
      modifies grid, valIsFixed, subgridHasVal, rowHasVal, colHasVal
      ensures State() == Load(old(State()), config, 9)
    {
      for r := 0 to 9
        invariant State() == Load(old(State()), config, r)
      {
        for c := 0 to 9
          invariant State() == LoadRow(Load(old(State()), config, r), config, r, c)
        {
          var val := config[r][c];
          PlaceVal(val, r, c);
          if val != 0 {
            ghost var placed := State();
            valIsFixed[r, c] := true;
            Snapshot2Write(valIsFixed, placed.fixed, r, c, true);
          }
        }
      }
    }

    /**
     * Whether `val` may go at (row, col): the cell is not fixed and no bit
     * records `val` in its row, column or subgrid; under the invariant,
     * exactly when the row, column and subgrid do not hold `val`.
     */
    function IsSafe(val: int, row: int, col: int): (safe: bool)
      requires Shaped() && 0 <= val <= 9 && 0 <= row < 9 && 0 <= col < 9
      reads grid, valIsFixed, subgridHasVal, rowHasVal, colHasVal
      ensures Valid() && 1 <= val ==>
        (safe <==> !valIsFixed[row, col] && !RowHas(State().grid, row, val) &&
                   !ColHas(State().grid, col, val) && !BoxHas(State().grid, row / 3, col / 3, val))
    {
      !rowHasVal[row, val] && !colHasVal[col, val] && !subgridHasVal[row / 3, col / 3, val] &&
      !valIsFixed[row, col]
    }

    /**
     * The backtracking search from cell index `count` on: on success every
     * cell from `count` on holds a digit, no group repeats one, and every
     * cell before `count`, fixed or filled on entry is as it was; on failure
     * the puzzle is exactly as it was on entry and no solution completes it.
     */
    method SolveRB(count: int) returns (solved: bool)
      requires Valid() && NoDuplicates(State().grid)
      requires 0 <= count <= 81 && GivensFrom(State().grid, State().fixed, count)
      modifies grid, subgridHasVal, rowHasVal, colHasVal
      ensures Valid() && Searched(old(State()), State(), count, solved)
      decreases 81 - count
    {
      if count == 81 {
        SearchDone(State());
        return true;
      }
      var row := count / 9;
      var col := count % 9;
      assert count == 9 * row + col;
      ghost var s0 := State();
      if valIsFixed[row, col] {
        solved := SolveRB(count + 1);
        SearchSkip(s0, State(), row, col, solved);
        return;
      }
      for val := 1 to 10
        invariant State() == s0
        invariant ExcludedBelow(s0.grid, s0.fixed, row, col, val)
      {
        if IsSafe(val, row, col) {
          PlaceSafe(s0, val, row, col);
          PlaceVal(val, row, col);
          var found := SolveRB(count + 1);
          if found {
            SearchFound(s0, State(), val, row, col);
            return true;
          }
          SearchFailed(s0, State(), val, row, col);
          RemoveVal(val, row, col);
        } else {
          ExcludeOccupied(s0.grid, s0.fixed, row, col, val);
        }
      }
      SearchExhausted(s0, row, col);
      return false;
    }

    /**
     * Solve the puzzle: true exactly when some solution keeps every fixed
     * and filled cell, and then the grid is such a solution; on false the
     * puzzle is exactly as it was.
     */
    method Solve() returns (solved: bool)
      requires Valid() && NoDuplicates(State().grid) && GivensFrom(State().grid, State().fixed, 0)
      modifies grid, subgridHasVal, rowHasVal, colHasVal
      ensures Valid() && State().fixed == old(State().fixed)
      ensures solved <==> HasCompletion(old(State().grid), old(State().fixed), 0)
      ensures solved ==>
        IsSolution(State().grid) && Completes(State().grid, old(State().grid), old(State().fixed), 0)
      ensures !solved ==> State() == old(State())
    {
      solved := SolveRB(0);
    }
  }

  /**
   * Load a configuration into a new puzzle and solve it: the answer is true
   * exactly when some solution keeps every given, and then the puzzle's
   * grid is such a solution; otherwise the grid is the configuration. Either
   * way exactly the given cells are fixed.
   */
  method SolveConfiguration(config: Board) returns (solved: bool, puzzle: Sudoku)
    requires IsBoard(config) && InRange(config) && NoDuplicates(config)
    ensures fresh(puzzle.grid) && puzzle.Valid()
    ensures solved <==> exists g :: IsSolution(g) && KeepsGivens(g, config)
    ensures solved ==> IsSolution(puzzle.State().grid) && KeepsGivens(puzzle.State().grid, config)
    ensures !solved ==> puzzle.State().grid == config
    ensures forall r, c :: 0 <= r < 9 && 0 <= c < 9 ==> (puzzle.State().fixed[r][c] <==> config[r][c] != 0)
  {
    puzzle := new Sudoku();
    puzzle.ReadConfig(config);
    LoadFromEmpty(config);
    ghost var loaded := puzzle.State();
    CompletesFromStart(config, loaded.fixed);
    solved := puzzle.Solve();
    if solved {
      var fin := puzzle.State().grid;
      assert Completes(fin, config, loaded.fixed, 0);
    }
  }
}
