/**
 * The abstract value of a Sudoku puzzle: its grid, the mask of fixed
 * (given) cells, and the three presence indexes that record which digits
 * each row, column and subgrid holds. The operations here are the state
 * changes the puzzle object makes in place, stated on values.
 */
module PuzzleModel {
  import opened Tables
  import opened SudokuRules

  /**
   * `boxHas[i][j][v]` is the presence bit of digit v in subgrid (i, j);
   * like the arrays it mirrors, it is 9 by 9 by 10 although only subgrids
   * (0..2, 0..2) are ever addressed. `rowHas` and `colHas` are 9 by 10; slot
   * 0 of every index is never consulted.
   */
  datatype Puzzle = Puzzle(
    grid: Board,
    fixed: seq<seq<bool>>,
    boxHas: seq<seq<seq<bool>>>,
    rowHas: seq<seq<bool>>,
    colHas: seq<seq<bool>>)

  ghost predicate WellShaped(p: Puzzle)
  {
    IsBoard(p.grid) && IsMatrix(p.fixed, 9, 9) && IsCube(p.boxHas, 9, 9, 10) &&
    IsMatrix(p.rowHas, 9, 10) && IsMatrix(p.colHas, 9, 10)
  }

  /** For every row and digit, the row's presence bit says whether the row holds the digit. */
  ghost predicate RowIndexAgrees(p: Puzzle)
    requires WellShaped(p)
  {
    forall r, v :: 0 <= r < 9 && 1 <= v <= 9 ==> (p.rowHas[r][v] <==> RowHas(p.grid, r, v))
  }

  /** For every column and digit, the column's presence bit says whether the column holds the digit. */
  ghost predicate ColIndexAgrees(p: Puzzle)
    requires WellShaped(p)
  {
    forall c, v :: 0 <= c < 9 && 1 <= v <= 9 ==> (p.colHas[c][v] <==> ColHas(p.grid, c, v))
  }

  /** For every subgrid and digit, the subgrid's presence bit says whether the subgrid holds the digit. */
  ghost predicate BoxIndexAgrees(p: Puzzle)
    requires WellShaped(p)
  {
    forall i, j, v :: 0 <= i < 3 && 0 <= j < 3 && 1 <= v <= 9 ==> (p.boxHas[i][j][v] <==> BoxHas(p.grid, i, j, v))
  }

  /**
   * The representation invariant: every cell is empty or a digit, and for
   * every digit the three presence indexes agree with the grid.
   */
  ghost predicate Consistent(p: Puzzle)
    requires WellShaped(p)
  {
    InRange(p.grid) && RowIndexAgrees(p) && ColIndexAgrees(p) && BoxIndexAgrees(p)
  }

  /** A new puzzle: every cell empty, none fixed, every presence bit clear. */
  function Empty(): (p: Puzzle)
    ensures WellShaped(p)
  {
    Puzzle(
      seq(9, _ => seq(9, _ => 0)),
      seq(9, _ => seq(9, _ => false)),
      seq(9, _ => seq(9, _ => seq(10, _ => false))),
      seq(9, _ => seq(10, _ => false)),
      seq(9, _ => seq(10, _ => false)))
  }

  /** Set the row, column and subgrid bits of `v` for the cell (r, c). */
  function Mark(p: Puzzle, v: int, r: int, c: int): (q: Puzzle)
    requires WellShaped(p) && 0 <= v <= 9 && 0 <= r < 9 && 0 <= c < 9
    ensures WellShaped(q) && q.grid == p.grid && q.fixed == p.fixed
  {
    p.(boxHas := Update3(p.boxHas, r / 3, c / 3, v, true),
       rowHas := Update2(p.rowHas, r, v, true),
       colHas := Update2(p.colHas, c, v, true))
  }

  /** Compare the cell (r, c) with the digits 1 .. w - 1 and mark the one it holds. */
  function ScanCell(p: Puzzle, r: int, c: int, w: int): (q: Puzzle)
    requires WellShaped(p) && 0 <= r < 9 && 0 <= c < 9 && 1 <= w <= 10
    ensures WellShaped(q) && q.grid == p.grid && q.fixed == p.fixed
  {
    if w == 1 then p
    else
      var q := ScanCell(p, r, c, w - 1);
      if p.grid[r][c] == w - 1 then Mark(q, w - 1, r, c) else q
  }

  /** Scan the first `c` cells of row `r`. */
  function ScanRow(p: Puzzle, r: int, c: int): (q: Puzzle)
    requires WellShaped(p) && 0 <= r < 9 && 0 <= c <= 9
    ensures WellShaped(q) && q.grid == p.grid && q.fixed == p.fixed
  {
    if c == 0 then p else ScanCell(ScanRow(p, r, c - 1), r, c - 1, 10)
  }

  /** Scan the first `r` rows. */
  function Scan(p: Puzzle, r: int): (q: Puzzle)
    requires WellShaped(p) && 0 <= r <= 9
    ensures WellShaped(q) && q.grid == p.grid && q.fixed == p.fixed
  {
    if r == 0 then p else ScanRow(Scan(p, r - 1), r - 1, 9)
  }

  /** Write `v` at (r, c) and set its row, column and subgrid bits. */
  function Place(p: Puzzle, v: int, r: int, c: int): (q: Puzzle)
    requires WellShaped(p) && 0 <= v <= 9 && 0 <= r < 9 && 0 <= c < 9
    ensures WellShaped(q) && q.fixed == p.fixed
  {
    Mark(p.(grid := Update2(p.grid, r, c, v)), v, r, c)
  }

  /** Empty (r, c) and clear the row, column and subgrid bits of `v`. */
  function Remove(p: Puzzle, v: int, r: int, c: int): (q: Puzzle)
    requires WellShaped(p) && 0 <= v <= 9 && 0 <= r < 9 && 0 <= c < 9
    ensures WellShaped(q) && q.fixed == p.fixed
  {
    p.(grid := Update2(p.grid, r, c, 0),
       boxHas := Update3(p.boxHas, r / 3, c / 3, v, false),
       rowHas := Update2(p.rowHas, r, v, false),
       colHas := Update2(p.colHas, c, v, false))
  }

  /** Load one value of the configuration: place it, and fix the cell unless it is 0. */
  function LoadCell(p: Puzzle, v: int, r: int, c: int): (q: Puzzle)
    requires WellShaped(p) && 0 <= v <= 9 && 0 <= r < 9 && 0 <= c < 9
    ensures WellShaped(q)
  {
    var q := Place(p, v, r, c);
    if v != 0 then q.(fixed := Update2(q.fixed, r, c, true)) else q
  }

  /** Load the first `c` values of row `r` of the configuration, left to right. */
  function LoadRow(p: Puzzle, config: Board, r: int, c: int): (q: Puzzle)
    requires WellShaped(p) && IsBoard(config) && InRange(config) && 0 <= r < 9 && 0 <= c <= 9
    ensures WellShaped(q)
  {
    if c == 0 then p else LoadCell(LoadRow(p, config, r, c - 1), config[r][c - 1], r, c - 1)
  }

  /** Load the first `r` rows of the configuration, top to bottom. */
  function Load(p: Puzzle, config: Board, r: int): (q: Puzzle)
    requires WellShaped(p) && IsBoard(config) && InRange(config) && 0 <= r <= 9
    ensures WellShaped(q)
  {
    if r == 0 then p else LoadRow(Load(p, config, r - 1), config, r - 1, 9)
  }

  /** A new puzzle satisfies the representation invariant. */
  lemma EmptyConsistent()
    ensures WellShaped(Empty()) && Consistent(Empty())
  {
    var p := Empty();
    assert WellShaped(p);
    forall r, v | 0 <= r < 9 && 1 <= v <= 9
      ensures !RowHas(p.grid, r, v)
    {
    }
    forall c, v | 0 <= c < 9 && 1 <= v <= 9
      ensures !ColHas(p.grid, c, v)
    {
    }
    forall i, j, v | 0 <= i < 3 && 0 <= j < 3 && 1 <= v <= 9
      ensures !BoxHas(p.grid, i, j, v)
    {
    }
  }

  /**
   * Placing a value (a digit, or 0) into an empty cell keeps the presence
   * indexes in agreement with the grid.
   */
  lemma PlaceKeepsConsistent(p: Puzzle, v: int, r: int, c: int)
    requires WellShaped(p) && Consistent(p) && 0 <= v <= 9 && 0 <= r < 9 && 0 <= c < 9
    requires p.grid[r][c] == 0
    ensures Consistent(Place(p, v, r, c))
  {
    PlaceKeepsRows(p, v, r, c);
    PlaceKeepsCols(p, v, r, c);
    PlaceKeepsBoxes(p, v, r, c);
  }

  lemma PlaceKeepsRows(p: Puzzle, v: int, r: int, c: int)
    requires WellShaped(p) && RowIndexAgrees(p) && 0 <= v <= 9 && 0 <= r < 9 && 0 <= c < 9
    requires p.grid[r][c] == 0
    ensures RowIndexAgrees(Place(p, v, r, c))
  {
    var q := Place(p, v, r, c);
    forall r1, u | 0 <= r1 < 9 && 1 <= u <= 9
      ensures q.rowHas[r1][u] <==> RowHas(q.grid, r1, u)
    {
      if r1 == r && u == v {
        assert q.grid[r][c] == v;
      } else {
        if RowHas(q.grid, r1, u) {
          var c1 :| 0 <= c1 < 9 && q.grid[r1][c1] == u;
          assert p.grid[r1][c1] == u;
        }
        if RowHas(p.grid, r1, u) {
          var c1 :| 0 <= c1 < 9 && p.grid[r1][c1] == u;
          assert q.grid[r1][c1] == u;
        }
      }
    }
  }

  lemma PlaceKeepsCols(p: Puzzle, v: int, r: int, c: int)
    requires WellShaped(p) && ColIndexAgrees(p) && 0 <= v <= 9 && 0 <= r < 9 && 0 <= c < 9
    requires p.grid[r][c] == 0
    ensures ColIndexAgrees(Place(p, v, r, c))
  {
    var q := Place(p, v, r, c);
    forall c1, u | 0 <= c1 < 9 && 1 <= u <= 9
      ensures q.colHas[c1][u] <==> ColHas(q.grid, c1, u)
    {
      if c1 == c && u == v {
        assert q.grid[r][c] == v;
      } else {
        if ColHas(q.grid, c1, u) {
          var r1 :| 0 <= r1 < 9 && q.grid[r1][c1] == u;
          assert p.grid[r1][c1] == u;
        }
        if ColHas(p.grid, c1, u) {
          var r1 :| 0 <= r1 < 9 && p.grid[r1][c1] == u;
          assert q.grid[r1][c1] == u;
        }
      }
    }
  }

  lemma PlaceKeepsBoxes(p: Puzzle, v: int, r: int, c: int)
    requires WellShaped(p) && BoxIndexAgrees(p) && 0 <= v <= 9 && 0 <= r < 9 && 0 <= c < 9
    requires p.grid[r][c] == 0
    ensures BoxIndexAgrees(Place(p, v, r, c))
  {
    var q := Place(p, v, r, c);
    forall i, j, u | 0 <= i < 3 && 0 <= j < 3 && 1 <= u <= 9
      ensures q.boxHas[i][j][u] <==> BoxHas(q.grid, i, j, u)
    {
      if i == r / 3 && j == c / 3 && u == v {
        assert q.grid[r][c] == v;
      } else {
        if BoxHas(q.grid, i, j, u) {
          var r1, c1 :| 0 <= r1 < 9 && 0 <= c1 < 9 && r1 / 3 == i && c1 / 3 == j && q.grid[r1][c1] == u;
          assert p.grid[r1][c1] == u;
        }
        if BoxHas(p.grid, i, j, u) {
          var r1, c1 :| 0 <= r1 < 9 && 0 <= c1 < 9 && r1 / 3 == i && c1 / 3 == j && p.grid[r1][c1] == u;
          assert q.grid[r1][c1] == u;
        }
      }
    }
  }

  /**
   * Removing a digit from the cell that holds it keeps the presence indexes
   * in agreement with the grid, provided no group holds it twice: then the
   * cell was its only occurrence in its row, column and subgrid.
   */
  lemma RemoveKeepsConsistent(p: Puzzle, v: int, r: int, c: int)
    requires WellShaped(p) && Consistent(p) && NoDuplicates(p.grid)
    requires 1 <= v <= 9 && 0 <= r < 9 && 0 <= c < 9 && p.grid[r][c] == v
    ensures Consistent(Remove(p, v, r, c))
  {
    RemoveKeepsRows(p, v, r, c);
    RemoveKeepsCols(p, v, r, c);
    RemoveKeepsBoxes(p, v, r, c);
  }

  lemma RemoveKeepsRows(p: Puzzle, v: int, r: int, c: int)
    requires WellShaped(p) && RowIndexAgrees(p) && NoDuplicates(p.grid)
    requires 1 <= v <= 9 && 0 <= r < 9 && 0 <= c < 9 && p.grid[r][c] == v
    ensures RowIndexAgrees(Remove(p, v, r, c))
  {
    var q := Remove(p, v, r, c);
    forall r1, u | 0 <= r1 < 9 && 1 <= u <= 9
      ensures q.rowHas[r1][u] <==> RowHas(q.grid, r1, u)
    {
      if RowHas(q.grid, r1, u) {
        var c1 :| 0 <= c1 < 9 && q.grid[r1][c1] == u;
        assert p.grid[r1][c1] == u;
      }
      if !(r1 == r && u == v) && RowHas(p.grid, r1, u) {
        var c1 :| 0 <= c1 < 9 && p.grid[r1][c1] == u;
        assert q.grid[r1][c1] == u;
      }
    }
  }

  lemma RemoveKeepsCols(p: Puzzle, v: int, r: int, c: int)
    requires WellShaped(p) && ColIndexAgrees(p) && NoDuplicates(p.grid)
    requires 1 <= v <= 9 && 0 <= r < 9 && 0 <= c < 9 && p.grid[r][c] == v
    ensures ColIndexAgrees(Remove(p, v, r, c))
  {
    var q := Remove(p, v, r, c);
    forall c1, u | 0 <= c1 < 9 && 1 <= u <= 9
      ensures q.colHas[c1][u] <==> ColHas(q.grid, c1, u)
    {
      if ColHas(q.grid, c1, u) {
        var r1 :| 0 <= r1 < 9 && q.grid[r1][c1] == u;
        assert p.grid[r1][c1] == u;
      }
      if !(c1 == c && u == v) && ColHas(p.grid, c1, u) {
        var r1 :| 0 <= r1 < 9 && p.grid[r1][c1] == u;
        assert q.grid[r1][c1] == u;
      }
    }
  }

  lemma RemoveKeepsBoxes(p: Puzzle, v: int, r: int, c: int)
    requires WellShaped(p) && BoxIndexAgrees(p) && NoDuplicates(p.grid)
    requires 1 <= v <= 9 && 0 <= r < 9 && 0 <= c < 9 && p.grid[r][c] == v
    ensures BoxIndexAgrees(Remove(p, v, r, c))
  {
    var q := Remove(p, v, r, c);
    forall i, j, u | 0 <= i < 3 && 0 <= j < 3 && 1 <= u <= 9
      ensures q.boxHas[i][j][u] <==> BoxHas(q.grid, i, j, u)
    {
      RemoveKeepsBox(p, v, r, c, i, j, u);
    }
  }

  /** The subgrid bit of one digit in one subgrid after a removal. */
  lemma RemoveKeepsBox(p: Puzzle, v: int, r: int, c: int, i: int, j: int, u: int)
    requires WellShaped(p) && BoxIndexAgrees(p) && NoDuplicates(p.grid)
    requires 1 <= v <= 9 && 0 <= r < 9 && 0 <= c < 9 && p.grid[r][c] == v
    requires 0 <= i < 3 && 0 <= j < 3 && 1 <= u <= 9
    ensures var q := Remove(p, v, r, c); q.boxHas[i][j][u] <==> BoxHas(q.grid, i, j, u)
  {
    var q := Remove(p, v, r, c);
    if BoxHas(q.grid, i, j, u) {
      var r1, c1 :| 0 <= r1 < 9 && 0 <= c1 < 9 && r1 / 3 == i && c1 / 3 == j && q.grid[r1][c1] == u;
      assert p.grid[r1][c1] == u;
      if i == r / 3 && j == c / 3 && u == v {
        BoxDigitUnique(p.grid, r, c, r1, c1);
      }
    }
    if !(i == r / 3 && j == c / 3 && u == v) && BoxHas(p.grid, i, j, u) {
      var r1, c1 :| 0 <= r1 < 9 && 0 <= c1 < 9 && r1 / 3 == i && c1 / 3 == j && p.grid[r1][c1] == u;
      assert q.grid[r1][c1] == u;
    }
  }

  /**
   * Placing `v` into an empty cell whose row, column and subgrid bits for
   * `v` are clear, then removing it again, restores the puzzle exactly.
   */
  lemma RoundTrip(p: Puzzle, v: int, r: int, c: int)
    requires WellShaped(p) && 0 <= v <= 9 && 0 <= r < 9 && 0 <= c < 9 && p.grid[r][c] == 0
    requires !p.rowHas[r][v] && !p.colHas[c][v] && !p.boxHas[r / 3][c / 3][v]
    ensures Remove(Place(p, v, r, c), v, r, c) == p
  {
    var q := Remove(Place(p, v, r, c), v, r, c);
    MatrixExt(q.grid, p.grid, 9, 9);
    MatrixExt(q.rowHas, p.rowHas, 9, 10);
    MatrixExt(q.colHas, p.colHas, 9, 10);
    CubeExt(q.boxHas, p.boxHas, 9, 9, 10);
  }

  /**
   * Placing a digit that no bit records for the row, column and subgrid of
   * an unfixed cell, at the search position, keeps the invariant, keeps the
   * grid free of duplicates, keeps the givens from the next position on,
   * and is undone exactly by removing it again.
   */
  lemma PlaceSafe(p: Puzzle, v: int, r: int, c: int)
    requires WellShaped(p) && Consistent(p) && NoDuplicates(p.grid)
    requires 0 <= r < 9 && 0 <= c < 9 && 1 <= v <= 9
    requires GivensFrom(p.grid, p.fixed, 9 * r + c) && !p.fixed[r][c]
    requires !p.rowHas[r][v] && !p.colHas[c][v] && !p.boxHas[r / 3][c / 3][v]
    ensures var q := Place(p, v, r, c);
      Consistent(q) && NoDuplicates(q.grid) && GivensFrom(q.grid, q.fixed, 9 * r + c + 1) &&
      Remove(q, v, r, c) == p
  {
    FillKeepsNoDuplicates(p.grid, r, c, v);
    PlaceKeepsConsistent(p, v, r, c);
    GivensAfterFill(p.grid, p.fixed, r, c, v);
    RoundTrip(p, v, r, c);
  }

  /**
   * The first `k` cells, in row-major order, hold their configured values
   * and the rest are empty; exactly the loaded non-zero cells are fixed.
   */
  ghost predicate LoadedUpTo(q: Puzzle, config: Board, k: int)
    requires WellShaped(q) && IsBoard(config)
  {
    forall r, c :: 0 <= r < 9 && 0 <= c < 9 ==>
      q.grid[r][c] == (if 9 * r + c < k then config[r][c] else 0) &&
      (q.fixed[r][c] <==> 9 * r + c < k && config[r][c] != 0)
  }

  /** Loading the cell with index `k` into a puzzle loaded up to `k` loads it up to `k` + 1. */
  lemma LoadCellNext(p: Puzzle, config: Board, r: int, c: int)
    requires WellShaped(p) && IsBoard(config) && InRange(config) && 0 <= r < 9 && 0 <= c < 9
    requires LoadedUpTo(p, config, 9 * r + c)
    ensures LoadedUpTo(LoadCell(p, config[r][c], r, c), config, 9 * r + c + 1)
  {
    var q := LoadCell(p, config[r][c], r, c);
    forall r1, c1 | 0 <= r1 < 9 && 0 <= c1 < 9
      ensures q.grid[r1][c1] == (if 9 * r1 + c1 < 9 * r + c + 1 then config[r1][c1] else 0)
      ensures q.fixed[r1][c1] <==> 9 * r1 + c1 < 9 * r + c + 1 && config[r1][c1] != 0
    {
      CellIndexUnique(r1, c1, r, c);
    }
  }

  /**
   * Loading the first `c` values of row `r` into a consistent puzzle loaded
   * up to the start of that row keeps it consistent and loads it up to the
   * cell (r, c).
   */
  lemma {:induction false} LoadRowFacts(p: Puzzle, config: Board, r: int, c: int)
    requires WellShaped(p) && IsBoard(config) && InRange(config) && 0 <= r < 9 && 0 <= c <= 9
    requires Consistent(p) && LoadedUpTo(p, config, 9 * r)
    ensures Consistent(LoadRow(p, config, r, c)) && LoadedUpTo(LoadRow(p, config, r, c), config, 9 * r + c)
  {
    if c > 0 {
      LoadRowFacts(p, config, r, c - 1);
      var q := LoadRow(p, config, r, c - 1);
      assert q.grid[r][c - 1] == 0;
      PlaceKeepsConsistent(q, config[r][c - 1], r, c - 1);
      LoadCellNext(q, config, r, c - 1);
    }
  }

  /**
   * Loading the first `r` rows of a configuration into a new puzzle keeps
   * the representation invariant and loads the cells before row `r`.
   */
  lemma {:induction false} LoadPrefix(config: Board, r: int)
    requires IsBoard(config) && InRange(config) && 0 <= r <= 9
    ensures Consistent(Load(Empty(), config, r)) && LoadedUpTo(Load(Empty(), config, r), config, 9 * r)
  {
    if r == 0 {
      EmptyConsistent();
    } else {
      LoadPrefix(config, r - 1);
      LoadRowFacts(Load(Empty(), config, r - 1), config, r - 1, 9);
    }
  }

  /**
   * Loading a whole configuration into a new puzzle makes the grid equal to
   * the configuration, fixes exactly its non-zero cells, and establishes
   * the representation invariant.
   */
  lemma LoadFromEmpty(config: Board)
    requires IsBoard(config) && InRange(config)
    ensures var q := Load(Empty(), config, 9);
      Consistent(q) && q.grid == config &&
      forall r, c :: 0 <= r < 9 && 0 <= c < 9 ==> (q.fixed[r][c] <==> config[r][c] != 0)
  {
    LoadPrefix(config, 9);
    LoadedAll(Load(Empty(), config, 9), config);
  }

  /** A puzzle with every cell of a configuration loaded has that configuration as its grid. */
  lemma LoadedAll(q: Puzzle, config: Board)
    requires WellShaped(q) && IsBoard(config) && LoadedUpTo(q, config, 81)
    ensures q.grid == config
    ensures forall r, c :: 0 <= r < 9 && 0 <= c < 9 ==> (q.fixed[r][c] <==> config[r][c] != 0)
  {
    MatrixExt(q.grid, config, 9, 9);
  }

  /** Every presence bit is clear. */
  ghost predicate AllClear(p: Puzzle)
    requires WellShaped(p)
  {
    (forall r, v :: 0 <= r < 9 && 0 <= v < 10 ==> !p.rowHas[r][v]) &&
    (forall c, v :: 0 <= c < 9 && 0 <= v < 10 ==> !p.colHas[c][v]) &&
    (forall i, j, v :: 0 <= i < 9 && 0 <= j < 9 && 0 <= v < 10 ==> !p.boxHas[i][j][v])
  }

  /** The bits no digit of a cell can reach (slot 0, subgrids past (2, 2)) are clear. */
  ghost predicate StrayClear(p: Puzzle)
    requires WellShaped(p)
  {
    (forall r :: 0 <= r < 9 ==> !p.rowHas[r][0]) &&
    (forall c :: 0 <= c < 9 ==> !p.colHas[c][0]) &&
    (forall i, j, v :: 0 <= i < 9 && 0 <= j < 9 && 0 <= v < 10 && (3 <= i || 3 <= j || v == 0) ==>
       !p.boxHas[i][j][v])
  }

  /**
   * The grid as a row-major scan sees it part way: the cells before index
   * `k`, and the cell at `k` when its value is below `w`; the rest read as
   * empty.
   */
  function SeenGrid(b: Board, k: int, w: int): (s: Board)
    requires IsBoard(b)
    ensures IsBoard(s)
    ensures forall r, c {:trigger s[r][c]} :: 0 <= r < 9 && 0 <= c < 9 ==>
      s[r][c] == if Seen(k, w, r, c, b[r][c]) then b[r][c] else 0
  {
    SeenRows(b, k, w, |b|)
  }

  /** Whether the scan, at cell index `k` and digit `w`, has looked at the value `x` of the cell (r, c). */
  predicate Seen(k: int, w: int, r: int, c: int, x: int)
  {
    9 * r + c < k || (9 * r + c == k && x < w)
  }

  /** The first `n` cells of row `r` as the scan sees them. */
  function SeenRow(b: Board, k: int, w: int, r: int, n: int): (s: seq<int>)
    requires IsBoard(b) && 0 <= r < 9 && 0 <= n <= 9
    ensures |s| == n
    ensures forall c {:trigger s[c]} :: 0 <= c < n ==> s[c] == if Seen(k, w, r, c, b[r][c]) then b[r][c] else 0
  {
    if n == 0 then [] else SeenRow(b, k, w, r, n - 1) + [if Seen(k, w, r, n - 1, b[r][n - 1]) then b[r][n - 1] else 0]
  }

  /** The first `m` rows as the scan sees them. */
  function SeenRows(b: Board, k: int, w: int, m: int): (s: Board)
    requires IsBoard(b) && 0 <= m <= 9
    ensures IsMatrix(s, m, 9)
    ensures forall r, c {:trigger s[r][c]} :: 0 <= r < m && 0 <= c < 9 ==>
      s[r][c] == if Seen(k, w, r, c, b[r][c]) then b[r][c] else 0
  {
    if m == 0 then [] else SeenRows(b, k, w, m - 1) + [SeenRow(b, k, w, m - 1, |b[m - 1]|)]
  }

  /** The presence bits agree with the part of the grid the scan has seen. */
  ghost predicate IndexedUpTo(p: Puzzle, k: int, w: int)
    requires WellShaped(p)
  {
    var seen := p.(grid := SeenGrid(p.grid, k, w));
    RowIndexAgrees(seen) && ColIndexAgrees(seen) && BoxIndexAgrees(seen)
  }

  /** Before the scan starts, clear bits agree with the (unseen) grid. */
  lemma IndexStart(p: Puzzle)
    requires WellShaped(p) && InRange(p.grid) && AllClear(p)
    ensures IndexedUpTo(p, 0, 1) && StrayClear(p)
  {
    var seen := p.(grid := SeenGrid(p.grid, 0, 1));
    MatrixExt(seen.grid, Empty().grid, 9, 9);
    EmptyConsistent();
  }

  /**
   * One step of the scan over the digits at the cell (r, c): when the cell
   * holds `w`, marking `w` keeps the bits in agreement with what has been
   * seen; otherwise there is nothing new to see.
   */
  lemma IndexStep(p: Puzzle, r: int, c: int, w: int)
    requires WellShaped(p) && 0 <= r < 9 && 0 <= c < 9 && 1 <= w <= 9 && IndexedUpTo(p, 9 * r + c, w)
    ensures p.grid[r][c] == w ==> IndexedUpTo(Mark(p, w, r, c), 9 * r + c, w + 1)
    ensures p.grid[r][c] != w ==> IndexedUpTo(p, 9 * r + c, w + 1)
  {
    var k := 9 * r + c;
    var before, after := SeenGrid(p.grid, k, w), SeenGrid(p.grid, k, w + 1);
    var s := p.(grid := before);
    if p.grid[r][c] == w {
      forall r1, c1 | 0 <= r1 < 9 && 0 <= c1 < 9
        ensures after[r1][c1] == Update2(before, r, c, w)[r1][c1]
      {
        CellIndexUnique(r1, c1, r, c);
      }
      MatrixExt(after, Update2(before, r, c, w), 9, 9);
      PlaceKeepsRows(s, w, r, c);
      PlaceKeepsCols(s, w, r, c);
      PlaceKeepsBoxes(s, w, r, c);
      assert Place(s, w, r, c) == Mark(p, w, r, c).(grid := after);
    } else {
      MatrixExt(after, before, 9, 9);
    }
  }

  /** Having seen every digit of the cell (r, c) is having seen the cells before the next index. */
  lemma IndexNextCell(p: Puzzle, r: int, c: int)
    requires WellShaped(p) && InRange(p.grid) && 0 <= r < 9 && 0 <= c < 9 && IndexedUpTo(p, 9 * r + c, 10)
    ensures IndexedUpTo(p, 9 * r + c + 1, 1)
  {
    var k := 9 * r + c;
    var before, after := SeenGrid(p.grid, k, 10), SeenGrid(p.grid, k + 1, 1);
    forall r1, c1 | 0 <= r1 < 9 && 0 <= c1 < 9
      ensures after[r1][c1] == before[r1][c1]
    {
      CellIndexUnique(r1, c1, r, c);
    }
    MatrixExt(after, before, 9, 9);
  }

  /** Once the scan has seen every cell the presence indexes agree with the grid. */
  lemma IndexDone(p: Puzzle)
    requires WellShaped(p) && IndexedUpTo(p, 81, 1)
    ensures RowIndexAgrees(p) && ColIndexAgrees(p) && BoxIndexAgrees(p)
  {
    MatrixExt(SeenGrid(p.grid, 81, 1), p.grid, 9, 9);
  }

  /** Marking a digit at a cell leaves the stray bits clear. */
  lemma MarkKeepsStray(p: Puzzle, v: int, r: int, c: int)
    requires WellShaped(p) && StrayClear(p) && 1 <= v <= 9 && 0 <= r < 9 && 0 <= c < 9
    ensures StrayClear(Mark(p, v, r, c))
  {
  }

  /** An empty grid with no fixed cell, whose only set bits agree with it, is a new puzzle. */
  lemma ClearIsEmpty(p: Puzzle)
    requires WellShaped(p) && StrayClear(p) && RowIndexAgrees(p) && ColIndexAgrees(p) && BoxIndexAgrees(p)
    requires forall r, c :: 0 <= r < 9 && 0 <= c < 9 ==> p.grid[r][c] == 0 && !p.fixed[r][c]
    ensures p == Empty()
  {
    var e := Empty();
    forall r, v | 0 <= r < 9 && 1 <= v <= 9
      ensures !RowHas(p.grid, r, v) && !ColHas(p.grid, r, v)
    {
    }
    forall i, j, v | 0 <= i < 3 && 0 <= j < 3 && 1 <= v <= 9
      ensures !BoxHas(p.grid, i, j, v)
    {
    }
    MatrixExt(p.grid, e.grid, 9, 9);
    MatrixExt(p.fixed, e.fixed, 9, 9);
    MatrixExt(p.rowHas, e.rowHas, 9, 10);
    MatrixExt(p.colHas, e.colHas, 9, 10);
    CubeExt(p.boxHas, e.boxHas, 9, 9, 10);
  }

  /** Scanning the digits of one cell extends what the bits record by that cell's digit. */
  lemma {:induction false} ScanCellIndexes(p: Puzzle, r: int, c: int, w: int)
    requires WellShaped(p) && 0 <= r < 9 && 0 <= c < 9 && 1 <= w <= 10
    requires IndexedUpTo(p, 9 * r + c, 1) && StrayClear(p)
    ensures IndexedUpTo(ScanCell(p, r, c, w), 9 * r + c, w) && StrayClear(ScanCell(p, r, c, w))
  {
    if w > 1 {
      ScanCellIndexes(p, r, c, w - 1);
      var q := ScanCell(p, r, c, w - 1);
      IndexStep(q, r, c, w - 1);
      if p.grid[r][c] == w - 1 {
        MarkKeepsStray(q, w - 1, r, c);
      }
    }
  }

  /** Scanning the first `c` cells of row `r` makes the bits record exactly the cells before (r, c). */
  lemma {:induction false} ScanRowIndexes(p: Puzzle, r: int, c: int)
    requires WellShaped(p) && InRange(p.grid) && 0 <= r < 9 && 0 <= c <= 9
    requires IndexedUpTo(p, 9 * r, 1) && StrayClear(p)
    ensures IndexedUpTo(ScanRow(p, r, c), 9 * r + c, 1) && StrayClear(ScanRow(p, r, c))
  {
    if c > 0 {
      ScanRowIndexes(p, r, c - 1);
      var q := ScanRow(p, r, c - 1);
      ScanCellIndexes(q, r, c - 1, 10);
      IndexNextCell(ScanCell(q, r, c - 1, 10), r, c - 1);
    }
  }

  /** Scanning the first `r` rows from clear bits makes the bits record exactly the cells before row `r`. */
  lemma {:induction false} ScanIndexes(p: Puzzle, r: int)
    requires WellShaped(p) && InRange(p.grid) && AllClear(p) && 0 <= r <= 9
    ensures IndexedUpTo(Scan(p, r), 9 * r, 1) && StrayClear(Scan(p, r))
  {
    if r == 0 {
      IndexStart(p);
    } else {
      ScanIndexes(p, r - 1);
      ScanRowIndexes(Scan(p, r - 1), r - 1, 9);
    }
  }

  /**
   * Scanning a whole grid, starting from clear bits, leaves the presence
   * indexes in agreement with the grid and touches no bit that no digit
   * reaches.
   */
  lemma IndexFromClear(p: Puzzle)
    requires WellShaped(p) && InRange(p.grid) && AllClear(p)
    ensures RowIndexAgrees(Scan(p, 9)) && ColIndexAgrees(Scan(p, 9)) && BoxIndexAgrees(Scan(p, 9))
    ensures StrayClear(Scan(p, 9))
  {
    ScanIndexes(p, 9);
    IndexDone(Scan(p, 9));
  }

  /**
   * Scanning an empty grid with no fixed cell, from clear bits, gives a new
   * puzzle, and a new puzzle keeps the representation invariant.
   */
  lemma ScanBlank(p: Puzzle)
    requires WellShaped(p) && AllClear(p)
    requires forall r, c :: 0 <= r < 9 && 0 <= c < 9 ==> p.grid[r][c] == 0 && !p.fixed[r][c]
    ensures Scan(p, 9) == Empty() && Consistent(Scan(p, 9))
  {
    IndexFromClear(p);
    ClearIsEmpty(Scan(p, 9));
    EmptyConsistent();
  }

  /**
   * The outcome of the backtracking search from cell index `k` that started
   * at `p` and ended at `q`. Either way the representation invariant holds,
   * no group repeats a digit and the fixed cells are those of `p`. On
   * success every cell from `k` on holds a digit and `q` keeps every cell of
   * `p` that lies before `k`, is fixed or is filled; on failure `q` is `p`
   * and no solution completes `p` from `k`.
   */
  ghost predicate Searched(p: Puzzle, q: Puzzle, k: int, solved: bool)
    requires WellShaped(p) && WellShaped(q)
  {
    Consistent(q) && NoDuplicates(q.grid) && q.fixed == p.fixed &&
    (solved ==> FilledFrom(q.grid, k) && Completes(q.grid, p.grid, p.fixed, k)) &&
    (!solved ==> q == p && !HasCompletion(p.grid, p.fixed, k))
  }

  /** Past the last cell the search succeeds without changing anything. */
  lemma SearchDone(p: Puzzle)
    requires WellShaped(p) && Consistent(p) && NoDuplicates(p.grid)
    ensures Searched(p, p, 81, true)
  {
  }

  /** At a fixed cell the outcome of the search from the next cell is the outcome from this one. */
  lemma SearchSkip(p: Puzzle, q: Puzzle, r: int, c: int, solved: bool)
    requires WellShaped(p) && WellShaped(q) && 0 <= r < 9 && 0 <= c < 9
    requires p.fixed[r][c] && 1 <= p.grid[r][c] <= 9
    requires Searched(p, q, 9 * r + c + 1, solved)
    ensures Searched(p, q, 9 * r + c, solved)
  {
    SkipFixed(q.grid, p.grid, p.fixed, r, c);
    SkipFixedCompletion(p.grid, p.fixed, r, c);
  }

  /** A search from the next cell that succeeds after placing `v` at the free cell (r, c) is a success from (r, c). */
  lemma SearchFound(p: Puzzle, q: Puzzle, v: int, r: int, c: int)
    requires WellShaped(p) && WellShaped(q) && 0 <= r < 9 && 0 <= c < 9 && 1 <= v <= 9
    requires p.grid[r][c] == 0 && !p.fixed[r][c]
    requires Searched(Place(p, v, r, c), q, 9 * r + c + 1, true)
    ensures Searched(p, q, 9 * r + c, true)
  {
    FoundAfterFill(q.grid, p.grid, p.fixed, r, c, v);
  }

  /** A search from the next cell that fails after placing `v` at (r, c) excludes `v` there. */
  lemma SearchFailed(p: Puzzle, q: Puzzle, v: int, r: int, c: int)
    requires WellShaped(p) && WellShaped(q) && 0 <= r < 9 && 0 <= c < 9 && 1 <= v <= 9
    requires ExcludedBelow(p.grid, p.fixed, r, c, v)
    requires Searched(Place(p, v, r, c), q, 9 * r + c + 1, false)
    ensures ExcludedBelow(p.grid, p.fixed, r, c, v + 1)
  {
    ExcludeFailed(p.grid, p.fixed, r, c, v);
  }

  /** With every digit excluded at (r, c), the search from (r, c) fails without changing anything. */
  lemma SearchExhausted(p: Puzzle, r: int, c: int)
    requires WellShaped(p) && Consistent(p) && NoDuplicates(p.grid) && 0 <= r < 9 && 0 <= c < 9
    requires ExcludedBelow(p.grid, p.fixed, r, c, 10)
    ensures Searched(p, p, 9 * r + c, false)
  {
    ExcludedAll(p.grid, p.fixed, r, c);
  }
}
