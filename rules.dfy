/**
 * The rules of Sudoku on plain 9x9 boards: which digit placements are
 * legal, what a solution is, and what it means for a solution to complete
 * a partly filled board. Cells are addressed by (row, column), each 0..8;
 * the cell at (r, c) has index 9 * r + c in row-major order, and subgrid
 * (i, j) holds the cells with r / 3 == i and c / 3 == j.
 */
module SudokuRules {
  import opened Tables

  /** Nine rows of nine cell values; 0 marks an empty cell. */
  type Board = seq<seq<int>>

  ghost predicate IsBoard(b: Board)
  {
    IsMatrix(b, 9, 9)
  }

  /** Every cell is empty or holds a digit 1..9. */
  ghost predicate InRange(b: Board)
    requires IsBoard(b)
  {
    forall r, c :: 0 <= r < 9 && 0 <= c < 9 ==> 0 <= b[r][c] <= 9
  }

  ghost predicate RowHas(b: Board, r: int, v: int)
    requires IsBoard(b) && 0 <= r < 9
  {
    exists c :: 0 <= c < 9 && b[r][c] == v
  }

  ghost predicate ColHas(b: Board, c: int, v: int)
    requires IsBoard(b) && 0 <= c < 9
  {
    exists r :: 0 <= r < 9 && b[r][c] == v
  }

  ghost predicate BoxHas(b: Board, i: int, j: int, v: int)
    requires IsBoard(b)
  {
    exists r, c :: 0 <= r < 9 && 0 <= c < 9 && r / 3 == i && c / 3 == j && b[r][c] == v
  }

  /** No row, column or subgrid holds the same digit in two cells. */
  ghost predicate NoDuplicates(b: Board)
    requires IsBoard(b)
  {
    (forall r, c, c' :: 0 <= r < 9 && 0 <= c < 9 && 0 <= c' < 9 && c != c' && b[r][c] != 0 ==>
       b[r][c] != b[r][c']) &&
    (forall r, r', c :: 0 <= r < 9 && 0 <= r' < 9 && 0 <= c < 9 && r != r' && b[r][c] != 0 ==>
       b[r][c] != b[r'][c]) &&
    (forall r, c, r', c' ::
       (0 <= r < 9 && 0 <= c < 9 && 0 <= r' < 9 && 0 <= c' < 9 &&
        r / 3 == r' / 3 && c / 3 == c' / 3 && (r != r' || c != c') && b[r][c] != 0) ==>
       b[r][c] != b[r'][c'])
  }

  /** A solved board: every cell holds a digit and no group repeats one. */
  ghost predicate IsSolution(b: Board)
  {
    IsBoard(b) &&
    (forall r, c :: 0 <= r < 9 && 0 <= c < 9 ==> 1 <= b[r][c] <= 9) &&
    NoDuplicates(b)
  }

  /** Every cell whose index is `count` or more holds a digit. */
  ghost predicate FilledFrom(b: Board, count: int)
    requires IsBoard(b)
  {
    forall r, c :: 0 <= r < 9 && 0 <= c < 9 && count <= 9 * r + c ==> 1 <= b[r][c] <= 9
  }

  /** From index `count` on, exactly the fixed cells are filled. */
  ghost predicate GivensFrom(b: Board, fixed: seq<seq<bool>>, count: int)
    requires IsBoard(b) && IsMatrix(fixed, 9, 9)
  {
    forall r, c :: 0 <= r < 9 && 0 <= c < 9 && count <= 9 * r + c ==> (fixed[r][c] <==> b[r][c] != 0)
  }

  /**
   * `g` keeps every cell of `b` that lies before index `count`, is fixed,
   * or is filled: the search from `count` on may only decide the others.
   */
  ghost predicate Completes(g: Board, b: Board, fixed: seq<seq<bool>>, count: int)
    requires IsBoard(g) && IsBoard(b) && IsMatrix(fixed, 9, 9)
  {
    forall r, c :: 0 <= r < 9 && 0 <= c < 9 && (9 * r + c < count || fixed[r][c] || b[r][c] != 0) ==>
      g[r][c] == b[r][c]
  }

  /** Some solution completes `b` from index `count` on. */
  ghost predicate HasCompletion(b: Board, fixed: seq<seq<bool>>, count: int)
    requires IsBoard(b) && IsMatrix(fixed, 9, 9)
  {
    exists g :: IsSolution(g) && Completes(g, b, fixed, count)
  }

  /** `g` keeps every non-zero value of the configuration `config`. */
  ghost predicate KeepsGivens(g: Board, config: Board)
    requires IsBoard(g) && IsBoard(config)
  {
    forall r, c :: 0 <= r < 9 && 0 <= c < 9 && config[r][c] != 0 ==> g[r][c] == config[r][c]
  }

  /**
   * When exactly the non-zero cells of `config` are fixed, completing it
   * from the first cell on is keeping its givens.
   */
  lemma CompletesFromStart(config: Board, fixed: seq<seq<bool>>)
    requires IsBoard(config) && IsMatrix(fixed, 9, 9)
    requires forall r, c :: 0 <= r < 9 && 0 <= c < 9 ==> (fixed[r][c] <==> config[r][c] != 0)
    ensures HasCompletion(config, fixed, 0) <==> exists g :: IsSolution(g) && KeepsGivens(g, config)
  {
    if exists g :: IsSolution(g) && KeepsGivens(g, config) {
      var g :| IsSolution(g) && KeepsGivens(g, config);
      assert Completes(g, config, fixed, 0);
    }
  }

  /** In a grid without duplicates, a digit occurs at most once in a subgrid. */
  lemma BoxDigitUnique(b: Board, r: int, c: int, r': int, c': int)
    requires IsBoard(b) && NoDuplicates(b)
    requires 0 <= r < 9 && 0 <= c < 9 && 0 <= r' < 9 && 0 <= c' < 9 && r / 3 == r' / 3 && c / 3 == c' / 3
    requires b[r][c] != 0 && b[r][c] == b[r'][c']
    ensures r == r' && c == c'
  {
  }

  /** The cell at (r, c) is the only cell with index 9 * r + c. */
  lemma CellIndexUnique(r: int, c: int, r': int, c': int)
    requires 0 <= c < 9 && 0 <= c' < 9
    ensures 9 * r + c == 9 * r' + c' <==> r == r' && c == c'
  {
    if r < r' {
      assert 9 * r + c < 9 * r' + c';
    } else if r' < r {
      assert 9 * r' + c' < 9 * r + c;
    }
  }

  /**
   * Writing a digit that its row, column and subgrid do not hold yet never
   * creates a duplicate.
   */
  lemma FillKeepsNoDuplicates(b: Board, r: int, c: int, v: int)
    requires IsBoard(b) && NoDuplicates(b) && 0 <= r < 9 && 0 <= c < 9 && 1 <= v <= 9
    requires !RowHas(b, r, v) && !ColHas(b, c, v) && !BoxHas(b, r / 3, c / 3, v)
    ensures IsBoard(Update2(b, r, c, v)) && NoDuplicates(Update2(b, r, c, v))
  {
    var b' := Update2(b, r, c, v);
    forall r1, c1, c2 | 0 <= r1 < 9 && 0 <= c1 < 9 && 0 <= c2 < 9 && c1 != c2 && b'[r1][c1] != 0
      ensures b'[r1][c1] != b'[r1][c2]
    {
      if r1 == r && c1 == c {
        assert !(b[r][c2] == v);
      } else if r1 == r && c2 == c {
        assert !(b[r][c1] == v);
      }
    }
    forall r1, r2, c1 | 0 <= r1 < 9 && 0 <= r2 < 9 && 0 <= c1 < 9 && r1 != r2 && b'[r1][c1] != 0
      ensures b'[r1][c1] != b'[r2][c1]
    {
      if r1 == r && c1 == c {
        assert !(b[r2][c] == v);
      } else if r2 == r && c1 == c {
        assert !(b[r1][c] == v);
      }
    }
    forall r1, c1, r2, c2 | 0 <= r1 < 9 && 0 <= c1 < 9 && 0 <= r2 < 9 && 0 <= c2 < 9 &&
        r1 / 3 == r2 / 3 && c1 / 3 == c2 / 3 && (r1 != r2 || c1 != c2) && b'[r1][c1] != 0
      ensures b'[r1][c1] != b'[r2][c2]
    {
      if r1 == r && c1 == c {
        assert !(b[r2][c2] == v);
      } else if r2 == r && c2 == c {
        assert !(b[r1][c1] == v);
      }
    }
  }

  /**
   * A solution that completes `b` cannot put `v` in an empty cell whose row,
   * column or subgrid already holds `v` in `b`.
   */
  lemma OccupiedExcludes(g: Board, b: Board, fixed: seq<seq<bool>>, count: int, r: int, c: int, v: int)
    requires IsSolution(g) && IsBoard(b) && IsMatrix(fixed, 9, 9) && Completes(g, b, fixed, count)
    requires 0 <= r < 9 && 0 <= c < 9 && 1 <= v <= 9 && b[r][c] == 0
    requires RowHas(b, r, v) || ColHas(b, c, v) || BoxHas(b, r / 3, c / 3, v)
    ensures g[r][c] != v
  {
    if RowHas(b, r, v) {
      var c' :| 0 <= c' < 9 && b[r][c'] == v;
      assert g[r][c'] == v;
    } else if ColHas(b, c, v) {
      var r' :| 0 <= r' < 9 && b[r'][c] == v;
      assert g[r'][c] == v;
    } else {
      var r', c' :| 0 <= r' < 9 && 0 <= c' < 9 && r' / 3 == r / 3 && c' / 3 == c / 3 && b[r'][c'] == v;
      assert g[r'][c'] == v;
    }
  }

  /**
   * A solution that completes `b` from the index of (r, c) and puts `v`
   * there also completes `b` with `v` written at (r, c), from the next index.
   */
  lemma CompletesAfterFill(g: Board, b: Board, fixed: seq<seq<bool>>, r: int, c: int, v: int)
    requires IsBoard(g) && IsBoard(b) && IsMatrix(fixed, 9, 9) && 0 <= r < 9 && 0 <= c < 9
    requires Completes(g, b, fixed, 9 * r + c)
    ensures g[r][c] == v ==> Completes(g, Update2(b, r, c, v), fixed, 9 * r + c + 1)
  {
    var b' := Update2(b, r, c, v);
    if g[r][c] == v {
      forall r1, c1 | 0 <= r1 < 9 && 0 <= c1 < 9 && (9 * r1 + c1 < 9 * r + c + 1 || fixed[r1][c1] || b'[r1][c1] != 0)
        ensures g[r1][c1] == b'[r1][c1]
      {
        CellIndexUnique(r1, c1, r, c);
      }
    }
  }

  /**
   * A board found from the next index after writing digit `v` into the empty,
   * unfixed cell (r, c) is filled, and completes the board from before the
   * write, from the index of (r, c).
   */
  lemma FoundAfterFill(fin: Board, b: Board, fixed: seq<seq<bool>>, r: int, c: int, v: int)
    requires IsBoard(fin) && IsBoard(b) && IsMatrix(fixed, 9, 9) && 0 <= r < 9 && 0 <= c < 9
    requires 1 <= v <= 9 && b[r][c] == 0 && !fixed[r][c]
    requires FilledFrom(fin, 9 * r + c + 1) && Completes(fin, Update2(b, r, c, v), fixed, 9 * r + c + 1)
    ensures FilledFrom(fin, 9 * r + c) && Completes(fin, b, fixed, 9 * r + c)
  {
    var b' := Update2(b, r, c, v);
    assert fin[r][c] == v;
    forall r1, c1 | 0 <= r1 < 9 && 0 <= c1 < 9 && 9 * r + c <= 9 * r1 + c1
      ensures 1 <= fin[r1][c1] <= 9
    {
      CellIndexUnique(r1, c1, r, c);
    }
    forall r1, c1 | 0 <= r1 < 9 && 0 <= c1 < 9 && (9 * r1 + c1 < 9 * r + c || fixed[r1][c1] || b[r1][c1] != 0)
      ensures fin[r1][c1] == b[r1][c1]
    {
      CellIndexUnique(r1, c1, r, c);
      assert fin[r1][c1] == b'[r1][c1];
    }
  }

  /**
   * At a fixed cell that holds a digit, completing from its index and from
   * the next index are the same thing, and a board filled from the next
   * index that keeps the cell is filled from its index.
   */
  lemma SkipFixed(g: Board, b: Board, fixed: seq<seq<bool>>, r: int, c: int)
    requires IsBoard(g) && IsBoard(b) && IsMatrix(fixed, 9, 9) && 0 <= r < 9 && 0 <= c < 9
    requires fixed[r][c] && 1 <= b[r][c] <= 9
    ensures Completes(g, b, fixed, 9 * r + c) <==> Completes(g, b, fixed, 9 * r + c + 1)
    ensures Completes(g, b, fixed, 9 * r + c + 1) && FilledFrom(g, 9 * r + c + 1) ==> FilledFrom(g, 9 * r + c)
  {
    if Completes(g, b, fixed, 9 * r + c) {
      forall r1, c1 | 0 <= r1 < 9 && 0 <= c1 < 9 && (9 * r1 + c1 < 9 * r + c + 1 || fixed[r1][c1] || b[r1][c1] != 0)
        ensures g[r1][c1] == b[r1][c1]
      {
        CellIndexUnique(r1, c1, r, c);
      }
    }
    if Completes(g, b, fixed, 9 * r + c + 1) && FilledFrom(g, 9 * r + c + 1) {
      forall r1, c1 | 0 <= r1 < 9 && 0 <= c1 < 9 && 9 * r + c <= 9 * r1 + c1
        ensures 1 <= g[r1][c1] <= 9
      {
        CellIndexUnique(r1, c1, r, c);
      }
    }
  }

  /**
   * At a fixed cell that holds a digit, a completion from its index exists
   * exactly when one from the next index does.
   */
  lemma SkipFixedCompletion(b: Board, fixed: seq<seq<bool>>, r: int, c: int)
    requires IsBoard(b) && IsMatrix(fixed, 9, 9) && 0 <= r < 9 && 0 <= c < 9
    requires fixed[r][c] && 1 <= b[r][c] <= 9
    ensures HasCompletion(b, fixed, 9 * r + c) <==> HasCompletion(b, fixed, 9 * r + c + 1)
  {
    if HasCompletion(b, fixed, 9 * r + c) {
      var g :| IsSolution(g) && Completes(g, b, fixed, 9 * r + c);
      SkipFixed(g, b, fixed, r, c);
    }
    if HasCompletion(b, fixed, 9 * r + c + 1) {
      var g :| IsSolution(g) && Completes(g, b, fixed, 9 * r + c + 1);
      SkipFixed(g, b, fixed, r, c);
    }
  }

  /** Writing at the cell (r, c), which is not fixed, keeps the givens from the next index on. */
  lemma GivensAfterFill(b: Board, fixed: seq<seq<bool>>, r: int, c: int, v: int)
    requires IsBoard(b) && IsMatrix(fixed, 9, 9) && 0 <= r < 9 && 0 <= c < 9
    requires GivensFrom(b, fixed, 9 * r + c) && !fixed[r][c]
    ensures IsBoard(Update2(b, r, c, v)) && GivensFrom(Update2(b, r, c, v), fixed, 9 * r + c + 1)
  {
    var b' := Update2(b, r, c, v);
    forall r1, c1 | 0 <= r1 < 9 && 0 <= c1 < 9 && 9 * r + c + 1 <= 9 * r1 + c1
      ensures fixed[r1][c1] <==> b'[r1][c1] != 0
    {
      CellIndexUnique(r1, c1, r, c);
    }
  }

  /** No solution that completes `b` from the index of (r, c) puts a digit below `v` at (r, c). */
  ghost predicate ExcludedBelow(b: Board, fixed: seq<seq<bool>>, r: int, c: int, v: int)
    requires IsBoard(b) && IsMatrix(fixed, 9, 9) && 0 <= r < 9 && 0 <= c < 9
  {
    forall g :: IsSolution(g) && Completes(g, b, fixed, 9 * r + c) ==> g[r][c] >= v
  }

  /** A digit that the row, column or subgrid of the empty cell (r, c) already holds is excluded there. */
  lemma ExcludeOccupied(b: Board, fixed: seq<seq<bool>>, r: int, c: int, v: int)
    requires IsBoard(b) && IsMatrix(fixed, 9, 9) && 0 <= r < 9 && 0 <= c < 9 && 1 <= v <= 9
    requires b[r][c] == 0 && ExcludedBelow(b, fixed, r, c, v)
    requires RowHas(b, r, v) || ColHas(b, c, v) || BoxHas(b, r / 3, c / 3, v)
    ensures ExcludedBelow(b, fixed, r, c, v + 1)
  {
    forall g | IsSolution(g) && Completes(g, b, fixed, 9 * r + c)
      ensures g[r][c] != v
    {
      OccupiedExcludes(g, b, fixed, 9 * r + c, r, c, v);
    }
  }

  /** A digit whose placement at (r, c) admits no completion from the next index is excluded there. */
  lemma ExcludeFailed(b: Board, fixed: seq<seq<bool>>, r: int, c: int, v: int)
    requires IsBoard(b) && IsMatrix(fixed, 9, 9) && 0 <= r < 9 && 0 <= c < 9
    requires ExcludedBelow(b, fixed, r, c, v) && !HasCompletion(Update2(b, r, c, v), fixed, 9 * r + c + 1)
    ensures ExcludedBelow(b, fixed, r, c, v + 1)
  {
    forall g | IsSolution(g) && Completes(g, b, fixed, 9 * r + c)
      ensures g[r][c] != v
    {
      CompletesAfterFill(g, b, fixed, r, c, v);
    }
  }

  /** With every digit excluded at (r, c), nothing completes `b` from its index. */
  lemma ExcludedAll(b: Board, fixed: seq<seq<bool>>, r: int, c: int)
    requires IsBoard(b) && IsMatrix(fixed, 9, 9) && 0 <= r < 9 && 0 <= c < 9
    requires ExcludedBelow(b, fixed, r, c, 10)
    ensures !HasCompletion(b, fixed, 9 * r + c)
  {
  }
}
