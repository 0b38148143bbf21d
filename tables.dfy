/**
 * Rectangular tables as nested sequences: their shapes, single-entry
 * updates, and the snapshots that turn a multi-dimensional array into one.
 */
module Tables {

  /** `s` has `m` rows of `n` entries each. */
  predicate IsMatrix<T>(s: seq<seq<T>>, m: nat, n: nat)
  {
    |s| == m && forall i :: 0 <= i < m ==> |s[i]| == n
  }

  /** `s` has `l` layers, each an `m` by `n` matrix. */
  predicate IsCube<T>(s: seq<seq<seq<T>>>, l: nat, m: nat, n: nat)
  {
    |s| == l && forall i :: 0 <= i < l ==> IsMatrix(s[i], m, n)
  }

  /** `s` with the entry at (i, j) replaced by `x`. */
  function Update2<T>(s: seq<seq<T>>, i: int, j: int, x: T): (t: seq<seq<T>>)
    requires 0 <= i < |s| && 0 <= j < |s[i]|
    ensures |t| == |s| && forall a :: 0 <= a < |s| ==> |t[a]| == |s[a]|
    ensures forall a, b {:trigger t[a][b]} :: 0 <= a < |s| && 0 <= b < |s[a]| ==>
      t[a][b] == if a == i && b == j then x else s[a][b]
  {
    s[i := s[i][j := x]]
  }

  /** `s` with the entry at (i, j, k) replaced by `x`. */
  function Update3<T>(s: seq<seq<seq<T>>>, i: int, j: int, k: int, x: T): (t: seq<seq<seq<T>>>)
    requires 0 <= i < |s| && 0 <= j < |s[i]| && 0 <= k < |s[i][j]|
    ensures |t| == |s| && forall a :: 0 <= a < |s| ==> |t[a]| == |s[a]|
    ensures forall a, b :: 0 <= a < |s| && 0 <= b < |s[a]| ==> |t[a][b]| == |s[a][b]|
    ensures forall a, b, d {:trigger t[a][b][d]} :: 0 <= a < |s| && 0 <= b < |s[a]| && 0 <= d < |s[a][b]| ==>
      t[a][b][d] == if a == i && b == j && d == k then x else s[a][b][d]
  {
    s[i := s[i][j := s[i][j][k := x]]]
  }

  /** Two matrices of one shape that agree entry by entry are equal. */
  lemma MatrixExt<T>(s: seq<seq<T>>, t: seq<seq<T>>, m: nat, n: nat)
    requires IsMatrix(s, m, n) && IsMatrix(t, m, n)
    requires forall i, j :: 0 <= i < m && 0 <= j < n ==> s[i][j] == t[i][j]
    ensures s == t
  {
    forall i | 0 <= i < m
      ensures s[i] == t[i]
    {
    }
  }

  /** Two cubes of one shape that agree entry by entry are equal. */
  lemma CubeExt<T>(s: seq<seq<seq<T>>>, t: seq<seq<seq<T>>>, l: nat, m: nat, n: nat)
    requires IsCube(s, l, m, n) && IsCube(t, l, m, n)
    requires forall i, j, k :: 0 <= i < l && 0 <= j < m && 0 <= k < n ==> s[i][j][k] == t[i][j][k]
    ensures s == t
  {
    forall i | 0 <= i < l
      ensures s[i] == t[i]
    {
      MatrixExt(s[i], t[i], m, n);
    }
  }

  /** The first `n` entries of row `i` of `a`. */
  function RowPrefix<T>(a: array2<T>, i: int, n: int): (s: seq<T>)
    requires 0 <= i < a.Length0 && 0 <= n <= a.Length1
    reads a
    ensures |s| == n && forall j {:trigger s[j]} :: 0 <= j < n ==> s[j] == a[i, j]
  {
    if n == 0 then [] else RowPrefix(a, i, n - 1) + [a[i, n - 1]]
  }

  /** The first `m` rows of `a`. */
  function RowsPrefix<T>(a: array2<T>, m: int): (s: seq<seq<T>>)
    requires 0 <= m <= a.Length0
    reads a
    ensures IsMatrix(s, m, a.Length1)
    ensures forall i, j {:trigger s[i][j]} :: 0 <= i < m && 0 <= j < a.Length1 ==> s[i][j] == a[i, j]
  {
    if m == 0 then [] else RowsPrefix(a, m - 1) + [RowPrefix(a, m - 1, a.Length1)]
  }

  /** The contents of a two-dimensional array, row by row. */
  function Snapshot2<T>(a: array2<T>): (s: seq<seq<T>>)
    reads a
    ensures IsMatrix(s, a.Length0, a.Length1)
    ensures forall i, j {:trigger s[i][j]} :: 0 <= i < a.Length0 && 0 <= j < a.Length1 ==> s[i][j] == a[i, j]
  {
    RowsPrefix(a, a.Length0)
  }

  /** The first `n` entries of row `j` of layer `i` of `a`. */
  function LinePrefix<T>(a: array3<T>, i: int, j: int, n: int): (s: seq<T>)
    requires 0 <= i < a.Length0 && 0 <= j < a.Length1 && 0 <= n <= a.Length2
    reads a
    ensures |s| == n && forall k {:trigger s[k]} :: 0 <= k < n ==> s[k] == a[i, j, k]
  {
    if n == 0 then [] else LinePrefix(a, i, j, n - 1) + [a[i, j, n - 1]]
  }

  /** The first `m` rows of layer `i` of `a`. */
  function LayerPrefix<T>(a: array3<T>, i: int, m: int): (s: seq<seq<T>>)
    requires 0 <= i < a.Length0 && 0 <= m <= a.Length1
    reads a
    ensures IsMatrix(s, m, a.Length2)
    ensures forall j, k {:trigger s[j][k]} :: 0 <= j < m && 0 <= k < a.Length2 ==> s[j][k] == a[i, j, k]
  {
    if m == 0 then [] else LayerPrefix(a, i, m - 1) + [LinePrefix(a, i, m - 1, a.Length2)]
  }

  /** The first `l` layers of `a`. */
  function LayersPrefix<T>(a: array3<T>, l: int): (s: seq<seq<seq<T>>>)
    requires 0 <= l <= a.Length0
    reads a
    ensures IsCube(s, l, a.Length1, a.Length2)
    ensures forall i, j, k {:trigger s[i][j][k]} :: 0 <= i < l && 0 <= j < a.Length1 && 0 <= k < a.Length2 ==>
      s[i][j][k] == a[i, j, k]
  {
    if l == 0 then [] else LayersPrefix(a, l - 1) + [LayerPrefix(a, l - 1, a.Length1)]
  }

  /** The contents of a three-dimensional array, layer by layer. */
  function Snapshot3<T>(a: array3<T>): (s: seq<seq<seq<T>>>)
    reads a
    ensures IsCube(s, a.Length0, a.Length1, a.Length2)
    ensures forall i, j, k {:trigger s[i][j][k]} :: 0 <= i < a.Length0 && 0 <= j < a.Length1 && 0 <= k < a.Length2 ==>
      s[i][j][k] == a[i, j, k]
  {
    LayersPrefix(a, a.Length0)
  }

  /** After a write of `x` at (i, j), the snapshot of `a` is the earlier snapshot with that entry updated. */
  lemma Snapshot2Write<T>(a: array2<T>, before: seq<seq<T>>, i: int, j: int, x: T)
    requires IsMatrix(before, a.Length0, a.Length1) && 0 <= i < a.Length0 && 0 <= j < a.Length1
    requires forall r, c :: 0 <= r < a.Length0 && 0 <= c < a.Length1 ==>
      a[r, c] == if r == i && c == j then x else before[r][c]
    ensures Snapshot2(a) == Update2(before, i, j, x)
  {
    MatrixExt(Snapshot2(a), Update2(before, i, j, x), a.Length0, a.Length1);
  }

  /** After a write of `x` at (i, j, k), the snapshot of `a` is the earlier snapshot with that entry updated. */
  lemma Snapshot3Write<T>(a: array3<T>, before: seq<seq<seq<T>>>, i: int, j: int, k: int, x: T)
    requires IsCube(before, a.Length0, a.Length1, a.Length2)
    requires 0 <= i < a.Length0 && 0 <= j < a.Length1 && 0 <= k < a.Length2
    requires forall r, c, d :: 0 <= r < a.Length0 && 0 <= c < a.Length1 && 0 <= d < a.Length2 ==>
      a[r, c, d] == if r == i && c == j && d == k then x else before[r][c][d]
    ensures Snapshot3(a) == Update3(before, i, j, k, x)
  {
    var s, t := Snapshot3(a), Update3(before, i, j, k, x);
    forall r | 0 <= r < a.Length0
      ensures s[r] == t[r]
    {
      MatrixExt(s[r], t[r], a.Length1, a.Length2);
    }
  }
}
