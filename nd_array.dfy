/** Views of the solver's two-dimensional arrays as matrix values, and the
    row and column slices (`m.slice(s![i, lo..hi])`, `m.slice(s![lo..hi, j])`)
    whose dot products the solver takes. */
module NdArray {
  import opened LinearAlgebra

  /** The leading n x n block of m, as a matrix value. */
  ghost function Block(m: array2<real>, n: nat): (M: Matrix)
    reads m
    requires n <= m.Length0 && n <= m.Length1
    ensures IsMatrix(M, n, n)
    ensures forall r, c :: 0 <= r < n && 0 <= c < n ==> M[r][c] == m[r, c]
  {
    seq(n, r requires 0 <= r < n reads m => seq(n, c requires 0 <= c < n reads m => m[r, c]))
  }

  /** The first n entries of column 0 of m: the column vector an n x 1 array holds. */
  function FirstColumn(m: array2<real>, n: nat): (v: Vector)
    reads m
    requires n <= m.Length0 && 1 <= m.Length1
    ensures |v| == n && forall r :: 0 <= r < n ==> v[r] == m[r, 0]
  {
    seq(n, r requires 0 <= r < n reads m => m[r, 0])
  }

  /** Entries lo .. hi-1 of row i of m. */
  function RowSlice(m: array2<real>, i: nat, lo: nat, hi: nat): (s: Vector)
    reads m
    requires i < m.Length0 && lo <= hi <= m.Length1
    ensures |s| == hi - lo && forall k :: 0 <= k < hi - lo ==> s[k] == m[i, lo + k]
  {
    seq(hi - lo, k requires 0 <= k < hi - lo reads m => m[i, lo + k])
  }

  /** Entries lo .. hi-1 of column j of m. */
  function ColumnSlice(m: array2<real>, lo: nat, hi: nat, j: nat): (s: Vector)
    reads m
    requires lo <= hi <= m.Length0 && j < m.Length1
    ensures |s| == hi - lo && forall k :: 0 <= k < hi - lo ==> s[k] == m[lo + k, j]
  {
    seq(hi - lo, k requires 0 <= k < hi - lo reads m => m[lo + k, j])
  }

  /** A square array whose cells agree with M holds M as its block. */
  lemma BlockIs(m: array2<real>, n: nat, M: Matrix)
    requires n <= m.Length0 && n <= m.Length1 && IsMatrix(M, n, n)
    requires forall r, c :: 0 <= r < n && 0 <= c < n ==> m[r, c] == M[r][c]
    ensures Block(m, n) == M
  {
    var B := Block(m, n);
    forall r | 0 <= r < n
      ensures B[r] == M[r]
    {
    }
  }

  /** A row slice of m is the corresponding slice of its block's row. */
  lemma RowSliceOfBlock(m: array2<real>, n: nat, i: nat, lo: nat, hi: nat)
    requires n <= m.Length0 && n <= m.Length1 && i < n && lo <= hi <= n
    ensures RowSlice(m, i, lo, hi) == Block(m, n)[i][lo..hi]
  {
  }
}
