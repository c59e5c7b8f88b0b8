/** The Doolittle recurrence of the no-pivoting LU solver as pure functions:
    the reference the imperative solvers are proved against. The entries of
    U and L are defined by the same equations the solver evaluates,

      U[i][j] = A[i][j] - sum_{k<i} L[i][k] * U[k][j]                  (j >= i)
      L[j][i] = (1 / U[i][i]) * (A[j][i] - sum_{k<i} L[j][k] * U[k][i])  (j > i)

    followed by forward substitution L y = b and back substitution U x = y.
    Over exact reals, and when every pivot U[i][i] is nonzero, A = L U and
    the solution is the unique x with A x = b. */
module Doolittle {
  import opened LinearAlgebra

  /** (1 / p) * w: how the solver divides by a pivot p, multiplying by its
      reciprocal. At p == 0 the floating-point quotient is infinite or NaN;
      the model gives 0.0 there, so that every input has a defined run and
      the two solvers can be compared on all of them. Every algebraic
      promise is made only for nonzero pivots (NonzeroPivots). */
  function Scaled(p: real, w: real): real {
    if p == 0.0 then 0.0 else (1.0 / p) * w
  }

  /** sum_{m<k} L[r][m] * U[m][c], for k <= r and k <= c: only entries
      strictly left of column k of L and strictly above row k of U occur. */
  ghost function Partial(A: Matrix, r: nat, c: nat, k: nat): real
    requires IsSquare(A) && k <= r < |A| && k <= c < |A|
    decreases k, 0
  {
    if k == 0 then 0.0 else Partial(A, r, c, k - 1) + Lower(A, r, k - 1) * Upper(A, k - 1, c)
  }

  /** Entry (i, j) of U, on or right of the diagonal. */
  ghost function Upper(A: Matrix, i: nat, j: nat): real
    requires IsSquare(A) && i <= j < |A|
    decreases i, 1
  {
    A[i][j] - Partial(A, i, j, i)
  }

  /** Entry (j, i) of L, strictly below the diagonal. */
  ghost function Lower(A: Matrix, j: nat, i: nat): real
    requires IsSquare(A) && i < j < |A|
    decreases i, 2
  {
    Scaled(Upper(A, i, i), A[j][i] - Partial(A, j, i, i))
  }

  /** Every pivot U[i][i] is nonzero: the condition under which the solver
      divides only by nonzero values. lu_decomposition never checks it. */
  ghost predicate NonzeroPivots(A: Matrix) {
    IsSquare(A) && forall i :: 0 <= i < |A| ==> Upper(A, i, i) != 0.0
  }

  ghost predicate UnitLowerTriangular(L: Matrix) {
    IsSquare(L) &&
    forall r, c :: 0 <= r < |L| && 0 <= c < |L| ==>
      (r == c ==> L[r][c] == 1.0) && (r < c ==> L[r][c] == 0.0)
  }

  ghost predicate UpperTriangular(U: Matrix) {
    IsSquare(U) && forall r, c :: 0 <= c < r < |U| ==> U[r][c] == 0.0
  }

  ghost predicate NonzeroDiagonal(U: Matrix) {
    IsSquare(U) && forall i :: 0 <= i < |U| ==> U[i][i] != 0.0
  }

  /** Entry (r, c) of the full L: identity on and above the diagonal. */
  ghost function LowerEntry(A: Matrix, r: nat, c: nat): real
    requires IsSquare(A) && r < |A| && c < |A|
  {
    if r == c then 1.0 else if c < r then Lower(A, r, c) else 0.0
  }

  /** Entry (r, c) of the full U: zero below the diagonal. */
  ghost function UpperEntry(A: Matrix, r: nat, c: nat): real
    requires IsSquare(A) && r < |A| && c < |A|
  {
    if r <= c then Upper(A, r, c) else 0.0
  }

  ghost function LowerFactor(A: Matrix): (L: Matrix)
    requires IsSquare(A)
    ensures IsMatrix(L, |A|, |A|) && UnitLowerTriangular(L)
  {
    var n := |A|;
    seq(n, r requires 0 <= r < n => seq(n, c requires 0 <= c < n => LowerEntry(A, r, c)))
  }

  ghost function UpperFactor(A: Matrix): (U: Matrix)
    requires IsSquare(A)
    ensures IsMatrix(U, |A|, |A|) && UpperTriangular(U)
    ensures NonzeroPivots(A) ==> NonzeroDiagonal(U)
  {
    var n := |A|;
    seq(n, r requires 0 <= r < n => seq(n, c requires 0 <= c < n => UpperEntry(A, r, c)))
  }

  /** A dot product of k finished entries of row r of L against k finished
      entries of column c of U is the recurrence's partial sum. */
  lemma {:induction false} DotIsPartial(A: Matrix, r: nat, c: nat, s: Vector, t: Vector)
    requires IsSquare(A) && |s| == |t| && |s| <= r < |A| && |s| <= c < |A|
    requires forall m :: 0 <= m < |s| ==> s[m] == Lower(A, r, m) && t[m] == Upper(A, m, c)
    ensures Dot(s, t) == Partial(A, r, c, |s|)
    decreases |s|
  {
    if |s| > 0 {
      DotIsPartial(A, r, c, s[..|s| - 1], t[..|t| - 1]);
    }
  }

  /** The first k terms of (L U)[r][c], for k = min(r, c), are the
      recurrence's partial sum. */
  lemma {:induction false} FactorPrefix(A: Matrix, r: nat, c: nat, k: nat)
    requires IsSquare(A) && r < |A| && c < |A| && k <= r && k <= c
    ensures Dot(LowerFactor(A)[r][..k], Column(UpperFactor(A), c)[..k]) == Partial(A, r, c, k)
  {
    var s, t := LowerFactor(A)[r][..k], Column(UpperFactor(A), c)[..k];
    forall m | 0 <= m < k
      ensures s[m] == Lower(A, r, m) && t[m] == Upper(A, m, c)
    {
      assert s[m] == LowerEntry(A, r, m);
      assert t[m] == UpperEntry(A, m, c);
    }
    DotIsPartial(A, r, c, s, t);
  }

  /** (L U)[r][c] == A[r][c] on and above the diagonal (r <= c). */
  lemma {:induction false} FactorEntryUpper(A: Matrix, r: nat, c: nat)
    requires IsSquare(A) && r <= c < |A|
    ensures Dot(LowerFactor(A)[r], Column(UpperFactor(A), c)) == A[r][c]
  {
    var s, t := LowerFactor(A)[r], Column(UpperFactor(A), c);
    DotPeel(s, t, r);
    FactorPrefix(A, r, c, r);
    assert s[r] == 1.0 && t[r] == Upper(A, r, c);
    var after := s[r + 1..];
    forall m | 0 <= m < |after|
      ensures after[m] == 0.0
    {
      assert after[m] == LowerEntry(A, r, r + 1 + m);
    }
    DotZeroLeft(after, t[r + 1..]);
  }

  /** (L U)[r][c] == A[r][c] below the diagonal (r > c), given that the
      pivot U[c][c] is nonzero. */
  lemma {:induction false} FactorEntryLower(A: Matrix, r: nat, c: nat)
    requires IsSquare(A) && c < r < |A| && Upper(A, c, c) != 0.0
    ensures Dot(LowerFactor(A)[r], Column(UpperFactor(A), c)) == A[r][c]
  {
    var s, t := LowerFactor(A)[r], Column(UpperFactor(A), c);
    DotPeel(s, t, c);
    FactorPrefix(A, r, c, c);
    PivotTerm(A, r, c);
    ColumnBelowPivot(A, r, c);
  }

  /** The term of (L U)[r][c] at the pivot of column c, for c < r. */
  lemma {:induction false} PivotTerm(A: Matrix, r: nat, c: nat)
    requires IsSquare(A) && c < r < |A| && Upper(A, c, c) != 0.0
    ensures LowerFactor(A)[r][c] * Column(UpperFactor(A), c)[c] == A[r][c] - Partial(A, r, c, c)
  {
    assert LowerFactor(A)[r][c] == Lower(A, r, c) && Column(UpperFactor(A), c)[c] == Upper(A, c, c);
    LowerTimesPivot(A, r, c);
  }

  /** Column c of U is zero below the diagonal, so the terms after it vanish. */
  lemma {:induction false} ColumnBelowPivot(A: Matrix, r: nat, c: nat)
    requires IsSquare(A) && c < r < |A|
    ensures Dot(LowerFactor(A)[r][c + 1..], Column(UpperFactor(A), c)[c + 1..]) == 0.0
  {
    var below := Column(UpperFactor(A), c)[c + 1..];
    forall m | 0 <= m < |below|
      ensures below[m] == 0.0
    {
      assert below[m] == UpperEntry(A, c + 1 + m, c);
    }
    DotZeroRight(LowerFactor(A)[r][c + 1..], below);
  }

  /** An entry of L times its column's pivot is what the entry scaled. */
  lemma {:induction false} LowerTimesPivot(A: Matrix, r: nat, c: nat)
    requires IsSquare(A) && c < r < |A| && Upper(A, c, c) != 0.0
    ensures Lower(A, r, c) * Upper(A, c, c) == A[r][c] - Partial(A, r, c, c)
  {
    Cancel(Upper(A, c, c), A[r][c] - Partial(A, r, c, c), Lower(A, r, c));
  }

  /** (L U)[r][c] == A[r][c] for the factors of the recurrence. */
  lemma {:induction false} FactorEntry(A: Matrix, r: nat, c: nat)
    requires NonzeroPivots(A) && r < |A| && c < |A|
    ensures Dot(LowerFactor(A)[r], Column(UpperFactor(A), c)) == A[r][c]
  {
    if r <= c {
      FactorEntryUpper(A, r, c);
    } else {
      FactorEntryLower(A, r, c);
    }
  }

  /** Multiplying by the reciprocal of a nonzero pivot and then by the pivot
      gives back what was scaled. */
  lemma Cancel(p: real, w: real, v: real)
    requires p != 0.0 && v == Scaled(p, w)
    ensures v * p == w && p * v == w
  {
  }

  /** With nonzero pivots the recurrence factors A exactly: A == L U. */
  lemma {:induction false} Factorization(A: Matrix)
    requires NonzeroPivots(A)
    ensures MatMul(LowerFactor(A), UpperFactor(A), |A|) == A
  {
    var n := |A|;
    var P := MatMul(LowerFactor(A), UpperFactor(A), n);
    forall r | 0 <= r < n
      ensures P[r] == A[r]
    {
      forall c | 0 <= c < n
        ensures P[r][c] == A[r][c]
      {
        FactorEntry(A, r, c);
      }
    }
  }

  /** Row r of a unit lower-triangular L against y picks y[r] with weight one
      and nothing after it. */
  lemma {:induction false} UnitLowerRowDot(L: Matrix, y: Vector, r: nat)
    requires UnitLowerTriangular(L) && |y| == |L| && r < |L|
    ensures Dot(L[r], y) == Dot(L[r][..r], y[..r]) + y[r]
  {
    DotPeel(L[r], y, r);
    DotZeroLeft(L[r][r + 1..], y[r + 1..]);
  }

  /** Row r of an upper-triangular U against x starts at the diagonal. */
  lemma {:induction false} UpperRowDot(U: Matrix, x: Vector, r: nat)
    requires UpperTriangular(U) && |x| == |U| && r < |U|
    ensures Dot(U[r], x) == U[r][r] * x[r] + Dot(U[r][r + 1..], x[r + 1..])
  {
    DotPeel(U[r], x, r);
    DotZeroLeft(U[r][..r], x[..r]);
  }

  /** The first k entries of the forward substitution L y = b. */
  ghost function ForwardPrefix(L: Matrix, b: Vector, k: nat): (y: Vector)
    requires IsSquare(L) && |b| == |L| && k <= |b|
    ensures |y| == k
  {
    if k == 0 then []
    else
      var p := ForwardPrefix(L, b, k - 1);
      p + [b[k - 1] - Dot(L[k - 1][..k - 1], p)]
  }

  /** Forward substitution: y[i] = b[i] - sum_{k<i} L[i][k] * y[k]. */
  ghost function ForwardSolve(L: Matrix, b: Vector): (y: Vector)
    requires IsSquare(L) && |b| == |L|
    ensures |y| == |b|
  {
    ForwardPrefix(L, b, |b|)
  }

  lemma {:induction false} ForwardPrefixStable(L: Matrix, b: Vector, k: nat, m: nat)
    requires IsSquare(L) && |b| == |L| && k <= m <= |b|
    ensures ForwardPrefix(L, b, m)[..k] == ForwardPrefix(L, b, k)
    decreases m
  {
    if k < m {
      ForwardPrefixStable(L, b, k, m - 1);
      assert ForwardPrefix(L, b, m)[..m - 1] == ForwardPrefix(L, b, m - 1);
    }
  }

  /** Forward substitution solves L y = b when L is unit lower-triangular:
      no division is needed because the diagonal is one. */
  lemma {:induction false} ForwardSolves(L: Matrix, b: Vector)
    requires UnitLowerTriangular(L) && |b| == |L|
    ensures MatVec(L, ForwardSolve(L, b)) == b
  {
    var y := ForwardSolve(L, b);
    forall r | 0 <= r < |b|
      ensures MatVec(L, y)[r] == b[r]
    {
      ForwardPrefixStable(L, b, r, |b|);
      ForwardPrefixStable(L, b, r + 1, |b|);
      assert y[r] == ForwardPrefix(L, b, r + 1)[r];
      UnitLowerRowDot(L, y, r);
    }
  }

  /** A unit lower-triangular L is injective: L y == L z forces y == z. */
  lemma {:induction false} ForwardUnique(L: Matrix, y: Vector, z: Vector)
    requires UnitLowerTriangular(L) && |y| == |L| && |z| == |L|
    requires MatVec(L, y) == MatVec(L, z)
    ensures y == z
  {
    var k := 0;
    while k < |L|
      invariant k <= |L| && y[..k] == z[..k]
    {
      assert MatVec(L, y)[k] == MatVec(L, z)[k];
      UnitLowerRowDot(L, y, k);
      UnitLowerRowDot(L, z, k);
      assert y[..k + 1] == y[..k] + [y[k]] && z[..k + 1] == z[..k] + [z[k]];
      k := k + 1;
    }
    assert y == y[..k] && z == z[..k];
  }

  /** Entries k .. n-1 of the back substitution U x = y. */
  ghost function BackSuffix(U: Matrix, y: Vector, k: nat): (x: Vector)
    requires IsSquare(U) && |y| == |U| && k <= |U|
    ensures |x| == |U| - k
    decreases |U| - k
  {
    if k == |U| then []
    else
      var s := BackSuffix(U, y, k + 1);
      [Scaled(U[k][k], y[k] - Dot(U[k][k + 1..], s))] + s
  }

  /** Back substitution, from the last row up:
      x[i] = (1 / U[i][i]) * (y[i] - sum_{k>i} U[i][k] * x[k]). */
  ghost function BackSolve(U: Matrix, y: Vector): (x: Vector)
    requires IsSquare(U) && |y| == |U|
    ensures |x| == |y|
  {
    BackSuffix(U, y, 0)
  }

  lemma {:induction false} BackSuffixStable(U: Matrix, y: Vector, k: nat, m: nat)
    requires IsSquare(U) && |y| == |U| && k <= m <= |U|
    ensures BackSuffix(U, y, k)[m - k..] == BackSuffix(U, y, m)
    decreases m - k
  {
    if k < m {
      BackSuffixStable(U, y, k + 1, m);
      BackSuffixTail(U, y, k);
      var full := BackSuffix(U, y, k);
      assert full[m - k..] == full[1..][m - k - 1..];
    }
  }

  /** BackSuffix(U, y, k) is one new entry in front of BackSuffix(U, y, k + 1). */
  lemma {:induction false} BackSuffixTail(U: Matrix, y: Vector, k: nat)
    requires IsSquare(U) && |y| == |U| && k < |U|
    ensures BackSuffix(U, y, k)[1..] == BackSuffix(U, y, k + 1)
  {
  }

  /** Row r of U x = y holds for the back substitution. */
  lemma {:induction false} BackSolvesRow(U: Matrix, y: Vector, r: nat)
    requires UpperTriangular(U) && NonzeroDiagonal(U) && |y| == |U| && r < |U|
    ensures Dot(U[r], BackSolve(U, y)) == y[r]
  {
    var x := BackSolve(U, y);
    BackSuffixStable(U, y, 0, r);
    DotSplit(U[r], x, r);
    DotZeroLeft(U[r][..r], x[..r]);
    BackStep(U, y, r);
  }

  /** The suffix computed from row r on satisfies row r from its diagonal on. */
  lemma {:induction false} BackStep(U: Matrix, y: Vector, r: nat)
    requires NonzeroDiagonal(U) && |y| == |U| && r < |U|
    ensures Dot(U[r][r..], BackSuffix(U, y, r)) == y[r]
  {
    var row, here := U[r][r..], BackSuffix(U, y, r);
    BackSuffixTail(U, y, r);
    assert row[1..] == U[r][r + 1..];
    HeadSolvesRow(row, here, y[r]);
  }

  /** A vector whose head was solved from the head coefficient satisfies the row. */
  lemma {:induction false} HeadSolvesRow(row: Vector, v: Vector, w: real)
    requires |row| == |v| && 0 < |v| && row[0] != 0.0
    requires v[0] == Scaled(row[0], w - Dot(row[1..], v[1..]))
    ensures Dot(row, v) == w
  {
    DotHead(row, v);
    Rebalance(row[0], v[0], Dot(row[1..], v[1..]), w);
  }

  /** Solving p v + rest == w for v and substituting back. */
  lemma Rebalance(p: real, v: real, rest: real, w: real)
    requires p != 0.0 && v == Scaled(p, w - rest)
    ensures p * v + rest == w
  {
    Cancel(p, w - rest, v);
  }

  /** Back substitution solves U x = y when U is upper-triangular with a
      nonzero diagonal. */
  lemma {:induction false} BackSolves(U: Matrix, y: Vector)
    requires UpperTriangular(U) && NonzeroDiagonal(U) && |y| == |U|
    ensures MatVec(U, BackSolve(U, y)) == y
  {
    forall r | 0 <= r < |y|
      ensures MatVec(U, BackSolve(U, y))[r] == y[r]
    {
      BackSolvesRow(U, y, r);
    }
  }

  /** An upper-triangular U with a nonzero diagonal is injective. */
  lemma {:induction false} BackUnique(U: Matrix, x: Vector, z: Vector)
    requires UpperTriangular(U) && NonzeroDiagonal(U) && |x| == |U| && |z| == |U|
    requires MatVec(U, x) == MatVec(U, z)
    ensures x == z
  {
    var k := |U|;
    while k > 0
      invariant 0 <= k <= |U| && x[k..] == z[k..]
    {
      k := k - 1;
      assert MatVec(U, x)[k] == MatVec(U, z)[k];
      UpperRowDot(U, x, k);
      UpperRowDot(U, z, k);
      assert x[k + 1..] == z[k + 1..];
      assert U[k][k] * x[k] == U[k][k] * z[k];
      assert x[k..] == [x[k]] + x[k + 1..] && z[k..] == [z[k]] + z[k + 1..];
    }
    assert x == x[0..] && z == z[0..];
  }

  /** The vector the solver computes: back substitution on U after forward
      substitution on L, both from the recurrence. */
  ghost function Solution(A: Matrix, b: Vector): (x: Vector)
    requires IsSquare(A) && |b| == |A|
    ensures |x| == |A|
  {
    BackSolve(UpperFactor(A), ForwardSolve(LowerFactor(A), b))
  }

  /** With nonzero pivots the solver's vector solves A x = b exactly. */
  lemma {:induction false} SolutionSolves(A: Matrix, b: Vector)
    requires NonzeroPivots(A) && |b| == |A|
    ensures MatVec(A, Solution(A, b)) == b
  {
    var L, U := LowerFactor(A), UpperFactor(A);
    var y := ForwardSolve(L, b);
    var x := BackSolve(U, y);
    Factorization(A);
    MatMulAssociates(L, U, x);
    BackSolves(U, y);
    ForwardSolves(L, b);
  }

  /** ... and it is the only solution: any x with A x = b is the solver's. */
  lemma {:induction false} SolutionUnique(A: Matrix, b: Vector, x: Vector)
    requires NonzeroPivots(A) && |b| == |A| && |x| == |A|
    requires MatVec(A, x) == b
    ensures x == Solution(A, b)
  {
    var L, U := LowerFactor(A), UpperFactor(A);
    var s := Solution(A, b);
    SolutionSolves(A, b);
    Factorization(A);
    MatMulAssociates(L, U, x);
    MatMulAssociates(L, U, s);
    ForwardUnique(L, MatVec(U, x), MatVec(U, s));
    BackUnique(U, x, s);
  }

  /** The matrix [[0, 1], [1, 0]] is nonsingular, yet its first pivot is
      zero, so the solver (which never exchanges rows) divides by zero. */
  lemma {:induction false} ZeroFirstPivot()
    ensures IsSquare([[0.0, 1.0], [1.0, 0.0]])
    ensures forall v, w :: MatVec([[0.0, 1.0], [1.0, 0.0]], [v, w]) == [w, v]
    ensures Upper([[0.0, 1.0], [1.0, 0.0]], 0, 0) == 0.0
    ensures !NonzeroPivots([[0.0, 1.0], [1.0, 0.0]])
  {
    var A: Matrix := [[0.0, 1.0], [1.0, 0.0]];
    assert Partial(A, 0, 0, 0) == 0.0;
    forall v, w
      ensures MatVec(A, [v, w]) == [w, v]
    {
      DotHead(A[0], [v, w]);
      DotHead(A[1], [v, w]);
      assert A[0][1..] == [1.0] && A[1][1..] == [0.0] && [v, w][1..] == [w];
    }
  }

  /** A diagonal system, A = diag(2, 3, 4) and b = (4, 9, 8): every pivot is
      a diagonal entry and the solver's vector is (2, 3, 2). */
  lemma {:induction false} DiagonalSystem()
    ensures NonzeroPivots([[2.0, 0.0, 0.0], [0.0, 3.0, 0.0], [0.0, 0.0, 4.0]])
    ensures Solution([[2.0, 0.0, 0.0], [0.0, 3.0, 0.0], [0.0, 0.0, 4.0]], [4.0, 9.0, 8.0]) == [2.0, 3.0, 2.0]
  {
    var A: Matrix := [[2.0, 0.0, 0.0], [0.0, 3.0, 0.0], [0.0, 0.0, 4.0]];
    var x: Vector := [2.0, 3.0, 2.0];
    assert Upper(A, 0, 0) == 2.0 && Upper(A, 0, 1) == 0.0 && Upper(A, 0, 2) == 0.0;
    assert Lower(A, 1, 0) == 0.0 && Lower(A, 2, 0) == 0.0;
    assert Partial(A, 1, 1, 1) == 0.0 && Partial(A, 1, 2, 1) == 0.0 && Partial(A, 2, 1, 1) == 0.0;
    assert Upper(A, 1, 1) == 3.0 && Upper(A, 1, 2) == 0.0;
    assert Lower(A, 2, 1) == 0.0;
    assert Partial(A, 2, 2, 2) == 0.0;
    assert Upper(A, 2, 2) == 4.0;
    forall r | 0 <= r < 3
      ensures Dot(A[r], x) == [4.0, 9.0, 8.0][r]
    {
      DotHead(A[r], x);
      DotHead(A[r][1..], x[1..]);
      assert A[r][1..][1..] == [A[r][2]] && x[1..][1..] == [2.0];
      assert Dot([A[r][2]], [2.0]) == A[r][2] * 2.0;
    }
    assert MatVec(A, x) == [4.0, 9.0, 8.0];
    SolutionUnique(A, [4.0, 9.0, 8.0], x);
  }
}
