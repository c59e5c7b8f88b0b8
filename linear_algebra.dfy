/** Dense real vectors and matrices: the dot product every sum in the solver
    accumulates, matrix-vector and matrix-matrix products, and the algebra
    (splitting, linearity, associativity) the correctness proofs rest on. */
module LinearAlgebra {

  type Vector = seq<real>
  type Matrix = seq<seq<real>>

  /** M has `rows` rows of `cols` entries each. */
  ghost predicate IsMatrix(M: Matrix, rows: nat, cols: nat) {
    |M| == rows && forall r :: 0 <= r < rows ==> |M[r]| == cols
  }

  ghost predicate IsSquare(M: Matrix) {
    IsMatrix(M, |M|, |M|)
  }

  /** s[0] * t[0] + ... + s[k-1] * t[k-1], accumulated from the first index
      upwards, as the solver's running sums are. */
  function Dot(s: Vector, t: Vector): real
    requires |s| == |t|
    decreases |s|
  {
    if |s| == 0 then 0.0 else Dot(s[..|s| - 1], t[..|t| - 1]) + s[|s| - 1] * t[|t| - 1]
  }

  /** Column c of M. */
  ghost function Column(M: Matrix, c: nat): (v: Vector)
    requires forall r :: 0 <= r < |M| ==> c < |M[r]|
    ensures |v| == |M|
  {
    seq(|M|, r requires 0 <= r < |M| => M[r][c])
  }

  /** The column vector M v. */
  ghost function MatVec(M: Matrix, v: Vector): (w: Vector)
    requires forall r :: 0 <= r < |M| ==> |M[r]| == |v|
    ensures |w| == |M|
  {
    seq(|M|, r requires 0 <= r < |M| => Dot(M[r], v))
  }

  /** The row vector s M, for M with |s| rows of `cols` entries. */
  ghost function VecMat(s: Vector, M: Matrix, cols: nat): (w: Vector)
    requires IsMatrix(M, |s|, cols)
    ensures |w| == cols
  {
    seq(cols, c requires 0 <= c < cols => Dot(s, Column(M, c)))
  }

  /** The product L U of two n x n matrices. */
  ghost function MatMul(L: Matrix, U: Matrix, n: nat): (P: Matrix)
    requires IsMatrix(L, n, n) && IsMatrix(U, n, n)
    ensures IsMatrix(P, n, n)
  {
    seq(n, r requires 0 <= r < n => VecMat(L[r], U, n))
  }

  /** A dot product splits at any index into the part before and the part after. */
  lemma {:induction false} DotSplit(s: Vector, t: Vector, k: nat)
    requires |s| == |t| && k <= |s|
    ensures Dot(s, t) == Dot(s[..k], t[..k]) + Dot(s[k..], t[k..])
    decreases |s|
  {
    if k == |s| {
      assert s[..k] == s && t[..k] == t;
      assert s[k..] == [] && t[k..] == [];
    } else {
      var m := |s| - 1;
      DotSplit(s[..m], t[..m], k);
      assert s[..m][..k] == s[..k] && t[..m][..k] == t[..k];
      assert s[k..][..m - k] == s[..m][k..] && t[k..][..m - k] == t[..m][k..];
    }
  }

  /** A dot product can also be accumulated from the first term. */
  lemma {:induction false} DotHead(s: Vector, t: Vector)
    requires |s| == |t| && 0 < |s|
    ensures Dot(s, t) == s[0] * t[0] + Dot(s[1..], t[1..])
    decreases |s|
  {
    var m := |s| - 1;
    if m > 0 {
      DotHead(s[..m], t[..m]);
      assert s[..m][1..] == s[1..][..m - 1] && t[..m][1..] == t[1..][..m - 1];
    } else {
      assert s[1..] == [] && t[1..] == [];
    }
  }

  /** A dot product around one index k: the part before k, the k-th term,
      and the part after. */
  lemma {:induction false} DotPeel(s: Vector, t: Vector, k: nat)
    requires |s| == |t| && k < |s|
    ensures Dot(s, t) == Dot(s[..k], t[..k]) + s[k] * t[k] + Dot(s[k + 1..], t[k + 1..])
  {
    DotSplit(s, t, k);
    DotHead(s[k..], t[k..]);
    assert s[k..][1..] == s[k + 1..] && t[k..][1..] == t[k + 1..];
  }

  /** Coefficients that are all zero contribute nothing. */
  lemma {:induction false} DotZeroLeft(s: Vector, t: Vector)
    requires |s| == |t|
    requires forall k :: 0 <= k < |s| ==> s[k] == 0.0
    ensures Dot(s, t) == 0.0
    decreases |s|
  {
    if |s| > 0 {
      DotZeroLeft(s[..|s| - 1], t[..|t| - 1]);
    }
  }

  lemma {:induction false} DotZeroRight(s: Vector, t: Vector)
    requires |s| == |t|
    requires forall k :: 0 <= k < |t| ==> t[k] == 0.0
    ensures Dot(s, t) == 0.0
    decreases |s|
  {
    if |s| > 0 {
      DotZeroRight(s[..|s| - 1], t[..|t| - 1]);
    }
  }

  /** Changing one entry of t moves the dot product by that entry's weight
      times the change. */
  lemma {:induction false} DotUpdateRight(s: Vector, t: Vector, k: nat, v: real)
    requires |s| == |t| && k < |t|
    ensures Dot(s, t[k := v]) == Dot(s, t) + s[k] * (v - t[k])
    decreases |s|
  {
    var m := |s| - 1;
    if k < m {
      DotUpdateRight(s[..m], t[..m], k, v);
      assert t[k := v][..m] == t[..m][k := v];
    } else {
      assert t[k := v][..m] == t[..m];
    }
  }

  /** The same for a change to one entry of s. */
  lemma {:induction false} DotUpdateLeft(s: Vector, t: Vector, k: nat, v: real)
    requires |s| == |t| && k < |s|
    ensures Dot(s[k := v], t) == Dot(s, t) + (v - s[k]) * t[k]
    decreases |s|
  {
    var m := |s| - 1;
    if k < m {
      DotUpdateLeft(s[..m], t[..m], k, v);
      assert s[k := v][..m] == s[..m][k := v];
    } else {
      assert s[k := v][..m] == s[..m];
    }
  }

  /** Linearity in the first argument: (a + c u) . x == a . x + c (u . x). */
  lemma {:induction false} DotAddScaled(a: Vector, c: real, u: Vector, x: Vector, v: Vector)
    requires |a| == |u| == |x| == |v|
    requires forall k :: 0 <= k < |v| ==> v[k] == a[k] + c * u[k]
    ensures Dot(v, x) == Dot(a, x) + c * Dot(u, x)
    decreases |v|
  {
    if |v| > 0 {
      var m := |v| - 1;
      DotAddScaled(a[..m], c, u[..m], x[..m], v[..m]);
      assert v[m] * x[m] == a[m] * x[m] + c * (u[m] * x[m]);
    }
  }

  /** (s M) x == s (M x): the re-bracketing by which A = L U and U x = y
      and L y = b combine into A x = b. */
  lemma {:induction false} VecMatAssociates(s: Vector, M: Matrix, x: Vector)
    requires IsMatrix(M, |s|, |x|)
    ensures Dot(VecMat(s, M, |x|), x) == Dot(s, MatVec(M, x))
    decreases |s|
  {
    var m := |s|;
    if m == 0 {
      DotZeroLeft(VecMat(s, M, |x|), x);
    } else {
      VecMatAssociates(s[..m - 1], M[..m - 1], x);
      VecMatLastTerm(s, M, x);
      MatVecLastTerm(s, M, x);
    }
  }

  /** (s M) x split off the last row of M. */
  lemma {:induction false} VecMatLastTerm(s: Vector, M: Matrix, x: Vector)
    requires IsMatrix(M, |s|, |x|) && 0 < |s|
    ensures var m := |s| - 1;
      Dot(VecMat(s, M, |x|), x) == Dot(VecMat(s[..m], M[..m], |x|), x) + s[m] * Dot(M[m], x)
  {
    var m := |s| - 1;
    VecMatLastRow(s, M, |x|);
    DotAddScaled(VecMat(s[..m], M[..m], |x|), s[m], M[m], x, VecMat(s, M, |x|));
  }

  /** s (M x) split off the last row of M. */
  lemma {:induction false} MatVecLastTerm(s: Vector, M: Matrix, x: Vector)
    requires IsMatrix(M, |s|, |x|) && 0 < |s|
    ensures var m := |s| - 1;
      Dot(s, MatVec(M, x)) == Dot(s[..m], MatVec(M[..m], x)) + s[m] * Dot(M[m], x)
  {
    var m := |s| - 1;
    assert MatVec(M, x)[..m] == MatVec(M[..m], x);
  }

  /** s M is the product of all but the last row plus the last row scaled. */
  lemma {:induction false} VecMatLastRow(s: Vector, M: Matrix, cols: nat)
    requires IsMatrix(M, |s|, cols) && 0 < |s|
    ensures var m := |s| - 1; var v, w := VecMat(s, M, cols), VecMat(s[..m], M[..m], cols);
      forall c :: 0 <= c < cols ==> v[c] == w[c] + s[m] * M[m][c]
  {
    var m := |s| - 1;
    forall c | 0 <= c < cols
      ensures VecMat(s, M, cols)[c] == VecMat(s[..m], M[..m], cols)[c] + s[m] * M[m][c]
    {
      assert Column(M, c)[..m] == Column(M[..m], c);
    }
  }

  /** (L U) x == L (U x), row by row. */
  lemma {:induction false} MatMulAssociates(L: Matrix, U: Matrix, x: Vector)
    requires IsMatrix(L, |x|, |x|) && IsMatrix(U, |x|, |x|)
    ensures MatVec(MatMul(L, U, |x|), x) == MatVec(L, MatVec(U, x))
  {
    var n := |x|;
    forall r | 0 <= r < n
      ensures MatVec(MatMul(L, U, n), x)[r] == MatVec(L, MatVec(U, x))[r]
    {
      VecMatAssociates(L[r], U, x);
    }
  }
}
