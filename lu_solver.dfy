/** The no-pivoting LU solver: the sequential Doolittle sweep, its fork-join
    form that computes each phase from a snapshot before writing it back, forward
    and back substitution, the answer check and the per-test dispatch.
    Arithmetic is exact (real). The sweeps and substitutions are defined for
    every input (division by a zero pivot gives the stand-in 0.0, see
    Scaled); the algebra holds where every pivot is nonzero (NonzeroPivots). */
module LuSolver {
  import opened LinearAlgebra
  import opened Doolittle
  import opened NdArray

  // ---------------------------------------------------------------------
  // Progress of the sweep

  /** Cell (r, c) of u once rows 0 .. i-1 and columns i .. j-1 of row i are
      written: final there, still the initial zero everywhere else. */
  ghost function UDuring(A: Matrix, i: nat, j: nat, r: nat, c: nat): real
    requires IsSquare(A) && r < |A| && c < |A|
  {
    if r < i || (r == i && c < j) then UpperEntry(A, r, c) else 0.0
  }

  /** Cell (r, c) of l once columns 0 .. i-1 and rows i+1 .. j-1 of column i
      are written: final there, still the initial identity everywhere else. */
  ghost function LDuring(A: Matrix, i: nat, j: nat, r: nat, c: nat): real
    requires IsSquare(A) && r < |A| && c < |A|
  {
    if c < i || (c == i && r < j) then LowerEntry(A, r, c) else if r == c then 1.0 else 0.0
  }

  ghost predicate UHolds(u: array2<real>, A: Matrix, i: nat, j: nat)
    reads u
    requires IsSquare(A)
  {
    u.Length0 == |A| && u.Length1 == |A| &&
    forall r, c :: 0 <= r < |A| && 0 <= c < |A| ==> u[r, c] == UDuring(A, i, j, r, c)
  }

  ghost predicate LHolds(l: array2<real>, A: Matrix, i: nat, j: nat)
    reads l
    requires IsSquare(A)
  {
    l.Length0 == |A| && l.Length1 == |A| &&
    forall r, c :: 0 <= r < |A| && 0 <= c < |A| ==> l[r, c] == LDuring(A, i, j, r, c)
  }

  /** The shape every solver step shares: a is at least n x n, and l, u are
      distinct n x n arrays, neither of them a. */
  ghost predicate Workspace(a: array2<real>, l: array2<real>, u: array2<real>)
    reads {}
  {
    a.Length0 <= a.Length1 && l != u && a != l && a != u &&
    l.Length0 == l.Length1 == a.Length0 && u.Length0 == u.Length1 == a.Length0
  }

  /** The cells the row phase of pivot i reads are final: rows 0 .. i-1 of u
      from the diagonal on, and l[i][..i]. Nothing is said of any other cell. */
  ghost predicate RowInputs(a: array2<real>, l: array2<real>, u: array2<real>, i: nat)
    reads a, l, u
    requires Workspace(a, l, u) && i < a.Length0
  {
    (forall r, c :: 0 <= r < i && r <= c < a.Length0 ==> u[r, c] == Upper(Block(a, a.Length0), r, c)) &&
    (forall c :: 0 <= c < i ==> l[i, c] == Lower(Block(a, a.Length0), i, c))
  }

  /** The cells the column phase of pivot i reads are final: column i of u
      down to the pivot u[i][i], and l[j][..i] for every row j below i. */
  ghost predicate ColumnInputs(a: array2<real>, l: array2<real>, u: array2<real>, i: nat)
    reads a, l, u
    requires Workspace(a, l, u) && i < a.Length0
  {
    (forall k :: 0 <= k <= i ==> u[k, i] == Upper(Block(a, a.Length0), k, i)) &&
    (forall r, c :: i < r < a.Length0 && 0 <= c < i ==> l[r, c] == Lower(Block(a, a.Length0), r, c))
  }

  /** Before the row phase of pivot i, what it reads is final. */
  lemma RowReady(a: array2<real>, l: array2<real>, u: array2<real>, i: nat)
    requires Workspace(a, l, u) && i < a.Length0
    requires UHolds(u, Block(a, a.Length0), i, i) && LHolds(l, Block(a, a.Length0), i, i + 1)
    ensures RowInputs(a, l, u, i)
  {
    var A := Block(a, a.Length0);
    forall r, c | 0 <= r < i && r <= c < a.Length0
      ensures u[r, c] == Upper(A, r, c)
    {
      assert u[r, c] == UDuring(A, i, i, r, c);
    }
    forall c | 0 <= c < i
      ensures l[i, c] == Lower(A, i, c)
    {
      assert l[i, c] == LDuring(A, i, i + 1, i, c);
    }
  }

  /** After the row phase of pivot i, what the column phase reads is final. */
  lemma ColumnReady(a: array2<real>, l: array2<real>, u: array2<real>, i: nat)
    requires Workspace(a, l, u) && i < a.Length0
    requires UHolds(u, Block(a, a.Length0), i + 1, i + 1) && LHolds(l, Block(a, a.Length0), i, i + 1)
    ensures ColumnInputs(a, l, u, i)
  {
    var A := Block(a, a.Length0);
    forall k | 0 <= k <= i
      ensures u[k, i] == Upper(A, k, i)
    {
      assert u[k, i] == UDuring(A, i + 1, i + 1, k, i);
    }
    forall r, c | i < r < a.Length0 && 0 <= c < i
      ensures l[r, c] == Lower(A, r, c)
    {
      assert l[r, c] == LDuring(A, i, i + 1, r, c);
    }
  }

  /** After the sweep the arrays hold the recurrence's factors. */
  lemma SweepDone(l: array2<real>, u: array2<real>, A: Matrix)
    requires IsSquare(A) && UHolds(u, A, |A|, |A|) && LHolds(l, A, |A|, |A| + 1)
    ensures Block(l, |A|) == LowerFactor(A) && Block(u, |A|) == UpperFactor(A)
  {
    BlockIs(l, |A|, LowerFactor(A));
    BlockIs(u, |A|, UpperFactor(A));
  }

  /** A fresh u of zeros and a fresh identity l are the sweep's starting point. */
  method NewFactors(n: nat) returns (l: array2<real>, u: array2<real>)
    ensures fresh(l) && fresh(u) && l != u
    ensures l.Length0 == l.Length1 == n && u.Length0 == u.Length1 == n
    ensures forall r, c :: 0 <= r < n && 0 <= c < n ==> l[r, c] == (if r == c then 1.0 else 0.0)
    ensures forall r, c :: 0 <= r < n && 0 <= c < n ==> u[r, c] == 0.0
  {
    l := new real[n, n]((r, c) => if r == c then 1.0 else 0.0);
    u := new real[n, n]((r, c) => 0.0);
  }

  // ---------------------------------------------------------------------
  // Sequential sweep

  /** Row i of u: u[i][j] = a[i][j] - sum_{k<i} l[i][k] * u[k][j] for j = i .. n-1.
      It needs only the finished cells it reads (RowInputs), gives row i of u
      its final entries from the diagonal on, and writes no other cell. */
  method UpperRow(a: array2<real>, l: array2<real>, u: array2<real>, i: nat)
    requires Workspace(a, l, u) && i < a.Length0 && RowInputs(a, l, u, i)
    modifies u
    ensures forall c :: i <= c < a.Length0 ==> u[i, c] == Upper(Block(a, a.Length0), i, c)
    ensures forall r, c :: 0 <= r < a.Length0 && 0 <= c < a.Length0 && !(r == i && i <= c) ==> u[r, c] == old(u[r, c])
  {
    var n := a.Length0;
    ghost var A := Block(a, n);
    for j := i to n
      invariant forall c :: i <= c < j ==> u[i, c] == Upper(A, i, c)
      invariant forall r, c :: 0 <= r < n && 0 <= c < n && !(r == i && i <= c < j) ==> u[r, c] == old(u[r, c])
    {
      var sum := 0.0;
      for k := 0 to i
        invariant sum == Partial(A, i, j, k)
      {
        assert l[i, k] == Lower(A, i, k) && u[k, j] == old(u[k, j]) == Upper(A, k, j);
        sum := sum + l[i, k] * u[k, j];
      }
      u[i, j] := a[i, j] - sum;
    }
  }

  /** Column i of l: l[j][i] = (1 / u[i][i]) * (a[j][i] - sum_{k<i} l[j][k] * u[k][i])
      for j = i+1 .. n-1. It needs only the finished cells it reads
      (ColumnInputs, the pivot u[i][i] the row phase just wrote among them),
      gives column i of l its final entries below the diagonal, and writes
      no other cell. */
  method LowerColumn(a: array2<real>, l: array2<real>, u: array2<real>, i: nat)
    requires Workspace(a, l, u) && i < a.Length0 && ColumnInputs(a, l, u, i)
    modifies l
    ensures forall r :: i < r < a.Length0 ==> l[r, i] == Lower(Block(a, a.Length0), r, i)
    ensures forall r, c :: 0 <= r < a.Length0 && 0 <= c < a.Length0 && !(i < r && c == i) ==> l[r, c] == old(l[r, c])
  {
    var n := a.Length0;
    ghost var A := Block(a, n);
    assert u[i, i] == Upper(A, i, i);
    for j := i + 1 to n
      invariant forall r :: i < r < j ==> l[r, i] == Lower(A, r, i)
      invariant forall r, c :: 0 <= r < n && 0 <= c < n && !(i < r < j && c == i) ==> l[r, c] == old(l[r, c])
    {
      var sum := 0.0;
      for k := 0 to i
        invariant sum == Partial(A, j, i, k)
      {
        assert l[j, k] == old(l[j, k]) == Lower(A, j, k) && u[k, i] == Upper(A, k, i);
        sum := sum + l[j, k] * u[k, i];
      }
      l[j, i] := Scaled(u[i, i], a[j, i] - sum);
    }
  }

  /** Pivot step i of lu_decomposition: row i of U, then column i of L. */
  method PivotStep(a: array2<real>, l: array2<real>, u: array2<real>, i: nat)
    requires Workspace(a, l, u) && i < a.Length0
    requires UHolds(u, Block(a, a.Length0), i, i) && LHolds(l, Block(a, a.Length0), i, i + 1)
    modifies l, u
    ensures UHolds(u, Block(a, a.Length0), i + 1, i + 1) && LHolds(l, Block(a, a.Length0), i + 1, i + 2)
  {
    ghost var n, A := a.Length0, Block(a, a.Length0);
    RowReady(a, l, u, i);
    UpperRow(a, l, u, i);
    forall r, c | 0 <= r < n && 0 <= c < n
      ensures u[r, c] == UDuring(A, i + 1, i + 1, r, c)
    {
      if !(r == i && i <= c) {
        assert old(u[r, c]) == UDuring(A, i, i, r, c);
      }
    }
    ColumnReady(a, l, u, i);
    LowerColumn(a, l, u, i);
    forall r, c | 0 <= r < n && 0 <= c < n
      ensures l[r, c] == LDuring(A, i + 1, i + 2, r, c)
    {
      if !(i < r && c == i) {
        assert old(l[r, c]) == LDuring(A, i, i + 1, r, c);
      }
    }
  }

  /** The factorisation loop of lu_decomposition: L starts as the identity,
      U as zero, and pivot step i fills row i of U and then column i of L. */
  method Factorize(a: array2<real>) returns (l: array2<real>, u: array2<real>)
    requires a.Length0 <= a.Length1
    ensures fresh(l) && fresh(u) && l != u
    ensures l.Length0 == l.Length1 == a.Length0 && u.Length0 == u.Length1 == a.Length0
    ensures Block(l, a.Length0) == LowerFactor(Block(a, a.Length0))
    ensures Block(u, a.Length0) == UpperFactor(Block(a, a.Length0))
    ensures UnitLowerTriangular(Block(l, a.Length0)) && UpperTriangular(Block(u, a.Length0))
    ensures NonzeroPivots(Block(a, a.Length0)) ==>
      MatMul(Block(l, a.Length0), Block(u, a.Length0), a.Length0) == Block(a, a.Length0)
  {
    var n := a.Length0;
    ghost var A := Block(a, n);
    l, u := NewFactors(n);
    for i := 0 to n
      invariant UHolds(u, A, i, i) && LHolds(l, A, i, i + 1)
    {
      PivotStep(a, l, u, i);
    }
    SweepDone(l, u, A);
    if NonzeroPivots(A) {
      Factorization(A);
    }
  }

  // ---------------------------------------------------------------------
  // Fork-join sweep: each phase is a batch of (index, value) tasks computed
  // from the arrays as they stand, then written back.

  /** The tasks of the row phase of pivot i: (j, a[i][j] - l[i][..i] . u[..i][j]). */
  function UpperRowTasks(a: array2<real>, l: array2<real>, u: array2<real>, i: nat): (tasks: seq<(nat, real)>)
    reads a, l, u
    requires Workspace(a, l, u) && i < a.Length0
    ensures |tasks| == a.Length0 - i
    ensures forall t :: 0 <= t < |tasks| ==> i <= tasks[t].0 < a.Length0
    ensures forall t, t' :: 0 <= t < t' < |tasks| ==> tasks[t].0 != tasks[t'].0
  {
    seq(a.Length0 - i, t requires 0 <= t < a.Length0 - i reads a, l, u =>
      (i + t, a[i, i + t] - Dot(RowSlice(l, i, 0, i), ColumnSlice(u, 0, i, i + t))))
  }

  /** The tasks of the column phase of pivot i:
      (j, (1 / u[i][i]) * (a[j][i] - l[j][..i] . u[..i][i])). */
  function LowerColumnTasks(a: array2<real>, l: array2<real>, u: array2<real>, i: nat): (tasks: seq<(nat, real)>)
    reads a, l, u
    requires Workspace(a, l, u) && i < a.Length0
    ensures |tasks| == a.Length0 - i - 1
    ensures forall t :: 0 <= t < |tasks| ==> i < tasks[t].0 < a.Length0
    ensures forall t, t' :: 0 <= t < t' < |tasks| ==> tasks[t].0 != tasks[t'].0
  {
    var pivot := u[i, i];
    seq(a.Length0 - i - 1, t requires 0 <= t < a.Length0 - i - 1 reads a, l, u =>
      (i + 1 + t, Scaled(pivot, a[i + 1 + t, i] - Dot(RowSlice(l, i + 1 + t, 0, i), ColumnSlice(u, 0, i, i)))))
  }

  /** Read from a snapshot in which only earlier pivots are done, every row
      task computes the recurrence's entry of U. */
  lemma UpperRowTasksAgree(a: array2<real>, l: array2<real>, u: array2<real>, i: nat)
    requires Workspace(a, l, u) && i < a.Length0 && RowInputs(a, l, u, i)
    ensures var tasks := UpperRowTasks(a, l, u, i);
      forall t :: 0 <= t < |tasks| ==> tasks[t] == (i + t, Upper(Block(a, a.Length0), i, i + t))
  {
    var A := Block(a, a.Length0);
    var tasks := UpperRowTasks(a, l, u, i);
    forall t | 0 <= t < |tasks|
      ensures tasks[t].1 == Upper(A, i, i + t)
    {
      var s, w := RowSlice(l, i, 0, i), ColumnSlice(u, 0, i, i + t);
      forall m | 0 <= m < i
        ensures s[m] == Lower(A, i, m) && w[m] == Upper(A, m, i + t)
      {
      }
      DotIsPartial(A, i, i + t, s, w);
    }
  }

  /** The same for the column tasks, read after the row phase of pivot i. */
  lemma LowerColumnTasksAgree(a: array2<real>, l: array2<real>, u: array2<real>, i: nat)
    requires Workspace(a, l, u) && i < a.Length0 && ColumnInputs(a, l, u, i)
    ensures u[i, i] == Upper(Block(a, a.Length0), i, i)
    ensures NonzeroPivots(Block(a, a.Length0)) ==> u[i, i] != 0.0
    ensures var tasks := LowerColumnTasks(a, l, u, i);
      forall t :: 0 <= t < |tasks| ==> tasks[t] == (i + 1 + t, Lower(Block(a, a.Length0), i + 1 + t, i))
  {
    var A := Block(a, a.Length0);
    assert u[i, i] == Upper(A, i, i);
    var tasks := LowerColumnTasks(a, l, u, i);
    forall t | 0 <= t < |tasks|
      ensures tasks[t].1 == Lower(A, i + 1 + t, i)
    {
      LowerSnapshotSum(a, l, u, i, i + 1 + t);
    }
  }

  /** The sum a column task of pivot i takes for row j is the recurrence's. */
  lemma LowerSnapshotSum(a: array2<real>, l: array2<real>, u: array2<real>, i: nat, j: nat)
    requires Workspace(a, l, u) && i < j < a.Length0 && ColumnInputs(a, l, u, i)
    ensures Dot(RowSlice(l, j, 0, i), ColumnSlice(u, 0, i, i)) == Partial(Block(a, a.Length0), j, i, i)
  {
    var A := Block(a, a.Length0);
    var s, w := RowSlice(l, j, 0, i), ColumnSlice(u, 0, i, i);
    forall m | 0 <= m < i
      ensures s[m] == Lower(A, j, m) && w[m] == Upper(A, m, i)
    {
    }
    DotIsPartial(A, j, i, s, w);
  }

  /** Row phase of pivot i in parallel_lu_decomposition: compute every task
      from the snapshot, then write u[i][j] := value for each (j, value). */
  method ParallelUpperRow(a: array2<real>, l: array2<real>, u: array2<real>, i: nat)
    requires Workspace(a, l, u) && i < a.Length0 && RowInputs(a, l, u, i)
    modifies u
    ensures forall c :: i <= c < a.Length0 ==> u[i, c] == Upper(Block(a, a.Length0), i, c)
    ensures forall r, c :: 0 <= r < a.Length0 && 0 <= c < a.Length0 && !(r == i && i <= c) ==> u[r, c] == old(u[r, c])
  {
    ghost var A := Block(a, a.Length0);
    var cols := UpperRowTasks(a, l, u, i);
    UpperRowTasksAgree(a, l, u, i);
    for t := 0 to |cols|
      invariant forall c :: i <= c < i + t ==> u[i, c] == Upper(A, i, c)
      invariant forall r, c :: 0 <= r < a.Length0 && 0 <= c < a.Length0 && !(r == i && i <= c < i + t) ==> u[r, c] == old(u[r, c])
    {
      var (j, v) := cols[t];
      u[i, j] := v;
    }
  }

  /** Column phase of pivot i in parallel_lu_decomposition. */
  method ParallelLowerColumn(a: array2<real>, l: array2<real>, u: array2<real>, i: nat)
    requires Workspace(a, l, u) && i < a.Length0 && ColumnInputs(a, l, u, i)
    modifies l
    ensures forall r :: i < r < a.Length0 ==> l[r, i] == Lower(Block(a, a.Length0), r, i)
    ensures forall r, c :: 0 <= r < a.Length0 && 0 <= c < a.Length0 && !(i < r && c == i) ==> l[r, c] == old(l[r, c])
  {
    ghost var A := Block(a, a.Length0);
    LowerColumnTasksAgree(a, l, u, i);
    var rows := LowerColumnTasks(a, l, u, i);
    for t := 0 to |rows|
      invariant forall r :: i < r < i + 1 + t ==> l[r, i] == Lower(A, r, i)
      invariant forall r, c :: 0 <= r < a.Length0 && 0 <= c < a.Length0 && !(i < r < i + 1 + t && c == i) ==> l[r, c] == old(l[r, c])
    {
      var (j, v) := rows[t];
      l[j, i] := v;
    }
  }

  /** Pivot step i of parallel_lu_decomposition: the row batch, then the column batch. */
  method ParallelPivotStep(a: array2<real>, l: array2<real>, u: array2<real>, i: nat)
    requires Workspace(a, l, u) && i < a.Length0
    requires UHolds(u, Block(a, a.Length0), i, i) && LHolds(l, Block(a, a.Length0), i, i + 1)
    modifies l, u
    ensures UHolds(u, Block(a, a.Length0), i + 1, i + 1) && LHolds(l, Block(a, a.Length0), i + 1, i + 2)
  {
    ghost var n, A := a.Length0, Block(a, a.Length0);
    RowReady(a, l, u, i);
    ParallelUpperRow(a, l, u, i);
    forall r, c | 0 <= r < n && 0 <= c < n
      ensures u[r, c] == UDuring(A, i + 1, i + 1, r, c)
    {
      if !(r == i && i <= c) {
        assert old(u[r, c]) == UDuring(A, i, i, r, c);
      }
    }
    ColumnReady(a, l, u, i);
    ParallelLowerColumn(a, l, u, i);
    forall r, c | 0 <= r < n && 0 <= c < n
      ensures l[r, c] == LDuring(A, i + 1, i + 2, r, c)
    {
      if !(i < r && c == i) {
        assert old(l[r, c]) == LDuring(A, i, i + 1, r, c);
      }
    }
  }

  /** The factorisation loop of parallel_lu_decomposition: the same factors
      as Factorize, for every input, zero pivots included. */
  method ParallelFactorize(a: array2<real>) returns (l: array2<real>, u: array2<real>)
    requires a.Length0 <= a.Length1
    ensures fresh(l) && fresh(u) && l != u
    ensures l.Length0 == l.Length1 == a.Length0 && u.Length0 == u.Length1 == a.Length0
    ensures Block(l, a.Length0) == LowerFactor(Block(a, a.Length0))
    ensures Block(u, a.Length0) == UpperFactor(Block(a, a.Length0))
    ensures UnitLowerTriangular(Block(l, a.Length0)) && UpperTriangular(Block(u, a.Length0))
    ensures NonzeroPivots(Block(a, a.Length0)) ==>
      MatMul(Block(l, a.Length0), Block(u, a.Length0), a.Length0) == Block(a, a.Length0)
  {
    var n := a.Length0;
    ghost var A := Block(a, n);
    l, u := NewFactors(n);
    for i := 0 to n
      invariant UHolds(u, A, i, i) && LHolds(l, A, i, i + 1)
    {
      ParallelPivotStep(a, l, u, i);
    }
    SweepDone(l, u, A);
    if NonzeroPivots(A) {
      Factorization(A);
    }
  }

  // ---------------------------------------------------------------------
  // Substitutions (identical in both solvers)

  /** y[i] = b[i][0] - l[i][..i] . y[..i] for i = 0 .. n-1. */
  method ForwardSubstitute(l: array2<real>, b: array2<real>) returns (y: array<real>)
    requires l.Length0 == l.Length1 <= b.Length0 && 1 <= b.Length1
    ensures fresh(y)
    ensures y.Length == l.Length0
    ensures y[..] == ForwardSolve(Block(l, l.Length0), FirstColumn(b, l.Length0))
    ensures UnitLowerTriangular(Block(l, l.Length0)) ==>
      MatVec(Block(l, l.Length0), y[..]) == FirstColumn(b, l.Length0)
  {
    var n := l.Length0;
    ghost var L, bv := Block(l, n), FirstColumn(b, n);
    y := new real[n](_ => 0.0);
    for i := 0 to n
      invariant y[..i] == ForwardPrefix(L, bv, i)
    {
      ForwardEntry(l, b, y, i);
    }
    assert y[..] == y[..n];
    if UnitLowerTriangular(L) {
      ForwardSolves(L, bv);
    }
  }

  /** The body of the forward substitution loop at row i. */
  method ForwardEntry(l: array2<real>, b: array2<real>, y: array<real>, i: nat)
    requires l.Length0 == l.Length1 == y.Length <= b.Length0 && 1 <= b.Length1 && i < y.Length
    requires y[..i] == ForwardPrefix(Block(l, l.Length0), FirstColumn(b, l.Length0), i)
    modifies y
    ensures y[..i + 1] == ForwardPrefix(Block(l, l.Length0), FirstColumn(b, l.Length0), i + 1)
    ensures y[i + 1..] == old(y[i + 1..])
  {
    var n := l.Length0;
    ghost var L, bv := Block(l, n), FirstColumn(b, n);
    ghost var before := y[..i];
    RowSliceOfBlock(l, n, i, 0, i);
    assert RowSlice(l, i, 0, i) == L[i][..i];
    var sum := Dot(RowSlice(l, i, 0, i), y[..i]);
    assert sum == Dot(L[i][..i], before);
    assert b[i, 0] == bv[i];
    assert ForwardPrefix(L, bv, i + 1) == before + [bv[i] - Dot(L[i][..i], before)];
    y[i] := b[i, 0] - sum;
    assert y[..i] == before;
    assert y[..i + 1] == y[..i] + [y[i]];
  }

  /** One step of back substitution computes entry i of the recurrence. */
  lemma BackSuffixStep(U: Matrix, yv: Vector, i: nat, p: real, w: real, sum: real, xi: real)
    requires IsSquare(U) && |yv| == |U| && i < |U|
    requires p == U[i][i] && w == yv[i] && sum == Dot(U[i][i + 1..], BackSuffix(U, yv, i + 1))
    requires xi == Scaled(p, w - sum)
    ensures BackSuffix(U, yv, i) == [xi] + BackSuffix(U, yv, i + 1)
  {
  }

  /** x[i] = (1 / u[i][i]) * (y[i] - u[i][i+1..] . x[i+1..]) for i = n-1 down to 0. */
  method BackSubstitute(u: array2<real>, y: array<real>) returns (x: array<real>)
    requires u.Length0 == u.Length1 == y.Length
    ensures fresh(x) && x.Length == u.Length0
    ensures x[..] == BackSolve(Block(u, u.Length0), y[..])
    ensures UpperTriangular(Block(u, u.Length0)) && NonzeroDiagonal(Block(u, u.Length0)) ==>
      MatVec(Block(u, u.Length0), x[..]) == y[..]
  {
    var n := u.Length0;
    ghost var U, yv := Block(u, n), y[..];
    x := new real[n](_ => 0.0);
    for i := n downto 0
      invariant x[i..] == BackSuffix(U, yv, i)
    {
      BackEntry(u, y, x, i);
    }
    assert x[..] == x[0..];
    if UpperTriangular(U) && NonzeroDiagonal(U) {
      BackSolves(U, yv);
    }
  }

  /** The body of the back substitution loop at row i. */
  method BackEntry(u: array2<real>, y: array<real>, x: array<real>, i: nat)
    requires u.Length0 == u.Length1 == y.Length == x.Length && i < x.Length && x != y
    requires x[i + 1..] == BackSuffix(Block(u, u.Length0), y[..], i + 1)
    modifies x
    ensures x[i..] == BackSuffix(Block(u, u.Length0), y[..], i)
    ensures x[..i] == old(x[..i])
  {
    var n := u.Length0;
    ghost var U := Block(u, n);
    ghost var below := x[i + 1..];
    RowSliceOfBlock(u, n, i, i + 1, n);
    var sum := Dot(RowSlice(u, i, i + 1, n), x[i + 1..]);
    assert RowSlice(u, i, i + 1, n) == U[i][i + 1..];
    assert x[i + 1..] == below;
    assert sum == Dot(U[i][i + 1..], below);
    var xi := Scaled(u[i, i], y[i] - sum);
    BackSuffixStep(U, y[..], i, u[i, i], y[i], sum, xi);
    x[i] := xi;
    assert x[i..] == [xi] + below;
  }

  // ---------------------------------------------------------------------
  // The two solvers, the answer check and the per-test dispatch

  /** Both solvers accept an a with at least n columns and a b with at least
      n rows and one column, where n is the number of rows of a. */
  ghost predicate SolverInput(a: array2<real>, b: array2<real>) reads {} {
    a.Length0 <= a.Length1 && a.Length0 <= b.Length0 && 1 <= b.Length1
  }

  /** lu_decomposition: the factors, then L y = b, then U x = y. The result is
      the recurrence's solution for every input; when every pivot is nonzero
      it solves A x = b, and it is the only vector that does. a and b are
      only read. */
  method LuDecomposition(a: array2<real>, b: array2<real>) returns (x: array<real>)
    requires SolverInput(a, b)
    ensures fresh(x) && x.Length == a.Length0
    ensures x[..] == Solution(Block(a, a.Length0), FirstColumn(b, a.Length0))
    ensures NonzeroPivots(Block(a, a.Length0)) ==>
      MatVec(Block(a, a.Length0), x[..]) == FirstColumn(b, a.Length0)
    ensures NonzeroPivots(Block(a, a.Length0)) ==>
      forall z :: |z| == a.Length0 && MatVec(Block(a, a.Length0), z) == FirstColumn(b, a.Length0) ==> z == x[..]
  {
    var l, u := Factorize(a);
    var y := ForwardSubstitute(l, b);
    x := BackSubstitute(u, y);
    if NonzeroPivots(Block(a, a.Length0)) {
      Solved(Block(a, a.Length0), FirstColumn(b, a.Length0));
    }
  }

  /** parallel_lu_decomposition: the fork-join factorisation followed by the
      same substitutions. Its contract is LuDecomposition's, so for every input,
      zero pivots included, both return the same x (and, by ParallelFactorize,
      the same L and U). */
  method ParallelLuDecomposition(a: array2<real>, b: array2<real>) returns (x: array<real>)
    requires SolverInput(a, b)
    ensures fresh(x) && x.Length == a.Length0
    ensures x[..] == Solution(Block(a, a.Length0), FirstColumn(b, a.Length0))
    ensures NonzeroPivots(Block(a, a.Length0)) ==>
      MatVec(Block(a, a.Length0), x[..]) == FirstColumn(b, a.Length0)
    ensures NonzeroPivots(Block(a, a.Length0)) ==>
      forall z :: |z| == a.Length0 && MatVec(Block(a, a.Length0), z) == FirstColumn(b, a.Length0) ==> z == x[..]
  {
    var l, u := ParallelFactorize(a);
    var y := ForwardSubstitute(l, b);
    x := BackSubstitute(u, y);
    if NonzeroPivots(Block(a, a.Length0)) {
      Solved(Block(a, a.Length0), FirstColumn(b, a.Length0));
    }
  }

  /** The solution the solvers return solves the system, and nothing else does. */
  lemma Solved(A: Matrix, bv: Vector)
    requires NonzeroPivots(A) && |bv| == |A|
    ensures MatVec(A, Solution(A, bv)) == bv
    ensures forall z :: |z| == |A| && MatVec(A, z) == bv ==> z == Solution(A, bv)
  {
    SolutionSolves(A, bv);
    forall z | |z| == |A| && MatVec(A, z) == bv
      ensures z == Solution(A, bv)
    {
      SolutionUnique(A, bv, z);
    }
  }

  /** check_answer: the two vectors agree entry by entry. */
  function CheckAnswer<T(==)>(result: seq<T>, expected: seq<T>): (ok: bool)
    requires |result| == |expected|
    ensures ok <==> forall k :: 0 <= k < |result| ==> result[k] == expected[k]
    ensures ok <==> result == expected
  {
    if |result| == 0 then true
    else result[0] == expected[0] && CheckAnswer(result[1..], expected[1..])
  }

  /** One test of run_tests: one thread runs lu_decomposition, more run
      parallel_lu_decomposition, and the result is checked against the
      expected x (an n x 1 array). The test passes exactly when the expected
      x is the solvers' result; when every pivot is nonzero, exactly when the
      expected x solves A x = b. */
  method RunTest(threadCount: nat, a: array2<real>, b: array2<real>, expected: array2<real>)
    returns (correct: bool)
    requires SolverInput(a, b)
    requires expected.Length0 == a.Length0 && expected.Length1 == 1
    ensures correct <==> FirstColumn(expected, a.Length0) == Solution(Block(a, a.Length0), FirstColumn(b, a.Length0))
    ensures NonzeroPivots(Block(a, a.Length0)) ==>
      (correct <==> MatVec(Block(a, a.Length0), FirstColumn(expected, a.Length0)) == FirstColumn(b, a.Length0))
  {
    var x;
    if threadCount == 1 {
      x := LuDecomposition(a, b);
    } else {
      x := ParallelLuDecomposition(a, b);
    }
    correct := CheckAnswer(x[..], FirstColumn(expected, a.Length0));
    if NonzeroPivots(Block(a, a.Length0)) {
      Solved(Block(a, a.Length0), FirstColumn(b, a.Length0));
    }
  }
}
