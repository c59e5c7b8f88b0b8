/** The test-system generator and the row-major layout of the test files.

    The generator draws x, b and each row of A as integers in [-30, 30) and
    then adjusts one coefficient of each row so that row . x == b. The random
    draws are parameters: xDraws, bDraws and aDraws are the values drawn, and
    picks[i] is the sequence of column indices drawn for row i (the first one
    and each retry). */
module MatrixGeneration {
  import opened LinearAlgebra
  import opened Doolittle
  import opened NdArray

  /** The half-open range every drawn value lies in (L_RANGE .. U_RANGE). */
  const DrawLow: int := -30
  const DrawHigh: int := 30

  predicate InDrawRange(v: int) {
    DrawLow <= v < DrawHigh
  }

  /** v is a whole number in the drawing range. */
  predicate IntegerDraw(v: real) {
    v == v.Floor as real && InDrawRange(v.Floor)
  }

  /** Drawn integers stored as reals stay whole numbers in range. */
  lemma DrawsIntegral(s: seq<int>)
    requires forall k :: 0 <= k < |s| ==> InDrawRange(s[k])
    ensures forall k :: 0 <= k < |s| ==> IntegerDraw(Reals(s)[k])
  {
  }

  /** Integers drawn, as the floating-point values stored. */
  function Reals(s: seq<int>): (v: Vector)
    ensures |v| == |s| && forall k :: 0 <= k < |s| ==> v[k] == s[k] as real
  {
    seq(|s|, k requires 0 <= k < |s| => s[k] as real)
  }

  // ---------------------------------------------------------------------
  // The row fix, as a specification on values

  /** Every pick lies in 0 .. n-2: the picks are drawn from gen_range(0..n-1). */
  ghost predicate PicksBelowLast(ps: seq<nat>, n: nat) {
    forall t :: 0 <= t < |ps| ==> ps[t] < n - 1
  }

  /** Every pick indexes xs and some pick hits a nonzero entry, so the retry
      loop ends. */
  ghost predicate Usable(ps: seq<nat>, xs: Vector) {
    (forall t :: 0 <= t < |ps| ==> ps[t] < |xs|) &&
    exists t :: 0 <= t < |ps| && xs[ps[t]] != 0.0
  }

  /** The index the retry loop settles on: the first pick whose entry of x
      is nonzero. */
  ghost function FirstUsable(ps: seq<nat>, xs: Vector): (idx: nat)
    requires Usable(ps, xs)
    ensures idx < |xs| && xs[idx] != 0.0
    ensures exists t :: 0 <= t < |ps| && ps[t] == idx && forall t' :: 0 <= t' < t ==> xs[ps[t']] == 0.0
    decreases |ps|
  {
    if xs[ps[0]] != 0.0 then ps[0]
    else
      assert Usable(ps[1..], xs) by {
        var t :| 0 <= t < |ps| && xs[ps[t]] != 0.0;
        assert ps[1..][t - 1] == ps[t];
      }
      var idx := FirstUsable(ps[1..], xs);
      assert exists t :: 0 <= t < |ps| && ps[t] == idx && forall t' :: 0 <= t' < t ==> xs[ps[t']] == 0.0 by {
        var t :| 0 <= t < |ps[1..]| && ps[1..][t] == idx && forall t' :: 0 <= t' < t ==> xs[ps[1..][t']] == 0.0;
        assert ps[t + 1] == idx;
        forall t' | 0 <= t' < t + 1
          ensures xs[ps[t']] == 0.0
        {
          if t' > 0 {
            assert ps[t'] == ps[1..][t' - 1];
          }
        }
      }
      idx
  }

  /** A row the generator can fix: it already meets its target, or the picks
      reach a nonzero entry of x. */
  ghost predicate Fixable(row: Vector, xs: Vector, bi: real, ps: seq<nat>)
    requires |row| == |xs|
  {
    Dot(row, xs) == bi || Usable(ps, xs)
  }

  /** Row i after the fix: when row . x falls short of b[i], the entry at the
      chosen index goes up by the shortfall over x[idx]; when it overshoots,
      down by the excess over x[idx]; otherwise the row is kept. */
  ghost function FixedRow(row: Vector, xs: Vector, bi: real, ps: seq<nat>): (fixed: Vector)
    requires |row| == |xs| && Fixable(row, xs, bi, ps)
    ensures |fixed| == |row|
  {
    var mult := Dot(row, xs);
    if mult < bi then
      var idx := FirstUsable(ps, xs);
      row[idx := row[idx] + (bi - mult) / xs[idx]]
    else if mult > bi then
      var idx := FirstUsable(ps, xs);
      row[idx := row[idx] - (mult - bi) / xs[idx]]
    else
      row
  }

  /** Dividing by a nonzero entry and multiplying back. */
  lemma DivideBack(d: real, p: real)
    requires p != 0.0
    ensures (d / p) * p == d
  {
  }

  /** After the fix the row meets its target exactly. */
  lemma {:induction false} FixedRowSolves(row: Vector, xs: Vector, bi: real, ps: seq<nat>)
    requires |row| == |xs| && Fixable(row, xs, bi, ps)
    ensures Dot(FixedRow(row, xs, bi, ps), xs) == bi
  {
    var mult := Dot(row, xs);
    if mult != bi {
      var idx := FirstUsable(ps, xs);
      var d := if mult < bi then (bi - mult) / xs[idx] else -((mult - bi) / xs[idx]);
      assert FixedRow(row, xs, bi, ps) == row[idx := row[idx] + d];
      DotUpdateLeft(row, xs, idx, row[idx] + d);
      if mult < bi {
        DivideBack(bi - mult, xs[idx]);
      } else {
        DivideBack(mult - bi, xs[idx]);
      }
    }
  }

  /** A row that already meets its target is left as drawn. */
  lemma {:induction false} FixedRowKeepsSolved(row: Vector, xs: Vector, bi: real, ps: seq<nat>)
    requires |row| == |xs| && Dot(row, xs) == bi
    ensures FixedRow(row, xs, bi, ps) == row
  {
  }

  /** The fix changes at most one entry, the one at the index the retry loop
      settles on, and never the last column when the picks stay below it. */
  lemma {:induction false} FixedRowTouchesOne(row: Vector, xs: Vector, bi: real, ps: seq<nat>)
    requires |row| == |xs| && Fixable(row, xs, bi, ps) && PicksBelowLast(ps, |row|)
    ensures var fixed := FixedRow(row, xs, bi, ps);
      forall k :: 0 <= k < |row| && fixed[k] != row[k] ==> Dot(row, xs) != bi && k == FirstUsable(ps, xs)
    ensures 0 < |row| ==> FixedRow(row, xs, bi, ps)[|row| - 1] == row[|row| - 1]
  {
    if Dot(row, xs) != bi {
      var idx := FirstUsable(ps, xs);
      var t :| 0 <= t < |ps| && ps[t] == idx;
      assert idx < |row| - 1;
    }
  }

  /** For a single unknown the picks range 0 .. n-2 is empty: a row that
      needs a fix can only be fixed by a pick outside it, so the generator
      handles only rows that already meet their target. */
  lemma {:induction false} SingleUnknownCannotFix(row: Vector, xs: Vector, bi: real, ps: seq<nat>)
    requires |row| == |xs| == 1 && row[0] * xs[0] != bi && Fixable(row, xs, bi, ps)
    ensures !PicksBelowLast(ps, 1)
  {
    assert Dot(row, xs) == Dot(row[..0], xs[..0]) + row[0] * xs[0];
    var t :| 0 <= t < |ps| && xs[ps[t]] != 0.0;
    assert !(ps[t] < 1 - 1);
  }

  /** The retry loop ends only if x has a nonzero entry before its last one. */
  lemma {:induction false} RetryNeedsEarlyNonzero(ps: seq<nat>, xs: Vector)
    requires Usable(ps, xs) && PicksBelowLast(ps, |xs|)
    ensures exists k :: 0 <= k < |xs| - 1 && xs[k] != 0.0
  {
    var t :| 0 <= t < |ps| && xs[ps[t]] != 0.0;
    assert ps[t] < |xs| - 1;
  }

  // ---------------------------------------------------------------------
  // The whole generated system

  /** What the random source must supply for generate_random_solvable_system(n)
      to return: n draws each for x and b, n rows of n draws for A, all in
      range, and for each row picks below the last column that end the retry
      loop whenever the row needs a fix. */
  ghost predicate ValidDraws(n: nat, xDraws: seq<int>, bDraws: seq<int>, aDraws: seq<seq<int>>, picks: seq<seq<nat>>) {
    |xDraws| == n && |bDraws| == n && |aDraws| == n && |picks| == n &&
    (forall i :: 0 <= i < n ==> InDrawRange(xDraws[i]) && InDrawRange(bDraws[i])) &&
    (forall i :: 0 <= i < n ==> |aDraws[i]| == n) &&
    (forall i, j :: 0 <= i < n && 0 <= j < |aDraws[i]| ==> InDrawRange(aDraws[i][j])) &&
    (forall i :: 0 <= i < n ==> PicksBelowLast(picks[i], n)) &&
    (forall i :: 0 <= i < n ==> |aDraws[i]| == n ==>
      Fixable(Reals(aDraws[i]), Reals(xDraws), bDraws[i] as real, picks[i]))
  }

  /** The matrix the generator returns for these draws. */
  ghost function GeneratedMatrix(n: nat, xDraws: seq<int>, bDraws: seq<int>, aDraws: seq<seq<int>>, picks: seq<seq<nat>>): (A: Matrix)
    requires ValidDraws(n, xDraws, bDraws, aDraws, picks)
    ensures IsMatrix(A, n, n)
  {
    seq(n, i requires 0 <= i < n => FixedRow(Reals(aDraws[i]), Reals(xDraws), bDraws[i] as real, picks[i]))
  }

  /** Every generated system is solved by the drawn x: A x == b exactly. */
  lemma {:induction false} GeneratedSystemSolvable(n: nat, xDraws: seq<int>, bDraws: seq<int>, aDraws: seq<seq<int>>, picks: seq<seq<nat>>)
    requires ValidDraws(n, xDraws, bDraws, aDraws, picks)
    ensures MatVec(GeneratedMatrix(n, xDraws, bDraws, aDraws, picks), Reals(xDraws)) == Reals(bDraws)
  {
    var A := GeneratedMatrix(n, xDraws, bDraws, aDraws, picks);
    forall i | 0 <= i < n
      ensures Dot(A[i], Reals(xDraws)) == Reals(bDraws)[i]
    {
      FixedRowSolves(Reals(aDraws[i]), Reals(xDraws), bDraws[i] as real, picks[i]);
    }
  }

  /** A generated system whose pivots are nonzero has the drawn x as its
      solver solution: the expected answer stored with it is what the solver
      computes. */
  lemma {:induction false} GeneratedSolutionIsDrawn(n: nat, xDraws: seq<int>, bDraws: seq<int>, aDraws: seq<seq<int>>, picks: seq<seq<nat>>)
    requires ValidDraws(n, xDraws, bDraws, aDraws, picks)
    requires NonzeroPivots(GeneratedMatrix(n, xDraws, bDraws, aDraws, picks))
    ensures Solution(GeneratedMatrix(n, xDraws, bDraws, aDraws, picks), Reals(bDraws)) == Reals(xDraws)
  {
    GeneratedSystemSolvable(n, xDraws, bDraws, aDraws, picks);
    SolutionUnique(GeneratedMatrix(n, xDraws, bDraws, aDraws, picks), Reals(bDraws), Reals(xDraws));
  }

  /** Row i of the generated matrix differs from its draws in at most one
      column, never the last, and not at all when the drawn row already met
      its target. */
  lemma {:induction false} GeneratedRowsClose(n: nat, xDraws: seq<int>, bDraws: seq<int>, aDraws: seq<seq<int>>, picks: seq<seq<nat>>, i: nat)
    requires ValidDraws(n, xDraws, bDraws, aDraws, picks) && i < n
    ensures var A, drawn := GeneratedMatrix(n, xDraws, bDraws, aDraws, picks), Reals(aDraws[i]);
      (Dot(drawn, Reals(xDraws)) == bDraws[i] as real ==> A[i] == drawn) &&
      (forall j, k :: 0 <= j < k < n && A[i][j] != drawn[j] ==> A[i][k] == drawn[k]) &&
      A[i][n - 1] == drawn[n - 1]
  {
    var drawn, xs, bi := Reals(aDraws[i]), Reals(xDraws), bDraws[i] as real;
    FixedRowTouchesOne(drawn, xs, bi, picks[i]);
    if Dot(drawn, xs) == bi {
      FixedRowKeepsSolved(drawn, xs, bi, picks[i]);
    }
  }

  /** A generated system can have a zero pivot: with x = (1, 1) and b = (1, 1)
      the drawn rows (0, 1) and (1, 0) already meet their targets, are kept,
      and the first pivot of the result is zero. */
  lemma {:induction false} GeneratorMayYieldZeroPivot()
    ensures ValidDraws(2, [1, 1], [1, 1], [[0, 1], [1, 0]], [[], []])
    ensures GeneratedMatrix(2, [1, 1], [1, 1], [[0, 1], [1, 0]], [[], []]) == [[0.0, 1.0], [1.0, 0.0]]
    ensures !NonzeroPivots(GeneratedMatrix(2, [1, 1], [1, 1], [[0, 1], [1, 0]], [[], []]))
  {
    var xs := Reals([1, 1]);
    assert xs == [1.0, 1.0];
    assert Reals([0, 1]) == [0.0, 1.0] && Reals([1, 0]) == [1.0, 0.0];
    DotHead([0.0, 1.0], xs);
    DotHead([1.0, 0.0], xs);
    assert [0.0, 1.0][1..] == [1.0] && [1.0, 0.0][1..] == [0.0] && xs[1..] == [1.0];
    assert Dot([1.0], [1.0]) == 1.0 && Dot([0.0], [1.0]) == 0.0;
    assert Dot(Reals([0, 1]), xs) == 1.0 && Dot(Reals([1, 0]), xs) == 1.0;
    var A := GeneratedMatrix(2, [1, 1], [1, 1], [[0, 1], [1, 0]], [[], []]);
    assert A[0] == [0.0, 1.0] && A[1] == [1.0, 0.0];
    assert A == [[0.0, 1.0], [1.0, 0.0]];
    ZeroFirstPivot();
  }

  // ---------------------------------------------------------------------
  // The generator on arrays

  /** The retry loop: keep the first pick, and while x is zero there draw
      the next one. */
  method DrawUsableIndex(x: array2<real>, ps: seq<nat>) returns (idx: nat)
    requires 1 <= x.Length1 && Usable(ps, FirstColumn(x, x.Length0))
    ensures idx == FirstUsable(ps, FirstColumn(x, x.Length0))
  {
    ghost var xs := FirstColumn(x, x.Length0);
    var t := 0;
    idx := ps[0];
    while x[idx, 0] == 0.0
      invariant t < |ps| && idx == ps[t]
      invariant Usable(ps[t..], xs) && FirstUsable(ps[t..], xs) == FirstUsable(ps, xs)
      decreases |ps| - t
    {
      assert ps[t..][1..] == ps[t + 1..];
      t := t + 1;
      idx := ps[t];
    }
  }

  /** The row fix of generate_random_solvable_system for row i: compare
      row i . x with b[i] and adjust the entry the retry loop settles on. Nothing but that entry of row i changes. */
  method FixRow(a: array2<real>, x: array2<real>, b: array2<real>, i: nat, ps: seq<nat>)
    requires a.Length0 == a.Length1 == x.Length0 == b.Length0 && 1 <= x.Length1 && 1 <= b.Length1
    requires i < a.Length0 && a != x && a != b
    requires Fixable(RowSlice(a, i, 0, a.Length1), FirstColumn(x, a.Length0), b[i, 0], ps)
    modifies a
    ensures RowSlice(a, i, 0, a.Length1) ==
      FixedRow(old(RowSlice(a, i, 0, a.Length1)), FirstColumn(x, a.Length0), b[i, 0], ps)
    ensures forall r, c :: 0 <= r < a.Length0 && 0 <= c < a.Length1 && r != i ==> a[r, c] == old(a[r, c])
  {
    var n := a.Length0;
    ghost var row, xs, bi := RowSlice(a, i, 0, n), FirstColumn(x, n), b[i, 0];
    var mult := Dot(RowSlice(a, i, 0, n), ColumnSlice(x, 0, n, 0));
    assert ColumnSlice(x, 0, n, 0) == xs;
    if mult < b[i, 0] {
      var dif := b[i, 0] - mult;
      var idx := DrawUsableIndex(x, ps);
      var div := dif / x[idx, 0];
      assert FixedRow(row, xs, bi, ps) == row[idx := row[idx] + div];
      SetEntry(a, i, idx, a[i, idx] + div);
    } else if mult > b[i, 0] {
      var dif := mult - b[i, 0];
      var idx := DrawUsableIndex(x, ps);
      var div := dif / x[idx, 0];
      assert FixedRow(row, xs, bi, ps) == row[idx := row[idx] - div];
      SetEntry(a, i, idx, a[i, idx] - div);
    }
  }

  /** a[i, j] := v, seen as an update of row i. */
  method SetEntry(a: array2<real>, i: nat, j: nat, v: real)
    requires i < a.Length0 && j < a.Length1
    modifies a
    ensures RowSlice(a, i, 0, a.Length1) == old(RowSlice(a, i, 0, a.Length1))[j := v]
    ensures forall r, c :: 0 <= r < a.Length0 && 0 <= c < a.Length1 && r != i ==> a[r, c] == old(a[r, c])
  {
    a[i, j] := v;
  }

  /** The x and b loops of generate_random_solvable_system: an n x 1 array
      holding the drawn values. */
  method DrawColumn(draws: seq<int>) returns (c: array2<real>)
    ensures fresh(c) && c.Length0 == |draws| && c.Length1 == 1
    ensures FirstColumn(c, |draws|) == Reals(draws)
  {
    c := new real[|draws|, 1]((r, k) => 0.0);
    for i := 0 to |draws|
      invariant forall r :: 0 <= r < i ==> c[r, 0] == draws[r] as real
    {
      c[i, 0] := draws[i] as real;
    }
  }

  /** generate_random_solvable_system(n) with its draws given. */
  method GenerateRandomSolvableSystem(n: nat, xDraws: seq<int>, bDraws: seq<int>, aDraws: seq<seq<int>>, picks: seq<seq<nat>>)
    returns (a: array2<real>, b: array2<real>, x: array2<real>)
    requires ValidDraws(n, xDraws, bDraws, aDraws, picks)
    ensures fresh(a) && fresh(b) && fresh(x)
    ensures a.Length0 == a.Length1 == n && b.Length0 == n && b.Length1 == 1 && x.Length0 == n && x.Length1 == 1
    ensures FirstColumn(x, n) == Reals(xDraws) && FirstColumn(b, n) == Reals(bDraws)
    ensures forall r :: 0 <= r < n ==> IntegerDraw(x[r, 0]) && IntegerDraw(b[r, 0])
    ensures Block(a, n) == GeneratedMatrix(n, xDraws, bDraws, aDraws, picks)
    ensures MatVec(Block(a, n), FirstColumn(x, n)) == FirstColumn(b, n)
  {
    x := DrawColumn(xDraws);
    b := DrawColumn(bDraws);
    DrawsIntegral(xDraws);
    DrawsIntegral(bDraws);
    ghost var A := GeneratedMatrix(n, xDraws, bDraws, aDraws, picks);
    a := new real[n, n]((r, c) => 0.0);
    for i := 0 to n
      invariant FirstColumn(x, n) == Reals(xDraws) && FirstColumn(b, n) == Reals(bDraws)
      invariant forall r, c :: 0 <= r < i && 0 <= c < n ==> a[r, c] == A[r][c]
    {
      DrawRow(a, i, aDraws[i]);
      FixRow(a, x, b, i, picks[i]);
      assert RowSlice(a, i, 0, n) == A[i];
    }
    BlockIs(a, n, A);
    GeneratedSystemSolvable(n, xDraws, bDraws, aDraws, picks);
  }

  /** The inner draw loop of generate_random_solvable_system: row i of a
      takes the n drawn values. */
  method DrawRow(a: array2<real>, i: nat, draws: seq<int>)
    requires i < a.Length0 && |draws| == a.Length1
    modifies a
    ensures RowSlice(a, i, 0, a.Length1) == Reals(draws)
    ensures forall r, c :: 0 <= r < a.Length0 && 0 <= c < a.Length1 && r != i ==> a[r, c] == old(a[r, c])
  {
    for j := 0 to a.Length1
      invariant forall c :: 0 <= c < j ==> a[i, c] == draws[c] as real
      invariant forall r, c :: 0 <= r < a.Length0 && 0 <= c < a.Length1 && r != i ==> a[r, c] == old(a[r, c])
    {
      a[i, j] := draws[j] as real;
    }
  }

  // ---------------------------------------------------------------------
  // Row-major layout of the test files

  datatype Option<T> = None | Some(value: T)

  /** The entries of M row after row, as Array::from_iter(a.into_iter()) visits them. */
  function Flatten(M: Matrix): seq<real> {
    if |M| == 0 then [] else M[0] + Flatten(M[1..])
  }

  /** A rows x cols matrix flattens to rows * cols tokens. */
  lemma {:induction false} FlattenLength(M: Matrix, rows: nat, cols: nat)
    requires IsMatrix(M, rows, cols)
    ensures |Flatten(M)| == rows * cols
    decreases rows
  {
    if rows > 0 {
      FlattenLength(M[1..], rows - 1, cols);
      assert rows * cols == cols + (rows - 1) * cols;
    }
  }

  /** Array2::from_shape_vec((rows, cols), tokens): rows of cols tokens each,
      or an error when the count is not rows * cols. */
  function Reshape(tokens: seq<real>, rows: nat, cols: nat): (result: Option<Matrix>)
    ensures result.Some? <==> |tokens| == rows * cols
    ensures result.Some? ==> IsMatrix(result.value, rows, cols)
    decreases rows
  {
    if rows == 0 then (if |tokens| == 0 then Some([]) else None)
    else if |tokens| < cols then None
    else match Reshape(tokens[cols..], rows - 1, cols)
      case None => None
      case Some(rest) => Some([tokens[..cols]] + rest)
  }

  /** The layout is row-major: entry (i, j) is token i * cols + j. */
  lemma {:induction false} ReshapeIndex(tokens: seq<real>, rows: nat, cols: nat, i: nat, j: nat)
    requires Reshape(tokens, rows, cols).Some? && i < rows && j < cols
    ensures i * cols + j < |tokens|
    ensures Reshape(tokens, rows, cols).value[i][j] == tokens[i * cols + j]
    decreases rows
  {
    if i > 0 {
      ReshapeIndex(tokens[cols..], rows - 1, cols, i - 1, j);
      assert (i - 1) * cols + j + cols == i * cols + j;
    }
  }

  /** Reshaping the flattened matrix gives the matrix back. */
  lemma {:induction false} ReshapeFlatten(M: Matrix, rows: nat, cols: nat)
    requires IsMatrix(M, rows, cols)
    ensures Reshape(Flatten(M), rows, cols) == Some(M)
    decreases rows
  {
    FlattenLength(M, rows, cols);
    if rows > 0 {
      var t := Flatten(M);
      assert t[..cols] == M[0] && t[cols..] == Flatten(M[1..]);
      ReshapeFlatten(M[1..], rows - 1, cols);
      assert [M[0]] + M[1..] == M;
    }
  }

  /** Flattening a reshaped token list gives the tokens back. */
  lemma {:induction false} FlattenReshape(tokens: seq<real>, rows: nat, cols: nat)
    requires Reshape(tokens, rows, cols).Some?
    ensures Flatten(Reshape(tokens, rows, cols).value) == tokens
    decreases rows
  {
    if rows > 0 {
      var M := Reshape(tokens, rows, cols).value;
      FlattenReshape(tokens[cols..], rows - 1, cols);
      assert M[1..] == Reshape(tokens[cols..], rows - 1, cols).value;
      assert tokens == tokens[..cols] + tokens[cols..];
    }
  }

  /** The four lines of a test file without their text encoding: n, then the
      tokens of A, b and x. */
  datatype TestFile = TestFile(n: nat, a: seq<real>, b: seq<real>, x: seq<real>)

  /** The position of entry (r, c) of a rows x cols matrix in row-major order. */
  function RowMajor(r: nat, c: nat, rows: nat, cols: nat): (k: nat)
    requires r < rows && c < cols
    ensures k == r * cols + c && k < rows * cols
  {
    MulLeq(r + 1, rows, cols);
    r * cols + c
  }

  lemma MulLeq(a: nat, b: nat, c: nat)
    requires a <= b
    ensures a * c <= b * c
  {
  }

  /** Flattening is row-major: a matrix of rows of cols entries yields
      |M| * cols tokens, entry (r, c) at position r * cols + c. */
  lemma {:induction false} FlattenLayout(M: Matrix, cols: nat)
    ensures (forall r :: 0 <= r < |M| ==> |M[r]| == cols) ==>
      (|Flatten(M)| == |M| * cols &&
       forall r, c :: 0 <= r < |M| && 0 <= c < cols ==> Flatten(M)[RowMajor(r, c, |M|, cols)] == M[r][c])
  {
    if forall r :: 0 <= r < |M| ==> |M[r]| == cols {
      ReshapeFlatten(M, |M|, cols);
      forall r, c | 0 <= r < |M| && 0 <= c < cols
        ensures Flatten(M)[RowMajor(r, c, |M|, cols)] == M[r][c]
      {
        ReshapeIndex(Flatten(M), |M|, cols, r, c);
      }
    }
  }

  /** serialize_matrix's layout: n is the number of rows of A, A is written
      row-major (entry (r, c) is token r * n + c) and the n x 1 arrays b and
      x top to bottom. */
  function Serialize(A: Matrix, B: Matrix, X: Matrix): (file: TestFile)
    ensures file.n == |A|
    ensures IsSquare(A) ==>
      (|file.a| == |A| * |A| &&
       forall r, c :: 0 <= r < |A| && 0 <= c < |A| ==> file.a[RowMajor(r, c, |A|, |A|)] == A[r][c])
    ensures IsMatrix(B, |B|, 1) ==> (|file.b| == |B| && forall r :: 0 <= r < |B| ==> file.b[r] == B[r][0])
    ensures IsMatrix(X, |X|, 1) ==> (|file.x| == |X| && forall r :: 0 <= r < |X| ==> file.x[r] == X[r][0])
  {
    FlattenLayout(A, |A|);
    FlattenLayout(B, 1);
    FlattenLayout(X, 1);
    TestFile(|A|, Flatten(A), Flatten(B), Flatten(X))
  }

  /** deserialize_matrix's layout: A is n x n, b and x are n x 1. None stands
      for the panic of from_shape_vec(..).unwrap() on a count that does not
      fit; deserialize_matrix itself never returns an error for it. */
  function Deserialize(file: TestFile): (result: Option<(Matrix, Matrix, Matrix)>)
    ensures result.Some? <==>
      |file.a| == file.n * file.n && |file.b| == file.n && |file.x| == file.n
    ensures result.Some? ==>
      IsMatrix(result.value.0, file.n, file.n) && IsMatrix(result.value.1, file.n, 1) &&
      IsMatrix(result.value.2, file.n, 1)
  {
    match (Reshape(file.a, file.n, file.n), Reshape(file.b, file.n, 1), Reshape(file.x, file.n, 1))
    case (Some(A), Some(B), Some(X)) => Some((A, B, X))
    case _ => None
  }

  /** Writing a system and reading it back gives the same system. */
  lemma {:induction false} DeserializeSerialize(A: Matrix, B: Matrix, X: Matrix)
    requires IsMatrix(A, |A|, |A|) && IsMatrix(B, |A|, 1) && IsMatrix(X, |A|, 1)
    ensures Deserialize(Serialize(A, B, X)) == Some((A, B, X))
  {
    ReshapeFlatten(A, |A|, |A|);
    ReshapeFlatten(B, |A|, 1);
    ReshapeFlatten(X, |A|, 1);
  }

  /** A file that reads back is the layout of what it reads back to. */
  lemma {:induction false} SerializeDeserialize(file: TestFile)
    requires Deserialize(file).Some?
    ensures var (A, B, X) := Deserialize(file).value; Serialize(A, B, X) == file
  {
    FlattenReshape(file.a, file.n, file.n);
    FlattenReshape(file.b, file.n, 1);
    FlattenReshape(file.x, file.n, 1);
  }
}
