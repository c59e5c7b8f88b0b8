# LU decomposition without pivoting, sequential and fork-join

This project models the core of a small Rust benchmark that solves dense linear systems A x = b by LU decomposition without row exchanges. The solver comes in two forms:

- a sequential Doolittle sweep, `lu_decomposition`;
- a fork-join sweep, `parallel_lu_decomposition`. For each pivot it computes a batch of `(index, value)` tasks from the arrays as they stand, then writes the batch back.

The project also models the two pieces of exact logic around the solver:

- the row fix of the test-system generator;
- the row-major layout shared by the test-file writer and reader.

All arithmetic is over Dafny's exact `real` instead of IEEE-754 `f64`. Division by a pivot is `Doolittle.Scaled`, a multiplication by the reciprocal. At a zero pivot, where `f64` would give an infinity or NaN, it gives 0.0, so every input has a defined run. The promises are:

- for every input, L is unit lower-triangular and U upper-triangular, and both solvers return the same factors and the same solution;
- when every pivot U[i][i] is nonzero (`Doolittle.NonzeroPivots`), A = L U exactly;
- under the same condition, L y = b and U x = y, so A x = b;
- under the same condition, x is the only solution.

The modules follow the program:

- `LinearAlgebra`: dot products, matrix-vector and matrix-matrix products, and the algebra the proofs use.
- `Doolittle`: the recurrence of `src/main.rs` as pure functions (`Upper`, `Lower`, `ForwardSolve`, `BackSolve`, `Solution`). It also holds the theorems about that recurrence.
- `NdArray`: views of the solver's `array2` values as matrices, plus the `slice(s![..])` row and column slices.
- `LuSolver`: the imperative solvers over `array2`/`array`, each proved against `Doolittle`. It also holds `check_answer` and the per-test dispatch of `run_tests`.
- `MatrixGeneration`: `generate_random_solvable_system`, with its random draws taken as parameters, and the flatten/reshape layout of `serialize_matrix`/`deserialize_matrix`.

The parallel phases are modelled as what the fork-join code computes. `UpperRowTasks` and `LowerColumnTasks` are pure functions of the arrays at the start of the phase. They produce tasks with pairwise-distinct indices. Each batch is then written by a loop of single-cell writes. Every task value equals the sequential recurrence's entry (`UpperRowTasksAgree`, `LowerColumnTasksAgree`). As a result:

- `ParallelFactorize` has the same contract as `Factorize` (both return exactly `LowerFactor(A)` and `UpperFactor(A)`);
- `ParallelLuDecomposition` has the same contract as `LuDecomposition` (both return exactly `Solution(A, b)`);
- for every input, zero pivots included, the two solvers yield the same L, U and x.

Neither solver takes `a` or `b` in a `modifies` clause, so both only read them.

The generator does not ensure nonzero pivots. It only makes each row meet `dot(A[i], x) == b[i]` (`src/lib.rs:88-109`). `MatrixGeneration.GeneratorMayYieldZeroPivot` exhibits valid draws whose generated matrix is `[[0, 1], [1, 0]]`. In that example every drawn row already meets its target, so neither fix branch runs, and the first pivot is zero. The solvers therefore promise A = L U and A x = b only under `NonzeroPivots`. `GeneratedSolutionIsDrawn` connects generator and solver only for generated systems that have nonzero pivots.

## Model

| member | source | states |
|---|---|---|
| Doolittle.Scaled | src/main.rs:136 | the solver's (1 / p) * w; reference definition, with 0.0 standing in at p == 0 (see Left out) |
| Doolittle.Upper | src/main.rs:118-126 | reference definition of U[i][j], j >= i: A[i][j] minus the partial sum over k < i; its meaning is given by the FactorEntry and Factorization rows |
| Doolittle.Lower | src/main.rs:128-136 | reference definition of L[j][i], j > i: the residual A[j][i] minus the partial sum, divided by the pivot U[i][i]; its meaning is given by the FactorEntry and Factorization rows |
| Doolittle.ForwardSolve | src/main.rs:140-145 | reference definition of forward substitution, y as long as b; its meaning is given by the ForwardSolves and ForwardUnique rows |
| Doolittle.BackSolve | src/main.rs:147-152 | reference definition of back substitution, x as long as y, defined for every square U; its meaning is given by the BackSolves and BackUnique rows |
| Doolittle.Solution | src/main.rs:111-155 | reference definition of the solver's result, back substitution after forward substitution with the recurrence's factors; its meaning is given by the SolutionSolves and SolutionUnique rows |
| Doolittle.LowerFactor | src/main.rs:128-137 | the L the recurrence defines (identity, then column i below the diagonal) is unit lower-triangular |
| Doolittle.UpperFactor | src/main.rs:118-127 | the U the recurrence defines (zero, then row i from column i on) is upper-triangular, and its diagonal is nonzero when the pivots are |
| Doolittle.DotIsPartial | src/main.rs:122-124 | the running sum over k < i of finished entries l[r][k] * u[k][c] is the recurrence's partial sum |
| Doolittle.FactorEntry | src/main.rs:117-138 | with nonzero pivots, entry (r, c) of L U equals A[r][c], above and below the diagonal |
| Doolittle.Factorization | src/main.rs:117-138 | with nonzero pivots, L U == A exactly |
| Doolittle.ForwardPrefixStable | src/main.rs:141-145 | forward substitution never revisits an entry: y[..k] is fixed once step k is done |
| Doolittle.ForwardSolves | src/main.rs:140-145 | for unit lower-triangular L, forward substitution (no division) gives L y == b |
| Doolittle.ForwardUnique | src/main.rs:140-145 | a unit lower-triangular L determines y from L y |
| Doolittle.BackSuffixStable | src/main.rs:148-152 | back substitution from the last row up never revisits an entry: x[m..] is fixed once row m is done |
| Doolittle.BackSolvesRow | src/main.rs:148-152 | row r of U times the back-substituted x is y[r] |
| Doolittle.BackSolves | src/main.rs:147-152 | for upper-triangular U with nonzero diagonal, back substitution gives U x == y |
| Doolittle.BackUnique | src/main.rs:147-152 | such a U determines x from U x |
| Doolittle.SolutionSolves | src/main.rs:111-155 | with nonzero pivots, the factor-then-substitute vector solves A x == b |
| Doolittle.SolutionUnique | src/main.rs:111-155 | with nonzero pivots, every solution of A x == b is that vector |
| Doolittle.ZeroFirstPivot | src/main.rs:136 | [[0, 1], [1, 0]] is nonsingular (it swaps the two entries of any vector), yet its first pivot is zero, so the sweep divides by zero here |
| Doolittle.DiagonalSystem | src/main.rs:111-155 | for A = diag(2, 3, 4), b = (4, 9, 8) the pivots are nonzero and the solution is (2, 3, 2) |
| LuSolver.NewFactors | src/main.rs:114-115 | l starts as the identity and u as zero, as two distinct fresh n x n arrays |
| LuSolver.UpperRow | src/main.rs:118-127 | assuming only that the cells it reads are final (`RowInputs`: rows 0 .. i-1 of u from the diagonal on, and l[i][..i]), row i of u gets the recurrence's entries from column i on; every other cell keeps its value |
| LuSolver.LowerColumn | src/main.rs:128-137 | assuming only that the cells it reads are final (`ColumnInputs`: u[..i+1][i], the pivot just written included, and l[j][..i] for j > i), column i of l below the diagonal gets the recurrence's (1 / u[i][i]) * (a[j][i] - sum); every other cell keeps its value |
| LuSolver.PivotStep | src/main.rs:117-137 | one pivot step of the sweep, row phase then column phase, advances u by row i and l by column i; no cell is read before it is written |
| LuSolver.Factorize | src/main.rs:112-138 | for every input the sweep returns, in two fresh distinct arrays, exactly the recurrence's L and U: L unit lower-triangular, U upper-triangular; L U == A when the pivots are nonzero |
| LuSolver.UpperRowTasks | src/main.rs:164-168 | the row tasks of pivot i cover j = i .. n-1 once each, so their writes are pairwise distinct |
| LuSolver.LowerColumnTasks | src/main.rs:174-178 | the column tasks cover j = i+1 .. n-1 once each, so their writes are pairwise distinct |
| LuSolver.UpperRowTasksAgree | src/main.rs:164-168 | computed from a snapshot in which only the cells of `RowInputs` are known to be final, each row task's value is the sequential entry U[i][j] |
| LuSolver.LowerColumnTasksAgree | src/main.rs:174-178 | computed from a snapshot in which only the cells of `ColumnInputs` are known to be final, the pivot is the recurrence's U[i][i] (nonzero when the pivots are), and each column task's value is the sequential entry L[j][i] |
| LuSolver.ParallelUpperRow | src/main.rs:164-172 | UpperRow's contract: from the same inputs, writing the row batch back gives row i the same entries and leaves every other cell alone |
| LuSolver.ParallelLowerColumn | src/main.rs:174-182 | LowerColumn's contract: from the same inputs, writing the column batch back gives column i the same entries and leaves every other cell alone |
| LuSolver.ParallelPivotStep | src/main.rs:163-182 | PivotStep's contract for the row batch followed by the column batch |
| LuSolver.ParallelFactorize | src/main.rs:158-183 | the fork-join sweep has Factorize's contract: for every input, zero pivots included, exactly the same L and U |
| LuSolver.ForwardSubstitute | src/main.rs:140-145 | y is a fresh array holding the forward substitution of b by l, and L y == b when l is unit lower-triangular |
| LuSolver.ForwardEntry | src/main.rs:142-144 | one step extends y[..i] by b[i] - l[i][..i] . y[..i] and leaves y[i+1..] unchanged |
| LuSolver.BackSubstitute | src/main.rs:147-152 | x is a fresh array holding the back substitution of y by u, and U x == y when u is upper-triangular with a nonzero diagonal |
| LuSolver.BackEntry | src/main.rs:149-151 | one step prepends (1 / u[i][i]) * (y[i] - u[i][i+1..] . x[i+1..]) to x[i+1..] and leaves x[..i] unchanged |
| LuSolver.LuDecomposition | src/main.rs:111-155 | for every input x is a fresh array holding the recurrence's solution; with nonzero pivots A x == b and no other vector solves the system |
| LuSolver.ParallelLuDecomposition | src/main.rs:157-200 | the same contract as LuDecomposition, so for every input, zero pivots included, both solvers return the same x |
| LuSolver.CheckAnswer | src/main.rs:105-109 | true exactly when the two vectors agree entry by entry, that is, when they are equal |
| LuSolver.RunTest | src/main.rs:65-98 | with either thread count the test passes exactly when the expected x is the recurrence's solution; with nonzero pivots, exactly when it solves A x == b |
| MatrixGeneration.FixedRow | src/lib.rs:88-109 | reference definition of the row fix, same length as the drawn row; its meaning is given by the FixedRowSolves, FixedRowKeepsSolved and FixedRowTouchesOne rows |
| MatrixGeneration.GeneratedMatrix | src/lib.rs:81-110 | reference definition of the generated A, an n x n matrix of fixed rows; its meaning is given by the GeneratedSystemSolvable and GeneratedRowsClose rows |
| MatrixGeneration.FirstUsable | src/lib.rs:91-95 | the retry loop settles on a pick whose x entry is nonzero, every earlier pick having hit a zero |
| MatrixGeneration.DrawUsableIndex | src/lib.rs:91-95 | the retry loop returns that first usable pick |
| MatrixGeneration.FixedRowSolves | src/lib.rs:88-109 | after the fix, dot(A[i], x) == b[i] exactly, in both the shortfall and the excess branch |
| MatrixGeneration.FixedRowKeepsSolved | src/lib.rs:88-109 | a drawn row that already meets b[i] is left as drawn |
| MatrixGeneration.FixedRowTouchesOne | src/lib.rs:91-108 | only the entry at the chosen index can change, and never the last column |
| MatrixGeneration.SingleUnknownCannotFix | src/lib.rs:91 | for n = 1 a row with a[0] * x[0] != b[0] has no pick in 0 .. n-2, so the generator cannot fix it |
| MatrixGeneration.RetryNeedsEarlyNonzero | src/lib.rs:91-95 | the retry loop ends only if some x[k] != 0 with k < n-1 |
| MatrixGeneration.GeneratedSystemSolvable | src/lib.rs:81-110 | every generated system is solved exactly by the drawn x |
| MatrixGeneration.GeneratedRowsClose | src/lib.rs:82-110 | each generated row differs from its draws in at most one column, not the last, and not at all if already solved |
| MatrixGeneration.GeneratedSolutionIsDrawn | src/lib.rs:61-113 | when the generated matrix has nonzero pivots, the solver's solution is exactly the drawn x |
| MatrixGeneration.GeneratorMayYieldZeroPivot | src/lib.rs:81-110 | valid draws can generate [[0, 1], [1, 0]], whose first pivot is zero |
| MatrixGeneration.SetEntry | src/lib.rs:98-108 | the write a[[i, rand_idx]] = ...: row i changes in that one entry and every other row is unchanged |
| MatrixGeneration.FixRow | src/lib.rs:88-109 | on arrays, row i becomes the fixed row and every other row is unchanged |
| MatrixGeneration.DrawColumn | src/lib.rs:69-79 | an n x 1 array holding the drawn values |
| MatrixGeneration.DrawRow | src/lib.rs:83-86 | row i holds the drawn values and every other row is unchanged |
| MatrixGeneration.GenerateRandomSolvableSystem | src/lib.rs:61-113 | x and b are the draws, whole numbers in [-30, 30); A is the generated matrix; A x == b |
| MatrixGeneration.Reshape | src/lib.rs:28-30 | from_shape_vec succeeds exactly when there are rows * cols tokens, giving a rows x cols matrix |
| MatrixGeneration.ReshapeIndex | src/lib.rs:28-30 | the layout is row-major: entry (i, j) is token i * cols + j |
| MatrixGeneration.Flatten | src/lib.rs:40-48 | reference definition of the row-major token order of `into_iter`; its meaning is given by the FlattenLength, FlattenLayout and ReshapeFlatten rows |
| MatrixGeneration.FlattenLength | src/lib.rs:40-43 | a rows x cols matrix flattens to rows * cols tokens |
| MatrixGeneration.ReshapeFlatten | src/lib.rs:40-43 | reshaping a flattened rows x cols matrix gives the matrix back |
| MatrixGeneration.FlattenReshape | src/lib.rs:28-30 | flattening a reshaped token list gives the tokens back |
| MatrixGeneration.FlattenLayout | src/lib.rs:40-43 | iterating a matrix of rows with cols entries gives rows * cols tokens, entry (r, c) at position r * cols + c |
| MatrixGeneration.Serialize | src/lib.rs:39-51 | n is the number of rows of A; the n * n tokens of a square A are row-major, entry (r, c) at r * n + c; the tokens of n x 1 b and x are their entries top to bottom |
| MatrixGeneration.Deserialize | src/lib.rs:28-30 | reading succeeds exactly when A has n * n tokens and b and x have n each, giving an n x n A and n x 1 b and x; otherwise from_shape_vec(..).unwrap() panics (None) |
| MatrixGeneration.DeserializeSerialize | src/lib.rs:28-51 | writing an n x n A with n x 1 b and x and reading it back gives the same three arrays |
| MatrixGeneration.SerializeDeserialize | src/lib.rs:28-51 | a file that reads back is exactly the layout of what it reads back to |

## Left out

- IEEE-754 `f64`: rounding drift, `1 / 0 = inf` and NaN propagation are not modelled. The arithmetic is exact `real`.
- Doolittle.Scaled: at a zero pivot it gives 0.0. The source's `1. / 0.` gives an infinity, and the values after it become infinities or NaN. So on inputs with a zero pivot the model's L, U and x are not the source's values. They are still the same for both solvers, which the model proves.
- LuSolver.CheckAnswer: compares exact reals. In the source, the computed and expected vectors are first rounded with `f.round() as i32` (`flatten_array`, `flatten_mat2`, `src/lib.rs:123-129`), and that rounding is not modelled.
- LuSolver.RunTest: covers one test. The file loop, the timing, the printing and the `panic!` on a mismatch are left out, and a `true` result stands for the path without a panic.
- The Rayon thread pool and `into_par_iter` scheduling are left out. Each parallel phase is modelled as its snapshot batch followed by the writes, which is what the `collect()` before the write loop ensures.
- The solvers take `a` with at least n columns and `b` with at least one column and n rows. Smaller arrays make the source panic on an index, and that panic is not modelled.
- File I/O, `BufReader`/`BufWriter`, and the text formatting and parsing of numbers in `serialize_matrix`/`deserialize_matrix` are left out. Only the four-line structure and the index layout are kept.
- MatrixGeneration.Deserialize: `None` stands for the panic of `from_shape_vec(..).unwrap()` on a token count that does not fit. `deserialize_matrix` never returns `Err` for it, and a panic is not modelled otherwise.
- MatrixGeneration.Serialize: writes x as its values, whereas the source writes `f.round() as i32`. The two agree on whole-number x, which is every generated x.
- The random number generator is not modelled. The drawn values and the sequence of index picks per row are parameters, and `ValidDraws` bounds them: values in [-30, 30), picks in 0 .. n-2, and picks that end each needed retry loop. Draws for which the retry loop never ends, or for which `gen_range(0..0)` panics when n = 1, are outside that precondition.
- `generate_matrix_to_file` only composes the generator with `serialize_matrix`, which are modelled separately.
- `main`, the command-line handling, `generate_test_files` and the `run_tests` loop are left out.
