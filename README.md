# Dense linear algebra kernel of src/lib/math.ts, in Dafny

This project models the four functions of the kernel `src/lib/math.ts` over exact
real numbers:

- `transpose` turns a rectangular matrix of rows into its transpose.
- `multiply` is the naive triple-loop matrix product.
- `solve` is Gauss–Jordan elimination with partial pivoting on the augmented
  matrix `[A | b]`. If some step's best pivot has magnitude below `1e-10`, it
  returns the zero vector of length n.
- `polynomialRegression` builds the design matrix X of powers, forms the normal
  equations XᵀX·β = Xᵀy with `transpose` and `multiply`, and calls `solve`.

Modules, one per part of the program:

- `Matrices` (matrices.dfy): vectors and matrices as sequences of rows, the
  dot product `Dot`, `Transpose`, the product `MatMul` and the imperative
  `Multiply` method, with the algebra used later.
- `Elimination` (elimination.dfy): the elimination as pure functions over the
  augmented matrix: `PivotRow`, `SwapRows`, `Normalize`, `EliminateColumn`,
  and `Reduce`, which runs the outer loop and ends in `Singular(step, matrix)`
  or `Reduced(matrix)` (`Reduce` swaps the pivot row up and hands the rest of
  the step to `Continue`, which calls `Reduce` again for the next column). It also holds the proofs that every step keeps the set
  of solutions and grows the identity block by one column.
- `Solver` (solver.dfy): `Solve` as the source writes it. It works in place on
  an array of rows. Each phase of the loop body is a method proved against the
  matching function of `Elimination`:
  - the pivot search (`SelectPivot`);
  - the row swap (`Exchange`);
  - normalisation of the pivot row (`NormalizeRow`);
  - elimination of the other rows (`EliminateOthers`).

  `PivotStep` is one pass of the outer loop.
- `Regression` (regression.dfy): `PolynomialRegression` and the normal
  equations. It proves:
  - the entries and symmetry of XᵀX and the entries of Xᵀy;
  - exact recovery of a polynomial the points lie on;
  - that any solution of the normal equations minimises the sum of squared
    residuals.

`Solve` keeps the source's interface. It returns a plain vector, and the zero
vector on the singular exit. Callers cannot tell that exit from a genuine zero
solution; the contract describes both cases through `Reduce`.

An empty system (n = 0) is allowed. `solve` never reads `A[0]`, so it returns
the empty vector, and `Solve` does the same.

## Model

| member | source | states |
|---|---|---|
| Matrices.Transpose | src/lib/math.ts:18-20 | the transpose of a non-empty rectangular m×n matrix is n×m with T[j][i] == A[i][j] |
| Matrices.TransposeTwice | src/lib/math.ts:18-20 | transposing twice returns the original matrix |
| Matrices.MatMul | src/lib/math.ts:2-16 | the product of an m×n and an n×p matrix is m×p |
| Matrices.Multiply | src/lib/math.ts:2-16 | starting from the zero matrix and accumulating over i, j, k gives an m×p matrix with C[i][j] == Σ_{k<n} A[i][k]·B[k][j], which is the product MatMul(A, B) |
| Matrices.TransposeOfProduct | src/lib/math.ts:2-20 | (A·B)ᵀ == Bᵀ·Aᵀ, and the shapes allow that product |
| Matrices.MultiplyByIdentity | src/lib/math.ts:2-16 | A·I == A |
| Matrices.MatVecOfProduct | src/lib/math.ts:2-16 | (A·B)·v == A·(B·v): the product composes the actions of its factors |
| Matrices.Zeros | src/lib/math.ts:41 | the vector `Array(n).fill(0)` has length n and every entry 0 |
| Elimination.Augment | src/lib/math.ts:26-27 | the working copy is n rows of n + 1 entries: row i is A[i] followed by b[i] |
| Elimination.AugmentedSystem | src/lib/math.ts:22-27 | y satisfies every equation of the augmented matrix exactly when A·y == b |
| Elimination.PivotRow | src/lib/math.ts:30-36 | the chosen row lies in i..n-1, has the largest abs(M[k][i]) over those rows, and every earlier row in that range is strictly smaller (ties keep the first) |
| Elimination.SwapRows | src/lib/math.ts:37 | rows i and r are exchanged and all other rows are unchanged |
| Elimination.SwapRowsSound | src/lib/math.ts:37 | swapping row i with a row at or below it keeps the solutions and the identity columns before i |
| Elimination.PivotIsLargest | src/lib/math.ts:30-37 | after the swap, no row at or below i has a larger entry in column i than the new pivot |
| Elimination.PivotSwapped | src/lib/math.ts:30-37 | step i after the swap is still n rows of n + 1 entries; which row comes up is PivotRow, and what the swap preserves is PivotSwappedPermutes and PivotIsLargest |
| Elimination.PivotSwappedPermutes | src/lib/math.ts:30-37 | the swap of step i leaves the rows above i untouched and holds the same rows as before, only reordered |
| Elimination.SwapPermutes | src/lib/math.ts:37 | exchanging two rows is a permutation of the rows |
| Elimination.NormalizeHolds | src/lib/math.ts:42-44 | dividing a row's entries from column i on by a nonzero pivot keeps the equation's solutions, when the entries before i are zero |
| Elimination.NormalizeSound | src/lib/math.ts:39-44 | normalising the pivot row makes the pivot 1, keeps the solutions and the identity columns before i |
| Elimination.Normalize | src/lib/math.ts:42-44 | dividing a row from column i on keeps its length; what it does to the equation is NormalizeHolds |
| Elimination.SubtractMultipleHolds | src/lib/math.ts:47-53 | subtracting a multiple of a satisfied pivot row from column i on keeps a row's solutions |
| Elimination.SubtractMultiple | src/lib/math.ts:50-52 | subtracting a multiple of the pivot row from column i on keeps the row length; its effect on the solutions is SubtractMultipleHolds |
| Elimination.EliminateColumn | src/lib/math.ts:46-54 | clearing column i keeps the n×(n+1) shape; its effect on column i and on the solutions is PivotedClearsColumn and EliminateColumnSound |
| Elimination.EliminateColumnSound | src/lib/math.ts:46-54 | clearing column i with pivot 1 keeps the solutions and extends the identity columns to i + 1 |
| Elimination.PivotedClearsColumn | src/lib/math.ts:39-54 | after one pass the pivot M[i][i] is 1, every other row has 0 in column i, and columns before i are untouched |
| Elimination.Pivoted | src/lib/math.ts:39-54 | one pass with a nonzero pivot keeps the n×(n+1) shape; its effect is PivotedClearsColumn and PivotedSound |
| Elimination.PivotedSound | src/lib/math.ts:29-54 | a pass with a pivot of magnitude at least 1e-10 keeps the solutions and extends the identity columns by one |
| Elimination.Reduce | src/lib/math.ts:29-55 | the outer loop ends either reduced with an n×(n+1) matrix or singular at a step s with i <= s < n |
| Elimination.Continue | src/lib/math.ts:38-55 | step i after its swap, and the steps after it, end either reduced with an n×(n+1) matrix or singular at a step s with i <= s < n |
| Elimination.SingularStepSound | src/lib/math.ts:40-41 | a step whose best pivot is below 1e-10 stops there with the same solutions, and every entry of that column at or below the diagonal is below 1e-10 |
| Elimination.PivotStepSound | src/lib/math.ts:29-55 | a step with a usable pivot carries what the rest of the run guarantees back to the matrix before the step |
| Elimination.ReduceSound | src/lib/math.ts:29-55 | from column i, with the identity in the columns before i, elimination ends with the same solutions and the identity in all coefficient columns (reduced), or stops as in SingularStepSound |
| Elimination.Solution | src/lib/math.ts:57 | the answer is the last column: x[k] == R[k][n] for every row k |
| Elimination.ReducedSystem | src/lib/math.ts:57 | for a matrix whose coefficient columns are the identity, y solves it exactly when y is its last column |
| Elimination.SolveCorrect | src/lib/math.ts:22-27 | when no pivot falls below 1e-10, the last column x satisfies A·x == b, and it is the only vector that does |
| Elimination.SingularExit | src/lib/math.ts:40-41 | a singular exit happens at a step s < n where the columns before s are reduced, every entry of column s at or below the diagonal is below 1e-10, and the stuck matrix has exactly the solutions of A·y == b |
| Elimination.NonUniqueIsSingular | src/lib/math.ts:29-55 | a system with two different solutions always takes the singular exit |
| Elimination.DependentRowsExample | src/lib/math.ts:24-58 | [[1, 2], [2, 4]] with b = [1, 2] takes the singular exit |
| Elimination.RegularExample | src/lib/math.ts:24-58 | [[2, 1], [1, 3]] with b = [3, 5] reduces to [[1, 0, 0.8], [0, 1, 1.4]], so x = [0.8, 1.4] |
| Solver.SelectPivot | src/lib/math.ts:30-36 | the scan returns a row in i..n-1 holding the largest abs(M[k][i]), the first such row, which is PivotRow |
| Solver.Exchange | src/lib/math.ts:37 | the rows of the working array become SwapRows of the old rows |
| Solver.NormalizeRow | src/lib/math.ts:39-44 | row i, from column i through column n, is divided by the pivot; every other entry stays |
| Solver.EliminateOthers | src/lib/math.ts:46-54 | every row k != i has row i times its old M[k][i] subtracted from column i on, and row i stays |
| Solver.PivotStep | src/lib/math.ts:29-55 | on the singular report the array is PivotSwapped of the old rows, its pivot is below 1e-10 and Reduce stops at step i with it; otherwise the array is Pivoted(PivotSwapped(old rows, i), i), M[i][i] is 1, and Reduce continues from it at step i + 1 |
| Solver.Solve | src/lib/math.ts:24-58 | the result has length n; it is all zeros when elimination meets a pivot below 1e-10; otherwise it is the last column of the reduced matrix and satisfies A·x == b |
| Regression.Pow | src/lib/math.ts:64 | x^0 is 1 (also for x = 0, as `Math.pow` gives) and 0^d is 0 for d > 0 |
| Regression.PowAdd | src/lib/math.ts:64 | x^(d+e) == x^d·x^e, which makes entry (d, e) of XᵀX a sum of x^(d+e) |
| Regression.PowerRow | src/lib/math.ts:61-66 | the row built by pushing powers has degree + 1 entries, entry d being x^d |
| Regression.DesignMatrix | src/lib/math.ts:61-67 | X has one row per point and degree + 1 columns, with X[i][d] == x_i^d |
| Regression.Design | src/lib/math.ts:61-67 | the design matrix is n×(degree + 1) |
| Regression.Targets | src/lib/math.ts:68 | the targets form an n×1 column matrix |
| Regression.NormalMatrix | src/lib/math.ts:70-71 | XᵀX is (degree + 1)×(degree + 1) |
| Regression.NormalVector | src/lib/math.ts:70-72 | the flattened Xᵀy has degree + 1 entries |
| Regression.Fit | src/lib/math.ts:70-74 | elimination of the normal equations ends reduced with a (degree + 1)×(degree + 2) matrix, or singular at a step no larger than degree |
| Regression.NormalMatrixEntries | src/lib/math.ts:70-71 | entry (d, e) of XᵀX is Σ_i x_i^(d+e), so XᵀX is symmetric |
| Regression.NormalVectorEntries | src/lib/math.ts:68-72 | entry d of the flattened Xᵀy is Σ_i x_i^d·y_i, and the vector is Xᵀ applied to the y values |
| Regression.PolynomialRegression | src/lib/math.ts:60-75 | the result has degree + 1 entries; it is all zeros on a singular exit; otherwise it is the last column of the reduced system and solves XᵀX·β == Xᵀy |
| Regression.ExactFit | src/lib/math.ts:60-75 | if every point lies on a polynomial of the given degree and elimination succeeds, the fit returns exactly that polynomial's coefficients |
| Regression.ResidualOrthogonal | src/lib/math.ts:70-74 | the residuals of a solution of the normal equations are orthogonal to every column of X |
| Regression.NormalEquationsMinimise | src/lib/math.ts:70-74 | a solution of the normal equations has a sum of squared residuals no larger than that of any coefficient vector of the same length |
| Regression.FitIsLeastSquares | src/lib/math.ts:60-75 | when elimination succeeds, the returned coefficients are a least-squares fit of the points |

## Left out

- Floating point: the kernel computes in IEEE-754 doubles. The model uses exact reals. It does not model rounding, NaN or Infinity, or the effect of accumulation order in `multiply`. `1e-10` is the exact real 10⁻¹⁰.
- `Math.pow` and `Math.abs` are host-library calls. They are replaced by a recursive `Pow` with a natural exponent and by `Abs` on reals.
- Input the kernel leaves undefined is excluded by preconditions. This covers ragged rows, `A[0]` of an empty matrix in `multiply` and `transpose`, inner dimensions that do not match, `b.length != A.length`, a non-square A in `solve` (it reads `row[n]` as the right-hand side), an empty point list, and a negative or fractional degree.
- Matrices.Multiply: C is a sequence value, not a freshly allocated heap array. Because A and B are values, "A and B unchanged" and the freshness of C hold trivially and are not stated.
- Solver.Solve: A and b are values, so the copy into the working array cannot alias them. The model does not show that the source's `[...row, b[i]]` copies the rows.
- Regression.DesignMatrix: the source builds X with `points.map`. The model walks the points in a loop, because Dafny cannot call a method (the row-building loop) inside a sequence comprehension.
- Why partial pivoting helps in floating point, and how ill-conditioned the normal equations can be, have no counterpart over exact reals. Only the pivot-choice rule and the absolute `1e-10` threshold are modelled.
