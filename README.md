# Dense linear-system solver: a verified model of the numerical engine

This project models the numerical engine of a Java desktop program that
solves dense linear systems A·x = b (package `solver`). It covers:

- the `Matrix` and `Vector` containers and the `LinearSystem` pair (A, b);
- the `Result` record;
- the abstract `LinearSolver` base class: iteration limit, tolerance, the
  square-matrix check and the residual ‖A·x − b‖;
- the three solvers: Gaussian elimination with optional partial pivoting
  (`GaussSolver`), Jacobi iteration (`JacobiSolver`) and Gauss–Seidel
  iteration (`GaussSeidelSolver`);
- the static checks in `Validator`: the dimension check, strict diagonal
  dominance, the determinant by pivoted elimination, and the rank by
  counting pivots.

The classes whose fields are updated in place remain classes:

- A `Matrix` owns an `array2<real>`. A `Vector` owns the n×1 `Matrix` that
  holds its entries.
- `LinearSystem`, `Result` and `LinearSolver` keep their fields.
- Every solver holds its `LinearSolver` state in a `base` field, since
  Dafny classes have no inheritance.

Each method is proved against a specification function:

- `LinearAlgebra` holds matrix and vector algebra on sequences.
- `Elimination` defines pivot choice, row swaps and elimination below a
  pivot.
- `Gauss.ForwardFrom` gives the outcome of forward elimination.
- `Jacobi.Iterate` and `GaussSeidel.Iterate` give the k-th iterate.
- `Stopping.Passes` gives the number of passes the do-while loop makes.
- `Validation.Determinant` and `Validation.Rank` give what `Validator`
  computes.

The lemmas relate these definitions to their meaning:

- A reduced Gaussian system's back-substituted solution solves the
  original system.
- A fixed point of a Jacobi pass or a Gauss–Seidel sweep is exactly a
  solution.
- A zero measured error means the iterate solves the system.
- With tolerance 0, a converged answer has residual 0.
- The identity matrix has determinant 1 and full rank.
- A matrix with a row of zeros has determinant 0.
- The zero matrix has rank 0.

Arithmetic conventions:

- `double` is modelled as exact `real`.
- `Math.sqrt` is a fixed function `Sqrt` whose only assumed properties
  are that it is non-negative and zero exactly at zero.
- The exceptions the source throws itself (`IllegalArgumentException`)
  become the `Outcome` value `Thrown(message)` with the source's own
  message; the runtime's own exceptions are excluded by types and
  preconditions (see "## Left out").
- The clock reading (`System.nanoTime`) is the parameter `elapsed`.

## Model

| member | source | states |
|---|---|---|
| LinearAlgebra.Abs | GaussSolver.java:26 | Math.abs: non-negative and equal to x or -x |
| LinearAlgebra.DotSymmetric | Vector.java:28-37 | the dot product is symmetric |
| LinearAlgebra.DotSelf | Vector.java:39-41 | v·v is non-negative and zero exactly for the zero vector |
| LinearAlgebra.NormProperties | Vector.java:39-41 | the norm is non-negative and zero exactly for the zero vector |
| LinearAlgebra.SubtractSelf | Vector.java:55-64 | v − v is the zero vector, of norm 0 |
| LinearAlgebra.DistanceZero | JacobiSolver.java:28 | ‖u − v‖ is non-negative and zero exactly when u = v |
| LinearAlgebra.ResidualZero | LinearSolver.java:33-39 | the residual is non-negative and zero exactly when A·x = b |
| LinearAlgebra.SolvesIffResidualZero | LinearSolver.java:33-39 | for a square system, x satisfies every equation iff A·x = b iff the residual is 0 |
| LinearAlgebra.TransposeTwice | Matrix.java:35-43 | transposing twice gives back the matrix |
| LinearAlgebra.MatAddCommutes | Matrix.java:62-73 | matrix addition is commutative |
| LinearAlgebra.MatMulColumn | LinearSolver.java:35 | A times the column matrix of x is the column matrix of A·x |
| LinearAlgebra.IdentityTimes | Matrix.java:75-81 | the identity matrix leaves every vector unchanged |
| Matrices.Matrix.constructor | Matrix.java:11-15 | a fresh rows×cols matrix of zeros |
| Matrices.Matrix.FromArray | Matrix.java:17-24 | a fresh matrix with the array's dimensions and entries |
| Matrices.Matrix.Get | Matrix.java:28 | reads entry (i, j) |
| Matrices.Matrix.Set | Matrix.java:29 | writes entry (i, j) and no other |
| Matrices.Matrix.Copy | Matrix.java:31-33 | a fresh matrix with equal dimensions and entries |
| Matrices.Matrix.Transpose | Matrix.java:35-43 | a fresh cols×rows matrix holding the transpose |
| Matrices.Matrix.RowTimesColumn | Matrix.java:52-55 | the inner loop of multiply is row i · column j |
| Matrices.Matrix.Multiply | Matrix.java:45-60 | throws exactly when cols ≠ other.rows, with the source's message; otherwise returns the matrix product |
| Matrices.Matrix.Add | Matrix.java:62-73 | throws exactly when the dimensions differ, with the source's message; otherwise returns the entrywise sum |
| Matrices.Identity | Matrix.java:75-81 | a fresh size×size identity matrix |
| Vectors.Vector.ItemsAreColumn | Vector.java:3-7 | a vector's entries are exactly its n×1 matrix |
| Vectors.Vector.constructor | Vector.java:5-7 | a fresh zero vector of the given size |
| Vectors.Vector.OfArray | Vector.java:9-14 | a fresh vector holding the array's entries |
| Vectors.Vector.Size | Vector.java:16-18 | the number of entries |
| Vectors.Vector.Get | Vector.java:20-22 | reads entry i |
| Vectors.Vector.Set | Vector.java:24-26 | writes entry i and no other |
| Vectors.Vector.DotProduct | Vector.java:28-37 | throws exactly on a size mismatch; otherwise returns the dot product |
| Vectors.Vector.Norm | Vector.java:39-41 | the Euclidean norm, the square root of v·v |
| Vectors.Vector.Add | Vector.java:44-53 | throws exactly on a size mismatch; otherwise returns the entrywise sum in a fresh vector |
| Vectors.Vector.Subtract | Vector.java:55-64 | throws exactly on a size mismatch; otherwise returns the entrywise difference in a fresh vector |
| Vectors.Vector.Multiply | Vector.java:66-72 | a fresh vector scaled by the scalar |
| Vectors.Vector.ToArray | Vector.java:75-81 | a fresh array holding the entries |
| Vectors.FromArray | Vector.java:84-86 | a fresh vector holding the array's entries |
| Vectors.CopyThroughArray | JacobiSolver.java:29 | copying through toArray/fromArray yields an independent vector with equal entries |
| Systems.LinearSystem.constructor | LinearSystem.java:11-12 | stores A and b once their sizes agree |
| Systems.Create | LinearSystem.java:7-13 | throws exactly when A.rows ≠ b's size; otherwise a consistent system of that size |
| Systems.LinearSystem.SetA | LinearSystem.java:19 | replaces A and keeps b |
| Systems.LinearSystem.SetB | LinearSystem.java:20 | replaces b and keeps A |
| Results.Result.constructor | Result.java:16-22 | stores the five fields; determinant and rank start at 0 |
| Results.Result.WithoutResidual | Result.java:12-14 | like the five-field constructor, with residual 0.0 |
| Results.Result.SetDeterminant | Result.java:34 | sets the determinant and keeps the rank |
| Results.Result.SetRank | Result.java:35 | sets the rank and keeps the determinant |
| Solvers.LinearSolver.constructor | LinearSolver.java:4-7 | iterations 0, maxIterations 1000, tolerance 1e-10 |
| Solvers.LinearSolver.SetMaxIterations | LinearSolver.java:19-21 | sets the limit and keeps the other fields |
| Solvers.LinearSolver.SetTolerance | LinearSolver.java:23-25 | sets the tolerance and keeps the other fields |
| Solvers.LinearSolver.ValidateSystem | LinearSolver.java:27-31 | throws exactly for a non-square A, with the source's message |
| Solvers.LinearSolver.CalculateResidual | LinearSolver.java:33-39 | throws exactly when the sizes of A·x and b disagree (the message of the failing step); otherwise ‖A·x − b‖ ≥ 0 |
| Solvers.LinearSolver.MatrixToVector | LinearSolver.java:42-51 | throws exactly when the matrix has more or fewer than one column; otherwise a vector whose column matrix is that matrix |
| Solvers.ColumnMatrixInjective | LinearSolver.java:42-51 | the conversion loses nothing: equal column matrices come from equal vectors |
| Elimination.Swap | GaussSolver.java:69-78 | rows a and b exchanged, every other row in place |
| Elimination.SwapProperties | GaussSolver.java:69-78 | a swap is a permutation, undoes itself, and is the identity when a = b |
| Elimination.PivotFrom | GaussSolver.java:58-66 | the scan from row `best`, with rows from `next` on still to see, returns a row between best and the last row |
| Elimination.PivotFromIsFirstMax | GaussSolver.java:58-66 | a scan started from a first maximum of the rows seen so far ends on the first maximum of the whole column range |
| Elimination.PivotIndex | GaussSolver.java:56-66 | the pivot row lies between col and the last row |
| Elimination.PivotIndexIsFirstMax | GaussSolver.java:56-66 | the pivot is the first row of largest magnitude in the column, and the only such row |
| Elimination.FirstMaxUnique | GaussSolver.java:61-66 | the strict > comparison selects a unique first maximum |
| Elimination.FindPivot | Validator.java:63-69 | the pivot search loop returns PivotIndex |
| Elimination.SwapRows | Validator.java:71-77 | the swap loop exchanges two rows of the matrix |
| Elimination.EliminateBelow | GaussSolver.java:32-36 | elimination keeps the matrix shape: as many rows, each as long as the pivot row |
| Elimination.EliminateBelowZeroes | GaussSolver.java:31-38 | elimination below a pivot keeps rows up to the pivot and zeroes the pivot column below it |
| Elimination.EliminateBelowEntry | GaussSolver.java:32-36 | entry (r, c) after elimination is m[r][c] − (m[r][pc]/m[pr][pc])·m[pr][c] at and right of the pivot column |
| Elimination.EliminateZeroColumn | GaussSolver.java:32-36 | eliminating below a pivot whose column is already zero changes nothing |
| Elimination.EliminateRhsEntry | GaussSolver.java:37 | the right-hand side after elimination, entry by entry |
| Elimination.SubtractRowMultiple | GaussSolver.java:34-36 | the innermost loop subtracts f times the source row from the target row, from a column on |
| Elimination.EliminateRowsBelow | Validator.java:87-93 | the elimination loop turns the matrix into EliminateBelow of it |
| Gauss.ForwardFrom | GaussSolver.java:19-39 | a reduced outcome is a square matrix of the original size and a b of the original length |
| Gauss.PivotRow | GaussSolver.java:21-23 | with pivoting the pivot row is the first row of largest magnitude in column i from row i down; without pivoting it is row i |
| Gauss.ForwardStep | GaussSolver.java:20-39 | one step: a pivot below the tolerance makes the outcome Singular; otherwise the outcome is that of the eliminated system |
| Gauss.SwapKeepsLowerZero | GaussSolver.java:69-78 | swapping rows at and below i keeps the zeros below the diagonal in columns before i |
| Gauss.EliminateExtendsLowerZero | GaussSolver.java:32-38 | eliminating column i extends the zeros below the diagonal to column i |
| Gauss.ForwardUpperTriangular | GaussSolver.java:19-39 | a reduced system is upper triangular |
| Gauss.PivotsKept | GaussSolver.java:26-38 | eliminating below pivot i keeps earlier pivots and the new one |
| Gauss.ForwardPivots | GaussSolver.java:26-29 | in a reduced system every diagonal entry has magnitude at least the tolerance |
| Gauss.EliminatedRowSolves | GaussSolver.java:32-38 | a solution of equation i and of eliminated equation r solves the original equation r |
| Gauss.EliminatedRowEntries | GaussSolver.java:32-36 | every entry of an eliminated row in terms of the original rows |
| Gauss.CombinedEquationSolves | GaussSolver.java:33-37 | subtracting f times a satisfied equation preserves solutions in reverse |
| Gauss.EliminationSolves | GaussSolver.java:32-38 | a solution of the eliminated system solves the system before elimination |
| Gauss.SwapSolves | GaussSolver.java:69-78 | a solution of the row-swapped system solves the original one |
| Gauss.TriangularSolves | GaussSolver.java:42-49 | a solution of the triangular equations solves an upper triangular system |
| Gauss.ForwardSolves | GaussSolver.java:19-39 | a solution of the reduced system solves the system forward elimination started from |
| Gauss.ReducedSolutionSolves | GaussSolver.java:11-54 | back substitution's answer to a reduced system satisfies every original equation; A·x = b and the residual is 0 when b has n entries |
| Gauss.RhsLoopStep | GaussSolver.java:37 | one update of b in the elimination loop |
| Gauss.BackStep | GaussSolver.java:43-49 | setting x[i] keeps rows i and below solved |
| Gauss.LaterRowsSolved | GaussSolver.java:43-49 | setting x[i] does not disturb the rows below i |
| Gauss.PivotRowSolved | GaussSolver.java:48 | x[i] = (b[i] − sum)/A[i][i] solves triangular row i |
| Gauss.RowEquationSolved | GaussSolver.java:44-48 | the row sum including x[i] equals b[i] |
| Gauss.GaussSolver.constructor | GaussSolver.java:3-4 | partial pivoting on, with the base defaults |
| Gauss.GaussSolver.SetPartialPivoting | GaussSolver.java:6-8 | sets the flag |
| Gauss.GaussSolver.PartialPivot | GaussSolver.java:56-80 | swaps the first row of largest magnitude in the column into place, in A and in b |
| Gauss.GaussSolver.EliminateColumn | GaussSolver.java:32-38 | the j loop turns A and b into their eliminated forms |
| Gauss.GaussSolver.EliminateEntry | GaussSolver.java:33-37 | one row j of the elimination loop, in A and in b |
| Gauss.GaussSolver.RowSum | GaussSolver.java:44-47 | the sum of A[i][j]·x[j] over j > i |
| Gauss.GaussSolver.Quotient | GaussSolver.java:48 | back substitution's division: A[i][i]·x[i] = b[i] − sum |
| Gauss.GaussSolver.BackSubstitute | GaussSolver.java:42-49 | the solution satisfies every triangular equation |
| Gauss.GaussSolver.ForwardEliminate | GaussSolver.java:19-39 | reports Singular exactly as ForwardFrom does, and otherwise leaves A, b as ForwardFrom's reduced pair |
| Gauss.GaussSolver.CopyAndEliminate | GaussSolver.java:15-39 | eliminates on fresh copies; the caller's A and b are untouched |
| Gauss.GaussSolver.SubstituteBack | GaussSolver.java:41-49 | the back-substituted solution solves the original system with residual 0 |
| Gauss.GaussSolver.SubstituteAndMeasure | GaussSolver.java:41-53 | "Solution found" with a solution of A·x = b and residual 0, or the residual's exception when b is longer |
| Gauss.GaussSolver.Solve | GaussSolver.java:11-54 | non-square: the base exception; a small pivot: "Matrix is singular or nearly singular" with no solution; otherwise "Solution found" with a solution and residual 0 |
| Splitting.OffSumSplit | JacobiSolver.java:19-24 | the sum over columns other than i is the full row sum less the diagonal term |
| Splitting.ComponentFixed | JacobiSolver.java:25 | the solved-for value equals x[i] exactly when x satisfies equation i |
| Splitting.Cancel | JacobiSolver.java:25 | t/d = q gives t = d·q |
| Splitting.RowFixed | JacobiSolver.java:25 | the one-row fixed-point equivalence with its terms named |
| Splitting.OffDiagonalSum | JacobiSolver.java:19-24 | the inner loop computes the off-diagonal sum of row i |
| Stopping.StopFrom | JacobiSolver.java:30-36 | the stopping pass lies between k and the pass limit + 1 |
| Stopping.StopFromFirst | JacobiSolver.java:30-36 | the pass found stops the loop and no earlier one does |
| Stopping.Passes | JacobiSolver.java:17-36 | the loop makes at least one pass |
| Stopping.PassesBounds | JacobiSolver.java:30-36 | at most maxIterations + 1 passes; hitting the limit happens exactly at that bound; otherwise the last error is within the tolerance |
| Stopping.EarlierPassesContinue | JacobiSolver.java:32-36 | every earlier pass is within the limit with error above the tolerance |
| Stopping.PassOutcome | JacobiSolver.java:32-36 | the checks after pass k end the loop exactly at the last pass |
| Jacobi.Step | JacobiSolver.java:18-26 | a pass yields a vector of length n |
| Jacobi.Iterate | JacobiSolver.java:11-36 | the iterate after k passes from the zero vector has n entries |
| Jacobi.Error | JacobiSolver.java:28 | the measured error is non-negative |
| Jacobi.FixedPointSolves | JacobiSolver.java:18-26 | a Jacobi pass leaves x unchanged exactly when x solves the system |
| Jacobi.ZeroErrorSolves | JacobiSolver.java:28-36 | error 0 exactly when the pass changed nothing and exactly when the previous iterate solves the system |
| Jacobi.ExactConvergence | JacobiSolver.java:16-40 | with tolerance 0, "Converged" returns a solution of residual 0 |
| Jacobi.ZeroSolutionStopsAtOnce | JacobiSolver.java:11-36 | when 0 already solves the system, one pass ends the loop with 0 |
| Jacobi.JacobiSolver.constructor | JacobiSolver.java:3 | the base defaults |
| Jacobi.JacobiSolver.Pass | JacobiSolver.java:18-26 | xNew receives the next Jacobi iterate computed from x |
| Jacobi.JacobiSolver.Advance | JacobiSolver.java:17-30 | one loop body: the k-th iterate and the k-th error |
| Jacobi.JacobiSolver.RunPasses | JacobiSolver.java:14-36 | iterations is the pass count; returns that iterate and its error |
| Jacobi.JacobiSolver.Solve | JacobiSolver.java:6-41 | non-square: the base exception; over the limit: "Maximum iterations reached" with the last error; otherwise "Converged" with its residual |
| GaussSeidel.SweepFrom | GaussSeidelSolver.java:18-28 | a sweep yields a vector of length n |
| GaussSeidel.Iterate | GaussSeidelSolver.java:11-36 | the iterate after k sweeps from the zero vector has n entries |
| GaussSeidel.SweepInPlace | GaussSeidelSolver.java:18-28 | component k of a sweep is computed from the already-updated components before k and the old ones from k on |
| GaussSeidel.SweepErrorNonnegative | GaussSeidelSolver.java:26 | the accumulated error is non-negative |
| GaussSeidel.SweepErrorZero | GaussSeidelSolver.java:17-28 | the error is 0 exactly when the sweep changes nothing |
| GaussSeidel.FixedPointSolves | GaussSeidelSolver.java:18-28 | a sweep leaves x unchanged exactly when x solves the system |
| GaussSeidel.SolutionSweepsTo | GaussSeidelSolver.java:18-28 | a solution is not moved by any part of a sweep |
| GaussSeidel.ZeroErrorSolves | GaussSeidelSolver.java:26-36 | error 0 exactly when the sweep changed nothing and exactly when the previous iterate solves the system |
| GaussSeidel.ExactConvergence | GaussSeidelSolver.java:16-40 | with tolerance 0, "Converged" returns a solution of residual 0 |
| GaussSeidel.ZeroSolutionStopsAtOnce | GaussSeidelSolver.java:11-36 | when 0 already solves the system, one sweep ends the loop with 0 |
| GaussSeidel.GaussSeidelSolver.constructor | GaussSeidelSolver.java:3 | the base defaults |
| GaussSeidel.GaussSeidelSolver.Relax | GaussSeidelSolver.java:19-27 | x[i] becomes its solved-for value; returns the magnitude of the change |
| GaussSeidel.GaussSeidelSolver.Sweep | GaussSeidelSolver.java:17-28 | x becomes the in-place sweep of x; returns the accumulated error |
| GaussSeidel.GaussSeidelSolver.Advance | GaussSeidelSolver.java:17-30 | one loop body: the k-th iterate and the k-th error |
| GaussSeidel.GaussSeidelSolver.RunPasses | GaussSeidelSolver.java:13-36 | iterations is the pass count; returns that iterate and its error |
| GaussSeidel.GaussSeidelSolver.Solve | GaussSeidelSolver.java:6-41 | non-square: the base exception; over the limit: "Maximum iterations reached" with the last error; otherwise "Converged" with its residual |
| Validation.DecimalString | Validator.java:11-12 | decimal text is non-empty and all digits |
| Validation.DecimalRoundTrip | Validator.java:11-12 | reading the decimal text back gives the number |
| Validation.ValidateSystem | Validator.java:5-34 | valid exactly when A.rows equals b's size; the message is empty exactly when valid, and otherwise states both sizes |
| Validation.OffAbsSumNonnegative | Validator.java:40-45 | the off-diagonal magnitude sum is non-negative |
| Validation.IsDiagonallyDominant | Validator.java:36-51 | true exactly when every diagonal magnitude strictly exceeds the rest of its row |
| Validation.DominantIsReady | Validator.java:36-51 | a diagonally dominant system has no zero on the diagonal, so both iterative solvers can run on it |
| Validation.IdentityOffAbsSum | Validator.java:40-45 | the identity has no off-diagonal magnitude |
| Validation.IdentityIsDominant | Validator.java:36-51 | the identity matrix is diagonally dominant |
| Validation.Pivoted | Validator.java:63-79 | the matrix after the pivot swap is square of the same size |
| Validation.DetFromStep | Validator.java:62-94 | one step: the determinant so far times the sign of the swap and the pivot, on the eliminated matrix |
| Validation.IdentityDetFrom | Validator.java:62-94 | elimination on the identity multiplies only ones |
| Validation.IdentityDeterminant | Validator.java:53-97 | the identity has determinant 1 |
| Validation.ZeroMatrixDeterminant | Validator.java:81-83 | a zero matrix has determinant 0 |
| Validation.MovedRow | Validator.java:71-77 | a row at or below i stays in range, at or below i, after the swap of step i |
| Validation.ZeroRowStaysZero | Validator.java:62-93 | after a step whose pivot reaches 1e-12, a zero row at or below row i lies strictly below row i and is still a zero row |
| Validation.ZeroRowDetFrom | Validator.java:62-96 | a zero row at or below step i makes the rest of the computation return 0 |
| Validation.ZeroRowDeterminant | Validator.java:53-97 | a square matrix with a row of zeros has determinant 0 |
| Validation.DeterminantStep | Validator.java:63-93 | one step of the loop: a pivot below 1e-12 makes the determinant 0; otherwise the rest is the remaining product |
| Validation.CalculateDeterminant | Validator.java:53-97 | throws exactly for a non-square matrix; otherwise returns Determinant, leaving the argument unchanged |
| Validation.FirstNonZero | Validator.java:107-113 | -1, or a column from j on whose entry has magnitude above 1e-12 |
| Validation.FirstNonZeroIsFirst | Validator.java:107-113 | no earlier column qualifies, and -1 exactly when none does |
| Validation.RankFromBounds | Validator.java:105-125 | each row adds at most one to the rank |
| Validation.RankBounds | Validator.java:99-128 | 0 ≤ rank ≤ rows |
| Validation.ZeroRankFrom | Validator.java:105-125 | no row of a zero matrix has a pivot |
| Validation.ZeroMatrixRank | Validator.java:99-128 | a zero matrix has rank 0 |
| Validation.IdentityRankFrom | Validator.java:105-125 | every row of the identity has a pivot |
| Validation.IdentityRank | Validator.java:99-128 | the n×n identity has rank n |
| Validation.FindPivotColumn | Validator.java:107-113 | the search loop with break returns FirstNonZero |
| Validation.RankStep | Validator.java:106-124 | one step of the loop: the rank counted so far plus the rest equals the rank |
| Validation.CalculateRank | Validator.java:99-128 | returns Rank of the matrix, leaving the argument unchanged |

## Left out

- Floating point: `double` is exact `real`. Rounding, overflow to infinity and NaN are not modelled.
- NaN: the NaN checks of `validateSystem` (Validator.java:16-31) are left out, because a `real` is never NaN. `Validation.ValidateSystem` therefore reports only the dimension check.
- NaN errors: in Java, a NaN error fails `error > tolerance` and a diverging iteration would report "Converged". This is not modelled.
- `Math.sqrt` is an uninterpreted function. It is assumed only to be non-negative and zero exactly at zero.
- Division by zero: a zero diagonal entry makes Jacobi and Gauss–Seidel divide by zero and continue with infinities. `Jacobi.JacobiSolver.Solve` and `GaussSeidel.GaussSeidelSolver.Solve` therefore require a square system with no zero on the diagonal, and a b with at least n entries (`Splitting.Ready`). With a shorter b, Java's first pass fails with ArrayIndexOutOfBounds at `b.get(i)`.
- Gauss.GaussSolver.Solve: it requires a positive tolerance. With tolerance ≤ 0, the singularity test lets a zero pivot through to a division by zero.
- Gauss.GaussSolver.Solve: it requires at least one row, because Java's `copy` reads row 0.
- Gauss.GaussSolver.Solve: it requires a b with at least n entries. A shorter b can only be installed through `setB`, which does not check sizes. Java then returns the singular Result normally when elimination stops at a small pivot before reading past b's end; otherwise it fails with ArrayIndexOutOfBounds. The model leaves out this case.
- Matrices.Matrix.Copy and Matrices.Matrix.FromArray: they require at least one row, because Java's `Matrix(double[][])` reads `data[0]`. This is why `Validation.CalculateDeterminant` (square case) and `Validation.CalculateRank` require a row.
- Validation.IsDiagonallyDominant: it requires rows ≤ cols. Java reads `A.get(i, j)` for every j < rows and fails on a matrix with fewer columns than rows.
- Matrices.Matrix.constructor, Matrices.Identity, Vectors.Vector.constructor: sizes are `nat`, so Java's NegativeArraySizeException on a negative size is not modelled.
- Matrices.Matrix.Get, Matrices.Matrix.Set, Vectors.Vector.Get, Vectors.Vector.Set: indices in range are a precondition, so Java's ArrayIndexOutOfBoundsException is not modelled; no solver or validator path modelled here reaches it.
- Ragged arrays: they cannot occur in the model. Java's `Matrix(double[][])` copies `data[0].length` entries of every row, but an `array2` is rectangular.
- Java `int` overflow of the iteration counter and `long` arithmetic on times are not modelled. Counters are unbounded integers.
- The clock: `System.nanoTime` and the conversion to milliseconds are replaced by the parameter `elapsed`, which the solvers store as the computation time.
- Display and random input: `toString`, `toCompactString` and `Matrix.random` are left out. The first two only format text; the third draws random numbers.
- The application layer: `FileHandler` and `LinearSolverApp` (file I/O and the GUI) are not part of this model.
- Getters that only return a field (`getRows`, `getA`, `getMessage`, …) are the classes' fields and constants themselves.
- Inheritance: `Vector extends Matrix` and the solvers' `extends LinearSolver` are modelled by composition. A `Vector` owns its n×1 matrix; a solver owns its `base` state. Matrix methods called on a vector go through that matrix.
- Loop bodies as methods: the do-while loop of each iterative solver is split into `RunPasses` (the passes) and `Solve` (the checks after them). Inner loops are methods of their own (`Pass`, `Sweep`, `Relax`, `EliminateColumn`, `EliminateEntry`, `DeterminantStep`, `RankStep`). Their order of reads and writes is that of the Java loops.
- Validation.Determinant: it is defined by the elimination the source performs. The model does not prove it equal to the Leibniz determinant, nor that it is multiplicative. It proves that the identity has determinant 1 and that any matrix with a row of zeros has determinant 0.
- Validation.Rank: it is defined by the source's pivot count. The model does not prove it equal to the linear-algebraic rank. It proves the bounds and the values for the identity and the zero matrix.
- Jacobi.ExactConvergence and GaussSeidel.ExactConvergence: with a positive tolerance, convergence is not related to the distance from the true solution. That would need bounds on the contraction factor, which the source does not state.
