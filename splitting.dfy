/** The row arithmetic shared by the two iterative solvers (JacobiSolver.java
    and GaussSeidelSolver.java): equation i solved for x[i], with every other
    unknown taken from a given vector. */
module Splitting {
  import opened LinearAlgebra
  import opened Matrices
  import opened Vectors

  /** What a pass of either solver needs: a square system with an entry of
      b for every equation and no zero on the diagonal. */
  predicate Ready(a: Mat, b: Vec)
  {
    IsSquare(a) && |a| <= |b| && forall i :: 0 <= i < |a| ==> a[i][i] != 0.0
  }

  /** The sum of row[j] * x[j] over the columns j < k other than i, added up
      left to right as the solvers' inner loops do. */
  function OffSum(row: Vec, x: Vec, i: nat, k: nat): real
    requires k <= |row| == |x|
  {
    if k == 0 then 0.0
    else OffSum(row, x, i, k - 1) + (if k - 1 == i then 0.0 else row[k - 1] * x[k - 1])
  }

  /** Leaving out column i is the full row sum less its diagonal term. */
  lemma {:induction false} OffSumSplit(row: Vec, x: Vec, i: nat, k: nat)
    requires k <= |row| == |x|
    ensures i < k ==> SumRange(row, x, 0, k) == OffSum(row, x, i, k) + row[i] * x[i]
    ensures k <= i ==> SumRange(row, x, 0, k) == OffSum(row, x, i, k)
  {
    if k > 0 {
      OffSumSplit(row, x, i, k - 1);
    }
  }

  /** Equation i solved for x[i]: (b[i] - sum of the other terms) / a[i][i]. */
  function Component(a: Mat, b: Vec, x: Vec, i: nat): real
    requires IsSquare(a) && |a| <= |b| && |x| == |a| && i < |a| && a[i][i] != 0.0
  {
    (b[i] - OffSum(a[i], x, i, |x|)) / a[i][i]
  }

  /** The solved-for value is x[i] exactly when x satisfies equation i. */
  lemma ComponentFixed(a: Mat, b: Vec, x: Vec, i: nat)
    requires IsSquare(a) && |a| <= |b| && |x| == |a| && i < |a| && a[i][i] != 0.0
    ensures Component(a, b, x, i) == x[i] <==> Dot(a[i], x) == b[i]
  {
    OffSumSplit(a[i], x, i, |x|);
    RowFixed(a[i][i], x[i], b[i], OffSum(a[i], x, i, |x|), Dot(a[i], x), a[i][i] * x[i]);
  }

  /** The same with the terms named: dot = off + d * xi. */
  lemma RowFixed(d: real, xi: real, bi: real, off: real, dot: real, p: real)
    requires d != 0.0 && p == d * xi && dot == off + p
    ensures (bi - off) / d == xi <==> dot == bi
  {
    if (bi - off) / d == xi {
      Cancel(bi - off, d, xi);
    }
  }

  /** t / d == q gives t == d * q. */
  lemma Cancel(t: real, d: real, q: real)
    requires d != 0.0 && t / d == q
    ensures t == d * q
  {
  }

  /** The inner loop of a pass: A[i][j] * x[j] over the columns j != i. */
  method OffDiagonalSum(A: Matrix, x: Vector, i: nat) returns (sum: real)
    requires A.Valid() && x.Valid() && A.rows == A.cols == x.Size() && i < A.rows
    ensures sum == OffSum(A.Elements()[i], x.Items(), i, A.cols)
  {
    ghost var row, xs := A.Elements()[i], x.Items();
    sum := 0.0;
    var j := 0;
    while j < A.cols
      invariant 0 <= j <= A.cols
      invariant sum == OffSum(row, xs, i, j)
    {
      if j != i {
        sum := sum + A.Get(i, j) * x.Get(j);
      }
      j := j + 1;
    }
  }
}
