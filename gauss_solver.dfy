/** GaussSolver.java: Gaussian elimination with optional partial pivoting,
    a singularity test against the solver's tolerance, and back
    substitution, all on copies of A and b. */
module Gauss {
  import opened LinearAlgebra
  import opened Wrappers
  import opened Matrices
  import opened Vectors
  import opened Systems
  import opened Results
  import opened Solvers
  import opened Elimination

  /** How forward elimination ends: a pivot below the tolerance was met, or
      the system was reduced to upper-triangular form (u, c). */
  datatype Forward = Singular | Reduced(u: Mat, c: Vec)

  /** Forward elimination from step i on: choose the pivot row (the first
      maximal magnitude when pivoting, row i otherwise), swap it into row i
      in both A and b, give up if the pivot is below the tolerance, and
      eliminate column i below it. */
  function ForwardFrom(m: Mat, b: Vec, i: nat, pivoting: bool, tol: real): (f: Forward)
    requires IsSquare(m) && |m| <= |b| && 0.0 < tol
    ensures f.Reduced? ==> IsSquare(f.u) && |f.u| == |m| && |f.c| == |b|
    decreases |m| - i
  {
    if i >= |m| then Reduced(m, b)
    else
      var p := PivotRow(m, i, pivoting);
      var m1 := Swap(m, i, p);
      var b1 := Swap(b, i, p);
      if Abs(m1[i][i]) < tol then Singular
      else ForwardFrom(EliminateBelow(m1, i, i), EliminateRhs(b1, m1, i, i), i + 1, pivoting, tol)
  }

  /** The row swapped into position i at step i: with pivoting the first
      row of largest magnitude in column i from row i down, otherwise row i
      itself. */
  function PivotRow(m: Mat, i: nat, pivoting: bool): (p: nat)
    requires IsSquare(m) && i < |m|
    ensures i <= p < |m|
    ensures pivoting ==> IsFirstMax(m, i, i, |m|, p)
    ensures !pivoting ==> p == i
  {
    if pivoting then PivotIndexIsFirstMax(m, i, i); PivotIndex(m, i) else i
  }

  /** One step of forward elimination, unfolded for the loop of solve: after
      the swap, a small pivot ends in Singular and a large one leaves the
      rest of the work to the eliminated system. */
  lemma ForwardStep(m: Mat, b: Vec, i: nat, pivoting: bool, tol: real, m1: Mat, b1: Vec)
    requires IsSquare(m) && |m| <= |b| && 0.0 < tol && i < |m|
    requires m1 == Swap(m, i, PivotRow(m, i, pivoting)) && b1 == Swap(b, i, PivotRow(m, i, pivoting))
    ensures IsSquare(m1) && |m1| <= |b1|
    ensures Abs(m1[i][i]) < tol ==> ForwardFrom(m, b, i, pivoting, tol).Singular?
    ensures tol <= Abs(m1[i][i]) ==>
      ForwardFrom(m, b, i, pivoting, tol) == ForwardFrom(EliminateBelow(m1, i, i), EliminateRhs(b1, m1, i, i), i + 1, pivoting, tol)
  {
  }

  /** Equation k of the triangular system as back substitution reads it:
      the sum of u[k][j] x[j] over the columns j >= k equals c[k]. */
  predicate TriangularRow(u: Mat, c: Vec, x: Vec, k: nat)
    requires IsSquare(u) && |u| <= |c| && |x| == |u| && k < |u|
  {
    SumRange(u[k], x, k, |u|) == c[k]
  }

  /** x satisfies every equation of the triangular system. */
  predicate SolvesTriangular(u: Mat, c: Vec, x: Vec)
    requires IsSquare(u) && |u| <= |c| && |x| == |u|
  {
    forall k :: 0 <= k < |u| ==> TriangularRow(u, c, x, k)
  }

  // ---------------------------------------------------------------------
  // What forward elimination produces

  /** Swapping two rows at or below row i keeps columns 0..i-1 zero below
      the diagonal. */
  lemma SwapKeepsLowerZero(m: Mat, i: nat, p: nat)
    requires IsSquare(m) && i <= p < |m| && LowerZero(m, i)
    ensures IsSquare(Swap(m, i, p)) && LowerZero(Swap(m, i, p), i)
  {
  }

  /** Eliminating column i below a nonzero pivot extends the zero region to
      column i. */
  lemma EliminateExtendsLowerZero(m: Mat, i: nat)
    requires IsSquare(m) && i < |m| && m[i][i] != 0.0 && LowerZero(m, i)
    ensures IsSquare(EliminateBelow(m, i, i)) && LowerZero(EliminateBelow(m, i, i), i + 1)
  {
    var e := EliminateBelow(m, i, i);
    EliminateBelowZeroes(m, i, i);
    forall r, c | 0 <= c < i + 1 && c < r < |m|
      ensures e[r][c] == 0.0
    {
      EliminateBelowEntry(m, i, i, r, c);
    }
  }

  /** A reduced system is upper triangular. */
  lemma {:induction false} ForwardUpperTriangular(m: Mat, b: Vec, i: nat, pivoting: bool, tol: real)
    requires IsSquare(m) && |m| <= |b| && 0.0 < tol && i <= |m| && LowerZero(m, i)
    ensures var f := ForwardFrom(m, b, i, pivoting, tol);
      f.Reduced? ==> LowerZero(f.u, |m|)
    decreases |m| - i
  {
    if i < |m| {
      var p := PivotRow(m, i, pivoting);
      var m1, b1 := Swap(m, i, p), Swap(b, i, p);
      ForwardStep(m, b, i, pivoting, tol, m1, b1);
      if tol <= Abs(m1[i][i]) {
        var m2, b2 := EliminateBelow(m1, i, i), EliminateRhs(b1, m1, i, i);
        SwapKeepsLowerZero(m, i, p);
        EliminateExtendsLowerZero(m1, i);
        ForwardUpperTriangular(m2, b2, i + 1, pivoting, tol);
        assert |m2| == |m|;
        assert ForwardFrom(m, b, i, pivoting, tol) == ForwardFrom(m2, b2, i + 1, pivoting, tol);
      } else {
        assert ForwardFrom(m, b, i, pivoting, tol).Singular?;
      }
    } else {
      assert ForwardFrom(m, b, i, pivoting, tol) == Reduced(m, b) && i == |m|;
    }
  }

  /** Step i of elimination keeps the diagonal entries 0..i-1 and the new
      pivot in place. */
  lemma PivotsKept(m: Mat, i: nat, p: nat, tol: real)
    requires IsSquare(m) && i <= p < |m|
    requires forall k :: 0 <= k < i ==> tol <= Abs(m[k][k])
    requires tol <= Abs(Swap(m, i, p)[i][i]) && Swap(m, i, p)[i][i] != 0.0
    ensures var m2 := EliminateBelow(Swap(m, i, p), i, i);
      forall k :: 0 <= k < i + 1 ==> tol <= Abs(m2[k][k])
  {
    var m1 := Swap(m, i, p);
    var m2 := EliminateBelow(m1, i, i);
    EliminateBelowZeroes(m1, i, i);
    forall k | 0 <= k < i + 1
      ensures tol <= Abs(m2[k][k])
    {
      assert m2[k] == m1[k];
      if k < i {
        assert m1[k] == m[k];
      }
    }
  }

  /** Every diagonal entry of a reduced system passed the pivot test. */
  lemma {:induction false} ForwardPivots(m: Mat, b: Vec, i: nat, pivoting: bool, tol: real)
    requires IsSquare(m) && |m| <= |b| && 0.0 < tol && i <= |m|
    requires forall k :: 0 <= k < i ==> tol <= Abs(m[k][k])
    ensures var f := ForwardFrom(m, b, i, pivoting, tol);
      f.Reduced? ==> forall k :: 0 <= k < |m| ==> tol <= Abs(f.u[k][k])
    decreases |m| - i
  {
    if i < |m| {
      var p := PivotRow(m, i, pivoting);
      var m1, b1 := Swap(m, i, p), Swap(b, i, p);
      ForwardStep(m, b, i, pivoting, tol, m1, b1);
      if tol <= Abs(m1[i][i]) {
        var m2, b2 := EliminateBelow(m1, i, i), EliminateRhs(b1, m1, i, i);
        PivotsKept(m, i, p, tol);
        ForwardPivots(m2, b2, i + 1, pivoting, tol);
        assert |m2| == |m|;
        assert ForwardFrom(m, b, i, pivoting, tol) == ForwardFrom(m2, b2, i + 1, pivoting, tol);
      } else {
        assert ForwardFrom(m, b, i, pivoting, tol).Singular?;
      }
    } else {
      assert ForwardFrom(m, b, i, pivoting, tol) == Reduced(m, b) && i == |m|;
    }
  }

  /** Subtracting f times equation i from equation r keeps every solution of
      equation i and the old equation r a solution of the new one. */
  lemma EliminatedRowSolves(m: Mat, b: Vec, i: nat, r: nat, x: Vec)
    requires IsSquare(m) && |m| <= |b| && |x| == |m| && i < r < |m|
    requires m[i][i] != 0.0 && LowerZero(m, i)
    requires Dot(m[i], x) == b[i]
    requires Dot(EliminateBelow(m, i, i)[r], x) == EliminateRhs(b, m, i, i)[r]
    ensures Dot(m[r], x) == b[r]
  {
    var f := m[r][i] / m[i][i];
    var e := EliminateBelow(m, i, i);
    EliminatedRowEntries(m, i, r);
    EliminateRhsEntry(b, m, i, i, r);
    CombinedEquationSolves(e[r], m[r], m[i], f, x, b[r], b[i], EliminateRhs(b, m, i, i)[r]);
  }

  /** Row r after elimination is row r minus f times row i in every column:
      left of column i both rows hold zeros. */
  lemma EliminatedRowEntries(m: Mat, i: nat, r: nat)
    requires IsSquare(m) && i < r < |m| && m[i][i] != 0.0 && LowerZero(m, i)
    ensures forall k :: 0 <= k < |m| ==>
      EliminateBelow(m, i, i)[r][k] == m[r][k] - (m[r][i] / m[i][i]) * m[i][k]
  {
    forall k | 0 <= k < |m|
      ensures EliminateBelow(m, i, i)[r][k] == m[r][k] - (m[r][i] / m[i][i]) * m[i][k]
    {
      EliminateBelowEntry(m, i, i, r, k);
    }
  }

  /** If the equation (er, ebr) is equation (mr, br) minus f times equation
      (mi, bi), a solution of the pivot equation and the combined equation
      solves the original one. */
  lemma CombinedEquationSolves(er: Vec, mr: Vec, mi: Vec, f: real, x: Vec, br: real, bi: real, ebr: real)
    requires |er| == |mr| == |mi| == |x|
    requires forall k :: 0 <= k < |x| ==> er[k] == mr[k] - f * mi[k]
    requires Dot(mi, x) == bi && Dot(er, x) == ebr && ebr == br - f * bi
    ensures Dot(mr, x) == br
  {
    SumRangeLinear(er, mr, mi, f, x, 0, |x|);
    AddParts(Dot(mr, x), ebr, f * bi, ebr, f * bi, br);
  }

  /** A solution of the reduced system solves the original one: row swaps
      only reorder the equations, and elimination only subtracts a multiple
      of the pivot equation. */
  lemma {:induction false} ForwardSolves(m: Mat, b: Vec, i: nat, pivoting: bool, tol: real, x: Vec)
    requires IsSquare(m) && |m| <= |b| && 0.0 < tol && i <= |m| && |x| == |m|
    requires LowerZero(m, i)
    requires ForwardFrom(m, b, i, pivoting, tol).Reduced?
    requires var f := ForwardFrom(m, b, i, pivoting, tol);
      IsSquare(f.u) && |f.u| == |m| && |f.c| == |b| && Solves(f.u, f.c, x)
    ensures Solves(m, b, x)
    decreases |m| - i
  {
    if i < |m| {
      var p := PivotRow(m, i, pivoting);
      var m1, b1 := Swap(m, i, p), Swap(b, i, p);
      ForwardStep(m, b, i, pivoting, tol, m1, b1);
      assert tol <= Abs(m1[i][i]);
      var m2, b2 := EliminateBelow(m1, i, i), EliminateRhs(b1, m1, i, i);
      SwapKeepsLowerZero(m, i, p);
      EliminateExtendsLowerZero(m1, i);
      assert |m2| == |m| && ForwardFrom(m, b, i, pivoting, tol) == ForwardFrom(m2, b2, i + 1, pivoting, tol);
      ForwardSolves(m2, b2, i + 1, pivoting, tol, x);
      EliminationSolves(m1, b1, i, x);
      SwapSolves(m, b, i, p, x);
    }
  }

  /** A solution of the system after eliminating below pivot i solves the
      system before. */
  lemma EliminationSolves(m: Mat, b: Vec, i: nat, x: Vec)
    requires IsSquare(m) && |m| <= |b| && |x| == |m| && i < |m|
    requires m[i][i] != 0.0 && LowerZero(m, i)
    requires Solves(EliminateBelow(m, i, i), EliminateRhs(b, m, i, i), x)
    ensures Solves(m, b, x)
  {
    var e, c := EliminateBelow(m, i, i), EliminateRhs(b, m, i, i);
    EliminateBelowZeroes(m, i, i);
    assert Dot(m[i], x) == b[i] by {
      assert e[i] == m[i] && c[i] == b[i];
    }
    forall r | 0 <= r < |m|
      ensures Dot(m[r], x) == b[r]
    {
      if i < r {
        EliminatedRowSolves(m, b, i, r, x);
      } else {
        assert e[r] == m[r] && c[r] == b[r];
      }
    }
  }

  /** Swapping two equations does not change the solutions. */
  lemma SwapSolves(m: Mat, b: Vec, i: nat, p: nat, x: Vec)
    requires IsSquare(m) && |m| <= |b| && |x| == |m| && i < |m| && p < |m|
    requires Solves(Swap(m, i, p), Swap(b, i, p), x)
    ensures Solves(m, b, x)
  {
    var m1, b1 := Swap(m, i, p), Swap(b, i, p);
    forall r | 0 <= r < |m|
      ensures Dot(m[r], x) == b[r]
    {
      if r == i {
        assert m[r] == m1[p] && b[r] == b1[p];
      } else if r == p {
        assert m[r] == m1[i] && b[r] == b1[i];
      } else {
        assert m[r] == m1[r] && b[r] == b1[r];
      }
    }
  }

  /** Back substitution's equations are the rows of an upper-triangular
      system: the entries left of the diagonal contribute nothing. */
  lemma TriangularSolves(u: Mat, c: Vec, x: Vec)
    requires IsSquare(u) && |u| <= |c| && |x| == |u| && LowerZero(u, |u|)
    requires SolvesTriangular(u, c, x)
    ensures Solves(u, c, x)
  {
    var n := |u|;
    forall i | 0 <= i < n
      ensures Dot(u[i], x) == c[i]
    {
      SumRangeSplit(u[i], x, 0, i, n);
      SumRangeOfZeros(u[i], x, 0, i);
      assert TriangularRow(u, c, x, i);
    }
  }

  /** The main theorem of the Gauss solver over the reals: a vector that
      back substitution accepts for the reduced system solves A x = b. */
  lemma ReducedSolutionSolves(a: Mat, b: Vec, pivoting: bool, tol: real, x: Vec)
    requires IsSquare(a) && |a| <= |b| && 0.0 < tol && |x| == |a|
    requires ForwardFrom(a, b, 0, pivoting, tol).Reduced?
    requires var f := ForwardFrom(a, b, 0, pivoting, tol);
      IsSquare(f.u) && |f.u| == |a| && |f.c| == |b| && SolvesTriangular(f.u, f.c, x)
    ensures Solves(a, b, x)
    ensures |b| == |a| ==> MatVec(a, x) == b && Residual(a, b, x) == 0.0
  {
    ForwardUpperTriangular(a, b, 0, pivoting, tol);
    var f := ForwardFrom(a, b, 0, pivoting, tol);
    TriangularSolves(f.u, f.c, x);
    ForwardSolves(a, b, 0, pivoting, tol, x);
    if |b| == |a| {
      ResidualZero(a, b, x);
    }
  }

  /** One pass of the loop on b: the update of entry j moves the boundary
      between eliminated and untouched entries to j + 1. */
  lemma RhsLoopStep(b0: Vec, m0: Mat, i: nat, j: nat, before: Vec, bj: real, bi: real, f: real, v: real)
    requires IsSquare(m0) && i < j < |m0| <= |b0| && m0[i][i] != 0.0
    requires before == EliminateRhs(b0, m0, i, i)[..j] + b0[j..]
    requires bj == before[j] && bi == before[i] && f == m0[j][i] / m0[i][i] && v == bj - f * bi
    ensures before[j := v] == EliminateRhs(b0, m0, i, i)[..j + 1] + b0[j + 1..]
  {
    var c := EliminateRhs(b0, m0, i, i);
    assert bi == c[i] == b0[i] && bj == b0[j];
    EliminateRhsEntry(b0, m0, i, i, j);
    assert c[j] == v;
    SpliceNext(c, b0, j);
  }

  /** One step of back substitution: once the new value of x[i] solves
      equation i, equations i + 1 and below stay solved, since they do not
      look at x[i]. */
  lemma BackStep(u: Mat, c: Vec, x: Vec, y: Vec, i: nat, v: real)
    requires IsSquare(u) && |u| <= |c| && |x| == |u| && i < |u| && y == x[i := v]
    requires forall k :: i < k < |u| ==> TriangularRow(u, c, x, k)
    requires TriangularRow(u, c, y, i)
    ensures forall k :: i <= k < |u| ==> TriangularRow(u, c, y, k)
  {
    LaterRowsSolved(u, c, x, y, i, v);
  }

  /** Equations below row i do not look at x[i]. */
  lemma LaterRowsSolved(u: Mat, c: Vec, x: Vec, y: Vec, i: nat, v: real)
    requires IsSquare(u) && |u| <= |c| && |x| == |u| && i < |u| && y == x[i := v]
    requires forall k :: i < k < |u| ==> TriangularRow(u, c, x, k)
    ensures forall k :: i < k < |u| ==> TriangularRow(u, c, y, k)
  {
    forall k | i < k < |u|
      ensures TriangularRow(u, c, y, k)
    {
      assert TriangularRow(u, c, x, k);
      SumRangeFrame(u[k], y, u[k], x, k, |u|);
    }
  }

  /** Equation i holds once u[i][i] x[i] makes up what the known terms s
      leave of c[i]. */
  lemma PivotRowSolved(u: Mat, c: Vec, x: Vec, y: Vec, i: nat, s: real, v: real)
    requires IsSquare(u) && |u| <= |c| && |x| == |u| && i < |u|
    requires s == SumRange(u[i], x, i + 1, |u|) && y == x[i := v] && u[i][i] * v == c[i] - s
    ensures TriangularRow(u, c, y, i)
  {
    RowEquationSolved(u[i], c[i], x, y, i, s, v);
  }

  /** The same on one row: if row[i] v makes up what s leaves of ci, the
      sum of row[j] y[j] over j >= i is ci once y[i] is v. */
  lemma RowEquationSolved(row: Vec, ci: real, x: Vec, y: Vec, i: nat, s: real, v: real)
    requires i < |row| == |x|
    requires s == SumRange(row, x, i + 1, |row|) && y == x[i := v] && row[i] * v == ci - s
    ensures SumRange(row, y, i, |row|) == ci
  {
    var n := |row|;
    SumRangeFrame(row, y, row, x, i + 1, n);
    SumRangeSplit(row, y, i, i + 1, n);
    SumRangeSingle(row, y, i);
    assert y[i] == v;
    AddParts(SumRange(row, y, i, n), SumRange(row, y, i, i + 1), SumRange(row, y, i + 1, n), row[i] * v, s, ci);
  }

  /** A linear step with the products named as plain numbers, so that the
      solver does not treat it as nonlinear. */
  lemma AddParts(total: real, head: real, rest: real, p: real, s: real, c: real)
    requires total == head + rest && head == p && rest == s && p == c - s
    ensures total == c
  {
  }

  // ---------------------------------------------------------------------
  // The solver

  class GaussSolver {
    /** The inherited LinearSolver state. */
    const base: LinearSolver
    var partialPivoting: bool

    constructor ()
      ensures fresh(base) && partialPivoting
      ensures base.iterations == 0 && base.computationTime == 0
      ensures base.maxIterations == DefaultMaxIterations && base.tolerance == DefaultTolerance
    {
      base := new LinearSolver();
      partialPivoting := true;
    }

    method SetPartialPivoting(p: bool)
      modifies this
      ensures partialPivoting == p
    {
      partialPivoting := p;
    }

    /** partialPivot: moves the first row of largest magnitude in column
        `row` (from `row` down) into position `row`, in A and in b. */
    method PartialPivot(A: Matrix, b: Vector, row: nat)
      requires A.Valid() && b.Valid() && A.data != b.m.data
      requires A.rows == A.cols && row < A.rows <= b.Size()
      modifies A.data, b.m.data
      ensures A.Elements() == Swap(old(A.Elements()), row, PivotIndex(old(A.Elements()), row))
      ensures b.Items() == Swap(old(b.Items()), row, PivotIndex(old(A.Elements()), row))
    {
      ghost var m := A.Elements();
      var n := A.rows;
      var maxRow := row;
      var maxVal := Abs(A.data[row, row]);
      var i := row + 1;
      while i < n
        invariant row < i <= n || (i == row + 1 && n == row + 1)
        invariant row <= maxRow < i
        invariant maxVal == Abs(m[maxRow][row])
        invariant PivotFrom(m, row, maxRow, i) == PivotIndex(m, row)
      {
        if Abs(A.data[i, row]) > maxVal {
          maxVal := Abs(A.data[i, row]);
          maxRow := i;
        }
        i := i + 1;
      }
      if maxRow != row {
        SwapRows(A, row, maxRow);
        var temp := b.m.data[row, 0];
        b.m.data[row, 0] := b.m.data[maxRow, 0];
        b.m.data[maxRow, 0] := temp;
      } else {
        SwapProperties(m, row, row);
        SwapProperties(b.Items(), row, row);
      }
    }

    /** The elimination loop of step i: every row j below i loses
        A[j][i] / A[i][i] times row i, in A from column i on and in b. */
    method EliminateColumn(A: Matrix, b: Vector, i: nat)
      requires A.Valid() && b.Valid() && A.data != b.m.data
      requires A.rows == A.cols && i < A.rows <= b.Size() && A.data[i, i] != 0.0
      modifies A.data, b.m.data
      ensures A.Elements() == EliminateBelow(old(A.Elements()), i, i)
      ensures b.Items() == EliminateRhs(old(b.Items()), old(A.Elements()), i, i)
    {
      ghost var m0, b0 := A.Elements(), b.Items();
      ghost var e := EliminateBelow(m0, i, i);
      ghost var c := EliminateRhs(b0, m0, i, i);
      var n := A.rows;
      var j := i + 1;
      EliminationSpliceEnds(m0, b0, i, i);
      while j < n
        invariant i + 1 <= j <= n
        invariant A.Elements() == e[..j] + m0[j..]
        invariant b.Items() == c[..j] + b0[j..]
      {
        EliminateEntry(A, b, i, j, m0, b0);
        j := j + 1;
      }
    }

    /** One pass of the elimination loop: row j of A and entry j of b lose
        the multiple of row i and entry i that cancels A[j][i]. */
    static method EliminateEntry(A: Matrix, b: Vector, i: nat, j: nat, ghost m0: Mat, ghost b0: Vec)
      requires A.Valid() && b.Valid() && A.data != b.m.data
      requires A.rows == A.cols == |m0| && i < j < A.rows <= b.Size() == |b0|
      requires IsSquare(m0) && m0[i][i] != 0.0
      requires A.Elements() == EliminateBelow(m0, i, i)[..j] + m0[j..]
      requires b.Items() == EliminateRhs(b0, m0, i, i)[..j] + b0[j..]
      modifies A.data, b.m.data
      ensures A.Elements() == EliminateBelow(m0, i, i)[..j + 1] + m0[j + 1..]
      ensures b.Items() == EliminateRhs(b0, m0, i, i)[..j + 1] + b0[j + 1..]
    {
      var factor := A.data[j, i] / A.data[i, i];
      EliminationLoopStep(m0, i, i, j, A.Elements(), factor);
      SubtractRowMultiple(A, j, i, factor, i);
      ghost var before := b.Items();
      var bj, bi := b.Get(j), b.Get(i);
      var updated := bj - factor * bi;
      RhsLoopStep(b0, m0, i, j, before, bj, bi, factor, updated);
      b.Set(j, updated);
      assert b.Items() == before[j := updated];
    }

    /** The inner loop of back substitution: the sum of A[i][j] x[j] over
        the columns j right of the diagonal. */
    method RowSum(A: Matrix, x: Vector, i: nat) returns (sum: real)
      requires A.Valid() && x.Valid() && A.rows == A.cols == x.Size() && i < A.rows
      ensures sum == SumRange(A.Elements()[i], x.Items(), i + 1, A.rows)
    {
      ghost var row, xs := A.Elements()[i], x.Items();
      var n := A.rows;
      sum := 0.0;
      var j := i + 1;
      while j < n
        invariant i + 1 <= j <= n
        invariant sum == SumRange(row, xs, i + 1, j)
      {
        sum := sum + A.Get(i, j) * x.Get(j);
        j := j + 1;
      }
    }

    /** The division of back substitution, x[i] = (b[i] - sum) / A[i][i],
        known to the loop only through A[i][i] * x[i] == b[i] - sum; this
        keeps the division itself out of the loop's proof. */
    static method Quotient(t: real, d: real) returns (q: real)
      requires d != 0.0
      ensures d * q == t
    {
      q := t / d;
    }

    /** Back substitution from the last row up: x[i] is what is left of
        c[i] after the already known x[j], j > i, divided by u[i][i]. */
    method BackSubstitute(A: Matrix, b: Vector, n: nat) returns (solution: Vector)
      requires A.Valid() && b.Valid() && A.rows == A.cols && n == A.rows <= b.Size()
      requires forall k :: 0 <= k < n ==> A.Elements()[k][k] != 0.0
      ensures fresh(solution.m) && fresh(solution.m.data) && solution.Valid()
      ensures |solution.Items()| == n
      ensures SolvesTriangular(A.Elements(), b.Items(), solution.Items())
    {
      ghost var u, c := A.Elements(), b.Items();
      solution := new Vector(n);
      var i := n;
      while i > 0
        invariant 0 <= i <= n
        invariant fresh(solution.m) && fresh(solution.m.data) && solution.Valid() && solution.Size() == n
        invariant forall k :: i <= k < n ==> TriangularRow(u, c, solution.Items(), k)
      {
        i := i - 1;
        var sum := RowSum(A, solution, i);
        var xi := Quotient(b.Get(i) - sum, A.Get(i, i));
        ghost var before := solution.Items();
        solution.Set(i, xi);
        PivotRowSolved(u, c, before, solution.Items(), i, sum, xi);
        BackStep(u, c, before, solution.Items(), i, xi);
      }
    }

    /** The forward-elimination loop of solve on the copies A and b: step i
        pivots (when partialPivoting is set), gives up on a pivot below the
        tolerance, and eliminates column i. */
    method ForwardEliminate(A: Matrix, b: Vector, tol: real) returns (reduced: bool)
      requires A.Valid() && b.Valid() && A.data != b.m.data
      requires A.rows == A.cols <= b.Size() && 0.0 < tol
      modifies A.data, b.m.data
      ensures var f := ForwardFrom(old(A.Elements()), old(b.Items()), 0, partialPivoting, tol);
        (reduced <==> f.Reduced?) && (reduced ==> A.Elements() == f.u && b.Items() == f.c)
    {
      ghost var f := ForwardFrom(A.Elements(), b.Items(), 0, partialPivoting, tol);
      var n := A.rows;
      var i := 0;
      while i < n
        invariant 0 <= i <= n
        invariant ForwardFrom(A.Elements(), b.Items(), i, partialPivoting, tol) == f
      {
        ghost var m, c := A.Elements(), b.Items();
        if partialPivoting {
          PartialPivot(A, b, i);
        } else {
          SwapProperties(m, i, i);
          SwapProperties(c, i, i);
        }
        ForwardStep(m, c, i, partialPivoting, tol, A.Elements(), b.Items());
        if Abs(A.Get(i, i)) < tol {
          return false;
        }
        EliminateColumn(A, b, i);
        i := i + 1;
      }
      return true;
    }

    /** The first half of solve: copies A and b and runs forward elimination
        on the copies. */
    method CopyAndEliminate(system: LinearSystem) returns (A: Matrix, b: Vector, reduced: bool)
      requires system.Valid() && 0 < system.A.rows == system.A.cols <= system.b.Size()
      requires 0.0 < base.tolerance
      ensures fresh(A) && fresh(A.data) && fresh(b.m) && fresh(b.m.data)
      ensures A.Valid() && b.Valid() && A.rows == A.cols == system.A.rows && b.Size() == system.b.Size()
      ensures var f := ForwardFrom(system.A.Elements(), system.b.Items(), 0, partialPivoting, base.tolerance);
        (reduced <==> f.Reduced?) && (reduced ==> A.Elements() == f.u && b.Items() == f.c)
    {
      A := system.A.Copy();
      b := CopyThroughArray(system.b);
      reduced := ForwardEliminate(A, b, base.tolerance);
    }

    /** solve: rejects a non-square A; otherwise eliminates on copies of A
        and b, reports a pivot below the tolerance as singular, and returns
        the back-substituted solution with its residual on the original
        system. `elapsed` stands for the clock reading. */
    method Solve(system: LinearSystem, elapsed: int) returns (r: Outcome<Result>)
      requires system.Valid()
      requires system.A.rows == system.A.cols ==>
        0 < system.A.rows <= system.b.Size() && 0.0 < base.tolerance
      modifies base
      ensures base.iterations == old(base.iterations) && base.tolerance == old(base.tolerance)
      ensures base.maxIterations == old(base.maxIterations)
      ensures system.A.rows != system.A.cols ==>
        r == Thrown("Matrix must be square for this solver") && base.computationTime == old(base.computationTime)
      ensures system.A.rows == system.A.cols ==> base.computationTime == elapsed
      ensures system.A.rows == system.A.cols ==>
        var f := ForwardFrom(system.A.Elements(), system.b.Items(), 0, partialPivoting, base.tolerance);
        f.Singular? ==>
          r.Ok? && fresh(r.value) && r.value.solution == null &&
          r.value.message == "Matrix is singular or nearly singular" &&
          r.value.iterations == 0 && r.value.residual == 0.0 && r.value.computationTime == elapsed
      ensures system.A.rows == system.A.cols && system.b.Size() != system.A.rows ==>
        var f := ForwardFrom(system.A.Elements(), system.b.Items(), 0, partialPivoting, base.tolerance);
        f.Reduced? ==> r == Thrown("Vector sizes don't match for subtraction")
      ensures system.A.rows == system.A.cols == system.b.Size() ==>
        var f := ForwardFrom(system.A.Elements(), system.b.Items(), 0, partialPivoting, base.tolerance);
        f.Reduced? ==>
          r.Ok? && fresh(r.value) && r.value.solution != null && r.value.solution.Valid() &&
          |r.value.solution.Items()| == system.A.rows &&
          MatVec(system.A.Elements(), r.value.solution.Items()) == system.b.Items() &&
          r.value.message == "Solution found" && r.value.iterations == old(base.iterations) &&
          r.value.residual == 0.0 && r.value.computationTime == elapsed
    {
      var check := base.ValidateSystem(system);
      if check.Thrown? {
        return Thrown(check.message);
      }
      var A, b, reduced := CopyAndEliminate(system);
      if !reduced {
        base.computationTime := elapsed;
        var res := new Result.WithoutResidual(null, "Matrix is singular or nearly singular", 0, elapsed);
        return Ok(res);
      }
      r := SubstituteAndMeasure(system, A, b, elapsed);
    }

    /** Back substitution on the reduced system, with what it means for the original one. */
    method SubstituteBack(system: LinearSystem, A: Matrix, b: Vector) returns (solution: Vector)
      requires system.Valid() && 0 < system.A.rows == system.A.cols <= system.b.Size()
      requires 0.0 < base.tolerance
      requires A.Valid() && b.Valid() && A.rows == A.cols == system.A.rows && b.Size() == system.b.Size()
      requires var f := ForwardFrom(system.A.Elements(), system.b.Items(), 0, partialPivoting, base.tolerance);
        f.Reduced? && A.Elements() == f.u && b.Items() == f.c
      ensures fresh(solution.m) && fresh(solution.m.data) && solution.Valid()
      ensures |solution.Items()| == system.A.rows
      ensures Solves(system.A.Elements(), system.b.Items(), solution.Items())
      ensures system.b.Size() == system.A.rows ==>
        MatVec(system.A.Elements(), solution.Items()) == system.b.Items() &&
        Residual(system.A.Elements(), system.b.Items(), solution.Items()) == 0.0
    {
      ghost var a0, b0 := system.A.Elements(), system.b.Items();
      ForwardPivots(a0, b0, 0, partialPivoting, base.tolerance);
      solution := BackSubstitute(A, b, A.rows);
      ReducedSolutionSolves(a0, b0, partialPivoting, base.tolerance, solution.Items());
    }

    /** The second half of solve on a reduced system: back substitution on
        the copies, then the residual against the original system. */
    method SubstituteAndMeasure(system: LinearSystem, A: Matrix, b: Vector, elapsed: int) returns (r: Outcome<Result>)
      requires system.Valid() && 0 < system.A.rows == system.A.cols <= system.b.Size()
      requires 0.0 < base.tolerance
      requires A.Valid() && b.Valid() && A.rows == A.cols == system.A.rows && b.Size() == system.b.Size()
      requires var f := ForwardFrom(system.A.Elements(), system.b.Items(), 0, partialPivoting, base.tolerance);
        f.Reduced? && A.Elements() == f.u && b.Items() == f.c
      modifies base
      ensures base.iterations == old(base.iterations) && base.tolerance == old(base.tolerance)
      ensures base.maxIterations == old(base.maxIterations) && base.computationTime == elapsed
      ensures system.b.Size() != system.A.rows ==> r == Thrown("Vector sizes don't match for subtraction")
      ensures system.b.Size() == system.A.rows ==>
        r.Ok? && fresh(r.value) && r.value.solution != null && r.value.solution.Valid() &&
        |r.value.solution.Items()| == system.A.rows &&
        MatVec(system.A.Elements(), r.value.solution.Items()) == system.b.Items() &&
        r.value.message == "Solution found" && r.value.iterations == old(base.iterations) &&
        r.value.residual == 0.0 && r.value.computationTime == elapsed
    {
      var solution := SubstituteBack(system, A, b);
      base.computationTime := elapsed;
      var residual := base.CalculateResidual(system, solution);
      if residual.Thrown? {
        return Thrown(residual.message);
      }
      var res := new Result(solution, "Solution found", base.iterations, elapsed, residual.value);
      return Ok(res);
    }
  }
}
