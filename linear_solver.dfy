/** LinearSolver.java: the configuration and the checks shared by the three
    solvers. The Java class is abstract and the solvers extend it; here each
    solver owns a LinearSolver holding the shared fields. */
module Solvers {
  import opened LinearAlgebra
  import opened Wrappers
  import opened Matrices
  import opened Vectors
  import opened Systems

  const DefaultMaxIterations: int := 1000
  const DefaultTolerance: real := 1e-10

  class LinearSolver {
    var iterations: int
    var computationTime: int
    var maxIterations: int
    var tolerance: real

    constructor ()
      ensures iterations == 0 && computationTime == 0
      ensures maxIterations == DefaultMaxIterations && tolerance == DefaultTolerance
    {
      iterations, computationTime := 0, 0;
      maxIterations, tolerance := DefaultMaxIterations, DefaultTolerance;
    }

    method SetMaxIterations(k: int)
      modifies this
      ensures maxIterations == k
      ensures tolerance == old(tolerance) && iterations == old(iterations)
      ensures computationTime == old(computationTime)
    {
      maxIterations := k;
    }

    method SetTolerance(t: real)
      modifies this
      ensures tolerance == t
      ensures maxIterations == old(maxIterations) && iterations == old(iterations)
      ensures computationTime == old(computationTime)
    {
      tolerance := t;
    }

    /** validateSystem: throws unless A is square; has no other effect. */
    function ValidateSystem(system: LinearSystem): (r: Outcome<()>)
      reads system
      ensures r.Thrown? <==> system.A.rows != system.A.cols
      ensures r.Thrown? ==> r.message == "Matrix must be square for this solver"
    {
      if system.A.rows != system.A.cols then Thrown("Matrix must be square for this solver")
      else Ok(())
    }

    /** calculateResidual: ||A x - b|| on the system as given. Throws when
        A x cannot be formed or has a different size from b. */
    method CalculateResidual(system: LinearSystem, solution: Vector) returns (r: Outcome<real>)
      requires system.Valid() && solution.Valid()
      ensures r.Thrown? <==> system.A.cols != solution.Size() || system.A.rows != system.b.Size()
      ensures r.Thrown? && system.A.cols != solution.Size() ==>
                r.message == "Matrix dimensions don't match for multiplication"
      ensures r.Thrown? && system.A.cols == solution.Size() ==>
                r.message == "Vector sizes don't match for subtraction"
      ensures r.Ok? ==> r.value == Residual(system.A.Elements(), system.b.Items(), solution.Items())
      ensures r.Ok? ==> 0.0 <= r.value
    {
      solution.ItemsAreColumn();
      var product := system.A.Multiply(solution.m);
      if product.Thrown? {
        return Thrown(product.message);
      }
      MatMulColumn(system.A.Elements(), solution.Items(), system.A.rows);
      var ax := MatrixToVector(product.value);
      var d := ax.value.Subtract(system.b);
      if d.Thrown? {
        return Thrown(d.message);
      }
      assert ax.value.Items() == MatVec(system.A.Elements(), solution.Items()) by {
        ColumnMatrixInjective(ax.value.Items(), MatVec(system.A.Elements(), solution.Items()));
      }
      var norm := d.value.Norm();
      ResidualZero(system.A.Elements(), system.b.Items(), solution.Items());
      return Ok(norm);
    }

    /** matrixToVector: throws unless the matrix has exactly one column;
        otherwise copies column 0 into a fresh vector. */
    method MatrixToVector(mat: Matrix) returns (r: Outcome<Vector>)
      requires mat.Valid()
      ensures r.Thrown? <==> mat.cols != 1
      ensures r.Thrown? ==> r.message == "Matrix must have exactly one column to convert to Vector"
      ensures r.Ok? ==> fresh(r.value.m) && fresh(r.value.m.data) && r.value.Valid()
      ensures r.Ok? ==> ColumnMatrix(r.value.Items()) == mat.Elements()
    {
      if mat.cols != 1 {
        return Thrown("Matrix must have exactly one column to convert to Vector");
      }
      var v := new Vector(mat.rows);
      var i := 0;
      while i < mat.rows
        invariant 0 <= i <= mat.rows
        invariant forall k :: 0 <= k < i ==> v.m.data[k, 0] == mat.data[k, 0]
      {
        v.m.data[i, 0] := mat.data[i, 0];
        i := i + 1;
      }
      MatrixEquality(v.m.Elements(), mat.Elements(), mat.rows, 1);
      v.ItemsAreColumn();
      return Ok(v);
    }
  }

  /** A vector is determined by its n x 1 matrix. */
  lemma ColumnMatrixInjective(u: Vec, v: Vec)
    requires ColumnMatrix(u) == ColumnMatrix(v)
    ensures u == v
  {
    assert |u| == |ColumnMatrix(u)|;
    forall i | 0 <= i < |u|
      ensures u[i] == v[i]
    {
      assert u[i] == ColumnMatrix(u)[i][0];
    }
  }
}
