/** JacobiSolver.java: Jacobi iteration from the zero vector. Each pass
    computes every new component from the previous iterate only; the pass
    count and the distance between consecutive iterates decide when to
    stop. */
module Jacobi {
  import opened LinearAlgebra
  import opened Wrappers
  import opened Matrices
  import opened Vectors
  import opened Systems
  import opened Results
  import opened Solvers
  import opened Splitting
  import opened Stopping

  /** One pass: every component of the new iterate from the old one. */
  function Step(a: Mat, b: Vec, x: Vec): (y: Vec)
    requires Ready(a, b) && |x| == |a|
    ensures |y| == |a|
  {
    seq(|a|, i requires 0 <= i < |a| => Component(a, b, x, i))
  }

  /** The iterate after k passes from the zero vector. */
  function Iterate(a: Mat, b: Vec, k: nat): (x: Vec)
    requires Ready(a, b)
    ensures |x| == |a|
  {
    if k == 0 then Zeros(|a|) else Step(a, b, Iterate(a, b, k - 1))
  }

  /** The error the solver measures after pass k: the norm of the change. */
  function Error(a: Mat, b: Vec, k: nat): (e: real)
    requires Ready(a, b) && 1 <= k
    ensures 0.0 <= e
  {
    DistanceZero(Iterate(a, b, k), Iterate(a, b, k - 1));
    Norm(VecSub(Iterate(a, b, k), Iterate(a, b, k - 1)))
  }

  /** The errors of all passes, as the termination rule reads them; there
      is no pass 0. */
  function Errors(a: Mat, b: Vec): nat -> real
    requires Ready(a, b)
  {
    (k: nat) => if k == 0 then 0.0 else Error(a, b, k)
  }

  /** A vector is a fixed point of the Jacobi pass exactly when it solves
      the system. */
  lemma FixedPointSolves(a: Mat, b: Vec, x: Vec)
    requires Ready(a, b) && |x| == |a|
    ensures Step(a, b, x) == x <==> Solves(a, b, x)
  {
    forall i | 0 <= i < |a|
      ensures Component(a, b, x, i) == x[i] <==> Dot(a[i], x) == b[i]
    {
      ComponentFixed(a, b, x, i);
    }
    if Solves(a, b, x) {
      forall i | 0 <= i < |a|
        ensures Step(a, b, x)[i] == x[i]
      {
        assert Dot(a[i], x) == b[i];
      }
    }
    if Step(a, b, x) == x {
      forall i | 0 <= i < |a|
        ensures Dot(a[i], x) == b[i]
      {
        assert Step(a, b, x)[i] == x[i];
      }
    }
  }

  /** The measured error is zero exactly when the pass changed nothing,
      and then the previous iterate, which equals the new one, solves the
      system. */
  lemma ZeroErrorSolves(a: Mat, b: Vec, k: nat)
    requires Ready(a, b) && 1 <= k
    ensures Error(a, b, k) == 0.0 <==> Iterate(a, b, k) == Iterate(a, b, k - 1)
    ensures Error(a, b, k) == 0.0 <==> Solves(a, b, Iterate(a, b, k - 1))
    ensures Error(a, b, k) == 0.0 ==> Solves(a, b, Iterate(a, b, k))
  {
    DistanceZero(Iterate(a, b, k), Iterate(a, b, k - 1));
    FixedPointSolves(a, b, Iterate(a, b, k - 1));
  }

  /** With tolerance 0, a converged answer solves the system, so its
      residual is 0. */
  lemma ExactConvergence(a: Mat, b: Vec, maxIterations: int)
    requires Ready(a, b) && Passes(Errors(a, b), 0.0, maxIterations) <= maxIterations
    ensures Solves(a, b, Iterate(a, b, Passes(Errors(a, b), 0.0, maxIterations)))
    ensures |b| == |a| ==> Residual(a, b, Iterate(a, b, Passes(Errors(a, b), 0.0, maxIterations))) == 0.0
  {
    var s := Passes(Errors(a, b), 0.0, maxIterations);
    PassesBounds(Errors(a, b), 0.0, maxIterations);
    ZeroErrorSolves(a, b, s);
    if |b| == |a| {
      SolvesIffResidualZero(a, b, Iterate(a, b, s));
    }
  }

  /** A system the zero vector already solves stops after one pass, with
      the zero vector as its answer. */
  lemma ZeroSolutionStopsAtOnce(a: Mat, b: Vec, tol: real, maxIterations: int)
    requires Ready(a, b) && Solves(a, b, Zeros(|a|)) && 0.0 <= tol
    ensures Passes(Errors(a, b), tol, maxIterations) == 1
    ensures Iterate(a, b, 1) == Zeros(|a|)
  {
    FixedPointSolves(a, b, Zeros(|a|));
    ZeroErrorSolves(a, b, 1);
  }

  class JacobiSolver {
    /** The inherited LinearSolver state. */
    const base: LinearSolver

    constructor ()
      ensures fresh(base)
      ensures base.iterations == 0 && base.computationTime == 0
      ensures base.maxIterations == DefaultMaxIterations && base.tolerance == DefaultTolerance
    {
      base := new LinearSolver();
    }

    /** One pass: xNew receives every component computed from x, and x is
        not written. */
    static method Pass(system: LinearSystem, x: Vector, xNew: Vector)
      requires system.Valid() && x.Valid() && xNew.Valid()
      requires Ready(system.A.Elements(), system.b.Items())
      requires x.Size() == xNew.Size() == system.A.rows == system.A.cols
      requires xNew.m.data != x.m.data && xNew.m.data != system.A.data && xNew.m.data != system.b.m.data
      modifies xNew.m.data
      ensures xNew.Items() == Step(system.A.Elements(), system.b.Items(), x.Items())
    {
      ghost var a, b, xs := system.A.Elements(), system.b.Items(), x.Items();
      var n := system.A.rows;
      var i := 0;
      while i < n
        invariant 0 <= i <= n && xNew.Valid() && |xNew.Items()| == n
        invariant x.Items() == xs && system.A.Elements() == a && system.b.Items() == b
        invariant forall k :: 0 <= k < i ==> xNew.Items()[k] == Component(a, b, xs, k)
      {
        var sum := OffDiagonalSum(system.A, x, i);
        xNew.Set(i, (system.b.Get(i) - sum) / system.A.Get(i, i));
        i := i + 1;
      }
    }

    /** The body of one loop iteration before the checks: a pass into
        xNew, the error ||xNew - x||, and x replaced by a copy of xNew. */
    static method Advance(system: LinearSystem, x: Vector, xNew: Vector, ghost a: Mat, ghost b: Vec, ghost k: nat)
      returns (next: Vector, error: real)
      requires system.Valid() && x.Valid() && xNew.Valid() && 1 <= k
      requires system.A.Elements() == a && system.b.Items() == b && Ready(a, b)
      requires x.Size() == xNew.Size() == system.A.rows == system.A.cols
      requires xNew.m.data != x.m.data && xNew.m.data != system.A.data && xNew.m.data != system.b.m.data
      requires x.Items() == Iterate(a, b, k - 1)
      modifies xNew.m.data
      ensures fresh(next.m) && fresh(next.m.data) && next.Valid() && next.Size() == x.Size()
      ensures next.Items() == Iterate(a, b, k) && error == Error(a, b, k)
    {
      Pass(system, x, xNew);
      var d := xNew.Subtract(x);
      error := d.value.Norm();
      next := CopyThroughArray(xNew);
    }

    /** solve: rejects a non-square system; otherwise iterates from the
        zero vector until the error is within the tolerance or the pass
        limit is exceeded. The limit case returns the last iterate with the
        error in the residual slot; convergence returns it with the residual
        on the system. `elapsed` stands for the clock reading. */
    method Solve(system: LinearSystem, elapsed: int) returns (r: Outcome<Result>)
      requires system.Valid()
      requires system.A.rows == system.A.cols ==> Ready(system.A.Elements(), system.b.Items())
      modifies base
      ensures base.tolerance == old(base.tolerance) && base.maxIterations == old(base.maxIterations)
      ensures system.A.rows != system.A.cols ==>
        r == Thrown("Matrix must be square for this solver") && unchanged(base)
      ensures system.A.rows == system.A.cols ==>
        var a, b := system.A.Elements(), system.b.Items();
        var k := Passes(Errors(a, b), base.tolerance, base.maxIterations);
        base.iterations == k && base.computationTime == elapsed &&
        (base.maxIterations < k ==>
          r.Ok? && fresh(r.value) && r.value.solution != null && r.value.solution.Valid() &&
          r.value.solution.Items() == Iterate(a, b, k) &&
          r.value.message == "Maximum iterations reached" && r.value.iterations == k &&
          r.value.computationTime == elapsed && r.value.residual == Error(a, b, k)) &&
        (k <= base.maxIterations && |b| != |a| ==>
          r == Thrown("Vector sizes don't match for subtraction")) &&
        (k <= base.maxIterations && |b| == |a| ==>
          r.Ok? && fresh(r.value) && r.value.solution != null && r.value.solution.Valid() &&
          r.value.solution.Items() == Iterate(a, b, k) &&
          r.value.message == "Converged" && r.value.iterations == k &&
          r.value.computationTime == elapsed && r.value.residual == Residual(a, b, Iterate(a, b, k)))
    {
      var check := base.ValidateSystem(system);
      if check.Thrown? {
        return Thrown(check.message);
      }
      var x, error := RunPasses(system);
      base.computationTime := elapsed;
      if base.iterations > base.maxIterations {
        var res := new Result(x, "Maximum iterations reached", base.iterations, elapsed, error);
        return Ok(res);
      }
      var residual := base.CalculateResidual(system, x);
      if residual.Thrown? {
        return Thrown(residual.message);
      }
      var res := new Result(x, "Converged", base.iterations, elapsed, residual.value);
      return Ok(res);
    }

    /** The do-while loop of solve: passes from the zero vector, counted in
        `iterations`, until a pass exceeds the limit or has an error within
        the tolerance. Returns the last iterate and its error. */
    method RunPasses(system: LinearSystem) returns (x: Vector, error: real)
      requires system.Valid() && system.A.rows == system.A.cols
      requires Ready(system.A.Elements(), system.b.Items())
      modifies base
      ensures base.tolerance == old(base.tolerance) && base.maxIterations == old(base.maxIterations)
      ensures base.computationTime == old(base.computationTime)
      ensures var a, b := system.A.Elements(), system.b.Items();
        var k := Passes(Errors(a, b), base.tolerance, base.maxIterations);
        base.iterations == k && fresh(x.m) && fresh(x.m.data) && x.Valid() &&
        x.Items() == Iterate(a, b, k) && error == Error(a, b, k)
    {
      ghost var a, b := system.A.Elements(), system.b.Items();
      ghost var tol, maxIterations := base.tolerance, base.maxIterations;
      ghost var passes := Passes(Errors(a, b), tol, maxIterations);
      var n := system.Size();
      x := new Vector(n);
      var xNew := new Vector(n);
      base.iterations := 0;
      ghost var k: nat := 0;
      while true
        invariant x.Valid() && xNew.Valid() && x.Size() == xNew.Size() == n
        invariant fresh(x.m) && fresh(x.m.data) && fresh(xNew.m.data) && x.m.data != xNew.m.data
        invariant base.tolerance == tol && base.maxIterations == maxIterations
        invariant base.computationTime == old(base.computationTime)
        invariant system.A.Elements() == a && system.b.Items() == b
        invariant base.iterations == k < passes
        invariant x.Items() == Iterate(a, b, k)
        decreases passes - k
      {
        x, error := Advance(system, x, xNew, a, b, k + 1);
        k := k + 1;
        base.iterations := base.iterations + 1;
        PassOutcome(Errors(a, b), tol, maxIterations, k, error);
        if base.iterations > base.maxIterations {
          return;
        }
        if error <= base.tolerance {
          return;
        }
      }
    }
  }
}
