/** GaussSeidelSolver.java: Gauss-Seidel iteration from the zero vector.
    A pass sweeps the components in order and writes each new value into x
    at once, so later components of the same pass already see it; the error
    of a pass is the sum of the changes |new - old|. */
module GaussSeidel {
  import opened LinearAlgebra
  import opened Wrappers
  import opened Matrices
  import opened Vectors
  import opened Systems
  import opened Results
  import opened Solvers
  import opened Splitting
  import opened Stopping

  /** The rest of a sweep from component i on, x holding the new values
      before i and the old ones from i on. */
  function SweepFrom(a: Mat, b: Vec, x: Vec, i: nat): (y: Vec)
    requires Ready(a, b) && |x| == |a| && i <= |a|
    ensures |y| == |a|
    decreases |a| - i
  {
    if i == |a| then x else SweepFrom(a, b, x[i := Component(a, b, x, i)], i + 1)
  }

  /** The error the rest of the sweep adds up: |new - old| per component. */
  function SweepErrorFrom(a: Mat, b: Vec, x: Vec, i: nat): (e: real)
    requires Ready(a, b) && |x| == |a| && i <= |a|
    decreases |a| - i
  {
    if i == |a| then 0.0
    else Abs(Component(a, b, x, i) - x[i]) + SweepErrorFrom(a, b, x[i := Component(a, b, x, i)], i + 1)
  }

  /** The iterate after k passes from the zero vector. */
  function Iterate(a: Mat, b: Vec, k: nat): (x: Vec)
    requires Ready(a, b)
    ensures |x| == |a|
  {
    if k == 0 then Zeros(|a|) else SweepFrom(a, b, Iterate(a, b, k - 1), 0)
  }

  /** The error the solver measures in pass k. */
  function Error(a: Mat, b: Vec, k: nat): real
    requires Ready(a, b) && 1 <= k
  {
    SweepErrorFrom(a, b, Iterate(a, b, k - 1), 0)
  }

  /** The errors of all passes, as the termination rule reads them; there
      is no pass 0. */
  function Errors(a: Mat, b: Vec): nat -> real
    requires Ready(a, b)
  {
    (k: nat) => if k == 0 then 0.0 else Error(a, b, k)
  }

  /** The sweep works in place: components before i keep their values, and
      every component k from i on is computed from the vector holding the
      new values before k and the values the sweep started with from k on. */
  lemma {:induction false} SweepInPlace(a: Mat, b: Vec, x: Vec, i: nat)
    requires Ready(a, b) && |x| == |a| && i <= |a|
    ensures var y := SweepFrom(a, b, x, i);
      (forall k :: 0 <= k < i ==> y[k] == x[k]) &&
      (forall k :: i <= k < |a| ==> y[k] == Component(a, b, y[..k] + x[k..], k))
    decreases |a| - i
  {
    if i < |a| {
      var c := Component(a, b, x, i);
      var x1 := x[i := c];
      var y := SweepFrom(a, b, x1, i + 1);
      SweepInPlace(a, b, x1, i + 1);
      assert y[..i] + x[i..] == x;
      assert forall k :: i < k <= |a| ==> x1[k..] == x[k..];
    }
  }

  /** The error of a sweep is never negative. */
  lemma {:induction false} SweepErrorNonnegative(a: Mat, b: Vec, x: Vec, i: nat)
    requires Ready(a, b) && |x| == |a| && i <= |a|
    ensures 0.0 <= SweepErrorFrom(a, b, x, i)
    decreases |a| - i
  {
    if i < |a| {
      SweepErrorNonnegative(a, b, x[i := Component(a, b, x, i)], i + 1);
    }
  }

  /** The error of a sweep is zero exactly when the sweep changes nothing. */
  lemma {:induction false} SweepErrorZero(a: Mat, b: Vec, x: Vec, i: nat)
    requires Ready(a, b) && |x| == |a| && i <= |a|
    ensures SweepErrorFrom(a, b, x, i) == 0.0 <==> SweepFrom(a, b, x, i) == x
    decreases |a| - i
  {
    if i < |a| {
      var c := Component(a, b, x, i);
      var x1 := x[i := c];
      SweepErrorZero(a, b, x1, i + 1);
      SweepErrorNonnegative(a, b, x1, i + 1);
      SweepInPlace(a, b, x1, i + 1);
      if SweepFrom(a, b, x, i) == x {
        assert SweepFrom(a, b, x1, i + 1)[i] == x1[i];
        assert x1 == x;
      }
      if SweepErrorFrom(a, b, x, i) == 0.0 {
        assert x1 == x;
      }
    }
  }

  /** A vector is a fixed point of the sweep exactly when it solves the
      system. */
  lemma FixedPointSolves(a: Mat, b: Vec, x: Vec)
    requires Ready(a, b) && |x| == |a|
    ensures SweepFrom(a, b, x, 0) == x <==> Solves(a, b, x)
  {
    if Solves(a, b, x) {
      SolutionSweepsTo(a, b, x, 0);
    }
    if SweepFrom(a, b, x, 0) == x {
      SweepInPlace(a, b, x, 0);
      forall k | 0 <= k < |a|
        ensures Dot(a[k], x) == b[k]
      {
        assert x[..k] + x[k..] == x;
        ComponentFixed(a, b, x, k);
      }
    }
  }

  /** A solution is left unchanged by the rest of a sweep. */
  lemma {:induction false} SolutionSweepsTo(a: Mat, b: Vec, x: Vec, i: nat)
    requires Ready(a, b) && |x| == |a| && i <= |a| && Solves(a, b, x)
    ensures SweepFrom(a, b, x, i) == x
    decreases |a| - i
  {
    if i < |a| {
      ComponentFixed(a, b, x, i);
      assert x[i := Component(a, b, x, i)] == x;
      SolutionSweepsTo(a, b, x, i + 1);
    }
  }

  /** The measured error is zero exactly when the pass changed nothing,
      and then the previous iterate, which equals the new one, solves the
      system. */
  lemma ZeroErrorSolves(a: Mat, b: Vec, k: nat)
    requires Ready(a, b) && 1 <= k
    ensures 0.0 <= Error(a, b, k)
    ensures Error(a, b, k) == 0.0 <==> Iterate(a, b, k) == Iterate(a, b, k - 1)
    ensures Error(a, b, k) == 0.0 <==> Solves(a, b, Iterate(a, b, k - 1))
    ensures Error(a, b, k) == 0.0 ==> Solves(a, b, Iterate(a, b, k))
  {
    SweepErrorNonnegative(a, b, Iterate(a, b, k - 1), 0);
    SweepErrorZero(a, b, Iterate(a, b, k - 1), 0);
    FixedPointSolves(a, b, Iterate(a, b, k - 1));
  }

  /** With tolerance 0, a converged answer solves the system, so its
      residual is 0. */
  lemma ExactConvergence(a: Mat, b: Vec, maxIterations: int)
    requires Ready(a, b) && Passes(Errors(a, b), 0.0, maxIterations) <= maxIterations
    ensures Solves(a, b, Iterate(a, b, Passes(Errors(a, b), 0.0, maxIterations)))
    ensures |b| == |a| ==> Residual(a, b, Iterate(a, b, Passes(Errors(a, b), 0.0, maxIterations))) == 0.0
  {
    var s := Passes(Errors(a, b), 0.0, maxIterations);
    PassesBounds(Errors(a, b), 0.0, maxIterations);
    ZeroErrorSolves(a, b, s);
    if |b| == |a| {
      SolvesIffResidualZero(a, b, Iterate(a, b, s));
    }
  }

  /** A system the zero vector already solves stops after one pass, with
      the zero vector as its answer. */
  lemma ZeroSolutionStopsAtOnce(a: Mat, b: Vec, tol: real, maxIterations: int)
    requires Ready(a, b) && Solves(a, b, Zeros(|a|)) && 0.0 <= tol
    ensures Passes(Errors(a, b), tol, maxIterations) == 1
    ensures Iterate(a, b, 1) == Zeros(|a|)
  {
    FixedPointSolves(a, b, Zeros(|a|));
    ZeroErrorSolves(a, b, 1);
  }

  class GaussSeidelSolver {
    /** The inherited LinearSolver state. */
    const base: LinearSolver

    constructor ()
      ensures fresh(base)
      ensures base.iterations == 0 && base.computationTime == 0
      ensures base.maxIterations == DefaultMaxIterations && base.tolerance == DefaultTolerance
    {
      base := new LinearSolver();
    }

    /** The body of the inner loop: component i recomputed from the current
        x and written back; returns the size of the change. */
    static method Relax(system: LinearSystem, x: Vector, i: nat, ghost a: Mat, ghost b: Vec)
      returns (change: real)
      requires system.Valid() && x.Valid()
      requires system.A.Elements() == a && system.b.Items() == b && Ready(a, b)
      requires x.Size() == system.A.rows == system.A.cols && i < x.Size()
      requires x.m.data != system.A.data && x.m.data != system.b.m.data
      modifies x.m.data
      ensures x.Items() == old(x.Items())[i := Component(a, b, old(x.Items()), i)]
      ensures change == Abs(Component(a, b, old(x.Items()), i) - old(x.Items())[i])
    {
      var sum := OffDiagonalSum(system.A, x, i);
      var xNew := (system.b.Get(i) - sum) / system.A.Get(i, i);
      change := Abs(xNew - x.Get(i));
      x.Set(i, xNew);
    }

    /** One pass: each component in turn is recomputed from the current x
        and written back into x; the changes are summed into the error. */
    static method Sweep(system: LinearSystem, x: Vector, ghost a: Mat, ghost b: Vec) returns (error: real)
      requires system.Valid() && x.Valid()
      requires system.A.Elements() == a && system.b.Items() == b && Ready(a, b)
      requires x.Size() == system.A.rows == system.A.cols
      requires x.m.data != system.A.data && x.m.data != system.b.m.data
      modifies x.m.data
      ensures x.Items() == SweepFrom(a, b, old(x.Items()), 0)
      ensures error == SweepErrorFrom(a, b, old(x.Items()), 0)
    {
      ghost var x0 := x.Items();
      var n := system.A.rows;
      error := 0.0;
      var i := 0;
      while i < n
        invariant 0 <= i <= n && x.Valid() && x.Size() == n
        invariant system.A.Elements() == a && system.b.Items() == b
        invariant SweepFrom(a, b, x.Items(), i) == SweepFrom(a, b, x0, 0)
        invariant error + SweepErrorFrom(a, b, x.Items(), i) == SweepErrorFrom(a, b, x0, 0)
      {
        var change := Relax(system, x, i, a, b);
        error := error + change;
        i := i + 1;
      }
    }

    /** One loop iteration before the checks: pass k sweeps iterate k - 1
        into iterate k in place and measures its error. */
    static method Advance(system: LinearSystem, x: Vector, ghost a: Mat, ghost b: Vec, ghost k: nat)
      returns (error: real)
      requires system.Valid() && x.Valid() && 1 <= k
      requires system.A.Elements() == a && system.b.Items() == b && Ready(a, b)
      requires x.Size() == system.A.rows == system.A.cols
      requires x.m.data != system.A.data && x.m.data != system.b.m.data
      requires x.Items() == Iterate(a, b, k - 1)
      modifies x.m.data
      ensures x.Items() == Iterate(a, b, k) && error == Error(a, b, k)
    {
      error := Sweep(system, x, a, b);
    }

    /** solve: rejects a non-square system; otherwise sweeps from the zero
        vector until the error is within the tolerance or the pass limit is
        exceeded. The limit case returns the last iterate with the error in
        the residual slot; convergence returns it with the residual on the
        system. `elapsed` stands for the clock reading. */
    method Solve(system: LinearSystem, elapsed: int) returns (r: Outcome<Result>)
      requires system.Valid()
      requires system.A.rows == system.A.cols ==> Ready(system.A.Elements(), system.b.Items())
      modifies base
      ensures base.tolerance == old(base.tolerance) && base.maxIterations == old(base.maxIterations)
      ensures system.A.rows != system.A.cols ==>
        r == Thrown("Matrix must be square for this solver") && unchanged(base)
      ensures system.A.rows == system.A.cols ==>
        var a, b := system.A.Elements(), system.b.Items();
        var k := Passes(Errors(a, b), base.tolerance, base.maxIterations);
        base.iterations == k && base.computationTime == elapsed &&
        (base.maxIterations < k ==>
          r.Ok? && fresh(r.value) && r.value.solution != null && r.value.solution.Valid() &&
          r.value.solution.Items() == Iterate(a, b, k) &&
          r.value.message == "Maximum iterations reached" && r.value.iterations == k &&
          r.value.computationTime == elapsed && r.value.residual == Error(a, b, k)) &&
        (k <= base.maxIterations && |b| != |a| ==>
          r == Thrown("Vector sizes don't match for subtraction")) &&
        (k <= base.maxIterations && |b| == |a| ==>
          r.Ok? && fresh(r.value) && r.value.solution != null && r.value.solution.Valid() &&
          r.value.solution.Items() == Iterate(a, b, k) &&
          r.value.message == "Converged" && r.value.iterations == k &&
          r.value.computationTime == elapsed && r.value.residual == Residual(a, b, Iterate(a, b, k)))
    {
      var check := base.ValidateSystem(system);
      if check.Thrown? {
        return Thrown(check.message);
      }
      var x, error := RunPasses(system);
      base.computationTime := elapsed;
      if base.iterations > base.maxIterations {
        var res := new Result(x, "Maximum iterations reached", base.iterations, elapsed, error);
        return Ok(res);
      }
      var residual := base.CalculateResidual(system, x);
      if residual.Thrown? {
        return Thrown(residual.message);
      }
      var res := new Result(x, "Converged", base.iterations, elapsed, residual.value);
      return Ok(res);
    }

    /** The do-while loop of solve: sweeps of x from the zero vector,
        counted in `iterations`, until a pass exceeds the limit or has an
        error within the tolerance. Returns x and the last error. */
    method RunPasses(system: LinearSystem) returns (x: Vector, error: real)
      requires system.Valid() && system.A.rows == system.A.cols
      requires Ready(system.A.Elements(), system.b.Items())
      modifies base
      ensures base.tolerance == old(base.tolerance) && base.maxIterations == old(base.maxIterations)
      ensures base.computationTime == old(base.computationTime)
      ensures var a, b := system.A.Elements(), system.b.Items();
        var k := Passes(Errors(a, b), base.tolerance, base.maxIterations);
        base.iterations == k && fresh(x.m) && fresh(x.m.data) && x.Valid() &&
        x.Items() == Iterate(a, b, k) && error == Error(a, b, k)
    {
      ghost var a, b := system.A.Elements(), system.b.Items();
      ghost var tol, maxIterations := base.tolerance, base.maxIterations;
      ghost var passes := Passes(Errors(a, b), tol, maxIterations);
      var n := system.Size();
      x := new Vector(n);
      base.iterations := 0;
      ghost var k: nat := 0;
      while true
        invariant x.Valid() && x.Size() == n && fresh(x.m) && fresh(x.m.data)
        invariant base.tolerance == tol && base.maxIterations == maxIterations
        invariant base.computationTime == old(base.computationTime)
        invariant system.A.Elements() == a && system.b.Items() == b
        invariant base.iterations == k < passes
        invariant x.Items() == Iterate(a, b, k)
        decreases passes - k
      {
        error := Advance(system, x, a, b, k + 1);
        k := k + 1;
        base.iterations := base.iterations + 1;
        PassOutcome(Errors(a, b), tol, maxIterations, k, error);
        if base.iterations > base.maxIterations {
          return;
        }
        if error <= base.tolerance {
          return;
        }
      }
    }
  }
}
