/** The termination rule shared by the iterative solvers (JacobiSolver.java
    and GaussSeidelSolver.java). Passes are counted from 1; after pass k the
    loop ends when k exceeds maxIterations, and otherwise when the pass's
    error err(k) is within the tolerance. */
module Stopping {

  /** Pass k ends the loop. */
  predicate Stops(err: nat -> real, tol: real, maxIterations: int, k: nat)
  {
    maxIterations < k || err(k) <= tol
  }

  /** The first pass from k on that ends the loop; the pass limit bounds
      the search. */
  function StopFrom(err: nat -> real, tol: real, maxIterations: int, k: nat): (s: nat)
    requires 1 <= k
    ensures k <= s <= if maxIterations < k then k else maxIterations + 1
    decreases if maxIterations < k then 0 else maxIterations + 1 - k
  {
    if Stops(err, tol, maxIterations, k) then k else StopFrom(err, tol, maxIterations, k + 1)
  }

  /** StopFrom finds a pass that ends the loop, and no earlier one from k
      on does. */
  lemma {:induction false} StopFromFirst(err: nat -> real, tol: real, maxIterations: int, k: nat)
    requires 1 <= k
    ensures Stops(err, tol, maxIterations, StopFrom(err, tol, maxIterations, k))
    ensures forall j :: k <= j < StopFrom(err, tol, maxIterations, k) ==> !Stops(err, tol, maxIterations, j)
    decreases if maxIterations < k then 0 else maxIterations + 1 - k
  {
    if !Stops(err, tol, maxIterations, k) {
      StopFromFirst(err, tol, maxIterations, k + 1);
    }
  }

  /** The number of passes a solver makes. */
  function Passes(err: nat -> real, tol: real, maxIterations: int): (s: nat)
    ensures 1 <= s
  {
    StopFrom(err, tol, maxIterations, 1)
  }

  /** The pass count is at least 1 and at most maxIterations + 1; the pass
      limit ends the loop exactly at that bound, and otherwise the last
      error is within the tolerance. */
  lemma PassesBounds(err: nat -> real, tol: real, maxIterations: int)
    ensures var s := Passes(err, tol, maxIterations);
      1 <= s && (0 <= maxIterations ==> s <= maxIterations + 1) &&
      (maxIterations < s <==> s == if maxIterations < 0 then 1 else maxIterations + 1) &&
      (s <= maxIterations ==> err(s) <= tol)
  {
    StopFromFirst(err, tol, maxIterations, 1);
  }

  /** Every pass before the last one is within the pass limit and misses
      the tolerance. */
  lemma EarlierPassesContinue(err: nat -> real, tol: real, maxIterations: int, j: nat)
    requires 1 <= j < Passes(err, tol, maxIterations)
    ensures j <= maxIterations && tol < err(j)
  {
    StopFromFirst(err, tol, maxIterations, 1);
    assert !Stops(err, tol, maxIterations, j);
  }

  /** Pass k, not beyond the pass count, with error e ends the loop
      exactly when it is the last pass. */
  lemma PassOutcome(err: nat -> real, tol: real, maxIterations: int, k: nat, e: real)
    requires 1 <= k <= Passes(err, tol, maxIterations) && e == err(k)
    ensures maxIterations < k || e <= tol <==> k == Passes(err, tol, maxIterations)
  {
    StopFromFirst(err, tol, maxIterations, 1);
    assert Stops(err, tol, maxIterations, k) <==> maxIterations < k || e <= tol;
  }
}
