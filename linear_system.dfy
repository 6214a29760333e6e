/** LinearSystem.java: the pair (A, b) of a system A x = b. The objects the
    caller passes in are stored as they are, not copied. */
module Systems {
  import opened Wrappers
  import opened Matrices
  import opened Vectors

  class LinearSystem {
    var A: Matrix
    var b: Vector

    ghost predicate Valid()
      reads this
    {
      A.Valid() && b.Valid()
    }

    /** The invariant the constructor checks: one equation per entry of b.
        `SetA` and `SetB` do not re-establish it. */
    predicate Consistent()
      reads this
    {
      A.rows == b.m.rows
    }

    /** getSize(): the number of rows of A. */
    function Size(): nat
      reads this
    {
      A.rows
    }

    /** The non-throwing path of `new LinearSystem(A, b)`. */
    constructor (a: Matrix, v: Vector)
      requires a.rows == v.m.rows
      ensures A == a && b == v && Consistent()
    {
      A, b := a, v;
    }

    /** setA: replaces A without checking it against b. */
    method SetA(a: Matrix)
      modifies this
      ensures A == a && b == old(b)
    {
      A := a;
    }

    /** setB: replaces b without checking it against A. */
    method SetB(v: Vector)
      modifies this
      ensures b == v && A == old(A)
    {
      b := v;
    }
  }

  /** `new LinearSystem(A, b)`: throws unless A has one row per entry of b;
      otherwise keeps exactly the objects it was given. */
  method Create(a: Matrix, v: Vector) returns (r: Outcome<LinearSystem>)
    ensures r.Thrown? <==> a.rows != v.m.rows
    ensures r.Thrown? ==> r.message == "Matrix A and vector b have incompatible dimensions"
    ensures r.Ok? ==> fresh(r.value) && r.value.A == a && r.value.b == v
    ensures r.Ok? ==> r.value.Consistent() && r.value.Size() == a.rows
  {
    if a.rows != v.m.rows {
      return Thrown("Matrix A and vector b have incompatible dimensions");
    }
    var system := new LinearSystem(a, v);
    return Ok(system);
  }
}
