/** Vector.java: a vector of size n, stored as an n x 1 Matrix. The Java
    class extends Matrix; here a Vector owns the n x 1 Matrix `m` that holds
    its entries, and every operation addresses column 0 of it. */
module Vectors {
  import opened LinearAlgebra
  import opened Wrappers
  import opened Matrices

  class Vector {
    /** The inherited n x 1 matrix. */
    const m: Matrix

    ghost predicate Valid()
    {
      m.Valid() && m.cols == 1
    }

    /** The abstract value: the entries of column 0. */
    ghost function Items(): (v: Vec)
      reads m.data
      requires Valid()
      ensures |v| == m.rows
    {
      seq(m.rows, i requires 0 <= i < m.rows reads m.data => m.data[i, 0])
    }

    /** The entries are the n x 1 matrix read as a column. */
    lemma ItemsAreColumn()
      requires Valid()
      ensures ColumnMatrix(Items()) == m.Elements()
    {
      MatrixEquality(ColumnMatrix(Items()), m.Elements(), m.rows, 1);
    }

    /** new Vector(size): `size` zeros. */
    constructor (size: nat)
      ensures Valid() && fresh(m) && fresh(m.data)
      ensures Items() == Zeros(size)
    {
      m := new Matrix(size, 1);
    }

    /** new Vector(double[] data): copies `a` entry by entry. */
    constructor OfArray(a: array<real>)
      ensures Valid() && fresh(m) && fresh(m.data)
      ensures Items() == a[..]
    {
      m := new Matrix(a.Length, 1);
      new;
      var i := 0;
      while i < a.Length
        invariant 0 <= i <= a.Length
        invariant forall k :: 0 <= k < i ==> m.data[k, 0] == a[k]
      {
        m.data[i, 0] := a[i];
        i := i + 1;
      }
    }

    function Size(): (n: nat)
      requires Valid()
      reads m.data
      ensures n == |Items()|
    {
      m.rows
    }

    function Get(i: nat): (v: real)
      reads m.data
      requires Valid() && i < m.rows
      ensures v == Items()[i]
    {
      m.data[i, 0]
    }

    /** Overwrites entry i of column 0 and nothing else. */
    method Set(i: nat, v: real)
      requires Valid() && i < m.rows
      modifies m.data
      ensures Items() == old(Items())[i := v]
    {
      m.data[i, 0] := v;
    }

    /** Sum of this[i] * other[i]; throws on a size mismatch. */
    method DotProduct(other: Vector) returns (r: Outcome<real>)
      requires Valid() && other.Valid()
      ensures r.Thrown? <==> Size() != other.Size()
      ensures r.Thrown? ==> r.message == "Vector sizes don't match"
      ensures r.Ok? ==> r.value == Dot(Items(), other.Items())
    {
      if m.rows != other.m.rows {
        return Thrown("Vector sizes don't match");
      }
      ghost var u, v := Items(), other.Items();
      var sum := 0.0;
      var i := 0;
      while i < m.rows
        invariant 0 <= i <= m.rows
        invariant sum == SumRange(u, v, 0, i)
      {
        sum := sum + m.data[i, 0] * other.m.data[i, 0];
        i := i + 1;
      }
      return Ok(sum);
    }

    /** sqrt(this . this); the dot product of a vector with itself never throws. */
    method Norm() returns (r: real)
      requires Valid()
      ensures r == LinearAlgebra.Norm(Items())
    {
      var d := DotProduct(this);
      r := Sqrt(d.value);
    }

    /** Elementwise sum; throws on a size mismatch. */
    method Add(other: Vector) returns (r: Outcome<Vector>)
      requires Valid() && other.Valid()
      ensures r.Thrown? <==> Size() != other.Size()
      ensures r.Thrown? ==> r.message == "Vector sizes don't match for addition"
      ensures r.Ok? ==> fresh(r.value.m) && fresh(r.value.m.data) && r.value.Valid()
      ensures r.Ok? ==> r.value.Items() == VecAdd(Items(), other.Items())
    {
      if m.rows != other.m.rows {
        return Thrown("Vector sizes don't match for addition");
      }
      var result := new Vector(m.rows);
      var i := 0;
      while i < m.rows
        invariant 0 <= i <= m.rows
        invariant forall k :: 0 <= k < i ==> result.m.data[k, 0] == m.data[k, 0] + other.m.data[k, 0]
      {
        result.m.data[i, 0] := m.data[i, 0] + other.m.data[i, 0];
        i := i + 1;
      }
      return Ok(result);
    }

    /** Elementwise difference; throws on a size mismatch. */
    method Subtract(other: Vector) returns (r: Outcome<Vector>)
      requires Valid() && other.Valid()
      ensures r.Thrown? <==> Size() != other.Size()
      ensures r.Thrown? ==> r.message == "Vector sizes don't match for subtraction"
      ensures r.Ok? ==> fresh(r.value.m) && fresh(r.value.m.data) && r.value.Valid()
      ensures r.Ok? ==> r.value.Items() == VecSub(Items(), other.Items())
    {
      if m.rows != other.m.rows {
        return Thrown("Vector sizes don't match for subtraction");
      }
      var result := new Vector(m.rows);
      var i := 0;
      while i < m.rows
        invariant 0 <= i <= m.rows
        invariant forall k :: 0 <= k < i ==> result.m.data[k, 0] == m.data[k, 0] - other.m.data[k, 0]
      {
        result.m.data[i, 0] := m.data[i, 0] - other.m.data[i, 0];
        i := i + 1;
      }
      return Ok(result);
    }

    /** Every entry times `scalar`. */
    method Multiply(scalar: real) returns (r: Vector)
      requires Valid()
      ensures fresh(r.m) && fresh(r.m.data) && r.Valid()
      ensures r.Items() == VecScale(Items(), scalar)
    {
      r := new Vector(m.rows);
      var i := 0;
      while i < m.rows
        invariant 0 <= i <= m.rows
        invariant forall k :: 0 <= k < i ==> r.m.data[k, 0] == m.data[k, 0] * scalar
      {
        r.m.data[i, 0] := m.data[i, 0] * scalar;
        i := i + 1;
      }
      assert forall k :: 0 <= k < m.rows ==> r.Items()[k] == VecScale(Items(), scalar)[k];
    }

    /** The entries in a fresh array. */
    method ToArray() returns (a: array<real>)
      requires Valid()
      ensures fresh(a) && a[..] == Items()
    {
      a := new real[m.rows];
      var i := 0;
      while i < m.rows
        invariant 0 <= i <= m.rows
        invariant forall k :: 0 <= k < i ==> a[k] == m.data[k, 0]
      {
        a[i] := m.data[i, 0];
        i := i + 1;
      }
    }
  }

  /** Vector.fromArray(data). */
  method FromArray(a: array<real>) returns (v: Vector)
    ensures fresh(v.m) && fresh(v.m.data) && v.Valid()
    ensures v.Items() == a[..]
  {
    v := new Vector.OfArray(a);
  }

  /** fromArray(toArray()) reproduces a vector entry by entry, in storage
      shared with neither the original nor the intermediate array. */
  method CopyThroughArray(v: Vector) returns (w: Vector)
    requires v.Valid()
    ensures fresh(w.m) && fresh(w.m.data) && w.Valid()
    ensures w.Items() == v.Items()
  {
    var a := v.ToArray();
    w := FromArray(a);
  }
}
