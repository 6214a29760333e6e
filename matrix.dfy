/** Matrix.java: a dense rows x cols matrix of doubles, updated in place by
    `set` and copied into fresh storage by every structural operation. */
module Matrices {
  import opened LinearAlgebra
  import opened Wrappers

  /** The entries of a two-dimensional array, row by row. */
  ghost function Contents(d: array2<real>): (m: Mat)
    reads d
    ensures IsMatrix(m, d.Length0, d.Length1)
    ensures forall i, j :: 0 <= i < d.Length0 && 0 <= j < d.Length1 ==> m[i][j] == d[i, j]
  {
    seq(d.Length0, i requires 0 <= i < d.Length0 reads d =>
      seq(d.Length1, j requires 0 <= j < d.Length1 reads d => d[i, j]))
  }

  class Matrix {
    const rows: nat
    const cols: nat
    /** The backing `double[][] data`; never reassigned, only written into. */
    const data: array2<real>

    ghost predicate Valid()
    {
      data.Length0 == rows && data.Length1 == cols
    }

    /** The abstract value: the rows of the matrix. */
    ghost function Elements(): (m: Mat)
      reads data
      requires Valid()
      ensures IsMatrix(m, rows, cols)
    {
      Contents(data)
    }

    /** new Matrix(rows, cols): every entry is 0. */
    constructor (r: nat, c: nat)
      ensures Valid() && rows == r && cols == c && fresh(data)
      ensures Elements() == ZeroMatrix(r, c)
    {
      rows, cols := r, c;
      data := new real[r, c]((_, _) => 0.0);
      new;
      MatrixEquality(Contents(data), ZeroMatrix(r, c), r, c);
    }

    /** new Matrix(double[][] data): copies every row of `d` (the source reads
        `d[0]` for the column count, so `d` must have a row). */
    constructor FromArray(d: array2<real>)
      requires 0 < d.Length0
      ensures Valid() && rows == d.Length0 && cols == d.Length1 && fresh(data)
      ensures Elements() == Contents(d)
    {
      rows, cols := d.Length0, d.Length1;
      data := new real[d.Length0, d.Length1];
      new;
      var i := 0;
      while i < rows
        invariant 0 <= i <= rows
        invariant forall r, c :: 0 <= r < i && 0 <= c < cols ==> data[r, c] == d[r, c]
      {
        var j := 0;
        while j < cols
          invariant 0 <= j <= cols
          invariant forall r, c :: 0 <= r < i && 0 <= c < cols ==> data[r, c] == d[r, c]
          invariant forall c :: 0 <= c < j ==> data[i, c] == d[i, c]
        {
          data[i, j] := d[i, j];
          j := j + 1;
        }
        i := i + 1;
      }
      MatrixEquality(Contents(data), Contents(d), rows, cols);
    }

    function Get(i: nat, j: nat): (v: real)
      reads data
      requires Valid() && i < rows && j < cols
      ensures v == Elements()[i][j]
    {
      data[i, j]
    }

    /** Overwrites entry (i, j) and nothing else. */
    method Set(i: nat, j: nat, v: real)
      requires Valid() && i < rows && j < cols
      modifies data
      ensures Elements() == old(Elements())[i := old(Elements())[i][j := v]]
    {
      ghost var before := Elements();
      data[i, j] := v;
      MatrixEquality(Elements(), before[i := before[i][j := v]], rows, cols);
    }

    /** A matrix with the same entries in fresh storage. */
    method Copy() returns (r: Matrix)
      requires Valid() && 0 < rows
      ensures fresh(r) && fresh(r.data) && r.Valid()
      ensures r.rows == rows && r.cols == cols && r.Elements() == Elements()
    {
      r := new Matrix.FromArray(data);
    }

    method Transpose() returns (r: Matrix)
      requires Valid()
      ensures fresh(r) && fresh(r.data) && r.Valid()
      ensures r.rows == cols && r.cols == rows
      ensures r.Elements() == LinearAlgebra.Transpose(Elements(), rows, cols)
    {
      r := new Matrix(cols, rows);
      var i := 0;
      while i < rows
        invariant 0 <= i <= rows
        invariant forall a, b :: 0 <= a < cols && 0 <= b < rows ==>
          r.data[a, b] == if b < i then data[b, a] else 0.0
      {
        var j := 0;
        while j < cols
          invariant 0 <= j <= cols
          invariant forall a, b :: 0 <= a < cols && 0 <= b < rows ==>
            r.data[a, b] == if b < i || (b == i && a < j) then data[b, a] else 0.0
        {
          r.data[j, i] := data[i, j];
          j := j + 1;
        }
        i := i + 1;
      }
      MatrixEquality(r.Elements(), LinearAlgebra.Transpose(Elements(), rows, cols), cols, rows);
    }

    /** The innermost loop of multiply: row i of this times column j of
        other. */
    method RowTimesColumn(other: Matrix, i: nat, j: nat) returns (sum: real)
      requires Valid() && other.Valid() && cols == other.rows && i < rows && j < other.cols
      ensures sum == Dot(Elements()[i], Column(other.Elements(), j))
    {
      ghost var row, column := Elements()[i], Column(other.Elements(), j);
      sum := 0.0;
      var k := 0;
      while k < cols
        invariant 0 <= k <= cols
        invariant sum == SumRange(row, column, 0, k)
      {
        sum := sum + data[i, k] * other.data[k, j];
        k := k + 1;
      }
    }

    /** this * other; throws unless this.cols == other.rows. */
    method Multiply(other: Matrix) returns (r: Outcome<Matrix>)
      requires Valid() && other.Valid()
      ensures r.Thrown? <==> cols != other.rows
      ensures r.Thrown? ==> r.message == "Matrix dimensions don't match for multiplication"
      ensures r.Ok? ==> fresh(r.value) && fresh(r.value.data) && r.value.Valid()
      ensures r.Ok? ==> r.value.rows == rows && r.value.cols == other.cols
      ensures r.Ok? ==> r.value.Elements() == MatMul(Elements(), other.Elements(), rows, cols, other.cols)
    {
      if cols != other.rows {
        return Thrown("Matrix dimensions don't match for multiplication");
      }
      ghost var a, b := Elements(), other.Elements();
      ghost var p := MatMul(a, b, rows, cols, other.cols);
      var result := new Matrix(rows, other.cols);
      var i := 0;
      while i < rows
        invariant 0 <= i <= rows
        invariant forall x, y :: 0 <= x < rows && 0 <= y < other.cols ==>
          result.data[x, y] == if x < i then p[x][y] else 0.0
      {
        var j := 0;
        while j < other.cols
          invariant 0 <= j <= other.cols
          invariant forall x, y :: 0 <= x < rows && 0 <= y < other.cols ==>
            result.data[x, y] == if x < i || (x == i && y < j) then p[x][y] else 0.0
        {
          var sum := RowTimesColumn(other, i, j);
          result.data[i, j] := sum;
          j := j + 1;
        }
        i := i + 1;
      }
      MatrixEquality(result.Elements(), p, rows, other.cols);
      return Ok(result);
    }

    /** Entrywise this + other; throws unless the shapes are equal. */
    method Add(other: Matrix) returns (r: Outcome<Matrix>)
      requires Valid() && other.Valid()
      ensures r.Thrown? <==> rows != other.rows || cols != other.cols
      ensures r.Thrown? ==> r.message == "Matrix dimensions don't match for addition"
      ensures r.Ok? ==> fresh(r.value) && fresh(r.value.data) && r.value.Valid()
      ensures r.Ok? ==> r.value.rows == rows && r.value.cols == cols
      ensures r.Ok? ==> r.value.Elements() == MatAdd(Elements(), other.Elements(), rows, cols)
    {
      if rows != other.rows || cols != other.cols {
        return Thrown("Matrix dimensions don't match for addition");
      }
      ghost var s := MatAdd(Elements(), other.Elements(), rows, cols);
      var result := new Matrix(rows, cols);
      var i := 0;
      while i < rows
        invariant 0 <= i <= rows
        invariant forall x, y :: 0 <= x < rows && 0 <= y < cols ==>
          result.data[x, y] == if x < i then s[x][y] else 0.0
      {
        var j := 0;
        while j < cols
          invariant 0 <= j <= cols
          invariant forall x, y :: 0 <= x < rows && 0 <= y < cols ==>
            result.data[x, y] == if x < i || (x == i && y < j) then s[x][y] else 0.0
        {
          result.data[i, j] := data[i, j] + other.data[i, j];
          j := j + 1;
        }
        i := i + 1;
      }
      MatrixEquality(result.Elements(), s, rows, cols);
      return Ok(result);
    }
  }

  /** Matrix.identity(size). */
  method Identity(size: nat) returns (r: Matrix)
    ensures fresh(r) && fresh(r.data) && r.Valid()
    ensures r.rows == size && r.cols == size
    ensures r.Elements() == LinearAlgebra.Identity(size)
  {
    r := new Matrix(size, size);
    var i := 0;
    while i < size
      invariant 0 <= i <= size
      invariant forall x, y :: 0 <= x < size && 0 <= y < size ==>
        r.data[x, y] == if x == y && x < i then 1.0 else 0.0
    {
      r.data[i, i] := 1.0;
      i := i + 1;
    }
    MatrixEquality(r.Elements(), LinearAlgebra.Identity(size), size, size);
  }
}
