/** Exact real-valued reference definitions of the algebra that Matrix and
    Vector implement with loops: sums of products, dot product, norm,
    matrix product, transpose, sums and differences. Every value a Java
    `double` holds is modelled as a `real`. */
module LinearAlgebra {

  type Vec = seq<real>
  type Mat = seq<seq<real>>

  function Abs(x: real): (r: real)
    ensures 0.0 <= r && (r == x || r == -x)
  {
    if x < 0.0 then -x else x
  }

  /** The only facts about `Math.sqrt` the model relies on: it is nonnegative
      on nonnegative arguments and is zero exactly at zero. */
  type SqrtFunction = f: real -> real
    | forall x :: 0.0 <= x ==> 0.0 <= f(x) && (f(x) == 0.0 <==> x == 0.0)
    witness (x: real) => if x < 0.0 then 0.0 else x

  /** `Math.sqrt`, left uninterpreted beyond the facts above. */
  const Sqrt: SqrtFunction

  /** m has r rows of c entries each. */
  predicate IsMatrix(m: Mat, r: nat, c: nat)
  {
    |m| == r && forall i :: 0 <= i < r ==> |m[i]| == c
  }

  predicate IsSquare(m: Mat)
  {
    IsMatrix(m, |m|, |m|)
  }

  function Zeros(n: nat): (v: Vec)
  {
    seq(n, _ => 0.0)
  }

  function ZeroMatrix(r: nat, c: nat): (m: Mat)
  {
    seq(r, _ => Zeros(c))
  }

  function Identity(n: nat): (m: Mat)
  {
    seq(n, i => seq(n, j => if i == j then 1.0 else 0.0))
  }

  /** Sum of u[k] * v[k] for lo <= k < hi, accumulated from lo upwards as the
      Java loops do (`sum += u[k] * v[k]`). */
  function SumRange(u: Vec, v: Vec, lo: nat, hi: nat): real
    requires lo <= hi <= |u| && hi <= |v|
    decreases hi - lo
  {
    if hi == lo then 0.0 else SumRange(u, v, lo, hi - 1) + u[hi - 1] * v[hi - 1]
  }

  function Dot(u: Vec, v: Vec): real
    requires |u| == |v|
  {
    SumRange(u, v, 0, |u|)
  }

  /** Euclidean norm, sqrt(v . v). */
  function Norm(v: Vec): real
  {
    Sqrt(Dot(v, v))
  }

  function VecAdd(u: Vec, v: Vec): (w: Vec)
    requires |u| == |v|
  {
    seq(|u|, i requires 0 <= i < |u| => u[i] + v[i])
  }

  function VecSub(u: Vec, v: Vec): (w: Vec)
    requires |u| == |v|
  {
    seq(|u|, i requires 0 <= i < |u| => u[i] - v[i])
  }

  function VecScale(v: Vec, s: real): (w: Vec)
  {
    seq(|v|, i requires 0 <= i < |v| => v[i] * s)
  }

  function Transpose(m: Mat, r: nat, c: nat): (t: Mat)
    requires IsMatrix(m, r, c)
  {
    seq(c, j requires 0 <= j < c => seq(r, i requires 0 <= i < r => m[i][j]))
  }

  function Column(m: Mat, j: nat): (col: Vec)
    requires forall k :: 0 <= k < |m| ==> j < |m[k]|
  {
    seq(|m|, k requires 0 <= k < |m| => m[k][j])
  }

  /** Matrix product of an r x n and an n x c matrix. */
  function MatMul(a: Mat, b: Mat, r: nat, n: nat, c: nat): (p: Mat)
    requires IsMatrix(a, r, n) && IsMatrix(b, n, c)
  {
    seq(r, i requires 0 <= i < r => seq(c, j requires 0 <= j < c => Dot(a[i], Column(b, j))))
  }

  function MatAdd(a: Mat, b: Mat, r: nat, c: nat): (s: Mat)
    requires IsMatrix(a, r, c) && IsMatrix(b, r, c)
  {
    seq(r, i requires 0 <= i < r => VecAdd(a[i], b[i]))
  }

  /** The product A x of a matrix and a vector. */
  function MatVec(a: Mat, x: Vec): (y: Vec)
    requires forall i :: 0 <= i < |a| ==> |a[i]| == |x|
  {
    seq(|a|, i requires 0 <= i < |a| => Dot(a[i], x))
  }

  /** The n x 1 matrix that stores a vector of size n. */
  function ColumnMatrix(x: Vec): (m: Mat)
  {
    seq(|x|, i requires 0 <= i < |x| => [x[i]])
  }

  /** ||A x - b||, the residual of a candidate solution x. */
  function Residual(a: Mat, b: Vec, x: Vec): real
    requires forall i :: 0 <= i < |a| ==> |a[i]| == |x|
    requires |a| == |b|
  {
    Norm(VecSub(MatVec(a, x), b))
  }

  /** Two r x c matrices with the same entries are equal. */
  lemma MatrixEquality(a: Mat, b: Mat, r: nat, c: nat)
    requires IsMatrix(a, r, c) && IsMatrix(b, r, c)
    requires forall i, j :: 0 <= i < r && 0 <= j < c ==> a[i][j] == b[i][j]
    ensures a == b
  {
    forall i | 0 <= i < r
      ensures a[i] == b[i]
    {
      assert |a[i]| == |b[i]|;
    }
  }

  // ---------------------------------------------------------------------
  // Sums of products

  lemma {:induction false} SumRangeSymmetric(u: Vec, v: Vec, lo: nat, hi: nat)
    requires lo <= hi <= |u| && hi <= |v|
    ensures SumRange(u, v, lo, hi) == SumRange(v, u, lo, hi)
    decreases hi - lo
  {
    if hi > lo {
      SumRangeSymmetric(u, v, lo, hi - 1);
    }
  }

  lemma {:induction false} SumRangeSquaresNonnegative(v: Vec, lo: nat, hi: nat)
    requires lo <= hi <= |v|
    ensures 0.0 <= SumRange(v, v, lo, hi)
    decreases hi - lo
  {
    if hi > lo {
      SumRangeSquaresNonnegative(v, lo, hi - 1);
      assert 0.0 <= v[hi - 1] * v[hi - 1];
    }
  }

  /** A product as a function symbol: facts about the square of a number are
      stated over `Product(t, t)`, which the solver handles more reliably than
      the bare square. */
  function Product(a: real, b: real): real
  {
    a * b
  }

  lemma ProductPositive(a: real, b: real)
    requires 0.0 < a && 0.0 < b
    ensures 0.0 < Product(a, b)
  {
  }

  lemma ProductOfNegations(a: real, b: real)
    ensures Product(-a, -b) == Product(a, b)
  {
  }

  /** Adding the square of a nonzero number strictly increases a sum. */
  lemma AddSquare(s: real, t: real)
    ensures t == 0.0 || s < s + Product(t, t)
  {
    if t > 0.0 {
      ProductPositive(t, t);
    } else if t < 0.0 {
      ProductPositive(-t, -t);
      ProductOfNegations(t, t);
    }
  }

  /** A sum of squares vanishes exactly when every term does. */
  lemma {:induction false} SumRangeSquaresZero(v: Vec, lo: nat, hi: nat)
    requires lo <= hi <= |v|
    ensures SumRange(v, v, lo, hi) == 0.0 <==> forall k :: lo <= k < hi ==> v[k] == 0.0
    decreases hi - lo
  {
    if hi > lo {
      var k := hi - 1;
      SumRangeSquaresZero(v, lo, k);
      SumRangeSquaresNonnegative(v, lo, k);
      AddSquare(SumRange(v, v, lo, k), v[k]);
      assert v[k] * v[k] == Product(v[k], v[k]);
    }
  }

  /** Sums over a range only look at that range. */
  lemma {:induction false} SumRangeFrame(u: Vec, v: Vec, u': Vec, v': Vec, lo: nat, hi: nat)
    requires lo <= hi <= |u| && hi <= |v| && hi <= |u'| && hi <= |v'|
    requires forall k :: lo <= k < hi ==> u[k] == u'[k] && v[k] == v'[k]
    ensures SumRange(u, v, lo, hi) == SumRange(u', v', lo, hi)
    decreases hi - lo
  {
    if hi > lo {
      SumRangeFrame(u, v, u', v', lo, hi - 1);
    }
  }

  lemma {:induction false} SumRangeSplit(u: Vec, v: Vec, lo: nat, mid: nat, hi: nat)
    requires lo <= mid <= hi <= |u| && hi <= |v|
    ensures SumRange(u, v, lo, hi) == SumRange(u, v, lo, mid) + SumRange(u, v, mid, hi)
    decreases hi - mid
  {
    if hi > mid {
      SumRangeSplit(u, v, lo, mid, hi - 1);
    }
  }

  /** A range of one index is that index's product. */
  lemma SumRangeSingle(u: Vec, v: Vec, k: nat)
    requires k < |u| && k < |v|
    ensures SumRange(u, v, k, k + 1) == u[k] * v[k]
  {
    assert SumRange(u, v, k, k + 1) == SumRange(u, v, k, k) + u[k] * v[k];
  }

  /** A range where the left factor is zero sums to zero. */
  lemma {:induction false} SumRangeOfZeros(u: Vec, v: Vec, lo: nat, hi: nat)
    requires lo <= hi <= |u| && hi <= |v|
    requires forall k :: lo <= k < hi ==> u[k] == 0.0
    ensures SumRange(u, v, lo, hi) == 0.0
    decreases hi - lo
  {
    if hi > lo {
      SumRangeOfZeros(u, v, lo, hi - 1);
    }
  }

  /** Linearity in the left factor: if p = u - f w on the range, the sums
      relate the same way. */
  lemma {:induction false} SumRangeLinear(p: Vec, u: Vec, w: Vec, f: real, v: Vec, lo: nat, hi: nat)
    requires lo <= hi <= |p| && hi <= |u| && hi <= |w| && hi <= |v|
    requires forall k :: lo <= k < hi ==> p[k] == u[k] - f * w[k]
    ensures SumRange(p, v, lo, hi) == SumRange(u, v, lo, hi) - f * SumRange(w, v, lo, hi)
    decreases hi - lo
  {
    if hi > lo {
      SumRangeLinear(p, u, w, f, v, lo, hi - 1);
      var k := hi - 1;
      calc {
        SumRange(p, v, lo, hi);
        SumRange(p, v, lo, k) + p[k] * v[k];
        SumRange(u, v, lo, k) - f * SumRange(w, v, lo, k) + (u[k] - f * w[k]) * v[k];
        { assert (u[k] - f * w[k]) * v[k] == u[k] * v[k] - f * (w[k] * v[k]); }
        SumRange(u, v, lo, k) + u[k] * v[k] - f * (SumRange(w, v, lo, k) + w[k] * v[k]);
      }
    }
  }

  // ---------------------------------------------------------------------
  // Dot product and norm

  /** v . w == w . v */
  lemma DotSymmetric(u: Vec, v: Vec)
    requires |u| == |v|
    ensures Dot(u, v) == Dot(v, u)
  {
    SumRangeSymmetric(u, v, 0, |u|);
  }

  /** v . v >= 0, and it is 0 exactly for the zero vector. */
  lemma DotSelf(v: Vec)
    ensures 0.0 <= Dot(v, v)
    ensures Dot(v, v) == 0.0 <==> v == Zeros(|v|)
  {
    SumRangeSquaresNonnegative(v, 0, |v|);
    SumRangeSquaresZero(v, 0, |v|);
  }

  /** The norm is nonnegative, and zero exactly for the zero vector. */
  lemma NormProperties(v: Vec)
    ensures 0.0 <= Norm(v)
    ensures Norm(v) == 0.0 <==> v == Zeros(|v|)
  {
    DotSelf(v);
  }

  /** v - v is the zero vector, whose norm is 0. */
  lemma SubtractSelf(v: Vec)
    ensures VecSub(v, v) == Zeros(|v|)
    ensures Norm(VecSub(v, v)) == 0.0
  {
    NormProperties(VecSub(v, v));
  }

  /** The residual is nonnegative, and zero exactly when x solves A x = b. */
  lemma ResidualZero(a: Mat, b: Vec, x: Vec)
    requires forall i :: 0 <= i < |a| ==> |a[i]| == |x|
    requires |a| == |b|
    ensures 0.0 <= Residual(a, b, x)
    ensures Residual(a, b, x) == 0.0 <==> MatVec(a, x) == b
  {
    var d := VecSub(MatVec(a, x), b);
    NormProperties(d);
    if d == Zeros(|d|) {
      assert forall i :: 0 <= i < |b| ==> MatVec(a, x)[i] == d[i] + b[i];
    }
  }

  /** Every equation r of the square system m x = b holds; b may have
      entries beyond the last equation. */
  predicate Solves(m: Mat, b: Vec, x: Vec)
    requires IsSquare(m) && |m| <= |b| && |x| == |m|
  {
    forall r :: 0 <= r < |m| ==> Dot(m[r], x) == b[r]
  }

  /** For a square system with one entry of b per equation, solving it and
      a zero residual are the same thing. */
  lemma SolvesIffResidualZero(a: Mat, b: Vec, x: Vec)
    requires IsSquare(a) && |b| == |a| && |x| == |a|
    ensures Solves(a, b, x) <==> MatVec(a, x) == b
    ensures Solves(a, b, x) <==> Residual(a, b, x) == 0.0
  {
    ResidualZero(a, b, x);
    if MatVec(a, x) == b {
      forall r | 0 <= r < |a|
        ensures Dot(a[r], x) == b[r]
      {
        assert MatVec(a, x)[r] == Dot(a[r], x);
      }
    }
  }

  /** The distance between two vectors is nonnegative and zero exactly when
      they are equal. */
  lemma DistanceZero(u: Vec, v: Vec)
    requires |u| == |v|
    ensures 0.0 <= Norm(VecSub(u, v))
    ensures Norm(VecSub(u, v)) == 0.0 <==> u == v
  {
    NormProperties(VecSub(u, v));
    if VecSub(u, v) == Zeros(|u|) {
      forall i | 0 <= i < |u|
        ensures u[i] == v[i]
      {
        assert VecSub(u, v)[i] == 0.0;
      }
    }
    if u == v {
      SubtractSelf(u);
    }
  }

  // ---------------------------------------------------------------------
  // Matrix algebra

  /** Transposing an r x c matrix gives a c x r matrix, and transposing twice
      gives back the original. */
  lemma TransposeTwice(m: Mat, r: nat, c: nat)
    requires IsMatrix(m, r, c)
    ensures IsMatrix(Transpose(m, r, c), c, r)
    ensures Transpose(Transpose(m, r, c), c, r) == m
  {
    var t := Transpose(Transpose(m, r, c), c, r);
    forall i | 0 <= i < r
      ensures t[i] == m[i]
    {
      assert |t[i]| == |m[i]|;
    }
  }

  /** Entrywise addition is commutative. */
  lemma MatAddCommutes(a: Mat, b: Mat, r: nat, c: nat)
    requires IsMatrix(a, r, c) && IsMatrix(b, r, c)
    ensures MatAdd(a, b, r, c) == MatAdd(b, a, r, c)
  {
    forall i | 0 <= i < r
      ensures MatAdd(a, b, r, c)[i] == MatAdd(b, a, r, c)[i]
    {
      assert VecAdd(a[i], b[i]) == VecAdd(b[i], a[i]);
    }
  }

  /** Multiplying by a vector stored as an n x 1 matrix gives A x, stored as
      an r x 1 matrix. */
  lemma MatMulColumn(a: Mat, x: Vec, r: nat)
    requires IsMatrix(a, r, |x|)
    ensures IsMatrix(ColumnMatrix(x), |x|, 1)
    ensures MatMul(a, ColumnMatrix(x), r, |x|, 1) == ColumnMatrix(MatVec(a, x))
  {
    var p := MatMul(a, ColumnMatrix(x), r, |x|, 1);
    var q := ColumnMatrix(MatVec(a, x));
    assert Column(ColumnMatrix(x), 0) == x;
    forall i | 0 <= i < r
      ensures p[i] == q[i]
    {
      assert p[i][0] == Dot(a[i], x);
    }
  }

  /** The identity matrix is the unit of the product. */
  lemma {:induction false} IdentityTimes(x: Vec)
    ensures MatVec(Identity(|x|), x) == x
  {
    var n := |x|;
    forall i | 0 <= i < n
      ensures MatVec(Identity(n), x)[i] == x[i]
    {
      var row := Identity(n)[i];
      SumRangeSplit(row, x, 0, i, n);
      SumRangeSplit(row, x, i, i + 1, n);
      SumRangeOfZeros(row, x, 0, i);
      SumRangeOfZeros(row, x, i + 1, n);
    }
  }
}
