/** The row operations shared by Gaussian elimination (GaussSolver.java) and
    by the determinant and rank routines (Validator.java): choosing a pivot
    row, swapping two rows, and subtracting multiples of the pivot row from
    the rows below it. */
module Elimination {
  import opened LinearAlgebra
  import opened Matrices

  /** Every row of m has an entry in column col. */
  predicate HasColumn(m: Mat, col: nat)
  {
    forall r :: 0 <= r < |m| ==> col < |m[r]|
  }

  /** Exchanges entries a and b of a sequence (rows of a matrix, entries of
      a right-hand side). */
  function Swap<T>(s: seq<T>, a: nat, b: nat): (t: seq<T>)
    requires a < |s| && b < |s|
    ensures |t| == |s| && t[a] == s[b] && t[b] == s[a]
    ensures forall k :: 0 <= k < |s| && k != a && k != b ==> t[k] == s[k]
  {
    s[a := s[b]][b := s[a]]
  }

  /** A swap is a permutation, swapping twice is the identity, and swapping
      an entry with itself changes nothing. */
  lemma SwapProperties<T>(s: seq<T>, a: nat, b: nat)
    requires a < |s| && b < |s|
    ensures multiset(Swap(s, a, b)) == multiset(s)
    ensures Swap(Swap(s, a, b), a, b) == s
    ensures Swap(s, a, a) == s
  {
    if a != b {
      var t1 := s[a := s[b]];
      assert multiset(t1) == multiset(s) - multiset{s[a]} + multiset{s[b]};
      assert t1[b] == s[b];
      assert multiset(t1[b := s[a]]) == multiset(t1) - multiset{s[b]} + multiset{s[a]};
    }
  }

  // ---------------------------------------------------------------------
  // Pivot choice

  /** p is the first row in [lo, hi) whose entry in column col has the
      largest magnitude: no row has a larger one, and every row before p has a
      strictly smaller one. */
  predicate IsFirstMax(m: Mat, col: nat, lo: nat, hi: nat, p: nat)
    requires hi <= |m| && HasColumn(m, col)
  {
    lo <= p < hi &&
    (forall r :: lo <= r < hi ==> Abs(m[r][col]) <= Abs(m[p][col])) &&
    (forall r :: lo <= r < p ==> Abs(m[r][col]) < Abs(m[p][col]))
  }

  /** The scan of partialPivot and of the determinant's pivot search: `best`
      is the row chosen so far and rows from `next` on are still to be seen;
      a row replaces `best` only when its magnitude is strictly larger. */
  function PivotFrom(m: Mat, col: nat, best: nat, next: nat): (p: nat)
    requires HasColumn(m, col) && best < next <= |m|
    ensures best <= p < |m|
    decreases |m| - next
  {
    if next == |m| then best
    else if Abs(m[next][col]) > Abs(m[best][col]) then PivotFrom(m, col, next, next + 1)
    else PivotFrom(m, col, best, next + 1)
  }

  /** The pivot row for column col, searched from row col downwards. */
  function PivotIndex(m: Mat, col: nat): (p: nat)
    requires HasColumn(m, col) && col < |m|
    ensures col <= p < |m|
  {
    PivotFrom(m, col, col, col + 1)
  }

  lemma {:induction false} PivotFromIsFirstMax(m: Mat, col: nat, best: nat, next: nat)
    requires HasColumn(m, col) && best < next <= |m|
    requires IsFirstMax(m, col, col, next, best)
    ensures IsFirstMax(m, col, col, |m|, PivotFrom(m, col, best, next))
    decreases |m| - next
  {
    if next < |m| {
      if Abs(m[next][col]) > Abs(m[best][col]) {
        PivotFromIsFirstMax(m, col, next, next + 1);
      } else {
        PivotFromIsFirstMax(m, col, best, next + 1);
      }
    }
  }

  /** At most one row is the first maximum. */
  lemma FirstMaxUnique(m: Mat, col: nat, lo: nat, hi: nat, p: nat, q: nat)
    requires hi <= |m| && HasColumn(m, col)
    requires IsFirstMax(m, col, lo, hi, p) && IsFirstMax(m, col, lo, hi, q)
    ensures p == q
  {
    assert Abs(m[p][col]) == Abs(m[q][col]);
  }

  /** The pivot is exactly the first row, from row col on, of largest
      magnitude in column col: ties keep the earlier row. */
  lemma PivotIndexIsFirstMax(m: Mat, col: nat, p: nat)
    requires HasColumn(m, col) && col < |m|
    ensures IsFirstMax(m, col, col, |m|, PivotIndex(m, col))
    ensures p == PivotIndex(m, col) <==> IsFirstMax(m, col, col, |m|, p)
  {
    PivotFromIsFirstMax(m, col, col, col + 1);
    if IsFirstMax(m, col, col, |m|, p) {
      FirstMaxUnique(m, col, col, |m|, p, PivotIndex(m, col));
    }
  }

  /** The pivot search of calculateDeterminant: scans column col from row
      col down, moving to a row only when its magnitude is strictly larger
      than that of the row chosen so far. */
  method FindPivot(A: Matrix, col: nat) returns (p: nat)
    requires A.Valid() && col < A.rows && col < A.cols
    ensures p == PivotIndex(A.Elements(), col)
  {
    ghost var m := A.Elements();
    p := col;
    var j := col + 1;
    while j < A.rows
      invariant col < j <= A.rows && col <= p < j
      invariant PivotFrom(m, col, p, j) == PivotIndex(m, col)
    {
      if Abs(A.data[j, col]) > Abs(A.data[p, col]) {
        p := j;
      }
      j := j + 1;
    }
  }

  // ---------------------------------------------------------------------
  // Elimination

  /** Row `target` minus f times row `source`, from column `from` on;
      earlier columns are left as they are. */
  function EliminateRow(target: Vec, source: Vec, f: real, from: nat): (t: Vec)
    requires |source| == |target|
  {
    seq(|target|, k requires 0 <= k < |target| =>
      if k < from then target[k] else target[k] - f * source[k])
  }

  /** Every row below pr loses the multiple of row pr that cancels its entry
      in column pc; rows up to pr stay as they are. */
  function EliminateBelow(m: Mat, pr: nat, pc: nat): (e: Mat)
    requires pr < |m| && IsMatrix(m, |m|, |m[pr]|) && pc < |m[pr]| && m[pr][pc] != 0.0
    ensures IsMatrix(e, |m|, |m[pr]|)
  {
    seq(|m|, r requires 0 <= r < |m| =>
      if r <= pr then m[r] else EliminateRow(m[r], m[pr], m[r][pc] / m[pr][pc], pc))
  }

  /** The same operation applied to the right-hand side. */
  function EliminateRhs(b: Vec, m: Mat, pr: nat, pc: nat): (c: Vec)
    requires pr < |m| <= |b| && IsMatrix(m, |m|, |m[pr]|) && pc < |m[pr]| && m[pr][pc] != 0.0
  {
    seq(|b|, r requires 0 <= r < |b| =>
      if pr < r < |m| then b[r] - (m[r][pc] / m[pr][pc]) * b[pr] else b[r])
  }

  lemma EliminateRhsEntry(b: Vec, m: Mat, pr: nat, pc: nat, r: nat)
    requires pr < |m| <= |b| && IsMatrix(m, |m|, |m[pr]|) && pc < |m[pr]| && m[pr][pc] != 0.0
    requires r < |b|
    ensures EliminateRhs(b, m, pr, pc)[r] ==
      if pr < r < |m| then b[r] - (m[r][pc] / m[pr][pc]) * b[pr] else b[r]
  {
  }

  /** Below the diagonal, columns 0..i-1 hold zeros: the shape forward
      elimination has produced after i steps. */
  predicate LowerZero(m: Mat, i: nat)
    requires IsSquare(m)
  {
    forall r, c :: 0 <= c < i && c < r < |m| ==> m[r][c] == 0.0
  }

  /** Elimination keeps the shape and rows 0..pr, and leaves zeros in column
      pc below row pr. */
  lemma EliminateBelowZeroes(m: Mat, pr: nat, pc: nat)
    requires pr < |m| && IsMatrix(m, |m|, |m[pr]|) && pc < |m[pr]| && m[pr][pc] != 0.0
    ensures IsMatrix(EliminateBelow(m, pr, pc), |m|, |m[pr]|)
    ensures forall r :: 0 <= r <= pr ==> EliminateBelow(m, pr, pc)[r] == m[r]
    ensures forall r :: pr < r < |m| ==> EliminateBelow(m, pr, pc)[r][pc] == 0.0
  {
    var e := EliminateBelow(m, pr, pc);
    forall r | pr < r < |m|
      ensures e[r][pc] == 0.0
    {
      var f := m[r][pc] / m[pr][pc];
      assert f * m[pr][pc] == m[r][pc];
    }
  }

  /** When column pc already holds zeros below row pr, every factor is 0
      and elimination changes nothing. */
  lemma EliminateZeroColumn(m: Mat, pr: nat, pc: nat)
    requires pr < |m| && IsMatrix(m, |m|, |m[pr]|) && pc < |m[pr]| && m[pr][pc] != 0.0
    requires forall r :: pr < r < |m| ==> m[r][pc] == 0.0
    ensures EliminateBelow(m, pr, pc) == m
  {
    var e := EliminateBelow(m, pr, pc);
    forall r | pr < r < |m|
      ensures e[r] == m[r]
    {
      assert m[r][pc] / m[pr][pc] == 0.0;
      assert e[r] == EliminateRow(m[r], m[pr], 0.0, pc);
    }
  }

  lemma EliminateBelowEntry(m: Mat, pr: nat, pc: nat, r: nat, c: nat)
    requires pr < |m| && IsMatrix(m, |m|, |m[pr]|) && pc < |m[pr]| && m[pr][pc] != 0.0
    requires r < |m| && c < |m[pr]|
    ensures EliminateBelow(m, pr, pc)[r][c] ==
      if r <= pr || c < pc then m[r][c] else m[r][c] - (m[r][pc] / m[pr][pc]) * m[pr][c]
  {
  }

  // ---------------------------------------------------------------------
  // In-place row operations on a Matrix

  /** Exchanges rows r1 and r2 of A, column by column; no other row changes. */
  method SwapRows(A: Matrix, r1: nat, r2: nat)
    requires A.Valid() && r1 < A.rows && r2 < A.rows
    modifies A.data
    ensures A.Elements() == Swap(old(A.Elements()), r1, r2)
  {
    ghost var m0 := A.Elements();
    var j := 0;
    while j < A.cols
      invariant 0 <= j <= A.cols
      invariant forall r, c :: 0 <= r < A.rows && 0 <= c < A.cols ==>
        A.data[r, c] == if c < j then Swap(m0, r1, r2)[r][c] else m0[r][c]
    {
      var tmp := A.data[r1, j];
      A.data[r1, j] := A.data[r2, j];
      A.data[r2, j] := tmp;
      j := j + 1;
    }
    MatrixEquality(A.Elements(), Swap(m0, r1, r2), A.rows, A.cols);
  }

  /** Replacing entry j of `done[..j] + rest[j..]` by done[j] moves the
      boundary one place on. */
  lemma SpliceNext<T>(done: seq<T>, rest: seq<T>, j: nat)
    requires |done| == |rest| && j < |done|
    ensures (done[..j] + rest[j..])[j := done[j]] == done[..j + 1] + rest[j + 1..]
  {
    var s, t := (done[..j] + rest[j..])[j := done[j]], done[..j + 1] + rest[j + 1..];
    assert |s| == |t|;
    forall k | 0 <= k < |s|
      ensures s[k] == t[k]
    {
      if k < j {
        assert s[k] == done[k];
      } else if j < k {
        assert s[k] == rest[k];
      }
    }
  }

  /** The two ends of the elimination loop: with the boundary just below
      the pivot row nothing is eliminated yet, and with it at the last row
      everything is. */
  lemma EliminationSpliceEnds(m0: Mat, b0: Vec, pr: nat, pc: nat)
    requires pr < |m0| <= |b0| && IsMatrix(m0, |m0|, |m0[pr]|) && pc < |m0[pr]| && m0[pr][pc] != 0.0
    ensures EliminateBelow(m0, pr, pc)[..pr + 1] + m0[pr + 1..] == m0
    ensures EliminateRhs(b0, m0, pr, pc)[..pr + 1] + b0[pr + 1..] == b0
    ensures EliminateBelow(m0, pr, pc)[..|m0|] + m0[|m0|..] == EliminateBelow(m0, pr, pc)
    ensures EliminateRhs(b0, m0, pr, pc)[..|m0|] + b0[|m0|..] == EliminateRhs(b0, m0, pr, pc)
  {
    var e, c := EliminateBelow(m0, pr, pc), EliminateRhs(b0, m0, pr, pc);
    assert e[..pr + 1] == m0[..pr + 1];
    assert m0[..pr + 1] + m0[pr + 1..] == m0;
    assert c[..pr + 1] == b0[..pr + 1];
    assert b0[..pr + 1] + b0[pr + 1..] == b0;
    assert c[|m0|..] == b0[|m0|..];
    assert c[..|m0|] + c[|m0|..] == c;
  }

  /** One pass of the elimination loop: if rows before j are already
      eliminated and the rest are untouched, eliminating row j with the factor
      read from the current matrix moves the boundary to j + 1. */
  lemma EliminationLoopStep(m0: Mat, pr: nat, pc: nat, j: nat, before: Mat, f: real)
    requires pr < j < |m0| && IsMatrix(m0, |m0|, |m0[pr]|) && pc < |m0[pr]| && m0[pr][pc] != 0.0
    requires before == EliminateBelow(m0, pr, pc)[..j] + m0[j..]
    requires f == before[j][pc] / before[pr][pc]
    ensures f == m0[j][pc] / m0[pr][pc]
    ensures before[j := EliminateRow(before[j], before[pr], f, pc)] ==
      EliminateBelow(m0, pr, pc)[..j + 1] + m0[j + 1..]
  {
    var e := EliminateBelow(m0, pr, pc);
    assert before[j] == m0[j] && before[pr] == e[pr] == m0[pr];
    SpliceNext(e, m0, j);
  }

  /** Row `target` loses f times row `source`, from column `from` on; no
      other row changes. */
  method SubtractRowMultiple(A: Matrix, target: nat, source: nat, f: real, from: nat)
    requires A.Valid() && target < A.rows && source < A.rows && target != source
    modifies A.data
    ensures A.Elements() == old(A.Elements())[target :=
      EliminateRow(old(A.Elements())[target], old(A.Elements())[source], f, from)]
  {
    ghost var m0 := A.Elements();
    ghost var row := EliminateRow(m0[target], m0[source], f, from);
    var k := from;
    while k < A.cols
      invariant forall q :: 0 <= q < A.cols ==>
        A.data[target, q] == if q < k then row[q] else m0[target][q]
      invariant forall r, q :: 0 <= r < A.rows && r != target && 0 <= q < A.cols ==>
        A.data[r, q] == m0[r][q]
    {
      A.data[target, k] := A.data[target, k] - f * A.data[source, k];
      k := k + 1;
    }
    MatrixEquality(A.Elements(), m0[target := row], A.rows, A.cols);
  }

  /** For every row below pr: subtract factor times row pr from column pc on,
      the factor being the one that cancels column pc. */
  method EliminateRowsBelow(A: Matrix, pr: nat, pc: nat)
    requires A.Valid() && pr < A.rows && pc < A.cols && A.data[pr, pc] != 0.0
    modifies A.data
    ensures A.Elements() == EliminateBelow(old(A.Elements()), pr, pc)
  {
    ghost var m0 := A.Elements();
    ghost var e := EliminateBelow(m0, pr, pc);
    var j := pr + 1;
    assert e[..j] + m0[j..] == m0;
    while j < A.rows
      invariant pr + 1 <= j <= A.rows
      invariant A.Elements() == e[..j] + m0[j..]
    {
      var factor := A.data[j, pc] / A.data[pr, pc];
      EliminationLoopStep(m0, pr, pc, j, A.Elements(), factor);
      SubtractRowMultiple(A, j, pr, factor, pc);
      j := j + 1;
    }
  }
}
