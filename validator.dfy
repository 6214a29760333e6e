/** Validator.java: static checks and measures of a system or a matrix —
    the dimension check, strict diagonal dominance, the determinant by
    pivoted elimination and the rank by counting pivots. The determinant and
    rank routines work on a copy, so the caller's matrix is never written. */
module Validation {
  import opened LinearAlgebra
  import opened Wrappers
  import opened Matrices
  import opened Vectors
  import opened Systems
  import opened Elimination
  import opened Splitting

  /** The magnitude below which the determinant and rank routines treat an
      entry as zero. */
  const SingularThreshold: real := 1e-12

  /** Validator.ValidationResult: a verdict and the collected messages. */
  datatype ValidationResult = ValidationResult(valid: bool, message: string)

  // ---------------------------------------------------------------------
  // Decimal text of a count, as StringBuilder.append(int) writes it

  function Digit(d: nat): (c: char)
    requires d < 10
  {
    "0123456789"[d]
  }

  /** The decimal digits of n, most significant first, without leading
      zeros. */
  function DecimalString(n: nat): (s: string)
    ensures 1 <= |s|
    ensures forall k :: 0 <= k < |s| ==> '0' <= s[k] <= '9'
  {
    if n < 10 then [Digit(n)] else DecimalString(n / 10) + [Digit(n % 10)]
  }

  /** The number a string of decimal digits denotes. */
  function DecimalValue(s: string): nat
    requires forall k :: 0 <= k < |s| ==> '0' <= s[k] <= '9'
  {
    if |s| == 0 then 0 else 10 * DecimalValue(s[..|s| - 1]) + (s[|s| - 1] as int - '0' as int)
  }

  /** Reading the digits back gives the number. */
  lemma {:induction false} DecimalRoundTrip(n: nat)
    ensures DecimalValue(DecimalString(n)) == n
  {
    if 10 <= n {
      var s := DecimalString(n);
      assert s[..|s| - 1] == DecimalString(n / 10);
      DecimalRoundTrip(n / 10);
    }
  }

  /** The message of a dimension mismatch. */
  function DimensionMessage(rows: nat, size: nat): string
  {
    "Error: Matrix rows (" + DecimalString(rows) + ") don't match vector size ("
      + DecimalString(size) + ")\n"
  }

  // ---------------------------------------------------------------------
  // validateSystem

  /** validateSystem: invalid exactly when A's row count differs from b's
      size, and then the message reports both numbers; a valid system has
      an empty message. */
  method ValidateSystem(system: LinearSystem) returns (r: ValidationResult)
    requires system.Valid()
    ensures r.valid <==> system.A.rows == system.b.Size()
    ensures r.valid <==> r.message == ""
    ensures !r.valid ==> r.message == DimensionMessage(system.A.rows, system.b.Size())
  {
    var messages := "";
    var isValid := true;
    if system.A.rows != system.b.Size() {
      messages := messages + DimensionMessage(system.A.rows, system.b.Size());
      isValid := false;
    }
    r := ValidationResult(isValid, messages);
  }

  // ---------------------------------------------------------------------
  // isDiagonallyDominant

  /** The sum of |row[j]| over the columns j < k other than i. */
  function OffAbsSum(row: Vec, i: nat, k: nat): real
    requires k <= |row|
  {
    if k == 0 then 0.0
    else OffAbsSum(row, i, k - 1) + (if k - 1 == i then 0.0 else Abs(row[k - 1]))
  }

  lemma {:induction false} OffAbsSumNonnegative(row: Vec, i: nat, k: nat)
    requires k <= |row|
    ensures 0.0 <= OffAbsSum(row, i, k)
  {
    if k > 0 {
      OffAbsSumNonnegative(row, i, k - 1);
    }
  }

  /** Every row i < |m| reaches column |m|. */
  predicate Wide(m: Mat)
  {
    forall r :: 0 <= r < |m| ==> |m| <= |m[r]|
  }

  /** Strict diagonal dominance over the first |m| columns: in every row the
      diagonal's magnitude exceeds the sum of the others'. */
  predicate DiagonallyDominant(m: Mat)
    requires Wide(m)
  {
    forall i :: 0 <= i < |m| ==> OffAbsSum(m[i], i, |m|) < Abs(m[i][i])
  }

  /** isDiagonallyDominant: true exactly when every row is strictly
      dominated by its diagonal entry; the loops run over the row count, so
      A needs at least as many columns as rows. */
  method IsDiagonallyDominant(A: Matrix) returns (d: bool)
    requires A.Valid() && A.rows <= A.cols
    ensures d <==> DiagonallyDominant(A.Elements())
  {
    ghost var m := A.Elements();
    var n := A.rows;
    var i := 0;
    while i < n
      invariant 0 <= i <= n
      invariant forall k :: 0 <= k < i ==> OffAbsSum(m[k], k, n) < Abs(m[k][k])
    {
      var diagonal := Abs(A.Get(i, i));
      var rowSum := 0.0;
      var j := 0;
      while j < n
        invariant 0 <= j <= n
        invariant rowSum == OffAbsSum(m[i], i, j)
      {
        if j != i {
          rowSum := rowSum + Abs(A.Get(i, j));
        }
        j := j + 1;
      }
      if diagonal <= rowSum {
        return false;
      }
      i := i + 1;
    }
    return true;
  }

  /** A diagonally dominant square system has no zero on its diagonal, so
      the iterative solvers can run on it. */
  lemma DominantIsReady(a: Mat, b: Vec)
    requires IsSquare(a) && |a| <= |b| && DiagonallyDominant(a)
    ensures Ready(a, b)
  {
    forall i | 0 <= i < |a|
      ensures a[i][i] != 0.0
    {
      OffAbsSumNonnegative(a[i], i, |a|);
    }
  }

  /** Off the diagonal the identity's rows are zero. */
  lemma {:induction false} IdentityOffAbsSum(n: nat, i: nat, k: nat)
    requires i < n && k <= n
    ensures OffAbsSum(LinearAlgebra.Identity(n)[i], i, k) == 0.0
  {
    if k > 0 {
      IdentityOffAbsSum(n, i, k - 1);
    }
  }

  /** The identity is diagonally dominant. */
  lemma IdentityIsDominant(n: nat)
    ensures DiagonallyDominant(LinearAlgebra.Identity(n))
  {
    forall i | 0 <= i < n
      ensures OffAbsSum(LinearAlgebra.Identity(n)[i], i, n) < Abs(LinearAlgebra.Identity(n)[i][i])
    {
      IdentityOffAbsSum(n, i, n);
    }
  }

  // ---------------------------------------------------------------------
  // calculateDeterminant

  /** The matrix after the pivot search of step i: the first row of largest
      magnitude in column i, from row i down, swapped into row i when it is
      another row. */
  function Pivoted(m: Mat, i: nat): (m1: Mat)
    requires IsSquare(m) && i < |m|
    ensures IsSquare(m1) && |m1| == |m|
  {
    var p := PivotIndex(m, i);
    if p != i then Swap(m, i, p) else m
  }

  /** -1 when step i swaps two rows, 1 otherwise. */
  function SwapSign(m: Mat, i: nat): real
    requires IsSquare(m) && i < |m|
  {
    if PivotIndex(m, i) != i then -1.0 else 1.0
  }

  /** Steps i onwards of the determinant's elimination on m with running
      value det: after the pivot search (a swap negates det) a pivot below
      the threshold gives 0, and otherwise det is multiplied by the pivot
      and the rows below are eliminated. */
  function DetFrom(m: Mat, i: nat, det: real): real
    requires IsSquare(m) && i <= |m|
    decreases |m| - i
  {
    if i == |m| then det
    else
      var m1 := Pivoted(m, i);
      if Abs(m1[i][i]) < SingularThreshold then 0.0
      else DetFrom(EliminateBelow(m1, i, i), i + 1, SwapSign(m, i) * det * m1[i][i])
  }

  /** One step of DetFrom past a pivot that reaches the threshold. */
  lemma DetFromStep(m: Mat, i: nat, det: real, next: real)
    requires IsSquare(m) && i < |m| && SingularThreshold <= Abs(Pivoted(m, i)[i][i])
    requires next == SwapSign(m, i) * det * Pivoted(m, i)[i][i]
    ensures DetFrom(m, i, det) == DetFrom(EliminateBelow(Pivoted(m, i), i, i), i + 1, next)
  {
  }

  /** The value calculateDeterminant returns for a square matrix. */
  function Determinant(m: Mat): real
    requires IsSquare(m)
  {
    DetFrom(m, 0, 1.0)
  }

  /** On the identity no row is swapped, every pivot is 1 and nothing is
      eliminated, so the running value stays 1. */
  lemma {:induction false} IdentityDetFrom(n: nat, i: nat)
    requires i <= n
    ensures DetFrom(LinearAlgebra.Identity(n), i, 1.0) == 1.0
    decreases n - i
  {
    if i < n {
      var id := LinearAlgebra.Identity(n);
      assert IsFirstMax(id, i, i, n, i);
      PivotIndexIsFirstMax(id, i, i);
      assert Pivoted(id, i) == id && SwapSign(id, i) == 1.0 && id[i][i] == 1.0;
      EliminateZeroColumn(id, i, i);
      DetFromStep(id, i, 1.0, 1.0);
      IdentityDetFrom(n, i + 1);
    }
  }

  /** The determinant of the identity is 1. */
  lemma IdentityDeterminant(n: nat)
    ensures Determinant(LinearAlgebra.Identity(n)) == 1.0
  {
    IdentityDetFrom(n, 0);
  }

  /** A non-empty zero matrix has determinant 0: its first pivot is 0. */
  lemma ZeroMatrixDeterminant(n: nat)
    requires 0 < n
    ensures Determinant(ZeroMatrix(n, n)) == 0.0
  {
    var z := ZeroMatrix(n, n);
    var p := PivotIndex(z, 0);
    assert z[p][0] == 0.0;
  }

  /** Where step i moves row z: the swap of step i exchanges rows i and
      the pivot row. */
  function MovedRow(m: Mat, i: nat, z: nat): (z': nat)
    requires IsSquare(m) && i <= z < |m|
    ensures i <= z' < |m|
  {
    if PivotIndex(m, i) != i && z == i then PivotIndex(m, i) else z
  }

  /** A zero row at or below step i is not the pivot row of a pivot that
      reaches the threshold; after the swap it lies below row i, and its
      elimination factor is 0, so it is still a zero row. */
  lemma ZeroRowStaysZero(m: Mat, i: nat, z: nat)
    requires IsSquare(m) && i <= z < |m|
    requires forall c :: 0 <= c < |m| ==> m[z][c] == 0.0
    requires SingularThreshold <= Abs(Pivoted(m, i)[i][i])
    ensures var e := EliminateBelow(Pivoted(m, i), i, i);
      IsSquare(e) && i < MovedRow(m, i, z) &&
      forall c :: 0 <= c < |m| ==> e[MovedRow(m, i, z)][c] == 0.0
  {
    var m1 := Pivoted(m, i);
    var z' := MovedRow(m, i, z);
    assert m1[z'] == m[z];
    var e := EliminateBelow(m1, i, i);
    forall c | 0 <= c < |m|
      ensures e[z'][c] == 0.0
    {
      EliminateBelowEntry(m1, i, i, z', c);
    }
  }

  /** A zero row at or below step i stays one at every later step, so some
      pivot falls below the threshold, at the latest that row's own. */
  lemma {:induction false} ZeroRowDetFrom(m: Mat, i: nat, z: nat, det: real)
    requires IsSquare(m) && i <= z < |m|
    requires forall c :: 0 <= c < |m| ==> m[z][c] == 0.0
    ensures DetFrom(m, i, det) == 0.0
    decreases |m| - i
  {
    if SingularThreshold <= Abs(Pivoted(m, i)[i][i]) {
      ZeroRowStaysZero(m, i, z);
      var next := SwapSign(m, i) * det * Pivoted(m, i)[i][i];
      DetFromStep(m, i, det, next);
      ZeroRowDetFrom(EliminateBelow(Pivoted(m, i), i, i), i + 1, MovedRow(m, i, z), next);
    }
  }

  /** A square matrix with a row of zeros has determinant 0. */
  lemma ZeroRowDeterminant(m: Mat, z: nat)
    requires IsSquare(m) && z < |m|
    requires forall c :: 0 <= c < |m| ==> m[z][c] == 0.0
    ensures Determinant(m) == 0.0
  {
    ZeroRowDetFrom(m, 0, z, 1.0);
  }

  /** One pass of the determinant's outer loop on `temp`, whose entries are
      m: returns whether the pivot fell below the threshold and, if not, the
      new running value, with `temp` eliminated below the pivot. */
  method DeterminantStep(temp: Matrix, i: nat, det: real, ghost m: Mat) returns (singular: bool, next: real)
    requires temp.Valid() && temp.rows == temp.cols && i < temp.rows && temp.Elements() == m
    modifies temp.data
    ensures singular ==> DetFrom(m, i, det) == 0.0
    ensures !singular ==> DetFrom(temp.Elements(), i + 1, next) == DetFrom(m, i, det)
  {
    var pivot := FindPivot(temp, i);
    var d := det;
    if pivot != i {
      SwapRows(temp, i, pivot);
      d := -d;
    }
    assert temp.Elements() == Pivoted(m, i) && d == SwapSign(m, i) * det;
    if Abs(temp.data[i, i]) < SingularThreshold {
      return true, 0.0;
    }
    next := d * temp.data[i, i];
    DetFromStep(m, i, det, next);
    EliminateRowsBelow(temp, i, i);
    singular := false;
  }

  /** calculateDeterminant: throws for a non-square matrix; otherwise the
      determinant by elimination with first-maximum pivoting on a copy of
      A. Copying reads the first row, so a square A needs one. */
  method CalculateDeterminant(A: Matrix) returns (r: Outcome<real>)
    requires A.Valid() && (A.rows == A.cols ==> 0 < A.rows)
    ensures A.rows != A.cols ==> r == Thrown("Matrix must be square to calculate determinant")
    ensures A.rows == A.cols ==> r == Ok(Determinant(A.Elements()))
  {
    if A.rows != A.cols {
      return Thrown("Matrix must be square to calculate determinant");
    }
    ghost var m0 := A.Elements();
    var n := A.rows;
    var temp := A.Copy();
    var det := 1.0;
    var i := 0;
    while i < n
      invariant 0 <= i <= n && temp.Valid() && fresh(temp.data) && temp.rows == temp.cols == n
      invariant DetFrom(temp.Elements(), i, det) == Determinant(m0)
    {
      var singular, next := DeterminantStep(temp, i, det, temp.Elements());
      if singular {
        return Ok(0.0);
      }
      det := next;
      i := i + 1;
    }
    return Ok(det);
  }

  // ---------------------------------------------------------------------
  // calculateRank

  /** The first column from j on whose entry exceeds the threshold in
      magnitude, or -1 when there is none. */
  function FirstNonZero(row: Vec, j: nat): (p: int)
    requires j <= |row|
    ensures p == -1 || (j <= p < |row| && SingularThreshold < Abs(row[p]))
    decreases |row| - j
  {
    if j == |row| then -1
    else if Abs(row[j]) > SingularThreshold then j
    else FirstNonZero(row, j + 1)
  }

  /** FirstNonZero finds the first entry over the threshold, and -1 means
      every entry from j on is within it. */
  lemma {:induction false} FirstNonZeroIsFirst(row: Vec, j: nat)
    requires j <= |row|
    ensures var p := FirstNonZero(row, j);
      (p == -1 <==> forall c :: j <= c < |row| ==> Abs(row[c]) <= SingularThreshold) &&
      (p != -1 ==> forall c :: j <= c < p ==> Abs(row[c]) <= SingularThreshold)
    decreases |row| - j
  {
    if j < |row| && Abs(row[j]) <= SingularThreshold {
      FirstNonZeroIsFirst(row, j + 1);
    }
  }

  /** Rows from i on of the rank computation on m (rows of `cols` entries),
      `rank` pivots found so far: a row with an entry over the threshold
      counts and eliminates the rows below it at that column. */
  function RankFrom(m: Mat, cols: nat, i: nat, rank: nat): nat
    requires IsMatrix(m, |m|, cols) && i <= |m|
    decreases |m| - i
  {
    if i == |m| then rank
    else
      var pc := FirstNonZero(m[i], 0);
      if pc == -1 then RankFrom(m, cols, i + 1, rank)
      else RankFrom(EliminateBelow(m, i, pc), cols, i + 1, rank + 1)
  }

  /** The value calculateRank returns. */
  function Rank(m: Mat, cols: nat): nat
    requires IsMatrix(m, |m|, cols)
  {
    RankFrom(m, cols, 0, 0)
  }

  /** Each remaining row adds at most one to the count. */
  lemma {:induction false} RankFromBounds(m: Mat, cols: nat, i: nat, rank: nat)
    requires IsMatrix(m, |m|, cols) && i <= |m|
    ensures rank <= RankFrom(m, cols, i, rank) <= rank + (|m| - i)
    decreases |m| - i
  {
    if i < |m| {
      var pc := FirstNonZero(m[i], 0);
      if pc == -1 {
        RankFromBounds(m, cols, i + 1, rank);
      } else {
        RankFromBounds(EliminateBelow(m, i, pc), cols, i + 1, rank + 1);
      }
    }
  }

  /** The rank lies between 0 and the number of rows. */
  lemma RankBounds(m: Mat, cols: nat)
    requires IsMatrix(m, |m|, cols)
    ensures 0 <= Rank(m, cols) <= |m|
  {
    RankFromBounds(m, cols, 0, 0);
  }

  /** No row of a zero matrix has a pivot. */
  lemma {:induction false} ZeroRankFrom(r: nat, c: nat, i: nat)
    requires i <= r
    ensures RankFrom(ZeroMatrix(r, c), c, i, 0) == 0
    decreases r - i
  {
    if i < r {
      FirstNonZeroIsFirst(ZeroMatrix(r, c)[i], 0);
      ZeroRankFrom(r, c, i + 1);
    }
  }

  /** A zero matrix has rank 0. */
  lemma ZeroMatrixRank(r: nat, c: nat)
    ensures Rank(ZeroMatrix(r, c), c) == 0
  {
    ZeroRankFrom(r, c, 0);
  }

  /** Row i of the identity has its pivot at column i, and nothing below it
      needs eliminating. */
  lemma {:induction false} IdentityRankFrom(n: nat, i: nat)
    requires i <= n
    ensures RankFrom(LinearAlgebra.Identity(n), n, i, i) == n
    decreases n - i
  {
    if i < n {
      var id := LinearAlgebra.Identity(n);
      FirstNonZeroIsFirst(id[i], 0);
      assert FirstNonZero(id[i], 0) == i by {
        var p := FirstNonZero(id[i], 0);
        assert SingularThreshold < Abs(id[i][i]);
        if p == -1 {
          assert false;
        }
      }
      EliminateZeroColumn(id, i, i);
      IdentityRankFrom(n, i + 1);
    }
  }

  /** The identity of size n has rank n. */
  lemma IdentityRank(n: nat)
    ensures Rank(LinearAlgebra.Identity(n), n) == n
  {
    IdentityRankFrom(n, 0);
  }

  /** The pivot search of calculateRank on row i of A. */
  method FindPivotColumn(A: Matrix, i: nat) returns (pivotCol: int)
    requires A.Valid() && i < A.rows
    ensures pivotCol == FirstNonZero(A.Elements()[i], 0)
  {
    ghost var row := A.Elements()[i];
    pivotCol := -1;
    var j := 0;
    while j < A.cols
      invariant 0 <= j <= A.cols
      invariant FirstNonZero(row, j) == FirstNonZero(row, 0)
    {
      if Abs(A.Get(i, j)) > SingularThreshold {
        pivotCol := j;
        break;
      }
      j := j + 1;
    }
  }

  /** One pass of calculateRank's outer loop on `temp`, whose entries are
      m: a row with an entry over the threshold adds one to the count and
      is eliminated below at that column. */
  method RankStep(temp: Matrix, i: nat, rank: nat, ghost m: Mat) returns (next: nat)
    requires temp.Valid() && i < temp.rows && temp.Elements() == m
    modifies temp.data
    ensures RankFrom(temp.Elements(), temp.cols, i + 1, next) == RankFrom(m, temp.cols, i, rank)
  {
    var pivotCol := FindPivotColumn(temp, i);
    next := rank;
    if pivotCol != -1 {
      next := rank + 1;
      EliminateRowsBelow(temp, i, pivotCol);
    }
  }

  /** calculateRank: the number of rows of a copy of A that still have an
      entry over the threshold once the rows above have been eliminated.
      Copying reads the first row, so A needs one. */
  method CalculateRank(A: Matrix) returns (rank: nat)
    requires A.Valid() && 0 < A.rows
    ensures rank == Rank(A.Elements(), A.cols)
  {
    ghost var m0 := A.Elements();
    var temp := A.Copy();
    var rows, cols := temp.rows, temp.cols;
    rank := 0;
    var i := 0;
    while i < rows
      invariant 0 <= i <= rows && temp.Valid() && fresh(temp.data)
      invariant temp.rows == rows && temp.cols == cols
      invariant RankFrom(temp.Elements(), cols, i, rank) == Rank(m0, cols)
    {
      rank := RankStep(temp, i, rank, temp.Elements());
      i := i + 1;
    }
  }
}
