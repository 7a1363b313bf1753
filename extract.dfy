/**
 * The solution read-out of `showResult`: from a final tableau with
 * `m + 1` rows and `n + m + 1` columns it rebuilds `x` (length `n`) and
 * the objective value `f`, the bottom-right entry. Column `j < n` gives
 * `x[j]` the right-hand side of the LAST constraint row holding exactly
 * `1.0` in that column, and 0 when there is none, so a genuine unit
 * column yields the value of its basic row.
 */
module Extraction {
  import opened Vectors
  import opened Matrices
  import opened PivotEngine
  import opened Tableaux

  /** A tableau `showResult` can read: at least the objective row, and at least as many columns as rows. */
  predicate Readable(t: Mat)
  {
    IsTableau(t) && |t| >= 1 && Width(t) >= |t|
  }

  /** `n = Col - 1 - m`, the number of decision variables. */
  function Variables(t: Mat): nat
    requires Readable(t)
  {
    Width(t) - |t|
  }

  /** `n + m`, the right-hand-side column. */
  function Rhs(t: Mat): nat
    requires Readable(t)
  {
    Width(t) - 1
  }

  /** `X[j]` once the outer loop has visited constraint rows `0..k-1`. */
  function ValueAfter(t: Mat, j: nat, k: nat): real
    requires Readable(t) && j < Variables(t) && k <= |t| - 1
  {
    if k == 0 then 0.0
    else if t[k - 1][j] == 1.0 then t[k - 1][Rhs(t)]
    else ValueAfter(t, j, k - 1)
  }

  /** The `X` that `showResult` prints. */
  function Solution(t: Mat): (x: seq<real>)
    requires Readable(t)
    ensures |x| == Variables(t)
  {
    seq(Variables(t), j requires 0 <= j < Variables(t) => ValueAfter(t, j, |t| - 1))
  }

  /** The `f` that `showResult` prints: `All[m][n + m]`. */
  function ObjectiveValue(t: Mat): real
    requires Readable(t)
  {
    t[|t| - 1][Rhs(t)]
  }

  /** Row `i < k` is the last of rows `0..k-1` with `1.0` in column `j`. */
  predicate LastOne(t: Mat, j: nat, i: nat, k: nat)
    requires Readable(t) && j < Variables(t) && k <= |t| - 1
  {
    i < k && t[i][j] == 1.0 && forall r :: i < r < k ==> t[r][j] != 1.0
  }

  lemma {:induction false} ValueAfterLastOne(t: Mat, j: nat, i: nat, k: nat)
    requires Readable(t) && j < Variables(t) && k <= |t| - 1 && LastOne(t, j, i, k)
    ensures ValueAfter(t, j, k) == t[i][Rhs(t)]
  {
    if i < k - 1 {
      ValueAfterLastOne(t, j, i, k - 1);
    }
  }

  lemma {:induction false} ValueAfterNoOne(t: Mat, j: nat, k: nat)
    requires Readable(t) && j < Variables(t) && k <= |t| - 1
    requires forall r :: 0 <= r < k ==> t[r][j] != 1.0
    ensures ValueAfter(t, j, k) == 0.0
  {
    if k > 0 {
      ValueAfterNoOne(t, j, k - 1);
    }
  }

  /** Last match wins: `x[j]` is the right-hand side of the last constraint row with `1.0` in column `j`. */
  lemma SolutionPicksLastOne(t: Mat, j: nat, i: nat)
    requires Readable(t) && j < Variables(t) && LastOne(t, j, i, |t| - 1)
    ensures Solution(t)[j] == t[i][Rhs(t)]
  {
    ValueAfterLastOne(t, j, i, |t| - 1);
  }

  /** A column without any `1.0` among the constraint rows leaves `x[j]` at its initial 0. */
  lemma SolutionWithoutOne(t: Mat, j: nat)
    requires Readable(t) && j < Variables(t)
    requires forall r :: 0 <= r < |t| - 1 ==> t[r][j] != 1.0
    ensures Solution(t)[j] == 0.0
  {
    ValueAfterNoOne(t, j, |t| - 1);
  }

  /** A basic column, the unit vector of constraint row `i`, reads the right-hand side of that row. */
  lemma UnitColumnReadsRow(t: Mat, j: nat, i: nat)
    requires Readable(t) && j < Variables(t) && i < |t| - 1
    requires t[i][j] == 1.0 && forall r :: 0 <= r < |t| - 1 && r != i ==> t[r][j] == 0.0
    ensures Solution(t)[j] == t[i][Rhs(t)]
  {
    assert LastOne(t, j, i, |t| - 1);
    SolutionPicksLastOne(t, j, i);
  }

  /** After a pivot on constraint row `row` and variable column `col`, `x[col]` is the new right-hand side of `row`. */
  lemma PivotedColumnReads(t: Mat, row: nat, col: nat)
    requires Readable(t) && row < |t| - 1 && col < Variables(t) && t[row][col] != 0.0
    ensures Readable(Pivoted(t, row, col))
    ensures Solution(Pivoted(t, row, col))[col] == Pivoted(t, row, col)[row][Rhs(t)]
  {
    PivotUnitColumn(t, row, col);
    UnitColumnReadsRow(Pivoted(t, row, col), col, row);
  }

  /**
   * Reading the standard tableau right after `createMatrix`: the
   * objective value is 0, and `x[j]` is 0 for every column of `A` that
   * holds no entry equal to `1.0`.
   */
  lemma StandardReadsZero(a: Mat, b: seq<real>, c: seq<real>, j: nat)
    requires CoversProblem(a, |b|, |c|) && j < |c|
    requires forall i :: 0 <= i < |b| ==> Coefficients(a, i, |c|)[j] != 1.0
    ensures Readable(StandardTableau(a, b, c))
    ensures ObjectiveValue(StandardTableau(a, b, c)) == 0.0
    ensures Solution(StandardTableau(a, b, c))[j] == 0.0
  {
    StandardTableauLayout(a, b, c);
    SolutionWithoutOne(StandardTableau(a, b, c), j);
  }

  /**
   * An entry of `A` equal to `1.0` is read as a basic column even in the
   * untouched standard tableau: `max x, x <= 2` gives `x = [2]` with no
   * pivot at all.
   */
  lemma StandardReadsOneEntry()
    ensures CoversProblem([[1.0]], 1, 1)
    ensures Readable(StandardTableau([[1.0]], [2.0], [1.0]))
    ensures Solution(StandardTableau([[1.0]], [2.0], [1.0])) == [2.0]
  {
    var t := StandardTableau([[1.0]], [2.0], [1.0]);
    StandardTableauLayout([[1.0]], [2.0], [1.0]);
    assert t[0][0] == 1.0 && t[0][2] == 2.0;
    SolutionPicksLastOne(t, 0, 0);
  }

  /** `showResult(All)` without the printing: `X` and `f`. */
  method ShowResult(all: Matrix) returns (x: Vector, f: real)
    requires all.Valid() && all.Row >= 1 && all.Col >= all.Row
    ensures Readable(all.Rows())
    ensures fresh(x) && fresh(x.ptr) && x.Valid()
    ensures x.Contents() == Solution(all.Rows()) && f == ObjectiveValue(all.Rows())
  {
    ghost var t := all.Rows();
    ValidIsTableau(all);
    var m := all.GetRow() - 1;
    var n := all.GetCol() - 1 - m;
    x := new Vector(n);
    var i := 0;
    while i < m
      invariant 0 <= i <= m && x.Valid() && x.Dim == n && fresh(x.ptr)
      invariant forall j :: 0 <= j < n ==> x.Contents()[j] == ValueAfter(t, j, i)
    {
      ReadRow(all, x, i, t);
      i := i + 1;
    }
    f := all.Get(m, n + m);
  }

  /** The inner loop of `showResult` for constraint row `i`. */
  method ReadRow(all: Matrix, x: Vector, i: nat, ghost t: Mat)
    requires all.Valid() && t == all.Rows() && Readable(t) && i < |t| - 1
    requires x.Valid() && x.Dim == Variables(t)
    requires forall j :: 0 <= j < x.Dim ==> x.Contents()[j] == ValueAfter(t, j, i)
    modifies x.ptr
    ensures x.Valid() && x.Dim == Variables(t)
    ensures forall j :: 0 <= j < x.Dim ==> x.Contents()[j] == ValueAfter(t, j, i + 1)
  {
    var m := all.GetRow() - 1;
    var n := all.GetCol() - 1 - m;
    var j := 0;
    while j < n
      invariant 0 <= j <= n && x.Valid() && x.Dim == n
      invariant forall k :: 0 <= k < n ==> x.Contents()[k] == if k < j then ValueAfter(t, k, i + 1) else ValueAfter(t, k, i)
    {
      if all.Get(i, j) == 1.0 {
        x.Set(j, all.Get(i, n + m));
      }
      j := j + 1;
    }
  }
}
