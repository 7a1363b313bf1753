/**
 * The dense `Matrix` class of the library: `Row` rows of `Col` entries in
 * one buffer, shape-checked arithmetic, tolerance equality, products and
 * a `cleanup` relative to the largest entry of the whole matrix. A matrix
 * with no rows or no columns is always 0x0. Values are `seq<seq<real>>`;
 * every method is proved against the functions at the top of the module.
 */
module Matrices {
  import opened Numeric
  import opened Vectors

  type Mat = seq<seq<real>>

  // ---------------------------------------------------------------------
  // Values
  // ---------------------------------------------------------------------

  /** `t` has `r` rows of `c` entries each. */
  predicate IsShape(t: Mat, r: nat, c: nat)
  {
    |t| == r && forall i :: 0 <= i < r ==> |t[i]| == c
  }

  /** The value held by a two-dimensional buffer, row by row. */
  function ToSeq(a: array2<real>): (t: Mat)
    reads a
    ensures IsShape(t, a.Length0, a.Length1)
    ensures forall i, j :: 0 <= i < a.Length0 && 0 <= j < a.Length1 ==> t[i][j] == a[i, j]
  {
    seq(a.Length0, i requires 0 <= i < a.Length0 reads a =>
      seq(a.Length1, j requires 0 <= j < a.Length1 reads a => a[i, j]))
  }

  /** Two matrices of one shape with the same entries are equal. */
  lemma SameEntries(x: Mat, y: Mat, r: nat, c: nat)
    requires IsShape(x, r, c) && IsShape(y, r, c)
    requires forall i, j :: 0 <= i < r && 0 <= j < c ==> x[i][j] == y[i][j]
    ensures x == y
  {
    forall i | 0 <= i < r ensures x[i] == y[i] {
      assert forall j :: 0 <= j < c ==> x[i][j] == y[i][j];
    }
  }

  function ZeroMat(r: nat, c: nat): Mat
  {
    seq(r, _ => Zeros(c))
  }

  function MatPlus(l: Mat, r: Mat): Mat
    requires |l| == |r| && forall i :: 0 <= i < |l| ==> |l[i]| == |r[i]|
  {
    seq(|l|, i requires 0 <= i < |l| => Plus(l[i], r[i]))
  }

  function MatMinus(l: Mat, r: Mat): Mat
    requires |l| == |r| && forall i :: 0 <= i < |l| ==> |l[i]| == |r[i]|
  {
    seq(|l|, i requires 0 <= i < |l| => Minus(l[i], r[i]))
  }

  /** Row-by-row tolerance equality. */
  predicate MatApproxEqual(l: Mat, r: Mat)
  {
    |l| == |r| && forall i :: 0 <= i < |l| ==> ApproxEqual(l[i], r[i])
  }

  /** The running maximum magnitude over all entries, row-major. */
  function MatMaxAbs(t: Mat): (r: real)
    ensures r >= 0.0
    decreases |t|
  {
    if |t| == 0 then 0.0 else MaxAbsFrom(MatMaxAbs(t[..|t| - 1]), t[|t| - 1])
  }

  /** `MatMaxAbs` bounds every magnitude and is one of them, or 0 when there are none. */
  lemma {:induction false} MatMaxAbsSpec(t: Mat)
    ensures forall i, j :: 0 <= i < |t| && 0 <= j < |t[i]| ==> Abs(t[i][j]) <= MatMaxAbs(t)
    ensures MatMaxAbs(t) == 0.0 || exists i, j :: 0 <= i < |t| && 0 <= j < |t[i]| && MatMaxAbs(t) == Abs(t[i][j])
    decreases |t|
  {
    if |t| > 0 {
      var prefix := t[..|t| - 1];
      MatMaxAbsSpec(prefix);
      assert forall i :: 0 <= i < |t| - 1 ==> prefix[i] == t[i];
    }
  }

  /** The matrix after `cleanup`: every entry is snapped against the global maximum. */
  function MatCleaned(t: Mat): (r: Mat)
    ensures |r| == |t|
  {
    var max := MatMaxAbs(t);
    if max > NEARLY_ZERO then SnapRows(t, max) else t
  }

  /** One row with every entry snapped against `max`. */
  function SnapRow(s: seq<real>, max: real): seq<real>
    requires max > 0.0
  {
    seq(|s|, j requires 0 <= j < |s| => Snapped(s[j], max))
  }

  /** The rows snapped one after the other, first to last, as the `cleanup` loop visits them. */
  function SnapRows(t: Mat, max: real): (r: Mat)
    requires max > 0.0
    ensures |r| == |t|
    decreases |t|
  {
    if |t| == 0 then [] else [SnapRow(t[0], max)] + SnapRows(t[1..], max)
  }

  /** Row `i` of the snapped rows is row `i` snapped. */
  lemma {:induction false} SnapRowsEntries(t: Mat, max: real)
    requires max > 0.0
    ensures forall i :: 0 <= i < |t| ==> |SnapRows(t, max)[i]| == |t[i]|
    ensures forall i, j :: 0 <= i < |t| && 0 <= j < |t[i]| ==> SnapRows(t, max)[i][j] == Snapped(t[i][j], max)
    decreases |t|
  {
    if |t| > 0 {
      SnapRowsEntries(t[1..], max);
      assert forall i :: 1 <= i < |t| ==> SnapRows(t, max)[i] == SnapRows(t[1..], max)[i - 1];
    }
  }

  /** The entries of `MatCleaned`, for proofs that need them. */
  lemma MatCleanedEntry(t: Mat)
    ensures forall i :: 0 <= i < |t| ==> |MatCleaned(t)[i]| == |t[i]|
    ensures forall i, j :: 0 <= i < |t| && 0 <= j < |t[i]| ==>
      MatCleaned(t)[i][j] == if MatMaxAbs(t) > NEARLY_ZERO then Snapped(t[i][j], MatMaxAbs(t)) else t[i][j]
  {
    if MatMaxAbs(t) > NEARLY_ZERO {
      SnapRowsEntries(t, MatMaxAbs(t));
    }
  }

  /** Column `j` of `t`. */
  function Column(t: Mat, j: nat): seq<real>
    requires forall i :: 0 <= i < |t| ==> j < |t[i]|
  {
    seq(|t|, i requires 0 <= i < |t| => t[i][j])
  }

  /** `Matrix * Vector` before its final `cleanup`: entry i is row i dotted with `x`. */
  function MatVecRaw(t: Mat, x: seq<real>): seq<real>
    requires forall i :: 0 <= i < |t| ==> |t[i]| == |x|
  {
    seq(|t|, i requires 0 <= i < |t| => InnerProduct(t[i], x))
  }

  /** `Vector * Matrix` before its final `cleanup`: entry j is `x` dotted with column j. */
  function VecMatRaw(x: seq<real>, t: Mat, c: nat): seq<real>
    requires IsShape(t, |x|, c)
  {
    seq(c, j requires 0 <= j < c => InnerProduct(x, Column(t, j)))
  }

  /** `Matrix * Matrix` before its final `cleanup`. */
  function MatMulRaw(a: Mat, b: Mat, c: nat): Mat
    requires IsShape(b, |b|, c)
    requires forall i :: 0 <= i < |a| ==> |a[i]| == |b|
  {
    seq(|a|, i requires 0 <= i < |a| => seq(c, j requires 0 <= j < c => InnerProduct(a[i], Column(b, j))))
  }

  function Transposed(t: Mat, r: nat, c: nat): Mat
    requires IsShape(t, r, c)
  {
    seq(c, j requires 0 <= j < c => seq(r, i requires 0 <= i < r => t[i][j]))
  }

  function Identity(n: nat): Mat
  {
    seq(n, i requires 0 <= i < n => Unit(n, i))
  }

  // ---------------------------------------------------------------------
  // Properties of the values
  // ---------------------------------------------------------------------

  /** `MatMaxAbs` is determined by its three postconditions. */
  lemma MatMaxAbsUnique(t: Mat, r: real)
    requires r >= 0.0
    requires forall i, j :: 0 <= i < |t| && 0 <= j < |t[i]| ==> Abs(t[i][j]) <= r
    requires r == 0.0 || exists i, j :: 0 <= i < |t| && 0 <= j < |t[i]| && r == Abs(t[i][j])
    ensures MatMaxAbs(t) == r
  {
    MatMaxAbsSpec(t);
  }

  /** The matrix `cleanup` keeps the global maximum magnitude. */
  lemma MatCleanedKeepsMax(t: Mat)
    ensures MatMaxAbs(MatCleaned(t)) == MatMaxAbs(t)
  {
    var max := MatMaxAbs(t);
    var u := MatCleaned(t);
    MatCleanedEntry(t);
    MatMaxAbsSpec(t);
    if max > NEARLY_ZERO {
      var k, l :| 0 <= k < |t| && 0 <= l < |t[k]| && max == Abs(t[k][l]);
      SnappedKeepsLargest(t[k][l], max);
      assert u[k][l] == t[k][l];
      forall i, j | 0 <= i < |u| && 0 <= j < |u[i]| ensures Abs(u[i][j]) <= max {
        assert u[i][j] == Snapped(t[i][j], max);
      }
      MatMaxAbsUnique(u, max);
    }
  }

  /** After the matrix `cleanup` every entry is kept or zeroed, and so never changes sign. */
  lemma MatCleanedEntries(t: Mat)
    ensures |MatCleaned(t)| == |t| && forall i :: 0 <= i < |t| ==> |MatCleaned(t)[i]| == |t[i]|
    ensures forall i, j :: 0 <= i < |t| && 0 <= j < |t[i]| ==>
      MatCleaned(t)[i][j] == t[i][j] || MatCleaned(t)[i][j] == 0.0
    ensures MatMaxAbs(t) > NEARLY_ZERO ==>
      forall i, j :: 0 <= i < |t| && 0 <= j < |t[i]| ==>
        (MatCleaned(t)[i][j] == 0.0 <==> Abs(t[i][j]) / MatMaxAbs(t) < ZERO_TOLERANCE || t[i][j] == 0.0)
    ensures MatMaxAbs(t) <= NEARLY_ZERO ==> MatCleaned(t) == t
  {
    MatCleanedEntry(t);
    if MatMaxAbs(t) > NEARLY_ZERO {
      forall i, j | 0 <= i < |t| && 0 <= j < |t[i]| {
        RatioTestAsProduct(t[i][j], MatMaxAbs(t));
      }
    }
  }

  /** A second matrix `cleanup` changes nothing. */
  lemma MatCleanupIdempotent(t: Mat)
    ensures MatCleaned(MatCleaned(t)) == MatCleaned(t)
  {
    MatCleanedKeepsMax(t);
    var max := MatMaxAbs(t);
    var u := MatCleaned(t);
    MatCleanedEntry(t);
    MatCleanedEntry(u);
    if max > NEARLY_ZERO {
      var w := MatCleaned(u);
      forall i, j | 0 <= i < |u| && 0 <= j < |u[i]| ensures w[i][j] == u[i][j] {
        SnappedIdempotent(t[i][j], max);
      }
      forall i | 0 <= i < |u| ensures w[i] == u[i] {
        assert forall j :: 0 <= j < |u[i]| ==> w[i][j] == u[i][j];
      }
    }
  }

  lemma TransposeInvolution(t: Mat, r: nat, c: nat)
    requires IsShape(t, r, c)
    ensures IsShape(Transposed(t, r, c), c, r)
    ensures Transposed(Transposed(t, r, c), c, r) == t
  {
    SameEntries(Transposed(Transposed(t, r, c), c, r), t, r, c);
  }

  /** `x * A` is `A^T * x` (before cleanup). */
  lemma VecMatIsTransposedMatVec(x: seq<real>, t: Mat, c: nat)
    requires IsShape(t, |x|, c)
    ensures IsShape(Transposed(t, |x|, c), c, |x|)
    ensures VecMatRaw(x, t, c) == MatVecRaw(Transposed(t, |x|, c), x)
  {
    var tt := Transposed(t, |x|, c);
    forall j | 0 <= j < c ensures VecMatRaw(x, t, c)[j] == MatVecRaw(tt, x)[j] {
      assert tt[j] == Column(t, j);
      InnerProductSymmetric(x, Column(t, j));
    }
  }

  /** The identity is a left unit of the matrix product (before cleanup). */
  lemma MatMulIdentityLeft(b: Mat, k: nat, c: nat)
    requires IsShape(b, k, c)
    ensures MatMulRaw(Identity(k), b, c) == b
  {
    var p := MatMulRaw(Identity(k), b, c);
    forall i, j | 0 <= i < k && 0 <= j < c ensures p[i][j] == b[i][j] {
      InnerProductUnit(Column(b, j), i);
    }
    SameEntries(p, b, k, c);
  }

  // ---------------------------------------------------------------------
  // The class
  // ---------------------------------------------------------------------

  /**
   * `new_matrix`: the buffer for a `row` x `col` matrix, zero-filled as each
   * row's `setSize` does; a request with no rows or no columns becomes 0x0.
   */
  method NewBuffer(row: nat, col: nat) returns (r: nat, c: nat, a: array2<real>)
    ensures fresh(a) && a.Length0 == r && a.Length1 == c
    ensures if row == 0 || col == 0 then r == 0 && c == 0 else r == row && c == col
    ensures ToSeq(a) == ZeroMat(r, c)
  {
    r, c := row, col;
    if r == 0 || c == 0 {
      r, c := 0, 0;
    }
    a := new real[r, c];
    var i := 0;
    while i < r
      invariant 0 <= i <= r
      invariant forall i', j' :: 0 <= i' < i && 0 <= j' < c ==> a[i', j'] == 0.0
    {
      var j := 0;
      while j < c
        invariant 0 <= j <= c
        invariant forall i', j' :: 0 <= i' < i && 0 <= j' < c ==> a[i', j'] == 0.0
        invariant forall j' :: 0 <= j' < j ==> a[i, j'] == 0.0
      {
        a[i, j] := 0.0;
        j := j + 1;
      }
      i := i + 1;
    }
    SameEntries(ToSeq(a), ZeroMat(r, c), r, c);
  }

  class Matrix {
    var ptr: array2<real>
    var Row: nat
    var Col: nat

    ghost predicate Valid()
      reads this
    {
      ptr.Length0 == Row && ptr.Length1 == Col && (Row == 0 <==> Col == 0)
    }

    ghost function Rows(): Mat
      reads this, ptr
    {
      ToSeq(ptr)
    }

    /** `Matrix(int row, int col)`: zero-filled, or 0x0 when `row` or `col` is 0. */
    constructor (row: nat, col: nat)
      ensures Valid() && fresh(ptr)
      ensures if row == 0 || col == 0 then Row == 0 && Col == 0 else Row == row && Col == col
      ensures Rows() == ZeroMat(Row, Col)
    {
      var r, c, a := NewBuffer(row, col);
      Row, Col, ptr := r, c, a;
    }

    /** The copy constructor duplicates every row. */
    constructor Copy(init: Matrix)
      requires init.Valid()
      ensures Valid() && fresh(ptr)
      ensures Row == init.Row && Col == init.Col && Rows() == init.Rows()
    {
      var r, c, a := NewBuffer(init.Row, init.Col);
      var i := 0;
      while i < r
        invariant 0 <= i <= r
        invariant forall i', j' :: 0 <= i' < i && 0 <= j' < c ==> a[i', j'] == init.ptr[i', j']
      {
        var j := 0;
        while j < c
          invariant 0 <= j <= c
          invariant forall i', j' :: 0 <= i' < i && 0 <= j' < c ==> a[i', j'] == init.ptr[i', j']
          invariant forall j' :: 0 <= j' < j ==> a[i, j'] == init.ptr[i, j']
        {
          a[i, j] := init.ptr[i, j];
          j := j + 1;
        }
        i := i + 1;
      }
      SameEntries(ToSeq(a), ToSeq(init.ptr), r, c);
      Row, Col, ptr := r, c, a;
    }

    /** `setSize` discards the contents and zero-fills the new shape (0x0 when either is 0). */
    method SetSize(row: nat, col: nat)
      modifies this
      ensures Valid() && fresh(ptr)
      ensures if row == 0 || col == 0 then Row == 0 && Col == 0 else Row == row && Col == col
      ensures Rows() == ZeroMat(Row, Col)
    {
      var r, c, a := NewBuffer(row, col);
      Row, Col, ptr := r, c, a;
    }

    function GetRow(): nat
      reads this
    {
      Row
    }

    function GetCol(): nat
      reads this
    {
      Col
    }

    /** Reading `m[i][j]`; the range is the caller's obligation (the asserts are compiled out). */
    function Get(i: nat, j: nat): real
      reads this, ptr
      requires Valid() && i < Row && j < Col
    {
      ptr[i, j]
    }

    /** `getRow()` is the number of rows and `getCol()` the length of each. */
    lemma ShapeOfRows()
      requires Valid()
      ensures GetRow() == |Rows()| && forall i :: 0 <= i < |Rows()| ==> |Rows()[i]| == GetCol()
    {
    }

    /** `m[i][j]` reads entry `(i, j)` of the rows. */
    lemma GetReadsEntry(i: nat, j: nat)
      requires Valid() && i < Row && j < Col
      ensures Get(i, j) == Rows()[i][j]
    {
    }

    /** Writing `m[i][j] = x` through the references `operator[]` returns. */
    method Set(i: nat, j: nat, x: real)
      requires Valid() && i < Row && j < Col
      modifies ptr
      ensures Rows() == old(Rows())[i := old(Rows())[i][j := x]]
      ensures GetRow() == old(GetRow()) && GetCol() == old(GetCol())
    {
      ghost var t := Rows();
      ptr[i, j] := x;
      SameEntries(Rows(), t[i := t[i][j := x]], Row, Col);
    }

    /** `operator=`: never resizes; a shape mismatch aborts (`ok` false, nothing changes). */
    method Assign(right: Matrix) returns (ok: bool)
      requires Valid() && right.Valid()
      modifies ptr
      ensures ok == (this == right || (Row == right.Row && Col == right.Col))
      ensures ok ==> Rows() == old(right.Rows())
      ensures !ok ==> Rows() == old(Rows())
    {
      if this == right {
        return true;
      }
      if Row != right.Row || Col != right.Col {
        return false;
      }
      ghost var t := Rows();
      ghost var u := right.Rows();
      var i := 0;
      while i < Row
        invariant 0 <= i <= Row
        invariant forall i', j' :: 0 <= i' < Row && 0 <= j' < Col ==>
          ptr[i', j'] == if i' < i then u[i'][j'] else t[i'][j']
      {
        var j := 0;
        while j < Col
          invariant 0 <= j <= Col
          invariant forall i', j' :: 0 <= i' < Row && 0 <= j' < Col ==>
            ptr[i', j'] == if i' < i || (i' == i && j' < j) then u[i'][j'] else t[i'][j']
        {
          ptr[i, j] := right.ptr[i, j];
          j := j + 1;
        }
        i := i + 1;
      }
      SameEntries(Rows(), u, Row, Col);
      ok := true;
    }

    /** `+=` is element-wise and aborts on a shape mismatch. */
    method AddAssign(right: Matrix) returns (ok: bool)
      requires Valid() && right.Valid()
      modifies ptr
      ensures ok == (Row == right.Row && Col == right.Col)
      ensures ok ==> Rows() == MatPlus(old(Rows()), old(right.Rows()))
      ensures !ok ==> Rows() == old(Rows())
    {
      if Row != right.Row || Col != right.Col {
        return false;
      }
      ghost var t := Rows();
      ghost var u := right.Rows();
      var i := 0;
      while i < Row
        invariant 0 <= i <= Row
        invariant forall i', j' :: 0 <= i' < Row && 0 <= j' < Col ==>
          ptr[i', j'] == if i' < i then t[i'][j'] + u[i'][j'] else t[i'][j']
      {
        var j := 0;
        while j < Col
          invariant 0 <= j <= Col
          invariant forall i', j' :: 0 <= i' < Row && 0 <= j' < Col ==>
            ptr[i', j'] == if i' < i || (i' == i && j' < j) then t[i'][j'] + u[i'][j'] else t[i'][j']
        {
          ptr[i, j] := ptr[i, j] + right.ptr[i, j];
          j := j + 1;
        }
        i := i + 1;
      }
      SameEntries(Rows(), MatPlus(t, u), Row, Col);
      ok := true;
    }

    /** `-=` is element-wise and aborts on a shape mismatch. */
    method SubAssign(right: Matrix) returns (ok: bool)
      requires Valid() && right.Valid()
      modifies ptr
      ensures ok == (Row == right.Row && Col == right.Col)
      ensures ok ==> Rows() == MatMinus(old(Rows()), old(right.Rows()))
      ensures !ok ==> Rows() == old(Rows())
    {
      if Row != right.Row || Col != right.Col {
        return false;
      }
      ghost var t := Rows();
      ghost var u := right.Rows();
      var i := 0;
      while i < Row
        invariant 0 <= i <= Row
        invariant forall i', j' :: 0 <= i' < Row && 0 <= j' < Col ==>
          ptr[i', j'] == if i' < i then t[i'][j'] - u[i'][j'] else t[i'][j']
      {
        var j := 0;
        while j < Col
          invariant 0 <= j <= Col
          invariant forall i', j' :: 0 <= i' < Row && 0 <= j' < Col ==>
            ptr[i', j'] == if i' < i || (i' == i && j' < j) then t[i'][j'] - u[i'][j'] else t[i'][j']
        {
          ptr[i, j] := ptr[i, j] - right.ptr[i, j];
          j := j + 1;
        }
        i := i + 1;
      }
      SameEntries(Rows(), MatMinus(t, u), Row, Col);
      ok := true;
    }

    /** `cleanup` with the maximum magnitude taken over the whole matrix. */
    method Cleanup()
      requires Valid()
      modifies ptr
      ensures Rows() == MatCleaned(old(Rows()))
    {
      var max := MaxMagnitude();
      if max > NEARLY_ZERO {
        SnapAll(max);
      }
    }

    /** The first pass of `cleanup`: the largest magnitude, scanned row-major. */
    method MaxMagnitude() returns (max: real)
      requires Valid()
      ensures max == MatMaxAbs(Rows())
    {
      ghost var t := Rows();
      max := 0.0;
      var i := 0;
      while i < Row
        invariant 0 <= i <= Row
        invariant max == MatMaxAbs(t[..i])
      {
        max := RowMaxFrom(i, max);
        assert t[..i + 1][..i] == t[..i];
        i := i + 1;
      }
      assert t[..Row] == t;
    }

    /** The running maximum `max` carried across row `i`. */
    method RowMaxFrom(i: nat, start: real) returns (max: real)
      requires Valid() && i < Row
      ensures max == MaxAbsFrom(start, Rows()[i])
    {
      ghost var r := Rows()[i];
      max := start;
      var j := 0;
      while j < Col
        invariant 0 <= j <= Col
        invariant max == MaxAbsFrom(start, r[..j])
      {
        assert r[..j + 1][..j] == r[..j];
        if Abs(ptr[i, j]) > max {
          max := Abs(ptr[i, j]);
        }
        j := j + 1;
      }
      assert r[..Col] == r;
    }

    /** The second pass of `cleanup`: every entry snapped against `max`. */
    method SnapAll(max: real)
      requires Valid() && max > NEARLY_ZERO && max == MatMaxAbs(Rows())
      modifies ptr
      ensures Rows() == MatCleaned(old(Rows()))
    {
      ghost var t := Rows();
      var i := 0;
      while i < Row
        invariant 0 <= i <= Row
        invariant forall i', j' :: 0 <= i' < Row && 0 <= j' < Col ==>
          ptr[i', j'] == if i' < i then Snapped(t[i'][j'], max) else t[i'][j']
      {
        var j := 0;
        while j < Col
          invariant 0 <= j <= Col
          invariant forall i', j' :: 0 <= i' < Row && 0 <= j' < Col ==>
            ptr[i', j'] == if i' < i || (i' == i && j' < j) then Snapped(t[i'][j'], max) else t[i'][j']
        {
          RatioTestAsProduct(ptr[i, j], max);
          if Abs(ptr[i, j]) / max < ZERO_TOLERANCE {
            ptr[i, j] := 0.0;
          }
          j := j + 1;
        }
        i := i + 1;
      }
      MatCleanedEntry(t);
      SameEntries(Rows(), MatCleaned(t), Row, Col);
    }

    /** `m[i] /= c` on row `i`: aborts when |c| < NEARLY_ZERO, otherwise divides the row. */
    method DivRow(i: nat, c: real) returns (ok: bool)
      requires Valid() && i < Row
      modifies ptr
      ensures ok == (Abs(c) >= NEARLY_ZERO)
      ensures ok ==> Rows() == old(Rows())[i := Quotient(old(Rows())[i], c)]
      ensures !ok ==> Rows() == old(Rows())
    {
      if Abs(c) < NEARLY_ZERO {
        return false;
      }
      ghost var t := Rows();
      var j := 0;
      while j < Col
        invariant 0 <= j <= Col
        invariant forall i', j' :: 0 <= i' < Row && 0 <= j' < Col ==>
          ptr[i', j'] == if i' == i && j' < j then t[i'][j'] / c else t[i'][j']
      {
        ptr[i, j] := ptr[i, j] / c;
        j := j + 1;
      }
      SameEntries(Rows(), t[i := Quotient(t[i], c)], Row, Col);
      ok := true;
    }

    /** `m[i] = -m[i]`: row `i` scaled by -1.0. */
    method NegateRow(i: nat)
      requires Valid() && i < Row
      modifies ptr
      ensures Rows() == old(Rows())[i := Scaled(old(Rows())[i], -1.0)]
    {
      ghost var t := Rows();
      var j := 0;
      while j < Col
        invariant 0 <= j <= Col
        invariant forall i', j' :: 0 <= i' < Row && 0 <= j' < Col ==>
          ptr[i', j'] == if i' == i && j' < j then t[i'][j'] * -1.0 else t[i'][j']
      {
        ptr[i, j] := ptr[i, j] * -1.0;
        j := j + 1;
      }
      SameEntries(Rows(), t[i := Scaled(t[i], -1.0)], Row, Col);
    }

    /** `m[dst] -= m[src]`. */
    method SubRow(dst: nat, src: nat)
      requires Valid() && dst < Row && src < Row
      modifies ptr
      ensures Rows() == old(Rows())[dst := Minus(old(Rows())[dst], old(Rows())[src])]
    {
      ghost var t := Rows();
      var j := 0;
      while j < Col
        invariant 0 <= j <= Col
        invariant forall i', j' :: 0 <= i' < Row && 0 <= j' < Col ==>
          ptr[i', j'] == if i' == dst && j' < j then t[dst][j'] - t[src][j'] else t[i'][j']
      {
        ptr[dst, j] := ptr[dst, j] - ptr[src, j];
        j := j + 1;
      }
      SameEntries(Rows(), t[dst := Minus(t[dst], t[src])], Row, Col);
    }

    /** A copy of row `i` as a new vector (what passing `m[i]` by value makes). */
    method RowCopy(i: nat) returns (v: Vector)
      requires Valid() && i < Row
      ensures fresh(v) && fresh(v.ptr) && v.Valid()
      ensures v.Contents() == Rows()[i]
    {
      v := new Vector(Col);
      var j := 0;
      while j < Col
        invariant 0 <= j <= Col
        invariant v.Valid() && v.Dim == Col
        invariant forall j' :: 0 <= j' < j ==> v.ptr[j'] == ptr[i, j']
        modifies v.ptr
      {
        v.ptr[j] := ptr[i, j];
        j := j + 1;
      }
      assert v.Contents() == Rows()[i];
    }
  }

  // ---------------------------------------------------------------------
  // Non-member operators
  // ---------------------------------------------------------------------

  method Add(left: Matrix, right: Matrix) returns (ok: bool, m: Matrix)
    requires left.Valid() && right.Valid()
    ensures fresh(m) && fresh(m.ptr) && m.Valid()
    ensures ok == (left.Row == right.Row && left.Col == right.Col)
    ensures ok ==> m.Rows() == MatPlus(left.Rows(), right.Rows())
  {
    m := new Matrix.Copy(left);
    ok := m.AddAssign(right);
  }

  method Sub(left: Matrix, right: Matrix) returns (ok: bool, m: Matrix)
    requires left.Valid() && right.Valid()
    ensures fresh(m) && fresh(m.ptr) && m.Valid()
    ensures ok == (left.Row == right.Row && left.Col == right.Col)
    ensures ok ==> m.Rows() == MatMinus(left.Rows(), right.Rows())
  {
    m := new Matrix.Copy(left);
    ok := m.SubAssign(right);
  }

  /** `Matrix * Vector`: aborts unless `Col == |x|`; a vector of length `Row`, cleaned up. */
  method MulVec(a: Matrix, x: Vector) returns (ok: bool, y: Vector)
    requires a.Valid() && x.Valid()
    ensures fresh(y) && fresh(y.ptr) && y.Valid()
    ensures ok == (a.Col == x.Dim)
    ensures ok ==> y.Contents() == Cleaned(MatVecRaw(a.Rows(), x.Contents()))
  {
    if a.Col != x.Dim {
      y := new Vector(0);
      return false, y;
    }
    y := new Vector(a.Row);
    FillRowDots(a, x, y);
    y.Cleanup();
    ok := true;
  }

  /** `y[i] = sum_j a[i][j] * x[j]` for every row `i`. */
  method FillRowDots(a: Matrix, x: Vector, y: Vector)
    requires a.Valid() && x.Valid() && y.Valid() && a.Col == x.Dim && y.Dim == a.Row
    requires y.ptr != x.ptr
    modifies y.ptr
    ensures y.Valid() && y.Contents() == MatVecRaw(a.Rows(), x.Contents())
  {
    ghost var t := a.Rows();
    ghost var xs := x.Contents();
    var i := 0;
    while i < a.Row
      invariant 0 <= i <= a.Row
      invariant y.Valid()
      invariant forall i' :: 0 <= i' < i ==> y.ptr[i'] == InnerProduct(t[i'], xs)
    {
      var sum := RowDot(a, x, i);
      y.ptr[i] := sum;
      i := i + 1;
    }
  }

  /** Row `i` of `a` dotted with `x`, summed left to right. */
  method RowDot(a: Matrix, x: Vector, i: nat) returns (sum: real)
    requires a.Valid() && x.Valid() && a.Col == x.Dim && i < a.Row
    ensures sum == InnerProduct(a.Rows()[i], x.Contents())
  {
    ghost var row := a.Rows()[i];
    ghost var xs := x.Contents();
    sum := 0.0;
    var j := 0;
    while j < a.Col
      invariant 0 <= j <= a.Col
      invariant sum == InnerProduct(row[..j], xs[..j])
    {
      assert row[..j + 1][..j] == row[..j];
      assert xs[..j + 1][..j] == xs[..j];
      sum := sum + a.ptr[i, j] * x.ptr[j];
      j := j + 1;
    }
    assert row[..a.Col] == row;
    assert xs[..a.Col] == xs;
  }

  /** `Vector * Matrix`: aborts unless `Row == |x|`; a vector of length `Col`, cleaned up. */
  method VecMul(x: Vector, a: Matrix) returns (ok: bool, y: Vector)
    requires a.Valid() && x.Valid()
    ensures fresh(y) && fresh(y.ptr) && y.Valid()
    ensures ok == (a.Row == x.Dim)
    ensures ok ==> y.Contents() == Cleaned(VecMatRaw(x.Contents(), a.Rows(), a.Col))
  {
    if a.Row != x.Dim {
      y := new Vector(0);
      return false, y;
    }
    y := new Vector(a.Col);
    FillColumnDots(x, a, y);
    y.Cleanup();
    ok := true;
  }

  /** `y[j] = sum_i x[i] * a[i][j]` for every column `j`. */
  method FillColumnDots(x: Vector, a: Matrix, y: Vector)
    requires a.Valid() && x.Valid() && y.Valid() && a.Row == x.Dim && y.Dim == a.Col
    requires y.ptr != x.ptr
    modifies y.ptr
    ensures y.Valid() && y.Contents() == VecMatRaw(x.Contents(), a.Rows(), a.Col)
  {
    ghost var t := a.Rows();
    ghost var xs := x.Contents();
    var i := 0;
    while i < a.Col
      invariant 0 <= i <= a.Col
      invariant y.Valid()
      invariant forall i' :: 0 <= i' < i ==> y.ptr[i'] == InnerProduct(xs, Column(t, i'))
    {
      var sum := ColumnDot(x, a, i);
      y.ptr[i] := sum;
      i := i + 1;
    }
  }

  /** `x` dotted with column `j` of `a`, summed top to bottom. */
  method ColumnDot(x: Vector, a: Matrix, j: nat) returns (sum: real)
    requires a.Valid() && x.Valid() && a.Row == x.Dim && j < a.Col
    ensures sum == InnerProduct(x.Contents(), Column(a.Rows(), j))
  {
    ghost var xs := x.Contents();
    ghost var col := Column(a.Rows(), j);
    sum := 0.0;
    var i := 0;
    while i < a.Row
      invariant 0 <= i <= a.Row
      invariant sum == InnerProduct(xs[..i], col[..i])
    {
      assert xs[..i + 1][..i] == xs[..i];
      assert col[..i + 1][..i] == col[..i];
      sum := sum + x.ptr[i] * a.ptr[i, j];
      i := i + 1;
    }
    assert xs[..a.Row] == xs;
    assert col[..a.Row] == col;
  }

  /** Row `i` of `left` dotted with column `j` of `right`, accumulated left to right. */
  method RowColumnDot(left: Matrix, right: Matrix, i: nat, j: nat) returns (sum: real)
    requires left.Valid() && right.Valid() && left.Col == right.Row
    requires i < left.Row && j < right.Col
    ensures sum == InnerProduct(left.Rows()[i], Column(right.Rows(), j))
  {
    ghost var row := left.Rows()[i];
    ghost var col := Column(right.Rows(), j);
    sum := 0.0;
    var k := 0;
    while k < left.Col
      invariant 0 <= k <= left.Col
      invariant sum == InnerProduct(row[..k], col[..k])
    {
      assert row[..k + 1][..k] == row[..k];
      assert col[..k + 1][..k] == col[..k];
      sum := sum + left.ptr[i, k] * right.ptr[k, j];
      k := k + 1;
    }
    assert row[..left.Col] == row;
    assert col[..left.Col] == col;
  }

  /** `Matrix * Matrix`: aborts unless `left.Col == right.Row`; `left.Row x right.Col`, cleaned up. */
  method MatMul(left: Matrix, right: Matrix) returns (ok: bool, m: Matrix)
    requires left.Valid() && right.Valid()
    ensures fresh(m) && fresh(m.ptr) && m.Valid()
    ensures ok == (left.Col == right.Row)
    ensures ok ==> m.Row == left.Row && m.Col == right.Col
    ensures ok ==> m.Rows() == MatCleaned(MatMulRaw(left.Rows(), right.Rows(), right.Col))
  {
    if left.Col != right.Row {
      m := new Matrix(0, 0);
      return false, m;
    }
    assert left.Row == 0 <==> right.Col == 0;
    m := new Matrix(left.Row, right.Col);
    var p := ProductBuffer(left, right);
    m.ptr := p;
    m.Cleanup();
    ok := true;
  }

  /** Row `i` of the product written into `p`; the other rows are untouched. */
  method ProductRow(left: Matrix, right: Matrix, p: array2<real>, i: nat)
    requires left.Valid() && right.Valid() && left.Col == right.Row
    requires p.Length0 == left.Row && p.Length1 == right.Col && i < left.Row
    requires p != left.ptr && p != right.ptr
    modifies p
    ensures forall j :: 0 <= j < right.Col ==> p[i, j] == InnerProduct(left.Rows()[i], Column(right.Rows(), j))
    ensures forall i', j :: 0 <= i' < p.Length0 && i' != i && 0 <= j < p.Length1 ==> p[i', j] == old(p[i', j])
  {
    var j := 0;
    while j < right.Col
      invariant 0 <= j <= right.Col
      invariant forall j' :: 0 <= j' < j ==> p[i, j'] == InnerProduct(left.Rows()[i], Column(right.Rows(), j'))
      invariant forall i', j' :: 0 <= i' < p.Length0 && i' != i && 0 <= j' < p.Length1 ==> p[i', j'] == old(p[i', j'])
    {
      var sum := RowColumnDot(left, right, i, j);
      p[i, j] := sum;
      j := j + 1;
    }
  }

  /** The triple loop of `Matrix * Matrix`, filling a fresh `left.Row x right.Col` buffer. */
  method ProductBuffer(left: Matrix, right: Matrix) returns (p: array2<real>)
    requires left.Valid() && right.Valid() && left.Col == right.Row
    ensures fresh(p) && p.Length0 == left.Row && p.Length1 == right.Col
    ensures ToSeq(p) == MatMulRaw(left.Rows(), right.Rows(), right.Col)
  {
    ghost var a := left.Rows();
    ghost var b := right.Rows();
    p := new real[left.Row, right.Col];
    var i := 0;
    while i < left.Row
      invariant 0 <= i <= left.Row
      invariant forall i', j' :: 0 <= i' < i && 0 <= j' < right.Col ==>
        p[i', j'] == InnerProduct(a[i'], Column(b, j'))
    {
      ProductRow(left, right, p, i);
      i := i + 1;
    }
    ghost var q := MatMulRaw(a, b, right.Col);
    assert IsShape(q, left.Row, right.Col);
    assert forall i', j' :: 0 <= i' < left.Row && 0 <= j' < right.Col ==> q[i'][j'] == InnerProduct(a[i'], Column(b, j'));
    SameEntries(ToSeq(p), q, left.Row, right.Col);
  }

  /** `==`: shapes must agree, then every row must be `==` as vectors. */
  method Equal(left: Matrix, right: Matrix) returns (eq: bool)
    requires left.Valid() && right.Valid()
    ensures eq == (left.Row == right.Row && left.Col == right.Col && MatApproxEqual(left.Rows(), right.Rows()))
  {
    if left.Row != right.Row || left.Col != right.Col {
      return false;
    }
    ghost var l := left.Rows();
    ghost var r := right.Rows();
    var i := 0;
    while i < left.Row
      invariant 0 <= i <= left.Row
      invariant forall i' :: 0 <= i' < i ==> ApproxEqual(l[i'], r[i'])
    {
      var j := 0;
      while j < left.Col
        invariant 0 <= j <= left.Col
        invariant forall j' :: 0 <= j' < j ==> Abs(l[i][j'] - r[i][j']) <= NEARLY_ZERO
      {
        if Abs(left.ptr[i, j] - right.ptr[i, j]) > NEARLY_ZERO {
          assert !ApproxEqual(l[i], r[i]);
          return false;
        }
        j := j + 1;
      }
      i := i + 1;
    }
    return true;
  }

  /** `!=` is the negation of `==`. */
  method NotEqual(left: Matrix, right: Matrix) returns (ne: bool)
    requires left.Valid() && right.Valid()
    ensures ne == !(left.Row == right.Row && left.Col == right.Col && MatApproxEqual(left.Rows(), right.Rows()))
  {
    var eq := Equal(left, right);
    ne := !eq;
  }
}
