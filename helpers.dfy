/**
 * The small helpers of the solver: the `chmin`/`chmax` update-if-better
 * idiom, the `INF` cap of the entering and ratio scans, `sign` and the
 * transpose `T`.
 */
module SimplexHelpers {
  import opened Numeric
  import opened Vectors
  import opened Matrices

  /** The cap of both scans: a candidate must be strictly below it to be chosen. */
  const INF: real := 1e5

  /**
   * `chmin(a, b)`: `a` is replaced by `b` when `a > b`; the boolean says
   * whether it was. The reference argument's new value is the second
   * component.
   */
  function Chmin(a: real, b: real): (r: (bool, real))
    ensures r.1 <= a && r.1 <= b
    ensures r.1 == a || r.1 == b
    ensures r.0 <==> r.1 < a
  {
    if a > b then (true, b) else (false, a)
  }

  /** `chmax(a, b)`: `a` is replaced by `b` when `a < b`. */
  function Chmax(a: real, b: real): (r: (bool, real))
    ensures r.1 >= a && r.1 >= b
    ensures r.1 == a || r.1 == b
    ensures r.0 <==> r.1 > a
  {
    if a < b then (true, b) else (false, a)
  }

  /** The sign of one entry as `sign` computes it: -1, 0 or 1. */
  function SignOf(x: real): (r: real)
    ensures r == -1.0 || r == 0.0 || r == 1.0
    ensures r * x == Abs(x)
    ensures r == 0.0 <==> x == 0.0
  {
    if x < 0.0 then -1.0 else if x == 0.0 then 0.0 else 1.0
  }

  function Signs(s: seq<real>): seq<real>
  {
    seq(|s|, i requires 0 <= i < |s| => SignOf(s[i]))
  }

  /** Scaling each entry by its sign gives its magnitude, so the signs make every entry non-negative. */
  lemma SignsTimesEntries(s: seq<real>)
    ensures |Signs(s)| == |s|
    ensures forall i :: 0 <= i < |s| ==> Signs(s)[i] * s[i] == Abs(s[i]) >= 0.0
  {
  }

  /** `sign(V)`: a new vector of the entries' signs. */
  method Sign(v: Vector) returns (signs: Vector)
    requires v.Valid()
    ensures fresh(signs) && fresh(signs.ptr) && signs.Valid()
    ensures signs.Contents() == Signs(v.Contents())
  {
    signs := new Vector(v.Dim);
    var i := 0;
    while i < v.Dim
      invariant 0 <= i <= v.Dim
      invariant signs.Valid() && signs.Dim == v.Dim
      invariant forall k :: 0 <= k < i ==> signs.ptr[k] == SignOf(v.ptr[k])
      modifies signs.ptr
    {
      signs.ptr[i] := if v.ptr[i] < 0.0 then -1.0 else if v.ptr[i] == 0.0 then 0.0 else 1.0;
      i := i + 1;
    }
  }

  /** `T(A)`: a new `Col x Row` matrix with `AT[j][i] == A[i][j]`. */
  method Transpose(a: Matrix) returns (at: Matrix)
    requires a.Valid()
    ensures fresh(at) && fresh(at.ptr) && at.Valid()
    ensures at.Row == a.Col && at.Col == a.Row
    ensures at.Rows() == Transposed(a.Rows(), a.Row, a.Col)
  {
    at := new Matrix(a.Col, a.Row);
    var i := 0;
    while i < a.Row
      invariant 0 <= i <= a.Row
      invariant at.Valid() && at.Row == a.Col && at.Col == a.Row
      invariant forall j', i' :: 0 <= j' < a.Col && 0 <= i' < i ==> at.ptr[j', i'] == a.ptr[i', j']
      modifies at.ptr
    {
      var j := 0;
      while j < a.Col
        invariant 0 <= j <= a.Col
        invariant forall j', i' :: 0 <= j' < a.Col && 0 <= i' < i ==> at.ptr[j', i'] == a.ptr[i', j']
        invariant forall j' :: 0 <= j' < j ==> at.ptr[j', i] == a.ptr[i, j']
        modifies at.ptr
      {
        at.ptr[j, i] := a.ptr[i, j];
        j := j + 1;
      }
      i := i + 1;
    }
    SameEntries(at.Rows(), Transposed(a.Rows(), a.Row, a.Col), a.Col, a.Row);
  }
}
