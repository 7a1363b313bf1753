/**
 * The dense `Vector` class of the library: a buffer of `Dim` doubles
 * (here reals) owned by the object, with element-wise arithmetic that
 * aborts on a size mismatch, guarded division, tolerance equality and
 * `cleanup`. The values a vector holds are described by the functions
 * on `seq<real>` at the top of the module; every method is proved
 * against them.
 */
module Vectors {
  import opened Numeric

  // ---------------------------------------------------------------------
  // Values
  // ---------------------------------------------------------------------

  function Zeros(n: nat): seq<real>
  {
    seq(n, _ => 0.0)
  }

  /** The `k`-th unit vector of length `n`. */
  function Unit(n: nat, k: nat): seq<real>
  {
    seq(n, j => if j == k then 1.0 else 0.0)
  }

  function Plus(l: seq<real>, r: seq<real>): seq<real>
    requires |l| == |r|
  {
    seq(|l|, i requires 0 <= i < |l| => l[i] + r[i])
  }

  function Minus(l: seq<real>, r: seq<real>): seq<real>
    requires |l| == |r|
  {
    seq(|l|, i requires 0 <= i < |l| => l[i] - r[i])
  }

  function Scaled(s: seq<real>, c: real): seq<real>
  {
    seq(|s|, i requires 0 <= i < |s| => s[i] * c)
  }

  function Quotient(s: seq<real>, c: real): seq<real>
    requires c != 0.0
  {
    seq(|s|, i requires 0 <= i < |s| => s[i] / c)
  }

  /** Sum of the pairwise products, accumulated from the left. */
  function InnerProduct(a: seq<real>, b: seq<real>): real
    requires |a| == |b|
    decreases |a|
  {
    if |a| == 0 then 0.0
    else InnerProduct(a[..|a| - 1], b[..|a| - 1]) + a[|a| - 1] * b[|a| - 1]
  }

  /** Equality within the tolerance: same length and every pair within NEARLY_ZERO. */
  predicate ApproxEqual(l: seq<real>, r: seq<real>)
  {
    |l| == |r| && forall i :: 0 <= i < |l| ==> Abs(l[i] - r[i]) <= NEARLY_ZERO
  }

  /**
   * The running maximum of `cleanup`: starting from `m0`, every magnitude
   * that exceeds the current maximum replaces it, left to right.
   */
  function MaxAbsFrom(m0: real, s: seq<real>): (r: real)
    ensures r >= m0
    ensures forall i :: 0 <= i < |s| ==> Abs(s[i]) <= r
    ensures r == m0 || exists i :: 0 <= i < |s| && r == Abs(s[i])
    decreases |s|
  {
    if |s| == 0 then m0
    else
      var m := MaxAbsFrom(m0, s[..|s| - 1]);
      assert forall i :: 0 <= i < |s| - 1 ==> s[..|s| - 1][i] == s[i];
      if Abs(s[|s| - 1]) > m then Abs(s[|s| - 1]) else m
  }

  function MaxAbs(s: seq<real>): real
  {
    MaxAbsFrom(0.0, s)
  }

  /**
   * What `cleanup` does to one entry, given the maximum magnitude `max`:
   * the test `|x| / max < ZERO_TOLERANCE`, written as the product it is
   * equivalent to for a positive `max` (see `RatioTestAsProduct`).
   */
  function Snapped(x: real, max: real): real
    requires max > 0.0
  {
    if Abs(x) < ZERO_TOLERANCE * max then 0.0 else x
  }

  /** The ratio test of `cleanup` and the product test of `Snapped` agree. */
  lemma RatioTestAsProduct(x: real, max: real)
    requires max > 0.0
    ensures Abs(x) / max < ZERO_TOLERANCE <==> Abs(x) < ZERO_TOLERANCE * max
  {
    assert (Abs(x) / max) * max == Abs(x);
  }

  /** The vector after `cleanup`. */
  function Cleaned(s: seq<real>): seq<real>
  {
    var max := MaxAbs(s);
    if max > NEARLY_ZERO then seq(|s|, i requires 0 <= i < |s| => Snapped(s[i], max))
    else s
  }

  // ---------------------------------------------------------------------
  // Properties of the values
  // ---------------------------------------------------------------------

  /** `a + b - b == a`: subtraction undoes addition. */
  lemma MinusUndoesPlus(a: seq<real>, b: seq<real>)
    requires |a| == |b|
    ensures Minus(Plus(a, b), b) == a
  {
  }

  /** Dividing by `c` undoes scaling by `c`. */
  lemma QuotientUndoesScaled(s: seq<real>, c: real)
    requires c != 0.0
    ensures Quotient(Scaled(s, c), c) == s
  {
    var q := Quotient(Scaled(s, c), c);
    forall i | 0 <= i < |s| ensures q[i] == s[i] {
      assert q[i] == (s[i] * c) / c;
    }
  }

  /** Unary minus (scaling by -1.0) negates every entry and is its own inverse. */
  lemma NegationInvolutive(s: seq<real>)
    ensures forall i :: 0 <= i < |s| ==> Scaled(s, -1.0)[i] == -s[i]
    ensures Scaled(Scaled(s, -1.0), -1.0) == s
  {
  }

  lemma {:induction false} InnerProductSymmetric(a: seq<real>, b: seq<real>)
    requires |a| == |b|
    ensures InnerProduct(a, b) == InnerProduct(b, a)
    decreases |a|
  {
    if |a| > 0 {
      InnerProductSymmetric(a[..|a| - 1], b[..|a| - 1]);
    }
  }

  /** The inner product with a unit vector picks out one entry. */
  lemma {:induction false} InnerProductUnit(a: seq<real>, k: nat)
    requires k < |a|
    ensures InnerProduct(Unit(|a|, k), a) == a[k]
    decreases |a|
  {
    var e := Unit(|a|, k);
    var n := |a| - 1;
    if k == n {
      InnerProductZerosLeft(a[..n]);
      assert e[..n] == Zeros(n);
    } else {
      assert e[..n] == Unit(n, k);
      InnerProductUnit(a[..n], k);
    }
  }

  lemma {:induction false} InnerProductZerosLeft(a: seq<real>)
    ensures InnerProduct(Zeros(|a|), a) == 0.0
    decreases |a|
  {
    if |a| > 0 {
      assert Zeros(|a|)[..|a| - 1] == Zeros(|a| - 1);
      InnerProductZerosLeft(a[..|a| - 1]);
    }
  }

  lemma ApproxEqualReflexiveSymmetric(l: seq<real>, r: seq<real>)
    ensures ApproxEqual(l, l)
    ensures ApproxEqual(l, r) == ApproxEqual(r, l)
  {
    assert Abs(0.0) == 0.0;
    forall i | 0 <= i < |l| ensures Abs(l[i] - l[i]) <= NEARLY_ZERO {
      assert l[i] - l[i] == 0.0;
    }
    if |l| == |r| {
      forall i | 0 <= i < |l| ensures Abs(r[i] - l[i]) == Abs(l[i] - r[i]) {
      }
    }
  }

  /** Tolerance equality is not transitive: it is not an equivalence relation. */
  lemma ApproxEqualNotTransitive()
    ensures ApproxEqual([0.0], [0.6e-10]) && ApproxEqual([0.6e-10], [1.2e-10])
    ensures !ApproxEqual([0.0], [1.2e-10])
  {
    var a, c := [0.0], [1.2e-10];
    assert a[0] - c[0] == -1.2e-10;
    assert Abs(a[0] - c[0]) > NEARLY_ZERO;
  }

  /** `MaxAbsFrom` is determined by its three postconditions. */
  lemma MaxAbsFromUnique(m0: real, s: seq<real>, r: real)
    requires r >= m0
    requires forall i :: 0 <= i < |s| ==> Abs(s[i]) <= r
    requires r == m0 || exists i :: 0 <= i < |s| && r == Abs(s[i])
    ensures MaxAbsFrom(m0, s) == r
  {
  }

  /** `cleanup` never changes an entry of the largest magnitude. */
  lemma SnappedKeepsLargest(x: real, max: real)
    requires max > 0.0 && Abs(x) == max
    ensures Snapped(x, max) == x
  {
  }

  /** `cleanup` keeps the maximum magnitude it measured. */
  lemma CleanedKeepsMax(s: seq<real>)
    ensures |Cleaned(s)| == |s|
    ensures MaxAbs(Cleaned(s)) == MaxAbs(s)
  {
    var max := MaxAbs(s);
    var t := Cleaned(s);
    if max > NEARLY_ZERO {
      var k :| 0 <= k < |s| && max == Abs(s[k]);
      SnappedKeepsLargest(s[k], max);
      assert t[k] == s[k];
      forall i | 0 <= i < |t| ensures Abs(t[i]) <= max {
        assert t[i] == Snapped(s[i], max);
      }
      MaxAbsFromUnique(0.0, t, max);
    }
  }

  /** After `cleanup`, an entry is either kept or zero, and no kept entry is noise. */
  lemma CleanedEntries(s: seq<real>)
    ensures |Cleaned(s)| == |s|
    ensures forall i :: 0 <= i < |s| ==> Cleaned(s)[i] == s[i] || Cleaned(s)[i] == 0.0
    ensures MaxAbs(s) > NEARLY_ZERO ==>
      forall i :: 0 <= i < |s| ==> (Cleaned(s)[i] == 0.0 <==> Abs(s[i]) / MaxAbs(s) < ZERO_TOLERANCE || s[i] == 0.0)
    ensures MaxAbs(s) <= NEARLY_ZERO ==> Cleaned(s) == s
  {
    if MaxAbs(s) > NEARLY_ZERO {
      forall i | 0 <= i < |s| {
        RatioTestAsProduct(s[i], MaxAbs(s));
      }
    }
  }

  /** Snapping against the same maximum twice is snapping once. */
  lemma SnappedIdempotent(x: real, max: real)
    requires max > 0.0
    ensures Snapped(Snapped(x, max), max) == Snapped(x, max)
  {
    assert Abs(0.0) == 0.0;
  }

  /** A second `cleanup` changes nothing. */
  lemma CleanupIdempotent(s: seq<real>)
    ensures Cleaned(Cleaned(s)) == Cleaned(s)
  {
    CleanedKeepsMax(s);
    var max := MaxAbs(s);
    var t := Cleaned(s);
    if max > NEARLY_ZERO {
      forall i | 0 <= i < |t| ensures Snapped(t[i], max) == t[i] {
        SnappedIdempotent(s[i], max);
      }
    }
  }

  // ---------------------------------------------------------------------
  // The class
  // ---------------------------------------------------------------------

  class Vector {
    var ptr: array<real>
    var Dim: nat

    ghost predicate Valid()
      reads this
    {
      ptr.Length == Dim
    }

    ghost function Contents(): seq<real>
      reads this, ptr
    {
      ptr[..]
    }

    /** `Vector(int dim)`: `dim` zeros. */
    constructor (dim: nat)
      ensures Valid() && fresh(ptr)
      ensures Dim == dim && Contents() == Zeros(dim)
    {
      var a := new real[dim];
      var i := 0;
      while i < dim
        invariant 0 <= i <= dim
        invariant forall k :: 0 <= k < i ==> a[k] == 0.0
      {
        a[i] := 0.0;
        i := i + 1;
      }
      Dim := dim;
      ptr := a;
      assert a[..] == Zeros(dim);
    }

    /** The copy constructor duplicates the buffer. */
    constructor Copy(init: Vector)
      requires init.Valid()
      ensures Valid() && fresh(ptr)
      ensures Dim == init.Dim && Contents() == init.Contents()
    {
      var a := new real[init.Dim];
      var i := 0;
      while i < init.Dim
        invariant 0 <= i <= init.Dim
        invariant forall k :: 0 <= k < i ==> a[k] == init.ptr[k]
      {
        a[i] := init.ptr[i];
        i := i + 1;
      }
      Dim := init.Dim;
      ptr := a;
    }

    /** `Vector(const double *vec, int dim)`: the first `dim` doubles of `vec`. */
    constructor FromBuffer(vec: array<real>, dim: nat)
      requires dim <= vec.Length
      ensures Valid() && fresh(ptr)
      ensures Dim == dim && Contents() == vec[..dim]
    {
      var a := new real[dim];
      var i := 0;
      while i < dim
        invariant 0 <= i <= dim
        invariant forall k :: 0 <= k < i ==> a[k] == vec[k]
      {
        a[i] := vec[i];
        i := i + 1;
      }
      Dim := dim;
      ptr := a;
    }

    /** `setSize` discards the old buffer and zero-fills a new one of size `dim`. */
    method SetSize(dim: nat)
      modifies this
      ensures Valid() && fresh(ptr)
      ensures Dim == dim && Contents() == Zeros(dim)
    {
      var a := new real[dim];
      var i := 0;
      while i < dim
        invariant 0 <= i <= dim
        invariant forall k :: 0 <= k < i ==> a[k] == 0.0
      {
        a[i] := 0.0;
        i := i + 1;
      }
      Dim := dim;
      ptr := a;
      assert a[..] == Zeros(dim);
    }

    function GetSize(): nat
      reads this
    {
      Dim
    }

    /** Reading `v[i]`; the range is the caller's obligation (the assert is compiled out). */
    function Get(i: nat): real
      reads this, ptr
      requires Valid() && i < Dim
    {
      ptr[i]
    }

    /** `getSize()` is the length of the contents. */
    lemma SizeIsLength()
      requires Valid()
      ensures GetSize() == |Contents()|
    {
    }

    /** `v[i]` reads entry `i` of the contents. */
    lemma GetReadsEntry(i: nat)
      requires Valid() && i < Dim
      ensures Get(i) == Contents()[i]
    {
    }

    /** Writing `v[i] = x` through the reference `operator[]` returns. */
    method Set(i: nat, x: real)
      requires Valid() && i < Dim
      modifies ptr
      ensures Contents() == old(Contents())[i := x]
      ensures GetSize() == old(GetSize())
    {
      ptr[i] := x;
    }

    /** `operator=`: never resizes; a size mismatch aborts (`ok` false, nothing changes). */
    method Assign(right: Vector) returns (ok: bool)
      requires Valid() && right.Valid()
      modifies ptr
      ensures ok == (this == right || Dim == right.Dim)
      ensures ok ==> Contents() == old(right.Contents())
      ensures !ok ==> Contents() == old(Contents())
    {
      if this == right {
        return true;
      }
      if Dim != right.Dim {
        return false;
      }
      var i := 0;
      while i < Dim
        invariant 0 <= i <= Dim
        invariant forall k :: 0 <= k < i ==> ptr[k] == old(right.ptr[k])
        invariant forall k :: i <= k < Dim ==> ptr[k] == old(ptr[k])
      {
        ptr[i] := right.ptr[i];
        i := i + 1;
      }
      ok := true;
    }

    /** `*= c` scales every entry. */
    method MulAssign(c: real)
      requires Valid()
      modifies ptr
      ensures Contents() == Scaled(old(Contents()), c)
    {
      var i := 0;
      while i < Dim
        invariant 0 <= i <= Dim
        invariant forall k :: 0 <= k < i ==> ptr[k] == old(ptr[k]) * c
        invariant forall k :: i <= k < Dim ==> ptr[k] == old(ptr[k])
      {
        ptr[i] := ptr[i] * c;
        i := i + 1;
      }
      ghost var s := old(ptr[..]);
      forall k | 0 <= k < Dim ensures ptr[k] == Scaled(s, c)[k] {
        assert s[k] == old(ptr[k]);
      }
    }

    /** `/= c` aborts when |c| < NEARLY_ZERO and otherwise divides every entry. */
    method DivAssign(c: real) returns (ok: bool)
      requires Valid()
      modifies ptr
      ensures ok == (Abs(c) >= NEARLY_ZERO)
      ensures ok ==> Contents() == Quotient(old(Contents()), c)
      ensures !ok ==> Contents() == old(Contents())
    {
      if Abs(c) < NEARLY_ZERO {
        return false;
      }
      var i := 0;
      while i < Dim
        invariant 0 <= i <= Dim
        invariant forall k :: 0 <= k < i ==> ptr[k] == old(ptr[k]) / c
        invariant forall k :: i <= k < Dim ==> ptr[k] == old(ptr[k])
      {
        ptr[i] := ptr[i] / c;
        i := i + 1;
      }
      ok := true;
    }

    /** `+=` is element-wise and aborts on a size mismatch. */
    method AddAssign(right: Vector) returns (ok: bool)
      requires Valid() && right.Valid()
      modifies ptr
      ensures ok == (Dim == right.Dim)
      ensures ok ==> Contents() == Plus(old(Contents()), old(right.Contents()))
      ensures !ok ==> Contents() == old(Contents())
    {
      if Dim != right.Dim {
        return false;
      }
      var i := 0;
      while i < Dim
        invariant 0 <= i <= Dim
        invariant forall k :: 0 <= k < i ==> ptr[k] == old(ptr[k]) + old(right.ptr[k])
        invariant forall k :: i <= k < Dim ==> ptr[k] == old(ptr[k])
      {
        ptr[i] := ptr[i] + right.ptr[i];
        i := i + 1;
      }
      ok := true;
    }

    /** `-=` is element-wise and aborts on a size mismatch. */
    method SubAssign(right: Vector) returns (ok: bool)
      requires Valid() && right.Valid()
      modifies ptr
      ensures ok == (Dim == right.Dim)
      ensures ok ==> Contents() == Minus(old(Contents()), old(right.Contents()))
      ensures !ok ==> Contents() == old(Contents())
    {
      if Dim != right.Dim {
        return false;
      }
      var i := 0;
      while i < Dim
        invariant 0 <= i <= Dim
        invariant forall k :: 0 <= k < i ==> ptr[k] == old(ptr[k]) - old(right.ptr[k])
        invariant forall k :: i <= k < Dim ==> ptr[k] == old(ptr[k])
      {
        ptr[i] := ptr[i] - right.ptr[i];
        i := i + 1;
      }
      ok := true;
    }

    /** `cleanup`: snap to zero every entry that is negligible next to the largest one. */
    method Cleanup()
      requires Valid()
      modifies ptr
      ensures Contents() == Cleaned(old(Contents()))
    {
      ghost var s := ptr[..];
      var max := 0.0;
      var i := 0;
      while i < Dim
        invariant 0 <= i <= Dim
        invariant max == MaxAbsFrom(0.0, s[..i])
      {
        assert s[..i + 1][..i] == s[..i];
        if Abs(ptr[i]) > max {
          max := Abs(ptr[i]);
        }
        i := i + 1;
      }
      assert s[..Dim] == s;
      if max > NEARLY_ZERO {
        i := 0;
        while i < Dim
          invariant 0 <= i <= Dim
          invariant forall k :: 0 <= k < i ==> ptr[k] == Snapped(s[k], max)
          invariant forall k :: i <= k < Dim ==> ptr[k] == s[k]
        {
          RatioTestAsProduct(ptr[i], max);
          if Abs(ptr[i]) / max < ZERO_TOLERANCE {
            ptr[i] := 0.0;
          }
          i := i + 1;
        }
      }
    }

    /** Unary minus: `-1.0 * v`, a new vector of the same size. */
    method Negate() returns (v: Vector)
      requires Valid()
      ensures fresh(v) && fresh(v.ptr) && v.Valid()
      ensures v.Contents() == Scaled(Contents(), -1.0)
    {
      v := Scale(this, -1.0);
    }
  }

  // ---------------------------------------------------------------------
  // Non-member operators: copy the left operand, then apply the compound form
  // ---------------------------------------------------------------------

  method Add(left: Vector, right: Vector) returns (ok: bool, v: Vector)
    requires left.Valid() && right.Valid()
    ensures fresh(v) && fresh(v.ptr) && v.Valid()
    ensures ok == (left.Dim == right.Dim)
    ensures ok ==> v.Contents() == Plus(left.Contents(), right.Contents())
  {
    v := new Vector.Copy(left);
    ok := v.AddAssign(right);
  }

  method Sub(left: Vector, right: Vector) returns (ok: bool, v: Vector)
    requires left.Valid() && right.Valid()
    ensures fresh(v) && fresh(v.ptr) && v.Valid()
    ensures ok == (left.Dim == right.Dim)
    ensures ok ==> v.Contents() == Minus(left.Contents(), right.Contents())
  {
    v := new Vector.Copy(left);
    ok := v.SubAssign(right);
  }

  /** Both `v * c` and `c * v`. */
  method Scale(left: Vector, c: real) returns (v: Vector)
    requires left.Valid()
    ensures fresh(v) && fresh(v.ptr) && v.Valid()
    ensures v.Contents() == Scaled(left.Contents(), c)
  {
    v := new Vector.Copy(left);
    v.MulAssign(c);
  }

  method Divide(left: Vector, c: real) returns (ok: bool, v: Vector)
    requires left.Valid()
    ensures fresh(v) && fresh(v.ptr) && v.Valid()
    ensures ok == (Abs(c) >= NEARLY_ZERO)
    ensures ok ==> v.Contents() == Quotient(left.Contents(), c)
  {
    v := new Vector.Copy(left);
    ok := v.DivAssign(c);
  }

  /** The dot product `left * right`; a length mismatch aborts. */
  method Dot(left: Vector, right: Vector) returns (ok: bool, a: real)
    requires left.Valid() && right.Valid()
    ensures ok == (left.Dim == right.Dim)
    ensures ok ==> a == InnerProduct(left.Contents(), right.Contents())
  {
    if left.Dim != right.Dim {
      return false, 0.0;
    }
    a := 0.0;
    var i := 0;
    while i < left.Dim
      invariant 0 <= i <= left.Dim
      invariant a == InnerProduct(left.ptr[..i], right.ptr[..i])
    {
      assert left.ptr[..i + 1][..i] == left.ptr[..i];
      assert right.ptr[..i + 1][..i] == right.ptr[..i];
      a := a + left.ptr[i] * right.ptr[i];
      i := i + 1;
    }
    assert left.ptr[..i] == left.ptr[..];
    assert right.ptr[..i] == right.ptr[..];
    ok := true;
  }

  /** `==`: different lengths are never equal; otherwise every pair within NEARLY_ZERO. */
  method Equal(left: Vector, right: Vector) returns (eq: bool)
    requires left.Valid() && right.Valid()
    ensures eq == ApproxEqual(left.Contents(), right.Contents())
  {
    if left.Dim != right.Dim {
      return false;
    }
    var i := 0;
    while i < left.Dim
      invariant 0 <= i <= left.Dim
      invariant forall k :: 0 <= k < i ==> Abs(left.ptr[k] - right.ptr[k]) <= NEARLY_ZERO
    {
      if Abs(left.ptr[i] - right.ptr[i]) > NEARLY_ZERO {
        return false;
      }
      i := i + 1;
    }
    return true;
  }

  /** `!=` is the negation of `==`. */
  method NotEqual(left: Vector, right: Vector) returns (ne: bool)
    requires left.Valid() && right.Valid()
    ensures ne == !ApproxEqual(left.Contents(), right.Contents())
  {
    var eq := Equal(left, right);
    ne := !eq;
  }
}
