/**
 * The two tableau builders of the solver: `createMatrix`, which lays out
 * `[A | I | b ; -c | 0 | 0]` for a problem `max c.x, A x <= b, x >= 0`,
 * and `subProblem`, Phase I, which adds one artificial column per
 * negative `b[i]`, drives them out with `simplexMethod2` and reassembles
 * the Phase II tableau `(m + 1) x (n + m + 1)` with the mirrored
 * objective as its last row.
 */
module Tableaux {
  import opened Numeric
  import opened Vectors
  import opened Matrices
  import opened PivotEngine

  // ---------------------------------------------------------------------
  // createMatrix
  // ---------------------------------------------------------------------

  /**
   * `A` covers the `m x n` block the builders read. When `n` is 0 no entry
   * of `A` is read, so any `A` (the `0 x 0` matrix among them) will do.
   */
  predicate CoversProblem(a: Mat, m: nat, n: nat)
  {
    forall i :: 0 <= i < m ==> CoversRow(a, i, n)
  }

  /** Row `i` of `A` has the `n` coefficients the builders read, or none is read. */
  predicate CoversRow(a: Mat, i: nat, n: nat)
  {
    n == 0 || (i < |a| && n <= |a[i]|)
  }

  /** The first `n` coefficients of row `i` of `A`; empty when `n` is 0. */
  function Coefficients(a: Mat, i: nat, n: nat): (r: seq<real>)
    requires CoversRow(a, i, n)
    ensures |r| == n && forall j :: 0 <= j < n ==> r[j] == a[i][j]
  {
    if n == 0 then [] else a[i][..n]
  }

  /** The standard tableau by blocks: rows `A[i] e_i b[i]` and the objective row `-c 0 0`. */
  function StandardTableau(a: Mat, b: seq<real>, c: seq<real>): Mat
    requires CoversProblem(a, |b|, |c|)
  {
    seq(|b| + 1, i requires 0 <= i <= |b| =>
      if i < |b| then Coefficients(a, i, |c|) + Unit(|b|, i) + [b[i]]
      else Scaled(c, -1.0) + Zeros(|b|) + [0.0])
  }

  /** Entry `(i, j)` as the fill loop of `createMatrix` writes it, case by case. */
  function StandardEntry(a: Mat, b: seq<real>, c: seq<real>, i: nat, j: nat): real
    requires CoversProblem(a, |b|, |c|) && i <= |b| && j <= |c| + |b|
  {
    var m, n := |b|, |c|;
    if i < m && j < n then assert CoversRow(a, i, n); a[i][j]
    else if i < m && j >= n && j < n + m then (if j - n == i then 1.0 else 0.0)
    else if i < m && j == n + m then b[i]
    else if i == m && j < n then -c[j]
    else 0.0
  }

  /** Row `i` of the fill loop. */
  function StandardRow(a: Mat, b: seq<real>, c: seq<real>, i: nat): (r: seq<real>)
    requires CoversProblem(a, |b|, |c|) && i <= |b|
    ensures |r| == |c| + |b| + 1
  {
    seq(|c| + |b| + 1, j requires 0 <= j < |c| + |b| + 1 => StandardEntry(a, b, c, i, j))
  }

  /** The case-by-case fill is the block layout, row by row. */
  lemma StandardRowsAreBlocks(a: Mat, b: seq<real>, c: seq<real>, i: nat)
    requires CoversProblem(a, |b|, |c|) && i <= |b|
    ensures StandardRow(a, b, c, i) == StandardTableau(a, b, c)[i]
  {
    var m, n := |b|, |c|;
    var r := StandardTableau(a, b, c)[i];
    assert |r| == n + m + 1;
    forall j | 0 <= j < n + m + 1 ensures StandardRow(a, b, c, i)[j] == r[j] {
      if i < m {
        assert r == Coefficients(a, i, n) + Unit(m, i) + [b[i]];
        if j < n {
          assert CoversRow(a, i, n) && r[j] == a[i][j];
        } else if j < n + m {
          assert r[j] == Unit(m, i)[j - n];
        }
      } else {
        assert r == Scaled(c, -1.0) + Zeros(m) + [0.0];
        if j < n {
          assert r[j] == c[j] * -1.0;
        } else if j < n + m {
          assert r[j] == Zeros(m)[j - n];
        }
      }
    }
  }

  /**
   * The standard tableau has `m + 1` rows of `n + m + 1` entries; column
   * `n + k` is the unit vector of row `k`, row `m` holds `-c`, and the
   * right-hand sides are `b` with the objective value 0.
   */
  lemma StandardTableauLayout(a: Mat, b: seq<real>, c: seq<real>)
    requires CoversProblem(a, |b|, |c|)
    ensures var t := StandardTableau(a, b, c);
      IsTableau(t) && |t| == |b| + 1 && Width(t) == |c| + |b| + 1 &&
      (forall i, j :: 0 <= i < |b| && 0 <= j < |c| ==> t[i][j] == Coefficients(a, i, |c|)[j]) &&
      (forall i, j :: 0 <= i <= |b| && |c| <= j < |c| + |b| ==> t[i][j] == if i == j - |c| then 1.0 else 0.0) &&
      (forall j :: 0 <= j < |c| ==> t[|b|][j] == -c[j]) &&
      (forall i :: 0 <= i < |b| ==> t[i][|c| + |b|] == b[i]) &&
      t[|b|][|c| + |b|] == 0.0
  {
    var m, n := |b|, |c|;
    var t := StandardTableau(a, b, c);
    forall i | 0 <= i <= m ensures |t[i]| == n + m + 1 && t[i] == StandardRow(a, b, c, i) {
      StandardRowsAreBlocks(a, b, c, i);
    }
  }

  /** Non-negative right-hand sides make the standard tableau feasible. */
  lemma StandardTableauFeasible(a: Mat, b: seq<real>, c: seq<real>)
    requires CoversProblem(a, |b|, |c|) && forall i :: 0 <= i < |b| ==> b[i] >= 0.0
    ensures IsTableau(StandardTableau(a, b, c)) && Feasible(StandardTableau(a, b, c))
  {
    StandardTableauLayout(a, b, c);
  }

  /**
   * With no variables no entry of `A` is read: the `0 x 0` matrix that
   * `Matrix(1, 0)` becomes, with `b = [2]`, gives the tableau `[1 2 ; 0 0]`.
   */
  lemma StandardTableauWithoutColumns()
    ensures CoversProblem([], 1, 0)
    ensures StandardTableau([], [2.0], []) == [[1.0, 2.0], [0.0, 0.0]]
  {
    var t := StandardTableau([], [2.0], []);
    assert Coefficients([], 0, 0) == [] && Unit(1, 0) == [1.0];
    assert Scaled([], -1.0) == [] && Zeros(1) == [0.0];
    assert |t| == 2 && t[0] == [1.0, 2.0] && t[1] == [0.0, 0.0];
  }

  /** `createMatrix(A, b, c)`: a fresh `(m + 1) x (n + m + 1)` matrix filled entry by entry. */
  method CreateMatrix(a: Matrix, b: Vector, c: Vector) returns (all: Matrix)
    requires a.Valid() && b.Valid() && c.Valid()
    requires CoversProblem(a.Rows(), b.Dim, c.Dim)
    ensures fresh(all) && fresh(all.ptr) && all.Valid()
    ensures all.Row == b.Dim + 1 && all.Col == c.Dim + b.Dim + 1
    ensures all.Rows() == StandardTableau(a.Rows(), b.Contents(), c.Contents())
  {
    var m, n := b.Dim, c.Dim;
    ghost var at, bs, cs := a.Rows(), b.Contents(), c.Contents();
    all := new Matrix(m + 1, n + m + 1);
    var i := 0;
    while i < m + 1
      invariant 0 <= i <= m + 1
      invariant all.Valid() && all.Row == m + 1 && all.Col == n + m + 1
      invariant forall k :: 0 <= k < m + 1 ==> all.Rows()[k] == if k < i then StandardRow(at, bs, cs, k) else Zeros(n + m + 1)
      modifies all.ptr
    {
      FillStandardRow(all, a, b, c, i);
      i := i + 1;
    }
    forall k | 0 <= k < m + 1 ensures all.Rows()[k] == StandardTableau(at, bs, cs)[k] {
      StandardRowsAreBlocks(at, bs, cs, k);
    }
  }

  /** The inner loop of `createMatrix` for row `i`. */
  method FillStandardRow(all: Matrix, a: Matrix, b: Vector, c: Vector, i: nat)
    requires a.Valid() && b.Valid() && c.Valid() && CoversProblem(a.Rows(), b.Dim, c.Dim)
    requires all.Valid() && all.Row == b.Dim + 1 && all.Col == c.Dim + b.Dim + 1 && i < all.Row
    requires all.ptr != a.ptr
    modifies all.ptr
    ensures all.Valid() && all.Rows() == old(all.Rows())[i := StandardRow(a.Rows(), b.Contents(), c.Contents(), i)]
  {
    var m, n := b.Dim, c.Dim;
    ghost var t := all.Rows();
    ghost var at, bs, cs := a.Rows(), b.Contents(), c.Contents();
    var j := 0;
    while j < n + m + 1
      invariant 0 <= j <= n + m + 1
      invariant forall i', j' :: 0 <= i' < all.Row && 0 <= j' < all.Col ==>
        all.ptr[i', j'] == if i' == i && j' < j then StandardEntry(at, bs, cs, i, j') else t[i'][j']
    {
      var x: real;
      if i < m && j < n {
        assert CoversRow(at, i, n) && |at[i]| == a.Col;
        x := a.Get(i, j);
      } else if i < m && j >= n && j < n + m {
        x := if j - n == i then 1.0 else 0.0;
      } else if i < m && j == n + m {
        x := b.Get(i);
      } else if i == m && j < n {
        x := -c.Get(j);
      } else {
        x := 0.0;
      }
      all.ptr[i, j] := x;
      j := j + 1;
    }
    SameEntries(all.Rows(), t[i := StandardRow(at, bs, cs, i)], all.Row, all.Col);
  }

  // ---------------------------------------------------------------------
  // subProblem: the Phase I tableau
  // ---------------------------------------------------------------------

  /** How many of `b[0..k-1]` are negative: `cnt` for `k = m`, and `flag` when the loop reaches row `k`. */
  function NegativesBelow(b: seq<real>, k: nat): (r: nat)
    requires k <= |b|
    ensures r <= k
  {
    if k == 0 then 0 else NegativesBelow(b, k - 1) + (if b[k - 1] < 0.0 then 1 else 0)
  }

  /** A negative row `i` gets an artificial column strictly before the `cnt`-th. */
  lemma {:induction false} NegativeRowNumbered(b: seq<real>, i: nat, k: nat)
    requires i < k <= |b| && b[i] < 0.0
    ensures NegativesBelow(b, i) < NegativesBelow(b, k)
    decreases k
  {
    if k > i + 1 {
      NegativeRowNumbered(b, i, k - 1);
    }
  }

  /** The count never decreases as the loop moves on. */
  lemma {:induction false} NegativesBelowMonotone(b: seq<real>, i: nat, k: nat)
    requires i <= k <= |b|
    ensures NegativesBelow(b, i) <= NegativesBelow(b, k)
    decreases k
  {
    if k > i {
      NegativesBelowMonotone(b, i, k - 1);
    }
  }

  /** The all-ones row of the given length. */
  function Ones(k: nat): seq<real>
  {
    seq(k, _ => 1.0)
  }

  /**
   * The Phase I tableau before the artificial variables are placed, by
   * blocks: rows `A[i] e_i 0 b[i]` and the objective row `0 0 1 0`, with
   * `cnt` artificial columns.
   */
  function SubStart(a: Mat, b: seq<real>, c: seq<real>, cnt: nat): Mat
    requires CoversProblem(a, |b|, |c|)
  {
    seq(|b| + 1, i requires 0 <= i <= |b| =>
      if i < |b| then Coefficients(a, i, |c|) + Unit(|b|, i) + Zeros(cnt) + [b[i]]
      else Zeros(|c| + |b|) + Ones(cnt) + [0.0])
  }

  /** Entry `(i, j)` as the first fill loop of `subProblem` writes it (cases it skips stay 0). */
  function SubEntry(a: Mat, b: seq<real>, c: seq<real>, cnt: nat, i: nat, j: nat): real
    requires CoversProblem(a, |b|, |c|) && i <= |b| && j <= |c| + |b| + cnt
  {
    var m, n := |b|, |c|;
    if i < m && j < n then assert CoversRow(a, i, n); a[i][j]
    else if i < m && j >= n && j < n + m then (if j - n == i then 1.0 else 0.0)
    else if i < m && j == n + m + cnt then b[i]
    else if i == m && j < n + m then 0.0
    else if i == m && j >= n + m && j < n + m + cnt then 1.0
    else 0.0
  }

  function SubRowStart(a: Mat, b: seq<real>, c: seq<real>, cnt: nat, i: nat): (r: seq<real>)
    requires CoversProblem(a, |b|, |c|) && i <= |b|
    ensures |r| == |c| + |b| + cnt + 1
  {
    seq(|c| + |b| + cnt + 1, j requires 0 <= j < |c| + |b| + cnt + 1 => SubEntry(a, b, c, cnt, i, j))
  }

  /** The case-by-case fill is the block layout, row by row. */
  lemma SubRowsAreBlocks(a: Mat, b: seq<real>, c: seq<real>, cnt: nat, i: nat)
    requires CoversProblem(a, |b|, |c|) && i <= |b|
    ensures SubRowStart(a, b, c, cnt, i) == SubStart(a, b, c, cnt)[i]
  {
    var m, n := |b|, |c|;
    var r := SubStart(a, b, c, cnt)[i];
    assert |r| == n + m + cnt + 1;
    forall j | 0 <= j < n + m + cnt + 1 ensures SubRowStart(a, b, c, cnt, i)[j] == r[j] {
      if i < m {
        assert r == Coefficients(a, i, n) + Unit(m, i) + Zeros(cnt) + [b[i]];
        if j < n {
          assert CoversRow(a, i, n) && r[j] == a[i][j];
        } else if j < n + m {
          assert r[j] == Unit(m, i)[j - n];
        } else if j < n + m + cnt {
          assert r[j] == Zeros(cnt)[j - n - m];
        }
      } else {
        assert r == Zeros(n + m) + Ones(cnt) + [0.0];
        if j < n + m {
          assert r[j] == Zeros(n + m)[j];
        } else if j < n + m + cnt {
          assert r[j] == Ones(cnt)[j - n - m];
        }
      }
    }
  }

  /** `t` has `|b| + 1` rows of equal length and room for every artificial column after `base`. */
  predicate ArtificialsFit(t: Mat, b: seq<real>, base: nat)
  {
    |t| == |b| + 1 && IsShape(t, |b| + 1, |t[0]|) && base + NegativesBelow(b, |b|) < |t[0]|
  }

  /**
   * Row `r` once the second loop of `subProblem` has put -1 in its
   * artificial column `base + NegativesBelow(b, r)` and negated it.
   */
  function Negated(t: Mat, b: seq<real>, base: nat, r: nat): (s: seq<real>)
    requires r < |b| < |t|
    ensures |s| == |t[r]|
  {
    var col := base + NegativesBelow(b, r);
    seq(|t[r]|, j requires 0 <= j < |t[r]| => (if j == col then -1.0 else t[r][j]) * -1.0)
  }

  /** Row `m` once the second loop has subtracted the negated rows among the first `k`. */
  function ObjectiveAfter(t: Mat, b: seq<real>, base: nat, k: nat): (s: seq<real>)
    requires ArtificialsFit(t, b, base) && k <= |b|
    ensures |s| == |t[|b|]|
  {
    if k == 0 then t[|b|]
    else if b[k - 1] < 0.0 then Minus(ObjectiveAfter(t, b, base, k - 1), Negated(t, b, base, k - 1))
    else ObjectiveAfter(t, b, base, k - 1)
  }

  /**
   * The tableau after the first `k` rounds of the second loop of
   * `subProblem`: each negative row among them negated with +1 in its
   * own artificial column, row `m` less those rows, the rest as in `t`.
   */
  function Artificials(t: Mat, b: seq<real>, base: nat, k: nat): (u: Mat)
    requires ArtificialsFit(t, b, base) && k <= |b|
    ensures IsShape(u, |b| + 1, |t[0]|)
  {
    seq(|b| + 1, r requires 0 <= r <= |b| =>
      if r == |b| then ObjectiveAfter(t, b, base, k)
      else if r < k && b[r] < 0.0 then Negated(t, b, base, r)
      else t[r])
  }

  /** Before the second loop runs, nothing has changed. */
  lemma ArtificialsStart(t: Mat, b: seq<real>, base: nat)
    requires ArtificialsFit(t, b, base)
    ensures Artificials(t, b, base, 0) == t
  {
    var u := Artificials(t, b, base, 0);
    forall r | 0 <= r <= |b| ensures u[r] == t[r] {
      if r == |b| {
        assert u[r] == ObjectiveAfter(t, b, base, 0);
      }
    }
  }

  /**
   * Round `k` of the second loop for a negative `b[k]`, as the source
   * performs it: -1 in column `base + NegativesBelow(b, k)` of row `k`,
   * the row negated and then subtracted from row `m`.
   */
  lemma ArtificialsNegativeStep(t: Mat, b: seq<real>, base: nat, k: nat, col: nat)
    requires ArtificialsFit(t, b, base) && k < |b| && b[k] < 0.0 && col == base + NegativesBelow(b, k)
    ensures col < |t[0]|
    ensures Artificials(t, b, base, k + 1) == Marked(Artificials(t, b, base, k), k, col)
  {
    NegativeRowNumbered(b, k, |b|);
    var u, v := Artificials(t, b, base, k), Artificials(t, b, base, k + 1);
    var r := Scaled(u[k][col := -1.0], -1.0);
    assert u[k] == t[k];
    assert r == Negated(t, b, base, k);
    var w := u[k := r][|b| := Minus(u[|b|], r)];
    forall i | 0 <= i <= |b| ensures v[i] == w[i] {
    }
  }

  /** `Sub[i][col] = -1; Sub[i] = -Sub[i]; Sub[m] -= Sub[i];` on the values, `m` being the last row. */
  function Marked(t: Mat, i: nat, col: nat): (u: Mat)
    requires i < |t| - 1 && col < |t[i]| && |t[i]| == |t[|t| - 1]|
    ensures |u| == |t| && forall k :: 0 <= k < |t| ==> |u[k]| == |t[k]|
  {
    var r := Scaled(t[i][col := -1.0], -1.0);
    t[i := r][|t| - 1 := Minus(t[|t| - 1], r)]
  }

  /** Round `k` of the second loop changes nothing when `b[k] >= 0`. */
  lemma ArtificialsSkipStep(t: Mat, b: seq<real>, base: nat, k: nat)
    requires ArtificialsFit(t, b, base) && k < |b| && b[k] >= 0.0
    ensures Artificials(t, b, base, k + 1) == Artificials(t, b, base, k)
  {
    var u, v := Artificials(t, b, base, k), Artificials(t, b, base, k + 1);
    forall i | 0 <= i <= |b| ensures v[i] == u[i] {
    }
  }

  /**
   * The objective row starts with 1 in every artificial column and each
   * negated row holds +1 in its own artificial column and 0 in the
   * others, so after `k` rounds the first `NegativesBelow(b, k)`
   * artificial entries of row `m` are 0 and the others still 1.
   */
  lemma {:induction false} ObjectiveArtificials(t: Mat, b: seq<real>, base: nat, k: nat)
    requires ArtificialsFit(t, b, base) && k <= |b|
    requires forall r, j :: 0 <= r < |b| && base <= j < base + NegativesBelow(b, |b|) ==> t[r][j] == 0.0
    requires forall j :: base <= j < base + NegativesBelow(b, |b|) ==> t[|b|][j] == 1.0
    ensures forall j :: base <= j < base + NegativesBelow(b, |b|) ==>
      ObjectiveAfter(t, b, base, k)[j] == if j < base + NegativesBelow(b, k) then 0.0 else 1.0
  {
    if k > 0 {
      ObjectiveArtificials(t, b, base, k - 1);
      NegativesBelowMonotone(b, k, |b|);
    }
  }

  /** With no negative `b[r]`, the second loop changes nothing. */
  lemma {:induction false} ObjectiveUntouched(t: Mat, b: seq<real>, base: nat, k: nat)
    requires ArtificialsFit(t, b, base) && k <= |b| && forall r :: 0 <= r < |b| ==> b[r] >= 0.0
    ensures ObjectiveAfter(t, b, base, k) == t[|b|]
  {
    if k > 0 {
      ObjectiveUntouched(t, b, base, k - 1);
    }
  }

  /** The Phase I tableau `subProblem` hands to `simplexMethod2`. */
  function SubTableau(a: Mat, b: seq<real>, c: seq<real>): (u: Mat)
    requires CoversProblem(a, |b|, |c|)
    ensures IsShape(u, |b| + 1, |c| + |b| + NegativesBelow(b, |b|) + 1)
  {
    SubStartFits(a, b, c, NegativesBelow(b, |b|));
    Artificials(SubStart(a, b, c, NegativesBelow(b, |b|)), b, |c| + |b|, |b|)
  }

  /** The two loops of `subProblem` build exactly the Phase I tableau. */
  lemma SubTableauBuilt(a: Mat, b: seq<real>, c: seq<real>, cnt: nat)
    requires CoversProblem(a, |b|, |c|) && cnt == NegativesBelow(b, |b|)
    ensures ArtificialsFit(SubStart(a, b, c, cnt), b, |c| + |b|)
    ensures Artificials(SubStart(a, b, c, cnt), b, |c| + |b|, |b|) == SubTableau(a, b, c)
  {
    SubStartFits(a, b, c, cnt);
    SubStartCounted(a, b, c, cnt);
  }

  lemma SubStartCounted(a: Mat, b: seq<real>, c: seq<real>, cnt: nat)
    requires CoversProblem(a, |b|, |c|) && cnt == NegativesBelow(b, |b|)
    ensures SubStart(a, b, c, cnt) == SubStart(a, b, c, NegativesBelow(b, |b|))
  {
  }

  lemma SubStartFits(a: Mat, b: seq<real>, c: seq<real>, cnt: nat)
    requires CoversProblem(a, |b|, |c|) && cnt == NegativesBelow(b, |b|)
    ensures ArtificialsFit(SubStart(a, b, c, cnt), b, |c| + |b|)
  {
    SubStartShape(a, b, c, cnt);
  }

  lemma SubStartShape(a: Mat, b: seq<real>, c: seq<real>, cnt: nat)
    requires CoversProblem(a, |b|, |c|)
    ensures IsShape(SubStart(a, b, c, cnt), |b| + 1, |c| + |b| + cnt + 1)
  {
    forall i | 0 <= i <= |b| ensures |SubStart(a, b, c, cnt)[i]| == |c| + |b| + cnt + 1 {
      if i < |b| {
        assert |Coefficients(a, i, |c|)| == |c|;
      } else {
        assert |Zeros(|c| + |b|) + Ones(cnt) + [0.0]| == |c| + |b| + cnt + 1;
      }
    }
  }

  /** The Phase I tableau and objective `C` fit the shape `simplexMethod2` and the end of `subProblem` need. */
  lemma PhaseOneInputShape(a: Mat, b: seq<real>, c: seq<real>)
    requires CoversProblem(a, |b|, |c|)
    ensures PhaseOneShape(SubTableau(a, b, c), PhaseOneObjective(c, |c| + |b| + NegativesBelow(b, |b|) + 1),
      |c|, |b|, NegativesBelow(b, |b|))
  {
    SubTableauShape(a, b, c);
  }

  /** The Phase I tableau has `m + 1` rows and exactly `cnt` artificial columns `n+m .. n+m+cnt-1`. */
  lemma SubTableauShape(a: Mat, b: seq<real>, c: seq<real>)
    requires CoversProblem(a, |b|, |c|)
    ensures IsTableau(SubTableau(a, b, c)) && |SubTableau(a, b, c)| == |b| + 1
    ensures Width(SubTableau(a, b, c)) == |c| + |b| + NegativesBelow(b, |b|) + 1
  {
  }

  /**
   * `r` is constraint row `i` with `b[i] < 0`, the `k`-th negative row:
   * `-A[i] -e_i`, +1 in artificial column `n+m+k`, 0 in the other
   * artificial columns and right-hand side `-b[i]`.
   */
  predicate NegatedRow(r: seq<real>, ai: seq<real>, b: seq<real>, n: nat, i: nat)
    requires i < |b|
  {
    var m, cnt, k := |b|, NegativesBelow(b, |b|), NegativesBelow(b, i);
    |r| == n + m + cnt + 1 && n <= |ai| && k < cnt &&
    (forall j :: 0 <= j < n ==> r[j] == -ai[j]) &&
    r[n + i] == -1.0 && (forall j :: n <= j < n + m && j != n + i ==> r[j] == 0.0) &&
    r[n + m + k] == 1.0 && (forall j :: n + m <= j < n + m + cnt && j != n + m + k ==> r[j] == 0.0) &&
    r[n + m + cnt] == -b[i]
  }

  /**
   * Constraint row `i` of the Phase I tableau: `A[i] e_i 0 b[i]` when
   * `b[i] >= 0`; otherwise, being the `k`-th negative row, it is
   * `-A[i] -e_i` with +1 in column `n+m+k`, 0 in the other artificial
   * columns and right-hand side `-b[i] > 0`.
   */
  lemma SubTableauRow(a: Mat, b: seq<real>, c: seq<real>, i: nat)
    requires CoversProblem(a, |b|, |c|) && i < |b|
    ensures b[i] >= 0.0 ==> SubTableau(a, b, c)[i] == Coefficients(a, i, |c|) + Unit(|b|, i) + Zeros(NegativesBelow(b, |b|)) + [b[i]]
    ensures b[i] < 0.0 ==> NegatedRow(SubTableau(a, b, c)[i], Coefficients(a, i, |c|), b, |c|, i)
  {
    SubStartShape(a, b, c, NegativesBelow(b, |b|));
    SubRowsAreBlocks(a, b, c, NegativesBelow(b, |b|), i);
    if b[i] < 0.0 {
      NegatedStartRow(a, b, c, i);
    }
  }

  /** Negating row `i` of the starting layout gives the row `NegatedRow` describes. */
  lemma NegatedStartRow(a: Mat, b: seq<real>, c: seq<real>, i: nat)
    requires CoversProblem(a, |b|, |c|) && i < |b| && b[i] < 0.0
    ensures |SubStart(a, b, c, NegativesBelow(b, |b|))| == |b| + 1
    ensures NegatedRow(Negated(SubStart(a, b, c, NegativesBelow(b, |b|)), b, |c| + |b|, i), Coefficients(a, i, |c|), b, |c|, i)
  {
    SubStartShape(a, b, c, NegativesBelow(b, |b|));
    NegativeRowNumbered(b, i, |b|);
    BlockRowEntries(SubStart(a, b, c, NegativesBelow(b, |b|))[i], Coefficients(a, i, |c|), |b|, i, NegativesBelow(b, |b|), b[i]);
    NegatedBlockRow(SubStart(a, b, c, NegativesBelow(b, |b|)), Coefficients(a, i, |c|), b, |c|, i);
  }

  /** Negating a row laid out as `A[i] e_i 0 b[i]`, given entry by entry, gives the row `NegatedRow` describes. */
  lemma NegatedBlockRow(t: Mat, ai: seq<real>, b: seq<real>, n: nat, i: nat)
    requires i < |b| < |t| && |ai| == n && NegativesBelow(b, i) < NegativesBelow(b, |b|)
    requires |t[i]| == n + |b| + NegativesBelow(b, |b|) + 1
    requires forall j :: 0 <= j < n ==> t[i][j] == ai[j]
    requires forall j :: n <= j < n + |b| ==> t[i][j] == if j == n + i then 1.0 else 0.0
    requires forall j :: n + |b| <= j < n + |b| + NegativesBelow(b, |b|) ==> t[i][j] == 0.0
    requires t[i][n + |b| + NegativesBelow(b, |b|)] == b[i]
    ensures NegatedRow(Negated(t, b, n + |b|, i), ai, b, n, i)
  {
    NegatedEntries(t, b, n + |b|, i);
  }

  /** Entry `j` of a negated row: +1 in the row's artificial column, `-t[r][j]` elsewhere. */
  lemma NegatedEntries(t: Mat, b: seq<real>, base: nat, r: nat)
    requires r < |b| < |t|
    ensures forall j :: 0 <= j < |t[r]| ==>
      Negated(t, b, base, r)[j] == if j == base + NegativesBelow(b, r) then 1.0 else -t[r][j]
  {
  }

  /** The entries of a row laid out as `ai e_i 0 bi`, block by block. */
  lemma BlockRowEntries(q: seq<real>, ai: seq<real>, m: nat, i: nat, cnt: nat, bi: real)
    requires q == ai + Unit(m, i) + Zeros(cnt) + [bi]
    ensures |q| == |ai| + m + cnt + 1
    ensures forall j :: 0 <= j < |ai| ==> q[j] == ai[j]
    ensures forall j :: |ai| <= j < |ai| + m ==> q[j] == if j == |ai| + i then 1.0 else 0.0
    ensures forall j :: |ai| + m <= j < |ai| + m + cnt ==> q[j] == 0.0
    ensures q[|ai| + m + cnt] == bi
  {
  }

  /** Subtracting the negated rows clears every artificial entry of the objective row. */
  lemma SubTableauObjective(a: Mat, b: seq<real>, c: seq<real>)
    requires CoversProblem(a, |b|, |c|)
    ensures forall j :: |c| + |b| <= j < |c| + |b| + NegativesBelow(b, |b|) ==> SubTableau(a, b, c)[|b|][j] == 0.0
  {
    SubStartFits(a, b, c, NegativesBelow(b, |b|));
    SubStartArtificials(a, b, c, NegativesBelow(b, |b|));
    ObjectiveArtificials(SubStart(a, b, c, NegativesBelow(b, |b|)), b, |c| + |b|, |b|);
  }

  /** Before the second loop, the artificial columns are 0 in the constraint rows and 1 in row `m`. */
  lemma SubStartArtificials(a: Mat, b: seq<real>, c: seq<real>, cnt: nat)
    requires CoversProblem(a, |b|, |c|)
    ensures IsShape(SubStart(a, b, c, cnt), |b| + 1, |c| + |b| + cnt + 1)
    ensures forall r, j :: 0 <= r < |b| && |c| + |b| <= j < |c| + |b| + cnt ==> SubStart(a, b, c, cnt)[r][j] == 0.0
    ensures forall j :: |c| + |b| <= j < |c| + |b| + cnt ==> SubStart(a, b, c, cnt)[|b|][j] == 1.0
  {
    var m, n := |b|, |c|;
    var t := SubStart(a, b, c, cnt);
    SubStartShape(a, b, c, cnt);
    forall i | 0 <= i < m ensures forall j :: n + m <= j < n + m + cnt ==> t[i][j] == 0.0 {
      assert t[i] == Coefficients(a, i, n) + Unit(m, i) + Zeros(cnt) + [b[i]];
      forall j | n + m <= j < n + m + cnt ensures t[i][j] == 0.0 {
        assert t[i][j] == Zeros(cnt)[j - n - m];
      }
    }
    assert t[m] == Zeros(n + m) + Ones(cnt) + [0.0];
    forall j | n + m <= j < n + m + cnt ensures t[m][j] == 1.0 {
      assert t[m][j] == Ones(cnt)[j - n - m];
    }
  }

  /** Every right-hand side of the Phase I tableau is `|b[i]|`, so it is feasible. */
  lemma SubTableauFeasible(a: Mat, b: seq<real>, c: seq<real>)
    requires CoversProblem(a, |b|, |c|)
    ensures IsTableau(SubTableau(a, b, c)) && Feasible(SubTableau(a, b, c))
    ensures forall i :: 0 <= i < |b| ==> SubTableau(a, b, c)[i][Width(SubTableau(a, b, c)) - 1] == Abs(b[i])
  {
    SubTableauShape(a, b, c);
    forall i | 0 <= i < |b| ensures SubTableau(a, b, c)[i][Width(SubTableau(a, b, c)) - 1] == Abs(b[i]) {
      SubTableauRightHandSide(a, b, c, i);
    }
  }

  /** The right-hand side of constraint row `i` of the Phase I tableau is `|b[i]|`. */
  lemma SubTableauRightHandSide(a: Mat, b: seq<real>, c: seq<real>, i: nat)
    requires CoversProblem(a, |b|, |c|) && i < |b|
    ensures IsTableau(SubTableau(a, b, c)) && |SubTableau(a, b, c)| == |b| + 1
    ensures SubTableau(a, b, c)[i][Width(SubTableau(a, b, c)) - 1] == Abs(b[i])
  {
    SubTableauShape(a, b, c);
    SubTableauRow(a, b, c, i);
    if b[i] >= 0.0 {
      assert |Coefficients(a, i, |c|) + Unit(|b|, i) + Zeros(NegativesBelow(b, |b|))| == |c| + |b| + NegativesBelow(b, |b|);
    }
  }

  /** `C` of `subProblem`: `-c` in columns below `n`, 0 in the other `w - n`. */
  function PhaseOneObjective(c: seq<real>, w: nat): (r: seq<real>)
    requires |c| <= w
    ensures |r| == w
  {
    Scaled(c, -1.0) + Zeros(w - |c|)
  }

  /**
   * `Main` of `subProblem`: constraint rows are the first `n + m` columns
   * of `Sub` and its last column; the objective row is `C[0..n+m-1]`
   * followed by `C[n+m+cnt]`.
   */
  function Reassembled(s: Mat, obj: seq<real>, n: nat, m: nat, cnt: nat): (t: Mat)
    requires IsShape(s, m + 1, n + m + cnt + 1) && |obj| == n + m + cnt + 1
    ensures IsShape(t, m + 1, n + m + 1)
  {
    seq(m + 1, i requires 0 <= i <= m =>
      if i < m then s[i][..n + m] + [s[i][n + m + cnt]] else obj[..n + m] + [obj[n + m + cnt]])
  }

  /** How `subProblem` ends: the Phase II tableau, the "infeasible" throw, or the engine stopping otherwise. */
  datatype PhaseOneResult<T> = Ready(main: T) | Infeasible | Stopped(why: Outcome)

  /** The values a result on matrices stands for. */
  ghost function Values(r: PhaseOneResult<Matrix>): PhaseOneResult<Mat>
    reads if r.Ready? then {r.main} else {}, if r.Ready? then {r.main.ptr} else {}
  {
    match r
    case Ready(main) => Ready(main.Rows())
    case Infeasible => Infeasible
    case Stopped(why) => Stopped(why)
  }

  /** The shape `subProblem` gives the Phase I tableau and its objective `C`. */
  predicate PhaseOneShape(sub: Mat, obj: seq<real>, n: nat, m: nat, cnt: nat)
  {
    IsTableau(sub) && |sub| == m + 1 && Width(sub) == n + m + cnt + 1 && |obj| == Width(sub)
  }

  /**
   * `subProblem` from the call of `simplexMethod2` on: the engine runs on
   * the Phase I tableau `sub` mirroring its pivots onto `obj`, with at
   * most `fuel` pivots.
   */
  function PhaseOne(sub: Mat, obj: seq<real>, n: nat, m: nat, cnt: nat, fuel: nat): PhaseOneResult<Mat>
    requires PhaseOneShape(sub, obj, n, m, cnt)
  {
    var r := RunShadow(sub, obj, fuel);
    RunShadowAgrees(sub, obj, fuel);
    PhaseOneEnd(r.0, r.1, r.2, n, m, cnt)
  }

  /** What `subProblem` does once `simplexMethod2` has returned outcome `o`, tableau `s` and objective `obj`. */
  function PhaseOneEnd(o: Outcome, s: Mat, obj: seq<real>, n: nat, m: nat, cnt: nat): PhaseOneResult<Mat>
    requires IsShape(s, m + 1, n + m + cnt + 1) && |obj| == n + m + cnt + 1
  {
    if o != Optimal then Stopped(o)
    else if s[m][n + m + cnt] < 0.0 then Infeasible
    else Ready(Reassembled(s, obj, n, m, cnt))
  }

  /** A Phase II tableau for `n` variables and `m` constraints whose right-hand sides are non-negative. */
  predicate FeasibleMain(t: Mat, n: nat, m: nat)
  {
    IsTableau(t) && |t| == m + 1 && Width(t) == n + m + 1 && Feasible(t)
  }

  /** A Phase II tableau, when one is returned, is feasible. */
  predicate ReturnsFeasible(r: PhaseOneResult<Mat>, n: nat, m: nat)
  {
    r.Ready? ==> FeasibleMain(r.main, n, m)
  }

  /** A feasible Phase I tableau yields a Phase II tableau `(m + 1) x (n + m + 1)` with non-negative right-hand sides. */
  lemma PhaseOneReady(sub: Mat, obj: seq<real>, n: nat, m: nat, cnt: nat, fuel: nat)
    requires PhaseOneShape(sub, obj, n, m, cnt) && Feasible(sub)
    requires PhaseOne(sub, obj, n, m, cnt, fuel).Ready?
    ensures FeasibleMain(PhaseOne(sub, obj, n, m, cnt, fuel).main, n, m)
  {
    RunShadowAgrees(sub, obj, fuel);
    RunKeepsFeasible(sub, fuel);
    var r := RunShadow(sub, obj, fuel);
    var t := Reassembled(r.1, r.2, n, m, cnt);
    forall i | 0 <= i < m ensures t[i][n + m] >= 0.0 {
      assert t[i][n + m] == r.1[i][n + m + cnt];
    }
  }

  /**
   * How `subProblem` ends, in terms of the plain engine run on the Phase I
   * tableau: it stops with the engine's outcome unless that is optimal,
   * and it reports "infeasible" exactly when the optimum leaves a negative
   * value in the right-hand side of the objective row.
   */
  lemma PhaseOneOutcomes(sub: Mat, obj: seq<real>, n: nat, m: nat, cnt: nat, fuel: nat)
    requires PhaseOneShape(sub, obj, n, m, cnt)
    ensures var p, r := PhaseOne(sub, obj, n, m, cnt, fuel), Run(sub, fuel);
      (p.Stopped? <==> r.0 != Optimal) && (p.Stopped? ==> p.why == r.0) &&
      (p.Infeasible? <==> r.0 == Optimal && r.1[m][n + m + cnt] < 0.0) &&
      (p.Ready? <==> r.0 == Optimal && r.1[m][n + m + cnt] >= 0.0)
  {
    RunShadowAgrees(sub, obj, fuel);
  }

  /**
   * A Phase I tableau whose objective row is zero pivots nothing: its
   * cleaned constraint rows and `obj` itself make the Phase II tableau.
   */
  lemma PhaseOneNoPivot(sub: Mat, obj: seq<real>, n: nat, m: nat, fuel: nat)
    requires PhaseOneShape(sub, obj, n, m, 0) && forall j :: 0 <= j < n + m + 1 ==> sub[m][j] == 0.0
    ensures PhaseOne(sub, obj, n, m, 0, fuel).Ready?
    ensures var t := PhaseOne(sub, obj, n, m, 0, fuel).main;
      |t| == m + 1 && t[m] == obj && forall i :: 0 <= i < m ==> t[i] == MatCleaned(sub)[i]
  {
    CleanedIsTableau(sub);
    var u := MatCleaned(sub);
    MatCleanedEntries(sub);
    assert forall j :: 0 <= j < Width(u) - 1 ==> Objective(u)[j] >= 0.0 by {
      forall j | 0 <= j < Width(u) - 1 ensures Objective(u)[j] >= 0.0 {
        assert sub[m][j] == 0.0;
      }
    }
    DecideSpec(u);
    RunShadowHalts(sub, obj, fuel);
    assert u[m][n + m] == 0.0 by {
      assert sub[m][n + m] == 0.0;
    }
    var t := Reassembled(u, obj, n, m, 0);
    forall i | 0 <= i < m ensures t[i] == u[i] {
      assert u[i] == u[i][..n + m] + [u[i][n + m]];
    }
    assert obj == obj[..n + m] + [obj[n + m]];
  }

  lemma {:induction false} NoNegatives(b: seq<real>, k: nat)
    requires k <= |b| && forall i :: 0 <= i < |b| ==> b[i] >= 0.0
    ensures NegativesBelow(b, k) == 0
  {
    if k > 0 {
      NoNegatives(b, k - 1);
    }
  }

  /** Without a negative `b[i]` the Phase I tableau is the standard one with a zero objective row. */
  lemma SubTableauWithoutNegatives(a: Mat, b: seq<real>, c: seq<real>)
    requires CoversProblem(a, |b|, |c|) && forall i :: 0 <= i < |b| ==> b[i] >= 0.0
    ensures SubTableau(a, b, c) == StandardTableau(a, b, c)[|b| := Zeros(|c| + |b| + 1)]
  {
    var m, n := |b|, |c|;
    NoNegatives(b, m);
    var t := SubStart(a, b, c, 0);
    SubStartShape(a, b, c, 0);
    ObjectiveUntouched(t, b, n + m, m);
    var s := StandardTableau(a, b, c)[m := Zeros(n + m + 1)];
    forall i | 0 <= i <= m ensures t[i] == s[i] {
      if i < m {
        assert t[i] == Coefficients(a, i, n) + Unit(m, i) + [] + [b[i]];
      } else {
        assert t[i] == Zeros(n + m) + [] + [0.0];
      }
    }
  }

  /**
   * Without a negative `b[i]`, Phase I pivots nothing: `subProblem`
   * returns the cleaned constraint rows of the standard tableau and
   * exactly its objective row `-c 0 0`.
   */
  lemma PhaseOneWithoutNegatives(a: Mat, b: seq<real>, c: seq<real>, fuel: nat)
    requires CoversProblem(a, |b|, |c|) && forall i :: 0 <= i < |b| ==> b[i] >= 0.0
    ensures NegativesBelow(b, |b|) == 0
    ensures PhaseOneShape(SubTableau(a, b, c), PhaseOneObjective(c, |c| + |b| + 1), |c|, |b|, 0)
    ensures var r := PhaseOne(SubTableau(a, b, c), PhaseOneObjective(c, |c| + |b| + 1), |c|, |b|, 0, fuel);
      r.Ready? && |r.main| == |b| + 1 && r.main[|b|] == StandardTableau(a, b, c)[|b|] &&
      forall i :: 0 <= i < |b| ==> r.main[i] == MatCleaned(SubTableau(a, b, c))[i]
  {
    var m, n := |b|, |c|;
    NoNegatives(b, m);
    SubTableauWithoutNegatives(a, b, c);
    var sub := SubTableau(a, b, c);
    SubTableauShape(a, b, c);
    var obj := PhaseOneObjective(c, n + m + 1);
    PhaseOneNoPivot(sub, obj, n, m, fuel);
    PhaseOneObjectiveIsStandard(a, b, c);
  }

  /** Without artificial columns, the Phase I objective `C` is the objective row of `createMatrix`. */
  lemma PhaseOneObjectiveIsStandard(a: Mat, b: seq<real>, c: seq<real>)
    requires CoversProblem(a, |b|, |c|)
    ensures PhaseOneObjective(c, |c| + |b| + 1) == StandardTableau(a, b, c)[|b|]
  {
    var m, n := |b|, |c|;
    var obj := PhaseOneObjective(c, n + m + 1);
    var r := StandardTableau(a, b, c)[m];
    assert r == Scaled(c, -1.0) + Zeros(m) + [0.0];
    forall j | 0 <= j < n + m + 1 ensures obj[j] == r[j] {
      if j >= n {
        assert obj[j] == Zeros(m + 1)[j - n];
      }
    }
  }

  /** `subProblem` on a covered problem: whenever it returns, the Phase II tableau is feasible. */
  lemma SubProblemFeasible(a: Mat, b: seq<real>, c: seq<real>, fuel: nat)
    requires CoversProblem(a, |b|, |c|)
    ensures PhaseOneShape(SubTableau(a, b, c), PhaseOneObjective(c, |c| + |b| + NegativesBelow(b, |b|) + 1),
      |c|, |b|, NegativesBelow(b, |b|))
    ensures ReturnsFeasible(PhaseOne(SubTableau(a, b, c), PhaseOneObjective(c, |c| + |b| + NegativesBelow(b, |b|) + 1),
      |c|, |b|, NegativesBelow(b, |b|), fuel), |c|, |b|)
  {
    PhaseOneInputShape(a, b, c);
    SubTableauFeasible(a, b, c);
    if PhaseOne(SubTableau(a, b, c), PhaseOneObjective(c, |c| + |b| + NegativesBelow(b, |b|) + 1),
      |c|, |b|, NegativesBelow(b, |b|), fuel).Ready?
    {
      PhaseOneReady(SubTableau(a, b, c), PhaseOneObjective(c, |c| + |b| + NegativesBelow(b, |b|) + 1),
        |c|, |b|, NegativesBelow(b, |b|), fuel);
    }
  }

  // ---------------------------------------------------------------------
  // subProblem on matrices
  // ---------------------------------------------------------------------

  /** The first loop of `subProblem`: `cnt`, the number of negative `b[i]`. */
  method CountNegatives(b: Vector) returns (cnt: nat)
    requires b.Valid()
    ensures cnt == NegativesBelow(b.Contents(), b.Dim)
  {
    cnt := 0;
    var i := 0;
    while i < b.Dim
      invariant 0 <= i <= b.Dim && cnt == NegativesBelow(b.Contents(), i)
    {
      if b.Get(i) < 0.0 {
        cnt := cnt + 1;
      }
      i := i + 1;
    }
  }

  /** `Sub(m+1, n+m+cnt+1)` and its case-by-case fill. */
  method BuildSubStart(a: Matrix, b: Vector, c: Vector, cnt: nat) returns (sub: Matrix)
    requires a.Valid() && b.Valid() && c.Valid() && CoversProblem(a.Rows(), b.Dim, c.Dim)
    ensures fresh(sub) && fresh(sub.ptr) && sub.Valid()
    ensures sub.Row == b.Dim + 1 && sub.Col == c.Dim + b.Dim + cnt + 1
    ensures sub.Rows() == SubStart(a.Rows(), b.Contents(), c.Contents(), cnt)
  {
    var m, n := b.Dim, c.Dim;
    ghost var at, bs, cs := a.Rows(), b.Contents(), c.Contents();
    sub := new Matrix(m + 1, n + m + cnt + 1);
    var i := 0;
    while i < m + 1
      invariant 0 <= i <= m + 1
      invariant sub.Valid() && sub.Row == m + 1 && sub.Col == n + m + cnt + 1
      invariant forall k :: 0 <= k < m + 1 ==> sub.Rows()[k] == if k < i then SubRowStart(at, bs, cs, cnt, k) else Zeros(n + m + cnt + 1)
      modifies sub.ptr
    {
      FillSubRow(sub, a, b, c, cnt, i);
      i := i + 1;
    }
    forall k | 0 <= k < m + 1 ensures sub.Rows()[k] == SubStart(at, bs, cs, cnt)[k] {
      SubRowsAreBlocks(at, bs, cs, cnt, k);
    }
  }

  /** The inner fill loop of `subProblem` for row `i`; the cases it skips keep the 0 of the new matrix. */
  method FillSubRow(sub: Matrix, a: Matrix, b: Vector, c: Vector, cnt: nat, i: nat)
    requires a.Valid() && b.Valid() && c.Valid() && CoversProblem(a.Rows(), b.Dim, c.Dim)
    requires sub.Valid() && sub.Row == b.Dim + 1 && sub.Col == c.Dim + b.Dim + cnt + 1 && i < sub.Row
    requires sub.ptr != a.ptr && sub.Rows()[i] == Zeros(sub.Col)
    modifies sub.ptr
    ensures sub.Valid() && sub.Rows() == old(sub.Rows())[i := SubRowStart(a.Rows(), b.Contents(), c.Contents(), cnt, i)]
  {
    var m, n := b.Dim, c.Dim;
    ghost var t := sub.Rows();
    ghost var at, bs, cs := a.Rows(), b.Contents(), c.Contents();
    var j := 0;
    while j < n + m + cnt + 1
      invariant 0 <= j <= n + m + cnt + 1
      invariant forall i', j' :: 0 <= i' < sub.Row && 0 <= j' < sub.Col ==>
        sub.ptr[i', j'] == if i' == i && j' < j then SubEntry(at, bs, cs, cnt, i, j') else t[i'][j']
    {
      if i < m && j < n {
        assert CoversRow(at, i, n) && |at[i]| == a.Col;
        sub.ptr[i, j] := a.Get(i, j);
      } else if i < m && j >= n && j < n + m {
        sub.ptr[i, j] := if j - n == i then 1.0 else 0.0;
      } else if i < m && j == n + m + cnt {
        sub.ptr[i, j] := b.Get(i);
      } else if i == m && j < n + m {
        sub.ptr[i, j] := 0.0;
      } else if i == m && j >= n + m && j < n + m + cnt {
        sub.ptr[i, j] := 1.0;
      } else if i == m && j == n + m + cnt {
        sub.ptr[i, j] := 0.0;
      } else {
        assert t[i][j] == Zeros(sub.Col)[j];
      }
      j := j + 1;
    }
    SameEntries(sub.Rows(), t[i := SubRowStart(at, bs, cs, cnt, i)], sub.Row, sub.Col);
  }

  /**
   * The second loop of `subProblem`: for each negative `b[i]`, `-1` in
   * the next artificial column, `Sub[i] = -Sub[i]` and `Sub[m] -= Sub[i]`.
   */
  method PlaceArtificials(sub: Matrix, b: Vector, n: nat, ghost bs: seq<real>, ghost cs: seq<real>)
    requires n == |cs| && sub.Valid() && b.Valid() && b.Contents() == bs && ArtificialsFit(sub.Rows(), bs, |cs| + |bs|)
    modifies sub.ptr
    ensures sub.Valid() && sub.Rows() == Artificials(old(sub.Rows()), bs, |cs| + |bs|, |bs|)
  {
    ghost var t0 := sub.Rows();
    ArtificialsStart(t0, bs, |cs| + |bs|);
    var m := b.Dim;
    var flag := 0;
    var i := 0;
    while i < m
      invariant 0 <= i <= m && flag == NegativesBelow(bs, i)
      invariant sub.Valid() && sub.Row == m + 1 && sub.Col == |t0[0]|
      invariant sub.Rows() == Artificials(t0, bs, |cs| + |bs|, i)
    {
      flag := PlaceArtificial(sub, b, n, i, flag, t0, bs, cs);
      i := i + 1;
    }
  }

  /** Round `i` of the second loop of `subProblem`; `flag` counts the negative rows before `i`. */
  method PlaceArtificial(sub: Matrix, b: Vector, n: nat, i: nat, flag: nat, ghost t0: Mat, ghost bs: seq<real>, ghost cs: seq<real>)
    returns (next: nat)
    requires n == |cs| && b.Valid() && b.Contents() == bs && ArtificialsFit(t0, bs, |cs| + |bs|) && i < |bs| && flag == NegativesBelow(bs, i)
    requires sub.Valid() && sub.Row == |bs| + 1 && sub.Col == |t0[0]| && sub.Rows() == Artificials(t0, bs, |cs| + |bs|, i)
    modifies sub.ptr
    ensures next == NegativesBelow(bs, i + 1)
    ensures sub.Valid() && sub.Rows() == Artificials(t0, bs, |cs| + |bs|, i + 1)
  {
    if b.Get(i) < 0.0 {
      var col := n + b.Dim + flag;
      ArtificialsNegativeStep(t0, bs, |cs| + |bs|, i, col);
      MarkArtificial(sub, i, col);
      next := flag + 1;
    } else {
      ArtificialsSkipStep(t0, bs, |cs| + |bs|, i);
      next := flag;
    }
  }

  /** `Sub[i][col] = -1; Sub[i] = -Sub[i]; Sub[m] -= Sub[i];` with `m` the last row. */
  method MarkArtificial(sub: Matrix, i: nat, col: nat)
    requires sub.Valid() && i < sub.Row - 1 && col < sub.Col
    modifies sub.ptr
    ensures sub.Valid()
    ensures |old(sub.Rows())[i]| == |old(sub.Rows())[sub.Row - 1]| && sub.Rows() == Marked(old(sub.Rows()), i, col)
  {
    sub.Set(i, col, -1.0);
    sub.NegateRow(i);
    sub.SubRow(sub.Row - 1, i);
  }

  /** The objective `C` of `subProblem`: `-c[i]` for `i < n` and 0 elsewhere. */
  method BuildPhaseOneObjective(c: Vector, w: nat) returns (obj: Vector)
    requires c.Valid() && c.Dim <= w
    ensures fresh(obj) && fresh(obj.ptr) && obj.Valid() && obj.Dim == w
    ensures obj.Contents() == PhaseOneObjective(c.Contents(), w)
  {
    obj := new Vector(w);
    var i := 0;
    while i < w
      invariant 0 <= i <= w && obj.Valid() && obj.Dim == w
      invariant forall k :: 0 <= k < w ==> obj.Contents()[k] == if k < i then PhaseOneObjective(c.Contents(), w)[k] else 0.0
      modifies obj.ptr
    {
      if i < c.Dim {
        obj.Set(i, -c.Get(i));
      } else {
        obj.Set(i, 0.0);
      }
      i := i + 1;
    }
  }

  /** The two loops of `subProblem` that build `Main` from `Sub` and `C`. */
  method Reassemble(sub: Matrix, obj: Vector, n: nat, m: nat, cnt: nat) returns (main: Matrix)
    requires sub.Valid() && obj.Valid() && sub.Row == m + 1 && sub.Col == n + m + cnt + 1 && obj.Dim == sub.Col
    ensures fresh(main) && fresh(main.ptr) && main.Valid()
    ensures main.Rows() == Reassembled(sub.Rows(), obj.Contents(), n, m, cnt)
  {
    ghost var t := Reassembled(sub.Rows(), obj.Contents(), n, m, cnt);
    main := new Matrix(m + 1, n + m + 1);
    FillLastColumn(main, sub, obj, n, m, cnt);
    var i := 0;
    while i < m + 1
      invariant 0 <= i <= m + 1 && main.Valid() && main.Row == m + 1 && main.Col == n + m + 1
      invariant forall i', j' :: 0 <= i' < m + 1 && 0 <= j' < n + m + 1 ==>
        main.ptr[i', j'] == if j' == n + m || i' < i then t[i'][j'] else 0.0
      modifies main.ptr
    {
      CopyRowPrefix(main, sub, obj, n, m, cnt, i);
      i := i + 1;
    }
    SameEntries(main.Rows(), t, m + 1, n + m + 1);
  }

  /** The first `Main` loop: column `n+m` of every row, from `Sub` and `C`. */
  method FillLastColumn(main: Matrix, sub: Matrix, obj: Vector, n: nat, m: nat, cnt: nat)
    requires sub.Valid() && obj.Valid() && sub.Row == m + 1 && sub.Col == n + m + cnt + 1 && obj.Dim == sub.Col
    requires main.Valid() && main.Row == m + 1 && main.Col == n + m + 1 && main.ptr != sub.ptr
    modifies main.ptr
    ensures forall i', j' :: 0 <= i' < m + 1 && 0 <= j' < n + m + 1 ==>
      main.ptr[i', j'] == if j' == n + m then Reassembled(sub.Rows(), obj.Contents(), n, m, cnt)[i'][j'] else old(main.ptr[i', j'])
  {
    ghost var t := Reassembled(sub.Rows(), obj.Contents(), n, m, cnt);
    var i := 0;
    while i < m + 1
      invariant 0 <= i <= m + 1
      invariant forall i', j' :: 0 <= i' < m + 1 && 0 <= j' < n + m + 1 ==>
        main.ptr[i', j'] == if j' == n + m && i' < i then t[i'][j'] else old(main.ptr[i', j'])
    {
      if i != m {
        main.ptr[i, n + m] := sub.Get(i, n + m + cnt);
      } else {
        main.ptr[i, n + m] := obj.Get(n + m + cnt);
      }
      i := i + 1;
    }
  }

  /** The inner loop of the second `Main` loop: columns `0..n+m-1` of row `i`. */
  method CopyRowPrefix(main: Matrix, sub: Matrix, obj: Vector, n: nat, m: nat, cnt: nat, i: nat)
    requires sub.Valid() && obj.Valid() && sub.Row == m + 1 && sub.Col == n + m + cnt + 1 && obj.Dim == sub.Col
    requires main.Valid() && main.Row == m + 1 && main.Col == n + m + 1 && i < main.Row && main.ptr != sub.ptr
    modifies main.ptr
    ensures forall i', j' :: 0 <= i' < m + 1 && 0 <= j' < n + m + 1 ==>
      main.ptr[i', j'] == if i' == i && j' < n + m then Reassembled(sub.Rows(), obj.Contents(), n, m, cnt)[i][j'] else old(main.ptr[i', j'])
  {
    ghost var t := Reassembled(sub.Rows(), obj.Contents(), n, m, cnt);
    var j := 0;
    while j < n + m
      invariant 0 <= j <= n + m
      invariant forall i', j' :: 0 <= i' < m + 1 && 0 <= j' < n + m + 1 ==>
        main.ptr[i', j'] == if i' == i && j' < j then t[i][j'] else old(main.ptr[i', j'])
    {
      if i != m {
        main.ptr[i, j] := sub.Get(i, j);
      } else {
        main.ptr[i, j] := obj.Get(j);
      }
      j := j + 1;
    }
  }

  /** The first two loops of `subProblem`: `cnt`, then `Sub` with its artificial columns. */
  method BuildSubTableau(a: Matrix, b: Vector, c: Vector, ghost at: Mat, ghost bs: seq<real>, ghost cs: seq<real>)
    returns (sub: Matrix, cnt: nat)
    requires a.Valid() && b.Valid() && c.Valid() && at == a.Rows() && bs == b.Contents() && cs == c.Contents()
    requires CoversProblem(at, |bs|, |cs|)
    ensures fresh(sub) && fresh(sub.ptr) && sub.Valid()
    ensures cnt == NegativesBelow(bs, |bs|) && sub.Row == |bs| + 1 && sub.Col == |cs| + |bs| + cnt + 1
    ensures sub.Rows() == SubTableau(at, bs, cs)
  {
    cnt := CountNegatives(b);
    sub := BuildSubStart(a, b, c, cnt);
    SubTableauBuilt(at, bs, cs, cnt);
    PlaceArtificials(sub, b, c.GetSize(), bs, cs);
  }

  /** The end of `subProblem`: the throw for a negative optimum, otherwise `Main`. */
  method EndPhaseOne(sub: Matrix, obj: Vector, n: nat, m: nat, cnt: nat, outcome: Outcome) returns (r: PhaseOneResult<Matrix>)
    requires sub.Valid() && obj.Valid() && sub.Row == m + 1 && sub.Col == n + m + cnt + 1 && obj.Dim == sub.Col
    ensures r.Ready? ==> fresh(r.main) && fresh(r.main.ptr) && r.main.Valid()
    ensures Values(r) == PhaseOneEnd(outcome, sub.Rows(), obj.Contents(), n, m, cnt)
  {
    if outcome != Optimal {
      r := Stopped(outcome);
    } else if sub.Get(m, n + m + cnt) < 0.0 {
      r := Infeasible;
    } else {
      var main := Reassemble(sub, obj, n, m, cnt);
      r := Ready(main);
    }
  }

  /**
   * `subProblem(A, b, c)`: Phase I on matrices. `r` is what it returns or
   * throws, and `main` is the Phase II matrix when it returns.
   */
  method SubProblem(a: Matrix, b: Vector, c: Vector, fuel: nat, ghost at: Mat, ghost bs: seq<real>, ghost cs: seq<real>)
    returns (r: PhaseOneResult<Matrix>)
    requires a.Valid() && b.Valid() && c.Valid() && at == a.Rows() && bs == b.Contents() && cs == c.Contents()
    requires CoversProblem(at, |bs|, |cs|)
    ensures PhaseOneShape(SubTableau(at, bs, cs), PhaseOneObjective(cs, |cs| + |bs| + NegativesBelow(bs, |bs|) + 1),
      |cs|, |bs|, NegativesBelow(bs, |bs|))
    ensures r.Ready? ==> fresh(r.main) && fresh(r.main.ptr) && r.main.Valid()
    ensures var cnt := NegativesBelow(bs, |bs|);
      Values(r) == PhaseOne(SubTableau(at, bs, cs), PhaseOneObjective(cs, |cs| + |bs| + cnt + 1), |cs|, |bs|, cnt, fuel)
  {
    PhaseOneInputShape(at, bs, cs);
    var m, n := b.GetSize(), c.GetSize();
    var sub, cnt := BuildSubTableau(a, b, c, at, bs, cs);
    r := SolvePhaseOne(sub, c, n, m, cnt, fuel, at, bs, cs);
  }

  /** The call `simplexMethod2(Sub, C)` and the rest of `subProblem`. */
  method SolvePhaseOne(sub: Matrix, c: Vector, n: nat, m: nat, cnt: nat, fuel: nat, ghost at: Mat, ghost bs: seq<real>, ghost cs: seq<real>)
    returns (r: PhaseOneResult<Matrix>)
    requires CoversProblem(at, |bs|, |cs|) && n == |cs| && m == |bs| && cnt == NegativesBelow(bs, |bs|)
    requires sub.Valid() && sub.Row == m + 1 && sub.Col == n + m + cnt + 1 && sub.Rows() == SubTableau(at, bs, cs)
    requires c.Valid() && c.Contents() == cs
    modifies sub.ptr
    ensures r.Ready? ==> fresh(r.main) && fresh(r.main.ptr) && r.main.Valid()
    ensures var cnt := NegativesBelow(bs, |bs|);
      Values(r) == PhaseOne(SubTableau(at, bs, cs), PhaseOneObjective(cs, |cs| + |bs| + cnt + 1), |cs|, |bs|, cnt, fuel)
  {
    PhaseOneInputShape(at, bs, cs);
    var obj := BuildPhaseOneObjective(c, sub.GetCol());
    ghost var st, o := sub.Rows(), obj.Contents();
    assert st == SubTableau(at, bs, cs);
    assert o == PhaseOneObjective(cs, |cs| + |bs| + NegativesBelow(bs, |bs|) + 1);
    var outcome := SimplexMethod2(sub, obj, fuel);
    RunShadowAgrees(st, o, fuel);
    assert PhaseOne(st, o, n, m, cnt, fuel) == PhaseOneEnd(outcome, sub.Rows(), obj.Contents(), n, m, cnt);
    r := EndPhaseOne(sub, obj, n, m, cnt, outcome);
  }
}
