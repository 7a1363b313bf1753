/**
 * The pivot engine `simplexMethod` / `simplexMethod2` on a dense tableau
 * of `m + 1` rows: rows `0..m-1` are constraints, row `m` is the objective
 * row, the last column is the right-hand side and the columns before it
 * are the variables. One round is: `cleanup`, choose the entering column
 * (the most negative objective entry, leftmost on ties), stop when it is
 * not negative, choose the leaving row by the ratio test (the first row
 * with the least ratio below `INF`), report "unbounded" when there is none,
 * divide the pivot row by the pivot and eliminate the pivot column from
 * every other row. The methods recurse as the source does; `fuel` bounds
 * the number of pivots because nothing in the source rules out cycling.
 */
module PivotEngine {
  import opened Numeric
  import opened Vectors
  import opened Matrices
  import opened SimplexHelpers

  /** How a run of the engine ends: a normal return, the "unbounded" throw, the `/=` abort, or no fuel left. */
  datatype Outcome = Optimal | Unbounded | DivisionAborted | OutOfFuel

  /** What the entering and ratio scans decide on a cleaned tableau. */
  datatype Decision = Finished | NoLeavingRow(col: nat) | PivotAt(row: nat, col: nat)

  // ---------------------------------------------------------------------
  // Tableaux
  // ---------------------------------------------------------------------

  function Width(t: Mat): nat
  {
    if |t| == 0 then 0 else |t[0]|
  }

  /** A rectangular tableau that is empty exactly when it has no rows, as every `Matrix` is. */
  predicate IsTableau(t: Mat)
  {
    IsShape(t, |t|, Width(t)) && (|t| == 0 <==> Width(t) == 0)
  }

  lemma ValidIsTableau(a: Matrix)
    requires a.Valid()
    ensures IsTableau(a.Rows()) && |a.Rows()| == a.Row && Width(a.Rows()) == a.Col
  {
  }

  lemma CleanedIsTableau(t: Mat)
    requires IsTableau(t)
    ensures IsTableau(MatCleaned(t)) && |MatCleaned(t)| == |t| && Width(MatCleaned(t)) == Width(t)
  {
    MatCleanedEntry(t);
  }

  /** Every constraint row has a non-negative right-hand side. */
  predicate Feasible(t: Mat)
    requires IsTableau(t)
  {
    forall i :: 0 <= i < |t| - 1 ==> t[i][Width(t) - 1] >= 0.0
  }

  /** Row `m`, the objective row. */
  function Objective(t: Mat): seq<real>
    requires IsTableau(t) && |t| >= 1
  {
    t[|t| - 1]
  }

  /** The objective entries the entering scan looks at: row `m`, columns `0..m+n-1`. */
  function ObjectiveCosts(t: Mat): seq<real>
    requires IsTableau(t)
  {
    if |t| == 0 then [] else t[|t| - 1][..Width(t) - 1]
  }

  // ---------------------------------------------------------------------
  // Entering column
  // ---------------------------------------------------------------------

  /**
   * The entering scan: starting from `(INF, -1)`, `chmin` against each
   * entry in turn, remembering the index whenever it updates.
   */
  function EnterScan(s: seq<real>): (real, int)
    decreases |s|
  {
    if |s| == 0 then (INF, -1)
    else
      var p := EnterScan(s[..|s| - 1]);
      var c := Chmin(p.0, s[|s| - 1]);
      (c.1, if c.0 then |s| - 1 else p.1)
  }

  /**
   * The entering scan finds the leftmost minimum when it is below `INF`,
   * and reports `(INF, -1)` when every entry is at least `INF`.
   */
  lemma {:induction false} EnterScanSpec(s: seq<real>)
    ensures EnterScan(s).0 <= INF && -1 <= EnterScan(s).1 < |s|
    ensures EnterScan(s).1 == -1 <==> forall j :: 0 <= j < |s| ==> s[j] >= INF
    ensures EnterScan(s).1 == -1 ==> EnterScan(s).0 == INF
    ensures EnterScan(s).1 >= 0 ==> EnterScan(s).0 == s[EnterScan(s).1] && EnterScan(s).0 < INF
    ensures forall j :: 0 <= j < |s| ==> EnterScan(s).0 <= s[j]
    ensures EnterScan(s).1 >= 0 ==> forall j :: 0 <= j < EnterScan(s).1 ==> s[j] > EnterScan(s).0
    decreases |s|
  {
    if |s| > 0 {
      EnterScanSpec(s[..|s| - 1]);
      assert forall j :: 0 <= j < |s| - 1 ==> s[..|s| - 1][j] == s[j];
    }
  }

  /** Ties go to the leftmost entry: any entry below `INF` equal to the minimum lies at or after `SI`. */
  lemma EnterScanLeftmostOnTies(s: seq<real>, j: nat)
    requires j < |s| && s[j] < INF && s[j] == EnterScan(s).0
    ensures 0 <= EnterScan(s).1 <= j
  {
    EnterScanSpec(s);
  }

  /** `col` is the entering column: the leftmost most negative objective entry, and negative. */
  predicate EntersAt(t: Mat, col: nat)
    requires IsTableau(t)
  {
    |t| >= 1 && col < Width(t) - 1 && Objective(t)[col] < 0.0 &&
    (forall j :: 0 <= j < Width(t) - 1 ==> Objective(t)[col] <= Objective(t)[j]) &&
    (forall j :: 0 <= j < col ==> Objective(t)[j] > Objective(t)[col])
  }

  // ---------------------------------------------------------------------
  // Leaving row
  // ---------------------------------------------------------------------

  /** The ratio of row `i`: its right-hand side over its entry in column `col`. */
  function Ratio(t: Mat, i: nat, col: nat): real
    requires IsTableau(t) && i < |t| && col < Width(t) && t[i][col] != 0.0
  {
    t[i][Width(t) - 1] / t[i][col]
  }

  /**
   * The ratio test over rows `0..k-1`: rows with a positive entry in `col`
   * `chmin` their ratio into a minimum that starts at `INF`.
   */
  function RatioScan(t: Mat, col: nat, k: nat): (real, int)
    requires IsTableau(t) && col < Width(t) && k <= |t|
    decreases k
  {
    if k == 0 then (INF, -1)
    else
      var p := RatioScan(t, col, k - 1);
      if t[k - 1][col] > 0.0 then
        var c := Chmin(p.0, Ratio(t, k - 1, col));
        (c.1, if c.0 then k - 1 else p.1)
      else p
  }

  /**
   * The ratio test finds the first eligible row with the least ratio when
   * that ratio is below `INF`, and reports `(INF, -1)` otherwise.
   */
  lemma {:induction false} RatioScanSpec(t: Mat, col: nat, k: nat)
    requires IsTableau(t) && col < Width(t) && k <= |t|
    ensures RatioScan(t, col, k).0 <= INF && -1 <= RatioScan(t, col, k).1 < k
    ensures RatioScan(t, col, k).1 == -1 <==>
      forall i :: 0 <= i < k && t[i][col] > 0.0 ==> Ratio(t, i, col) >= INF
    ensures RatioScan(t, col, k).1 == -1 ==> RatioScan(t, col, k).0 == INF
    ensures RatioScan(t, col, k).1 >= 0 ==>
      var pi := RatioScan(t, col, k).1;
      t[pi][col] > 0.0 && RatioScan(t, col, k).0 == Ratio(t, pi, col) && RatioScan(t, col, k).0 < INF
    ensures forall i :: 0 <= i < k && t[i][col] > 0.0 ==> RatioScan(t, col, k).0 <= Ratio(t, i, col)
    ensures RatioScan(t, col, k).1 >= 0 ==>
      forall i :: 0 <= i < RatioScan(t, col, k).1 && t[i][col] > 0.0 ==> Ratio(t, i, col) > RatioScan(t, col, k).0
    decreases k
  {
    if k > 0 {
      RatioScanSpec(t, col, k - 1);
    }
  }

  /** Ties go to the first row: any eligible row whose ratio equals the minimum lies at or after `PI`. */
  lemma RatioScanFirstOnTies(t: Mat, col: nat, k: nat, i: nat)
    requires IsTableau(t) && col < Width(t) && k <= |t| && i < k && t[i][col] > 0.0
    requires Ratio(t, i, col) < INF && Ratio(t, i, col) == RatioScan(t, col, k).0
    ensures 0 <= RatioScan(t, col, k).1 <= i
  {
    RatioScanSpec(t, col, k);
  }

  /** No constraint row bounds the entering variable below `INF`: the "unbounded" condition. */
  predicate NothingLeaves(t: Mat, col: nat)
    requires IsTableau(t) && col < Width(t)
  {
    forall i :: 0 <= i < |t| - 1 && t[i][col] > 0.0 ==> Ratio(t, i, col) >= INF
  }

  /** `row` is the leaving row: the first constraint row with a positive entry and the least ratio, below `INF`. */
  predicate LeavesAt(t: Mat, row: nat, col: nat)
    requires IsTableau(t)
  {
    row < |t| - 1 && col < Width(t) && t[row][col] > 0.0 && Ratio(t, row, col) < INF &&
    (forall i :: 0 <= i < |t| - 1 && t[i][col] > 0.0 ==> Ratio(t, row, col) <= Ratio(t, i, col)) &&
    (forall i :: 0 <= i < row && t[i][col] > 0.0 ==> Ratio(t, i, col) > Ratio(t, row, col))
  }

  /** One round's choice on a cleaned tableau. */
  function Decide(t: Mat): Decision
    requires IsTableau(t)
  {
    if |t| == 0 then Finished
    else
      var e := EnterScan(ObjectiveCosts(t));
      if !(e.0 < 0.0) then Finished
      else
        EnterScanSpec(ObjectiveCosts(t));
        var r := RatioScan(t, e.1, |t| - 1);
        RatioScanSpec(t, e.1, |t| - 1);
        if r.1 == -1 then NoLeavingRow(e.1) else PivotAt(r.1, e.1)
  }

  /**
   * The round stops exactly when no objective entry is negative; otherwise
   * it names the entering column and either the leaving row or none.
   */
  lemma DecideSpec(t: Mat)
    requires IsTableau(t)
    ensures Decide(t).Finished? <==> |t| == 0 || forall j :: 0 <= j < Width(t) - 1 ==> Objective(t)[j] >= 0.0
    ensures Decide(t).NoLeavingRow? ==> EntersAt(t, Decide(t).col) && NothingLeaves(t, Decide(t).col)
    ensures Decide(t).PivotAt? ==> EntersAt(t, Decide(t).col) && LeavesAt(t, Decide(t).row, Decide(t).col)
  {
    if |t| > 0 {
      var costs := ObjectiveCosts(t);
      EnterScanSpec(costs);
      var e := EnterScan(costs);
      assert forall j :: 0 <= j < Width(t) - 1 ==> costs[j] == Objective(t)[j];
      if e.0 < 0.0 {
        RatioScanSpec(t, e.1, |t| - 1);
      }
    }
  }

  // ---------------------------------------------------------------------
  // The pivot
  // ---------------------------------------------------------------------

  /** Row `r` after `r[j] -= r[col] * p[j]` for every `j`. */
  function Eliminated(r: seq<real>, p: seq<real>, col: nat): seq<real>
    requires |r| == |p| && col < |r|
  {
    Minus(r, Scaled(p, r[col]))
  }

  /** The Gauss-Jordan pivot on `(row, col)`. */
  function Pivoted(t: Mat, row: nat, col: nat): Mat
    requires IsTableau(t) && row < |t| && col < Width(t) && t[row][col] != 0.0
  {
    PivotRows(t, Quotient(t[row], t[row][col]), row, col, 0)
  }

  /** Rows `k..` of the pivot, built first to last as the elimination loop visits them. */
  function PivotRows(t: Mat, p: seq<real>, row: nat, col: nat, k: nat): (r: Mat)
    requires IsTableau(t) && |p| == Width(t) && col < Width(t) && k <= |t|
    ensures |r| == |t| - k
    decreases |t| - k
  {
    if k == |t| then [] else [if k == row then p else Eliminated(t[k], p, col)] + PivotRows(t, p, row, col, k + 1)
  }

  lemma {:induction false} PivotRowsEntries(t: Mat, p: seq<real>, row: nat, col: nat, k: nat)
    requires IsTableau(t) && |p| == Width(t) && col < Width(t) && k <= |t|
    ensures forall i :: k <= i < |t| ==> PivotRows(t, p, row, col, k)[i - k] == if i == row then p else Eliminated(t[i], p, col)
    decreases |t| - k
  {
    if k < |t| {
      PivotRowsEntries(t, p, row, col, k + 1);
    }
  }

  /** Row `row` of the pivot is the pivot row divided by the pivot; every other row has the pivot column eliminated. */
  lemma PivotedRows(t: Mat, row: nat, col: nat)
    requires IsTableau(t) && row < |t| && col < Width(t) && t[row][col] != 0.0
    ensures |Pivoted(t, row, col)| == |t|
    ensures forall i :: 0 <= i < |t| ==>
      Pivoted(t, row, col)[i] == if i == row then Quotient(t[row], t[row][col]) else Eliminated(t[i], Quotient(t[row], t[row][col]), col)
  {
    var p := Quotient(t[row], t[row][col]);
    PivotRowsEntries(t, p, row, col, 0);
    forall i | 0 <= i < |t| ensures Pivoted(t, row, col)[i] == if i == row then p else Eliminated(t[i], p, col) {
      assert Pivoted(t, row, col)[i] == PivotRows(t, p, row, col, 0)[i - 0];
    }
  }

  /** A pivot keeps the shape of the tableau. */
  lemma PivotShape(t: Mat, row: nat, col: nat)
    requires IsTableau(t) && row < |t| && col < Width(t) && t[row][col] != 0.0
    ensures IsTableau(Pivoted(t, row, col))
    ensures |Pivoted(t, row, col)| == |t| && Width(Pivoted(t, row, col)) == Width(t)
  {
    PivotedRows(t, row, col);
  }

  /** A pivot keeps the shape, and column `col` becomes the unit vector of row `row`. */
  lemma PivotUnitColumn(t: Mat, row: nat, col: nat)
    requires IsTableau(t) && row < |t| && col < Width(t) && t[row][col] != 0.0
    ensures IsTableau(Pivoted(t, row, col))
    ensures |Pivoted(t, row, col)| == |t| && Width(Pivoted(t, row, col)) == Width(t)
    ensures forall i :: 0 <= i < |t| ==> Pivoted(t, row, col)[i][col] == if i == row then 1.0 else 0.0
  {
    PivotedRows(t, row, col);
    var u := Pivoted(t, row, col);
    var p := t[row][col];
    assert u[row][col] == p / p;
    forall i | 0 <= i < |t| && i != row ensures u[i][col] == 0.0 {
      assert u[i][col] == t[i][col] - (p / p) * t[i][col];
    }
  }

  /** Subtracting a multiple of the new pivot row zeroes the pivot column of any row, as it does of `Obj`. */
  lemma EliminatedZeroesColumn(r: seq<real>, p: seq<real>, col: nat)
    requires |r| == |p| && col < |r| && p[col] == 1.0
    ensures |Eliminated(r, p, col)| == |r| && Eliminated(r, p, col)[col] == 0.0
  {
  }

  /** With the ratio test's choice, a pivot keeps every right-hand side non-negative. */
  lemma PivotKeepsFeasible(t: Mat, row: nat, col: nat)
    requires IsTableau(t) && Feasible(t) && LeavesAt(t, row, col)
    ensures IsTableau(Pivoted(t, row, col)) && Feasible(Pivoted(t, row, col))
  {
    PivotShape(t, row, col);
    PivotedRows(t, row, col);
    forall i | 0 <= i < |t| - 1 ensures Pivoted(t, row, col)[i][Width(t) - 1] >= 0.0 {
      PivotRowFeasible(t, row, col, i);
    }
  }

  /** The right-hand side the pivot gives constraint row `i` is non-negative. */
  lemma PivotRowFeasible(t: Mat, row: nat, col: nat, i: nat)
    requires IsTableau(t) && Feasible(t) && LeavesAt(t, row, col) && i < |t| - 1
    ensures var p := Quotient(t[row], t[row][col]);
      (if i == row then p else Eliminated(t[i], p, col))[Width(t) - 1] >= 0.0
  {
    var rhs := Width(t) - 1;
    var p := Quotient(t[row], t[row][col]);
    var ratio := Ratio(t, row, col);
    assert p[rhs] == ratio;
    if i != row {
      var a := t[i][col];
      assert Eliminated(t[i], p, col)[rhs] == t[i][rhs] - ratio * a;
      if a > 0.0 {
        RatioBound(ratio, t[i][rhs], a);
      } else {
        assert ratio * a <= 0.0;
      }
    }
  }

  lemma RatioBound(p: real, x: real, a: real)
    requires a > 0.0 && p <= x / a
    ensures x - p * a >= 0.0
  {
    assert p * a <= (x / a) * a;
  }

  /** The entering entry is negative and the ratio non-negative, so the objective value does not decrease. */
  lemma PivotObjectiveNondecreasing(t: Mat, row: nat, col: nat)
    requires IsTableau(t) && Feasible(t) && EntersAt(t, col) && LeavesAt(t, row, col)
    ensures IsTableau(Pivoted(t, row, col))
    ensures Pivoted(t, row, col)[|t| - 1][Width(t) - 1] >= t[|t| - 1][Width(t) - 1]
  {
    PivotUnitColumn(t, row, col);
    PivotedRows(t, row, col);
    var m := |t| - 1;
    var ratio := Ratio(t, row, col);
    assert ratio >= 0.0;
    assert Pivoted(t, row, col)[m][Width(t) - 1] == t[m][Width(t) - 1] - ratio * t[m][col];
    assert ratio * t[m][col] <= 0.0;
  }

  // ---------------------------------------------------------------------
  // Runs
  // ---------------------------------------------------------------------

  /** `simplexMethod` on the value of the tableau, with at most `fuel` pivots. */
  function Run(t: Mat, fuel: nat): (r: (Outcome, Mat))
    requires IsTableau(t)
    ensures IsTableau(r.1) && |r.1| == |t| && Width(r.1) == Width(t)
    decreases fuel
  {
    if Pivots(t, fuel) then Run(Next(t, fuel), fuel - 1)
    else
      CleanedIsTableau(t);
      (Halt(t, fuel), MatCleaned(t))
  }

  /**
   * What an outcome says about the tableau a run ends on: it is cleaned,
   * and a normal return leaves no negative objective entry; "unbounded"
   * names an entering column that no row bounds below `INF`; the `/=`
   * abort is a leaving row whose pivot is below `NEARLY_ZERO`.
   */
  ghost predicate EndsAsReported(o: Outcome, u: Mat)
    requires IsTableau(u)
  {
    u == MatCleaned(u) &&
    (o == Optimal ==> |u| == 0 || forall j :: 0 <= j < Width(u) - 1 ==> Objective(u)[j] >= 0.0) &&
    (o == Unbounded ==> exists col: nat :: EntersAt(u, col) && NothingLeaves(u, col)) &&
    (o == DivisionAborted ==> exists row: nat, col: nat :: LeavesAt(u, row, col) && Abs(u[row][col]) < NEARLY_ZERO)
  }

  /** Whether the round on `t` pivots: a pivot is chosen, fuel is left and the pivot is not too small. */
  predicate Pivots(t: Mat, fuel: nat)
    requires IsTableau(t)
  {
    CleanedIsTableau(t);
    var u := MatCleaned(t);
    DecideSpec(u);
    Decide(u).PivotAt? && fuel != 0 && Abs(u[Decide(u).row][Decide(u).col]) >= NEARLY_ZERO
  }

  /** The tableau the round on `t` pivots to. */
  function Next(t: Mat, fuel: nat): (v: Mat)
    requires IsTableau(t) && Pivots(t, fuel)
    ensures IsTableau(v) && |v| == |t| && Width(v) == Width(t)
  {
    CleanedIsTableau(t);
    var u := MatCleaned(t);
    DecideSpec(u);
    PivotShape(u, Decide(u).row, Decide(u).col);
    Pivoted(u, Decide(u).row, Decide(u).col)
  }

  lemma RunPivotStep(t: Mat, fuel: nat)
    requires IsTableau(t) && Pivots(t, fuel)
    ensures fuel >= 1 && Run(t, fuel) == Run(Next(t, fuel), fuel - 1)
  {
  }

  /**
   * Induction over the rounds of a run: a property of tableaux that every
   * pivot keeps, and that makes every stopping round satisfy `Q`, makes
   * the whole run satisfy `Q`.
   */
  lemma {:induction false} RunInduction(inv: Mat -> bool, Q: (Outcome, Mat) -> bool, t: Mat, fuel: nat)
    requires IsTableau(t) && inv(t)
    requires forall t', f' :: IsTableau(t') && inv(t') && Pivots(t', f') ==> inv(Next(t', f'))
    requires forall t', f' :: IsTableau(t') && inv(t') && !Pivots(t', f') ==> Q(Run(t', f').0, Run(t', f').1)
    ensures Q(Run(t, fuel).0, Run(t, fuel).1)
    decreases fuel
  {
    if Pivots(t, fuel) {
      RunPivotStep(t, fuel);
      RunInduction(inv, Q, Next(t, fuel), fuel - 1);
    }
  }

  /** The outcome of a round that does not pivot. */
  function Halt(t: Mat, fuel: nat): Outcome
    requires IsTableau(t)
  {
    CleanedIsTableau(t);
    match Decide(MatCleaned(t))
    case Finished => Optimal
    case NoLeavingRow(_) => Unbounded
    case PivotAt(_, _) => if fuel == 0 then OutOfFuel else DivisionAborted
  }

  /** A round that does not pivot ends the run on the cleaned tableau with outcome `Halt`. */
  lemma RunHalts(t: Mat, fuel: nat)
    requires IsTableau(t) && !Pivots(t, fuel)
    ensures Run(t, fuel) == (Halt(t, fuel), MatCleaned(t))
  {
  }

  /** A round that does not pivot stops on a cleaned tableau as its outcome says. */
  lemma RunStopStep(t: Mat, fuel: nat)
    requires IsTableau(t) && !Pivots(t, fuel)
    ensures EndsAsReported(Run(t, fuel).0, Run(t, fuel).1)
  {
    CleanedIsTableau(t);
    MatCleanupIdempotent(t);
    RunHalts(t, fuel);
    var u := MatCleaned(t);
    DecideSpec(u);
    var d := Decide(u);
    if d.NoLeavingRow? {
      assert EntersAt(u, d.col) && NothingLeaves(u, d.col);
    } else if d.PivotAt? && fuel != 0 {
      assert LeavesAt(u, d.row, d.col);
    }
  }

  /** However a run ends, its outcome is reported truthfully. */
  lemma RunEndsAsReported(t: Mat, fuel: nat)
    requires IsTableau(t)
    ensures EndsAsReported(Run(t, fuel).0, Run(t, fuel).1)
  {
    var inv := (t': Mat) => IsTableau(t');
    var Q := (o: Outcome, u: Mat) => IsTableau(u) && EndsAsReported(o, u);
    forall t', f' | IsTableau(t') && inv(t') && !Pivots(t', f') ensures Q(Run(t', f').0, Run(t', f').1) {
      RunStopStep(t', f');
    }
    RunInduction(inv, Q, t, fuel);
  }

  /** `simplexMethod2`: the same run, with every pivot also applied to a separate objective `obj`. */
  function RunShadow(t: Mat, obj: seq<real>, fuel: nat): (r: (Outcome, Mat, seq<real>))
    requires IsTableau(t) && |obj| == Width(t)
    ensures |r.2| == |obj|
    decreases fuel
  {
    if Pivots(t, fuel) then
      PivotPosition(t, fuel);
      var d := Decide(MatCleaned(t));
      var v := Next(t, fuel);
      RunShadow(v, Eliminated(obj, v[d.row], d.col), fuel - 1)
    else (Halt(t, fuel), MatCleaned(t), obj)
  }

  /** A round that pivots does so inside the tableau. */
  lemma PivotPosition(t: Mat, fuel: nat)
    requires IsTableau(t) && Pivots(t, fuel)
    ensures IsTableau(MatCleaned(t)) && Decide(MatCleaned(t)).PivotAt?
    ensures Decide(MatCleaned(t)).row < |t| - 1 && Decide(MatCleaned(t)).col < Width(t) - 1
  {
    CleanedIsTableau(t);
    DecideSpec(MatCleaned(t));
  }

  /** A shadowed run is the run when it stops at once, and otherwise its first pivot, mirrored onto `obj`, then the rest. */
  lemma RunShadowStep(t: Mat, obj: seq<real>, fuel: nat, row: nat, col: nat)
    requires IsTableau(t) && |obj| == Width(t) && Pivots(t, fuel)
    requires IsTableau(MatCleaned(t)) && Decide(MatCleaned(t)) == PivotAt(row, col)
    ensures fuel >= 1 && row < |t| && col < Width(t)
    ensures RunShadow(t, obj, fuel) == RunShadow(Next(t, fuel), Eliminated(obj, Next(t, fuel)[row], col), fuel - 1)
  {
    PivotPosition(t, fuel);
  }

  /** The pivot mirrored onto `obj` zeroes its entry in the pivot column: `Obj[COL] == 0` after every pivot. */
  lemma ShadowZeroesPivotColumn(t: Mat, obj: seq<real>, fuel: nat)
    requires IsTableau(t) && |obj| == Width(t) && Pivots(t, fuel)
    ensures IsTableau(MatCleaned(t)) && Decide(MatCleaned(t)).PivotAt?
    ensures Decide(MatCleaned(t)).row < |t| - 1 && Decide(MatCleaned(t)).col < Width(t) - 1
    ensures Eliminated(obj, Next(t, fuel)[Decide(MatCleaned(t)).row], Decide(MatCleaned(t)).col)[Decide(MatCleaned(t)).col] == 0.0
  {
    PivotPosition(t, fuel);
    var u := MatCleaned(t);
    PivotUnitColumn(u, Decide(u).row, Decide(u).col);
    EliminatedZeroesColumn(obj, Next(t, fuel)[Decide(u).row], Decide(u).col);
  }

  /** A shadowed run that does not pivot stops as the plain run does and leaves `obj` alone. */
  lemma RunShadowHalts(t: Mat, obj: seq<real>, fuel: nat)
    requires IsTableau(t) && |obj| == Width(t) && !Pivots(t, fuel)
    ensures RunShadow(t, obj, fuel) == (Halt(t, fuel), MatCleaned(t), obj)
  {
  }

  /** Mirroring the pivots onto `obj` changes neither the outcome nor the tableau. */
  lemma {:induction false} RunShadowAgrees(t: Mat, obj: seq<real>, fuel: nat)
    requires IsTableau(t) && |obj| == Width(t)
    ensures RunShadow(t, obj, fuel).0 == Run(t, fuel).0
    ensures RunShadow(t, obj, fuel).1 == Run(t, fuel).1
    decreases fuel
  {
    if Pivots(t, fuel) {
      PivotPosition(t, fuel);
      var d := Decide(MatCleaned(t));
      var v := Next(t, fuel);
      RunShadowAgrees(v, Eliminated(obj, v[d.row], d.col), fuel - 1);
    }
  }

  /** `cleanup` only zeroes entries, so it keeps right-hand sides non-negative. */
  lemma CleanedKeepsFeasible(t: Mat)
    requires IsTableau(t) && Feasible(t)
    ensures IsTableau(MatCleaned(t)) && Feasible(MatCleaned(t))
  {
    CleanedIsTableau(t);
    MatCleanedEntries(t);
  }

  /** A run started on a feasible tableau ends on a feasible one, however it ends. */
  lemma RunKeepsFeasible(t: Mat, fuel: nat)
    requires IsTableau(t) && Feasible(t)
    ensures Feasible(Run(t, fuel).1)
  {
    var inv := (t': Mat) => IsTableau(t') && Feasible(t');
    var Q := (o: Outcome, u: Mat) => IsTableau(u) && Feasible(u);
    forall t', f' | IsTableau(t') && inv(t') && Pivots(t', f') ensures inv(Next(t', f')) {
      CleanedKeepsFeasible(t');
      var u := MatCleaned(t');
      DecideSpec(u);
      PivotKeepsFeasible(u, Decide(u).row, Decide(u).col);
    }
    forall t', f' | IsTableau(t') && inv(t') && !Pivots(t', f') ensures Q(Run(t', f').0, Run(t', f').1) {
      CleanedKeepsFeasible(t');
    }
    RunInduction(inv, Q, t, fuel);
  }

  /** The entering scan over `All[m][0..m+n-1]` (nothing to scan in a 0x0 tableau). */
  method ScanEntering(all: Matrix) returns (s: real, si: int)
    requires all.Valid()
    ensures IsTableau(all.Rows())
    ensures (s, si) == EnterScan(ObjectiveCosts(all.Rows()))
    ensures -1 <= si < all.Col && (si == -1 ==> s == INF)
  {
    ValidIsTableau(all);
    s, si := INF, -1;
    if all.Row == 0 {
      return;
    }
    ghost var costs := ObjectiveCosts(all.Rows());
    var m := all.Row - 1;
    var j := 0;
    while j < all.Col - 1
      invariant 0 <= j <= all.Col - 1
      invariant (s, si) == EnterScan(costs[..j])
      invariant -1 <= si < j && (si == -1 ==> s == INF)
    {
      assert costs[..j + 1][..j] == costs[..j];
      var c := Chmin(s, all.Get(m, j));
      s := c.1;
      si := if c.0 then j else si;
      j := j + 1;
    }
    assert costs[..all.Col - 1] == costs;
  }

  /** The ratio test over the constraint rows for entering column `si`. */
  method ScanRatios(all: Matrix, si: nat) returns (p: real, pi: int)
    requires all.Valid() && si < all.Col
    ensures IsTableau(all.Rows()) && si < Width(all.Rows())
    ensures (p, pi) == RatioScan(all.Rows(), si, |all.Rows()| - 1)
    ensures -1 <= pi < all.Row - 1
  {
    ValidIsTableau(all);
    ghost var t := all.Rows();
    var m := all.Row - 1;
    var rhs := all.Col - 1;
    p, pi := INF, -1;
    var i := 0;
    while i < m
      invariant 0 <= i <= m
      invariant (p, pi) == RatioScan(t, si, i)
      invariant -1 <= pi < i
    {
      if all.Get(i, si) > 0.0 {
        var c := Chmin(p, all.Get(i, rhs) / all.Get(i, si));
        p := c.1;
        pi := if c.0 then i else pi;
      }
      i := i + 1;
    }
  }

  /** `All[i][j] -= d * All[row][j]` for every `j`, with `d = All[i][col]` read first. */
  method EliminateRow(all: Matrix, i: nat, row: nat, col: nat)
    requires all.Valid() && i < all.Row && row < all.Row && i != row && col < all.Col
    modifies all.ptr
    ensures all.Rows() == old(all.Rows())[i := Eliminated(old(all.Rows())[i], old(all.Rows())[row], col)]
  {
    ghost var t := all.Rows();
    var d := all.Get(i, col);
    var j := 0;
    while j < all.Col
      invariant 0 <= j <= all.Col
      invariant forall i', j' :: 0 <= i' < all.Row && 0 <= j' < all.Col ==>
        all.ptr[i', j'] == if i' == i && j' < j then t[i][j'] - t[row][j'] * d else t[i'][j']
    {
      all.ptr[i, j] := all.ptr[i, j] - d * all.ptr[row, j];
      j := j + 1;
    }
    SameEntries(all.Rows(), t[i := Eliminated(t[i], t[row], col)], all.Row, all.Col);
  }

  /** The pivot of both engines: `All[ROW] /= All[ROW][COL]` (which may abort), then the elimination loop. */
  method PivotInPlace(all: Matrix, row: nat, col: nat) returns (ok: bool)
    requires all.Valid() && row < all.Row && col < all.Col
    modifies all.ptr
    ensures IsTableau(old(all.Rows()))
    ensures ok == (Abs(old(all.Rows())[row][col]) >= NEARLY_ZERO)
    ensures ok ==> all.Rows() == Pivoted(old(all.Rows()), row, col)
    ensures !ok ==> all.Rows() == old(all.Rows())
  {
    ValidIsTableau(all);
    ghost var t := all.Rows();
    ok := all.DivRow(row, all.Get(row, col));
    if !ok {
      return;
    }
    ghost var p := Quotient(t[row], t[row][col]);
    var i := 0;
    while i < all.Row
      invariant 0 <= i <= all.Row
      invariant all.Valid()
      invariant |all.Rows()| == |t|
      invariant forall k :: 0 <= k < |t| ==>
        all.Rows()[k] == if k == row then p else if k < i then Eliminated(t[k], p, col) else t[k]
    {
      if i != row {
        EliminateRow(all, i, row, col);
      }
      i := i + 1;
    }
    PivotedRows(t, row, col);
    assert all.Rows() == Pivoted(t, row, col);
  }

  /**
   * One round on the matrix, in place: `cleanup`, the two scans, and the
   * pivot when the round does not stop. The `abort()` for `SI == -1` cannot
   * fire: a negative minimum is always found at some index.
   */
  method RoundInPlace(all: Matrix, fuel: nat) returns (stop: bool, outcome: Outcome, row: nat, col: nat)
    requires all.Valid()
    modifies all.ptr
    ensures all.Valid() && IsTableau(old(all.Rows())) && IsTableau(MatCleaned(old(all.Rows())))
    ensures stop <==> !Pivots(old(all.Rows()), fuel)
    ensures stop ==> outcome == Halt(old(all.Rows()), fuel) && all.Rows() == MatCleaned(old(all.Rows()))
    ensures !stop ==> Decide(MatCleaned(old(all.Rows()))) == PivotAt(row, col) && row < all.Row && col < all.Col
    ensures !stop ==> all.Rows() == Next(old(all.Rows()), fuel)
  {
    ghost var t := all.Rows();
    CleanedIsTableau(t);
    all.Cleanup();
    ghost var u := all.Rows();
    var s, si := ScanEntering(all);
    if !(s < 0.0) {
      NoNegativeCostStops(t, u, fuel, s, si);
      return true, Optimal, 0, 0;
    }
    var p, pi := ScanRatios(all, si);
    if pi == -1 {
      NoLeavingRowStops(t, u, fuel, s, si, p, pi);
      return true, Unbounded, 0, 0;
    }
    RatioTestChooses(t, u, fuel, s, si, p, pi);
    if fuel == 0 {
      return true, OutOfFuel, 0, 0;
    }
    var ok := PivotInPlace(all, pi, si);
    if !ok {
      return true, DivisionAborted, 0, 0;
    }
    return false, Optimal, pi, si;
  }

  /** The entering scan finding no negative entry stops the round with `Optimal`. */
  lemma NoNegativeCostStops(t: Mat, u: Mat, fuel: nat, s: real, si: int)
    requires IsTableau(t) && u == MatCleaned(t) && IsTableau(u)
    requires (s, si) == EnterScan(ObjectiveCosts(u)) && !(s < 0.0)
    ensures !Pivots(t, fuel) && Halt(t, fuel) == Optimal
  {
  }

  /** A negative entering entry that no row bounds stops the round with `Unbounded`. */
  lemma NoLeavingRowStops(t: Mat, u: Mat, fuel: nat, s: real, si: int, p: real, pi: int)
    requires IsTableau(t) && u == MatCleaned(t) && IsTableau(u)
    requires (s, si) == EnterScan(ObjectiveCosts(u)) && s < 0.0
    requires 0 <= si < Width(u) && (p, pi) == RatioScan(u, si, |u| - 1) && pi == -1
    ensures !Pivots(t, fuel) && Halt(t, fuel) == Unbounded
  {
  }

  /** A negative entering entry and a leaving row decide a pivot, made when fuel is left and the pivot is not too small. */
  lemma RatioTestChooses(t: Mat, u: Mat, fuel: nat, s: real, si: int, p: real, pi: int)
    requires IsTableau(t) && u == MatCleaned(t) && IsTableau(u)
    requires (s, si) == EnterScan(ObjectiveCosts(u)) && s < 0.0
    requires 0 <= si < Width(u) && (p, pi) == RatioScan(u, si, |u| - 1) && 0 <= pi < |u| - 1
    ensures Decide(u) == PivotAt(pi, si)
    ensures Pivots(t, fuel) <==> fuel != 0 && Abs(u[pi][si]) >= NEARLY_ZERO
    ensures !Pivots(t, fuel) ==> Halt(t, fuel) == if fuel == 0 then OutOfFuel else DivisionAborted
    ensures Pivots(t, fuel) ==> Next(t, fuel) == Pivoted(u, pi, si)
  {
  }



  /**
   * `simplexMethod(All)` with at most `fuel` pivots: the tableau is
   * changed in place, and the outcome and final tableau are those of `Run`.
   */
  method SimplexMethod(all: Matrix, fuel: nat) returns (outcome: Outcome)
    requires all.Valid()
    modifies all.ptr
    ensures all.Valid() && IsTableau(old(all.Rows()))
    ensures (outcome, all.Rows()) == Run(old(all.Rows()), fuel)
    decreases fuel
  {
    ghost var t := all.Rows();
    var stop, row, col;
    stop, outcome, row, col := RoundInPlace(all, fuel);
    if stop {
      RunHalts(t, fuel);
      return;
    }
    RunPivotStep(t, fuel);
    var rest := fuel - 1;
    outcome := SimplexMethod(all, rest);
  }


  /** `Obj -= Obj[COL] * All[ROW]`, which `Obj` being as wide as the tableau lets through. */
  method ShadowPivot(all: Matrix, obj: Vector, row: nat, col: nat)
    requires all.Valid() && obj.Valid() && obj.Dim == all.Col && row < all.Row && col < all.Col
    modifies obj.ptr
    ensures obj.Valid() && obj.Dim == all.Col
    ensures obj.Contents() == Eliminated(old(obj.Contents()), all.Rows()[row], col)
  {
    var pivotRow := all.RowCopy(row);
    var scaled := Scale(pivotRow, obj.Get(col));
    var same := obj.SubAssign(scaled);
  }

  /**
   * `simplexMethod2(All, Obj)`: the same engine, and after each pivot
   * `Obj -= Obj[COL] * All[ROW]`.
   */
  method SimplexMethod2(all: Matrix, obj: Vector, fuel: nat) returns (outcome: Outcome)
    requires all.Valid() && obj.Valid() && obj.Dim == all.Col
    modifies all.ptr, obj.ptr
    ensures all.Valid() && obj.Valid()
    ensures IsTableau(old(all.Rows()))
    ensures (outcome, all.Rows(), obj.Contents()) == RunShadow(old(all.Rows()), old(obj.Contents()), fuel)
    decreases fuel
  {
    ghost var t := all.Rows();
    ghost var o := obj.Contents();
    var stop, row, col;
    stop, outcome, row, col := RoundInPlace(all, fuel);
    if stop {
      RunShadowHalts(t, o, fuel);
      return;
    }
    RunShadowStep(t, o, fuel, row, col);
    ShadowPivot(all, obj, row, col);
    var rest := fuel - 1;
    outcome := SimplexMethod2(all, obj, rest);
  }
}
