# Dense-tableau simplex solver and its Vector/Matrix library, in Dafny

This project models a small C++ linear-programming solver for
`max c.x` subject to `A x <= b` and `x >= 0`. It covers two parts.

The first part is the dense `Vector`/`Matrix` library (`matrix.hpp`,
`matrix.cpp`). It has constructors, `setSize`, `operator=`, the compound
operators, the non-member operators, the dot product, the three products,
tolerance equality and `cleanup`.

The second part is the solver proper (`simplex_method.cpp`):

- `createMatrix` lays out the tableau `[A | I | b ; -c | 0 | 0]`.
- `subProblem` is Phase I. It adds artificial columns for the negative `b[i]`, drives them out with `simplexMethod2` and reassembles the Phase II tableau.
- `simplexMethod` and `simplexMethod2` are the pivot engine.
- `showResult` extracts the solution.
- The helpers are `chmin`/`chmax`, `sign` and the transpose `T`.

Doubles are exact `real` values. The tolerances are `NEARLY_ZERO = 1e-10`
and `ZERO_TOLERANCE = 1e-12`, and the scan cap is `INF = 1e5`.

Both classes keep the source's mutable state:

- `Vector` holds an `array<real>` and `Dim`.
- `Matrix` holds an `array2<real>`, `Row` and `Col`.
- Every method is proved against a value: `Contents()` for a vector and `Rows()` for a matrix.
- The specification functions over `seq<real>` and `seq<seq<real>>` carry the lemmas.

An `abort` becomes an `ok` result that is false exactly under the
source's abort condition, with nothing changed. A `throw` becomes an
outcome: `Unbounded`, or `Infeasible` from `subProblem`.

The pivot engine is recursive, as in the source, and takes a `fuel` bound
on the number of pivots. It has these parts:

- `Run` and `RunShadow` are the specification functions of `simplexMethod` and `simplexMethod2`.
- `Decide` specifies the choice made in each round.
- `Pivoted` specifies the Gauss–Jordan step.
- The in-place methods are proved equal to these functions.
- Lemmas then establish what a run promises:
  - a pivot keeps the shape;
  - it makes the pivot column a unit vector;
  - it keeps all right-hand sides non-negative;
  - it never lowers the objective value;
  - every stop is reported truthfully.

`showResult` tests only `All[i][j] == 1.0`, not whether column `j` is a
unit vector. So an entry of `A` equal to `1.0` reads as a basic column
before any pivot: `max x, x <= 2` reads `x = [2]`
(`Extraction.StandardReadsOneEntry`). Columns without such an entry read
`0` (`Extraction.StandardReadsZero`).

Rows below whose third column begins with "definition" name a function
without a contract of its own; the lemmas named there characterise it.

## Model

| member | source | states |
|---|---|---|
| Numeric.Abs | matrix.cpp:193 | `fabs`: the result is non-negative and is `x` or `-x` |
| Numeric.TolerancesOrdered | matrix.hpp:9-10 | 0 < ZERO_TOLERANCE < NEARLY_ZERO: the cleanup ratio is stricter than the equality and division threshold |
| Vectors.MaxAbsFrom | matrix.cpp:191-194 | the running maximum from `m0` bounds every magnitude, is at least `m0`, and is `m0` or one of the magnitudes |
| Vectors.MaxAbsFromUnique | matrix.cpp:191-194 | those three properties determine the maximum uniquely |
| Vectors.RatioTestAsProduct | matrix.cpp:197 | for `max > 0`, `|x| / max < ZERO_TOLERANCE` holds iff `|x| < ZERO_TOLERANCE * max` |
| Vectors.MinusUndoesPlus | matrix.cpp:167-187 | `(a + b) - b == a` for the element-wise operators |
| Vectors.QuotientUndoesScaled | matrix.cpp:149-165 | dividing by a non-zero `c` undoes scaling by `c` |
| Vectors.NegationInvolutive | matrix.hpp:43 | unary minus negates every entry, and applying it twice gives the vector back |
| Vectors.InnerProductSymmetric | matrix.cpp:56-66 | the dot product is symmetric |
| Vectors.InnerProductUnit | matrix.cpp:56-66 | the dot product with the `k`-th unit vector is entry `k` |
| Vectors.InnerProductZerosLeft | matrix.cpp:56-66 | the dot product with the zero vector is 0 |
| Vectors.ApproxEqualReflexiveSymmetric | matrix.cpp:68-76 | tolerance equality is reflexive and symmetric |
| Vectors.ApproxEqualNotTransitive | matrix.cpp:68-76 | tolerance equality is not transitive: `[0]`, `[0.6e-10]` and `[1.2e-10]` are a counterexample |
| Vectors.SnappedKeepsLargest | matrix.cpp:195-200 | an entry whose magnitude equals the maximum is never snapped to zero |
| Vectors.Cleaned | matrix.cpp:189-202 | definition: the vector after `cleanup`; characterised by CleanedEntries, CleanedKeepsMax and CleanupIdempotent |
| Vectors.CleanedKeepsMax | matrix.cpp:189-202 | `cleanup` keeps the length and the maximum magnitude |
| Vectors.CleanedEntries | matrix.cpp:189-202 | after `cleanup` each entry is either kept or 0; if max > NEARLY_ZERO, exactly the entries with ratio below ZERO_TOLERANCE become 0; if max <= NEARLY_ZERO, nothing changes |
| Vectors.SnappedIdempotent | matrix.cpp:196-200 | snapping twice against the same maximum is snapping once |
| Vectors.CleanupIdempotent | matrix.cpp:189-202 | a second `cleanup` changes nothing |
| Vectors.Vector.constructor | matrix.cpp:88-93 | `Vector(dim)` holds `dim` zeros in a fresh buffer |
| Vectors.Vector.Copy | matrix.cpp:95-100 | the copy constructor holds the same size and entries in a fresh buffer |
| Vectors.Vector.FromBuffer | matrix.cpp:102-107 | `Vector(vec, dim)` holds the first `dim` entries of `vec` |
| Vectors.Vector.SetSize | matrix.cpp:113-120 | `setSize` discards the contents and zero-fills a new buffer of the new size |
| Vectors.Vector.GetSize | matrix.hpp:37 | definition: `getSize()` returns `Dim`; characterised by Vectors.Vector.SizeIsLength, and kept by Vectors.Vector.Set |
| Vectors.Vector.SizeIsLength | matrix.hpp:37 | `getSize()` is the length of the contents |
| Vectors.Vector.Get | matrix.hpp:100-103 | definition: reading `v[i]`, with `0 <= i < Dim` as the caller's obligation because `NDEBUG` compiles the assert out; characterised by Vectors.Vector.GetReadsEntry |
| Vectors.Vector.GetReadsEntry | matrix.hpp:100-103 | `v[i]` is entry `i` of the contents |
| Vectors.Vector.Set | matrix.hpp:95-98 | writing through `v[i]` for `i < Dim` changes entry `i` only and keeps the size |
| Vectors.Vector.Assign | matrix.cpp:139-147 | `operator=` succeeds iff it is a self-assignment or the sizes agree; it then holds the right operand's entries, and otherwise nothing changes |
| Vectors.Vector.MulAssign | matrix.cpp:149-154 | `*= c` scales every entry by `c` |
| Vectors.Vector.DivAssign | matrix.cpp:156-165 | `/= c` aborts iff `|c| < NEARLY_ZERO` and otherwise divides every entry by `c`; nothing changes on abort |
| Vectors.Vector.AddAssign | matrix.cpp:167-176 | `+=` aborts iff the sizes differ and otherwise adds element-wise |
| Vectors.Vector.SubAssign | matrix.cpp:178-187 | `-=` aborts iff the sizes differ and otherwise subtracts element-wise |
| Vectors.Vector.Cleanup | matrix.cpp:189-202 | the new contents are `Cleaned` of the old ones (see `CleanedEntries`) |
| Vectors.Vector.Negate | matrix.hpp:43 | unary minus is a fresh vector holding `-1.0` times every entry |
| Vectors.Add | matrix.cpp:9-12 | `left + right` is a fresh vector; it succeeds iff the sizes agree, and then holds the element-wise sum |
| Vectors.Sub | matrix.cpp:14-17 | `left - right` is a fresh vector; it succeeds iff the sizes agree, and then holds the element-wise difference |
| Vectors.Scale | matrix.cpp:19-27 | `v * c` and `c * v` give a fresh vector holding the scaled entries |
| Vectors.Divide | matrix.cpp:29-32 | `v / c` succeeds iff `|c| >= NEARLY_ZERO`, and then holds the quotients in a fresh vector |
| Vectors.Dot | matrix.cpp:56-66 | the dot product succeeds iff the lengths agree, and is then the sum of the pairwise products |
| Vectors.Equal | matrix.cpp:68-76 | `==` holds iff the lengths agree and every pair of entries is within NEARLY_ZERO |
| Vectors.NotEqual | matrix.cpp:78-84 | `!=` is the negation of `==` |
| Matrices.ToSeq | matrix.hpp:105-113 | the value of the buffer has `Row` rows of `Col` entries, and entry `(i, j)` is `m[i][j]` |
| Matrices.SameEntries | matrix.cpp:310-320 | two matrices of one shape with equal entries are equal |
| Matrices.MatMaxAbs | matrix.cpp:411-417 | the global maximum magnitude is non-negative |
| Matrices.MatMaxAbsSpec | matrix.cpp:411-417 | the global maximum bounds every magnitude, and is one of them or 0 |
| Matrices.MatMaxAbsUnique | matrix.cpp:411-417 | those properties determine the global maximum uniquely |
| Matrices.MatCleaned | matrix.cpp:410-427 | the matrix `cleanup` keeps the number of rows |
| Matrices.SnapRows | matrix.cpp:419-425 | the snapping pass keeps the number of rows |
| Matrices.SnapRowsEntries | matrix.cpp:419-425 | the snapping pass snaps every entry against one maximum, row by row |
| Matrices.MatCleanedEntry | matrix.cpp:410-427 | the rows keep their lengths, and each entry is snapped against the global maximum when that exceeds NEARLY_ZERO, and kept otherwise |
| Matrices.MatCleanedKeepsMax | matrix.cpp:410-427 | the matrix `cleanup` keeps the global maximum magnitude |
| Matrices.MatCleanedEntries | matrix.cpp:410-427 | every entry is kept or zeroed; if the global max > NEARLY_ZERO, exactly the entries with ratio below ZERO_TOLERANCE become 0; if it is <= NEARLY_ZERO, nothing changes |
| Matrices.MatCleanupIdempotent | matrix.cpp:410-427 | a second matrix `cleanup` changes nothing |
| Matrices.TransposeInvolution | simplex_method.cpp:22-30 | transposing an `r x c` matrix twice gives it back |
| Matrices.VecMatIsTransposedMatVec | matrix.cpp:274-289 | `x * A` before cleanup equals `A^T * x` before cleanup |
| Matrices.MatMulIdentityLeft | matrix.cpp:291-308 | the identity is a left unit of the product before cleanup |
| Matrices.NewBuffer | matrix.cpp:431-446 | the buffer is `0 x 0` when `row` or `col` is 0, and otherwise `row x col`; all its entries are zero |
| Matrices.Matrix.constructor | matrix.cpp:333-335 | `Matrix(row, col)` is zero-filled, and `0 x 0` when `row` or `col` is 0 |
| Matrices.Matrix.Copy | matrix.cpp:337-342 | the copy constructor duplicates the shape and every row into a fresh buffer |
| Matrices.Matrix.SetSize | matrix.cpp:348-353 | `setSize` discards the contents and zero-fills the new shape (`0 x 0` when either dimension is 0) |
| Matrices.Matrix.GetRow | matrix.hpp:75 | definition: `getRow()` returns `Row`; characterised by Matrices.Matrix.ShapeOfRows, and kept by Matrices.Matrix.Set |
| Matrices.Matrix.GetCol | matrix.hpp:76 | definition: `getCol()` returns `Col`; characterised by Matrices.Matrix.ShapeOfRows, and kept by Matrices.Matrix.Set |
| Matrices.Matrix.ShapeOfRows | matrix.hpp:75-76 | `getRow()` is the number of rows and every row has `getCol()` entries |
| Matrices.Matrix.Get | matrix.hpp:105-113 | definition: reading `m[i][j]`, with both ranges as the caller's obligation because `NDEBUG` compiles the asserts out; characterised by Matrices.Matrix.GetReadsEntry |
| Matrices.Matrix.GetReadsEntry | matrix.hpp:105-113 | `m[i][j]` is entry `(i, j)` of the rows |
| Matrices.Matrix.Set | matrix.hpp:105-113 | writing through `m[i][j]` changes that entry only and keeps `Row`/`Col` |
| Matrices.Matrix.Assign | matrix.cpp:355-365 | `operator=` succeeds iff it is a self-assignment or the shapes agree; it then holds the right operand's rows, and otherwise nothing changes |
| Matrices.Matrix.AddAssign | matrix.cpp:367-376 | `+=` aborts iff the shapes differ and otherwise adds element-wise |
| Matrices.Matrix.SubAssign | matrix.cpp:378-387 | `-=` aborts iff the shapes differ and otherwise subtracts element-wise |
| Matrices.Matrix.Cleanup | matrix.cpp:410-427 | the new rows are `MatCleaned` of the old ones |
| Matrices.Matrix.MaxMagnitude | matrix.cpp:411-417 | the first pass returns the global maximum magnitude, scanned row-major |
| Matrices.Matrix.RowMaxFrom | matrix.cpp:414-416 | the inner scan carries the running maximum across one row |
| Matrices.Matrix.SnapAll | matrix.cpp:418-426 | the second pass with the global maximum above NEARLY_ZERO makes the cleaned matrix |
| Matrices.Matrix.DivRow | simplex_method.cpp:198 | `All[ROW] /= d` aborts iff `|d| < NEARLY_ZERO` and otherwise divides only that row |
| Matrices.Matrix.NegateRow | simplex_method.cpp:299 | `Sub[i] = -Sub[i]` negates only row `i` |
| Matrices.Matrix.SubRow | simplex_method.cpp:300 | `Sub[m] -= Sub[i]` subtracts row `i` from row `m` only |
| Matrices.Matrix.RowCopy | simplex_method.cpp:268 | taking row `i` by value gives a fresh vector with that row's entries |
| Matrices.Add | matrix.cpp:228-231 | `left + right` succeeds iff the shapes agree, and then holds the element-wise sum in a fresh matrix |
| Matrices.Sub | matrix.cpp:233-236 | `left - right` succeeds iff the shapes agree, and then holds the element-wise difference in a fresh matrix |
| Matrices.MulVec | matrix.cpp:257-272 | `A * x` succeeds iff `Col == |x|`; it then has `Row` entries, entry `i` being row `i` dotted with `x`, and is cleaned up |
| Matrices.FillRowDots | matrix.cpp:263-269 | the row loop writes every row's dot product with `x` |
| Matrices.RowDot | matrix.cpp:264-267 | the accumulated `sum` is row `i` dotted with `x` |
| Matrices.VecMul | matrix.cpp:274-289 | `x * A` succeeds iff `Row == |x|`; it then has `Col` entries, entry `j` being `x` dotted with column `j`, and is cleaned up |
| Matrices.FillColumnDots | matrix.cpp:280-286 | the column loop writes every column's dot product with `x` |
| Matrices.ColumnDot | matrix.cpp:281-284 | the accumulated `sum` is `x` dotted with column `j` |
| Matrices.RowColumnDot | matrix.cpp:299-302 | the accumulated `sum` is row `i` of `left` dotted with column `j` of `right` |
| Matrices.MatMul | matrix.cpp:291-308 | `left * right` succeeds iff `left.Col == right.Row`; it is then `left.Row x right.Col`, holds the matrix product and is cleaned up |
| Matrices.ProductRow | matrix.cpp:298-304 | row `i` of the product is written and every other row is left alone |
| Matrices.ProductBuffer | matrix.cpp:296-305 | the triple loop fills a fresh `left.Row x right.Col` buffer with the product |
| Matrices.Equal | matrix.cpp:310-320 | `==` holds iff the shapes agree and every row is `==` as vectors |
| Matrices.NotEqual | matrix.cpp:322-328 | `!=` is the negation of `==` |
| SimplexHelpers.Chmin | simplex_method.cpp:142-148 | the new value is the lesser of the two, and the update is reported iff it is strictly below the old value |
| SimplexHelpers.Chmax | simplex_method.cpp:134-140 | the new value is the greater of the two, and the update is reported iff it is strictly above the old value |
| SimplexHelpers.SignOf | simplex_method.cpp:35 | the sign is -1, 0 or 1; it is 0 iff the entry is 0; sign times entry is the magnitude |
| SimplexHelpers.Signs | simplex_method.cpp:32-38 | definition: the sign of every entry; characterised by SignsTimesEntries and SignOf |
| SimplexHelpers.SignsTimesEntries | simplex_method.cpp:32-38 | the sign vector has the same length, and scaling each entry by its sign gives its magnitude |
| SimplexHelpers.Sign | simplex_method.cpp:32-38 | `sign(V)` is a fresh vector of the entries' signs |
| SimplexHelpers.Transpose | simplex_method.cpp:22-30 | `T(A)` is a fresh `Col x Row` matrix with entry `(j, i)` equal to `A[i][j]` |
| PivotEngine.ValidIsTableau | matrix.hpp:85-88 | every valid `Matrix` is a rectangular tableau with `Row` rows of `Col` entries |
| PivotEngine.CleanedIsTableau | matrix.cpp:410-427 | `cleanup` keeps a tableau rectangular with the same shape |
| PivotEngine.EnterScan | simplex_method.cpp:159-165 | definition: the `chmin` scan from `(INF, -1)` over the objective costs; characterised by EnterScanSpec and EnterScanLeftmostOnTies |
| PivotEngine.EnterScanSpec | simplex_method.cpp:159-165 | the entering scan sets `SI = -1` iff no entry is below INF; otherwise `S` is the entry at `SI`, the least of all, and every entry before `SI` is strictly greater |
| PivotEngine.EnterScanLeftmostOnTies | simplex_method.cpp:142-148 | `chmin` updates only on a strict decrease, so any entry below INF equal to the minimum lies at or after `SI`: ties go to the leftmost |
| PivotEngine.RatioScan | simplex_method.cpp:180-186 | definition: the `chmin` scan from `(INF, -1)` over the ratios of rows with a positive entry; characterised by RatioScanSpec and RatioScanFirstOnTies |
| PivotEngine.RatioScanSpec | simplex_method.cpp:180-186 | the ratio test sets `PI = -1` iff no row with a positive entry has a ratio below INF; otherwise `P` is the ratio of `PI`, no eligible row has a smaller ratio, and every eligible row before `PI` has a strictly greater one |
| PivotEngine.RatioScanFirstOnTies | simplex_method.cpp:182-186 | any eligible row whose ratio equals the minimum lies at or after `PI`: ties go to the first row |
| PivotEngine.Decide | simplex_method.cpp:159-192 | definition: the round's choice from the two scans; characterised by DecideSpec |
| PivotEngine.DecideSpec | simplex_method.cpp:159-192 | a round finishes iff no objective entry before the last column is negative; otherwise it enters at the leftmost most negative entry and either finds no leaving row ("unbounded") or pivots on the ratio test's row |
| PivotEngine.Pivoted | simplex_method.cpp:198-206 | definition: divide the pivot row, then eliminate the pivot column from every other row; characterised by PivotedRows, PivotShape, PivotUnitColumn, PivotKeepsFeasible and PivotObjectiveNondecreasing |
| PivotEngine.PivotRows | simplex_method.cpp:200-206 | the elimination loop keeps the number of rows |
| PivotEngine.PivotRowsEntries | simplex_method.cpp:200-206 | the elimination loop keeps the divided pivot row and eliminates the pivot column from every other row |
| PivotEngine.PivotedRows | simplex_method.cpp:198-206 | row `ROW` becomes the old row divided by its pivot, and every other row `i` becomes `row_i - All[i][COL] * newPivotRow` |
| PivotEngine.PivotShape | simplex_method.cpp:198-206 | a pivot keeps the shape of the tableau |
| PivotEngine.PivotUnitColumn | simplex_method.cpp:198-206 | after a pivot, column `COL` is the unit vector of row `ROW` over all `m + 1` rows |
| PivotEngine.EliminatedZeroesColumn | simplex_method.cpp:268 | `Obj -= Obj[COL] * All[ROW]` makes `Obj[COL]` zero once `All[ROW][COL]` is 1 |
| PivotEngine.PivotKeepsFeasible | simplex_method.cpp:182-206 | with the ratio test's leaving row, a pivot keeps every constraint right-hand side non-negative |
| PivotEngine.PivotRowFeasible | simplex_method.cpp:182-206 | the new right-hand side of each constraint row is non-negative |
| PivotEngine.RatioBound | simplex_method.cpp:204 | for `a > 0` and a ratio `p <= x / a`, the eliminated right-hand side `x - p * a` is non-negative |
| PivotEngine.PivotObjectiveNondecreasing | simplex_method.cpp:198-206 | with a negative entering entry and a feasible leaving row, `All[m][n+m]` does not decrease |
| PivotEngine.Run | simplex_method.cpp:152-211 | a run of `simplexMethod` keeps the tableau's shape |
| PivotEngine.Pivots | simplex_method.cpp:176-198 | definition: the round pivots when a pivot is chosen, fuel is left and the pivot passes the `/=` guard; characterised by RatioTestChooses, NoNegativeCostStops and NoLeavingRowStops |
| PivotEngine.Halt | simplex_method.cpp:176-192 | definition: the outcome of a round that does not pivot; characterised by RunHalts, RunStopStep and RunEndsAsReported |
| PivotEngine.Next | simplex_method.cpp:194-206 | the tableau after one pivot keeps the shape |
| PivotEngine.RunPivotStep | simplex_method.cpp:207 | a round that pivots uses one unit of fuel and continues on the pivoted tableau |
| PivotEngine.RunInduction | simplex_method.cpp:152-211 | a property that every pivot keeps, and that makes every stopping round satisfy `Q`, makes the whole run satisfy `Q` |
| PivotEngine.RunHalts | simplex_method.cpp:154-192 | a round that does not pivot ends the run on the cleaned tableau with the round's outcome |
| PivotEngine.RunStopStep | simplex_method.cpp:154-192 | a stopping round reports its outcome truthfully |
| PivotEngine.RunEndsAsReported | simplex_method.cpp:152-211 | however a run ends, its tableau is cleaned and the outcome is true of it: optimal means no negative objective entry, "unbounded" names an entering column with no leaving row whose ratio is below INF, a division abort names a too-small pivot |
| PivotEngine.RunShadow | simplex_method.cpp:213-273 | the run of `simplexMethod2` keeps the length of `Obj` |
| PivotEngine.PivotPosition | simplex_method.cpp:180-198 | a chosen pivot lies on a constraint row and a variable column |
| PivotEngine.RunShadowStep | simplex_method.cpp:259-269 | a pivoting round of `simplexMethod2` pivots the tableau, applies `Obj -= Obj[COL] * All[ROW]` and continues |
| PivotEngine.ShadowZeroesPivotColumn | simplex_method.cpp:259-268 | after every pivot of `simplexMethod2`, `Obj -= Obj[COL] * All[ROW]` leaves `Obj[COL] == 0` |
| PivotEngine.RunShadowHalts | simplex_method.cpp:215-253 | a stopping round of `simplexMethod2` stops as `simplexMethod` does and leaves `Obj` alone |
| PivotEngine.RunShadowAgrees | simplex_method.cpp:213-273 | mirroring the pivots onto `Obj` changes neither the outcome nor the tableau of the run |
| PivotEngine.CleanedKeepsFeasible | simplex_method.cpp:154 | `cleanup` keeps right-hand sides non-negative |
| PivotEngine.RunKeepsFeasible | simplex_method.cpp:152-211 | a run started on a feasible tableau ends on a feasible one, however it ends |
| PivotEngine.ScanEntering | simplex_method.cpp:159-165 | the entering scan over `All[m][0..m+n-1]` computes `EnterScan`; `SI` is -1 or a column index, and `S` is INF when `SI` is -1 |
| PivotEngine.ScanRatios | simplex_method.cpp:180-186 | the ratio loop computes `RatioScan` over the constraint rows; `PI` is -1 or a constraint row |
| PivotEngine.EliminateRow | simplex_method.cpp:202-205 | row `i` becomes `row_i - d * pivotRow`, with `d` read before the loop; the other rows are untouched |
| PivotEngine.PivotInPlace | simplex_method.cpp:198-206 | the pivot aborts iff `|All[ROW][COL]| < NEARLY_ZERO`, leaving the tableau unchanged; otherwise the tableau becomes `Pivoted` |
| PivotEngine.RoundInPlace | simplex_method.cpp:154-206 | one round stops iff the value-level round does not pivot, leaving the cleaned tableau and the round's outcome; otherwise it pivots at `Decide`'s choice |
| PivotEngine.NoNegativeCostStops | simplex_method.cpp:176 | no negative entering entry stops the round as optimal |
| PivotEngine.NoLeavingRowStops | simplex_method.cpp:188-192 | a negative entering entry with no leaving row stops the round as unbounded |
| PivotEngine.RatioTestChooses | simplex_method.cpp:176-198 | a negative entering entry and a leaving row choose that pivot; the round pivots iff fuel is left and the pivot is at least NEARLY_ZERO, and otherwise reports no fuel or the division abort |
| PivotEngine.SimplexMethod | simplex_method.cpp:152-211 | the outcome and the final tableau in place are those of `Run` on the initial tableau |
| PivotEngine.ShadowPivot | simplex_method.cpp:268 | `Obj -= Obj[COL] * All[ROW]` on the vector |
| PivotEngine.SimplexMethod2 | simplex_method.cpp:213-273 | the outcome, the final tableau and the final `Obj` are those of `RunShadow` |
| Tableaux.CoversProblem | simplex_method.cpp:285 | definition: when `n > 0`, `A` has at least `m` rows of at least `n` entries, the block the fill loops of `subProblem` and `createMatrix` read; when `n = 0` they read no entry, and any `A` will do |
| Tableaux.Coefficients | simplex_method.cpp:342 | the coefficients `A[i][0..n-1]` the fill loops copy into row `i`: exactly `n` of them, entry `j` equal to `A[i][j]`, and none when `n = 0` |
| Tableaux.StandardTableau | simplex_method.cpp:336-350 | definition: `[A | I | b ; -c | 0 | 0]` by blocks; characterised by StandardTableauLayout and StandardRowsAreBlocks |
| Tableaux.StandardRow | simplex_method.cpp:340-348 | each row of the fill loop has `n + m + 1` entries |
| Tableaux.StandardRowsAreBlocks | simplex_method.cpp:340-348 | the case-by-case fill of row `i` is row `i` of `[A | I | b ; -c | 0 | 0]` |
| Tableaux.StandardTableauLayout | simplex_method.cpp:336-350 | the standard tableau is `(m+1) x (n+m+1)`; row `i < m` is `A[i][0..n-1]`, then `e_i`, then `b[i]`; row `m` is `-c`, then zeros, then 0 |
| Tableaux.StandardTableauFeasible | simplex_method.cpp:336-350 | with every `b[i] >= 0`, the standard tableau has non-negative right-hand sides |
| Tableaux.StandardTableauWithoutColumns | simplex_method.cpp:336-350 | with `n = 0` no entry of `A` is read: the empty `A` with `b = [2]` is accepted and gives `[1 2 ; 0 0]` |
| Tableaux.CreateMatrix | simplex_method.cpp:336-350 | `createMatrix` returns a fresh `(m+1) x (n+m+1)` matrix equal to the standard tableau |
| Tableaux.FillStandardRow | simplex_method.cpp:341-347 | the inner loop writes row `i` of the standard tableau and nothing else |
| Tableaux.NegativesBelow | simplex_method.cpp:278-281 | the number of negative entries among `b[0..k-1]` is at most `k` |
| Tableaux.NegativeRowNumbered | simplex_method.cpp:294-302 | a negative row before `k` gets an artificial column index below the count at `k` |
| Tableaux.NegativesBelowMonotone | simplex_method.cpp:294-302 | the counter `flag` never decreases |
| Tableaux.SubStart | simplex_method.cpp:282-292 | definition: `Sub` after its first fill, by blocks; characterised by SubRowsAreBlocks and SubStartShape |
| Tableaux.SubRowStart | simplex_method.cpp:283-292 | each row of the first fill of `Sub` has `n + m + cnt + 1` entries |
| Tableaux.SubRowsAreBlocks | simplex_method.cpp:283-292 | the case-by-case fill of `Sub` is `[A | I | 0 | b ; 0 | 0 | 1 | 0]` row by row, with the skipped cases left 0 |
| Tableaux.Negated | simplex_method.cpp:297-299 | a negated row keeps its length |
| Tableaux.ObjectiveAfter | simplex_method.cpp:300 | row `m` keeps its length as negated rows are subtracted from it |
| Tableaux.Artificials | simplex_method.cpp:294-302 | the second loop keeps the shape of `Sub` |
| Tableaux.ArtificialsStart | simplex_method.cpp:294 | before the second loop, `Sub` is unchanged |
| Tableaux.ArtificialsNegativeStep | simplex_method.cpp:296-301 | a negative `b[k]` writes -1 in column `n+m+flag`, negates row `k` and subtracts it from row `m` |
| Tableaux.Marked | simplex_method.cpp:297-300 | the three writes of a negative round keep the number of rows and every row's length; their effect is characterised by ArtificialsNegativeStep, NegatedStartRow and MarkArtificial |
| Tableaux.ArtificialsSkipStep | simplex_method.cpp:296 | a round with `b[k] >= 0` changes nothing |
| Tableaux.ObjectiveArtificials | simplex_method.cpp:294-302 | subtracting the negated rows brings every artificial entry of row `m` from 1 to 0 |
| Tableaux.ObjectiveUntouched | simplex_method.cpp:294-302 | with no negative `b[i]`, row `m` is unchanged |
| Tableaux.SubTableau | simplex_method.cpp:276-302 | the Phase I tableau is `(m+1) x (n+m+cnt+1)` |
| Tableaux.SubTableauBuilt | simplex_method.cpp:276-302 | the two loops of `subProblem` build exactly the Phase I tableau |
| Tableaux.SubStartCounted | simplex_method.cpp:278-282 | `Sub` laid out with the counted `cnt` is the layout for the number of negative `b[i]` |
| Tableaux.SubStartFits | simplex_method.cpp:282-302 | `Sub` after its first fill has room for every artificial column the second loop writes |
| Tableaux.SubStartShape | simplex_method.cpp:282 | `Sub` is `(m+1) x (n+m+cnt+1)` |
| Tableaux.PhaseOneInputShape | simplex_method.cpp:282-310 | the Phase I tableau and `C` have the shape `simplexMethod2` needs |
| Tableaux.SubTableauShape | simplex_method.cpp:276-302 | the Phase I tableau has `m + 1` rows and `n + m + cnt + 1` columns, with exactly `cnt` artificial columns |
| Tableaux.SubTableauRow | simplex_method.cpp:283-302 | a row with `b[i] >= 0` is `A[i]`, `e_i`, zeros, `b[i]`; the `k`-th negative row is negated, with +1 in artificial column `n+m+k` and right-hand side `-b[i]` |
| Tableaux.SubStartArtificials | simplex_method.cpp:282-292 | before the second loop, the artificial columns hold 0 in every constraint row and 1 in row `m` |
| Tableaux.NegatedStartRow | simplex_method.cpp:297-299 | negating row `i` of the first fill gives that negated row |
| Tableaux.SubTableauObjective | simplex_method.cpp:289-301 | every artificial-column entry of the Phase I objective row ends at 0 |
| Tableaux.SubTableauFeasible | simplex_method.cpp:276-302 | the Phase I tableau is feasible: the right-hand side of every constraint row `i` is `|b[i]|` |
| Tableaux.SubTableauRightHandSide | simplex_method.cpp:283-302 | the right-hand side of constraint row `i` of the Phase I tableau is `|b[i]|`: `b[i]` for a kept row, `-b[i]` for a negated one |
| Tableaux.PhaseOneObjective | simplex_method.cpp:304-308 | `C` has the width of `Sub` |
| Tableaux.Reassembled | simplex_method.cpp:318-330 | `Main` is `(m+1) x (n+m+1)` |
| Tableaux.PhaseOne | simplex_method.cpp:310-332 | definition: `simplexMethod2` on `Sub` and `C`, then the end of `subProblem`; characterised by PhaseOneOutcomes, PhaseOneReady, PhaseOneNoPivot and SubProblemFeasible |
| Tableaux.PhaseOneEnd | simplex_method.cpp:312-332 | definition: every outcome other than optimal passes through, a negative `Sub[m][n+m+cnt]` throws "infeasible", otherwise `Main`; characterised by PhaseOneOutcomes |
| Tableaux.PhaseOneReady | simplex_method.cpp:310-332 | a feasible Phase I tableau that returns gives a Phase II tableau `(m+1) x (n+m+1)` with non-negative right-hand sides |
| Tableaux.PhaseOneOutcomes | simplex_method.cpp:310-316 | `subProblem` stops with the engine's outcome iff it is not optimal; it throws "infeasible" iff the optimum leaves `Sub[m][n+m+cnt] < 0`; it returns otherwise |
| Tableaux.PhaseOneNoPivot | simplex_method.cpp:310-332 | with no artificial column and a zero objective row nothing pivots: `Main` is the cleaned constraint rows with `C` as its last row |
| Tableaux.NoNegatives | simplex_method.cpp:278-281 | with no negative `b[i]`, `cnt` is 0 |
| Tableaux.SubTableauWithoutNegatives | simplex_method.cpp:276-302 | with no negative `b[i]`, the Phase I tableau is the standard tableau with a zero objective row |
| Tableaux.PhaseOneWithoutNegatives | simplex_method.cpp:275-333 | with no negative `b[i]`, `cnt = 0`, no pivot occurs, and `subProblem` returns the standard tableau of `createMatrix` up to cleanup of the constraint rows |
| Tableaux.PhaseOneObjectiveIsStandard | simplex_method.cpp:304-308 | without artificial columns, `C` is the objective row of `createMatrix` |
| Tableaux.ReturnsFeasible | simplex_method.cpp:322-332 | definition: a returned Phase II tableau is `(m+1) x (n+m+1)` with non-negative right-hand sides; established by SubProblemFeasible |
| Tableaux.SubProblemFeasible | simplex_method.cpp:275-333 | whenever `subProblem` returns, the Phase II tableau is `(m+1) x (n+m+1)` with non-negative right-hand sides |
| Tableaux.CountNegatives | simplex_method.cpp:278-281 | the first loop counts the negative `b[i]` |
| Tableaux.BuildSubStart | simplex_method.cpp:282-292 | `Sub` is fresh, `(m+1) x (n+m+cnt+1)`, and holds the first fill |
| Tableaux.FillSubRow | simplex_method.cpp:284-291 | the inner fill loop writes row `i` of the first fill and nothing else |
| Tableaux.PlaceArtificials | simplex_method.cpp:294-302 | the second loop transforms `Sub` as `Artificials` says |
| Tableaux.PlaceArtificial | simplex_method.cpp:295-301 | one round of the second loop; `flag` becomes the count of negatives up to row `i` |
| Tableaux.MarkArtificial | simplex_method.cpp:297-300 | the three writes of a negative round, in place |
| Tableaux.BuildPhaseOneObjective | simplex_method.cpp:304-308 | `C` is fresh, of width `w`, `-c[i]` for `i < n` and 0 elsewhere |
| Tableaux.Reassemble | simplex_method.cpp:318-330 | `Main`'s constraint rows are `Sub`'s first `n+m` columns and its last column; its objective row is `C[0..n+m-1]` then `C[n+m+cnt]` |
| Tableaux.FillLastColumn | simplex_method.cpp:320-323 | the first `Main` loop writes column `n+m` from `Sub`'s last column and `C[n+m+cnt]` |
| Tableaux.CopyRowPrefix | simplex_method.cpp:326-329 | the inner second `Main` loop copies columns `0..n+m-1` of row `i` from `Sub` or `C` |
| Tableaux.BuildSubTableau | simplex_method.cpp:276-302 | the first two loops return `cnt` and the Phase I tableau |
| Tableaux.EndPhaseOne | simplex_method.cpp:312-332 | the end of `subProblem` throws for a negative Phase I value and otherwise builds `Main` |
| Tableaux.SubProblem | simplex_method.cpp:275-333 | `subProblem` returns or throws exactly as `PhaseOne` on the Phase I tableau and `C` says |
| Tableaux.SolvePhaseOne | simplex_method.cpp:304-332 | building `C`, `simplexMethod2(Sub, C)` and the end of `subProblem` give `PhaseOne`'s result |
| Extraction.Solution | simplex_method.cpp:356-363 | `X` has length `n` |
| Extraction.ValueAfter | simplex_method.cpp:357-363 | definition: `X[j]` after the outer loop has visited rows `0..k-1`; characterised by ValueAfterLastOne and ValueAfterNoOne |
| Extraction.ObjectiveValue | simplex_method.cpp:365 | definition: `f` is `All[m][n+m]`; returned by ShowResult, and read after `createMatrix` by StandardReadsZero |
| Extraction.ValueAfterLastOne | simplex_method.cpp:357-363 | after rows `0..k-1`, `X[j]` is the right-hand side of the last of them with `1.0` in column `j` |
| Extraction.ValueAfterNoOne | simplex_method.cpp:356-363 | without such a row, `X[j]` keeps its initial 0 |
| Extraction.SolutionPicksLastOne | simplex_method.cpp:356-363 | `X[j]` is the right-hand side of the last constraint row with `1.0` in column `j` |
| Extraction.SolutionWithoutOne | simplex_method.cpp:356-363 | a column without `1.0` in any constraint row leaves `X[j]` at 0 |
| Extraction.UnitColumnReadsRow | simplex_method.cpp:356-363 | a basic column (the unit vector of row `i`) reads the right-hand side of row `i` |
| Extraction.PivotedColumnReads | simplex_method.cpp:198-206 | after a pivot on `(ROW, COL)`, `X[COL]` is the new right-hand side of `ROW` |
| Extraction.StandardReadsZero | simplex_method.cpp:336-366 | read straight after `createMatrix`: `f` is 0, and `X[j]` is 0 for every column of `A` without an entry `1.0` |
| Extraction.StandardReadsOneEntry | simplex_method.cpp:336-366 | an entry `1.0` of `A` is read as basic without any pivot: `max x, x <= 2` reads `X = [2]` |
| Extraction.ShowResult | simplex_method.cpp:353-366 | `X` is a fresh vector equal to `Solution` and `f` is `All[m][n+m]` |
| Extraction.ReadRow | simplex_method.cpp:358-362 | the inner loop for row `i` advances every `X[j]` by one row |

## Left out

- The random problem generators `rand`, `randn` and `create_*_problem` (simplex_method.cpp:40-132) only produce inputs from a random device. `main` (simplex_method.cpp:368-517) is timing and console output. Neither is modelled.
- Stream `operator<<`/`operator>>` (matrix.cpp:36-53, 240-255), the diagnostics printed before a throw, and the printing in `showResult` are console I/O, and are not modelled. `Extraction.ShowResult` returns `X` and `f` instead of printing them.
- `Vector::norm` and `Vector::normalize` (matrix.cpp:122-137) rest on `sqrt`, which has no exact counterpart on `real`.
- `Matrix::operator*=` (matrix.cpp:389-408) is not modelled. Its inner loop tests `j < Col` where `k < Col` is meant, so it never ends and reads out of bounds. Nothing in the solver calls it.
- Memory management is not modelled: `new_vector`, `del_vector`, the allocation in `new_matrix`, the destructors and the allocation-failure aborts. The buffers are Dafny arrays. `Matrices.NewBuffer` keeps the `0 x 0` rule of `new_matrix`.
- Floating-point rounding is not modelled; numbers are exact reals. The unqualified `abs(c)` at matrix.cpp:157 is read as the absolute value.
- Aborts are `ok` results with nothing changed, and throws are outcomes; the diagnostics before them are left out. The pivot division `All[ROW] /= All[ROW][COL]` can abort when a positive pivot below `NEARLY_ZERO` survives `cleanup`. That case is the `DivisionAborted` outcome.
- PivotEngine.SimplexMethod: the source recursion has no anti-cycling rule and no termination argument. The model bounds the number of pivots by `fuel` and reports `OutOfFuel` when that is used up, so a run the source would continue past `fuel` pivots is not described.
- PivotEngine.SimplexMethod2: requires `Obj` to be as wide as the tableau. The source indexes `Obj[COL]` without a check, and its only caller passes a vector of exactly that width.
- Tableaux.SubProblem: takes ghost copies `at`, `bs`, `cs` of the values of `A`, `b` and `c`. They add no requirement beyond naming those values.
- Tableaux.CreateMatrix: when `n > 0`, requires `A` to have at least `m` rows of at least `n` entries, the block the loop reads `A[i][j]` from; the source reads it unchecked with `NDEBUG` set. When `n = 0` no entry of `A` is read, and any `A` is accepted, the `0 x 0` matrix that `Matrix(m, 0)` becomes included.
- Tableaux.SubProblem: the same requirement on `A` as Tableaux.CreateMatrix, and the same acceptance of any `A` when `n = 0`.
- Extraction.ShowResult: requires a tableau with at least one row and at least as many columns as rows. With no rows, `All[m]` indexes out of range. With fewer columns than rows, `n` is negative and `Vector X(n)` throws from `new double[n]`.
- The matrix `operator[]` returns a reference to a row `Vector`. Here a matrix is one two-dimensional buffer, and row operations are row-indexed methods: `DivRow`, `NegateRow`, `SubRow` and `RowCopy`. Aliasing between rows is therefore not modelled.
- Vectors.Vector.constructor: sizes and dimensions are `nat`, as are those of Vectors.Vector.SetSize, Matrices.Matrix.constructor and Matrices.Matrix.SetSize. The source takes `int`, and a negative size makes `new double[...]` or `new Vector[...]` throw; that case is excluded by typing and not modelled.
- `chmin`/`chmax` update a reference. The model returns the pair (updated?, new value).
