# Simplex tableau engine in Dafny

This project models the tableau engine of a small simplex linear-program
solver written in Java. A tableau is one dense matrix. Row 0 is the
objective row: column 0 holds the objective value and the other columns
hold the reduced costs. Rows 1 and up are constraint rows: column 0 holds
the right-hand side (the "B vector") and the other columns hold the
constraint coefficients.

The engine is written twice in the source.
- `Tableau.java` is the complete version.
- `Simplex.java` is an earlier draft. Its pivot, optimality test,
  canonical-form test and objective-value getter are identical to
  `Tableau`'s. Its constructor ignores its argument and installs
  `{{4, 1}, {2, 3}}`, and its `getBFS` copies the objective row.

Layout:
- `matrix.dfy` (module `Matrices`): matrix values and `Snapshot`, which
  reads a two-dimensional array as a matrix value.
- `spec.dfy` (module `TableauSpec`): what the engine computes, as
  functions on matrix values. This covers the pivot, the optimality test,
  identity columns, the canonical-form count as written, the B vector and
  the basic feasible solution (BFS).
- `lemmas.dfy` (module `TableauLemmas`): what those functions satisfy.
- `engine.dfy` (module `Engine`): the source's loops, run on an
  `array2<real>` in place. Each is proved against the functions above.
  Both classes call these methods instead of holding two copies. The
  loops of `pivot` and `isInCanonicalForm`, and the body of `getBFS`'s
  loop, are separate methods, each with its own contract.
- `tableau.dfy` and `simplex.dfy`: the two classes. Each has the fields
  `tableau`, `numRows` and `numCols`. `Valid()` ties the two counts to the
  array's dimensions.

Matrix entries are `real`, and the source's exact `== 0` and `== 1` tests
are kept. `setTableau` stores the caller's array itself, and `getTableau`
returns that same array. The model does the same with Dafny array
references.

Where a textbook reading of the algorithm and the code disagree, the model
follows the code:
- `isInCanonicalForm` compares every row of a column with the unit vector,
  row 0 included. A column with a nonzero reduced cost therefore never
  counts (`NonzeroCostNeverMatches`, `ObjectiveRowBlocksCanonicalTest`).
- It adds up every matching column for every target row and compares the
  total with `numRows - 1`. Duplicate identity columns can therefore make
  up for a row that has none (`DuplicateColumnsPassCanonicalTest`). The total
  is the number of distinct columns that equal the unit vector of some
  constraint row (`CanonicalIffIdentityColumns`). When no row has two
  matches, the count is exactly a one-to-one covering
  (`CanonicalWithoutDuplicatesCoversEveryRow`).
- `optimize` has an empty loop body, and no pivot-selection rule exists.
- No shape check exists: the column count is taken from row 0.

## Model

| member | source | states |
|---|---|---|
| `TableauSpec.Pivoted` | Tableau.java:191-216 | a pivot keeps the number of rows and columns; every other row gets the pivot row added with scalar -(m[r][col] / m[row][col]); the pivot row is multiplied by 1 / m[row][col]; everything uses the old matrix |
| `TableauSpec.IColumn` | Tableau.java:115-141 | result lies in [-1, numRows-2]; a result j >= 0 means the constraint rows of the column are 0 except a single 1 at row j+1; -1 exactly when no constraint row makes the column such a unit column; row 0 is ignored |
| `TableauSpec.BVector` | Tableau.java:79-87 | length numRows-1, entry i is t[i+1][0] |
| `TableauSpec.Optimal` | Tableau.java:218-227 | when there is a column 0, the tableau is optimal exactly when every element of row 0 after column 0 (every reduced cost) is non-negative |
| `TableauSpec.BNonNegative` | Tableau.java:145-150 | true exactly when every element of the B vector is non-negative |
| `TableauSpec.CountMatches` | Tableau.java:166-178 | the count over columns 1..n-1 is at most the number of columns scanned, n-1 |
| `TableauSpec.InCanonicalForm` | Tableau.java:143-183 | a tableau with only the objective row passes the test, since no identity column has to be found |
| `TableauSpec.BFS` | Tableau.java:90-112 | length numCols-1; entry c-1 is 0 for a nonzero reduced cost, else t[j+1][0] for the identity column's row j+1, else 0 |
| `TableauLemmas.PivotUnitColumn` | Tableau.java:191-216 | after a pivot on a nonzero entry, column col is the unit vector at row on every row, row 0 included, so it fully matches that unit vector |
| `TableauLemmas.PivotKeepsUnitColumn` | Tableau.java:194-214 | a column that is a full unit vector at a row other than the pivot row is left unchanged by the pivot |
| `TableauLemmas.PivotKeepsMatchCount` | Tableau.java:194-214 | for any target row other than the pivot row, a pivot never lowers the number of fully matching columns |
| `TableauLemmas.CountMatchesMonotone` | Tableau.java:166-177 | scanning more columns never finds fewer matches |
| `TableauLemmas.PivotPreservesCoverage` | Tableau.java:191-216 | if every constraint row has at least one full identity column, it still does after a pivot on a constraint row and a decision column |
| `TableauLemmas.PivotOnUnitColumnIsIdentity` | Tableau.java:191-216 | pivoting on a column that already is the unit vector at the pivot row changes nothing |
| `TableauLemmas.PivotIdempotent` | Tableau.java:191-216 | pivoting twice on the same entry equals pivoting once |
| `TableauLemmas.PivotObjectiveNonDecreasing` | Tableau.java:197-203 | a pivot on a positive entry, in a column with a negative reduced cost and a row with a non-negative B entry, never lowers t[0][0], and raises it when the B entry is positive |
| `TableauLemmas.MatchesUnitIffIColumn` | Tableau.java:115-177 | a column fully matches the unit vector at constraint row k exactly when its reduced cost is 0 and isIColumn returns k-1 |
| `TableauLemmas.NonzeroCostNeverMatches` | Tableau.java:160-177 | a column with a nonzero row-0 entry never counts as an identity column |
| `TableauLemmas.TotalOfOnes` | Tableau.java:160-180 | when each target row has one matching column, the running count after i targets is i |
| `TableauLemmas.OneMatchPerRowIsCanonical` | Tableau.java:143-183 | a non-negative B vector with exactly one full identity column per constraint row passes the canonical-form test |
| `TableauLemmas.TotalOfAtMostOnes` | Tableau.java:160-180 | when no target row has two matches, the running count after i targets is at most i, and equals i only if every one of them has exactly one |
| `TableauLemmas.CanonicalWithoutDuplicatesCoversEveryRow` | Tableau.java:143-183 | when no constraint row has two matching columns, the test passes exactly when the B vector is non-negative and every constraint row has exactly one matching column |
| `TableauLemmas.IdentityColumnsStep` | Tableau.java:160-180 | adding target row i adds exactly the columns matching its unit vector, and none of them matched an earlier constraint row |
| `TableauLemmas.CountMatchesCountsColumns` | Tableau.java:166-178 | the count for one target equals the number of distinct columns 1..n-1 equal to its unit vector on every row |
| `TableauLemmas.TotalMatchesCountsIdentityColumns` | Tableau.java:160-180 | the running count after targets 1..i equals the number of distinct columns that match one of those targets, since no column matches two constraint rows |
| `TableauLemmas.TotalAtMostDecisionColumns` | Tableau.java:160-180 | the running count never exceeds the number of decision columns, numCols-1 |
| `TableauLemmas.CanonicalIffIdentityColumns` | Tableau.java:143-183 | the test passes exactly when the B vector is non-negative and exactly numRows-1 distinct columns each equal the unit vector of some constraint row |
| `TableauLemmas.CanonicalNeedsEnoughColumns` | Tableau.java:143-183 | a tableau with constraint rows that passes the test has at least as many columns as rows |
| `TableauLemmas.DuplicateColumnsPassCanonicalTest` | Tableau.java:166-182 | a tableau where two columns match row 1 and none matches row 2 still passes the test |
| `TableauLemmas.ObjectiveRowBlocksCanonicalTest` | Tableau.java:162-171 | a column that is an identity column on the constraint rows but has reduced cost -2 is not counted, so the test fails |
| `TableauLemmas.BFSNonNegative` | Tableau.java:90-112 | with a non-negative B vector every BFS entry is non-negative |
| `TableauLemmas.BFSTerm` | Tableau.java:95-108 | constraint row k times a BFS entry gives the B entry of row k for a column fully matching the unit vector at k, and 0 for any other column |
| `TableauLemmas.BFSRowDot` | Tableau.java:90-112 | constraint row k times the BFS equals t[k][0] added once for each column fully matching the unit vector at k |
| `TableauLemmas.BFSObjectiveRowDot` | Tableau.java:97-99 | the reduced costs times the BFS sum to 0 |
| `TableauLemmas.BFSSatisfiesConstraints` | Tableau.java:90-112 | with exactly one full identity column per constraint row, the BFS satisfies every constraint row |
| `TableauLemmas.CanonicalTableauSolution` | Tableau.java:143-183 | a concrete canonical, optimal tableau reads off as x = (4, 6, 0), and that x satisfies both constraint rows |
| `Engine.Pivot` | Tableau.java:191-216 | the elimination loop followed by the scaling of the pivot row, both in place, leave exactly the pivoted matrix of the old contents |
| `Engine.EliminateColumn` | Tableau.java:194-206 | every row other than the pivot row becomes its pivot update, each scalar read from the row before the row changes; the pivot row is left untouched for last |
| `Engine.AddScaledRow` | Tableau.java:199-203 | for a row r other than the pivot row, every entry becomes a[r][c] + scalar * a[row][c]; every other row is unchanged |
| `Engine.ScaleRow` | Tableau.java:210-214 | every entry of the pivot row is multiplied by the scalar; every other row is unchanged |
| `Engine.IsOptimal` | Tableau.java:218-227 | true exactly when t[0][i] >= 0 for every i in 1..numCols-1; column 0 is not inspected |
| `Engine.IsIColumn` | Tableau.java:115-141 | the scan with its oneFound flag and early returns gives IColumn: the unit row minus one, or -1 for an entry other than 0 or 1, for a second 1, or for an all-zero column; with no constraint rows the loop never runs and any column index, even one out of range, gives -1 |
| `Engine.NoUnitWithTwoOnes` | Tableau.java:128-131 | a second 1 in the constraint rows rules out every unit position |
| `Engine.NoUnitWithOtherValue` | Tableau.java:133-136 | an entry that is neither 0 nor 1 rules out every unit position |
| `Engine.IColumnUnique` | Tableau.java:115-141 | a column is a unit column below row 0 at one row at most, so the scan's answer is unique |
| `Engine.GetBVector` | Tableau.java:79-87 | a fresh array of length numRows-1 with entry i equal to t[i+1][0] |
| `Engine.GetBFS` | Tableau.java:90-112 | a fresh array holding BFS of the tableau |
| `Engine.FillBFSEntry` | Tableau.java:97-107 | one pass of getBFS's loop sets entry c-1 to the BFS value of column c, writing 0 for a nonzero reduced cost, the B entry for an identity column, and leaving the array's 0 otherwise; no other entry changes |
| `Engine.IsInCanonicalForm` | Tableau.java:143-183 | false if any B entry is negative; otherwise the result of comparing the full-column match count, summed over targets 1..numRows-1 with row 0 included, against numRows-1 |
| `Engine.CheckBVector` | Tableau.java:145-150 | the loop with its early return gives false exactly when some B entry is negative |
| `Engine.CountIdentityColumns` | Tableau.java:154-180 | the outer loop over targets 1..numRows-1 leaves the summed match count TotalMatches |
| `Engine.TargetColumn` | Tableau.java:161-163 | a fresh array of length numRows holding the unit vector with its 1 at the target row |
| `Engine.CountMatchingColumns` | Tableau.java:166-178 | adds to the running count the number of columns 1..numCols-1 that equal the target column on every row |
| `Engine.MatchesTarget` | Tableau.java:167-177 | the scan down one column, stopping at the first mismatch, reports a match exactly when the column equals the unit vector at the target row on every row, row 0 included |
| `TableauModel.Tableau.constructor` | Tableau.java:61-63 | stores the given array itself and takes the counts from its dimensions |
| `TableauModel.Tableau.SetTableau` | Tableau.java:66-71 | stores the caller's array itself; numRows and numCols become its dimensions |
| `TableauModel.Tableau.GetTableau` | Tableau.java:74-76 | returns the stored array itself, so its contents are the tableau |
| `TableauModel.Tableau.GetBVector` | Tableau.java:79-87 | fresh array of length numRows-1 with ret[i] = tableau[i+1][0] |
| `TableauModel.Tableau.GetBFS` | Tableau.java:90-112 | fresh array equal to BFS of the current tableau |
| `TableauModel.Tableau.IsIColumn` | Tableau.java:115-141 | result in [-1, numRows-2]; a result j >= 0 means the constraint rows of the column are 0 except a 1 at row j+1; -1 exactly when no constraint row makes the column a unit column; with no constraint rows, -1 for any column index |
| `TableauModel.Tableau.IsInCanonicalForm` | Tableau.java:143-183 | false whenever some B entry is negative; otherwise the match-count test as written |
| `TableauModel.Tableau.GetOFValue` | Tableau.java:187-189 | the objective value t[0][0] |
| `TableauModel.Tableau.Pivot` | Tableau.java:191-216 | the new tableau is the pivot of the old one; column `column` becomes the unit vector at `row`; the dimensions and counts stay the same |
| `TableauModel.Tableau.IsOptimal` | Tableau.java:218-227 | true exactly when no reduced cost t[0][1..] is negative |
| `SimplexModel.Simplex.constructor` | Simplex.java:16-19 | ignores the file name; the tableau is a fresh {{4, 1}, {2, 3}}, with numRows = numCols = 2 |
| `SimplexModel.Simplex.SetTableau` | Simplex.java:22-27 | stores the caller's array itself; numRows and numCols become its dimensions |
| `SimplexModel.Simplex.GetTableau` | Simplex.java:30-32 | returns the stored array itself |
| `SimplexModel.Simplex.GetBFS` | Simplex.java:35-43 | a fresh copy of the objective row without column 0: ret[i-1] = t[0][i] |
| `SimplexModel.Simplex.IsInCanonicalForm` | Simplex.java:45-85 | the same test as Tableau's: false on a negative B entry, otherwise the full-column match count must equal numRows-1 |
| `SimplexModel.Simplex.GetOFValue` | Simplex.java:89-91 | the objective value t[0][0] |
| `SimplexModel.Simplex.Pivot` | Simplex.java:93-118 | the same update rule with the pivot row scaled last; column `column` becomes the unit vector at `row` |
| `SimplexModel.Simplex.IsOptimal` | Simplex.java:120-129 | true exactly when every t[0][i], i in 1..numCols-1, is >= 0 |
| `SimplexModel.CostsNonNegativeIffOptimal` | Simplex.java:120-129 | the draft's getBFS copy is all non-negative exactly when isOptimal holds |
| `SimplexModel.DraftPivotResult` | Simplex.java:93-118 | pivoting {{4, 1}, {2, 3}} on (1, 0) gives {{0, -5}, {1, 1.5}} |
| `SimplexModel.ConstructAndPivot` | Simplex.java:153-159 | constructing the draft and pivoting on (1, 0), as its entry point does, leaves {{0, -5}, {1, 1.5}} |

## Left out

- The file-reading constructor `Tableau(String)` (Tableau.java:19-59) is not modelled. It does file and `Scanner` I/O, `Double.parseDouble` and `System.exit(1)`. The array constructor stands for it.
- `optimize` (Tableau.java:230-239, Simplex.java:132-141) is not modelled. Its loop body is empty, so it returns at once when `isOptimal()` holds and never ends otherwise. No pivot-selection or minimum-ratio rule exists in the code to model.
- `printTableau` and both `main` methods are console output and are not modelled. The draft's `main` is kept only as the pivot example `ConstructAndPivot`.
- IEEE-754 `double` arithmetic is not modelled. Entries are `real`, so the pivot's unit column is exact here, while with doubles it holds only up to rounding.
- Division by a zero pivot entry is not modelled. In Java it gives Infinity or NaN; here a nonzero pivot entry is a precondition of `Pivot`.
- Ragged `double[][]` arrays and shared row arrays are not modelled; the tableau is one rectangular `array2<real>`. What Java does with them:
  - A row shorter than row 0 matters only to the operations that index it past its end. `isIColumn`, and through it `getBFS`, throw when they reach that row in the column they scan, unless an earlier row already made them return -1. `isInCanonicalForm` throws when its column scan reaches the short row before a mismatch.
  - `isOptimal`, `getOFValue` and the B-vector reads of `getBVector` and `isInCanonicalForm` touch only row 0 or column 0, so a short row does not affect them unless it has no entries at all.
  - `pivot` on a short row that is not the pivot row throws after updating every earlier row other than the pivot row. If `column` lies past the short row's end, that row is unchanged; otherwise its first entries have already been updated.
  - `pivot` whose pivot row is the short one throws while updating the first other row, row 0. If `column` lies past the pivot row's end, the read of the pivot entry throws and nothing changes. Otherwise only the entries of row 0 below the pivot row's length have changed.
  - The extra entries of a row longer than row 0 are ignored by every operation, and `pivot` leaves them unchanged.
  - A row that shares its array with the pivot row gets scalar -1, so `pivot` sets every entry of the shared array to 0, the pivot entry included. Every later scalar then divides by 0, so every row updated after it, and in the end the shared array scaled by 1/0, hold NaN. Two shared rows that are both not the pivot row are updated twice; in exact arithmetic the second update adds nothing, because its scalar is -(0 / pivot).
- A tableau with no rows is excluded, because `setTableau` reads `newTableau[0]`.
- Zero-column tableaus are partly excluded. `getBFS` and `getOFValue` require at least one column (Java would throw). `getBVector` and `isInCanonicalForm` require it only when there are constraint rows.
- `pivot` requires in-range indices, on which Java would otherwise throw. `isIColumn` requires an in-range column only when there are constraint rows: with `numRows == 1` its loop never runs and it returns -1 for any column index, negative ones included, and the model does the same.
- TableauSpec.InCanonicalForm: its own contract states only that a tableau without constraint rows passes. Its full meaning, a non-negative B vector and exactly numRows-1 distinct identity columns, is the lemma `CanonicalIffIdentityColumns`, kept apart because the set of columns it counts would make every proof that mentions the test far more costly.
- TableauSpec.CountMatches: its own contract states only the bound by the number of columns scanned. The exact count of distinct matching columns is the lemma `CountMatchesCountsColumns`, kept apart for the same reason; `TotalMatches` likewise has its meaning in `TotalMatchesCountsIdentityColumns`.
