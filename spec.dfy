// What the tableau engine computes, stated on matrix values.
// Row 0 is the objective row (column 0 the objective value, the rest the
// reduced costs); rows 1.. are constraint rows (column 0 the B vector).
module TableauSpec {
  import opened Matrices

  // ---------------------------------------------------------------- pivot

  /** Entry (r, c) after pivoting on (row, col): every other row gets the
      pivot row added with scalar -(m[r][col] / m[row][col]); the pivot row
      is multiplied by 1 / m[row][col]. Both use only the old matrix. */
  function PivotEntry(m: Matrix, row: nat, col: nat, r: nat, c: nat): real
    requires Rect(m) && row < |m| && col < Cols(m) && m[row][col] != 0.0
    requires r < |m| && c < Cols(m)
  {
    if r == row then m[row][c] * (1.0 / m[row][col])
    else m[r][c] + (-1.0 * (m[r][col] / m[row][col])) * m[row][c]
  }

  /** The whole matrix after one Gauss-Jordan pivot on (row, col). */
  function Pivoted(m: Matrix, row: nat, col: nat): (p: Matrix)
    requires Rect(m) && row < |m| && col < Cols(m) && m[row][col] != 0.0
    ensures Rect(p) && |p| == |m| && Cols(p) == Cols(m)
    ensures forall r, c :: 0 <= r < |m| && 0 <= c < Cols(m) ==> p[r][c] == PivotEntry(m, row, col, r, c)
  {
    seq(|m|, r requires 0 <= r < |m| =>
      seq(Cols(m), c requires 0 <= c < Cols(m) => PivotEntry(m, row, col, r, c)))
  }

  // ------------------------------------------------------------ optimality

  /** No reduced cost is negative; column 0 is never inspected. */
  predicate Optimal(m: Matrix): (b: bool)
    requires Rect(m)
    ensures Cols(m) >= 1 ==> (b <==> forall x :: x in m[0][1..] ==> x >= 0.0)
  {
    CostsAsSlice(m);
    forall i :: 1 <= i < Cols(m) ==> m[0][i] >= 0.0
  }

  /** Every element of s is non-negative exactly when every index of s holds
      a non-negative entry. */
  lemma EntriesNonNegative(s: seq<real>)
    ensures (forall x :: x in s ==> x >= 0.0) <==> (forall i :: 0 <= i < |s| ==> s[i] >= 0.0)
  {
    if forall i :: 0 <= i < |s| ==> s[i] >= 0.0 {
      forall x | x in s
        ensures x >= 0.0
      {
        var i :| 0 <= i < |s| && s[i] == x;
      }
    }
    if forall x :: x in s ==> x >= 0.0 {
      forall i | 0 <= i < |s|
        ensures s[i] >= 0.0
      {
        assert s[i] in s;
      }
    }
  }

  /** Row 0 after column 0, as a sequence, is entry-wise non-negative exactly
      when columns 1 .. numCols-1 of row 0 are. */
  lemma CostsAsSlice(m: Matrix)
    requires Rect(m)
    ensures Cols(m) >= 1 ==>
      ((forall x :: x in m[0][1..] ==> x >= 0.0) <==> forall i :: 1 <= i < Cols(m) ==> m[0][i] >= 0.0)
  {
    if Cols(m) >= 1 {
      var costs := m[0][1..];
      EntriesNonNegative(costs);
      assert forall i :: 1 <= i < Cols(m) ==> m[0][i] == costs[i - 1];
    }
  }

  // ------------------------------------------------------ identity columns

  /** Entry r of the standard basis vector with its 1 at row k. */
  function Unit(k: nat, r: nat): real
  {
    if r == k then 1.0 else 0.0
  }

  /** Column c, restricted to the constraint rows, is the unit vector with
      its 1 at row k (row 0 is not looked at). */
  predicate UnitBelowObjective(m: Matrix, c: nat, k: nat)
    requires Rect(m) && c < Cols(m)
  {
    forall r :: 1 <= r < |m| ==> m[r][c] == Unit(k, r)
  }

  /** Searches rows k.. for the row at which column c is a unit vector below
      the objective row, giving that row minus one, or -1 if there is none. */
  function FindUnitFrom(m: Matrix, c: nat, k: nat): (j: int)
    requires Rect(m) && c < Cols(m) && 1 <= k
    ensures -1 <= j <= |m| - 2
    ensures j >= 0 ==> k <= j + 1 && UnitBelowObjective(m, c, j + 1)
    ensures j == -1 ==> forall i :: k <= i < |m| ==> !UnitBelowObjective(m, c, i)
    decreases |m| - k
  {
    if k >= |m| then -1
    else if UnitBelowObjective(m, c, k) then k - 1
    else FindUnitFrom(m, c, k + 1)
  }

  /** The index (into the B vector) of the constraint row at which column c
      is a unit vector, or -1 when the column is not an identity column. */
  function IColumn(m: Matrix, c: nat): (j: int)
    requires Rect(m) && c < Cols(m)
    ensures -1 <= j <= |m| - 2
    ensures j >= 0 ==> UnitBelowObjective(m, c, j + 1)
    ensures j == -1 <==> forall i :: 1 <= i < |m| ==> !UnitBelowObjective(m, c, i)
  {
    FindUnitFrom(m, c, 1)
  }

  // -------------------------------------------------------- canonical form

  /** Every B-vector entry is non-negative. */
  predicate BNonNegative(m: Matrix): (b: bool)
    requires Rect(m) && (|m| == 1 || Cols(m) >= 1)
    ensures b <==> forall x :: x in BVector(m) ==> x >= 0.0
  {
    EntriesNonNegative(BVector(m));
    assert forall r :: 1 <= r < |m| ==> m[r][0] == BVector(m)[r - 1];
    forall r :: 1 <= r < |m| ==> m[r][0] >= 0.0
  }

  /** Column c equals the unit vector with its 1 at row k on EVERY row,
      the objective row included (so m[0][c] must be 0 when k >= 1). */
  predicate MatchesUnit(m: Matrix, c: nat, k: nat)
    requires Rect(m) && c < Cols(m)
  {
    forall r :: 0 <= r < |m| ==> m[r][c] == Unit(k, r)
  }

  /** The columns among 1 .. n-1 that match the unit vector at row k. */
  ghost function MatchingColumns(m: Matrix, k: nat, n: nat): set<int>
    requires Rect(m) && n <= Cols(m)
  {
    set c | 1 <= c < n && MatchesUnit(m, c, k)
  }

  /** The columns among 1 .. numCols-1 that match the unit vector of one of
      the target rows 1 .. i. */
  ghost function IdentityColumns(m: Matrix, i: nat): set<int>
    requires Rect(m)
  {
    set c | 1 <= c < Cols(m) && MatchesSomeTarget(m, c, i)
  }

  /** Column c matches the unit vector of one of the target rows 1 .. i. */
  ghost predicate MatchesSomeTarget(m: Matrix, c: nat, i: nat)
    requires Rect(m) && c < Cols(m)
  {
    exists k :: 1 <= k <= i && MatchesUnit(m, c, k)
  }

  /** How many of the columns 1 .. n-1 match the unit vector at row k. */
  function CountMatches(m: Matrix, k: nat, n: nat): (count: nat)
    requires Rect(m) && n <= Cols(m)
    ensures n >= 1 ==> count <= n - 1
  {
    if n <= 1 then 0
    else CountMatches(m, k, n - 1) + (if MatchesUnit(m, n - 1, k) then 1 else 0)
  }

  /** The sum, over the target rows 1 .. i, of the matching-column counts. */
  function TotalMatches(m: Matrix, i: nat): nat
    requires Rect(m)
  {
    if i == 0 then 0
    else TotalMatches(m, i - 1) + CountMatches(m, i, Cols(m))
  }

  /** Every constraint row has exactly one column that fully matches its
      unit vector: the one-to-one covering a canonical tableau has. */
  predicate OneMatchPerRow(m: Matrix)
    requires Rect(m)
  {
    forall k :: 1 <= k < |m| ==> CountMatches(m, k, Cols(m)) == 1
  }

  /** The canonical-form test as the engine performs it: a non-negative B
      vector, and as many full-column matches, summed over the targets
      1 .. numRows-1, as there are constraint rows. */
  predicate InCanonicalForm(m: Matrix): (b: bool)
    requires Rect(m) && (|m| == 1 || Cols(m) >= 1)
    ensures |m| == 1 ==> b
  {
    BNonNegative(m) && TotalMatches(m, |m| - 1) == |m| - 1
  }

  // ---------------------------------------------------- solution extraction

  /** The right-hand side of the constraint rows. */
  function BVector(m: Matrix): (b: seq<real>)
    requires Rect(m) && (|m| == 1 || Cols(m) >= 1)
    ensures |b| == |m| - 1
    ensures forall i :: 0 <= i < |b| ==> b[i] == m[i + 1][0]
  {
    seq(|m| - 1, i requires 0 <= i < |m| - 1 => m[i + 1][0])
  }

  /** Value of decision variable c (column c): 0 for a nonzero reduced cost,
      the matching B entry for an identity column, 0 otherwise. */
  function BFSEntry(m: Matrix, c: nat): real
    requires Rect(m) && Cols(m) >= 1 && 1 <= c < Cols(m)
  {
    if m[0][c] != 0.0 then 0.0
    else
      var j := IColumn(m, c);
      if j >= 0 then m[j + 1][0] else 0.0
  }

  /** The basic feasible solution read off the tableau, one entry per
      decision variable (columns 1 .. numCols-1). */
  function BFS(m: Matrix): (x: seq<real>)
    requires Rect(m) && Cols(m) >= 1
    ensures |x| == Cols(m) - 1
    ensures forall i :: 0 <= i < |x| ==> x[i] == BFSEntry(m, i + 1)
  {
    seq(Cols(m) - 1, i requires 0 <= i < Cols(m) - 1 => BFSEntry(m, i + 1))
  }

  /** Sum over the columns c in 1 .. n-1 of m[k][c] * x[c-1]: constraint row
      (or, for k = 0, objective row) k applied to a candidate solution x. */
  function RowDot(m: Matrix, k: nat, x: seq<real>, n: nat): real
    requires Rect(m) && k < |m| && |x| + 1 == Cols(m) && n <= Cols(m)
  {
    if n <= 1 then 0.0
    else RowDot(m, k, x, n - 1) + m[k][n - 1] * x[n - 2]
  }
}
