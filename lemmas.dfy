// Properties of the tableau engine, proved on matrix values.
module TableauLemmas {
  import opened Matrices
  import opened TableauSpec

  // ---------------------------------------------------------------- pivot

  /** After a pivot on (row, col) column col is the unit vector with its 1
      at row, on every row including the objective row; for a constraint
      row this column therefore counts as a full identity-column match. */
  lemma {:induction false} PivotUnitColumn(m: Matrix, row: nat, col: nat)
    requires Rect(m) && row < |m| && col < Cols(m) && m[row][col] != 0.0
    ensures forall r :: 0 <= r < |m| ==> Pivoted(m, row, col)[r][col] == Unit(row, r)
    ensures MatchesUnit(Pivoted(m, row, col), col, row)
  {
    var p := Pivoted(m, row, col);
    var piv := m[row][col];
    forall r | 0 <= r < |m|
      ensures p[r][col] == Unit(row, r)
    {
      if r == row {
        assert p[r][col] == piv * (1.0 / piv);
      } else {
        var q := m[r][col] / piv;
        assert q * piv == m[r][col];
        assert p[r][col] == m[r][col] + (-1.0 * q) * piv;
      }
    }
  }

  /** A column that is a full unit vector at some row k other than the pivot
      row has a 0 in the pivot row, so the pivot leaves it as it is. */
  lemma {:induction false} PivotKeepsUnitColumn(m: Matrix, row: nat, col: nat, c: nat, k: nat)
    requires Rect(m) && row < |m| && col < Cols(m) && m[row][col] != 0.0
    requires c < Cols(m) && k != row && MatchesUnit(m, c, k)
    ensures MatchesUnit(Pivoted(m, row, col), c, k)
  {
    var p := Pivoted(m, row, col);
    assert m[row][c] == 0.0;
    forall r | 0 <= r < |m|
      ensures p[r][c] == m[r][c]
    {
    }
  }

  /** So, for every target row other than the pivot row, the pivot loses
      none of the matching columns among 1 .. n-1. */
  lemma {:induction false} PivotKeepsMatchCount(m: Matrix, row: nat, col: nat, k: nat, n: nat)
    requires Rect(m) && row < |m| && col < Cols(m) && m[row][col] != 0.0
    requires k != row && n <= Cols(m)
    ensures CountMatches(Pivoted(m, row, col), k, n) >= CountMatches(m, k, n)
  {
    if n > 1 {
      PivotKeepsMatchCount(m, row, col, k, n - 1);
      if MatchesUnit(m, n - 1, k) {
        PivotKeepsUnitColumn(m, row, col, n - 1, k);
      }
    }
  }

  /** Counting over more columns never counts fewer. */
  lemma {:induction false} CountMatchesMonotone(m: Matrix, k: nat, n: nat, n': nat)
    requires Rect(m) && n <= n' <= Cols(m)
    ensures CountMatches(m, k, n) <= CountMatches(m, k, n')
    decreases n' - n
  {
    if n < n' {
      CountMatchesMonotone(m, k, n, n' - 1);
    }
  }

  /** If every constraint row has at least one full identity column, a pivot
      on a constraint row and a decision-variable column keeps that so. */
  lemma {:induction false} PivotPreservesCoverage(m: Matrix, row: nat, col: nat)
    requires Rect(m) && 1 <= row < |m| && 1 <= col < Cols(m) && m[row][col] != 0.0
    requires forall k :: 1 <= k < |m| ==> CountMatches(m, k, Cols(m)) >= 1
    ensures forall k :: 1 <= k < |m| ==> CountMatches(Pivoted(m, row, col), k, Cols(m)) >= 1
  {
    var p := Pivoted(m, row, col);
    forall k | 1 <= k < |m|
      ensures CountMatches(p, k, Cols(m)) >= 1
    {
      if k == row {
        PivotUnitColumn(m, row, col);
        assert CountMatches(p, k, col + 1) >= 1;
        CountMatchesMonotone(p, k, col + 1, Cols(m));
      } else {
        PivotKeepsMatchCount(m, row, col, k, Cols(m));
      }
    }
  }

  /** Pivoting on a column that already is the unit vector at the pivot row
      changes nothing; in particular pivoting twice on the same entry is the
      same as pivoting once. */
  lemma {:induction false} PivotOnUnitColumnIsIdentity(m: Matrix, row: nat, col: nat)
    requires Rect(m) && row < |m| && col < Cols(m)
    requires forall r :: 0 <= r < |m| ==> m[r][col] == Unit(row, r)
    ensures m[row][col] != 0.0 && Pivoted(m, row, col) == m
  {
    assert m[row][col] == 1.0;
    var p := Pivoted(m, row, col);
    forall r | 0 <= r < |m|
      ensures p[r] == m[r]
    {
      assert forall c :: 0 <= c < Cols(m) ==> p[r][c] == m[r][c];
    }
  }

  lemma {:induction false} PivotIdempotent(m: Matrix, row: nat, col: nat)
    requires Rect(m) && row < |m| && col < Cols(m) && m[row][col] != 0.0
    ensures Pivoted(m, row, col)[row][col] != 0.0
    ensures Pivoted(Pivoted(m, row, col), row, col) == Pivoted(m, row, col)
  {
    PivotUnitColumn(m, row, col);
    PivotOnUnitColumnIsIdentity(Pivoted(m, row, col), row, col);
  }

  /** A pivot on a positive entry of a constraint row with a non-negative
      right-hand side, in a column with a negative reduced cost, does not
      decrease the objective value (it increases it when that right-hand
      side is positive). */
  lemma {:induction false} PivotObjectiveNonDecreasing(m: Matrix, row: nat, col: nat)
    requires Rect(m) && 1 <= row < |m| && 1 <= col < Cols(m)
    requires m[row][col] > 0.0 && m[0][col] < 0.0 && m[row][0] >= 0.0
    ensures Pivoted(m, row, col)[0][0] >= m[0][0]
    ensures m[row][0] > 0.0 ==> Pivoted(m, row, col)[0][0] > m[0][0]
  {
    var s := -1.0 * (m[0][col] / m[row][col]);
    assert s > 0.0;
    assert Pivoted(m, row, col)[0][0] == m[0][0] + s * m[row][0];
  }

  // ------------------------------------------------------ identity columns

  /** Column c matches the unit vector at constraint row k on every row
      exactly when its reduced cost is 0 and the constraint-row scan finds
      its single 1 at row k. */
  lemma {:induction false} MatchesUnitIffIColumn(m: Matrix, c: nat, k: nat)
    requires Rect(m) && c < Cols(m) && 1 <= k < |m|
    ensures MatchesUnit(m, c, k) <==> m[0][c] == 0.0 && IColumn(m, c) == k - 1
  {
    if MatchesUnit(m, c, k) {
      assert UnitBelowObjective(m, c, k);
      var j := IColumn(m, c);
      assert j >= 0 && UnitBelowObjective(m, c, j + 1);
      assert m[j + 1][c] == 1.0;
    }
    if m[0][c] == 0.0 && IColumn(m, c) == k - 1 {
      assert UnitBelowObjective(m, c, k);
      assert forall r :: 0 <= r < |m| ==> m[r][c] == Unit(k, r);
    }
  }

  // -------------------------------------------------------- canonical form

  /** A full match needs a 0 in the objective row, so a column with a
      nonzero reduced cost is never counted. */
  lemma {:induction false} NonzeroCostNeverMatches(m: Matrix, c: nat, k: nat)
    requires Rect(m) && c < Cols(m) && 1 <= k && m[0][c] != 0.0
    ensures !MatchesUnit(m, c, k)
  {
    assert m[0][c] != Unit(k, 0);
  }

  lemma {:induction false} TotalOfOnes(m: Matrix, i: nat)
    requires Rect(m) && i < |m|
    requires forall k :: 1 <= k <= i ==> CountMatches(m, k, Cols(m)) == 1
    ensures TotalMatches(m, i) == i
  {
    if i > 0 {
      TotalOfOnes(m, i - 1);
    }
  }

  /** A non-negative B vector with exactly one full identity column per
      constraint row passes the canonical-form test. */
  lemma {:induction false} OneMatchPerRowIsCanonical(m: Matrix)
    requires Rect(m) && (|m| == 1 || Cols(m) >= 1)
    requires BNonNegative(m)
    requires OneMatchPerRow(m)
    ensures InCanonicalForm(m)
  {
    TotalOfOnes(m, |m| - 1);
  }

  lemma {:induction false} TotalOfAtMostOnes(m: Matrix, i: nat)
    requires Rect(m) && i < |m|
    requires forall k :: 1 <= k <= i ==> CountMatches(m, k, Cols(m)) <= 1
    ensures TotalMatches(m, i) <= i
    ensures TotalMatches(m, i) == i ==> forall k :: 1 <= k <= i ==> CountMatches(m, k, Cols(m)) == 1
  {
    if i > 0 {
      TotalOfAtMostOnes(m, i - 1);
    }
  }

  /** When no constraint row has two matching columns, passing the test
      means every constraint row has exactly one: the count then is the
      one-to-one covering that canonical form asks for. */
  lemma {:induction false} CanonicalWithoutDuplicatesCoversEveryRow(m: Matrix)
    requires Rect(m) && (|m| == 1 || Cols(m) >= 1)
    requires forall k :: 1 <= k < |m| ==> CountMatches(m, k, Cols(m)) <= 1
    ensures InCanonicalForm(m) <==> BNonNegative(m) && OneMatchPerRow(m)
  {
    var i := |m| - 1;
    TotalOfAtMostOnes(m, i);
    if InCanonicalForm(m) {
      assert TotalMatches(m, i) == i;
      forall k | 1 <= k < |m|
        ensures CountMatches(m, k, Cols(m)) == 1
      {
        assert k <= i;
      }
      assert OneMatchPerRow(m);
    }
    if BNonNegative(m) && OneMatchPerRow(m) {
      OneMatchPerRowIsCanonical(m);
    }
  }

  /** Adding target row i adds exactly the columns matching it, none of
      which matched an earlier target. */
  lemma {:induction false} IdentityColumnsStep(m: Matrix, i: nat)
    requires Rect(m) && 1 <= i
    ensures i < |m| ==>
      IdentityColumns(m, i) == IdentityColumns(m, i - 1) + MatchingColumns(m, i, Cols(m)) &&
      IdentityColumns(m, i - 1) * MatchingColumns(m, i, Cols(m)) == {}
  {
    if i < |m| {
      var before, now := IdentityColumns(m, i - 1), MatchingColumns(m, i, Cols(m));
      forall c | c in before
        ensures c !in now
      {
        var k :| 1 <= k <= i - 1 && MatchesUnit(m, c, k);
        assert m[i][c] != Unit(i, i);
      }
      assert before * now == {};
    }
  }

  /** CountMatches is the number of distinct columns among 1 .. n-1 that
      fully match the unit vector at row k. */
  lemma {:induction false} CountMatchesCountsColumns(m: Matrix, k: nat, n: nat)
    requires Rect(m) && n <= Cols(m)
    ensures CountMatches(m, k, n) == |MatchingColumns(m, k, n)|
  {
    if n <= 1 {
      assert MatchingColumns(m, k, n) == {};
    } else {
      CountMatchesCountsColumns(m, k, n - 1);
      assert MatchingColumns(m, k, n) ==
        MatchingColumns(m, k, n - 1) + (if MatchesUnit(m, n - 1, k) then {n - 1} else {});
    }
  }

  /** While the targets are constraint rows no column matches two of them,
      so the running count is the number of distinct columns that match one
      of the targets 1 .. i. */
  lemma {:induction false} TotalMatchesCountsIdentityColumns(m: Matrix, i: nat)
    requires Rect(m) && i < |m|
    ensures TotalMatches(m, i) == |IdentityColumns(m, i)|
  {
    if i == 0 {
      assert IdentityColumns(m, 0) == {};
    } else {
      TotalMatchesCountsIdentityColumns(m, i - 1);
      CountMatchesCountsColumns(m, i, Cols(m));
      IdentityColumnsStep(m, i);
    }
  }

  /** A set of column indices drawn from 1 .. n-1 has at most n-1 members. */
  lemma {:induction false} ColumnRangeBound(s: set<int>, n: nat)
    requires n >= 1 && forall c :: c in s ==> 1 <= c < n
    ensures |s| <= n - 1
  {
    if n == 1 {
      assert forall c :: c !in s;
      assert s == {};
    } else {
      var rest := s - {n - 1};
      ColumnRangeBound(rest, n - 1);
      if n - 1 in s {
        assert |s| == |rest| + 1;
      } else {
        assert s == rest;
      }
    }
  }

  /** The running count never exceeds the number of decision columns. */
  lemma {:induction false} TotalAtMostDecisionColumns(m: Matrix, i: nat)
    requires Rect(m) && i < |m| && Cols(m) >= 1
    ensures TotalMatches(m, i) <= Cols(m) - 1
  {
    TotalMatchesCountsIdentityColumns(m, i);
    ColumnRangeBound(IdentityColumns(m, i), Cols(m));
  }

  /** The test's meaning: a non-negative B vector, and exactly numRows-1
      distinct columns each equal, on every row, to the unit vector of some
      constraint row. */
  lemma {:induction false} CanonicalIffIdentityColumns(m: Matrix)
    requires Rect(m) && (|m| == 1 || Cols(m) >= 1)
    ensures InCanonicalForm(m) <==> BNonNegative(m) && |IdentityColumns(m, |m| - 1)| == |m| - 1
  {
    TotalMatchesCountsIdentityColumns(m, |m| - 1);
  }

  /** A tableau that passes the test has at least one decision column per
      constraint row. */
  lemma {:induction false} CanonicalNeedsEnoughColumns(m: Matrix)
    requires Rect(m) && |m| >= 2 && Cols(m) >= 1 && InCanonicalForm(m)
    ensures |m| <= Cols(m)
  {
    TotalAtMostDecisionColumns(m, |m| - 1);
  }

  /** Duplicate identity columns inflate the count: here columns 1 and 2 are
      both the unit vector at row 1, no column is one at row 2, and the
      test still passes. */
  lemma {:induction false} DuplicateColumnsPassCanonicalTest()
    ensures var m := [[0.0, 0.0, 0.0], [5.0, 1.0, 1.0], [7.0, 0.0, 0.0]];
            Rect(m) && InCanonicalForm(m) && CountMatches(m, 1, 3) == 2 && CountMatches(m, 2, 3) == 0
  {
    var m := [[0.0, 0.0, 0.0], [5.0, 1.0, 1.0], [7.0, 0.0, 0.0]];
    assert MatchesUnit(m, 1, 1) && MatchesUnit(m, 2, 1);
    assert m[2][1] != Unit(2, 2) && m[2][2] != Unit(2, 2);
  }

  /** The objective row takes part in the comparison: column 1 is an
      identity column on the constraint rows, but its reduced cost is -2,
      so the test fails. */
  lemma {:induction false} ObjectiveRowBlocksCanonicalTest()
    ensures var m := [[0.0, -2.0, 0.0], [4.0, 1.0, 0.0]];
            Rect(m) && UnitBelowObjective(m, 1, 1) && IColumn(m, 1) == 0 && !InCanonicalForm(m)
  {
    var m := [[0.0, -2.0, 0.0], [4.0, 1.0, 0.0]];
    assert UnitBelowObjective(m, 1, 1);
    assert m[0][1] != Unit(1, 0) && m[1][2] != Unit(1, 1);
  }

  // ---------------------------------------------------- solution extraction

  /** With a non-negative B vector every BFS entry is non-negative. */
  lemma {:induction false} BFSNonNegative(m: Matrix)
    requires Rect(m) && Cols(m) >= 1 && BNonNegative(m)
    ensures forall i :: 0 <= i < |BFS(m)| ==> BFS(m)[i] >= 0.0
  {
    var x := BFS(m);
    forall i | 0 <= i < |x|
      ensures x[i] >= 0.0
    {
      var j := IColumn(m, i + 1);
    }
  }

  /** One term of a row product with the BFS: constraint row k picks up its
      right-hand side from exactly the columns that fully match the unit
      vector at k, and nothing from any other column. */
  lemma {:induction false} BFSTerm(m: Matrix, k: nat, c: nat)
    requires Rect(m) && 1 <= k < |m| && 1 <= c < Cols(m)
    ensures m[k][c] * BFSEntry(m, c) == if MatchesUnit(m, c, k) then m[k][0] else 0.0
  {
    MatchesUnitIffIColumn(m, c, k);
    if m[0][c] == 0.0 {
      var j := IColumn(m, c);
      if j >= 0 {
        assert m[k][c] == Unit(j + 1, k);
      }
    } else {
      assert !MatchesUnit(m, c, k);
    }
  }

  /** b added to itself count times. */
  function Times(count: nat, b: real): real
  {
    if count == 0 then 0.0 else Times(count - 1, b) + b
  }

  /** Constraint row k times the BFS is the right-hand side m[k][0] taken as
      many times as there are columns matching the unit vector at k. */
  lemma {:induction false} BFSRowDot(m: Matrix, k: nat, n: nat)
    requires Rect(m) && Cols(m) >= 1 && 1 <= k < |m| && n <= Cols(m)
    ensures RowDot(m, k, BFS(m), n) == Times(CountMatches(m, k, n), m[k][0])
  {
    if n > 1 {
      BFSRowDot(m, k, n - 1);
      BFSTerm(m, k, n - 1);
    }
  }

  /** The objective row times the BFS is 0: a variable with a nonzero
      reduced cost is given the value 0. */
  lemma {:induction false} BFSObjectiveRowDot(m: Matrix, n: nat)
    requires Rect(m) && Cols(m) >= 1 && n <= Cols(m)
    ensures RowDot(m, 0, BFS(m), n) == 0.0
  {
    if n > 1 {
      BFSObjectiveRowDot(m, n - 1);
      assert m[0][n - 1] * BFS(m)[n - 2] == 0.0;
    }
  }

  /** With exactly one full identity column per constraint row the BFS
      satisfies every constraint: row k times the BFS equals its
      right-hand side. */
  lemma {:induction false} BFSSatisfiesConstraints(m: Matrix)
    requires Rect(m) && Cols(m) >= 1
    requires OneMatchPerRow(m)
    ensures forall k :: 1 <= k < |m| ==> RowDot(m, k, BFS(m), Cols(m)) == m[k][0]
  {
    forall k | 1 <= k < |m|
      ensures RowDot(m, k, BFS(m), Cols(m)) == m[k][0]
    {
      BFSRowDot(m, k, Cols(m));
    }
  }

  /** A tableau in canonical form, read off: columns 1 and 2 are the
      identity columns of rows 1 and 2, column 3 has a nonzero reduced cost,
      so the solution is x = (4, 6, 0), every constraint row holds, and no
      reduced cost is negative. */
  lemma {:induction false} CanonicalTableauSolution()
    ensures var m := [[0.0, 0.0, 0.0, 2.0], [4.0, 1.0, 0.0, 1.0], [6.0, 0.0, 1.0, 3.0]];
            Rect(m) && InCanonicalForm(m) && Optimal(m) && BFS(m) == [4.0, 6.0, 0.0]
            && RowDot(m, 1, BFS(m), 4) == 4.0 && RowDot(m, 2, BFS(m), 4) == 6.0
  {
    var m := [[0.0, 0.0, 0.0, 2.0], [4.0, 1.0, 0.0, 1.0], [6.0, 0.0, 1.0, 3.0]];
    assert MatchesUnit(m, 1, 1) && MatchesUnit(m, 2, 2);
    assert m[2][2] != Unit(1, 2) && m[1][1] != Unit(2, 1) && m[0][3] != Unit(1, 0) && m[0][3] != Unit(2, 0);
    assert OneMatchPerRow(m);
    OneMatchPerRowIsCanonical(m);
    assert UnitBelowObjective(m, 1, 1) && UnitBelowObjective(m, 2, 2);
    var x := BFS(m);
    assert x[0] == 4.0 && x[1] == 6.0 && x[2] == 0.0;
    BFSSatisfiesConstraints(m);
  }
}
