// The tableau engine's loops, run on the tableau array itself. Tableau.java
// and Simplex.java hold identical copies of pivot, isOptimal,
// isInCanonicalForm and getOFValue; both classes call the methods here.
module Engine {
  import opened Matrices
  import opened TableauSpec

  /** Gauss-Jordan pivot on (row, col), in place: first every other row r
      gets the pivot row added with scalar -(a[r, col] / a[row, col]), then
      the pivot row is scaled by 1 / a[row, col]. */
  method Pivot(a: array2<real>, row: nat, col: nat)
    requires a.Length0 >= 1 && row < a.Length0 && col < a.Length1 && a[row, col] != 0.0
    modifies a
    ensures Rect(old(Snapshot(a))) && Snapshot(a) == Pivoted(old(Snapshot(a)), row, col)
  {
    ghost var m := Snapshot(a);
    EliminateColumn(a, row, col);
    var scalar := 1.0 / a[row, col];
    ScaleRow(a, row, scalar);
    SnapshotIs(a, Pivoted(m, row, col));
  }

  /** The pivot's outer loop: every row r other than the pivot row gets the
      pivot row added with scalar -(a[r, col] / a[row, col]); the pivot row
      itself is left for last. */
  method EliminateColumn(a: array2<real>, row: nat, col: nat)
    requires row < a.Length0 && col < a.Length1 && a[row, col] != 0.0
    modifies a
    ensures Rect(old(Snapshot(a)))
    ensures forall i, j :: 0 <= i < a.Length0 && i != row && 0 <= j < a.Length1 ==>
      a[i, j] == PivotEntry(old(Snapshot(a)), row, col, i, j)
    ensures forall j :: 0 <= j < a.Length1 ==> a[row, j] == old(a[row, j])
  {
    ghost var m := Snapshot(a);
    var numRows := a.Length0;
    var r := 0;
    while r < numRows
      invariant 0 <= r <= numRows
      invariant forall i, j :: 0 <= i < r && i != row && 0 <= j < a.Length1 ==> a[i, j] == PivotEntry(m, row, col, i, j)
      invariant forall i, j :: (r <= i < numRows || i == row) && 0 <= j < a.Length1 ==> a[i, j] == m[i][j]
    {
      if r != row {
        var scalar := -1.0 * (a[r, col] / a[row, col]);
        AddScaledRow(a, r, row, scalar);
      }
      r := r + 1;
    }
  }

  /** The inner loop of the pivot for a row r other than the pivot row:
      a[r, c] += scalar * a[row, c] for every column c. */
  method AddScaledRow(a: array2<real>, r: nat, row: nat, scalar: real)
    requires r < a.Length0 && row < a.Length0 && r != row
    modifies a
    ensures forall j :: 0 <= j < a.Length1 ==> a[r, j] == old(a[r, j]) + scalar * old(a[row, j])
    ensures forall i, j :: 0 <= i < a.Length0 && i != r && 0 <= j < a.Length1 ==> a[i, j] == old(a[i, j])
  {
    var c := 0;
    while c < a.Length1
      invariant 0 <= c <= a.Length1
      invariant forall j :: 0 <= j < c ==> a[r, j] == old(a[r, j]) + scalar * old(a[row, j])
      invariant forall j :: c <= j < a.Length1 ==> a[r, j] == old(a[r, j])
      invariant forall i, j :: 0 <= i < a.Length0 && i != r && 0 <= j < a.Length1 ==> a[i, j] == old(a[i, j])
    {
      a[r, c] := a[r, c] + scalar * a[row, c];
      c := c + 1;
    }
  }

  /** The last loop of the pivot: a[row, c] *= scalar for every column c. */
  method ScaleRow(a: array2<real>, row: nat, scalar: real)
    requires row < a.Length0
    modifies a
    ensures forall j :: 0 <= j < a.Length1 ==> a[row, j] == old(a[row, j]) * scalar
    ensures forall i, j :: 0 <= i < a.Length0 && i != row && 0 <= j < a.Length1 ==> a[i, j] == old(a[i, j])
  {
    var c := 0;
    while c < a.Length1
      invariant 0 <= c <= a.Length1
      invariant forall j :: 0 <= j < c ==> a[row, j] == old(a[row, j]) * scalar
      invariant forall j :: c <= j < a.Length1 ==> a[row, j] == old(a[row, j])
      invariant forall i, j :: 0 <= i < a.Length0 && i != row && 0 <= j < a.Length1 ==> a[i, j] == old(a[i, j])
    {
      a[row, c] := a[row, c] * scalar;
      c := c + 1;
    }
  }

  /** True exactly when no reduced cost a[0, 1 ..] is negative. */
  method IsOptimal(a: array2<real>) returns (optimal: bool)
    requires a.Length0 >= 1
    ensures optimal <==> forall i :: 1 <= i < a.Length1 ==> a[0, i] >= 0.0
    ensures optimal == Optimal(Snapshot(a))
  {
    var i := 1;
    while i < a.Length1
      invariant 1 <= i <= a.Length1 || i == 1
      invariant forall j :: 1 <= j < i ==> a[0, j] >= 0.0
    {
      if a[0, i] < 0.0 {
        return false;
      }
      i := i + 1;
    }
    return true;
  }

  /** Scans the constraint rows of column colIndex for a single 1 among 0s:
      gives that row minus one, or -1 when some entry is neither 0 nor 1,
      when a second 1 turns up, or when there is no 1 at all. */
  method IsIColumn(a: array2<real>, colIndex: int) returns (iColumnIndex: int)
    requires a.Length0 >= 1 && (a.Length0 == 1 || 0 <= colIndex < a.Length1)
    ensures -1 <= iColumnIndex <= a.Length0 - 2
    ensures a.Length0 == 1 ==> iColumnIndex == -1
    ensures iColumnIndex >= 0 ==>
      forall r :: 1 <= r < a.Length0 ==> a[r, colIndex] == (if r == iColumnIndex + 1 then 1.0 else 0.0)
    ensures iColumnIndex == -1 <==> forall k :: 1 <= k < a.Length0 ==> !UnitBelowObjective(Snapshot(a), colIndex, k)
    ensures 0 <= colIndex < a.Length1 ==> iColumnIndex == IColumn(Snapshot(a), colIndex)
  {
    ghost var m := Snapshot(a);
    var numRows := a.Length0;
    var oneFound := false;
    iColumnIndex := -1;
    var row := 1;
    while row < numRows
      invariant 1 <= row <= numRows
      invariant forall j :: 1 <= j < row ==> a[j, colIndex] == 0.0 || a[j, colIndex] == 1.0
      invariant !oneFound ==> iColumnIndex == -1 && forall j :: 1 <= j < row ==> a[j, colIndex] == 0.0
      invariant oneFound ==> 0 <= iColumnIndex && iColumnIndex + 1 < row && a[iColumnIndex + 1, colIndex] == 1.0
      invariant oneFound ==> forall j :: 1 <= j < row && j != iColumnIndex + 1 ==> a[j, colIndex] == 0.0
    {
      if a[row, colIndex] == 0.0 || a[row, colIndex] == 1.0 {
        if !oneFound && a[row, colIndex] == 1.0 {
          oneFound := true;
          iColumnIndex := row - 1;
        } else if oneFound && a[row, colIndex] == 1.0 {
          NoUnitWithTwoOnes(m, colIndex, iColumnIndex + 1, row);
          return -1;
        }
      } else {
        NoUnitWithOtherValue(m, colIndex, row);
        return -1;
      }
      row := row + 1;
    }
    if !oneFound {
      forall k | 1 <= k < numRows
        ensures !UnitBelowObjective(m, colIndex, k)
      {
        assert m[k][colIndex] != Unit(k, k);
      }
    }
    if 0 <= colIndex < a.Length1 {
      IColumnUnique(m, colIndex, iColumnIndex);
    }
  }

  lemma NoUnitWithTwoOnes(m: Matrix, c: nat, r1: nat, r2: nat)
    requires Rect(m) && c < Cols(m) && 1 <= r1 < |m| && 1 <= r2 < |m| && r1 != r2
    requires m[r1][c] == 1.0 && m[r2][c] == 1.0
    ensures forall k :: 1 <= k < |m| ==> !UnitBelowObjective(m, c, k)
  {
    forall k | 1 <= k < |m|
      ensures !UnitBelowObjective(m, c, k)
    {
      if k == r1 {
        assert m[r2][c] != Unit(k, r2);
      } else {
        assert m[r1][c] != Unit(k, r1);
      }
    }
  }

  lemma NoUnitWithOtherValue(m: Matrix, c: nat, r: nat)
    requires Rect(m) && c < Cols(m) && 1 <= r < |m|
    requires m[r][c] != 0.0 && m[r][c] != 1.0
    ensures forall k :: 1 <= k < |m| ==> !UnitBelowObjective(m, c, k)
  {
    forall k | 1 <= k < |m|
      ensures !UnitBelowObjective(m, c, k)
    {
      assert m[r][c] != Unit(k, r);
    }
  }

  /** A column is a unit vector below the objective row at one row at most,
      so any index with IColumn's characterisation is IColumn's. */
  lemma IColumnUnique(m: Matrix, c: nat, j: int)
    requires Rect(m) && c < Cols(m) && -1 <= j <= |m| - 2
    requires j >= 0 ==> UnitBelowObjective(m, c, j + 1)
    requires j == -1 ==> forall k :: 1 <= k < |m| ==> !UnitBelowObjective(m, c, k)
    ensures j == IColumn(m, c)
  {
    var i := IColumn(m, c);
    if i >= 0 && j >= 0 {
      assert m[j + 1][c] == Unit(i + 1, j + 1);
    }
  }

  /** The B vector, copied into a fresh array. */
  method GetBVector(a: array2<real>) returns (ret: array<real>)
    requires a.Length0 >= 1 && (a.Length0 == 1 || a.Length1 >= 1)
    ensures fresh(ret) && ret.Length == a.Length0 - 1
    ensures forall i :: 0 <= i < ret.Length ==> ret[i] == a[i + 1, 0]
    ensures ret[..] == BVector(Snapshot(a))
  {
    var numRows := a.Length0;
    ret := new real[numRows - 1](_ => 0.0);
    var row := 1;
    while row < numRows
      invariant 1 <= row <= numRows
      invariant forall i :: 0 <= i < row - 1 ==> ret[i] == a[i + 1, 0]
    {
      ret[row - 1] := a[row, 0];
      row := row + 1;
    }
    assert ret[..] == BVector(Snapshot(a));
  }

  /** The basic feasible solution: for each column c in 1 .. numCols-1, 0 when
      its reduced cost is nonzero, otherwise the B entry of the row at which
      it is an identity column, and 0 when it is none. */
  method GetBFS(a: array2<real>) returns (ret: array<real>)
    requires a.Length0 >= 1 && a.Length1 >= 1
    ensures fresh(ret) && ret[..] == BFS(Snapshot(a))
  {
    ghost var m := Snapshot(a);
    var numCols := a.Length1;
    ret := new real[numCols - 1](_ => 0.0);
    var bVector := GetBVector(a);
    var c := 1;
    while c < numCols
      invariant 1 <= c <= numCols
      invariant forall j :: 0 <= j < c - 1 ==> ret[j] == BFSEntry(m, j + 1)
      invariant forall j :: c - 1 <= j < numCols - 1 ==> ret[j] == 0.0
      invariant bVector[..] == BVector(m)
    {
      FillBFSEntry(a, bVector, ret, c);
      c := c + 1;
    }
    assert ret[..] == BFS(m);
  }

  /** The body of getBFS's loop for column c: write 0 for a nonzero reduced
      cost, the matching B entry for an identity column, and otherwise leave
      the array's 0. */
  method FillBFSEntry(a: array2<real>, bVector: array<real>, ret: array<real>, c: nat)
    requires a.Length0 >= 1 && 1 <= c < a.Length1 && ret.Length == a.Length1 - 1
    requires bVector[..] == BVector(Snapshot(a)) && ret[c - 1] == 0.0
    modifies ret
    ensures ret[c - 1] == BFSEntry(Snapshot(a), c)
    ensures forall j :: 0 <= j < ret.Length && j != c - 1 ==> ret[j] == old(ret[j])
  {
    if a[0, c] != 0.0 {
      ret[c - 1] := 0.0;
    } else {
      var iColumnIndex := IsIColumn(a, c);
      if iColumnIndex >= 0 {
        ret[c - 1] := bVector[iColumnIndex];
      }
    }
  }

  /** The canonical-form test exactly as written: false on a negative B
      entry; otherwise, for each target row 1 .. numRows-1, count every
      column 1 .. numCols-1 equal on ALL rows (row 0 too) to the unit vector
      at that row, and compare the total with numRows - 1. */
  method IsInCanonicalForm(a: array2<real>) returns (canonical: bool)
    requires a.Length0 >= 1 && (a.Length0 == 1 || a.Length1 >= 1)
    ensures (exists r :: 1 <= r < a.Length0 && a[r, 0] < 0.0) ==> !canonical
    ensures canonical == InCanonicalForm(Snapshot(a))
  {
    var bOk := CheckBVector(a);
    if !bOk {
      return false;
    }
    var numICols := a.Length0 - 1;
    var numIColsFound := CountIdentityColumns(a);
    return numICols == numIColsFound;
  }

  /** The outer counting loop of the canonical-form test: for each target
      row 1 .. numRows-1 build its target column and add its matches. */
  method CountIdentityColumns(a: array2<real>) returns (numIColsFound: nat)
    requires a.Length0 >= 1 && (a.Length0 == 1 || a.Length1 >= 1)
    ensures numIColsFound == TotalMatches(Snapshot(a), a.Length0 - 1)
  {
    ghost var m := Snapshot(a);
    var numRows := a.Length0;
    var numICols := numRows - 1;
    numIColsFound := 0;
    var i := 0;
    while i < numICols
      invariant 0 <= i <= numICols
      invariant numIColsFound == TotalMatches(m, i)
    {
      var targetCol := TargetColumn(numRows, i + 1);
      numIColsFound := CountMatchingColumns(a, targetCol, i + 1, numIColsFound);
      i := i + 1;
    }
  }

  /** The first loop of the canonical-form test: false at the first
      negative B entry, true when there is none. */
  method CheckBVector(a: array2<real>) returns (ok: bool)
    requires a.Length0 >= 1 && (a.Length0 == 1 || a.Length1 >= 1)
    ensures ok == BNonNegative(Snapshot(a))
  {
    var r := 1;
    while r < a.Length0
      invariant 1 <= r <= a.Length0
      invariant forall j :: 1 <= j < r ==> a[j, 0] >= 0.0
    {
      if a[r, 0] < 0.0 {
        return false;
      }
      r := r + 1;
    }
    return true;
  }

  /** The target column for row k: a fresh zero array of length n with a 1
      at index k. */
  method TargetColumn(n: nat, k: nat) returns (targetCol: array<real>)
    requires k < n
    ensures fresh(targetCol) && targetCol.Length == n
    ensures forall j :: 0 <= j < n ==> targetCol[j] == Unit(k, j)
  {
    targetCol := new real[n](_ => 0.0);
    targetCol[k] := 1.0;
  }

  /** The middle loop of the canonical-form test: add to the running count
      one for every column 1 .. numCols-1 that matches the target column. */
  method CountMatchingColumns(a: array2<real>, targetCol: array<real>, ghost k: nat, found: nat)
    returns (numIColsFound: nat)
    requires a.Length0 >= 1 && a.Length1 >= 1 && targetCol.Length == a.Length0
    requires forall j :: 0 <= j < a.Length0 ==> targetCol[j] == Unit(k, j)
    ensures numIColsFound == found + CountMatches(Snapshot(a), k, a.Length1)
  {
    ghost var m := Snapshot(a);
    numIColsFound := found;
    var c := 1;
    while c < a.Length1
      invariant 1 <= c <= a.Length1
      invariant numIColsFound == found + CountMatches(m, k, c)
    {
      var matched := MatchesTarget(a, c, targetCol, k);
      if matched {
        numIColsFound := numIColsFound + 1;
      }
      c := c + 1;
    }
  }

  /** The innermost loop of the canonical-form test: walk down column c and
      stop at the first entry that differs from the target column; reaching
      the last row means the column matches. */
  method MatchesTarget(a: array2<real>, c: nat, targetCol: array<real>, ghost k: nat) returns (matched: bool)
    requires a.Length0 >= 1 && c < a.Length1 && targetCol.Length == a.Length0
    requires forall j :: 0 <= j < a.Length0 ==> targetCol[j] == Unit(k, j)
    ensures matched == MatchesUnit(Snapshot(a), c, k)
  {
    var numRows := a.Length0;
    matched := false;
    var row := 0;
    while row < numRows
      invariant 0 <= row <= numRows
      invariant forall j :: 0 <= j < row ==> a[j, c] == Unit(k, j)
      invariant matched == (row == numRows)
    {
      if a[row, c] != targetCol[row] {
        return false;
      }
      if row == numRows - 1 {
        matched := true;
      }
      row := row + 1;
    }
  }
}
