// The Simplex class, an earlier draft of Tableau: a fixed 2 x 2 tableau,
// the same pivot and queries, and a getBFS that copies the objective row.
module SimplexModel {
  import opened Matrices
  import opened TableauSpec
  import Engine
  import TableauLemmas

  class Simplex {
    var tableau: array2<real>
    var numRows: int
    var numCols: int

    /** The counts are the array's dimensions; row 0 exists. */
    ghost predicate Valid()
      reads this
    {
      numRows == tableau.Length0 && numCols == tableau.Length1 && numRows >= 1
    }

    /** The current tableau as a matrix value. */
    ghost function M(): (m: Matrix)
      reads this, tableau
      requires Valid()
      ensures Rect(m) && |m| == numRows && Cols(m) == numCols
    {
      Snapshot(tableau)
    }

    /** Ignores the file name and installs the tableau {{4, 1}, {2, 3}}. */
    constructor (filename: string)
      ensures Valid() && fresh(tableau)
      ensures numRows == 2 && numCols == 2
      ensures M() == [[4.0, 1.0], [2.0, 3.0]]
    {
      var t := new real[2, 2];
      t[0, 0], t[0, 1] := 4.0, 1.0;
      t[1, 0], t[1, 1] := 2.0, 3.0;
      tableau := t;
      numRows := t.Length0;
      numCols := t.Length1;
      new;
      SnapshotIs(t, [[4.0, 1.0], [2.0, 3.0]]);
    }

    /** Stores the caller's array and takes the counts from it. */
    method SetTableau(newTableau: array2<real>)
      requires newTableau.Length0 >= 1
      modifies this
      ensures Valid() && tableau == newTableau
      ensures numRows == newTableau.Length0 && numCols == newTableau.Length1
    {
      tableau := newTableau;
      numRows := newTableau.Length0;
      numCols := newTableau.Length1;
    }

    /** Gives back the stored array itself. */
    method GetTableau() returns (t: array2<real>)
      requires Valid()
      ensures t == tableau && Snapshot(t) == M()
    {
      t := tableau;
    }

    /** This draft's "solution": the reduced costs, objective row columns
        1 .. numCols-1, copied into a fresh array. */
    method GetBFS() returns (ret: array<real>)
      requires Valid() && numCols >= 1
      ensures fresh(ret) && ret[..] == M()[0][1..]
    {
      ret := new real[numCols - 1](_ => 0.0);
      var i := 1;
      while i < numCols
        invariant 1 <= i <= numCols
        invariant forall j :: 0 <= j < i - 1 ==> ret[j] == tableau[0, j + 1]
      {
        ret[i - 1] := tableau[0, i];
        i := i + 1;
      }
      assert ret[..] == M()[0][1..];
    }

    method IsInCanonicalForm() returns (canonical: bool)
      requires Valid() && (numRows == 1 || numCols >= 1)
      ensures (exists r :: 1 <= r < numRows && tableau[r, 0] < 0.0) ==> !canonical
      ensures canonical == InCanonicalForm(M())
    {
      canonical := Engine.IsInCanonicalForm(tableau);
    }

    method GetOFValue() returns (value: real)
      requires Valid() && numCols >= 1
      ensures value == M()[0][0]
    {
      value := tableau[0, 0];
    }

    /** One pivot on (row, column), the pivot row scaled last: afterwards
        column `column` is the unit vector at `row`. */
    method Pivot(row: int, column: int)
      requires Valid() && 0 <= row < numRows && 0 <= column < numCols
      requires tableau[row, column] != 0.0
      modifies tableau
      ensures Valid() && numRows == old(numRows) && numCols == old(numCols)
      ensures M() == Pivoted(old(M()), row, column)
      ensures forall r :: 0 <= r < numRows ==> tableau[r, column] == Unit(row, r)
    {
      ghost var before := M();
      Engine.Pivot(tableau, row, column);
      TableauLemmas.PivotUnitColumn(before, row, column);
    }

    method IsOptimal() returns (optimal: bool)
      requires Valid()
      ensures optimal <==> forall i :: 1 <= i < numCols ==> tableau[0, i] >= 0.0
    {
      optimal := Engine.IsOptimal(tableau);
    }
  }

  /** The copy getBFS returns is all non-negative exactly when isOptimal
      holds. */
  lemma {:induction false} CostsNonNegativeIffOptimal(m: Matrix)
    requires Rect(m) && Cols(m) >= 1
    ensures Optimal(m) <==> forall j :: 0 <= j < |m[0][1..]| ==> m[0][1..][j] >= 0.0
  {
    var costs := m[0][1..];
    if Optimal(m) {
      forall j | 0 <= j < |costs|
        ensures costs[j] >= 0.0
      {
        assert costs[j] == m[0][j + 1];
      }
    }
    if forall j :: 0 <= j < |costs| ==> costs[j] >= 0.0 {
      forall i | 1 <= i < Cols(m)
        ensures m[0][i] >= 0.0
      {
        assert m[0][i] == costs[i - 1];
      }
    }
  }

  /** The pivot the draft's entry point performs: on (1, 0) of {{4, 1}, {2, 3}}
      the pivot entry is 2, row 0 gets -2 times row 1, and row 1 is halved. */
  lemma {:induction false} DraftPivotResult()
    ensures var m := [[4.0, 1.0], [2.0, 3.0]];
            Rect(m) && Pivoted(m, 1, 0) == [[0.0, -5.0], [1.0, 1.5]]
  {
    var m := [[4.0, 1.0], [2.0, 3.0]];
    var p := Pivoted(m, 1, 0);
    assert p[0] == [0.0, -5.0];
    assert p[1] == [1.0, 1.5];
  }

  /** Constructing the draft and pivoting on (1, 0), as its entry point does,
      leaves {{0, -5}, {1, 1.5}}. */
  method ConstructAndPivot() returns (s: Simplex)
    ensures s.Valid() && s.M() == [[0.0, -5.0], [1.0, 1.5]]
  {
    s := new Simplex("blah");
    s.Pivot(1, 0);
    DraftPivotResult();
  }
}
