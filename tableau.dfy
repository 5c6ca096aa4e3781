// The Tableau class: a simplex tableau held in one two-dimensional array,
// with its row and column counts, updated in place by pivots.
module TableauModel {
  import opened Matrices
  import opened TableauSpec
  import Engine
  import TableauLemmas

  class Tableau {
    var tableau: array2<real>
    var numRows: int
    var numCols: int

    /** The counts are the array's dimensions; row 0 exists. */
    ghost predicate Valid()
      reads this
    {
      numRows == tableau.Length0 && numCols == tableau.Length1 && numRows >= 1
    }

    /** The current tableau as a matrix value. */
    ghost function M(): (m: Matrix)
      reads this, tableau
      requires Valid()
      ensures Rect(m) && |m| == numRows && Cols(m) == numCols
    {
      Snapshot(tableau)
    }

    /** Wraps the caller's array (the array itself, not a copy). */
    constructor (newTableau: array2<real>)
      requires newTableau.Length0 >= 1
      ensures Valid() && tableau == newTableau
      ensures numRows == newTableau.Length0 && numCols == newTableau.Length1
    {
      tableau := newTableau;
      numRows := newTableau.Length0;
      numCols := newTableau.Length1;
    }

    /** Stores the caller's array and takes the counts from it. */
    method SetTableau(newTableau: array2<real>)
      requires newTableau.Length0 >= 1
      modifies this
      ensures Valid() && tableau == newTableau
      ensures numRows == newTableau.Length0 && numCols == newTableau.Length1
    {
      tableau := newTableau;
      numRows := newTableau.Length0;
      numCols := newTableau.Length1;
    }

    /** Gives back the stored array itself. */
    method GetTableau() returns (t: array2<real>)
      requires Valid()
      ensures t == tableau && Snapshot(t) == M()
    {
      t := tableau;
    }

    method GetBVector() returns (ret: array<real>)
      requires Valid() && (numRows == 1 || numCols >= 1)
      ensures fresh(ret) && ret.Length == numRows - 1
      ensures forall i :: 0 <= i < ret.Length ==> ret[i] == tableau[i + 1, 0]
    {
      ret := Engine.GetBVector(tableau);
    }

    method GetBFS() returns (ret: array<real>)
      requires Valid() && numCols >= 1
      ensures fresh(ret) && ret[..] == BFS(M())
    {
      ret := Engine.GetBFS(tableau);
    }

    method IsIColumn(colIndex: int) returns (iColumnIndex: int)
      requires Valid() && (numRows == 1 || 0 <= colIndex < numCols)
      ensures -1 <= iColumnIndex <= numRows - 2
      ensures numRows == 1 ==> iColumnIndex == -1
      ensures iColumnIndex >= 0 ==>
        forall r :: 1 <= r < numRows ==> tableau[r, colIndex] == (if r == iColumnIndex + 1 then 1.0 else 0.0)
      ensures iColumnIndex == -1 <==> forall k :: 1 <= k < numRows ==> !UnitBelowObjective(M(), colIndex, k)
    {
      iColumnIndex := Engine.IsIColumn(tableau, colIndex);
      assert M() == Snapshot(tableau);
    }

    method IsInCanonicalForm() returns (canonical: bool)
      requires Valid() && (numRows == 1 || numCols >= 1)
      ensures (exists r :: 1 <= r < numRows && tableau[r, 0] < 0.0) ==> !canonical
      ensures canonical == InCanonicalForm(M())
    {
      canonical := Engine.IsInCanonicalForm(tableau);
    }

    method GetOFValue() returns (value: real)
      requires Valid() && numCols >= 1
      ensures value == M()[0][0]
    {
      value := tableau[0, 0];
    }

    /** One pivot on (row, column): afterwards column `column` is the unit
        vector at `row`, every entry is the Gauss-Jordan update of the old
        tableau, and the dimensions are unchanged. */
    method Pivot(row: int, column: int)
      requires Valid() && 0 <= row < numRows && 0 <= column < numCols
      requires tableau[row, column] != 0.0
      modifies tableau
      ensures Valid() && numRows == old(numRows) && numCols == old(numCols)
      ensures M() == Pivoted(old(M()), row, column)
      ensures forall r :: 0 <= r < numRows ==> tableau[r, column] == Unit(row, r)
    {
      ghost var before := M();
      Engine.Pivot(tableau, row, column);
      TableauLemmas.PivotUnitColumn(before, row, column);
    }

    method IsOptimal() returns (optimal: bool)
      requires Valid()
      ensures optimal <==> forall i :: 1 <= i < numCols ==> tableau[0, i] >= 0.0
    {
      optimal := Engine.IsOptimal(tableau);
    }
  }
}
