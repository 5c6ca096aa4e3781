// Dense real matrices: the value view of a tableau's `double[][]`.
module Matrices {

  /** A matrix as a sequence of rows. */
  type Matrix = seq<seq<real>>

  /** At least one row and every row as long as row 0 (the source sizes the
      tableau from `tableau.length` and `tableau[0].length`). */
  predicate Rect(m: Matrix)
  {
    |m| >= 1 && forall r :: 0 <= r < |m| ==> |m[r]| == |m[0]|
  }

  /** Number of columns, taken from row 0. */
  function Cols(m: Matrix): nat
    requires |m| >= 1
  {
    |m[0]|
  }

  /** The current contents of a two-dimensional array as a matrix value. */
  function Snapshot(a: array2<real>): (m: Matrix)
    reads a
    ensures |m| == a.Length0
    ensures forall r :: 0 <= r < |m| ==> |m[r]| == a.Length1
    ensures forall r, c :: 0 <= r < a.Length0 && 0 <= c < a.Length1 ==> m[r][c] == a[r, c]
  {
    seq(a.Length0, r requires 0 <= r < a.Length0 reads a =>
      seq(a.Length1, c requires 0 <= c < a.Length1 reads a => a[r, c]))
  }

  /** Two-dimensional arrays and matrix values agree when they agree entry by entry. */
  lemma SnapshotIs(a: array2<real>, m: Matrix)
    requires |m| == a.Length0
    requires forall r :: 0 <= r < |m| ==> |m[r]| == a.Length1
    requires forall r, c :: 0 <= r < a.Length0 && 0 <= c < a.Length1 ==> a[r, c] == m[r][c]
    ensures Snapshot(a) == m
  {
    var s := Snapshot(a);
    forall r | 0 <= r < |m|
      ensures s[r] == m[r]
    {
    }
  }
}
