/** Tables of reals as nested Python lists: a sequence of rows, each a
    sequence of entries. The lists need not be rectangular. */
module Matrices {

  type Matrix = seq<seq<real>>

  /** There is a first row and no row is longer than it: exactly the shapes
      the mean and transpose loops of `pca` get through without an
      `IndexError` (both size their scratch lists from row 0). */
  predicate FitsFirstRow(m: Matrix) {
    |m| > 0 && forall j :: 0 <= j < |m| ==> |m[j]| <= |m[0]|
  }

  /** A non-empty table whose rows all have the length of the first. */
  predicate Rectangular(m: Matrix) {
    |m| > 0 && forall j :: 0 <= j < |m| ==> |m[j]| == |m[0]|
  }
}
