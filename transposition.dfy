/** The hand-written transpose in `pca` that feeds the covariance: one list
    per entry of the first row, seeded with that entry, and every later row's
    entries appended to the list of their column. */
module Transposition {

  import opened Errors
  import opened Matrices

  /** Column i as the transpose loop collects it: m[j][i] for every row j
      that has an entry i, in row order. */
  function Column(m: Matrix, i: nat): seq<real> {
    if m == [] then []
    else Column(m[..|m| - 1], i) + (if i < |m[|m| - 1]| then [m[|m| - 1][i]] else [])
  }

  /** One list per entry of the first row, list i holding column i. */
  function Transposed(m: Matrix): Matrix
    requires |m| > 0
  {
    seq(|m[0]|, i requires 0 <= i => Column(m, i))
  }

  lemma {:induction false} ColumnSnoc(m: Matrix, j: nat, i: nat)
    requires j < |m|
    ensures Column(m[..j + 1], i) == Column(m[..j], i) + (if i < |m[j]| then [m[j][i]] else [])
  {
    assert m[..j + 1][..j] == m[..j];
  }

  /** When every row has an entry i, column i has one entry per row, the
      entry of row j at position j. */
  lemma {:induction false} ColumnOfFullRows(m: Matrix, i: nat)
    requires forall j :: 0 <= j < |m| ==> i < |m[j]|
    ensures |Column(m, i)| == |m|
    ensures forall j :: 0 <= j < |m| ==> Column(m, i)[j] == m[j][i]
  {
    if m != [] {
      var m' := m[..|m| - 1];
      ColumnOfFullRows(m', i);
    }
  }

  /** The transpose of rectangular m has a row per column of m, each as long
      as m has rows, and swaps the two indices. */
  lemma {:induction false} TransposedOfRectangular(m: Matrix)
    requires Rectangular(m)
    ensures |Transposed(m)| == |m[0]|
    ensures forall i :: 0 <= i < |m[0]| ==>
      |Transposed(m)[i]| == |m| && forall j :: 0 <= j < |m| ==> Transposed(m)[i][j] == m[j][i]
  {
    forall i | 0 <= i < |m[0]| {
      ColumnOfFullRows(m, i);
    }
  }

  /** Transposing a rectangular table with at least one column twice gives it
      back. */
  lemma {:induction false} TransposeTwice(m: Matrix)
    requires Rectangular(m) && |m[0]| > 0
    ensures Rectangular(Transposed(m)) && Transposed(Transposed(m)) == m
  {
    var t := Transposed(m);
    TransposedOfRectangular(m);
    assert Rectangular(t);
    TransposedOfRectangular(t);
    assert |Transposed(t)| == |m|;
    forall j | 0 <= j < |m|
      ensures Transposed(t)[j] == m[j]
    {
      assert |Transposed(t)[j]| == |t| == |m[j]|;
      forall i | 0 <= i < |m[j]|
        ensures Transposed(t)[j][i] == m[j][i]
      {
        assert Transposed(t)[j][i] == t[i][j];
      }
    }
  }

  /** `pca`, building `transposed` from `new_data`: list i is column i of
      `new_data`, in row order. An empty table (no first row) and a row
      longer than the first both raise IndexError. For a rectangular table
      entry [i][j] of the result is entry [j][i] of the input. */
  method Transpose(m: Matrix) returns (r: Result<Matrix>)
    ensures r.Err? <==> !FitsFirstRow(m)
    ensures r.Err? ==> r.error == IndexError
    ensures r.Ok? ==> |m| > 0 && r.value == Transposed(m)
    ensures r.Ok? && Rectangular(m) ==>
      |r.value| == |m[0]|
      && forall i :: 0 <= i < |m[0]| ==>
        |r.value[i]| == |m| && forall j :: 0 <= j < |m| ==> r.value[i][j] == m[j][i]
  {
    if |m| == 0 {
      // new_data[0]
      return Err(IndexError);
    }
    var transposed: Matrix := [];
    var k := 0;
    while k < |m[0]|
      invariant 0 <= k <= |m[0]|
      invariant |transposed| == k && forall c :: 0 <= c < k ==> transposed[c] == [m[0][c]]
    {
      var blank := [m[0][k]];
      transposed := transposed + [blank];
      k := k + 1;
    }
    assert m[..0] == [];
    forall c | 0 <= c < |m[0]| {
      ColumnSnoc(m, 0, c);
    }
    var j := 1;
    while j < |m|
      invariant 1 <= j <= |m|
      invariant |transposed| == |m[0]|
      invariant forall k :: 0 <= k < j ==> |m[k]| <= |m[0]|
      invariant forall c :: 0 <= c < |transposed| ==> transposed[c] == Column(m[..j], c)
    {
      var point := m[j];
      forall c | 0 <= c < |transposed| {
        ColumnSnoc(m, j, c);
      }
      var i := 0;
      while i < |point|
        invariant 0 <= i <= |point| && i <= |transposed|
        invariant |transposed| == |m[0]|
        invariant forall c :: 0 <= c < |transposed| ==>
          transposed[c] == (if c < i then Column(m[..j + 1], c) else Column(m[..j], c))
      {
        if i >= |transposed| {
          // transposed[i] is past the end of `transposed`
          return Err(IndexError);
        }
        transposed := transposed[i := transposed[i] + [point[i]]];
        i := i + 1;
      }
      j := j + 1;
    }
    assert m[..|m|] == m;
    r := Ok(transposed);
    if Rectangular(m) {
      TransposedOfRectangular(m);
    }
  }
}
