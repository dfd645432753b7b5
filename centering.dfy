/** The zero-centering step at the start of `pca`: per-column sums are
    accumulated into `mean`, divided by the number of rows, and subtracted
    from every entry. Every column is treated alike, the label column
    included. Floats are idealised as exact reals. */
module Centering {

  import opened Errors
  import opened Matrices

  /** Entry i of a row, or nothing (0) when the row is shorter. */
  function EntryOr0(row: seq<real>, i: nat): real {
    if i < |row| then row[i] else 0.0
  }

  /** The sum of column i over the rows of m. A row too short to have an
      entry i adds nothing, as in the accumulation loop. */
  function ColumnSum(m: Matrix, i: nat): real {
    if m == [] then 0.0 else ColumnSum(m[..|m| - 1], i) + EntryOr0(m[|m| - 1], i)
  }

  /** nd is `data` with the mean of each column subtracted from every entry of
      that column, row for row and entry for entry. */
  ghost predicate IsCentering(data: Matrix, nd: Matrix) {
    && |data| > 0
    && |nd| == |data|
    && forall j :: 0 <= j < |data| ==>
        && |nd[j]| == |data[j]|
        && forall i :: 0 <= i < |data[j]| ==> nd[j][i] == data[j][i] - ColumnSum(data, i) / (|data| as real)
  }

  lemma {:induction false} ColumnSumSnoc(m: Matrix, j: nat, i: nat)
    requires j < |m|
    ensures ColumnSum(m[..j + 1], i) == ColumnSum(m[..j], i) + EntryOr0(m[j], i)
  {
    assert m[..j + 1][..j] == m[..j];
  }

  /** `pca`, lines computing `mean`: one entry per entry of the first row,
      each the column sum divided by the number of rows. An empty data set
      (no first row) and a row longer than the first both raise IndexError. */
  method ColumnMeans(data: Matrix) returns (r: Result<seq<real>>)
    ensures r.Err? <==> !FitsFirstRow(data)
    ensures r.Err? ==> r.error == IndexError
    ensures r.Ok? ==>
      |data| > 0 && |r.value| == |data[0]|
      && forall i :: 0 <= i < |data[0]| ==> r.value[i] == ColumnSum(data, i) / (|data| as real)
  {
    if |data| == 0 {
      return Err(IndexError);
    }
    var mean: seq<real> := [];
    var i := 0;
    while i < |data[0]|
      invariant 0 <= i <= |data[0]|
      invariant |mean| == i && forall c :: 0 <= c < i ==> mean[c] == 0.0
    {
      mean := mean + [0.0];
      i := i + 1;
    }
    assert data[..0] == [];
    var j := 0;
    while j < |data|
      invariant 0 <= j <= |data|
      invariant |mean| == |data[0]|
      invariant forall k :: 0 <= k < j ==> |data[k]| <= |data[0]|
      invariant forall c :: 0 <= c < |mean| ==> mean[c] == ColumnSum(data[..j], c)
    {
      var point := data[j];
      forall c | 0 <= c < |mean| {
        ColumnSumSnoc(data, j, c);
      }
      i := 0;
      while i < |point|
        invariant 0 <= i <= |point| && i <= |mean|
        invariant |mean| == |data[0]|
        invariant forall c :: 0 <= c < |mean| ==>
          mean[c] == (if c < i then ColumnSum(data[..j + 1], c) else ColumnSum(data[..j], c))
      {
        if i >= |mean| {
          // mean[i] is past the end of `mean`
          return Err(IndexError);
        }
        mean := mean[i := mean[i] + point[i]];
        i := i + 1;
      }
      j := j + 1;
    }
    assert data[..|data|] == data;
    var amt := |data|;
    i := 0;
    while i < |mean|
      invariant 0 <= i <= |mean| == |data[0]|
      invariant forall c :: 0 <= c < |mean| ==>
        mean[c] == (if c < i then ColumnSum(data, c) / (amt as real) else ColumnSum(data, c))
    {
      mean := mean[i := mean[i] / (amt as real)];
      i := i + 1;
    }
    r := Ok(mean);
  }

  /** `pca` up to `new_data`: the data set centered by its column means, same
      shape as the input; it raises IndexError exactly when ColumnMeans does. */
  method Center(data: Matrix) returns (r: Result<Matrix>)
    ensures r.Err? <==> !FitsFirstRow(data)
    ensures r.Err? ==> r.error == IndexError
    ensures r.Ok? ==> IsCentering(data, r.value)
  {
    var means := ColumnMeans(data);
    if means.Err? {
      return Err(means.error);
    }
    var mean := means.value;
    var newData: Matrix := [];
    var j := 0;
    while j < |data|
      invariant 0 <= j <= |data|
      invariant |newData| == j
      invariant forall k :: 0 <= k < j ==>
        && |newData[k]| == |data[k]|
        && forall c :: 0 <= c < |data[k]| ==> newData[k][c] == data[k][c] - mean[c]
    {
      var point := data[j];
      var newPoint: seq<real> := [];
      var i := 0;
      while i < |point|
        invariant 0 <= i <= |point|
        invariant |newPoint| == i && forall c :: 0 <= c < i ==> newPoint[c] == point[c] - mean[c]
      {
        newPoint := newPoint + [point[i] - mean[i]];
        i := i + 1;
      }
      newData := newData + [newPoint];
      j := j + 1;
    }
    r := Ok(newData);
  }

  /** Subtracting mu from column i of the first k rows lowers its sum by k * mu. */
  lemma {:induction false} ShiftedColumnSum(data: Matrix, nd: Matrix, i: nat, mu: real, k: nat)
    requires k <= |data| && k <= |nd|
    requires forall j :: 0 <= j < k ==> i < |data[j]| && i < |nd[j]| && nd[j][i] == data[j][i] - mu
    ensures ColumnSum(nd[..k], i) == ColumnSum(data[..k], i) - (k as real) * mu
  {
    if k > 0 {
      ShiftedColumnSum(data, nd, i, mu, k - 1);
      ColumnSumSnoc(data, k - 1, i);
      ColumnSumSnoc(nd, k - 1, i);
    }
  }

  /** Over exact reals, every column of centered rectangular data sums to
      zero (so its mean is zero), the label column included. */
  lemma {:induction false} CenteredColumnsSumToZero(data: Matrix, nd: Matrix, i: nat)
    requires Rectangular(data) && IsCentering(data, nd) && i < |data[0]|
    ensures ColumnSum(nd, i) == 0.0
  {
    var n := |data|;
    var s := ColumnSum(data, i);
    ShiftedColumnSum(data, nd, i, s / (n as real), n);
    assert data[..n] == data && nd[..n] == nd;
    assert (n as real) * (s / (n as real)) == s;
  }

  /** Centering is idempotent: centering the centered rectangular data again
      changes nothing, because its column means are already zero. */
  lemma {:induction false} CenteringTwiceChangesNothing(data: Matrix, nd: Matrix, nd2: Matrix)
    requires Rectangular(data) && IsCentering(data, nd) && IsCentering(nd, nd2)
    ensures nd2 == nd
  {
    forall j | 0 <= j < |nd| ensures nd2[j] == nd[j] {
      forall i | 0 <= i < |nd[j]| ensures nd2[j][i] == nd[j][i] {
        CenteredColumnsSumToZero(data, nd, i);
      }
    }
  }
}
