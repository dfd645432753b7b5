# A verified model of the hand-written parts of the hw4 PCA pipeline

`hw4/hw4.py` loads a labelled CSV data set with `read_data`. It then
computes principal components with `pca`. This project models, in Dafny,
the parts of those two functions written by hand:

- **Line splitting in `read_data`.** For each line, the position of the last
  comma is found. A character loop then cuts the text before that comma into
  fields, and each field goes to `float()`. Last come the final field and the
  label (the text between the last comma and the line's final character).
  Each row is appended to the data set, and the row under construction is
  then emptied.
- **Zero-centering in `pca`.** Column sums are accumulated into `mean` and
  divided by the number of rows. `new_data` is formed by subtracting the
  means.
- **The hand-written transpose that feeds the covariance.** One list is
  seeded per entry of the first row. Every later row's entries are appended
  to the list of their column.
- **Component selection.** The eigenvalues are copied and sorted in
  descending order. For each of the first `n_components` sorted values,
  `list_v.index(value)` picks an eigenvector column of `U`.

The modules are:

- `Errors` (`errors.dfy`): `Option`, `Result`, and the two Python
  exceptions the code can raise. `ValueError` comes from `float()`.
  `IndexError` comes from indexing past the end of a list.
- `Matrices` (`matrices.dfy`): tables as `seq<seq<real>>`, and the shape
  predicates `FitsFirstRow` and `Rectangular`.
- `ReadData` (`read_data.dfy`): the file's lines are the input.
  `float()` is a parameter `toReal: string -> Option<real>`, where `None`
  means `float()` raises. The specification function `Fields(line)` gives
  the strings `read_data` hands to `float()`, in call order.
  - `ParseInto` is the character loop, proved against `Fields`.
  - `ReadDataSet` is the loop over the lines.
  - The splitter `Split` has an inverse, `Join`, and is proved to round-trip
    with it in both directions.
- `Centering` (`centering.dfy`): the mean loops, with their `IndexError`
  paths, and the centering loop. Both are proved against `ColumnSum`. The
  centered columns sum to zero, and centering a second time changes
  nothing.
- `Transposition` (`transposition.dfy`): the transpose loops are proved
  against the function `Transposed`. For rectangular tables this function
  swaps the indices and is its own inverse.
- `Selection` (`selection.dfy`):
  - `list.sort(reverse=True)` is an insertion sort, proved to be a
    non-increasing permutation.
  - `list.index` finds the first occurrence.
  - `ChooseComponents` is the selection as written.
  - `ChooseDistinctComponents` is the corrected selection: a position found
    by `index` is struck out, so it cannot be found again.

Facts about the code that the model keeps:

- **The label column.** `pca` centers and transposes every column, the label
  column included.
- **Ragged rows.** Rows shorter than the first are accepted. A row longer
  than the first raises `IndexError`, both in the mean loop and in the
  transpose.
- **Short lines.** A line with no comma is rejected only because `float('')`
  raises. Nothing counts the fields of a line.

## Model

| member | source | states |
|---|---|---|
| ReadData.RFindComma | hw4/hw4.py:29 | The result is -1 or the position of a comma, and no comma follows it. So it is -1 exactly when the line has no comma. |
| ReadData.CutStep | hw4/hw4.py:32-38 | One loop step: a comma moves the pending field into the cut fields and starts an empty one. Any other character is appended to the pending field. |
| ReadData.PendingExtend | hw4/hw4.py:32-35 | Reading comma-free characters cuts no field. They are appended to the pending field. |
| ReadData.SplitExtend | hw4/hw4.py:32-35 | Splitting a text extended by comma-free characters extends only its last field. |
| ReadData.JoinSplit | hw4/hw4.py:31-40 | Joining the loop's fields with commas gives back the text, and no field holds a comma. |
| ReadData.SplitJoin | hw4/hw4.py:31-40 | Splitting comma-free fields joined with commas gives back exactly those fields. |
| ReadData.SplitLength | hw4/hw4.py:31-40 | The loop produces one field more than the text has commas. |
| ReadData.ConvertAllMeaning | hw4/hw4.py:37-41 | Converting succeeds exactly when `float()` accepts every field, each value coming from its own field in order. Otherwise the error is `ValueError` of the first rejected field, and all earlier fields were accepted. |
| ReadData.ParseInto | hw4/hw4.py:29-41 | The line loop appends to the row exactly the values `ParseLine` gives. It fails exactly when `ParseLine` does, with the same error. |
| ReadData.FinishRow | hw4/hw4.py:40-41 | Converting the pending field and then the label completes the line as `ParseLine` does, on both the value path and the error path. |
| ReadData.ReadDataSet | hw4/hw4.py:27-44 | The read succeeds exactly when every line parses. On success there is one row per line, in line order, each equal to that line's own parse. This holds because the row is emptied after each append. On failure the error is the first failing line's, and every earlier line parsed. |
| ReadData.LastComma | hw4/hw4.py:29-41 | A line with a comma is its feature text, the last comma, and a comma-free tail. It has one comma more than its feature text. |
| ReadData.FieldsJoin | hw4/hw4.py:29-41 | For a line with a comma, the fields are comma-free, and they number two more than the feature text's commas. Joined with commas, they give the feature text, a comma and the label text. |
| ReadData.FieldsOfLine | hw4/hw4.py:29-41 | The strings handed to `float()` number one more than the line's commas and hold no comma. Joined with commas and followed by the final character they give back the line. If the final character is the last comma, the label text is empty. |
| ReadData.LineWithoutCommaFails | hw4/hw4.py:29-40 | If `float('')` raises, a line without a comma fails with that `ValueError`. |
| ReadData.ParsedRow | hw4/hw4.py:29-44 | An accepted line has a comma and does not end with it. Its row holds one value per comma-separated field of the line without its final character, each converted from that field. The last value is the label. |
| Centering.ColumnMeans | hw4/hw4.py:68-78 | The means exist exactly when there is a first row and no row is longer. In that case there is one mean per entry of the first row, each the column sum divided by the row count. Otherwise the result is `IndexError`. |
| Centering.Center | hw4/hw4.py:68-86 | Same failure condition as the means. On success, the table has the input's shape, and every entry has its column mean subtracted. The label column is included. |
| Centering.ShiftedColumnSum | hw4/hw4.py:81-86 | Subtracting a constant from a column of k rows lowers the column sum by k times the constant. |
| Centering.CenteredColumnsSumToZero | hw4/hw4.py:67-86 | Every column of centered rectangular data sums to zero. |
| Centering.CenteringTwiceChangesNothing | hw4/hw4.py:67-86 | Centering the centered data again gives it back unchanged, so centering is idempotent. |
| Transposition.ColumnOfFullRows | hw4/hw4.py:96-98 | If every row has entry i, column i holds m[j][i] at position j for every row. |
| Transposition.TransposedOfRectangular | hw4/hw4.py:90-98 | For a rectangular table, the transpose has one list per column, each as long as the number of rows, and swaps the indices. |
| Transposition.TransposeTwice | hw4/hw4.py:90-98 | Transposing a rectangular table with at least one column twice gives it back. |
| Transposition.Transpose | hw4/hw4.py:90-98 | The loops fail with `IndexError` exactly when the table is empty or has a row longer than the first. On success they build `Transposed`, whose entry [i][j] is the input's entry [j][i] for rectangular input. |
| Selection.InsertKeepsNonIncreasing | hw4/hw4.py:113 | Inserting into a non-increasing list keeps it non-increasing. |
| Selection.SortDescending | hw4/hw4.py:113 | The sorted list has the same length and the same multiset of values, and it is non-increasing. |
| Selection.IndexOf | hw4/hw4.py:119 | There is a result exactly when the value occurs. The result is the value's first position. |
| Selection.PickComponents | hw4/hw4.py:118-120 | Fails with `IndexError` exactly when n exceeds the number of sorted values. Otherwise it makes max(n, 0) picks. Pick i is the first position of sorted value i, and the list appended holds, row by row, the entries of U in that column. |
| Selection.FoundPositionsDescend | hw4/hw4.py:113-119 | The positions `index` finds hold the sorted eigenvalues, so the chosen eigenvalues never increase. |
| Selection.ChooseComponents | hw4/hw4.py:109-120 | `IndexError` exactly when n exceeds the number of eigenvalues. Otherwise it makes max(n, 0) picks. Pick i is the first position of the i-th largest eigenvalue and holds that eigenvalue. The chosen eigenvalues never increase. The list appended for pick i holds U[row][loc] for every row, with loc the chosen position. |
| Selection.LaterEqualPositionNeverChosen | hw4/hw4.py:119 | A position holding the same eigenvalue as an earlier position is never returned by `index`, for any sorted eigenvalue. So only the first position of a repeated eigenvalue can be chosen. |
| Selection.RepeatedEigenvalueChosenTwice | hw4/hw4.py:118-120 | With eigenvalues [1.0, 1.0], both picks are position 0. |
| Selection.PresentStrike | hw4/hw4.py:119 | Striking out a slot removes its eigenvalue, once, from those still available. |
| Selection.PickStateStep | hw4/hw4.py:118-120 | One round of the corrected loop keeps this state: the chosen positions are distinct and each is the first unused one holding its value, and the slots still available hold exactly the sorted values not yet picked. |
| Selection.PickDistinctComponents | hw4/hw4.py:118-120 | The corrected loop has the same failure condition as the original. Its picks are distinct. Pick i holds sorted value i, and every earlier position holding that value was picked before. The list appended for pick i holds U[row][loc] for every row, with loc the chosen position. |
| Selection.ChooseDistinctComponents | hw4/hw4.py:109-120 | The corrected selection fails as `ChooseComponents` does. Otherwise it makes max(n, 0) distinct picks. Pick i holds the i-th largest eigenvalue, so the eigenvalues never increase. Equal eigenvalues are picked in increasing position order. The lists appended are the columns of U at the chosen positions, entry by entry. |
| Selection.DistinctEigenvaluesAgree | hw4/hw4.py:119 | With pairwise distinct eigenvalues, `index` returns the unique position holding each sorted eigenvalue. So the selection as written and the corrected one choose the same positions. |

## Left out

- Opening and reading the file (lines 24-25): `ReadDataSet` takes the file's lines as its input.
- `float()`: it is the parameter `toReal`. It is not modelled further, except that `float('')` raises, which is a precondition of the lemmas that rely on it.
- `np.cov`, `np.linalg.eig` and the closing `np.transpose(PC)`: these are foreign numeric routines. The eigenvalues and eigenvectors are inputs to the selection.
- `dim_reduction` and the plotting and scipy imports: outside the hand-written core.
- Floating point: values are exact reals, so rounding in the means and in centering is not modelled. The zero-sum and idempotence properties hold only over exact reals.
- Complex eigenvalues and NaN, which `np.linalg.eig` can produce, are not represented.
- `n_components is None`, documented as keeping every component, is not handled by the code and is not modelled. `n_components` is an integer.
- List aliasing: lists are values. The row `data_point` is reset to a new empty list, which the model states with a loop invariant.

## Findings

| source | as written | input that shows it | evidently intended | confidence | as-written member | corrected member |
|---|---|---|---|---|---|---|
| hw4/hw4.py:118-120 | Each pick locates the sorted eigenvalue with `list_v.index`, which always returns its first position. Equal eigenvalues therefore select the same eigenvector repeatedly, and the other eigenvectors of that eigenvalue are never chosen (`Selection.LaterEqualPositionNeverChosen`). | eigenvalues [1.0, 1.0] with n_components = 2: both picks are position 0 | Each position is chosen at most once. Equal eigenvalues are taken in increasing position order, a stable descending sort by eigenvalue. | not executed | Selection.RepeatedEigenvalueChosenTwice | Selection.ChooseDistinctComponents |
