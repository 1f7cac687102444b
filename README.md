# featureranker data preparation, modelled in Dafny

This project models two table transformations from `featureranker`'s
`utils.py`.

**`sanitize_column_names(df)`** rewrites every column label in place. Each of
the six characters `[ ] < > { }` becomes `_` and every other character is
kept. It then returns the same frame.

**`get_data(df, labels, thresh, columns_to_drop)`** turns a frame into a
feature frame `X` and a label series `y`, in this fixed order:

1. select the label column;
2. drop the label and the extra columns;
3. drop every feature column with fewer than `thresh * len(df)` present cells;
4. join the label back on;
5. drop every row with a missing cell;
6. split the result again;
7. replace every text or boolean feature column by its `LabelEncoder` codes;
8. cast a nullable-boolean label to integers.

The model is organised as follows:

- `frames.dfy`: the data model.
  - A frame is a `Table`: an index and an ordered list of `Column`s.
  - Each column has a label, a dtype `Kind` and one `Option<Value>` per row. `None` is a missing cell.
  - pandas' `KeyError` is the `Err` arm of `Result`.
  - `DataFrame` is the mutable frame object that the sanitizer renames in place.
- `sanitizer.dfy`: `sanitize_column_names`. The label translation is a function. The in-place assignment of the new labels is a method on `DataFrame`.
- `encoder.dfy`: `LabelEncoder.fit_transform` on one column.
  - The code of a value is the number of distinct present values that sort before it.
  - The sort uses Python's `<` (strings by code point, `False` before `True`).
- `preparer.dfy`: `get_data`.
  - Lines 91-99 are whole-frame functions: `Select`, `Drop`, `DropSparse`, `Concat`, `DropIncompleteRows`, `SelectAll`.
  - The encoding loop of lines 101-104 is the method `EncodeCategorical`. It is proved equal to `EncodeAll`.
  - `GetData` runs the whole body and is proved equal to the specification function `GetDataSpec`.
- `preparer_properties.dfy`: what `get_data` promises, stated on `GetDataSpec`:
  - when it raises `KeyError`;
  - which columns and rows survive, and in what order;
  - that `X` and `y` stay aligned;
  - what the encoding and the label cast do to the cells.

Behaviour of the code that its wording does not suggest, and that the model
follows:

- **Label cast (line 106).** Only the pandas nullable `boolean` dtype
  (`BooleanDtype`) compares equal to `'boolean'`. A label with numpy's plain
  `bool` dtype is therefore returned unchanged, not cast to 0/1. The model
  has separate `Bool` and `NullableBool` kinds for this reason. `CastLabel`
  casts only `NullableBool`.
- **Encoding selection (lines 101-102).** `select_dtypes(include=['object',
  'string', 'bool'])` also selects `BooleanDtype` feature columns, because
  that dtype's scalar type is `bool`. `IsCategorical` therefore covers
  `Text`, `Bool` and `NullableBool`.
- **Missing labels (lines 91-93).** An absent label, or an absent column to
  drop, raises `KeyError`. The model returns `Err(KeyNotFound(...))` with the
  absent labels in request order rather than assuming them present.

## Model

| member | source | states |
|---|---|---|
| `Sanitizer.SanitizeName` | src/featureranker/utils.py:73 | the translated label has the same length, holds none of `[]<>{}`, has `_` wherever the original had one of them and the original character everywhere else |
| `Sanitizer.SanitizeNameFixedPoint` | src/featureranker/utils.py:73 | a label is left unchanged exactly when it contains none of the six characters |
| `Sanitizer.SanitizeNameIdempotent` | src/featureranker/utils.py:73 | translating a translated label changes nothing |
| `Sanitizer.SanitizeCanMergeLabels` | src/featureranker/utils.py:73 | two different labels (`a[0]`, `a_0_`) can translate to the same label, so distinct labels need not stay distinct |
| `Sanitizer.Sanitized` | src/featureranker/utils.py:72-75 | the renamed frame has the same index and the same number of columns; each keeps its position, dtype and cells, and its label becomes the translated label, of the same length and with no bracket character |
| `Sanitizer.SanitizedIdempotent` | src/featureranker/utils.py:72-75 | sanitizing a sanitized frame gives the same frame |
| `Sanitizer.SanitizedKeepsShape` | src/featureranker/utils.py:72-75 | a rectangular frame with well-typed cells stays so after renaming |
| `Sanitizer.SanitizeColumnNames` | src/featureranker/utils.py:72-75 | the frame object is updated in place to the sanitized frame, and the very same object is returned |
| `Encoder.EncodeColumn` | src/featureranker/utils.py:104 | the encoded column keeps its label and length, becomes numeric, and maps each present value to its rank among the column's distinct present values; a missing cell stays missing, a convention of the model (see Left out) |
| `Encoder.CodeInRange` | src/featureranker/utils.py:104 | a class's code is below the number of classes |
| `Encoder.CodeMonotone` | src/featureranker/utils.py:104 | a value sorting before another gets a smaller code |
| `Encoder.CodeInjective` | src/featureranker/utils.py:104 | two classes have the same code iff they are the same value |
| `Encoder.CodeOnto` | src/featureranker/utils.py:104 | every integer below the number of classes is the code of some class |
| `Encoder.EncodeColumnCodes` | src/featureranker/utils.py:104 | in an encoded column, codes lie in [0, #distinct); two rows get equal codes iff they held equal values; codes follow the value order; every code in range is used |
| `Preparer.Select` | src/featureranker/utils.py:91 | `df[labels]` succeeds iff the label names a column, returning a column of the frame with that label, and otherwise fails with `KeyError([labels])` |
| `Preparer.MissingNames` | src/featureranker/utils.py:92-93 | lists exactly the requested labels that name no column, and is never longer than the request |
| `Preparer.MissingNamesAppend` | src/featureranker/utils.py:92-93 | the absent labels of a concatenated request are those of its first part followed by those of its second, so they come in request order and with repeats |
| `Preparer.DropList` | src/featureranker/utils.py:92-93 | the labels handed to `drop` are the label plus, when given, every column to drop, and nothing else |
| `Preparer.Drop` | src/featureranker/utils.py:92-93 | `drop(columns=...)` fails with a `KeyError` naming the absent labels iff some label is absent; otherwise it keeps the index and exactly the columns not named |
| `Preparer.Keep` | src/featureranker/utils.py:92-95 | a column filter returns exactly the input columns that pass, never more columns than it was given |
| `Preparer.KeepKeep` | src/featureranker/utils.py:92-95 | filtering by one test and then another equals filtering once by both, so the two column drops compose into one filter |
| `Preparer.Dense` | src/featureranker/utils.py:94-95 | a column is dense enough when its present-cell count is at least `thresh` times the row count |
| `Preparer.DropSparse` | src/featureranker/utils.py:94-95 | `dropna(axis=1, thresh=thresh*n)` keeps the index and exactly the columns whose present count reaches `thresh * n` |
| `Preparer.Concat` | src/featureranker/utils.py:96 | `pd.concat([X, y], axis=1)` keeps the index and appends the label column after the feature columns, unchanged; a label of the frame's length keeps the frame rectangular |
| `Preparer.CompleteRows` | src/featureranker/utils.py:97 | the complete rows are in range, strictly increasing, and contain a row iff every column has a value in it |
| `Preparer.DropIncompleteRows` | src/featureranker/utils.py:97 | `dropna()` keeps every column in place, cut down to the complete rows in increasing order, with the index labels of those rows; the result is rectangular and has no missing cell |
| `Preparer.SelectAll` | src/featureranker/utils.py:98 | selecting a list of labels succeeds iff every label names a column; then it keeps the index and yields columns of the frame with exactly those labels, in that order |
| `Preparer.SelectAllPrefix` | src/featureranker/utils.py:98 | in a frame `A + [y]` with distinct labels, selecting the labels of `A` gives back `A` |
| `Preparer.ColumnStage` | src/featureranker/utils.py:92-95 | when every dropped label exists, the two column drops leave exactly the survivors, with the index unchanged |
| `Preparer.RowStage` | src/featureranker/utils.py:96-99 | after joining the survivors with the label and dropping incomplete rows, re-selecting gives the survivors and the label cut down to the complete rows |
| `Preparer.PrepareColumnsShape` | src/featureranker/utils.py:91-99 | with every label present, lines 91-99 yield the survivors and the label column at the complete rows, with distinct labels |
| `Preparer.PrepareColumnsOk` | src/featureranker/utils.py:91-99 | lines 91-99 succeed iff the label and every column to drop exist |
| `Preparer.PrepareColumns` | src/featureranker/utils.py:91-99 | when lines 91-99 succeed, the label and every column to drop were present, and the label column handed on is named by the label |
| `Preparer.EncodeAll` | src/featureranker/utils.py:100-104 | encoding keeps the index and the labels, makes every column numeric, leaves numeric columns as they were, and replaces each text or boolean column by its `EncodeColumn` codes |
| `Preparer.IsCategorical` | src/featureranker/utils.py:101-102 | the dtypes `select_dtypes(include=['object', 'string', 'bool'])` picks: text, numpy `bool` and nullable `boolean` |
| `Preparer.EncodeCategorical` | src/featureranker/utils.py:100-104 | the loop that overwrites each text or boolean column by its codes produces exactly `EncodeAll` of its input |
| `Preparer.CastToInt` | src/featureranker/utils.py:107 | `astype(int)` on a boolean series maps `True` to 1 and `False` to 0 and keeps label and length |
| `Preparer.CastLabel` | src/featureranker/utils.py:106-107 | a nullable-boolean label becomes numeric with `True` as 1 and `False` as 0; any other label is returned unchanged; name and length are kept |
| `Preparer.GetDataSpec` | src/featureranker/utils.py:90-108 | `get_data` fails exactly when lines 91-99 fail, with the same `KeyError`; on success every column of `X` is numeric and `y` is named by the label; `thresh` defaults to 0.8 and `columns_to_drop` to none |
| `Preparer.GetData` | src/featureranker/utils.py:90-108 | the method that runs the pipeline, the encoding loop and the cast returns exactly `GetDataSpec` |
| `PreparerProperties.GetDataShape` | src/featureranker/utils.py:90-108 | a successful result is the survivors at the kept rows, encoded, together with the label column at the kept rows, cast |
| `PreparerProperties.GetDataErrors` | src/featureranker/utils.py:91-93 | an absent label raises `KeyError([labels])`; otherwise absent columns to drop raise a `KeyError` naming each of them; otherwise there is a result |
| `PreparerProperties.DroppedColumnsAbsent` | src/featureranker/utils.py:92-93 | neither the label nor any column asked to be dropped is a column of `X` |
| `PreparerProperties.KeepKeepsOrder` | src/featureranker/utils.py:92-98 | columns a filter keeps stay in their original relative order |
| `PreparerProperties.SurvivorsMeaning` | src/featureranker/utils.py:92-95 | a column survives iff it is not the label, not asked to be dropped, and has at least `thresh` times the original row count of present cells; survivors keep their order |
| `PreparerProperties.SurvivingColumns` | src/featureranker/utils.py:92-98 | the same two facts about the labels of `X` itself |
| `PreparerProperties.RowsMeaning` | src/featureranker/utils.py:96-97 | a row is kept iff it has a label and a value in every surviving feature; kept rows are increasing |
| `PreparerProperties.KeptRowsExactly` | src/featureranker/utils.py:95-99 | `X`'s index is the original index at the kept rows, which are increasing and are exactly the rows complete in the survivors and the label |
| `PreparerProperties.RowMissingOnlyInDroppedColumnsKept` | src/featureranker/utils.py:94-97 | a row whose only missing cells are in dropped or too-sparse feature columns is kept, because the column drop runs before the row drop |
| `PreparerProperties.OutputParts` | src/featureranker/utils.py:96-107 | for any survivors and label, the kept rows index both, every survivor and the label have a value at each kept row, and after encoding and cast `X` and `y` have one present cell per kept row in every column |
| `PreparerProperties.OutputAligned` | src/featureranker/utils.py:96-107 | `X` and `y` have one row per kept row, `X` one column per survivor, and neither has a missing cell; every survivor and the label have a value at every kept row; `y` is the label column cut down to the kept rows and then cast, and keeps the label's name |
| `PreparerProperties.EncodedParts` | src/featureranker/utils.py:100-104 | each survivor at the kept rows is left as is when numeric and is encoded otherwise, and every resulting column is numeric |
| `PreparerProperties.EncodedColumn` | src/featureranker/utils.py:104 | encoding a column at rows where it has values gives in-range codes, equal codes exactly for equal original values, and uses every code in range |
| `PreparerProperties.FeaturesEncoded` | src/featureranker/utils.py:100-105 | every column of `X` is numeric; a numeric survivor is its original cells at the kept rows; a text or boolean survivor is those cells encoded |
| `PreparerProperties.FeatureCodes` | src/featureranker/utils.py:100-105 | in a text or boolean column of `X`, codes lie in [0, #distinct kept values), two rows share a code iff they held the same original value, and every code in range occurs |
| `PreparerProperties.LabelParts` | src/featureranker/utils.py:106-107 | a nullable-boolean label at the kept rows becomes 0/1 integers (`True` as 1); any other label is returned as is |
| `PreparerProperties.LabelConverted` | src/featureranker/utils.py:106-107 | the same two facts about the `y` that `get_data` returns |

## Left out

- `model_params`, the two hyper-parameter searches, `spearman_scoring_function`, `elastic_net_regression_ranking` and `view_data` are not part of this model.
  - They are estimator configuration, delegation to scikit-learn, SciPy and plotting code, or console output that depends on float rounding.
- Floating point: `thresh * len(df)` is computed exactly over `real`. The rounding of a Python float product is not modelled.
- Duplicate column labels are excluded.
  - `GetData` and the lemmas about it require distinct labels (`WellFormed`).
  - With duplicates, pandas' `df[label]` returns a frame, not a series.
- `labels` is one label. A list of labels always raises in the source, and that is not modelled.
  - With `columns_to_drop=None`, line 106 reads `.dtype` of a DataFrame, which raises `AttributeError`.
  - Otherwise line 93 nests the list inside the drop list, and `drop` fails.
- Only string column labels are modelled. A non-string label makes `col.translate` raise, and that error is not modelled.
- Columns are typed: every present cell fits its column's kind.
  - A mixed-type `object` column, on which `LabelEncoder` would raise `TypeError`, is not modelled.
  - An integer column with a missing cell is `float64` in pandas, so its kept cells reach `X` as floats; the model keeps them as `IntV` cells.
  - NaN inside a numpy `bool` column is not modelled either.
- `LabelEncoder` is modelled by its documented result, the rank of each value among the sorted distinct values, not by its `np.unique`-based implementation.
  - The order between values of different types never matters, because a column holds one type.
- An empty `X` or `y` is returned as an empty table or column. No pandas or scikit-learn behaviour on empty inputs is modelled beyond that.
- `Encoder.EncodeColumn`: a missing cell stays missing. sklearn's `LabelEncoder` instead gives NaN or `None` a code after every present class, or raises `TypeError` on `pd.NA` in a text column. `get_data` never reaches that case, because the row drop at line 97 runs before the encoding and `PreparerProperties.OutputAligned` shows every kept cell is present.
- `Preparer.CastToInt`: a missing cell stays missing, whereas pandas' `astype(int)` raises `ValueError` on `<NA>`. `get_data` never reaches that case, because the row drop at line 97 runs first and `PreparerProperties.LabelConverted` shows every kept label cell is present.
- `Preparer.SelectAll`: its error case carries only the first absent label rather than pandas' full message. After a successful drop, lines 98-99 never fail.
- `get_data` builds new frames and does not mutate `df`, so it is modelled on `Table` values.
  - Only `sanitize_column_names` updates the frame object in place.
  - Aliasing between the renamed frame and other references to its column index is not modelled.
