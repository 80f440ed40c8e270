# process_data, modelled in Dafny

This project models `process_data` in `src/data.py`. That routine turns a census table into the numeric matrix the classifier is trained on, and it does the same at inference time. Given a table, the list of categorical feature names, an optional label name, a mode flag, and (in inference mode) a fitted encoder and label binarizer, it works as follows:

1. It copies the table and splits off the label column.
2. It strips whitespace from the column names and from the cells of the text (object) columns.
3. It turns `"?"` into a missing value.
4. It fills the gaps of every categorical column with its first mode, or with `"Unknown"`.
5. It fits a one-hot encoder and a label binarizer (training mode), or uses the ones it is given (inference mode).
6. It returns the non-categorical columns followed by the one-hot blocks, together with the binarized labels, the encoder and the binarizer.

The model has two layers:

- **Specification, module `Data`.** A function per stage:
  - `SplitLabel`, `Clean`, `Impute` and `Prepare` for lines 22-46;
  - `Train` for training mode and `Infer` for inference mode;
  - `Process`, the whole routine.

  Each function is stated cell by cell. Errors the libraries raise are values of `Data.Error`.
- **Implementation, module `ProcessData`.** A method that works the way the source does:
  - `ProcessData.ProcessData` copies the caller's rows into a fresh `array<Row>`;
  - it rewrites that array column by column, with a loop over the object columns and a loop over the categorical features;
  - it is proved to return exactly `Data.Process`. It has no `modifies` clause, so the caller's rows are provably left unchanged.

The other modules:

- `Strings`: Python's `str.strip()`.
- `Cells`:
  - the cell type (`Str`, `Num`, `Missing`);
  - an order on cells: integers numerically and strings by code point, as the libraries sort values of one kind;
  - `Series.mode()`.
- `Encoders`: the fitted `OneHotEncoder(handle_unknown="ignore", sparse_output=False)` and `LabelBinarizer()`, each reduced to the categories or classes recorded at fit time.
- `Properties`: what the routine promises, proved over `Data`.

Cells are strings, integers or missing; numeric columns are integer columns. A column counts as of object dtype when it holds at least one string. `X[col].str.strip()` on such a column turns every non-string cell into a missing value, as the library does. The fitted categories and classes are the distinct values in ascending order. Integers sort numerically and strings by code point. Between kinds the model puts integers before strings and missing cells last. The encoder and the binarizer refuse mixed values, and the mode is never taken of a mixed column, so the model never compares cells of two kinds either. A cleaned categorical column holds no integer when it holds a string, imputation fills it with one of its own values or `"Unknown"`, and `ValidLabels` refuses mixed labels.

`LabelBinarizer.transform` gives one row per label. It uses the one-hot form over the classes when the binarizer knows three or more classes, or when the labels being transformed hold three or more distinct values (`Encoders.Multiclass`). Otherwise it gives one 0/1 entry per label, and the entry is 1 exactly for the second of two classes.

Error cases, in the order the source meets them. The first row is the exception: it is the model's own refusal of repeated column names, made before any error the source raises (see "## Left out").

| error | when |
|---|---|
| `DuplicateColumns` | two columns share a name |
| `LabelNotFound` | `X[label]` on a missing column |
| `DuplicateColumns` | two of the names left after the label split coincide once stripped (line 31) |
| `NoEncoder` | inference without an encoder (`encoder.transform` is evaluated before `X[...]`) |
| `ColumnNotFound` | `X[categorical_features]` on a missing column |
| `FeatureMismatch` | inference with an encoder fitted on other feature names |
| `NoSamples` | a table with no rows and at least one categorical feature: the encoder can be neither fitted (line 50) nor applied (line 54) |
| `NoBinarizer` | inference with a label but no binarizer |
| `EmptyLabels` | training without labels, or the binarizer fitted (line 52) or applied (line 55) on no labels |
| `InvalidLabels` | missing labels, or string and integer labels mixed |

## Model

| member | source | states |
|---|---|---|
| `ProcessData.ProcessData` | src/data.py:7-59 | The method returns exactly `Data.Process` of the caller's table, result or error. It has no `modifies` clause, so the caller's rows are never changed (the copy of line 22). |
| `ProcessData.CleanAndImpute` | src/data.py:22-46 | Copying, label split, stripping, `"?"` replacement and imputation on the array together compute `Data.Prepare` of the caller's table. |
| `ProcessData.CopyRows` | src/data.py:22 | `X.copy()`: a fresh array holding the same rows. |
| `ProcessData.SplitLabelInPlace` | src/data.py:24-28 | Taking the label column out of every row of the array gives exactly `Data.SplitLabel`, and the array then holds the remaining rows. When the label is not a column, the array is left as it was. |
| `ProcessData.StripObjectColumns` | src/data.py:32-33 | The loop over the columns that held a string before the loop starts strips each of them. The array then equals `StripRows` of the old rows. The loop invariant ties the array to `StripUpTo` of the columns handled so far. |
| `ProcessData.StripColumnInPlace` | src/data.py:33 | `X[col] = X[col].str.strip()` for one column, all other cells unchanged. |
| `ProcessData.StripUpToStep` | src/data.py:32-33 | One turn of the stripping loop strips column `j` if, and only if, it is an object column. |
| `ProcessData.StripUpToAll` | src/data.py:32-33 | After the last turn every object column, and no other, is stripped. |
| `ProcessData.ReplaceInPlace` | src/data.py:36 | `X.replace("?", np.nan)` on every row of the array. |
| `ProcessData.CleanIsStripThenReplace` | src/data.py:32-36 | Stripping and then replacing `"?"` is the cell-by-cell cleaning `Data.CleanRows`. |
| `ProcessData.ImputeCategorical` | src/data.py:37-46 | The loop over the categorical features leaves the array equal to `Data.Impute` of the cleaned rows. Its invariant: the array is `Impute` for the features handled so far. |
| `ProcessData.FillColumnInPlace` | src/data.py:42 | `fillna(v)` for one column: its missing cells become `v`, and nothing else changes. |
| `ProcessData.ImputeStepFills` | src/data.py:38-46 | A turn for a present column with a gap fills exactly that column's gaps, using the fill value of the column as it stands. |
| `ProcessData.ImputeStepKeeps` | src/data.py:38 | A turn for an absent column, or a column without gaps, changes nothing. |
| `ProcessData.GapMeansUntouched` | src/data.py:38 | A column that still has a gap has not been filled by an earlier turn, so its mode is taken over the cleaned column. |
| `Strings.Strip` | src/data.py:31-33 | `str.strip()`: the result has no leading or trailing whitespace (Python's `isspace` set) and is no longer than the input. |
| `Strings.StripIsInfix` | src/data.py:31-33 | Strip removes only whitespace. The result is the contiguous part of the input after the leading whitespace, and everything cut off on either side is whitespace. |
| `Strings.StripStrippedIsIdentity` | src/data.py:31-33 | A string without surrounding whitespace is unchanged. |
| `Strings.StripIdempotent` | src/data.py:31-33 | Stripping twice equals stripping once. |
| `Cells.SortedDistinct` | src/data.py:49-51 | The categories or classes recorded by fitting are strictly ascending and are exactly the values seen. |
| `Cells.Modes` | src/data.py:40-41 | `mode()`: strictly ascending; holds exactly the most frequent non-missing values; empty exactly when the column has no non-missing value. |
| `Cells.FirstModeIsLeast` | src/data.py:42 | `mode_val[0]` is a most frequent value and the least of the values tied with it. |
| `Encoders.FitFeature` | src/data.py:49-50 | A fitted feature keeps its name, and its categories are the column's distinct values, ascending. |
| `Encoders.EncodeRowBlock` | src/data.py:50 | In the encoder's output row, feature `k`'s block starts at the sum of the earlier features' category counts and is the one-hot block of that feature's value. |
| `Encoders.FitBinarizer` | src/data.py:51-52 | The binarizer's classes are the distinct labels, ascending. |
| `Encoders.Binarize` | src/data.py:52-55 | `transform(...).ravel()`: in the binary form one entry per label, 1 exactly for the second of two classes. In the multiclass form `n` entries per label. |
| `Encoders.BinarizeBinary` | src/data.py:52 | In the binary form, `y` has one entry per label: 1 exactly for the second of two classes, and 0 with a single class. |
| `Encoders.BinarizeMulticlass` | src/data.py:52 | In the multiclass form, label `i` becomes its one-hot row over the classes, at columns `i*n` to `(i+1)*n` of the flattened `y`. |
| `Encoders.BinarizeLength` | src/data.py:52 | In the multiclass form, `y` holds `n` entries per label. |
| `Encoders.BinarizeRow` | src/data.py:52 | As a multiclass target, the flattened output of the transform has `n` entries per label and holds label `i`'s one-hot row at columns `i*n` to `i*n+n`. |
| `Properties.EmptyLabelIsNoLabel` | src/data.py:24 | `if label:` — for every table, mode and pair of transformers, the routine given the empty label name returns exactly what it returns with no label. |
| `Data.IndexOf` | src/data.py:25-26 | The lookup fails exactly when the name is not a column. Otherwise it gives the first position holding that name. |
| `Data.SplitLabel` | src/data.py:24-28 | The label split keeps the row count and rectangular rows. Its labels have one cell per row. Distinct names stay distinct once the label is removed. |
| `Data.Clean` | src/data.py:22-36 | Cleaning keeps the row count. It yields distinct column names and one label per row. |
| `Properties.LabelGoneBeforeNamesCompared` | src/data.py:24-31 | The stripped names are compared only after the label is dropped under its unstripped name: beside the label `"y"`, a column `" y"` becomes the feature `"y"`, and the table is accepted. |
| `Data.FillValue` | src/data.py:40-46 | The value that fills a gap is never missing. |
| `Data.FirstAbsent` | src/data.py:50 | `X[categorical_features]` fails exactly when some categorical feature is not a column, and it names such a feature. |
| `Data.FitEncoder` | src/data.py:49-50 | The fitted encoder has one feature per categorical feature, in order, with ascending categories. |
| `Data.KeptFromIsAscendingNonCategorical` | src/data.py:57 | `X.drop(columns=categorical_features)` keeps exactly the non-categorical columns, in ascending order. |
| `Data.Prepare` | src/data.py:22-46 | Preparing keeps the row count. It yields distinct column names and one label per row. |
| `Data.Train` | src/data.py:48-52 | Training that succeeds returns an encoder and a binarizer. The encoder is fitted on exactly the categorical features, in order, with ascending categories; the binarizer's classes are strictly ascending. |
| `Properties.LabelIsSplitOff` | src/data.py:24-31 | When cleaning with a non-empty label that names a column succeeds, that column is removed: its cells, top to bottom, become the labels, and the other names, stripped, are the features. When no two names coincide once stripped, cleaning succeeds and the label's stripped name is not a feature name. |
| `Properties.NoLabelNoTargets` | src/data.py:27-28 | Without a label, cleaning gives no labels. Inference then returns an empty `y` (line 55 leaves it as it is). |
| `Properties.TrainingNeedsLabels` | src/data.py:51-52 | Training succeeds only with a label and at least one row. |
| `Properties.NoRowsStopAtEncoder` | src/data.py:48-54 | With no rows and at least one categorical feature, training and inference (with a matching encoder) both fail at the encoder, with `NoSamples`, before the binarizer is reached. |
| `Properties.CleanedNamesStripped` | src/data.py:31 | Every cleaned column name has no leading or trailing whitespace. |
| `Properties.CleanCellString` | src/data.py:33-36 | A cleaned string cell is stripped and is not `"?"`. |
| `Properties.QuestionMarkAfterStrip` | src/data.py:33-36 | Stripping comes before the replacement. A string of an object column becomes missing if, and only if, it is `"?"` once stripped. |
| `Properties.SpacedQuestionMarkIsMissing` | src/data.py:33-36 | The cell `" ? "` of an object column becomes missing. |
| `Properties.CleanedCells` | src/data.py:31-36 | Every cleaned string cell is stripped and is not `"?"`. An object column holds only strings and missing cells. Any other column is unchanged. |
| `Data.Impute` | src/data.py:37-46 | Imputation keeps the row count and the width. Afterwards no categorical column has a missing cell. Every cell of a non-categorical column, and every non-missing cell, is unchanged. |
| `Properties.ImputeFillsWithFirstMode` | src/data.py:37-46 | A gap gets a most frequent non-missing value of its column, the least among ties. A column with no non-missing value gets `"Unknown"`. |
| `Properties.ImputationExample` | tests/test_model.py:94-102 | On the feature columns of the imputation test's table (its label column already split off), the `"?"` of `col1` becomes a gap that is filled with `"A"`, the most frequent value. |
| `Properties.ExampleCleaned` | tests/test_model.py:94-102 | The example's table after cleaning: `"?"` becomes missing, and the other cells are unchanged. |
| `Properties.ExampleImputed` | tests/test_model.py:94-102 | The example gap of a categorical column is filled with the column's fill value, and the non-categorical cell is kept. |
| `Properties.ExampleMode` | tests/test_model.py:96 | The fill value of `['A', 'B', missing, 'A']` is `'A'`. |
| `Properties.ExampleNames` | tests/test_model.py:95-98 | The example's column names are unchanged by stripping. |
| `Properties.PassthroughLayout` | src/data.py:57-58 | An output row has the kept row width plus the encoder width. It starts with the kept columns of the row, in their original order. |
| `Properties.EncodeRecordBlock` | src/data.py:50-58 | In an output row, feature `k`'s block follows the kept columns and the earlier blocks. It holds the one-hot entries of the row's value for that feature. |
| `Properties.CellsAfterPrefix` | src/data.py:58 | Concatenating with the kept columns shifts every encoder block by the number of kept columns, and turns its entries into cells. |
| `Properties.EncodeRecordLayout` | src/data.py:57-58 | The full layout of one output row: width = kept columns + total categories; kept columns first, in order; then every feature's one-hot block at its offset. |
| `Data.Encode` | src/data.py:57-58 | The output matrix has one row per prepared row. Each row is as wide as the kept columns plus the encoder's total category count. |
| `Data.Process` | src/data.py:7-59 | A successful run has one output row per input row, in both modes. Training returns an encoder and a binarizer. Inference returns exactly the encoder and the binarizer it was given. |
| `Properties.TrainEncodes` | src/data.py:49-50 | Training encodes the prepared rows with the encoder it fits and returns. |
| `Properties.InferEncodes` | src/data.py:54 | Inference encodes the prepared rows with the encoder it is given. |
| `Properties.OutputWidth` | src/data.py:57-58 | Every output row is as wide as the kept columns plus the encoder's total category count. |
| `Properties.OneHotBlock` | src/data.py:49-54 | With distinct categories, a value that is a category gets exactly one 1, and any other value gets all zeros. |
| `Properties.Block` | src/data.py:50-54 | Feature `k`'s block of output row `i` holds the one-hot entries of that row's value for the feature. |
| `Properties.TrainingBlocksHaveOneOne` | src/data.py:49-50 | In training, each feature's categories are exactly the values of its imputed column, in ascending order. Every output row therefore has exactly one 1 in every feature block. |
| `Properties.InferenceBlocks` | src/data.py:54 | In inference the given encoder is used unchanged. A value it never saw encodes to zeros, and a known value of a fitted encoder encodes to exactly one 1. |
| `Data.Infer` | src/data.py:53-55 | Inference that succeeds had an encoder fitted on exactly the categorical features, each of them a column. It returns that encoder and the binarizer it was given, unchanged. `x` is the prepared rows encoded with that encoder. Without a label `y` is empty. With a label there is a binarizer and the labels are non-empty and valid, and `y` is them transformed by it. |
| `Properties.InferenceLabelsBinary` | src/data.py:55 | In the binary form, inference gives one 0/1 entry per label: 1 exactly for the second of the given binarizer's two classes. |
| `Properties.InferenceLabelsMulticlass` | src/data.py:55 | In the multiclass form, inference gives label `i` its one-hot row over the given binarizer's classes, at columns `i*n` to `(i+1)*n` of `y`. |
| `Properties.TrainingBinarizer` | src/data.py:51-52 | Training fits the binarizer on the non-empty, valid labels (classes = the distinct labels, ascending), and `y` is those labels transformed. |
| `Properties.TrainingLabelsBinary` | src/data.py:51-52 | With at most two classes, training gives one 0/1 entry per label: 1 exactly for the second class. |
| `Properties.TrainingLabelsMulticlass` | src/data.py:51-52 | With three or more classes, training gives each label's one-hot row over the classes, in order. |
| `Properties.TrainThenInferAgree` | src/data.py:48-55 | Inference on the prepared training table, with the transformers training returned, repeats training's output exactly. |
| `Properties.ProcessTrainThenInfer` | src/data.py:48-58 | The same agreement for the whole routine. |
| `Properties.InferenceWidthMatchesTraining` | src/data.py:54-58 | Rows encoded in inference, with the trained encoder and the same prepared columns, are exactly as wide as the training rows. |

## Left out

- `load_data` (src/data.py:61-66) is CSV file reading, I/O outside the model.
- The model, metrics and persistence helpers (src/model.py), the HTTP layer (api/main.py), the slice report (slice_performance.py), the training script (train_model.py) and the network client (live_post.py) are not part of this model. They are glue around library calls, file I/O and floating point.
- The library's dtypes are left out. Numeric cells are integers, floating-point values and `NaN` in numeric columns are not modelled, and "missing" is a cell of its own. Integers are unbounded: the library's 64-bit storage and the float output matrix are not modelled.
- Repeated column names are refused as `DuplicateColumns`, both among the names as given and among the names left after the label split once stripped. The library accepts some such tables. It accepts repeats among numeric, non-categorical columns: lines 32-50 never look those up by name, and `drop(columns=…).values` keeps both copies. A repeated label name makes `X[label]` a sub-table, and both copies are dropped. These cases are not modelled.
- The encoder's and the binarizer's refusal of a column that mixes strings and integers is not modelled. `Cells.Rank` orders such cells (integers, then strings, then missing) instead. Fitting and mode-taking never meet a mixed column: a cleaned object column turns its non-strings into missing cells, and `ValidLabels` refuses mixed labels.
- The library's checks on labels are reduced to `ValidLabels`: no missing label, and strings and integers not mixed.
- An empty list of categorical features (the encoder fitted on zero columns) is modelled as an encoder with no features. Likewise, a binarizer with no classes is modelled by `Encoders.Binarizer` as it stands. The library's own errors in these corner cases are not modelled. Neither is its handling of a table with no rows when there is no categorical feature, beyond the binarizer's `EmptyLabels`.
- Python's default argument value `categorical_features=[]` and the `encoder`/`lb` defaults are parameters of `Data.Process`, without defaults.
- `LabelBinarizer` outputs other than its default 0/1 labels, and sparse output, are not used by the routine and are not modelled.
- After the in-place preparation, `ProcessData.ProcessData` computes the encoding and the label binarization with the functions of `Encoders` and `Data`, not as loops. In the source these are single library calls (`fit_transform`, `transform`, `np.concatenate`) with no loop of their own.
