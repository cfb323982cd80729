# Preprocessing core of housing_price_forecasting, in Dafny

This project models the four preprocessing classes of the housing-price
forecasting pipeline. Each class holds a pandas DataFrame in its `data` field:

- `DataCleaner` copies the input, drops columns by name or by their share of
  missing cells, and imputes columns from a column-to-strategy map.
- `DataImputation` fills one column of the caller's own frame with its
  median, mean or mode.
- `DataEncoder` replaces a column by one-hot indicator columns or by label
  codes, and rescales a numeric column. It records the fitted encoders and
  scalers by column name. An absent column, an unknown method or an exception
  inside sklearn leaves the table as it was.
- `OutlierDetector` flags rows by a z-score rule, by an IQR rule or by a
  fitted sklearn model (isolation forest, elliptic envelope), and re-binds
  `data` to the rows that are kept.

The DataFrame is a `Table`: uniquely named columns over one list of row
labels. Each column is numeric or categorical and holds a sequence of
optional cells (`None` is pandas' missing marker). A `DataFrame` class wraps
the table, so the model shows which classes share the caller's object:

- `DataImputation` and `DataEncoder` change the caller's table.
- `DataCleaner` works on a fresh copy.
- `OutlierDetector` replaces its own reference and leaves the caller's frame alone.

Numbers are exact reals. Mean, median, mode, sample variance and min-max
scaling are written out over them.

Files: `frame.dfy` (`Frames`: the table and its primitives), `stats.dfy`
(`Stats`: column statistics), `imputation.dfy`, `cleaner.dfy`, `encoder.dfy`,
`outlier_detector.dfy`.

## Model

| member | source | states |
|---|---|---|
| Frames.Without | src/preprocessing/cleaner.py:35 | dropping columns keeps exactly the columns whose name is not dropped, never more than before |
| Frames.WithoutOrder | src/preprocessing/cleaner.py:49-52 | the columns left after a drop are a subsequence of the original columns, in their original order |
| Frames.WithoutValid | src/preprocessing/cleaner.py:51 | dropping columns keeps every row and keeps the table well formed |
| Frames.Assign | src/preprocessing/encoder.py:47-53 | `df[name] = values`: an existing column of that name is overwritten where it stands, otherwise the column is appended last |
| Frames.AssignAll | src/preprocessing/encoder.py:46-47 | the columns are assigned one after another, in order |
| Frames.AssignValid | src/preprocessing/encoder.py:47 | assigning a column of full length keeps the table well formed and the row labels; the name set grows by the new name only |
| Frames.AssignReplaces | src/preprocessing/encoder.py:53 | assigning to an existing name keeps the column names, in the same order |
| Frames.AssignInPlace | src/preprocessing/encoder.py:53 | assigning to an existing name replaces that column where it stands; no other column and no row changes |
| Frames.AssignAppends | src/preprocessing/encoder.py:47 | assigning a new name adds exactly that name |
| Frames.AssignAllValid | src/preprocessing/encoder.py:46-47 | assigning columns one by one keeps the table well formed; the names are the old ones plus the assigned ones |
| Frames.AssignAllAppends | src/preprocessing/encoder.py:46-47 | columns with new, pairwise distinct names are appended at the end in order |
| Frames.FillNa | src/preprocessing/cleaner.py:78 | `fillna(v)` on one column: each missing cell becomes v, each present cell stays; the length is kept |
| Frames.FillColumn | src/preprocessing/imputation.py:11-29 | the fill applied to the named column of the table; the column names and row labels stay |
| Frames.FillNaSpec | src/preprocessing/cleaner.py:78 | fillna keeps present cells and puts the fill value in every missing cell; a value fill leaves no missing cell; a NaN fill or a column with nothing missing is unchanged |
| Frames.FillColumnEffect | src/preprocessing/imputation.py:16 | filling one column keeps the table well formed, keeps every other column, the row labels and that column's present cells, and writes the value into each missing cell |
| Frames.FillColumnNoOp | src/preprocessing/imputation.py:16 | a fill with a NaN value, or of a column with no missing cell, changes nothing |
| Frames.Kept | src/preprocessing/outlier_detector.py:86-97 | the positions a boolean mask selects are the true entries, each exactly once, in increasing order |
| Frames.KeepRows | src/preprocessing/outlier_detector.py:86-97 | mask selection keeps every column with its name and kind, and never adds rows |
| Frames.KeepRowsRows | src/preprocessing/outlier_detector.py:86-97 | each selected row equals, label and cells, the input row at the kept position |
| Stats.Numbers | src/preprocessing/imputation.py:16 | a number is among the values statistics are taken over exactly when some cell of the column holds it |
| Stats.NumbersCount | src/preprocessing/imputation.py:16-23 | each number occurs among those values exactly as often as the column holds it, so mean and median weigh every present cell |
| Stats.Min | src/preprocessing/encoder.py:83 | the minimum is one of the values and at most each of them |
| Stats.Max | src/preprocessing/encoder.py:83 | the maximum is one of the values and at least each of them |
| Stats.Mean | src/preprocessing/imputation.py:23 | `Series.mean()` over the present numbers: the sum over the count, NaN exactly when there is no value |
| Stats.Median | src/preprocessing/imputation.py:16 | `Series.median()`: the middle of the sorted values, or the mean of the two middle ones; NaN exactly when there is no value |
| Stats.ColumnMean | src/preprocessing/cleaner.py:70 | the column's mean as a fill value (its numbers only; NaN when it has none) |
| Stats.ColumnMedian | src/preprocessing/cleaner.py:72 | the column's median as a fill value (its numbers only; NaN when it has none) |
| Stats.MeanWithinRange | src/preprocessing/imputation.py:23 | the mean of a non-empty set of values exists and lies between their minimum and maximum |
| Stats.Sort | src/preprocessing/imputation.py:16 | the order the median reads is sorted and a permutation of the values |
| Stats.MedianWithinRange | src/preprocessing/imputation.py:16 | the median exists and lies between the minimum and maximum |
| Stats.NumericStatisticsExist | src/preprocessing/cleaner.py:69-72 | on a column without text, mean and median are defined exactly when some cell is present |
| Stats.Mode | src/preprocessing/imputation.py:28 | the mode is missing exactly when every cell is missing; otherwise it is a value of the column with the highest frequency |
| Stats.ModeIsFirstAmongTies | src/preprocessing/imputation.py:28 | among values tied for the highest frequency, the mode is the first one in row order |
| Stats.ModeFitsColumn | src/preprocessing/imputation.py:28-29 | the mode of a numeric column is a number |
| Imputation.DataImputation.constructor | src/preprocessing/imputation.py:8-9 | the imputer keeps the caller's frame itself, not a copy |
| Imputation.DataImputation.FillMedian | src/preprocessing/imputation.py:11-16 | an absent column raises and changes nothing; a non-numeric column raises and changes nothing; otherwise the column's missing cells get its median |
| Imputation.DataImputation.FillMean | src/preprocessing/imputation.py:18-23 | the same three cases with the mean |
| Imputation.DataImputation.FillMode | src/preprocessing/imputation.py:25-29 | an absent column raises; a column without present values raises at `mode()[0]`; otherwise the missing cells get the mode, whatever the column's type |
| Imputation.NumericFillCompletes | src/preprocessing/imputation.py:11-23 | after a median or mean fill of a column with a present value no cell is missing; an all-missing column is unchanged |
| Imputation.ModeFillCompletes | src/preprocessing/imputation.py:25-29 | after a successful mode fill no cell of the column is missing |
| Imputation.RefillIsNoOp | src/preprocessing/imputation.py:11-29 | repeating a fill with the statistic recomputed on the filled column changes nothing |
| Imputation.FillModeOnCallerFrame | src/preprocessing/imputation.py:8-9 | a fill through the imputer changes the caller's own table |
| Cleaner.OverThreshold | src/preprocessing/cleaner.py:29-31 | a column's missing percentage, 100 * missing / rows, is strictly above the threshold; never for a table without rows |
| Cleaner.DropNa | src/preprocessing/cleaner.py:29-35 | the table after dropping every column over the threshold |
| Cleaner.OverThresholdNames | src/preprocessing/cleaner.py:29-32 | the columns chosen for dropping are columns of the table |
| Cleaner.OverThresholdNamesExact | src/preprocessing/cleaner.py:29-32 | a column is chosen exactly when 100 * missing / rows is strictly above the threshold |
| Cleaner.DropNaKeepsExactly | src/preprocessing/cleaner.py:21-40 | drop_na_columns keeps exactly the columns at or under the threshold, in order, with every row |
| Cleaner.NoneOverThreshold | src/preprocessing/cleaner.py:34-38 | with no column over the threshold the table is unchanged |
| Cleaner.DropNaIdempotent | src/preprocessing/cleaner.py:21-40 | a second drop_na_columns with the same threshold changes nothing |
| Cleaner.WithoutAbsent | src/preprocessing/cleaner.py:50 | dropping names that no column carries changes nothing |
| Cleaner.Existing | src/preprocessing/cleaner.py:49 | `existing_cols` holds exactly the listed names that are columns |
| Cleaner.DropColumnsExact | src/preprocessing/cleaner.py:42-54 | drop_columns removes exactly the listed names that are present, ignores the others, and keeps the other columns in order and every row |
| Cleaner.FillValue | src/preprocessing/cleaner.py:69-76 | the fill value fits the column: a number, or the column is categorical, or it is the column's mode |
| Cleaner.ImputeStep | src/preprocessing/cleaner.py:64-78 | one map entry keeps the table well formed, its column names and its rows |
| Cleaner.ImputeRun | src/preprocessing/cleaner.py:64-81 | the whole loop keeps the table well formed, its column names and its rows |
| Cleaner.ImputeRunStopsAtFailure | src/preprocessing/cleaner.py:64-76 | when an entry raises, the table is that of a clean run over the entries before it, and the error is that entry's |
| Cleaner.ImputeStepDispatch | src/preprocessing/cleaner.py:64-76 | an absent column is skipped whatever its strategy; on a present column an unknown strategy raises ValueError, "mean" or "median" raise exactly when the column holds text, "mode" raises exactly when no cell is present, and every other entry succeeds |
| Cleaner.ImputeStepFills | src/preprocessing/cleaner.py:69-78 | a successful entry keeps other columns and the column's present cells, writes the column's mean, median or mode (a most frequent present value) into every missing cell, and leaves no missing cell when the column had a present value |
| Cleaner.DataCleaner.constructor | src/preprocessing/cleaner.py:11-16 | the cleaner's frame is a fresh copy of the caller's table |
| Cleaner.DataCleaner.DropNaColumns | src/preprocessing/cleaner.py:21-40 | the cleaner's table becomes the drop_na_columns result and the cleaner's frame is returned |
| Cleaner.DataCleaner.DropColumns | src/preprocessing/cleaner.py:42-54 | the cleaner's table loses exactly the listed columns that exist |
| Cleaner.DataCleaner.ImputeValues | src/preprocessing/cleaner.py:56-81 | the loop imputes the entries in map order and stops at the first exception with earlier entries already imputed |
| Cleaner.DataCleaner.GetCleanedData | src/preprocessing/cleaner.py:83-90 | returns the cleaner's own frame, never the caller's |
| Cleaner.CleanOnCopy | src/preprocessing/cleaner.py:16 | whatever the cleaner does, the caller's table is unchanged |
| Encoder.Categories | src/preprocessing/encoder.py:39 | the categories learnt are the distinct cells of the column, missing included, each once |
| Encoder.Position | src/preprocessing/encoder.py:53 | a category's code is a position holding that category |
| Encoder.FeatureName | src/preprocessing/encoder.py:42 | `get_feature_names_out([column])`: the column name, an underscore, and the category's text |
| Encoder.OneHotFails | src/preprocessing/encoder.py:38-39 | the one-hot fit raises on an empty column and on one holding both text and numbers |
| Encoder.OneHot | src/preprocessing/encoder.py:37-47 | one_hot's table: the column dropped, then one indicator column per category assigned in category order |
| Encoder.IndicatorTotal | src/preprocessing/encoder.py:39-47 | over distinct categories, a row's indicators sum to 1 when its value is a category, else 0 |
| Encoder.OneHotNames | src/preprocessing/encoder.py:37-47 | one_hot keeps the table well formed and removes the original column; the names are the other columns' plus one `<column>_<category>` per category |
| Encoder.OneHotLayout | src/preprocessing/encoder.py:37-47 | with fresh feature names, the other columns keep their order and values, the indicators come last, each is 1 exactly on its category's rows, and every row has exactly one 1 |
| Encoder.LabelFails | src/preprocessing/encoder.py:52-53 | the label fit raises on a column holding both text and numbers, which cannot be sorted; missing cells become a class of their own |
| Encoder.LabelCodes | src/preprocessing/encoder.py:53 | each row's code is the position of its value among the column's categories |
| Encoder.Label | src/preprocessing/encoder.py:53 | label's table: the column overwritten by its codes, as a numeric column |
| Encoder.LabelCodesSpec | src/preprocessing/encoder.py:51-53 | codes are whole numbers in 0..k-1 for k distinct values, and two rows share a code exactly when they share a value |
| Encoder.LabelInPlace | src/preprocessing/encoder.py:53 | label replaces the column where it stands by its codes and changes no other column and no row |
| Encoder.ScaleFails | src/preprocessing/encoder.py:93 | a scaler's fit raises on an empty column and on one holding text |
| Encoder.MinMaxScaled | src/preprocessing/encoder.py:82-93 | MinMaxScaler's output: (x - min) / (max - min) for each value, a zero range counting as 1, missing cells kept |
| Encoder.MinMaxUnitRange | src/preprocessing/encoder.py:82-93 | min-max scaling keeps missing cells missing, maps every value into [0, 1], the minimum to 0 and, when values differ, the maximum to 1 |
| Encoder.DataEncoder.constructor | src/preprocessing/encoder.py:16-22 | the encoder keeps the caller's frame and starts with empty registries |
| Encoder.DataEncoder.ReplaceByIndicators | src/preprocessing/encoder.py:45-47 | the one_hot update of the caller's table is exactly: drop the column, then assign its indicator columns |
| Encoder.DataEncoder.AssignEach | src/preprocessing/encoder.py:46-47 | the indicator columns are assigned one by one, in order |
| Encoder.DataEncoder.EncodeCategorical | src/preprocessing/encoder.py:24-64 | an absent column or unknown method changes neither table nor registry; a failing fit changes nothing; one_hot and label update the caller's table and record the encoder under the column |
| Encoder.DataEncoder.ScaleFeatures | src/preprocessing/encoder.py:66-99 | an absent column, unknown method or failing fit changes nothing; otherwise only the named column changes, becomes numeric with the same missing cells, and the scaler is recorded; minmax values are exact |
| Outliers.SquaredDeviations | src/preprocessing/outlier_detector.py:41 | the sum of squared deviations is never negative |
| Outliers.Variance | src/preprocessing/outlier_detector.py:41 | the sample variance is never negative |
| Outliers.ZscoreFlags | src/preprocessing/outlier_detector.py:40-43 | only rows with a present value are flagged |
| Outliers.BeyondIsZscore | src/preprocessing/outlier_detector.py:40-43 | the square-free test (x - mean)^2 > t^2 var agrees with \|x - mean\| / std > t |
| Outliers.ZscoreRule | src/preprocessing/outlier_detector.py:40-43 | with a positive standard deviation a row is flagged exactly when \|x - mean\| / std > threshold |
| Outliers.ZscoreNoSpread | src/preprocessing/outlier_detector.py:40-43 | with fewer than two values or zero spread nothing is flagged |
| Outliers.DetectZscore | src/preprocessing/outlier_detector.py:29-43 | an absent column raises KeyError, a non-numeric one ValueError; a numeric one succeeds |
| Outliers.DetectZscoreValues | src/preprocessing/outlier_detector.py:43 | the returned values are exactly the values of the flagged rows |
| Outliers.NotIn | src/preprocessing/outlier_detector.py:86-97 | `~isin`: a row is kept exactly when its value (for iqr and zscore) or its label (for iforest and robust_cov) is not among the given ones |
| Outliers.ValueRemoval | src/preprocessing/outlier_detector.py:86-91 | removal by value drops a row exactly when some flagged row holds the same value |
| Outliers.ValueRemovalExact | src/preprocessing/outlier_detector.py:86-91 | when flags depend on the value alone, removal by value drops exactly the flagged rows |
| Outliers.IndexRemoval | src/preprocessing/outlier_detector.py:92-97 | removal by label drops every flagged row, and with unique labels exactly those |
| Outliers.ZscoreKeep | src/preprocessing/outlier_detector.py:89-91 | a z-score keep mask covers every row |
| Outliers.ZscoreKeepsUnflagged | src/preprocessing/outlier_detector.py:89-91 | the z-score removal keeps exactly the rows the rule does not flag |
| Outliers.DetectIqrAsWritten | src/preprocessing/outlier_detector.py:16-27 | absent column: KeyError; non-numeric: ValueError; otherwise the detector returns None |
| Outliers.IqrKeepAsWritten | src/preprocessing/outlier_detector.py:84-88 | the iqr branch as written: the detector's error, or TypeError when its `None` is unpacked |
| Outliers.IqrAsWrittenAlwaysRaises | src/preprocessing/outlier_detector.py:84-88 | as written, the iqr method raises on every table; on a numeric column it is the unpacking TypeError |
| Outliers.IqrCounterexample | src/preprocessing/outlier_detector.py:84-88 | on the numeric column [1, 2, 3, 100] the written code raises, and the corrected one drops only the row holding 100 |
| Outliers.DetectIqr | src/preprocessing/outlier_detector.py:16-27 | absent column: KeyError; non-numeric: ValueError; numeric: the lower and upper outlier values |
| Outliers.IqrKeep | src/preprocessing/outlier_detector.py:84-88 | an IQR keep mask covers every row |
| Outliers.IqrRemovesFlaggedValues | src/preprocessing/outlier_detector.py:84-88 | the corrected iqr removal raises only for an absent or non-numeric column, and drops a row exactly when a lower or upper outlier has its value |
| Outliers.Missing | src/preprocessing/outlier_detector.py:56 | the first name that is not a column; none exactly when all are columns |
| Outliers.DetectForeign | src/preprocessing/outlier_detector.py:45-71 | an absent column raises KeyError before the model runs; a contamination outside (0, 0.5] raises; otherwise the model's predicted rows are returned |
| Outliers.ForeignKeep | src/preprocessing/outlier_detector.py:92-97 | a model-based keep mask covers every row |
| Outliers.ForeignRemovesPredicted | src/preprocessing/outlier_detector.py:92-97 | threshold is used as the contamination; every predicted row is dropped, and with unique labels only those |
| Outliers.RemovalMask | src/preprocessing/outlier_detector.py:84-97 | exactly the four method names select a removal; the rest select none |
| Outliers.RemovalKeepsOrder | src/preprocessing/outlier_detector.py:84-99 | the result holds the kept rows in their original order with every column, and never more rows |
| Outliers.OutlierDetector.constructor | src/preprocessing/outlier_detector.py:10-11 | the detector starts from the caller's frame |
| Outliers.OutlierDetector.RemoveOutliers | src/preprocessing/outlier_detector.py:73-99 | an unknown method returns the same frame; a detector error changes nothing; otherwise `data` becomes a fresh frame of the kept rows, and the caller's frame is untouched; the iqr branch follows the corrected detector |
| Outliers.RemoveZscoreTwice | src/preprocessing/outlier_detector.py:86-99 | removals accumulate: the second call filters the rows the first one kept, and the caller's table is unchanged |

## Left out

- Logging and `print` calls are not modelled. Neither are the orchestrator `src/data_preprocessing.py`, the pipelines, `src/main.py`, `src/eda.py`, `src/data_ingestion.py` and the logger; these are not part of this model.
- Floating point: values are exact reals, so NaN appears only as a missing cell or a `None` statistic, and rounding is not modelled.
- Default arguments (threshold 50.0, 1.5 and 3) have no counterpart: every caller passes its values.
- pandas' int/float/bool distinctions are not modelled: a column is numeric or categorical. Label codes and one-hot indicators are stored as numbers.
- Duplicate column names, which pandas allows, are excluded by the table invariant. Row labels are integers.
- `fillna(..., inplace=True)` on `self.data[column]` is modelled as the intended in-place fill. Under pandas copy-on-write it may leave the frame unchanged.
- The column-to-strategy dictionary is a sequence of pairs in iteration order.
- The fill methods of `DataImputation` return nothing in Python. The model returns an `Outcome` that stands for the exception they raise.
- Stats.Mode: pandas breaks ties by taking the smallest value. The model takes the value seen first in row order.
- Encoder.Categories: sklearn's encoders sort the categories. The model keeps them in first-seen order. This changes the order of the indicator columns and the numbers label encoding assigns, but not the properties stated about them.
- Encoder.FeatureName: a numeric category is rendered with at most six fractional digits. This only approximates Python's float formatting.
- Encoder.OneHotFails, Encoder.LabelFails, Encoder.ScaleFails: sklearn's input checks are reduced to three conditions. The one-hot and scaler fits raise on an empty column. The one-hot and label fits raise on text mixed with numbers. The scalers raise on any text. A missing cell is never a failure: the encoders treat it as a category of its own. Other exceptions sklearn may raise are not modelled.
- Encoder.DataEncoder.ScaleFeatures: for "standard" and "robust" the new values are left abstract. The contract promises only numbers where values were and missing cells where they were missing.
- The fitted sklearn objects are reduced to what they learnt: the categories, the min-max bounds, or the scaler's kind.
- Outliers.DetectForeign: the isolation forest and elliptic envelope models are opaque. Their per-row predictions are an input (`predicted`), and the "robust_cov" and "iforest" methods therefore coincide. Failures inside the fit (missing or text values) are not modelled, and the fixed random seed has no counterpart.
- Outliers.DetectIqr: the quartile fences are not given in the source, so the rows below and above them are inputs (`below`, `above`). No bound is invented.
- Outliers.OutlierDetector.RemoveOutliers: it requires the three flag inputs to have one entry per row, because they stand for detector output over the current table. Its "iqr" branch uses the corrected detector (`DetectIqr`, `IqrKeep`), not the code as written, which raises TypeError on every call (see Findings; `IqrKeepAsWritten` models that branch as written).

## Findings

| source | as written | input that shows it | evidently intended | confidence | as-written member | corrected member |
|---|---|---|---|---|---|---|
| src/preprocessing/outlier_detector.py:16-27, 84-88 | after the numeric check, `detect_iqr_outliers` ends without a `return`, so it yields `None`; `remove_outliers` unpacks that into two series | `remove_outliers("price", "iqr")` on a numeric column such as [1, 2, 3, 100]: unpacking `None` raises TypeError and no row is removed, whatever the data | return the lower and upper outlier values, and drop the rows holding them | not executed | Outliers.IqrAsWrittenAlwaysRaises | Outliers.IqrRemovesFlaggedValues |
