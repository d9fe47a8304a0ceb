# Data cleaning report, modelled in Dafny

The Data Cleaning & Validation API takes a CSV upload and runs one routine on it:
`clean_dataframe` in `app/cleaner.py`. The routine takes a pandas DataFrame,
builds a data-quality report, fills the frame's missing cells in place and
returns both. It works in this order:

1. It records the row count and the column count.
2. It counts the missing cells of every column and keeps the non-zero counts.
3. It counts duplicate rows. A row is a duplicate when it equals an earlier
   row, with missing equal to missing.
4. It fills each column in place. A numeric column gets the median of its
   non-missing values. Any other column gets the string `"UNKNOWN"`.
5. It counts the IQR outliers of each numeric column of the filled frame. Q1
   and Q3 are linearly interpolated quantiles, and the fences are
   Q1 - 1.5 IQR and Q3 + 1.5 IQR. Only non-zero counts are kept.

The model has five modules:

- `Wrappers` (`wrappers.dfy`): `Option`. `None` is a missing cell, or an
  undefined statistic where pandas gives NaN.
- `Stats` (`stats.dfy`): the column reductions over exact reals. These are
  the missing count, the non-missing values, sorting, the median, the
  linear-interpolation quantile and the fence count. Lemmas relate them:
  - the median is the 0.5 quantile;
  - quantiles are monotone in p, so Q1 <= Q3;
  - quantiles stay between the minimum and the maximum;
  - a constant column has IQR 0 and no outliers;
  - a column with fewer than four values has no outliers.
- `Frame` (`frame.dfy`): the DataFrame itself. A column is tagged `Numeric`
  (cells `Option<real>`) or `Categorical` (cells `Option<string>`). The class
  `DataFrame` holds the row count, the column names and the columns;
  `SetColumn` is `df[col] = ...`. This module also has the missing-value
  report, the filter-to-non-zero map, and the duplicate-row count. For a
  frame with at least one column, the count is proved equal to the row count
  minus the number of distinct rows.
- `Cleaner` (`cleaner.dfy`): the report datatype, which has the five fields
  of `ValidationResponse` in `app/schemas.py:4-9`. It also has:
  - the per-column fill `Impute` and the outlier report;
  - the outlier loop `DetectOutliers`, proved against `OutlierReport`;
  - `CleanDataFrame`, which fills the `DataFrame` object in place, one
    column at a time.
- `Examples` (`examples.dfy`): the worked examples of the report. These are
  missing values in `age` and `city`, a frame with no rows, two equal rows,
  and the column 1, 2, 3, 4, 100 with one outlier.

Report fields are written in Dafny's camel case. `missing_values` is
`missingValues` and `duplicate_rows` is `duplicateRows`; `rows`, `columns`
and `outliers` keep their names.

Note: a numeric column whose cells are all missing is still missing after
cleaning. Its median is NaN in pandas, and `fillna(NaN)` changes nothing, so
"no missing values after cleaning" holds only for the other columns.
`Cleaner.MissingReportAfterCleaning` states exactly which columns a second
profile reports as missing.

## Model

| member | source | states |
|---|---|---|
| `Stats.CountMissing` | app/cleaner.py:12 | the missing count of a column is at most its length; it is 0 exactly when no cell is missing, and equals the length exactly when every cell is missing |
| `Stats.Present` | app/cleaner.py:22 | the values that skip-NaN reductions see: their number is the length minus the missing count, each is the value of some non-missing cell, and every non-missing cell's value is among them |
| `Stats.PresentCounts` | app/cleaner.py:22 | each value occurs among the non-missing values exactly as many times as a cell holds it, so repeated values weigh in the median and the quantiles |
| `Stats.PresentAppend` | app/cleaner.py:22 | dropping missing cells keeps row order: the values of two concatenated column parts are the values of the first part followed by those of the second |
| `Stats.PresentOfComplete` | app/cleaner.py:22 | in a column with no missing cell, the values are the cells' values in row order |
| `Stats.Insert` | app/cleaner.py:22-30 | inserting a value into sorted values keeps them sorted and adds exactly that value (multiset) |
| `Stats.Sort` | app/cleaner.py:22-30 | the ordering behind `median()` and `quantile()`: the result is sorted and is a permutation of the input |
| `Stats.SortSorted` | app/cleaner.py:22-30 | sorting values already in ascending order leaves them unchanged |
| `Stats.Median` | app/cleaner.py:22 | the median is undefined exactly when there are no values; otherwise some value is at most it and some value is at least it, so it lies between the minimum and the maximum |
| `Stats.Quantile` | app/cleaner.py:29-30 | the quantile is undefined exactly when there are no values; otherwise it lies between the minimum and the maximum of the values |
| `Stats.InterpolateAt` | app/cleaner.py:29-30 | the interpolated quantile at position h is x[f] + (h - f)(x[f+1] - x[f]) with f = floor(h), or x[f] at the last rank (the linear method) |
| `Stats.InterpolateBetween` | app/cleaner.py:29-30 | on sorted values, the value interpolated at position h lies between the ranks floor(h) and floor(h) + 1 |
| `Stats.InterpolateMonotone` | app/cleaner.py:29-30 | on sorted values, a later position never gives a smaller interpolated value |
| `Stats.InterpolateWithin` | app/cleaner.py:29-30 | on sorted values, every interpolated value lies between the first and the last value |
| `Stats.QuantileMonotone` | app/cleaner.py:29-30 | for p <= q, the p-quantile is at most the q-quantile |
| `Stats.MedianIsHalfQuantile` | app/cleaner.py:22-30 | the median used for filling equals the 0.5 quantile under the same interpolation |
| `Stats.QuartilesOrdered` | app/cleaner.py:29-31 | Q1 <= Q3, so the IQR is never negative |
| `Stats.IsOutlier` | app/cleaner.py:31-32 | the fence test of one value. With Q1 <= Q3, an outlier lies strictly below Q1 or strictly above Q3. With Q1 = Q3 (IQR 0), a value is an outlier exactly when it differs from Q1 |
| `Stats.CountOutside` | app/cleaner.py:32 | the fence count is at most the number of values, and it is 0 exactly when no value is strictly below Q1 - 1.5 IQR or strictly above Q3 + 1.5 IQR |
| `Stats.OutlierCount` | app/cleaner.py:29-32 | a column's outlier count is at most its number of non-missing values, which is at most its row count |
| `Stats.CountCellsSkipsMissing` | app/cleaner.py:32 | the fence count over every cell of the column, where a missing cell compares false with both fences, equals the fence count over the non-missing values |
| `Stats.QuantileOfConstant` | app/cleaner.py:29-30 | every quantile of values that all equal c is c |
| `Stats.ConstantColumnHasNoOutliers` | app/cleaner.py:29-32 | when all values of a column equal c, Q1 = Q3 = c (IQR 0) and the column has no outliers |
| `Stats.SmallColumnsHaveNoOutliers` | app/cleaner.py:29-32 | a column with at most three non-missing values never has an outlier |
| `Frame.MissingCount` | app/cleaner.py:12 | a column's missing count is at most its length |
| `Frame.DataFrame.SetColumn` | app/cleaner.py:22-24 | assigning a column of the same length replaces that column only; rows, names and the other columns are unchanged |
| `Frame.NonZeroCounts` | app/cleaner.py:13 | filtering per-column counts to the non-zero ones gives a map whose keys are exactly the names with a non-zero count, each mapped to its count; no key maps to 0 |
| `Frame.MissingReport` | app/cleaner.py:12-13 | a column is a key of `missing_values` exactly when it has a missing cell, and it maps to its number of missing cells; every key is a column and no key maps to 0 |
| `Frame.SameRow` | app/cleaner.py:16 | two rows compare equal exactly when their cells agree in every column, a missing cell agreeing with a missing cell |
| `Frame.IsDuplicate` | app/cleaner.py:16 | the keep-first test that `duplicated()` applies to each row: row i is marked exactly when some earlier row j has, in every column, a cell equal to row i's cell, a missing cell equal to a missing cell |
| `Frame.CountDuplicated` | app/cleaner.py:16 | among the first n rows at most n are duplicates, and none when n <= 1 |
| `Frame.DuplicateRows` | app/cleaner.py:16-17 | `duplicate_rows` is at most the row count, and it is 0 when there is at most one row or no column |
| `Frame.DuplicatedIsRowsMinusDistinct` | app/cleaner.py:16-17 | the number of duplicated rows among the first n, plus the number of distinct rows among them, is n |
| `Frame.DuplicateRowsCountsRepeats` | app/cleaner.py:16-17 | for a frame with at least one column, `duplicate_rows` equals the row count minus the number of distinct rows, with missing equal to missing |
| `Cleaner.FillMissing` | app/cleaner.py:22-24 | `fillna`: non-missing cells are kept, missing cells become the fill value; filling with a value leaves nothing missing; filling with NaN, or filling a column with nothing missing, changes nothing |
| `Cleaner.Impute` | app/cleaner.py:20-24 | filling keeps the length and the numeric/categorical tag and every non-missing cell. A non-numeric column ends with no missing cell, each former gap holding "UNKNOWN". A numeric column gets its original median in every gap and, if it had a value, ends with no missing cell. A numeric column with no value is unchanged |
| `Cleaner.ImputedMedianInRange` | app/cleaner.py:21-22 | in a numeric column with a value, each formerly missing cell holds a value between the column's original minimum and maximum |
| `Cleaner.ImputeIdempotent` | app/cleaner.py:20-24 | filling a filled column changes nothing |
| `Cleaner.MissingAfterImpute` | app/cleaner.py:20-24 | after filling, a column still has a missing cell exactly when it is numeric, has rows and had no value |
| `Cleaner.MissingReportAfterCleaning` | app/cleaner.py:12-24 | profiling the cleaned frame again reports as missing exactly the numeric columns that had rows but no value |
| `Cleaner.OutlierReport` | app/cleaner.py:27-34 | a column is a key of `outliers` exactly when it is numeric and has an outlier, and it maps to its count; non-numeric columns never appear and no key maps to 0 |
| `Cleaner.ReportCountsBounded` | app/cleaner.py:12-34 | no count in `missing_values` or in `outliers` exceeds the row count |
| `Cleaner.DetectOutliers` | app/cleaner.py:27-34 | the outlier loop builds exactly `OutlierReport` of the filled columns |
| `Cleaner.CleanDataFrame` | app/cleaner.py:4-38 | `rows` and `columns` are the shape before filling; `missing_values` and `duplicate_rows` are computed on the frame before filling; every column is replaced by its fill and names and row count are unchanged; `outliers` is the outlier report of the filled frame; every reported count is at most `rows` |
| `Examples.MissingValuesExample` | app/cleaner.py:12-17 | rows (25, NY), (missing, NY), (30, missing) report one missing cell in `age`, one in `city`, and no duplicate rows |
| `Examples.EmptyTableExample` | app/cleaner.py:8-34 | a frame with the column x and no rows reports nothing missing, no duplicates and no outliers |
| `Examples.DuplicateRowsExample` | app/cleaner.py:16-17 | rows (1, a), (1, a), (2, b) report one duplicate row |
| `Examples.QuartilesOfFive` | app/cleaner.py:29-30 | of five sorted values, Q1 is the second and Q3 the fourth |
| `Examples.OutlierValuesExample` | app/cleaner.py:29-32 | the values 1, 2, 3, 4, 100 have Q1 = 2 and Q3 = 4, and exactly one value (100) lies outside the fences -1 and 7 |
| `Examples.OutlierExample` | app/cleaner.py:29-32 | the column 1, 2, 3, 4, 100 has outlier count 1 |

## Left out

- `app/main.py` is not part of this model. It holds the HTTP routes, the upload, the `.csv` file-name check, `pd.read_csv` parsing and JSON serialisation of the records.
- `app/schemas.py` has no logic. Only its field names are reused, in the `Report` datatype.
- Floating point: values are exact reals. The model leaves out float64 rounding in the median and the quantiles. It also leaves out NaN beyond "missing" and "no median/quantile of no values".
- pandas dtype inference is taken as given: each column arrives tagged numeric or non-numeric. For example, the CSV reader makes an all-empty column float64, so that column is numeric here too.
- The numeric test at `app/cleaner.py:21` (`float64`/`int64`) and `select_dtypes(include=np.number)` at `app/cleaner.py:28` are assumed to agree. Both use the same tag, so other numeric widths are not modelled.
- Column names must be distinct (`Frame.WellFormed`). The CSV reader renames a repeated header. With repeated names, `df[col]` would be a frame rather than a column.
- Cell equality in `duplicated()` is exact equality of reals. float64 equality is not modelled, so two values that differ only below float64 precision count as different here.
- Dictionary order is not modelled. `missing_values` and `outliers` come out in column order in Python, but the Dafny maps have no order.
- `duplicated()` on a frame with no columns gives pandas' empty answer (0), whatever the index length.
- `Stats.Quantile`: a `p` outside [0, 1] is excluded by its precondition. pandas raises for such a `p`, but the cleaner only asks for 0.25 and 0.75.
- Median and quantiles are computed on a sorted copy (insertion sort). pandas selects the order statistics without a full sort; the values are the same.
- The `async` handlers and concurrency between requests are left out. Each call works on its own frame.
