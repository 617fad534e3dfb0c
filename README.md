# M4 / M5 forecasting data pipeline — a Dafny model

This project models the core of a small batch pipeline that prepares two forecasting
benchmarks, M4 Daily and M5, for modelling. The M4 loader renames the raw
identifier column `V1` to `M4id` and keeps the sampled series. It then melts the wide
table (one `V<n>` column per day) into one row per (series, time index, value), with the
time index decoded from the column name (`V2` is time 0). Finally it left-merges the
Daily rows of the metadata (`category`, `SP`). The M5 loader melts the `d_<n>` sales
columns and left-merges the calendar on `d`, then the prices on
(`store_id`, `item_id`, `wm_yr_wk`). A preprocessing step drops rows with a missing
value and finds the series that have at least `required_days` non-missing values among
their first `required_days` time indices. The feature step sorts by date, takes
for each row the difference to the previous row of the same series in date order, and adds the mean of those differences over
each (category, date) cell as a column, in place. The evaluation step computes WAPE,
`sum|y_true - y_pred| / sum|y_true|`. It can ignore zero truths and returns NaN below
a small denominator guard.

Tables are sequences of rows. A missing cell (NaN) is `None` in an `Option`. The
transforms are pure functions. The one operation that updates a frame in place,
`add_category_mean_diff`, is a method of the class `Differences.FeatureFrame`.

Modules:

- `Wrappers` has `Option`. `Seqs` has a pandas-style boolean `Filter` with its order,
  multiplicity and idempotence lemmas.
- `Melt` models `DataFrame.melt` on a wide table: column-major order, and the row at
  every position.
- `Merge` models `DataFrame.merge(how="left")`. For each left row it gives every matching
  right row in right-table order, or one row with missing right columns. With unique
  right keys it becomes a lookup that keeps the left row count and order.
- `LoadM4`, `LoadM5`, `Preprocessing`, `Metrics` and `Differences` model the five source
  files.

Points where the code's behaviour is easy to misread, and which the model follows:

- `wape` returns NaN when the denominator is below `eps`. A denominator that passes the
  guard is divided as numpy divides: with `eps <= 0` and a zero denominator, a zero
  numerator gives `0/0 = nan` and a positive one gives `inf`. A positive numerator over
  a zero denominator needs `mask_zeros=False`, since masking an all-zero truth also
  removes every error. The model's `Metrics.Score` therefore has a third value, `Inf`.
- `add_differences` calls `sort_values("date")` with pandas' default sort, which is not
  stable. `Differences.DiffIsPreviousDate` shows that the tie order does not matter on
  a frame with one row per series and date: each difference is taken against the
  series' latest earlier date.
- `melt_daily_to_long` converts the `V` column names only for the rows it has melted,
  so a table without rows melts to an empty table even when a `V` column name has no
  numeric suffix.

## Model

| member | source | states |
|---|---|---|
| LoadM4.RenameColumn | src/data/load_m4.py:69 | `V1` becomes `M4id`, no column is called `V1` afterwards, and every other name is unchanged |
| LoadM4.LoadDailyWide | src/data/load_m4.py:61-75 | fails exactly when sampled ids are given and the renamed table has no `M4id` column; otherwise `V1` is renamed to `M4id`, without sampled ids every row is kept, with them the result is exactly the rows whose `M4id` is among the ids, and well-formed tables stay well-formed |
| LoadM4.LoadDailyWideMultiplicity | src/data/load_m4.py:71-72 | the id filter keeps each row of a sampled series exactly as often as it occurs in the input, and no other row |
| LoadM4.LoadDailyWideOrder | src/data/load_m4.py:71-72 | the id filter keeps row order: filtering a concatenation concatenates the filtered parts |
| LoadM4.SampledRowsPresent | src/data/load_m4.py:71-72 | the id filter keeps some row exactly when some row belongs to a sampled series |
| LoadM4.TimeIdx | src/data/load_m4.py:94 | the time index is the column name's numeric suffix less 2, so never below -2; `TimeIdxOfColumn` is its inverse |
| LoadM4.ParseDecimal | src/data/load_m4.py:94 | parsing the decimal digits of `n` gives back `n` |
| LoadM4.TimeIdxOfColumn | src/data/load_m4.py:93-94 | the column `"V" + str(t + 2)` decodes to time index `t` for every `t >= -2` |
| LoadM4.TimeIdxExamples | src/data/load_m4.py:93-94 | `V2` is time 0, `V3` is time 1, `V12` is time 10 |
| LoadM4.ToLong | src/data/load_m4.py:94-95 | each melted row keeps its id and value and replaces the column name by its decoded time index |
| LoadM4.MeltDailyToLong | src/data/load_m4.py:78-98 | fails exactly when there is no `M4id` column, or when the table has rows and some `V` column has a non-numeric suffix; otherwise gives (rows) x (`V` columns) long rows |
| LoadM4.MeltDailyToLongAt | src/data/load_m4.py:84-95 | long row `Block(j, i, n)`, that is `j*n + i`, is wide row `i`'s id, its cell in the `j`-th `V` column unchanged, and that column's time index |
| LoadM4.MeltKeepsPresentValues | src/data/load_m4.py:86-91 | the long table has exactly as many present values as the `V` columns have non-missing cells |
| LoadM4.RenameKeepsParsable | src/data/load_m4.py:69 | renaming `V1` neither creates nor removes a `V` column whose suffix cannot be parsed |
| LoadM4.DailyInfo | src/data/load_m4.py:109 | the kept rows are metadata rows whose `SP` is `Daily`, and every such row is kept |
| LoadM4.DailyInfoMultiplicity | src/data/load_m4.py:109 | each Daily metadata row is kept exactly as often as it occurs, and no other row |
| LoadM4.MergeInfo | src/data/load_m4.py:120-124 | every output row is a long row plus `category` and `SP` from a metadata row with its `M4id`; both are missing exactly when no metadata row has that id |
| LoadM4.MergeInfoKeepsLong | src/data/load_m4.py:120-124 | every long row appears, with metadata added, in the merged table |
| LoadM4.MergeInfoUnique | src/data/load_m4.py:120-124 | with unique `M4id`s in the metadata, the merge keeps the long table's row count and order and gives each row its series' category and `SP` |
| LoadM4.BuildProcessedDailyTable | src/data/load_m4.py:101-126 | fails exactly when the renamed table has no `M4id` column, or when some row belongs to a sampled series and a `V` column is unparsable |
| LoadM4.BuildUsesDailyMetadataOnly | src/data/load_m4.py:108-124 | in the processed table `SP` is `Daily` or missing; a category comes from a Daily metadata row of the same series; it is missing only when the series has no Daily metadata row |
| LoadM4.MergeUsesDailyMetadataOnly | src/data/load_m4.py:109-124 | the same three facts for the merge of any long table with the Daily metadata |
| Seqs.Filter | src/data/load_m4.py:72 | boolean indexing: every kept row is an input row satisfying the mask, and every input row satisfying it is kept; `Seqs.FilterMultiplicity` adds that each is kept exactly as often as it occurs |
| Seqs.FilterMultiplicity | src/data/load_m4.py:72 | a row satisfying the mask is kept as often as it occurs in the input; any other row not at all |
| Melt.ValueColumns | src/data/load_m4.py:84 | the selected column positions are strictly increasing, in range, and as many as the selected names |
| Melt.ValueColumnNames | src/data/load_m4.py:84 | the `j`-th selected position holds the `j`-th selected column name |
| Melt.Melt | src/data/load_m4.py:86-91 | the melted table has `Blocks(m, n)` rows for `m` selected columns and `n` rows, that is `m*n` |
| Melt.BlocksIsProduct | src/data/load_m4.py:86-91 | `m` blocks of `n` rows are `m*n` rows |
| Melt.BlockIsProduct | src/data/load_m4.py:86-91 | row `i` of block `j` sits at position `j*n + i` |
| Melt.MeltColumnsVariables | src/data/load_m4.py:86-91 | every `variable` of the column-major result names one of the melted columns |
| Melt.MeltVariables | src/data/load_m4.py:86-91 | every `variable` of the melted table is a selected column name |
| Melt.MeltAt | src/data/load_m4.py:86-91 | row `Block(j, i, n)`, that is `j*n + i`, is wide row `i`'s id, the `j`-th selected column name and that row's cell in it (column-major order) |
| Melt.MeltColumnsCount | src/data/load_m4.py:86-91 | the melt neither drops nor invents values: the number of values satisfying any predicate equals the number of such cells in the melted columns |
| Merge.JoinOne | src/data/load_m4.py:120-124 | one left row gives one output row per matching right row, in right order, or a single row without a right side when none matches |
| Merge.LeftMerge | src/data/load_m4.py:120-124 | at least as many output rows as left rows; every output row carries a left row; a present right row has the left row's key; a missing right side means no right row has that key |
| Merge.LeftMergeAt | src/data/load_m4.py:120-124 | left row `i`'s first output row sits right after the output rows of the left rows before it |
| Merge.LeftMergeKeepsLeft | src/data/load_m4.py:120-124 | no left row is lost: each appears in some output row |
| Merge.LeftMergeAppend | src/data/load_m4.py:120-124 | a left merge keeps the left table's order: it distributes over concatenation of the left rows |
| Merge.Lookup | src/data/load_m4.py:120-124 | a found row is a right row with the key; nothing is found only when no right row has the key |
| Merge.LeftMergeUnique | src/data/load_m4.py:120-124 | with unique right keys, output row `i` is left row `i` joined to the right row with its key, or to nothing |
| LoadM5.ToSales | src/data/load_m5.py:19-24 | each melted row becomes a sales row with the six ids, the day `d` and the sales value |
| LoadM5.MeltSales | src/data/load_m5.py:15-24 | (rows) x (`d_` columns) long rows |
| LoadM5.MeltSalesAt | src/data/load_m5.py:15-24 | long row `Block(j, i, n)`, that is `j*n + i`, is row `i`'s ids, the `j`-th `d_` column and row `i`'s sales in it |
| LoadM5.MergeCalendar | src/data/load_m5.py:32 | the calendar merge on `d` as a left merge: a joined calendar row has the sale's day; a missing one means no calendar row has that day |
| LoadM5.MergePrices | src/data/load_m5.py:33 | a price is joined only where the calendar matched, with the same store, item and week; a row without a price has no price row with its key |
| LoadM5.BuildM5Long | src/data/load_m5.py:26-34 | at least as many output rows as melted sales rows |
| LoadM5.MergePricesKeeps | src/data/load_m5.py:33 | the price merge loses no row: every calendar-joined sale appears with a price side added |
| LoadM5.BuildM5LongKeepsSales | src/data/load_m5.py:30-34 | neither merge loses a sale: every melted sales row appears in the result |
| LoadM5.BuildM5LongUnique | src/data/load_m5.py:30-34 | with unique calendar days and unique price keys, output row `i` is melted row `i` with its calendar row and the price for its store, item and week |
| Preprocessing.DropNa | src/data/preprocessing.py:5-7 | every kept row has a value and comes from the input; every input row with a value is kept |
| Preprocessing.DropNaMultiplicity | src/data/preprocessing.py:5-7 | a row with a value is kept as often as it occurs; a row without one is gone |
| Preprocessing.DropNaOrder | src/data/preprocessing.py:5-7 | dropping keeps order: it distributes over concatenation |
| Preprocessing.DropNaIdempotent | src/data/preprocessing.py:5-7 | dropping twice is dropping once |
| Preprocessing.Keys | src/data/preprocessing.py:18 | the groups of the `groupby`: each is some row's key, every row's key is one, and none repeats |
| Preprocessing.GetValidSeriesIds | src/data/preprocessing.py:9-19 | the returned ids are distinct |
| Preprocessing.ValidSeriesIff | src/data/preprocessing.py:17-19 | an id is returned if and only if its series has a row before `required_days` and at least `required_days` non-missing values before `required_days` |
| Preprocessing.LateRowIgnored | src/data/preprocessing.py:17 | adding a row at or after `required_days`, anywhere, never changes the result |
| Preprocessing.EarlyTimesCount | src/data/preprocessing.py:17-18 | with unique time indices per series, the count equals the number of distinct early time indices with a value |
| Preprocessing.ValidFromStart | src/data/preprocessing.py:16-19 | with unique, non-negative time indices, a returned series has a value at every time index `0 .. required_days-1` |
| Metrics.Guarded | src/evaluation/metrics.py:47-51 | NaN below `eps`; at or above `eps`, the quotient for a positive denominator, and for a zero one (admitted only by `eps <= 0`) NaN for `0/0` and `inf` for a positive numerator; a number is always non-negative |
| Metrics.Kept | src/evaluation/metrics.py:39-42 | with masking, the pairs that take part have a non-zero truth and every such pair takes part; without it, every pair |
| Metrics.KeptMultiplicity | src/evaluation/metrics.py:39-42 | with masking, each pair with a non-zero truth takes part exactly as often as it occurs, and no other pair |
| Metrics.Wape | src/evaluation/metrics.py:5-51 | below `eps` the result is NaN; a denominator of at least `eps` and above zero gives the quotient of the numerator by the denominator, a non-negative number; a zero denominator admitted by `eps <= 0` gives NaN for a zero numerator and `inf` for a positive one |
| Metrics.MaskKeepsAbsSum | src/evaluation/metrics.py:39-45 | masking zero truths never changes the denominator |
| Metrics.AbsSumZero | src/evaluation/metrics.py:45 | the denominator is zero if and only if every truth is zero |
| Metrics.AllZeroTruthIsNaN | src/evaluation/metrics.py:45-48 | with `eps > 0`, an all-zero truth gives NaN, masked or not |
| Metrics.PerfectIsZero | src/evaluation/metrics.py:44-51 | perfect predictions score 0 whenever the score is defined and are never `inf` |
| Metrics.ZeroPredictionsIsOne | src/evaluation/metrics.py:44-51 | all-zero predictions score 1 whenever the score is defined, masked or not |
| Metrics.ZeroTruthPairDropped | src/evaluation/metrics.py:39-42 | with masking, a pair with zero truth inserted anywhere is removed before the sums |
| Metrics.ZeroTruthPairIgnored | src/evaluation/metrics.py:39-51 | with masking, inserting a zero-truth pair anywhere leaves the score unchanged |
| Metrics.Examples | src/evaluation/metrics.py:44-51 | `[10, 20]` against itself scores 0, against `[0, 0]` scores 1, and an all-zero truth gives NaN with the default `eps` |
| Differences.Insert | src/features/differences.py:6 | inserting into a date-sorted sequence gives a date-sorted sequence one row longer |
| Differences.InsertPermutes | src/features/differences.py:6 | the insertion adds exactly one occurrence of the row and loses none |
| Differences.SortByDate | src/features/differences.py:6 | the result is sorted by date and is a permutation of the input |
| Differences.PrevIndex | src/features/differences.py:7 | the latest earlier row of the group, if any; no row strictly between it and row `i` belongs to the group |
| Differences.GroupedDiff | src/features/differences.py:7 | one difference per row; `GroupedDiffIsPrevious` states which |
| Differences.GroupedDiffIsPrevious | src/features/differences.py:7 | the single pass with a last-value-per-group map gives, for each row, its sales less those of the previous row of its group, and is missing for a group's first row |
| Differences.AddDifferences | src/features/differences.py:5-8 | one output row per input row, each carrying an input row; `AddDifferencesSpec` gives the order, the permutation and the differences |
| Differences.AddDifferencesSpec | src/features/differences.py:5-8 | the result is a date-sorted permutation of the input rows, each with the difference to the previous row of its group in that order |
| Differences.DiffIsPreviousDate | src/features/differences.py:6-7 | on a date-sorted frame with one row per group and date, the difference is taken against the group's latest earlier date and is missing only when there is none, whatever the tie order |
| Differences.Mean | src/features/differences.py:13 | missing exactly for nothing to average; otherwise the mean times the count is the sum |
| Differences.CellTotalsAt | src/features/differences.py:11-13 | the running per-cell totals are the sum and count of that cell's present differences |
| Differences.CategoryMeanColumn | src/features/differences.py:11-13 | one mean per row; `CategoryMeanIsCellMean` states which |
| Differences.CategoryMeanIsCellMean | src/features/differences.py:11-13 | every row receives the mean of the present differences of its (category, date) cell, missing when the cell has none |
| Differences.SameCellSameMean | src/features/differences.py:11-13 | two rows with the same category and date receive the same `cat_mean_diff` |
| Differences.FeatureFrame.AddCategoryMeanDiff | src/features/differences.py:10-15 | the rows are unchanged and the `cat_mean_diff` column is set to the per-cell means, one per row |

## Left out

- Reading and writing files, logging, directories and `main`: they are I/O. The loaders' inputs (the raw tables, the metadata, the calendar, the prices) are parameters.
- `load_m4_info` only reads a file, so it has no model; its rows are the `info` parameter.
- `sample_m4_ids_by_category` draws seeded random samples, so it is not modelled. Its result is the `sampledIds` parameter of `LoadM4.BuildProcessedDailyTable`, so any sample is covered.
- Table columns are fixed by the row types. Columns the code only carries along (calendar attributes, metadata columns other than `category` and `SP`) are abstracted or dropped, and `inplace`/copy semantics of pandas are not modelled except for `add_category_mean_diff`.
- Floating point is modelled by exact reals: no rounding, no NaN propagation through arithmetic, no `inf` inputs. `Metrics.Wape`'s NaN and `inf` cover only the outcomes the code itself can produce from finite inputs.
- LoadM4.TimeIdx: `astype(int)` also accepts a sign or surrounding spaces; the model accepts only plain decimal digits after the `V` and treats any other suffix as a parse failure.
- Melt.WellFormed, required by the melts, says that every row has one cell per column. A pandas frame always has that shape, so the requirement excludes no real input.
- Merge keys are never missing in the model. The price table has no missing week (`PriceRow.wmYrWk` is an `int`), so a sale without a calendar row, whose week is missing, finds no price. Duplicate column names after a merge are not modelled.
- LoadM5.SalesLong: its `sales` field is an `int`, so a missing sales cell cannot be represented. `Melt` itself is generic over the cell type and handles missing cells for M4.
- LoadM4.LoadDailyWide: the model's identifier column is the table's first column. A `V1` among the other columns is renamed to `M4id` by `RenameColumns`, but the second `M4id` column this creates, which would make `df["M4id"]` a frame, is not modelled; the filter always reads the first column.
- Metrics.Wape: requires `y_true` and `y_pred` of equal length. numpy's behaviour on unequal lengths (the `IndexError` of the mask, or the error or length-1 broadcast of the subtraction) is not modelled.
- The default arguments `group_col="id"` and `required_days=731` are not fixed: the group key and `required_days` are parameters, so every value, the defaults included, is covered.
- Preprocessing.GetValidSeriesIds: pandas returns the group keys sorted. The model returns them in order of first appearance and states which ids are returned, not their order.
- Differences: dates are integer day ordinals and sales are reals without NaN. Rows whose group key or `cat_id` is missing would be left out of pandas' groups; this is not modelled.
- Differences.SortByDate is one stable sort. pandas' default sort is not stable, so its tie order may differ; `Differences.DiffIsPreviousDate` shows which results do not depend on it.
- Differences.GroupedDiff: its own contract gives only the length. Its meaning is stated by `Differences.GroupedDiffIsPrevious`.
- Differences.CategoryMeanColumn: the same holds, with the meaning stated by `Differences.CategoryMeanIsCellMean`.
