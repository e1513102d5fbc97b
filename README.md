# Customer data cleaning, modelled in Dafny

`data_cleaning.py` is a pandas batch script that cleans the customer table of the
"Customer Personality Analysis" data set. This project models the table transformations
it applies, in the script's order, and proves what each of them guarantees.

- **Duplicate rows.** `df.duplicated().sum()` counts the repeated rows (line 30), and
  `drop_duplicates` keeps the first occurrence of each distinct row (line 41).
- **Income imputation.** When `Income` has a gap, the median of its numbers is taken
  once and fills every missing cell (lines 50-52).
- **Column labels.** Every label is standardized: lower-cased, stripped, spaces replaced
  by `_` (line 66).
- **Enrollment date.** `dt_customer` is parsed (line 72). The parser is a parameter.
- **Categorical columns.** `education` and `marital_status` are lower-cased and stripped
  (lines 82, 89).
- **Outliers.** `detect_outliers` applies the interquartile-range rule with pandas'
  linear-interpolation quantile (lines 98-105). The loop over the numerical columns then
  clips each column that has an outlier (lines 111-118).
- **Text rendering.** The categorical columns are rendered as text (lines 130-133).
- **Quality score.** The report prints a data-quality score (line 212).

Files, one module each:

- `frames.dfy` (`Frames`): the table value.
  - `Frame` holds column labels and rows. `Cell` is one of `Missing` (NaN/NaT), a number
    (an exact real), text, or a date.
  - `Error` lists the conditions that abort the script: a missing column (`KeyError`),
    text where the median or a quantile needs numbers (`TypeError`), and a rejected date.
- `dedup.dfy` (`Dedup`): `duplicated()` and `drop_duplicates()`. A missing cell equals a
  missing cell, as pandas treats NaN when it compares rows.
- `stats.dfy` (`Stats`): sorting, the linear-interpolation quantile and the median, over
  the non-missing values.
- `text.dfy` (`Text`): Python's `lower`, `strip` and `replace(' ', '_')`.
- `impute.dfy`, `names.dfy`, `dates.dfy`, `categorical.dfy`, `outliers.dfy`,
  `quality.dfy`: one step each, as functions on table values.
- `pipeline.dfy` (`Pipeline`): the steps composed in the script's order
  (`Prepared`, then `CapAll`, together `Cleaned`). This is the specification of the
  imperative model.
- `tables.dfy` (`Tables`): the script body as it runs.
  - `Table` is a class whose `columns` and `rows` each step replaces, as the script
    reassigns `df`.
  - The loops over column lists at lines 111-118 (capping) and 130-133 (rendering as
    text) are `while` loops with invariants. The `to_numeric` loop at lines 125-127 is
    not modelled (see "Left out").
  - `Clean` runs the steps in order and stops at the first failure. It is proved to leave
    the table holding `Pipeline.Cleaned` of the table it started from.

## Model

| member | source | states |
|---|---|---|
| Frames.IndexOf | data_cleaning.py:50 | `df[name]` for a label present once: the position of the column carrying it (no earlier column carries it) |
| Frames.NumValues | data_cleaning.py:51 | the values pandas' `median` and `quantile` look at (skipna): a number is among them iff the column holds it, and there are no more of them than cells |
| Frames.NumValuesCounts | data_cleaning.py:51 | each number occurs among the values exactly as often as the column holds it |
| Frames.NumValuesEmpty | data_cleaning.py:51 | a column of numbers and missing cells has no value to take the median of exactly when every cell is missing |
| Frames.NumValuesAppend | data_cleaning.py:51 | the values keep the column's order: those of two stacked parts are those of the top part followed by those of the bottom part |
| Frames.MissingCount | data_cleaning.py:50 | `isnull().sum()` of a column is the number of its missing cells (their count in the column's multiset), at most its length, and 0 exactly when no cell is missing |
| Dedup.CountTrueCounts | data_cleaning.py:30 | `.sum()` of a boolean mask is the number of its true entries |
| Dedup.DuplicatedCount | data_cleaning.py:30 | `df.duplicated().sum()` is at most the row count |
| Dedup.DuplicatedCountIsFlagged | data_cleaning.py:30 | the duplicate count is the number of rows the `duplicated()` mask flags |
| Dedup.Duplicated | data_cleaning.py:30 | the `duplicated()` mask flags row i exactly when an equal row occurs before it |
| Dedup.DropDuplicates | data_cleaning.py:41 | `drop_duplicates()` never adds rows and always keeps the first row in front; the lemmas below state the rest |
| Dedup.DropDuplicatesIsUnflaggedRows | data_cleaning.py:30-41 | `drop_duplicates()` keeps exactly the rows `duplicated()` does not flag |
| Dedup.DropDuplicatesSameRows | data_cleaning.py:41 | a row value occurs after dropping iff it occurred before: no distinct row is lost or invented |
| Dedup.DropDuplicatesKeepsFirst | data_cleaning.py:41 | the first occurrence of every row survives, and sits right after the rows kept from above it |
| Dedup.DropDuplicatesPrefix | data_cleaning.py:41 | the rows kept from a top part of the table are the first rows of the result |
| Dedup.DropDuplicatesOrder | data_cleaning.py:41 | of two first occurrences, the earlier one comes first in the result |
| Dedup.DropDuplicatesDistinct | data_cleaning.py:41 | no two rows of the result are equal |
| Dedup.DropDuplicatesCount | data_cleaning.py:30-42 | the result has exactly as many rows fewer as the duplicate count taken at line 30 |
| Dedup.NoDuplicatedIffDistinct | data_cleaning.py:30 | the duplicate count is 0 iff all rows are distinct |
| Dedup.DropDuplicatesOfDistinct | data_cleaning.py:41 | on distinct rows, dropping duplicates changes nothing |
| Dedup.DropDuplicatesIdempotent | data_cleaning.py:41 | dropping twice equals dropping once, and leaves a duplicate count of 0 |
| Dedup.DropDuplicatesWellFormed | data_cleaning.py:41 | every row of the result still has one cell per column |
| Stats.Sort | data_cleaning.py:99-100 | sorting gives an ordered permutation of the values |
| Stats.SortOfSorted | data_cleaning.py:99-100 | values already in order sort to themselves |
| Stats.InterpolateBracket | data_cleaning.py:99-100 | the interpolated value lies between the two neighbours it interpolates |
| Stats.InterpolateMonotone | data_cleaning.py:99-100 | interpolating further along sorted values never gives less |
| Stats.Position | data_cleaning.py:99-100 | the fractional position (n-1)q of a quantile lies within the sorted values |
| Stats.Quantile | data_cleaning.py:99-100 | the 0 quantile is the smallest value and the 1 quantile the largest; QuantileMonotone and QuantileBetween state the rest |
| Stats.QuantileMonotone | data_cleaning.py:99-101 | a larger q never gives a smaller quantile, so Q1 <= Q3 and the IQR is not negative |
| Stats.QuantileBetween | data_cleaning.py:99-100 | a quantile lies within any range holding all the values |
| Stats.Median | data_cleaning.py:51 | for an odd number of values the median is one of them; MedianIsMiddleQuantile and MedianBetween state the rest |
| Stats.MedianIsMiddleQuantile | data_cleaning.py:51 | the median (middle value, or mean of the two middle ones) is the 0.5 quantile |
| Stats.MedianBetween | data_cleaning.py:51 | the median lies within any range holding all the values |
| Text.LowerChar | data_cleaning.py:66 | an upper-case letter A-Z becomes the lower-case letter at the same place in the alphabet; the result has no upper-case letter, whitespace stays whitespace, and other characters are left alone |
| Text.Lower | data_cleaning.py:66 | `lower()` keeps the length and lower-cases character by character |
| Text.SkipSpaces | data_cleaning.py:66 | the scan from the front stops at the first non-whitespace character, having passed only whitespace |
| Text.SkipSpacesBack | data_cleaning.py:66 | the scan from the back stops after the last non-whitespace character, having passed only whitespace |
| Text.Strip | data_cleaning.py:66 | `strip()` never lengthens its argument; StripTrims states the rest |
| Text.StripTrims | data_cleaning.py:66 | `strip()` returns the slice between the leading and the trailing whitespace, and the result has no whitespace at either end |
| Text.ReplaceSpaces | data_cleaning.py:66 | `replace(' ', '_')` keeps the length, turns each space into `_`, and keeps every other character |
| Text.StandardizeName | data_cleaning.py:66 | a standardized label has no upper-case letter, no space, and no whitespace at either end |
| Text.StandardizeNameIdempotent | data_cleaning.py:66 | standardizing a standardized label changes nothing |
| Text.StandardizeYearBirth | data_cleaning.py:184 | the report's example holds: the label "Year_Birth" becomes "year_birth" |
| Text.StandardizePaddedYearBirth | data_cleaning.py:66 | the label "Year_Birth " with a trailing space also becomes "year_birth", because line 66 strips before it replaces |
| Text.ReplaceFirstKeepsPad | data_cleaning.py:66 | replacing before lower-casing and stripping would turn the same label into "year_birth_", so the order of line 66 matters |
| Text.NormalizeValue | data_cleaning.py:82 | a normalized value has no upper-case letter and no whitespace at either end |
| Text.NormalizeValueIdempotent | data_cleaning.py:82 | normalizing a normalized value changes nothing |
| Impute.FillCell | data_cleaning.py:52 | `fillna(m)` on one cell: a missing cell becomes m, any other cell is kept, and the result is never missing |
| Impute.ImputeIncome | data_cleaning.py:50-52 | the step fails exactly when the column is absent or has a gap and holds text; the error says which; otherwise the shape is kept |
| Impute.ImputeFillsEveryGap | data_cleaning.py:50-52 | with a gap, every missing income cell becomes the median of the numbers present before filling, other cells and columns are unchanged, and no income cell is missing afterwards |
| Impute.ImputeWithoutGapsIsIdentity | data_cleaning.py:50 | with no gap the table is untouched |
| Impute.ImputeWithoutNumbersIsIdentity | data_cleaning.py:50-52 | an income column whose every cell is missing has a NaN median, and filling with it leaves the table untouched |
| Impute.ImputedValueInRange | data_cleaning.py:51 | the fill value lies within the range of the incomes present |
| Impute.ImputeIdempotent | data_cleaning.py:50-52 | imputing again after a successful imputation changes nothing |
| Names.StandardizeColumns | data_cleaning.py:66 | each new label is the standardized old label at the same position; the rows and the column count are unchanged |
| Names.StandardizeColumnsIdempotent | data_cleaning.py:66 | renaming twice renames once |
| Dates.ParseCells | data_cleaning.py:72 | succeeds iff every cell parses, giving the parsed cells in order; otherwise reports the first rejected position and its raw value |
| Dates.ParseDates | data_cleaning.py:72 | an absent column fails; otherwise succeeds iff every date cell parses, replaces only that column, and keeps the shape |
| Categorical.NormalizeCell | data_cleaning.py:82 | `.str.lower().str.strip()` on one cell: the result is normalized (a second pass keeps it), and is text exactly when the cell was text |
| Categorical.NormalizeCategorical | data_cleaning.py:82 | an absent column fails; otherwise each cell of the column becomes its lower-cased, stripped text (NaN for a non-string), every other cell is unchanged, and every cell of the column is normalized |
| Categorical.NormalizeCategoricalIdempotent | data_cleaning.py:82 | normalizing a column twice equals normalizing it once |
| Categorical.AsStrCell | data_cleaning.py:133 | `astype(str)` on one cell: NaN becomes "nan", any other cell is kept, and the result is never missing |
| Categorical.AsStrOne | data_cleaning.py:133 | one listed column that is present has each cell rendered; every other cell, the labels and the row count are unchanged |
| Categorical.AsStr | data_cleaning.py:130-133 | rendering keeps the labels, the row count and the row widths |
| Categorical.AsStrColumn | data_cleaning.py:130-133 | a listed, present column has each cell rendered (NaN becomes "nan"); every other column is unchanged |
| Categorical.AsStrKeepsNormalized | data_cleaning.py:133 | a rendered normalized cell is normalized text |
| Outliers.IqrBounds | data_cleaning.py:99-103 | lower <= Q1 <= Q3 <= upper, so the bounds never cross |
| Outliers.IsOutlier | data_cleaning.py:104 | only a number can be an outlier: NaN compares false against both bounds |
| Outliers.OutlierIffClipMoves | data_cleaning.py:104-117 | with bounds that do not cross, a cell is an outlier iff clipping changes it |
| Outliers.OutlierRows | data_cleaning.py:104 | a row is selected iff its cell is a number strictly outside the bounds; some row is selected iff some cell is an outlier |
| Outliers.OutlierRowsAppend | data_cleaning.py:104 | the selection keeps the original order: selecting from a followed by c is the selection from a followed by that from c |
| Outliers.DetectOutliers | data_cleaning.py:98-105 | fails iff the column holds text; the bounds are absent (NaN) iff the column has no number, and then no row is returned; otherwise they are the IQR bounds and the rows returned are `OutlierRows`: exactly the rows outside the bounds, in their original order and with their repeats |
| Outliers.ClipCell | data_cleaning.py:117 | clipping keeps non-numbers, puts every number within valid bounds, and leaves a value inside them unchanged |
| Outliers.ClipIsNearest | data_cleaning.py:117 | a clipped number is the point of the interval nearest to the original |
| Outliers.ClipIdempotent | data_cleaning.py:117 | clipping to the same bounds twice is clipping once |
| Outliers.CapColumn | data_cleaning.py:112-117 | an absent column is skipped; the step fails iff the column holds text; otherwise every cell of the column equals its clip to the IQR bounds (which is the identity when there is no outlier), and nothing else changes |
| Outliers.CapColumnClips | data_cleaning.py:114-117 | a numeric column with an outlier is replaced by its clip to its bounds |
| Outliers.CapColumnWithinBounds | data_cleaning.py:111-118 | after capping, each number of the column lies within the bounds taken before, none is an outlier by them, and missing cells stay missing |
| Outliers.CapWithoutOutliersIsIdentity | data_cleaning.py:114 | a column with no outlier is left untouched |
| Outliers.ConstantBounds | data_cleaning.py:99-103 | for equal values both bounds collapse to that value |
| Outliers.ConstantColumnHasNoOutliers | data_cleaning.py:98-105 | a column whose numbers are all equal has no outlier |
| Outliers.CapSpike | data_cleaning.py:98-117 | the column a, 0, 0, 0 with a < 0 is capped to 0.625a, 0, 0, 0 |
| Outliers.CappingNotIdempotent | data_cleaning.py:111-118 | capping twice differs from capping once: -100 becomes -62.5, then -39.0625 |
| Outliers.CapLeavesNumeric | data_cleaning.py:113-117 | a capped present column holds only numbers and missing cells |
| Outliers.CapKeepsNumeric | data_cleaning.py:117 | capping keeps any numeric column numeric |
| Quality.MissingCells | data_cleaning.py:147 | the table's missing-cell count is 0 exactly when no row has a missing cell |
| Quality.MissingCellsCountsCells | data_cleaning.py:147 | `df.isnull().sum().sum()` is the number of missing cells in the whole table, row after row |
| Quality.PercentBounds | data_cleaning.py:212 | x/n*100 is at most 100 iff x <= n, exactly 100 iff x = n, and not negative iff x >= 0 |
| Quality.QualityScore | data_cleaning.py:212 | the score is undefined (NaN) iff there are no rows, never exceeds 100, and is 100 iff nothing is missing or duplicated |
| Quality.QualityScoreCanBeNegative | data_cleaning.py:212 | one row with two missing cells scores -100 |
| Quality.CleanRowsBounds | data_cleaning.py:147-148 | at most missing + duplicates rows are unclean, and all rows are clean iff nothing is missing or duplicated |
| Quality.RowQualityScore | data_cleaning.py:212 | the corrected score is undefined iff there are no rows, lies in [0, 100], is 100 iff nothing is missing or duplicated, and is never below the score as written |
| Pipeline.CapAll | data_cleaning.py:111-118 | the loop over the numerical columns keeps the labels, the row count and the row widths |
| Pipeline.CapAllClips | data_cleaning.py:111-118 | for listed labels that do not repeat, each listed present column ends as its cells clipped to the bounds computed from it before the loop, whichever columns are capped before or after it |
| Pipeline.CapAllKeepsOthers | data_cleaning.py:111-118 | a column whose label is not listed keeps every cell |
| Pipeline.CapAllNumeric | data_cleaning.py:111-127 | after the loop every listed present column holds only numbers and missing cells, so `to_numeric` has nothing to coerce |
| Pipeline.CapAllKeepsNumeric | data_cleaning.py:111-118 | the loop keeps a numeric column numeric |
| Pipeline.CapAllOkIff | data_cleaning.py:111-118 | the loop goes through exactly when every listed column present holds only numbers and missing cells; absent labels are skipped |
| Pipeline.CapColumnNumericSame | data_cleaning.py:113-118 | capping one column leaves every column exactly as numeric as it was |
| Pipeline.NormalizeCategoricals | data_cleaning.py:82-89 | after both normalizations the two categorical columns are present and hold only normalized cells; the labels and the row count are unchanged |
| Pipeline.Prepared | data_cleaning.py:30-89 | after the steps up to line 89 the labels are standardized, the row count is the input's minus its duplicate count, and both categorical columns are present with only normalized cells |
| Pipeline.Cleaned | data_cleaning.py:30-133 | the whole script keeps the column count with standardized labels, and removes exactly the duplicates counted at line 30 |
| Pipeline.CleanedOkIff | data_cleaning.py:30-133 | once the steps up to line 89 go through, the script runs to its end exactly when every listed numerical column present is numeric |
| Pipeline.CleanedCategoricalText | data_cleaning.py:82-133 | after the whole script both categorical columns hold only lower-cased, stripped text |
| Pipeline.CleanedNumeric | data_cleaning.py:108-133 | after the whole script every present numerical column holds only numbers and missing cells |
| Pipeline.CleanedCapped | data_cleaning.py:98-133 | after the whole script each present numerical column is its cells as they stood after line 89, clipped to the bounds computed from them, so every number in it lies within those bounds |
| Pipeline.CategoricalNotNumerical | data_cleaning.py:108-130 | no categorical column is among the numerical ones |
| Tables.Table.constructor | data_cleaning.py:10 | the table starts as the table read |
| Tables.Table.DropDuplicates | data_cleaning.py:30-41 | returns the duplicate count and leaves the deduplicated rows, which are that many fewer |
| Tables.Table.ImputeIncome | data_cleaning.py:50-52 | on success the table is `Impute.ImputeIncome` of the old one; on failure it reports that error and is unchanged |
| Tables.Table.StandardizeColumnNames | data_cleaning.py:66 | the table becomes `Names.StandardizeColumns` of the old one |
| Tables.Table.ParseDates | data_cleaning.py:72 | on success the table is `Dates.ParseDates` of the old one; on failure it reports that error and is unchanged |
| Tables.Table.NormalizeCategorical | data_cleaning.py:82 | on success the table is `Categorical.NormalizeCategorical` of the old one; on failure it reports that error and is unchanged |
| Tables.Table.CapColumn | data_cleaning.py:112-117 | on success the table is `Outliers.CapColumn` of the old one; on failure it reports that error and is unchanged |
| Tables.Table.CapOutliers | data_cleaning.py:111-118 | the loop leaves the table `Pipeline.CapAll` computes, or reports that function's error |
| Tables.Table.CoerceColumn | data_cleaning.py:133 | the table becomes `Categorical.AsStrOne` of the old one |
| Tables.Table.CoerceCategorical | data_cleaning.py:130-133 | the loop leaves the table `Categorical.AsStr` computes |
| Tables.Clean | data_cleaning.py:30-133 | returns the duplicate count of line 30; succeeds iff `Pipeline.Cleaned` does, leaving its table, and otherwise reports its error |

## Where the code and its specification differ

The model follows the code in each of these cases.

- **Label order.** The design specification's rule reads: "map every column name to
  `trim → lowercase → replace spaces with underscores`". Its testable property reads:
  "For every output column name, the name equals
  `trim(lowercase(replace(original_name, " ", "_")))`". The code does lower, then
  strip, then replace (line 66). That order agrees with the rule, since lower-casing
  leaves whitespace alone. The property replaces first, and differs from the code on
  a label with a leading or trailing space. The specification's own example, "column
  `"Year_Birth "` becomes `"year_birth"`", holds for the code
  (`Text.StandardizePaddedYearBirth`). The property's order gives "year_birth_"
  instead (`Text.ReplaceFirstKeepsPad`).
- **Label collisions.** The specification's rule reads: "Must be collision-free (no two
  distinct source names map to the same target name; treat a collision as
  `SchemaError`)". The code does not check. Two labels that standardize alike both
  stay, and pandas' `df[name]` then selects every column with that label. Such tables
  are outside this model (see "Left out").
- **Date round trip.** The specification promises: "For every row, the parsed
  enrollment date round-trips: formatting the parsed date back to day-month-year
  reproduces the original string". The code only parses.
- **Idempotence.** The specification says the cleaner has "six ordered sub-steps, each
  idempotent when reapplied to already-clean data", and: "Idempotence: running the full
  pipeline twice on the already-cleaned output changes nothing on the second pass (zero
  duplicates removed, zero values imputed, zero values clipped)". Capping is not
  idempotent: the bounds are recomputed from the capped column
  (`Outliers.CappingNotIdempotent`). The other steps are idempotent on their own
  (`Dedup.DropDuplicatesIdempotent`, `Impute.ImputeIdempotent`,
  `Names.StandardizeColumnsIdempotent`,
  `Categorical.NormalizeCategoricalIdempotent`).

## Left out

- Tables whose column labels repeat, in the file read or after standardization, are
  outside the model. On such a table pandas' `df[name]` returns every column with that
  label: the `if` at line 50 raises `ValueError`, lines 82 and 89 raise
  `AttributeError`, and line 133 renders all of those columns. The model's
  `Frames.IndexOf` addresses only the first of them, so its results for such a table
  are not the script's.
- Reading the TSV (line 10), writing the CSV and the report (lines 155, 231-232), every
  `print`, and the report's timestamp. These are I/O and presentation only.
- The checks at lines 24-27 and 56-61 only print. The missing count printed at line 53
  is taken after filling.
- `pd.to_datetime` (line 72) is a parameter `parse: Cell -> Option<Cell>`. Its format
  rules live in pandas and are not part of this model. A column that is already
  datetime is passed to `parse` like any other.
- `pd.to_numeric(errors='coerce')` (lines 125-127) is not modelled as a step.
  `Pipeline.CapAllNumeric` and `Pipeline.CleanedNumeric` prove that once the outlier
  loop has succeeded, every listed present column holds only numbers and missing cells,
  so the coercion has nothing to change.
- Floating-point arithmetic. Numbers are exact reals, so the quantile, median, bounds and
  score carry no rounding.
- Data types. Cells are typed one by one. A column is treated as numeric when it holds
  only numbers and missing cells. The median or a quantile of any other column is the
  `TypeError` pandas raises for text, including a column of dates, on which pandas
  would compute a datetime quantile.
- The model's `Text.Lower` lower-cases only the letters A-Z. Python's `str.lower`,
  which `.str.lower()` calls, lower-cases every cased Unicode letter. Whitespace for
  `strip()` is Python's `str.isspace` set.
- `.str` on a column that holds no string at all raises `AttributeError` in pandas. The
  model yields NaN for each non-string cell, as pandas does for a column that mixes
  strings and other values.
- `astype(str)` renders a number or a date as pandas formats it. The model renders only
  NaN (as "nan") and keeps text. After the earlier steps, the categorical columns hold
  nothing else.
- Tables.Table.CapOutliers: on failure the table is left unspecified. The script aborts
  with the columns before the failing one already capped.

## Findings

| source | as written | input that shows it | evidently intended | confidence | as-written member | corrected member |
|---|---|---|---|---|---|---|
| data_cleaning.py:212 | subtracts the number of missing cells from the number of rows, so the "percentage" goes below 0 | one row with two missing cells scores -100 | the share of rows that are complete and not duplicated, within 0-100 | medium, not executed | Quality.QualityScoreCanBeNegative | Quality.RowQualityScore |
