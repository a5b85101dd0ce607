# Data-cleaning pipeline: a Dafny model

This project models the cleaning core of a small tabular data-cleaning
application. The core is `full_clean_pipeline` (utils.py), which runs
eight column-wise steps in a fixed order:

1. null tokens become missing;
2. whitespace is stripped and collapsed;
3. text is title-cased, the platform and country values are corrected, and
   "certificate" is checked against an allow-list;
4. the six numeric columns are coerced, range-checked and median-filled;
5. the date columns are parsed;
6. "profit_cr" is derived from the box office and the budget;
7. duplicate rows are dropped;
8. "release_year", "duration_min" and "imdb_rating" are rounded.

The model also covers the imputation the application runs on the
pipeline's output (app.py). That is the user's per-column fill values, then
a median/mean strategy for numeric columns and a mode strategy for object
columns, then `finalize_types` once more. It also covers the before/after
report `generate_report`.

A table is a sequence of named columns of equal length with an explicit row
count (`Frame.Table`). A column has a dtype, `Object`, `Float`, `Int64`
(pandas' nullable integer) or `Datetime`, and a sequence of cells. A cell is
`Absent`, a string, an exact real number or a date. Every step is a pure
function from a well-formed table to a well-formed table. An operation
pandas would raise on returns `Fail` with the reason.

The modules follow the source:

- `Text` holds Python's string operations.
- `Stats` holds median, mean and rounding.
- `Frame` holds the table and its column assignment.
- `Normalize`, `Standardize`, `Numeric`, `Derived`, `Dedup`, `Finalize` and
  `Report` are one module per step.
- `Pipeline` composes the steps.
- `Guarantees` carries each step's promise to the end of the pipeline.
- `Modes` is `Series.mode()`.
- `Impute` is the application's imputation block.

Things the model states that the source only implies:

- **Exact null tokens.** A padded token such as `" null "` is not one of the
  thirteen tokens. The null step leaves it, and the whitespace step turns it
  into `"null"`. Title-casing then makes it `"Null"`, a present value. A
  padded token is not caught by the null step: the code matches tokens
  exactly.
- **An unreachable correction.** The correction key `"India "` (with a
  trailing space) can never match. By the time the corrections run, every
  text cell has been stripped.
- **Rounding can bring duplicates back.** Rounding runs after
  deduplication, so it can make two surviving rows equal. The pipeline
  therefore promises distinct rows only before rounding
  (`Dedup.DropDuplicatesSpec`). The final table is bounded by the input's
  height and nothing more.
- **The pipeline can raise.** `astype("Int64")` raises when a rounded
  value lies outside the 64-bit range, and "duration_min" has no upper bound.
  A duration of 1e19 makes the final step fail with `OutOfRange`
  (`Finalize.HugeDurationRaises`). "release_year" cannot overflow, because
  its range rule bounds it by the current year (`Guarantees.OnlyDurationOverflows`).
  An infinite duration, which `to_numeric` reads from text such as "inf",
  raises the same way. The model has no infinity (see "## Left out").
- **Durations can round to 0.** A duration must be above 0 to survive the
  range rule, but a duration of 0.4 rounds to 0. After rounding, durations
  are only guaranteed to be at least 0.
- **Some fills raise.** `fillna` on a nullable integer column with a
  non-integral number or a string raises in pandas. The application does
  not catch it. This happens for a manual fill of `"abc"` into
  "release_year", and for the mean of a "release_year" column whose years
  do not divide evenly. The model returns `Fail(RejectedFill(...))` in
  those cases (`Impute.FillColumn`, `Impute.ManualFillFails`,
  `Impute.NumericFill`).
- **The report sees the imputed table.** The report the application shows
  is computed on the stored table, after imputation.

## Model

| member | source | states |
|---|---|---|
| Normalize.FixTextualNulls | utils.py:14-20 | no cell is one of the thirteen tokens afterwards; a token cell becomes missing; every other cell, name and dtype is unchanged (exact match, no trimming) |
| Normalize.FixTextualNullsIdempotent | utils.py:14-20 | replacing the null tokens twice is replacing them once |
| Text.Strip | utils.py:27 | `str.strip()`: the result is a contiguous slice of the input with only whitespace cut from either end, it neither starts nor ends with whitespace, it keeps every non-whitespace character in order, and a string already stripped is returned as it is |
| Text.TrimStartEdge | utils.py:27 | what `lstrip` removes is all whitespace |
| Text.TrimEndEdge | utils.py:27 | what `rstrip` removes is all whitespace |
| Text.StripAround | utils.py:27 | stripping text that starts and ends inside words cuts only its outer ends |
| Text.Collapse | utils.py:28 | the `\s+` substitution yields empty text exactly for empty input and keeps a leading non-whitespace character; its other promises are the lemmas below |
| Text.CollapseIsCollapsed | utils.py:28 | every whitespace run becomes one plain space: no whitespace other than ' ' and no two adjacent (that each run becomes exactly one space is `Text.CollapseRun`) |
| Text.CollapseRun | utils.py:28 | a whitespace run between two words is replaced by exactly one space, and the text on either side is collapsed on its own |
| Text.CollapseKeepsNonSpace | utils.py:28 | the substitution drops or adds no non-whitespace character |
| Text.CollapseKeepsCollapsed | utils.py:28 | text without whitespace runs passes through the substitution unchanged |
| Text.Normalize | utils.py:27-28 | strip then collapse: the result is in normal form (no surrounding whitespace, no run, only plain spaces) with the same non-whitespace characters; `Text.NormalizeKeepsWordBreak` shows that a run between two words becomes one space rather than being deleted |
| Text.NormalizeKeepsNormalForm | utils.py:27-28 | text already in normal form is left as it is |
| Text.NormalizeIdempotent | utils.py:27-28 | stripping and collapsing twice is doing it once |
| Text.NormalizeKeepsWordBreak | utils.py:27-28 | whitespace between two words becomes one space after strip and collapse: no word boundary is deleted or merged |
| Text.NanIsNormal | utils.py:26-29 | the text "nan" of a missing cell normalizes to itself, so it is mapped back to missing |
| Normalize.WhitespaceCell | utils.py:24-29 | one cell: missing exactly when its normalized text is "nan" (so a missing cell stays missing); otherwise exactly the strip-then-collapse of its text; a cell already clean is kept |
| Normalize.CleanWhitespace | utils.py:22-31 | every cell of an object column is missing or exactly the strip-then-collapse of its text, in normal form and not "nan", missing exactly when that text is "nan"; non-object columns, names and dtypes unchanged |
| Normalize.CleanWhitespaceIdempotent | utils.py:22-31 | the whitespace step applied twice is applied once |
| Text.Upper | utils.py:64 | `str.upper()` character by character (ASCII letters) |
| Text.Lower | utils.py:35 | `str.lower()` character by character (ASCII letters) |
| Text.Title | utils.py:41 | `str.title()`: a letter is upper-case exactly when the character before it is not a letter; non-letters are kept; each character equals the input up to case |
| Text.TitleAt | utils.py:41 | one character of `str.title()`: equal to the input up to case, a letter exactly when the input is, upper-case exactly at the start of a word |
| Text.TitleIdempotent | utils.py:41 | title-casing a title-cased string changes nothing |
| Text.TitleFacts | utils.py:40-41 | title-casing keeps the text up to case and keeps the normal form |
| Standardize.TitleCell | utils.py:36-43 | one cell: missing exactly when its stripped text is empty (a missing cell stays missing); otherwise title-cased and equal, up to case, to its stripped text; a clean cell comes out tidy and a tidy cell is kept |
| Standardize.TitleCaseColumns | utils.py:34-43 | the loop title-cases every object column whose lower-cased name is not "certificate" and leaves all other columns unchanged |
| Standardize.ApplyCorrections | utils.py:45-58 | in "platform" and "country" a string cell equal to a key becomes its correction and every other cell is unchanged; every other column is unchanged |
| Standardize.CorrectionsAreTidy | utils.py:45-54 | every correction value is itself non-empty, title-cased text in normal form |
| Standardize.NanIsRejected | utils.py:61-68 | the text "nan" of a missing certificate upper-cases to "NAN", which the allow-list rejects |
| Standardize.CertificateCell | utils.py:61-68 | one certificate cell is its upper-cased, stripped text when that is U, UA or A, and missing otherwise; a missing cell stays missing |
| Standardize.EnforceCertificate | utils.py:60-68 | the allow-list applies to the column named exactly "certificate", which becomes an object column; every other column is unchanged |
| Standardize.StandardizeData | utils.py:33-70 | `standardize_data` keeps names and row count; only "certificate" can change dtype |
| Standardize.StandardizeCertificate | utils.py:60-68 | afterwards every "certificate" cell is missing or one of U, UA, A, and a missing cell stays missing |
| Standardize.StandardizeSkips | utils.py:34-35 | a column named "Certificate" (any other capitalisation) is neither title-cased nor allow-listed; a non-object column outside the correction table is untouched |
| Standardize.StandardizeTidies | utils.py:34-58 | an object column other than the exempt one, whitespace-clean on entry, holds only missing cells or non-empty title-cased normal-form text afterwards |
| Numeric.RuleFor | utils.py:73-108 | exactly the six candidate columns have a rule |
| Numeric.Coerce | utils.py:80 | `to_numeric(errors="coerce")`: numbers and missing cells stay; anything else becomes its parsed number, or missing when it does not parse |
| Numeric.Validate | utils.py:84-107 | a cell is kept, as its coerced number, exactly when that number is in range; otherwise it is missing |
| Numeric.Admitted | utils.py:100 | the values the median sees are all in range, and there are none exactly when no cell was kept |
| Numeric.MedianAdmitted | utils.py:98-108 | a median of in-range values is in range |
| Numeric.NumericColumn | utils.py:78-108 | one candidate column becomes float. Every present value is in range and every in-range value is kept. Without a fill, cells are missing exactly where the value did not coerce into range. With a fill, every gap holds the median of the kept values, or the column is all missing when none was kept |
| Numeric.FilledOutcome | utils.py:98-108 | with a fill and at least one kept value, filling the gaps with the median of the kept values keeps the cell count, leaves every present value in range, keeps every kept value as coerced, and puts the median in every other row |
| Numeric.UnfilledOutcome | utils.py:84-108 | without a fill, or with no kept value, the range-checked cells are missing exactly where the value failed and otherwise the coerced value |
| Numeric.NumericStep | utils.py:78-108 | a candidate column obeys its rule; any other column is unchanged |
| Numeric.ConvertAndValidateNumeric | utils.py:72-110 | each candidate column present becomes float and obeys its rule cell by cell; every other column is unchanged |
| Numeric.NumericColumnIdempotent | utils.py:78-108 | a column the step produced goes through it unchanged |
| Numeric.ConvertAndValidateNumericIdempotent | utils.py:72-110 | the numeric step applied twice is applied once |
| Numeric.NumericRanges | utils.py:82-108 | present release_year in [1800, year + 1], imdb_rating in [0, 10], duration_min above 0, budget_cr and box_office_cr at least 0; release_year and imdb_rating are missing exactly where the value failed, since they are never filled |
| Stats.Median | utils.py:100 | `median()`: defined exactly when there are values; the middle element of the sorted values for an odd count, the mean of the two middle elements for an even count; always between two of the values |
| Stats.MedianIsMiddle | utils.py:100 | at most half the values lie strictly below the median and at most half strictly above |
| Stats.SortedUnique | utils.py:100 | two sorted orderings of the same values are the same sequence, so the median does not depend on how the values are sorted |
| Stats.MedianOfSorted | utils.py:100 | for any sorted ordering of the values the median is its middle element (odd count) or the mean of its two middle elements (even count) |
| Stats.MedianAtLeast | utils.py:98-108 | a median of values above (or at least) a bound is above (at least) it |
| Stats.Mean | app.py:51 | `mean()`: defined exactly when there are values, and then times their count it is their sum |
| Stats.MeanBetween | app.py:51 | the mean lies between any bounds of the values |
| Stats.RoundHalfEven | utils.py:119 | `round()`: within one half of the value, and even on a tie |
| Stats.RoundHalfEvenUnique | utils.py:119 | those two properties determine the rounding |
| Stats.RoundIntegral | utils.py:119 | a whole number rounds to itself |
| Stats.Round1 | utils.py:125 | `round(1)`: at most one decimal place, within 0.05 of the value, and on a tie the even tenth |
| Stats.Round1OneDecimal | utils.py:125 | a value with one decimal place rounds to itself |
| Stats.Round1Unique | utils.py:125 | one decimal place, distance at most 0.05 and the even tenth on a tie determine `round(1)` |
| Derived.ToDate | utils.py:11 | `to_datetime(errors="coerce")`: dates and missing cells stay; anything else becomes its parsed date, or missing |
| Derived.ConvertDates | utils.py:7-12 | "order_date" and "Order Date" become datetime columns of parsed-or-missing cells; every other column is unchanged |
| Derived.ConvertDatesIdempotent | utils.py:7-12 | parsing dates twice is parsing them once |
| Derived.Wrap64 | utils.py:114 | 64-bit integer arithmetic: the result is in the 64-bit range, congruent to the input modulo 2^64, and the input itself when it fits |
| Derived.Difference | utils.py:114 | one row of the profit: a number exactly when both sides are; for float operands budget plus profit is box office; for 64-bit integer operands the result is the difference wrapped into the 64-bit range, and exact when it fits |
| Derived.ProfitColumn | utils.py:114 | the profit column is 64-bit integer when both inputs are, float otherwise, and row by row the difference |
| Derived.EnforceLogic | utils.py:112-115 | with both inputs present "profit_cr" is overwritten in place or appended last, and no other column changes; otherwise the table is unchanged |
| Derived.EnforceLogicConsistent | utils.py:112-115 | afterwards, wherever both inputs exist, each profit row is box office minus budget, or missing when either is |
| Derived.EnforceLogicIdempotent | utils.py:112-115 | deriving the profit twice is deriving it once |
| Frame.Find | utils.py:10 | `name in df.columns`: the position of the column of that name, or -1 exactly when there is none |
| Frame.Assign | utils.py:114 | `df[name] = column`: replaced where it stands or appended last; no other column or name position changes |
| Frame.AsText | utils.py:26 | `astype(str)` of a missing cell is "nan" and of a string is the string |
| Frame.Select | utils.py:138 | selecting rows and renumbering keeps columns, names and dtypes and takes each cell from its row |
| Dedup.Firsts | utils.py:138 | the positions of the first occurrences, increasing, exactly those rows equal to no earlier row |
| Dedup.DropDuplicates | utils.py:138 | `drop_duplicates().reset_index()`: same columns, names and dtypes, no more rows; a frame without columns is returned as it is |
| Dedup.DropDuplicatesSpec | utils.py:138 | survivors are pairwise distinct first occurrences in original order; every input row has an equal survivor at or before it; survivors plus duplicates make the input height |
| Dedup.DropDuplicatesRows | utils.py:138 | every row of the result is a row of the input |
| Dedup.DropDuplicatesIdempotent | utils.py:138 | deduplicating twice is deduplicating once, and the result has no duplicates to count |
| Dedup.CountDuplicated | utils.py:157 | `duplicated().sum()`: at most the height, below it for a non-empty table, zero exactly when the rows are distinct |
| Dedup.DistinctIffFirsts | utils.py:157 | rows are pairwise distinct exactly when each is a first occurrence |
| Frame.CountAbsent | utils.py:152 | missing cells of one column: exactly the number of times `Absent` occurs among its cells, so at most its length and zero exactly when none is missing |
| Frame.MissingSplit | utils.py:152 | the table-wide missing count is additive: the count over two groups of columns is the sum of their counts |
| Frame.MissingAppend | utils.py:152 | one more column adds exactly the number of its `Absent` cells to the table-wide missing count |
| Frame.NoneMissing | utils.py:152 | the table-wide missing count is zero exactly when no cell is missing |
| Frame.MissingBound | utils.py:152 | the table-wide missing count is at most the number of cells |
| Report.GenerateReport | utils.py:148-160 | two lines, "Missing Values" and "Duplicate Rows"; "Before" and "After" are the table-wide missing count and the duplicated-row count of the two tables; each is bounded by the cells or rows it counts and is zero exactly when nothing is missing, or (for a table with columns) no row repeats |
| Report.ReportAfterDedup | utils.py:148-160 | after deduplication the "After" duplicate count is 0 and the "Before" count is the number of rows dropped |
| Finalize.RoundCell | utils.py:119-125 | a cell is missing (a number) after rounding exactly when it was before; a number rounds to a whole number within one half, the even one on a tie, or to one decimal place within 0.05, the even tenth on a tie |
| Finalize.RoundColumn | utils.py:119-125 | rounding succeeds exactly on a numeric column whose rounded values, for a nullable integer target, all fit 64 bits; otherwise it fails with `NotNumeric`, or with `OutOfRange` for a value outside the 64-bit range; each cell is the rounding of its value |
| Finalize.FinalColumn | utils.py:117-127 | the three named columns are rounded, "release_year" and "duration_min" to nullable integers; any other column is unchanged |
| Finalize.FinalizeTypes | utils.py:117-127 | fails exactly when one of the three is present and not numeric, or "release_year" or "duration_min" rounds outside 64 bits, with the first failure in program order; otherwise rounds those three and keeps row count, names and every other column |
| Finalize.FinalizeTypesIdempotent | utils.py:117-127 | rounding a table it has produced changes nothing |
| Finalize.HugeDurationRaises | utils.py:121-122 | a "duration_min" of 1e19 makes the final step fail with `OutOfRange` |
| Finalize.Int64NeverOverflows | utils.py:119-122 | a column already of nullable integer type never rounds outside the 64-bit range |
| Pipeline.TextSteps | utils.py:132-134 | the three text steps keep the row count and the column names |
| Pipeline.NumberSteps | utils.py:135-136 | the numeric and date steps keep names and row count and leave every candidate column float |
| Pipeline.Prepared | utils.py:132-137 | after the first six steps every candidate column present is numeric, so the profit subtraction and the rounding apply |
| Pipeline.Deduplicated | utils.py:132-138 | the first seven steps leave a well-formed table no taller than the input in which each of the three rounded columns is numeric, so rounding cannot fail on type |
| Pipeline.FullCleanPipeline | utils.py:131-140 | the pipeline fails exactly when "release_year" or "duration_min" rounds outside the 64-bit range, and then with `OutOfRange` for that column; otherwise it returns a well-formed table of at most the input's height |
| Pipeline.CarriedThrough | utils.py:131-140 | a cell property the text steps establish, and that holds of any numeric, date, profit or rounded column, holds at the end |
| Guarantees.PipelineCertificate | utils.py:131-140 | when the pipeline succeeds, every "certificate" cell is missing or one of U, UA, A |
| Guarantees.PipelineText | utils.py:131-140 | when the pipeline succeeds, every present cell of an object column other than the exempt one is non-empty, title-cased, normal-form text |
| Guarantees.PipelineRanges | utils.py:131-140 | when the pipeline succeeds, release_year is whole in [1800, year + 1], imdb_rating in [0, 10] with one decimal place, duration_min whole and at least 0, budget and box office at least 0 |
| Guarantees.DeduplicatedInRange | utils.py:82-108 | before rounding, every present release_year is in [1800, year + 1], imdb_rating in [0, 10], duration_min above 0, budget and box office at least 0 |
| Guarantees.OnlyDurationOverflows | utils.py:118-122 | "release_year" never overflows, so a pipeline failure is always `OutOfRange("duration_min")` |
| Guarantees.PipelineFills | utils.py:131-140 | when the pipeline succeeds, duration_min, budget_cr and box_office_cr are either entirely present or entirely missing |
| Guarantees.PipelineProfit | utils.py:131-140 | when the pipeline succeeds, wherever both inputs exist, each profit row is box office minus budget, or missing when either is |
| Modes.Mode | app.py:56-57 | `mode()[0]`: present exactly when some cell is; a present value of the column, as frequent as any, and the smallest of the equally frequent ones |
| Modes.ModeUnique | app.py:56-57 | any value with those properties is the mode |
| Impute.FillColumn | app.py:47 | `fillna(v)`: fails exactly when a nullable integer column with a gap cannot hold v; otherwise gaps take v as the column stores it (a datetime column parses text as a timestamp), present cells are kept, and the dtype widens to object only when it cannot hold that value |
| Impute.DateTextFill | app.py:43-47 | text filled into a datetime column with a gap: text that parses as a timestamp fills the gaps with that date and keeps the column datetime; other text widens the column to object and fills the gaps with the text |
| Impute.TypedDateFill | app.py:43-47 | the date "2024-01-05" typed for an "order_date" column with a gap fills the gap with the parsed date and keeps the column datetime |
| Impute.FillColumnIdempotent | app.py:47 | filling twice with the same value is filling once |
| Impute.LiteralCell | app.py:43-46 | the literal is used as a number exactly when `float()` reads it, otherwise as text; never missing |
| Impute.FillFor | app.py:41-47 | the value the fills give a column: its literal when a fill names it, missing when none does |
| Impute.ManualFill | app.py:41-47 | when no fill raises, the row count and column names and order are kept |
| Impute.ManualFillFails | app.py:41-47 | the fills raise exactly when some fill names an existing column that rejects its literal, and then on the first such fill |
| Impute.ManualFillCells | app.py:41-47 | every column is its fill's `fillna` (a date typed for a datetime column is stored as a date): only existing columns named by a fill change, only in their gaps; unknown columns are ignored |
| Impute.ManualFillIdempotent | app.py:41-47 | the manual fills applied twice are applied once |
| Impute.MedianValue | app.py:51 | the column median is missing exactly when there is no value, and else lies between two values; `Impute.MedianValueOfSorted` gives its value |
| Impute.MedianValueOfSorted | app.py:51 | the median fill is the middle of any sorted ordering of the column's values, or the mean of the two middle ones for an even count |
| Impute.MeanValue | app.py:51 | the column mean is missing exactly when there is no value, and else is the sum over the count |
| Impute.ModeValue | app.py:56-57 | the column mode is missing exactly when every cell is, and else is the most frequent value, the smallest among ties |
| Impute.FillWithinBounds | app.py:51 | a median or mean fill lies within any bounds the column's values keep |
| Impute.FillPassFails | app.py:50-52 | a pass over the columns raises exactly when some planned column rejects its value, on the first such column |
| Impute.FillPassCells | app.py:50-52 | a pass that does not raise fills each planned column with its value and leaves every other column as it was |
| Impute.NumericFill | app.py:49-52 | "Do Not Fill" changes nothing; median or mean fills every numeric column with its own aggregate and leaves other columns; fails exactly when a numeric column rejects its aggregate |
| Impute.NumericFillComplete | app.py:49-52 | after the fill a numeric column keeps its dtype, has no gap if it had a value, and is unchanged if it had none |
| Impute.NumericFillIdempotent | app.py:49-52 | the numeric strategy applied twice is applied once |
| Impute.CategoricalFill | app.py:54-57 | "Do Not Fill" changes nothing; "Mode" fills every object column with its mode and leaves other columns; it never fails |
| Impute.ModeFillComplete | app.py:54-57 | after the mode fill an object column with a value has no gap; one without a value is unchanged |
| Impute.CategoricalFillIdempotent | app.py:54-57 | the categorical strategy applied twice is applied once |
| Impute.RunCleaning | app.py:39-59 | a pipeline failure is passed on unchanged; on success the stored table has the pipeline's row count and column names in order, and one more `finalize_types` leaves it unchanged |
| Impute.RunCleaningWithoutFills | app.py:39-59 | with no fills and both strategies off, the stored table is the pipeline's output |
| Impute.RunCleaningRounded | app.py:59 | in the stored table release_year and duration_min are nullable integers holding whole numbers, and imdb_rating values have at most one decimal place |

## Left out

- The Streamlit interface is not modelled: widgets, radio buttons, session state, charts, file upload and CSV export. It is presentation and I/O.
- File reading (`read_csv`, `read_excel`) is not modelled, because it is I/O. The model starts from a well-formed table.
- `pd.to_numeric` and `pd.to_datetime` are parameters of `Frame.Env` (`toNumeric`, `toDatetime`). So are `str()` of a non-string cell (`render`) and Python's `float()` of a fill literal (`parseFloat`). `fillna` parses text put into a datetime column with the same `toDatetime`. Their parsing rules belong to the libraries.
- `datetime.now().year` is the parameter `Env.currentYear`. The clock is outside the program.
- pandas' dtype inference is taken as given: each column carries its dtype. That includes which columns count as "object" and which as "number".
- `get_datatype_table` (utils.py:142-146) is not modelled. It only names pandas dtypes.
- Floating point is not modelled. Values are exact reals, so the 64-bit bound of `astype("Int64")` is applied to the exact rounded value. `round()` and `round(1)` are exact half-to-even rounding, and the IEEE artefacts of `round(1)` and of the mean are not represented.
- Non-finite numbers are not modelled. `toNumeric` and `parseFloat` return a real or nothing, so infinity cannot be expressed. Two places meet it:
  - `pd.to_numeric(errors="coerce")` (utils.py:80) reads text such as "inf" as infinity.
  - A fill literal such as "nan" or "inf" is read by `float()` as a non-finite float.
- Pipeline.FullCleanPipeline: an infinite "duration_min" is not among its failures. It passes the `<= 0` rule (utils.py:99), and `astype("Int64")` (utils.py:122) then raises. The model only has finite values, so its failures are the finite 64-bit overflows.
- Case mapping is ASCII-only. Python's `str.title`, `str.upper` and `str.lower` use Unicode case rules. The allow-list values and the exempt name are ASCII, but non-ASCII letters are treated as uncased.
- Numeric.ConvertAndValidateNumeric: every candidate column becomes a float column. The source's columns come from a CSV reader, and after `to_numeric` pandas may keep them as int64. Both are "number", and nothing downstream tells them apart.
- Modes.Mode: ties between values of different kinds (a number and a string in one object column) are ordered numbers first, then strings, then dates. When such modes cannot be compared, pandas does not raise: it warns and returns them unsorted, or (pandas 2.x) puts numbers before strings with timestamps among the numbers. The model always uses its own order.
- Impute.RunCleaning: the numeric strategy takes a column's median or mean over its values as they stand when the loop starts. The loop changes only the column it is on, so this equals the sequential code.
- Report.GenerateReport: the call site in the application (which tables it is shown for) is not modelled, since it is display.
