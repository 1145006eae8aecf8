# Job-postings cleansing layer in Dafny

This project models the cleansing layer of a pipeline that explores and
cleans job postings scraped from Monster.com (`lib/cleansing_utils.py`),
together with the hours-per-year assumption that the exploration script
passes to it. The layer has four operations on a pandas DataFrame:

- `drop_uniform_columns` drops every column whose count of distinct
  non-null values is exactly 1, and returns a copy;
- `drop_duplicate_rows` keeps the first row of every group of rows that
  agree on all columns except `page_url` and `uniq_id`, and returns a copy;
- `standardise_job_type` rewrites the `job_type` column, in place, to
  `Full Time`, `Part Time` or `Other`;
- `standardise_salaries` reads ranges such as `$50,000 - $70,000 /year` or
  `$15 - $20 /hour` from the `salary` column, and writes, in place, the
  yearly midpoint, the hourly midpoint and a standardised yearly figure
  (hourly figures are scaled by 40 × (52 − 5) = 1880 hours).

Files and modules:

- `wrappers.dfy` (`Wrappers`): `Option`.
- `pystr.dfy` (`PyStr`): the Python string operations the layer uses:
  `pat in s`, `s.split(sep)[0]`, `s.split(sep)[0:2]`, `s.replace(a, b)` for
  one character, and `s.strip()` with Python's full set of white-space
  characters. It also holds the lemmas that describe how they act on
  concatenations.
- `pyfloat.dfy` (`PyFloat`): Python's `float(str)`, following its documented
  grammar (sign, digit groups with `_`, decimal point, exponent,
  surrounding white space), read as an exact rational.
- `frames.dfy` (`Frames`): a DataFrame as a value (`Frame`: a header of
  distinct names and rectangular rows of `Cell`s, a cell being null, a
  string or a number). It holds `df[name]` (`Column`), `df[name] = values`
  (`SetColumn`), and the class `Table`, a frame that callers share and that
  `Assign` changes in place.
- `cleansing_utils.dfy` (`CleansingUtils`): the four operations and their
  properties. The two filters are functions on `Frame`s, because the
  source returns new frames. The two `standardise_*` operations are methods
  that change a `Table` in place and report `Ok`, `KeyError` or `TypeError`.
  Each is proved against a function that gives the frame they leave behind.
  The salary mappers, the job-type classifier and `combine_salaries` are
  functions.
- `explore_and_cleanse.dfy` (`ExploreAndCleanse`): `HOURS_WORKED_PER_YEAR`
  and what it makes of posted ranges.

The salary parser is paired with a renderer: `RenderRange(lo, hi, unit)`
writes `$lo - $hi <unit>`. `ParseRenderedRange` proves that the parser
reads back exactly `float(lo)` and `float(hi)`, commas removed, for any
amount text without `/`, `-`, `$` or padding. `WholeRangeMidpoint` proves
that for whole numbers the mapper returns their exact midpoint.

## Model

| member | source | states |
|---|---|---|
| CleansingUtils.DropUniformColumns | lib/cleansing_utils.py:23-30 | keeps a column if and only if its number of distinct non-null values is not 1; every row is kept; the kept columns keep their order and their cells |
| CleansingUtils.NUniqueZero | lib/cleansing_utils.py:26 | `nunique()` of a column is 0 exactly when every cell in it is null |
| CleansingUtils.AllNullColumnKept | lib/cleansing_utils.py:26 | a column with no non-null value (0 distinct values) survives |
| CleansingUtils.SingleValueColumnDropped | lib/cleansing_utils.py:26 | a column whose non-null cells all hold one value, nulls allowed, is dropped |
| CleansingUtils.TwoValuesColumnKept | lib/cleansing_utils.py:26 | a column with two different non-null values survives |
| CleansingUtils.DropUniformColumnsLeavesNoUniform | lib/cleansing_utils.py:26 | no column of the result has exactly one distinct non-null value |
| CleansingUtils.DropUniformColumnsNoop | lib/cleansing_utils.py:26 | a frame without such a column comes back unchanged |
| CleansingUtils.DropUniformColumnsIdempotent | lib/cleansing_utils.py:26 | dropping uniform columns twice gives the same frame as once |
| CleansingUtils.DropDuplicateRows | lib/cleansing_utils.py:33-51 | same header; rows are the first of each group of rows agreeing outside the ignored columns, in their original order; no two output rows agree; never more rows than the input |
| CleansingUtils.FirstOfGroupOf | lib/cleansing_utils.py:47 | every row has a first row of its group at or before it |
| CleansingUtils.DropDuplicateRowsCovers | lib/cleansing_utils.py:47 | every input row agrees with some output row outside the ignored columns |
| CleansingUtils.IgnoringAbsentNames | lib/cleansing_utils.py:47 | ignored names that are not columns have no effect |
| CleansingUtils.RepostsKeptOnce | explore_and_cleanse.py:45-46 | with `page_url` and `uniq_id` ignored, every input row is matched by exactly one output row that agrees with it outside those columns |
| CleansingUtils.DropDuplicateRowsIdempotent | lib/cleansing_utils.py:47 | dropping duplicates twice gives the same frame as once |
| CleansingUtils.AggregateJobType | lib/cleansing_utils.py:56-68 | null stays null; any other value becomes one of `Full Time`, `Part Time`, `Other` |
| CleansingUtils.AggregateJobTypeRules | lib/cleansing_utils.py:56-68 | for each category, both directions: `Full Time` if the text contains "Full Time"; `Part Time` if it does not but contains "Part Time"; `Other` if it contains neither |
| CleansingUtils.CategoriesClassifyAsThemselves | lib/cleansing_utils.py:62-67 | each category name is classified as itself |
| CleansingUtils.AggregateJobTypeIdempotent | lib/cleansing_utils.py:56-68 | classifying a classified job type gives it back |
| CleansingUtils.StandardiseJobType | lib/cleansing_utils.py:54-72 | a missing `job_type` column gives `KeyError`, a number in it gives `TypeError`, both leaving the table unchanged; otherwise the table becomes the frame with `job_type` aggregated |
| CleansingUtils.JobTypesStandardisedCells | lib/cleansing_utils.py:70 | same header and rows; each `job_type` cell is the category of the cell it replaced; every other cell is unchanged |
| CleansingUtils.JobTypesStandardisedIdempotent | lib/cleansing_utils.py:70 | standardising job types a second time changes nothing |
| CleansingUtils.AmountsText | lib/cleansing_utils.py:90-91 | there is amounts text exactly when the unit marker occurs; it holds no `$` |
| CleansingUtils.ParseAmountReads | lib/cleansing_utils.py:95-96 | a bound is what `float()` reads from the field with its commas removed; the extra `strip()` and a second comma removal change nothing |
| CleansingUtils.ParseFields | lib/cleansing_utils.py:92-98 | bounds are read only when the amounts text contains `-` |
| CleansingUtils.FieldsAfterSecondDashIgnored | lib/cleansing_utils.py:93 | with `split("-")[0:2]`, text after a second `-` has no effect on the bounds |
| CleansingUtils.ParseRange | lib/cleansing_utils.py:90-98 | a range is read only when the unit marker occurs in the salary |
| CleansingUtils.TextAfterUnitIgnored | lib/cleansing_utils.py:90-91 | with `split(unit)[0]`, text after the unit marker has no effect on the range |
| CleansingUtils.MapAvgSalary | lib/cleansing_utils.py:86-115 | a value exactly when the salary is non-null and the range parses; the value is the midpoint `(lo + hi) / 2` and lies between `lo` and `hi` when `lo <= hi` |
| CleansingUtils.RenderedAmounts | lib/cleansing_utils.py:90-91 | in `$lo - $hi <unit>` the unit occurs, and the text before it, `$` blanked and stripped, is `lo -  hi` |
| CleansingUtils.RenderedFields | lib/cleansing_utils.py:92-93 | `lo -  hi` contains `-` and splits into `lo ` and `  hi` |
| CleansingUtils.RenderedFieldNumber | lib/cleansing_utils.py:95-96 | a padded field with its commas removed and stripped is the amount with its commas removed |
| CleansingUtils.ParseRenderedRange | lib/cleansing_utils.py:86-99 | the parser reads `$lo - $hi <unit>` back as `(float(lo), float(hi))` with commas removed, and as null when either is not a number |
| CleansingUtils.WholeAmountText | lib/cleansing_utils.py:95-96 | a whole number in digits is valid amount text with no comma |
| CleansingUtils.WholeRangeMidpoint | lib/cleansing_utils.py:86-115 | `$lo - $hi <unit>` for whole numbers maps to exactly `(lo + hi) / 2` |
| CleansingUtils.UnitsApart | lib/cleansing_utils.py:90 | neither unit marker contains the other |
| CleansingUtils.OtherUnitIgnored | lib/cleansing_utils.py:86-115 | a range posted per hour has no yearly midpoint, and one posted per year has no hourly midpoint |
| CleansingUtils.CombineSalaries | lib/cleansing_utils.py:117-126 | null exactly when both inputs are null; the yearly value whenever there is one; otherwise the hourly value times the hours per year |
| CleansingUtils.YearlyStandardisedBounds | lib/cleansing_utils.py:117-126 | a yearly range's standardised salary lies between its bounds |
| CleansingUtils.HourlyBetween | lib/cleansing_utils.py:117-126 | with no yearly value, an hourly value between two bounds gives a standardised salary between the bounds times the hours |
| CleansingUtils.CellRealOfNumCell | lib/cleansing_utils.py:128-132 | a midpoint written into a column is read back unchanged by `combine_salaries` |
| CleansingUtils.StandardiseSalaries | lib/cleansing_utils.py:75-136 | a missing `salary` column gives `KeyError`, a number in it gives `TypeError`, both leaving the table unchanged; otherwise the table becomes the frame with the three salary columns written |
| CleansingUtils.SalariesStandardisedShape | lib/cleansing_utils.py:128-132 | the three output columns are added after the old ones, or overwritten where they already stand; rows are kept; every other cell is unchanged |
| CleansingUtils.SalariesStandardisedColumns | lib/cleansing_utils.py:128-132 | row by row, the two averages are the midpoints of that row's `salary`, and `standardised_salary` is what that `salary` standardises to |
| CleansingUtils.SalariesStandardisedIdempotent | lib/cleansing_utils.py:128-132 | standardising salaries a second time changes nothing |
| Frames.SetColumn | lib/cleansing_utils.py:70 | `df[name] = values`: the header gains `name` at the end unless present; other cells are unchanged; the column reads back as `values` |
| Frames.ColumnAfterSetColumn | lib/cleansing_utils.py:128-129 | writing one column leaves another column's contents as they were |
| Frames.SetColumnSame | lib/cleansing_utils.py:128-132 | writing back the values a column already holds changes nothing |
| Frames.Table.Assign | lib/cleansing_utils.py:70 | `df[name] = values` in place: the table becomes `SetColumn` of what it held |
| PyStr.ContainsOccurrence | lib/cleansing_utils.py:90-92 | `pat in s` holds exactly when `pat` occurs at some position of `s` |
| PyStr.BeforeFirst | lib/cleansing_utils.py:91 | `s.split(sep)[0]` is a prefix of `s` without `sep`; no occurrence of `sep` in `s` starts inside it; it is shorter than `s` exactly when `sep` occurs, and is then followed by `sep`, so the cut is at the first occurrence |
| PyStr.AfterFirst | lib/cleansing_utils.py:93 | the first field, the separator and the rest give back `s` |
| PyStr.SplitFirstTwo | lib/cleansing_utils.py:93 | `s.split(sep)[0:2]`: the first field and `sep` start `s`; neither field holds `sep`; the second field follows the first `sep` and runs up to the second `sep` or to the end |
| PyStr.ReplaceChar | lib/cleansing_utils.py:91 | same length; at each position a `from` becomes `to` and any other character is kept |
| PyStr.RemoveChar | lib/cleansing_utils.py:95-96 | the removed character no longer occurs; any other character occurs in the result exactly when it occurs in the input; a one-character string loses its character exactly when it is the removed one |
| PyStr.RemoveCharConcat | lib/cleansing_utils.py:95-96 | removal distributes over concatenation |
| PyStr.TrimStart | lib/cleansing_utils.py:91 | a suffix of the input that does not start with white space, everything cut being white space |
| PyStr.TrimEnd | lib/cleansing_utils.py:91 | a prefix of the input that does not end with white space, everything cut being white space |
| PyStr.Strip | lib/cleansing_utils.py:91 | no longer than the input, with no white space at either end |
| PyStr.StripPadding | lib/cleansing_utils.py:91 | stripping white-space padding from non-empty unpadded text gives the text back |
| PyStr.StripAllSpace | lib/cleansing_utils.py:91 | text made only of white space strips to the empty string |
| PyStr.UnpaddedStrip | lib/cleansing_utils.py:96 | text with no white space at either end strips to itself |
| PyStr.StripIdempotent | lib/cleansing_utils.py:95-96 | stripping twice is stripping once |
| PyStr.FindPastPrefix | lib/cleansing_utils.py:90-93 | a prefix without the separator's first character does not change where the split falls |
| PyStr.SameLengthContains | lib/cleansing_utils.py:62-64 | between texts of one length, `in` is equality |
| PyFloat.ParseNumberBlank | lib/cleansing_utils.py:95-96 | `float()` of empty or all-white-space text fails |
| PyFloat.ParseNumberPadded | lib/cleansing_utils.py:95-96 | `float()` ignores white space around the numeral |
| PyFloat.NatToString | lib/cleansing_utils.py:95-96 | the decimal digits of `n`, whose value is `n` |
| PyFloat.ParseNatToString | lib/cleansing_utils.py:95-96 | `float(str(n)) == n` |
| PyFloat.ParseDecimal | lib/cleansing_utils.py:95-96 | `float("w.f")` for digit strings is `w + f / 10^len(f)` |
| PyFloat.MantissaDecimal | lib/cleansing_utils.py:95-96 | a mantissa `w.f` with underscore-grouped digits has the value `w + f / 10^len(f)` |
| ExploreAndCleanse.CombineHourlyOnly | lib/cleansing_utils.py:117-126 | with no yearly value, the standardised salary is the hourly value times 1880 |
| ExploreAndCleanse.HourlyStandardisedBounds | lib/cleansing_utils.py:101-126 | a range posted only per hour standardises to between its bounds times 1880 |
| ExploreAndCleanse.PostedRangesStandardised | lib/cleansing_utils.py:86-132 | `$lo - $hi /hour` standardises to the midpoint times 1880, `$lo - $hi /year` to the midpoint itself |

## Left out

- Logging (`logging.warning`, `logging.info`), CSV loading and saving, date
  parsing, plotting, the topic model, the NLP utilities and argument
  parsing. They are I/O or calls into libraries, and are not part of this
  model.
- Floating point: amounts, midpoints and the hourly scaling are exact
  reals. IEEE-754 rounding and overflow to infinity are not modelled.
- PyFloat.ParseNumber: does not accept `inf`, `infinity` or `nan` (any
  case) or non-ASCII digits, which Python's `float()` accepts. The model
  gives null for those salary fields where Python gives an infinite or
  NaN midpoint.
- pandas dtypes: a cell is null, a string or a number. NaN and `None` are
  both null; integer and float columns are not told apart.
- CleansingUtils.DropDuplicateRows: when every column is ignored, pandas is
  handed an empty `subset`. The model then keeps only the first row; what
  pandas does in that case is not modelled.
- CleansingUtils.StandardiseSalaries: on a frame with no rows, pandas'
  row-wise `apply` returns an empty frame rather than a column. The model
  writes an empty `standardised_salary` column.
- pandas index labels: rows are identified by position. `drop_duplicates`
  keeps the surviving rows' labels, which the model does not carry.
- CleansingUtils.HourlyBetween: the bound for an hourly range that the
  `salary` parser found is proved only for 1880 hours
  (`ExploreAndCleanse.HourlyStandardisedBounds`). For any other
  hours-per-year figure it is stated only for the midpoint itself.
- Frames.WellFormed: column names are required to be distinct. pandas
  allows repeated names, but `read_csv` renames repeated header names
  (`a`, `a.1`, ...), so the frame the pipeline passes in always has
  distinct names.
- PyFloat.ParseNumber: the sign is modelled, but no lemma states how a
  leading `-` or `+` changes the value; the salary fields never hold a
  `-`, since it separates them.
- Cells of other types (lists, dates, booleans) are not modelled. A
  non-null number in `job_type` or `salary` is modelled as the `TypeError`
  that `in` raises on it.
