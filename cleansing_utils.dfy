/**
 * The cleansing layer of the job-postings pipeline: dropping columns that hold
 * a single value, dropping rows that repeat another row's content, folding
 * job types into three categories and turning salary-range strings into
 * yearly figures.
 */
module CleansingUtils {
  import opened Wrappers
  import opened PyStr
  import opened PyFloat
  import opened Frames

  // ---------------------------------------------------------------------------
  // drop_uniform_columns
  // ---------------------------------------------------------------------------

  /** The distinct non-null values of column `j`. */
  function DistinctValues(f: Frame, j: nat): set<Cell>
    requires WellFormed(f) && j < |f.columns|
  {
    set i | 0 <= i < |f.rows| && f.rows[i][j] != Null :: f.rows[i][j]
  }

  /** pandas' `nunique()` for column `j`: nulls are not counted. */
  function NUnique(f: Frame, j: nat): nat
    requires WellFormed(f) && j < |f.columns|
  {
    |DistinctValues(f, j)|
  }

  /** A column has no distinct value exactly when every cell in it is null. */
  lemma NUniqueZero(f: Frame, j: nat)
    requires WellFormed(f) && j < |f.columns|
    ensures NUnique(f, j) == 0 <==> forall i :: 0 <= i < |f.rows| ==> f.rows[i][j] == Null
  {
    forall i | 0 <= i < |f.rows| && f.rows[i][j] != Null
      ensures f.rows[i][j] in DistinctValues(f, j)
    {
    }
    if NUnique(f, j) != 0 {
      var v :| v in DistinctValues(f, j);
    }
  }

  /** The positions of the columns `drop_uniform_columns` keeps. */
  function KeptColumns(f: Frame): (r: seq<nat>)
    requires WellFormed(f)
    ensures forall k :: 0 <= k < |r| ==> r[k] < |f.columns|
    ensures forall k, l :: 0 <= k < l < |r| ==> r[k] < r[l]
    ensures forall j :: 0 <= j < |f.columns| ==> (j in r <==> NUnique(f, j) != 1)
  {
    Positions(|f.columns|, (j: nat) => j < |f.columns| && NUnique(f, j) != 1)
  }

  /** Every row cut down to the cells at positions `idx`. */
  function SelectColumns(f: Frame, idx: seq<nat>): (r: Frame)
    requires WellFormed(f)
    requires forall k :: 0 <= k < |idx| ==> idx[k] < |f.columns|
    requires forall k, l :: 0 <= k < l < |idx| ==> idx[k] < idx[l]
    ensures WellFormed(r)
    ensures r.columns == Select(f.columns, idx) && |r.rows| == |f.rows|
    ensures forall i, k :: 0 <= i < |f.rows| && 0 <= k < |idx| ==> r.rows[i][k] == f.rows[i][idx[k]]
  {
    var r := Frame(Select(f.columns, idx),
                   seq(|f.rows|, i requires 0 <= i < |f.rows| => Select(f.rows[i], idx)));
    assert Distinct(r.columns) by {
      forall k, l | 0 <= k < l < |idx| ensures r.columns[k] != r.columns[l] {
        assert idx[k] < idx[l];
      }
    }
    r
  }

  /**
   * `drop_uniform_columns`: keep exactly the columns whose number of distinct
   * non-null values is not 1, in their order, with every row.
   */
  function DropUniformColumns(f: Frame): (r: Frame)
    requires WellFormed(f)
    ensures WellFormed(r) && |r.rows| == |f.rows|
    ensures forall j :: 0 <= j < |f.columns| ==> (f.columns[j] in r.columns <==> NUnique(f, j) != 1)
    ensures forall c :: c in r.columns ==> c in f.columns
    ensures forall k, l :: 0 <= k < l < |r.columns|
                       ==> IndexOf(f.columns, r.columns[k]) < IndexOf(f.columns, r.columns[l])
    ensures forall i, k :: 0 <= i < |r.rows| && 0 <= k < |r.columns|
                       ==> r.rows[i][k] == f.rows[i][IndexOf(f.columns, r.columns[k])]
  {
    var keep := KeptColumns(f);
    SelectedColumnsPositions(f, keep);
    SelectColumns(f, keep)
  }

  /** Where the selected columns came from, and which names survive. */
  lemma SelectedColumnsPositions(f: Frame, keep: seq<nat>)
    requires WellFormed(f)
    requires forall k :: 0 <= k < |keep| ==> keep[k] < |f.columns|
    requires forall k, l :: 0 <= k < l < |keep| ==> keep[k] < keep[l]
    ensures var r := SelectColumns(f, keep);
      && (forall k :: 0 <= k < |keep| ==> IndexOf(f.columns, r.columns[k]) == keep[k])
      && (forall j :: 0 <= j < |f.columns| ==> (f.columns[j] in r.columns <==> j in keep))
  {
    var r := SelectColumns(f, keep);
    forall k | 0 <= k < |keep|
      ensures IndexOf(f.columns, r.columns[k]) == keep[k]
    {
      IndexOfDistinct(f.columns, keep[k]);
    }
    forall j | 0 <= j < |f.columns|
      ensures f.columns[j] in r.columns <==> j in keep
    {
      if f.columns[j] in r.columns {
        var k :| 0 <= k < |r.columns| && r.columns[k] == f.columns[j];
        IndexOfDistinct(f.columns, j);
        assert keep[k] == j;
      }
      if j in keep {
        var k :| 0 <= k < |keep| && keep[k] == j;
        assert r.columns[k] == f.columns[j];
      }
    }
  }

  /** A column that is null in every row has no value at all, so it is kept. */
  lemma AllNullColumnKept(f: Frame, j: nat)
    requires WellFormed(f) && j < |f.columns|
    requires forall i :: 0 <= i < |f.rows| ==> f.rows[i][j] == Null
    ensures f.columns[j] in DropUniformColumns(f).columns
  {
    assert DistinctValues(f, j) == {};
  }

  /** A column holding one value, possibly alongside nulls, is dropped. */
  lemma SingleValueColumnDropped(f: Frame, j: nat, v: Cell)
    requires WellFormed(f) && j < |f.columns| && v != Null
    requires exists i :: 0 <= i < |f.rows| && f.rows[i][j] == v
    requires forall i :: 0 <= i < |f.rows| ==> f.rows[i][j] in {Null, v}
    ensures f.columns[j] !in DropUniformColumns(f).columns
  {
    assert DistinctValues(f, j) == {v};
  }

  /** A column holding two different values is kept. */
  lemma TwoValuesColumnKept(f: Frame, j: nat, a: nat, b: nat)
    requires WellFormed(f) && j < |f.columns|
    requires a < |f.rows| && b < |f.rows|
    requires f.rows[a][j] != Null && f.rows[b][j] != Null && f.rows[a][j] != f.rows[b][j]
    ensures f.columns[j] in DropUniformColumns(f).columns
  {
    var vs := DistinctValues(f, j);
    var x, y := f.rows[a][j], f.rows[b][j];
    assert x in vs && y in vs;
    assert y in vs - {x};
    assert |vs - {x}| == |vs| - 1;
  }

  /** No column of the result holds exactly one value. */
  lemma DropUniformColumnsLeavesNoUniform(f: Frame)
    requires WellFormed(f)
    ensures forall k :: 0 <= k < |DropUniformColumns(f).columns| ==> NUnique(DropUniformColumns(f), k) != 1
  {
    var g := DropUniformColumns(f);
    forall k | 0 <= k < |g.columns| ensures NUnique(g, k) != 1 {
      var j := IndexOf(f.columns, g.columns[k]);
      SameColumnValues(g, k, f, j);
      assert f.columns[j] in g.columns;
    }
  }

  /** Two columns with the same cells row by row have the same values. */
  lemma SameColumnValues(g: Frame, k: nat, f: Frame, j: nat)
    requires WellFormed(g) && k < |g.columns|
    requires WellFormed(f) && j < |f.columns|
    requires |g.rows| == |f.rows|
    requires forall i :: 0 <= i < |f.rows| ==> g.rows[i][k] == f.rows[i][j]
    ensures DistinctValues(g, k) == DistinctValues(f, j)
  {
  }

  /** Without a uniform column there is nothing to drop. */
  lemma DropUniformColumnsNoop(g: Frame)
    requires WellFormed(g)
    requires forall k :: 0 <= k < |g.columns| ==> NUnique(g, k) != 1
    ensures DropUniformColumns(g) == g
  {
    PositionsOfAll(|g.columns|, (j: nat) => j < |g.columns| && NUnique(g, j) != 1);
    var keep := KeptColumns(g);
    var h := SelectColumns(g, keep);
    assert h.columns == g.columns;
    forall i | 0 <= i < |g.rows| ensures h.rows[i] == g.rows[i] {
      assert |h.rows[i]| == |g.rows[i]|;
    }
    assert h.rows == g.rows;
  }

  /** Dropping uniform columns a second time changes nothing. */
  lemma DropUniformColumnsIdempotent(f: Frame)
    requires WellFormed(f)
    ensures DropUniformColumns(DropUniformColumns(f)) == DropUniformColumns(f)
  {
    DropUniformColumnsLeavesNoUniform(f);
    DropUniformColumnsNoop(DropUniformColumns(f));
  }

  // ---------------------------------------------------------------------------
  // drop_duplicate_rows
  // ---------------------------------------------------------------------------

  /** The columns `drop_duplicate_rows` ignores unless told otherwise. */
  const DefaultIgnored: set<string> := {"page_url", "uniq_id"}

  /** Two rows hold the same cells in every column whose name is not ignored. */
  predicate Agree(columns: seq<string>, ignore: set<string>, x: seq<Cell>, y: seq<Cell>)
    requires |x| == |columns| && |y| == |columns|
  {
    forall j :: 0 <= j < |columns| && columns[j] !in ignore ==> x[j] == y[j]
  }

  /** No earlier row agrees with row `i`: it is the first of its group. */
  predicate IsFirstOfGroup(f: Frame, ignore: set<string>, i: nat)
    requires WellFormed(f) && i < |f.rows|
  {
    forall a :: 0 <= a < i ==> !Agree(f.columns, ignore, f.rows[a], f.rows[i])
  }

  /** The positions of the rows `drop_duplicate_rows` keeps. */
  function FirstOfGroups(f: Frame, ignore: set<string>): (r: seq<nat>)
    requires WellFormed(f)
    ensures forall k :: 0 <= k < |r| ==> r[k] < |f.rows|
    ensures forall k, l :: 0 <= k < l < |r| ==> r[k] < r[l]
    ensures forall i :: 0 <= i < |f.rows| ==> (i in r <==> IsFirstOfGroup(f, ignore, i))
  {
    Positions(|f.rows|, (i: nat) => i < |f.rows| && IsFirstOfGroup(f, ignore, i))
  }

  /**
   * `drop_duplicate_rows`: keep, in their order, the rows that no earlier row
   * agrees with outside the ignored columns (pandas' `keep='first'`).
   */
  function DropDuplicateRows(f: Frame, ignore: set<string>): (r: Frame)
    requires WellFormed(f)
    ensures WellFormed(r) && r.columns == f.columns
    ensures |r.rows| <= |f.rows|
    ensures |r.rows| == |FirstOfGroups(f, ignore)|
    ensures forall k :: 0 <= k < |r.rows| ==> r.rows[k] == f.rows[FirstOfGroups(f, ignore)[k]]
    ensures forall k, l :: 0 <= k < l < |r.rows| ==> !Agree(f.columns, ignore, r.rows[k], r.rows[l])
  {
    Frame(f.columns, Select(f.rows, FirstOfGroups(f, ignore)))
  }

  /** Every row agrees with the first row of its group, which comes no later. */
  lemma {:induction false} FirstOfGroupOf(f: Frame, ignore: set<string>, i: nat) returns (a: nat)
    requires WellFormed(f) && i < |f.rows|
    ensures a <= i && IsFirstOfGroup(f, ignore, a)
    ensures Agree(f.columns, ignore, f.rows[a], f.rows[i])
  {
    if IsFirstOfGroup(f, ignore, i) {
      a := i;
    } else {
      var b :| 0 <= b < i && Agree(f.columns, ignore, f.rows[b], f.rows[i]);
      a := FirstOfGroupOf(f, ignore, b);
    }
  }

  /** Every input row is represented in the output by a row that agrees with it. */
  lemma DropDuplicateRowsCovers(f: Frame, ignore: set<string>, i: nat)
    requires WellFormed(f) && i < |f.rows|
    ensures exists k :: 0 <= k < |DropDuplicateRows(f, ignore).rows|
                     && Agree(f.columns, ignore, DropDuplicateRows(f, ignore).rows[k], f.rows[i])
  {
    var a := FirstOfGroupOf(f, ignore, i);
    var firsts := FirstOfGroups(f, ignore);
    var k :| 0 <= k < |firsts| && firsts[k] == a;
    assert DropDuplicateRows(f, ignore).rows[k] == f.rows[a];
  }

  /** Names to ignore that are not columns make no difference. */
  lemma IgnoringAbsentNames(f: Frame, ignore: set<string>)
    requires WellFormed(f)
    ensures DropDuplicateRows(f, ignore) == DropDuplicateRows(f, ignore * (set c | c in f.columns))
  {
    var present := ignore * (set c | c in f.columns);
    forall x, y | |x| == |f.columns| && |y| == |f.columns|
      ensures Agree(f.columns, ignore, x, y) == Agree(f.columns, present, x, y)
    {
      assert forall j :: 0 <= j < |f.columns| ==> (f.columns[j] in ignore <==> f.columns[j] in present);
    }
    PositionsAgree(|f.rows|, (i: nat) => i < |f.rows| && IsFirstOfGroup(f, ignore, i),
                             (i: nat) => i < |f.rows| && IsFirstOfGroup(f, present, i));
  }

  /**
   * With the default ignored columns, a job posted several times under
   * different `page_url`s and `uniq_id`s is kept exactly once.
   */
  lemma RepostsKeptOnce(f: Frame, i: nat)
    requires WellFormed(f) && i < |f.rows|
    ensures var g := DropDuplicateRows(f, DefaultIgnored);
      exists k :: 0 <= k < |g.rows| && Agree(f.columns, DefaultIgnored, g.rows[k], f.rows[i])
    ensures var g := DropDuplicateRows(f, DefaultIgnored);
      forall k, l :: 0 <= k < |g.rows| && 0 <= l < |g.rows|
                     && Agree(f.columns, DefaultIgnored, g.rows[k], f.rows[i])
                     && Agree(f.columns, DefaultIgnored, g.rows[l], f.rows[i])
                  ==> k == l
  {
    var g := DropDuplicateRows(f, DefaultIgnored);
    DropDuplicateRowsCovers(f, DefaultIgnored, i);
    forall k, l | 0 <= k < |g.rows| && 0 <= l < |g.rows| && k != l
      ensures !(Agree(f.columns, DefaultIgnored, g.rows[k], f.rows[i])
                && Agree(f.columns, DefaultIgnored, g.rows[l], f.rows[i]))
    {
      AgreeThrough(f.columns, DefaultIgnored, g.rows[k], g.rows[l], f.rows[i]);
      AgreeThrough(f.columns, DefaultIgnored, g.rows[l], g.rows[k], f.rows[i]);
    }
  }

  /** Two rows that agree with a third agree with each other. */
  lemma AgreeThrough(columns: seq<string>, ignore: set<string>, x: seq<Cell>, y: seq<Cell>, z: seq<Cell>)
    requires |x| == |columns| && |y| == |columns| && |z| == |columns|
    ensures Agree(columns, ignore, x, z) && Agree(columns, ignore, y, z) ==> Agree(columns, ignore, x, y)
  {
  }

  /** Dropping duplicate rows a second time changes nothing. */
  lemma DropDuplicateRowsIdempotent(f: Frame, ignore: set<string>)
    requires WellFormed(f)
    ensures DropDuplicateRows(DropDuplicateRows(f, ignore), ignore) == DropDuplicateRows(f, ignore)
  {
    var g := DropDuplicateRows(f, ignore);
    assert forall i :: 0 <= i < |g.rows| ==> IsFirstOfGroup(g, ignore, i);
    PositionsOfAll(|g.rows|, (i: nat) => i < |g.rows| && IsFirstOfGroup(g, ignore, i));
    assert DropDuplicateRows(g, ignore).rows == g.rows;
  }

  // ---------------------------------------------------------------------------
  // standardise_job_type
  // ---------------------------------------------------------------------------

  const JobTypeColumn := "job_type"
  const FullTime := "Full Time"
  const PartTime := "Part Time"
  const OtherJobType := "Other"

  /**
   * `aggregate_job_types`: null stays null; otherwise "Full Time" wins over
   * "Part Time", and anything mentioning neither is "Other".
   */
  function AggregateJobType(jobType: Option<string>): (r: Option<string>)
    ensures r.None? <==> jobType.None?
    ensures r.Some? ==> r.value in {FullTime, PartTime, OtherJobType}
  {
    match jobType
    case None => None
    case Some(s) =>
      Some(if Contains(s, FullTime) then FullTime
           else if Contains(s, PartTime) then PartTime
           else OtherJobType)
  }

  /** Each category, both ways: which raw job types end up in it. */
  lemma AggregateJobTypeRules(jobType: Option<string>)
    ensures AggregateJobType(jobType) == Some(FullTime)
        <==> jobType.Some? && Contains(jobType.value, FullTime)
    ensures AggregateJobType(jobType) == Some(PartTime)
        <==> jobType.Some? && !Contains(jobType.value, FullTime) && Contains(jobType.value, PartTime)
    ensures AggregateJobType(jobType) == Some(OtherJobType)
        <==> jobType.Some? && !Contains(jobType.value, FullTime) && !Contains(jobType.value, PartTime)
  {
  }

  /** The three category names are told apart by the classifier itself. */
  lemma CategoriesClassifyAsThemselves()
    ensures Contains(FullTime, FullTime)
    ensures !Contains(PartTime, FullTime) && Contains(PartTime, PartTime)
    ensures !Contains(OtherJobType, FullTime) && !Contains(OtherJobType, PartTime)
  {
    OccurrenceContains(FullTime, FullTime, 0);
    OccurrenceContains(PartTime, PartTime, 0);
    AbsentFirstChar(PartTime, FullTime);
    AbsentFirstChar(OtherJobType, FullTime);
    AbsentFirstChar(OtherJobType, PartTime);
  }

  /** Aggregating an aggregated job type gives it back. */
  lemma AggregateJobTypeIdempotent(jobType: Option<string>)
    ensures AggregateJobType(AggregateJobType(jobType)) == AggregateJobType(jobType)
  {
    CategoriesClassifyAsThemselves();
  }

  /** The cell form of `aggregate_job_types`, for a cell that is null or a string. */
  function AggregateJobTypeCell(c: Cell): (r: Cell)
    requires !c.Num?
    ensures !r.Num?
  {
    match c
    case Null => Null
    case Str(s) => Str(AggregateJobType(Some(s)).value)
  }

  // ---------------------------------------------------------------------------
  // standardise_salaries
  // ---------------------------------------------------------------------------

  const SalaryColumn := "salary"
  const AvgYearlyColumn := "avg_yearly_salary"
  const AvgHourlyColumn := "avg_hourly_salary"
  const StandardisedColumn := "standardised_salary"

  /** The unit markers the two salary mappers look for. */
  const PerYear := "/year"
  const PerHour := "/hour"

  /**
   * The text a salary mapper looks at: what precedes the first unit marker,
   * with `$` turned into spaces and stripped; `None` when the marker is absent.
   */
  function AmountsText(salary: string, unit: string): (r: Option<string>)
    requires |unit| > 0
    ensures r.Some? <==> Contains(salary, unit)
    ensures r.Some? ==> '$' !in r.value && |r.value| <= |salary|
  {
    if !Contains(salary, unit) then None
    else Some(Strip(ReplaceChar(BeforeFirst(salary, unit), '$', ' ')))
  }

  /** One bound: `float(field.replace(",", "").strip())`. */
  function ParseAmount(field: string): Option<real> {
    ParseNumber(Strip(RemoveChar(field, ',')))
  }

  /**
   * A bound is read as `float()` reads the field once its commas are gone:
   * the extra `strip()` changes nothing, and so does removing commas again.
   */
  lemma ParseAmountReads(field: string)
    ensures ParseAmount(field) == ParseNumber(RemoveChar(field, ','))
    ensures ParseAmount(RemoveChar(field, ',')) == ParseAmount(field)
  {
    var d := RemoveChar(field, ',');
    StripIdempotent(d);
    assert ParseNumber(Strip(d)) == ParseSigned(Strip(Strip(d)));
    assert RemoveChar(d, ',') == d;
  }

  /**
   * The two bounds read from the amounts text: the fields before the first
   * and the second `-` must both be numbers.
   */
  function ParseFields(amounts: string): (r: Option<(real, real)>)
    ensures r.Some? ==> Contains(amounts, "-")
  {
    if !Contains(amounts, "-") then None
    else
      var fields := SplitFirstTwo(amounts, "-");
      match (ParseAmount(fields.0), ParseAmount(fields.1))
      case (Some(lo), Some(hi)) => Some((lo, hi))
      case _ => None
  }

  /**
   * The two bounds of a salary range as `map_avg_yearly_salary` (with
   * `PerYear`) and `map_avg_hourly_salary` (with `PerHour`) read them.
   */
  function ParseRange(salary: string, unit: string): (r: Option<(real, real)>)
    requires |unit| > 0
    ensures r.Some? ==> Contains(salary, unit)
  {
    match AmountsText(salary, unit)
    case None => None
    case Some(amounts) => ParseFields(amounts)
  }

  /** Fields after the second `-` play no part: `split("-")[0:2]` drops them. */
  lemma FieldsAfterSecondDashIgnored(a: string, b: string, c: string)
    requires '-' !in a && '-' !in b
    ensures ParseFields(a + "-" + b + "-" + c) == ParseFields(a + "-" + b)
  {
    ThreeFields(a, b, c);
    TwoFields(a, b);
  }

  lemma ThreeFields(a: string, b: string, c: string)
    requires '-' !in a && '-' !in b
    ensures Contains(a + "-" + b + "-" + c, "-")
    ensures SplitFirstTwo(a + "-" + b + "-" + c, "-") == (a, b)
  {
    var s := a + "-" + b + "-" + c;
    var rest := b + "-" + c;
    assert s == a + ("-" + rest);
    SplitAfterPrefix(a, "-", rest);
    assert rest == b + ("-" + c);
    SplitAfterPrefix(b, "-", c);
  }

  lemma TwoFields(a: string, b: string)
    requires '-' !in a && '-' !in b
    ensures Contains(a + "-" + b, "-")
    ensures SplitFirstTwo(a + "-" + b, "-") == (a, b)
  {
    assert a + "-" + b == a + ("-" + b);
    SplitAfterPrefix(a, "-", b);
    BeforeFirstAbsent(b, "-");
  }

  /** Whatever follows the unit marker plays no part: `split(unit)[0]` drops it. */
  lemma TextAfterUnitIgnored(t: string, unit: string, rest: string)
    requires |unit| > 0 && unit[0] !in t
    ensures ParseRange(t + unit + rest, unit) == ParseRange(t + unit, unit)
  {
    assert t + unit + rest == t + (unit + rest);
    SplitAfterPrefix(t, unit, rest);
    CutBeforeSuffix(t, unit);
    assert AmountsText(t + unit + rest, unit) == AmountsText(t + unit, unit);
  }

  /**
   * `map_avg_yearly_salary` / `map_avg_hourly_salary`: the midpoint of the
   * range, computed as `min + (max - min) / 2`, or null.
   */
  function MapAvgSalary(salary: Option<string>, unit: string): (r: Option<real>)
    requires |unit| > 0
    ensures r.Some? <==> salary.Some? && ParseRange(salary.value, unit).Some?
    ensures r.Some? ==> var (lo, hi) := ParseRange(salary.value, unit).value;
                        r.value == (lo + hi) / 2.0
                        && (lo <= hi ==> lo <= r.value <= hi)
  {
    match salary
    case None => None
    case Some(s) =>
      match ParseRange(s, unit)
      case None => None
      case Some((lo, hi)) => Some(lo + (hi - lo) / 2.0)
  }

  /**
   * `combine_salaries`: the yearly midpoint when there is one, otherwise the
   * hourly midpoint scaled by the hours worked in a year, otherwise null.
   */
  function CombineSalaries(yearly: Option<real>, hourly: Option<real>, hoursPerYear: int): (r: Option<real>)
    ensures r.None? <==> yearly.None? && hourly.None?
    ensures yearly.Some? ==> r.Some? && r.value == yearly.value
    ensures yearly.None? && hourly.Some? ==> r.Some? && r.value == hourly.value * hoursPerYear as real
  {
    if yearly.None? && hourly.None? then None
    else if yearly.Some? then yearly
    else Some(hourly.value * hoursPerYear as real)
  }

  /** The `standardised_salary` that one `salary` cell leads to. */
  function StandardisedSalary(salary: Option<string>, hoursPerYear: int): Option<real> {
    CombineSalaries(MapAvgSalary(salary, PerYear), MapAvgSalary(salary, PerHour), hoursPerYear)
  }

  // ---------------------------------------------------------------------------
  // Salary strings written the way the postings write them
  // ---------------------------------------------------------------------------

  /**
   * Text that can stand for an amount in a posted range: no `/`, `-` or `$`,
   * and no white space at either end, with or without its commas.
   */
  predicate IsAmountText(a: string) {
    && a != [] && Unpadded(a)
    && '/' !in a && '-' !in a && '$' !in a
    && RemoveChar(a, ',') != [] && Unpadded(RemoveChar(a, ','))
  }

  /** The posted form of a range: `$lo - $hi <unit>`. */
  function RenderRange(lo: string, hi: string, unit: string): string {
    "$" + lo + " - $" + hi + " " + unit
  }

  /** Blanking the `$` of `$a` followed by `sep`, where neither holds a `$`. */
  lemma BlankDollar(a: string, sep: string)
    requires '$' !in a && '$' !in sep
    ensures ReplaceChar("$" + a + sep, '$', ' ') == " " + a + sep
  {
    var u := a + sep;
    assert '$' !in u;
    assert "$" + a + sep == "$" + u;
    assert ("$" + u)[1..] == u;
    assert ReplaceChar(u, '$', ' ') == u;
    assert " " + u == " " + a + sep;
  }

  /** How a posted range falls apart into the pieces the parser looks at. */
  lemma RenderedShape(lo: string, hi: string)
    ensures "$" + lo + " - $" + hi + " " == ("$" + lo + " - ") + ("$" + hi + " ")
    ensures " " + lo + " - " + (" " + hi + " ") == " " + (lo + " -  " + hi) + " "
    ensures lo + " -  " + hi == (lo + " ") + ("-" + ("  " + hi))
  {
  }

  /** Blanking the `$` signs of `$lo - $hi ` gives ` lo -  hi `. */
  lemma RenderedBlanked(lo: string, hi: string)
    requires '$' !in lo && '$' !in hi
    ensures ReplaceChar("$" + lo + " - $" + hi + " ", '$', ' ') == " " + (lo + " -  " + hi) + " "
  {
    RenderedShape(lo, hi);
    BlankDollar(lo, " - ");
    BlankDollar(hi, " ");
    ReplaceCharConcat("$" + lo + " - ", "$" + hi + " ", '$', ' ');
  }

  /** Cutting at the unit and blanking the `$` signs leaves `lo -  hi`. */
  lemma RenderedAmounts(lo: string, hi: string, unit: string)
    requires IsAmountText(lo) && IsAmountText(hi)
    requires |unit| > 0 && unit[0] == '/'
    ensures Contains(RenderRange(lo, hi, unit), unit)
    ensures Strip(ReplaceChar(BeforeFirst(RenderRange(lo, hi, unit), unit), '$', ' ')) == lo + " -  " + hi
  {
    var t := "$" + lo + " - $" + hi + " ";
    assert '/' !in t;
    CutBeforeSuffix(t, unit);
    assert RenderRange(lo, hi, unit) == t + unit;
    BlankedStripped(lo, hi);
  }

  /** Stripping the blanked text ` lo -  hi ` leaves `lo -  hi`. */
  lemma BlankedStripped(lo: string, hi: string)
    requires IsAmountText(lo) && IsAmountText(hi)
    ensures Strip(ReplaceChar("$" + lo + " - $" + hi + " ", '$', ' ')) == lo + " -  " + hi
  {
    RenderedBlanked(lo, hi);
    var m := lo + " -  " + hi;
    assert m[0] == lo[0] && m[|m| - 1] == hi[|hi| - 1];
    StripPadding(" ", m, " ");
  }

  /** `lo -  hi` splits at its one `-` into `lo ` and `  hi`. */
  lemma RenderedFields(lo: string, hi: string)
    requires IsAmountText(lo) && IsAmountText(hi)
    ensures Contains(lo + " -  " + hi, "-")
    ensures SplitFirstTwo(lo + " -  " + hi, "-") == (lo + " ", "  " + hi)
  {
    RenderedShape(lo, hi);
    assert '-' !in lo + " ";
    SplitAfterPrefix(lo + " ", "-", "  " + hi);
    assert '-' !in "  " + hi;
    BeforeFirstAbsent("  " + hi, "-");
  }

  /** A field `lo ` or `  hi` comes back as the amount without its commas. */
  lemma RenderedFieldNumber(a: string, p: string, q: string)
    requires IsAmountText(a)
    requires AllSpace(p) && AllSpace(q) && ',' !in p && ',' !in q
    ensures Strip(RemoveChar(p + a + q, ',')) == RemoveChar(a, ',')
  {
    RemoveCharConcat(p + a, q, ',');
    RemoveCharConcat(p, a, ',');
    StripPadding(p, RemoveChar(a, ','), q);
  }

  /** The field before the `-` of a posted range reads as its amount. */
  lemma RenderedLowField(lo: string)
    requires IsAmountText(lo)
    ensures ParseAmount(lo + " ") == ParseNumber(RemoveChar(lo, ','))
  {
    LowFieldCleaned(lo);
  }

  lemma LowFieldCleaned(lo: string)
    requires IsAmountText(lo)
    ensures Strip(RemoveChar(lo + " ", ',')) == RemoveChar(lo, ',')
  {
    assert [] + lo + " " == lo + " ";
    RenderedFieldNumber(lo, [], " ");
  }

  /** The field after the `-` of a posted range reads as its amount. */
  lemma RenderedHighField(hi: string)
    requires IsAmountText(hi)
    ensures ParseAmount("  " + hi) == ParseNumber(RemoveChar(hi, ','))
  {
    HighFieldCleaned(hi);
  }

  lemma HighFieldCleaned(hi: string)
    requires IsAmountText(hi)
    ensures Strip(RemoveChar("  " + hi, ',')) == RemoveChar(hi, ',')
  {
    assert "  " + hi + [] == "  " + hi;
    RenderedFieldNumber(hi, "  ", []);
  }

  /**
   * Reading back a posted range gives the two amounts as `float()` reads them
   * once their thousands separators are gone.
   */
  lemma ParseRenderedRange(lo: string, hi: string, unit: string)
    requires IsAmountText(lo) && IsAmountText(hi)
    requires |unit| > 0 && unit[0] == '/'
    ensures ParseRange(RenderRange(lo, hi, unit), unit)
         == match (ParseNumber(RemoveChar(lo, ',')), ParseNumber(RemoveChar(hi, ',')))
            case (Some(x), Some(y)) => Some((x, y))
            case _ => None
  {
    RenderedAmounts(lo, hi, unit);
    RenderedFields(lo, hi);
    RenderedLowField(lo);
    RenderedHighField(hi);
  }

  /** A whole number written in digits is amount text and holds no comma. */
  lemma WholeAmountText(n: nat)
    ensures IsAmountText(NatToString(n))
    ensures RemoveChar(NatToString(n), ',') == NatToString(n)
  {
    var s := NatToString(n);
    assert forall c :: c in s ==> IsDigit(c);
    DigitsUnpadded(s);
  }

  /**
   * A posted range of whole numbers, `$lo - $hi <unit>`, averages to the
   * midpoint of `lo` and `hi` when read with its own unit.
   */
  lemma WholeRangeMidpoint(lo: nat, hi: nat, unit: string)
    requires |unit| > 0 && unit[0] == '/'
    ensures var r := MapAvgSalary(Some(RenderRange(NatToString(lo), NatToString(hi), unit)), unit);
      r.Some? && r.value == (lo + hi) as real / 2.0
  {
    WholeAmountText(lo);
    WholeAmountText(hi);
    ParseRenderedRange(NatToString(lo), NatToString(hi), unit);
    ParseNatToString(lo);
    ParseNatToString(hi);
  }

  /** The two unit markers never occur in one another. */
  lemma UnitsApart()
    ensures !Contains(PerHour, PerYear) && !Contains(PerYear, PerHour)
  {
    SameLengthContains(PerHour, PerYear);
    SameLengthContains(PerYear, PerHour);
  }

  /**
   * A range posted per hour has no yearly average and a range posted per
   * year has no hourly one: the mapper only looks at its own marker.
   */
  lemma OtherUnitIgnored(lo: string, hi: string)
    requires IsAmountText(lo) && IsAmountText(hi)
    ensures MapAvgSalary(Some(RenderRange(lo, hi, PerHour)), PerYear).None?
    ensures MapAvgSalary(Some(RenderRange(lo, hi, PerYear)), PerHour).None?
  {
    var t := "$" + lo + " - $" + hi + " ";
    assert '/' !in t;
    UnitsApart();
    FindPastPrefix(t, PerHour, PerYear);
    FindPastPrefix(t, PerYear, PerHour);
  }

  /** A yearly range's `standardised_salary` lies between its bounds. */
  lemma YearlyStandardisedBounds(salary: string, hoursPerYear: int)
    requires ParseRange(salary, PerYear).Some?
    requires ParseRange(salary, PerYear).value.0 <= ParseRange(salary, PerYear).value.1
    ensures var r := StandardisedSalary(Some(salary), hoursPerYear);
      r.Some? && ParseRange(salary, PerYear).value.0 <= r.value <= ParseRange(salary, PerYear).value.1
  {
    assert MapAvgSalary(Some(salary), PerYear).Some?;
  }

  /** An hourly midpoint between two bounds scales to between the scaled bounds. */
  lemma HourlyBetween(yearly: Option<real>, hourly: Option<real>, hoursPerYear: int, lo: real, hi: real)
    requires yearly.None? && hourly.Some? && lo <= hourly.value <= hi && hoursPerYear >= 0
    ensures var r := CombineSalaries(yearly, hourly, hoursPerYear);
      r.Some? && lo * hoursPerYear as real <= r.value <= hi * hoursPerYear as real
  {
    var h := hoursPerYear as real;
    assert (hourly.value - lo) * h >= 0.0 && (hi - hourly.value) * h >= 0.0;
  }

  // ---------------------------------------------------------------------------
  // The two functions that change the DataFrame they are given
  // ---------------------------------------------------------------------------

  /** How a call that changes the table in place ends. */
  datatype Outcome = Ok | KeyError(column: string) | TypeError(column: string)

  /** Every cell of column `name` is null or a string (`in` works on it). */
  predicate IsTextColumn(f: Frame, name: string)
    requires WellFormed(f) && name in f.columns
  {
    forall i :: 0 <= i < |f.rows| ==> !Column(f, name)[i].Num?
  }

  /** A null-or-string cell as the mappers see it. */
  function TextOf(c: Cell): (r: Option<string>)
    requires !c.Num?
    ensures r.None? <==> c.Null?
    ensures c.Str? ==> r == Some(c.text)
  {
    match c
    case Null => None
    case Str(s) => Some(s)
  }

  /** A mapper's result as a cell: null stays null. */
  function NumCell(x: Option<real>): (r: Cell)
    ensures !r.Str?
    ensures r.Null? <==> x.None?
  {
    match x
    case None => Null
    case Some(v) => Num(v)
  }

  /** What `combine_salaries` reads from a cell: a number, or null. */
  function CellReal(c: Cell): (r: Option<real>)
    ensures r.Some? <==> c.Num?
  {
    match c
    case Num(v) => Some(v)
    case _ => None
  }

  /** `CellReal` reads back what `NumCell` wrote. */
  lemma CellRealOfNumCell(x: Option<real>)
    ensures CellReal(NumCell(x)) == x
  {
  }

  /** The `job_type` column after `.map(aggregate_job_types)`. */
  function AggregatedJobTypes(f: Frame): (r: seq<Cell>)
    requires WellFormed(f) && JobTypeColumn in f.columns && IsTextColumn(f, JobTypeColumn)
    ensures |r| == |f.rows|
    ensures forall i :: 0 <= i < |r| ==> r[i] in {Null, Str(FullTime), Str(PartTime), Str(OtherJobType)}
  {
    seq(|f.rows|, i requires 0 <= i < |f.rows| => AggregateJobTypeCell(Column(f, JobTypeColumn)[i]))
  }

  /** The frame after `standardise_job_type` succeeds. */
  function JobTypesStandardised(f: Frame): Frame
    requires WellFormed(f) && JobTypeColumn in f.columns && IsTextColumn(f, JobTypeColumn)
  {
    SetColumn(f, JobTypeColumn, AggregatedJobTypes(f))
  }

  /**
   * `standardise_job_type`: replaces every `job_type` cell by its category,
   * in the table the caller passed. A missing column raises `KeyError`; a
   * non-null number in the column makes `in` raise `TypeError`. Either error
   * leaves the table as it was.
   */
  method StandardiseJobType(t: Table) returns (outcome: Outcome)
    requires t.Valid()
    modifies t
    ensures t.Valid()
    ensures outcome.KeyError? <==> JobTypeColumn !in old(t.columns)
    ensures outcome.TypeError? <==> JobTypeColumn in old(t.columns) && !IsTextColumn(old(t.Value()), JobTypeColumn)
    ensures !outcome.Ok? ==> outcome.column == JobTypeColumn && t.Value() == old(t.Value())
    ensures outcome.Ok? ==> t.Value() == JobTypesStandardised(old(t.Value()))
  {
    if JobTypeColumn !in t.columns {
      return KeyError(JobTypeColumn);
    }
    if !IsTextColumn(t.Value(), JobTypeColumn) {
      return TypeError(JobTypeColumn);
    }
    var values := AggregatedJobTypes(t.Value());
    t.Assign(JobTypeColumn, values);
    outcome := Ok;
  }

  /**
   * After `standardise_job_type` the header and every other cell are as they
   * were, and each `job_type` cell is the category of the cell it replaced.
   */
  lemma JobTypesStandardisedCells(f: Frame)
    requires WellFormed(f) && JobTypeColumn in f.columns && IsTextColumn(f, JobTypeColumn)
    ensures var r := JobTypesStandardised(f);
      && WellFormed(r) && r.columns == f.columns && |r.rows| == |f.rows|
      && (forall i, j :: 0 <= i < |f.rows| && 0 <= j < |f.columns| && f.columns[j] != JobTypeColumn
                      ==> r.rows[i][j] == f.rows[i][j])
      && (forall i :: 0 <= i < |f.rows| ==>
            Column(r, JobTypeColumn)[i] == AggregateJobTypeCell(Column(f, JobTypeColumn)[i]))
  {
  }

  /** Running `standardise_job_type` a second time changes nothing. */
  lemma JobTypesStandardisedIdempotent(f: Frame)
    requires WellFormed(f) && JobTypeColumn in f.columns && IsTextColumn(f, JobTypeColumn)
    ensures var r := JobTypesStandardised(f);
      IsTextColumn(r, JobTypeColumn) && JobTypesStandardised(r) == r
  {
    var r := JobTypesStandardised(f);
    forall i | 0 <= i < |r.rows|
      ensures AggregateJobTypeCell(Column(r, JobTypeColumn)[i]) == Column(r, JobTypeColumn)[i]
    {
      var c := Column(f, JobTypeColumn)[i];
      if c.Str? {
        AggregateJobTypeIdempotent(Some(c.text));
      }
    }
    assert AggregatedJobTypes(r) == Column(r, JobTypeColumn);
    SetColumnSame(r, JobTypeColumn, AggregatedJobTypes(r));
  }

  /** The `avg_yearly_salary` or `avg_hourly_salary` column: the salary column mapped. */
  function AverageSalaries(f: Frame, unit: string): (r: seq<Cell>)
    requires WellFormed(f) && SalaryColumn in f.columns && IsTextColumn(f, SalaryColumn)
    requires |unit| > 0
    ensures |r| == |f.rows|
  {
    seq(|f.rows|, i requires 0 <= i < |f.rows| => NumCell(MapAvgSalary(TextOf(Column(f, SalaryColumn)[i]), unit)))
  }

  /** The `standardised_salary` column: `combine_salaries` applied row by row. */
  function CombinedSalaries(f: Frame, hoursPerYear: int): (r: seq<Cell>)
    requires WellFormed(f) && AvgYearlyColumn in f.columns && AvgHourlyColumn in f.columns
    ensures |r| == |f.rows|
  {
    seq(|f.rows|, i requires 0 <= i < |f.rows| =>
      NumCell(CombineSalaries(CellReal(Column(f, AvgYearlyColumn)[i]), CellReal(Column(f, AvgHourlyColumn)[i]), hoursPerYear)))
  }

  /** The frame after `standardise_salaries` succeeds: three columns written in turn. */
  function SalariesStandardised(f: Frame, hoursPerYear: int): Frame
    requires WellFormed(f) && SalaryColumn in f.columns && IsTextColumn(f, SalaryColumn)
  {
    var f1 := SetColumn(f, AvgYearlyColumn, AverageSalaries(f, PerYear));
    ColumnAfterSetColumn(f, AvgYearlyColumn, AverageSalaries(f, PerYear), SalaryColumn);
    var f2 := SetColumn(f1, AvgHourlyColumn, AverageSalaries(f1, PerHour));
    SetColumn(f2, StandardisedColumn, CombinedSalaries(f2, hoursPerYear))
  }

  /**
   * `standardise_salaries`: adds (or overwrites) `avg_yearly_salary`,
   * `avg_hourly_salary` and `standardised_salary`, in that order, in the
   * table the caller passed. A missing `salary` column raises `KeyError`; a
   * non-null number in it makes `in` raise `TypeError`, before anything is
   * written.
   */
  method StandardiseSalaries(t: Table, hoursPerYear: int) returns (outcome: Outcome)
    requires t.Valid()
    modifies t
    ensures t.Valid()
    ensures outcome.KeyError? <==> SalaryColumn !in old(t.columns)
    ensures outcome.TypeError? <==> SalaryColumn in old(t.columns) && !IsTextColumn(old(t.Value()), SalaryColumn)
    ensures !outcome.Ok? ==> outcome.column == SalaryColumn && t.Value() == old(t.Value())
    ensures outcome.Ok? ==> t.Value() == SalariesStandardised(old(t.Value()), hoursPerYear)
  {
    if SalaryColumn !in t.columns {
      return KeyError(SalaryColumn);
    }
    if !IsTextColumn(t.Value(), SalaryColumn) {
      return TypeError(SalaryColumn);
    }
    var yearly := AverageSalaries(t.Value(), PerYear);
    ColumnAfterSetColumn(t.Value(), AvgYearlyColumn, yearly, SalaryColumn);
    t.Assign(AvgYearlyColumn, yearly);
    var hourly := AverageSalaries(t.Value(), PerHour);
    t.Assign(AvgHourlyColumn, hourly);
    var combined := CombinedSalaries(t.Value(), hoursPerYear);
    t.Assign(StandardisedColumn, combined);
    outcome := Ok;
  }

  /**
   * `standardise_salaries` puts its three output columns after the old ones
   * (unless already there) and leaves every other cell as it was.
   */
  lemma SalariesStandardisedShape(f: Frame, hoursPerYear: int)
    requires WellFormed(f) && SalaryColumn in f.columns && IsTextColumn(f, SalaryColumn)
    ensures var r := SalariesStandardised(f, hoursPerYear);
      && WellFormed(r)
      && r.columns == Appended(Appended(Appended(f.columns, AvgYearlyColumn), AvgHourlyColumn), StandardisedColumn)
      && |r.rows| == |f.rows|
      && (forall i, j :: 0 <= i < |f.rows| && 0 <= j < |f.columns|
                         && f.columns[j] != AvgYearlyColumn && f.columns[j] != AvgHourlyColumn
                         && f.columns[j] != StandardisedColumn
                      ==> r.rows[i][j] == f.rows[i][j])
  {
    var f1 := SetColumn(f, AvgYearlyColumn, AverageSalaries(f, PerYear));
    var f2 := SetColumn(f1, AvgHourlyColumn, AverageSalaries(f1, PerHour));
    var r := SetColumn(f2, StandardisedColumn, CombinedSalaries(f2, hoursPerYear));
    assert SalariesStandardised(f, hoursPerYear) == r;
    forall i, j | 0 <= i < |f.rows| && 0 <= j < |f.columns|
                  && f.columns[j] != AvgYearlyColumn && f.columns[j] != AvgHourlyColumn
                  && f.columns[j] != StandardisedColumn
      ensures r.rows[i][j] == f.rows[i][j]
    {
      assert f1.columns[j] == f.columns[j] && f1.rows[i][j] == f.rows[i][j];
      assert f2.columns[j] == f.columns[j] && f2.rows[i][j] == f.rows[i][j];
    }
  }

  /**
   * The two average columns hold the yearly and the hourly midpoint of each
   * row's `salary`, and `standardised_salary` what that `salary` standardises
   * to on its own.
   */
  lemma SalariesStandardisedColumns(f: Frame, hoursPerYear: int)
    requires WellFormed(f) && SalaryColumn in f.columns && IsTextColumn(f, SalaryColumn)
    ensures var r := SalariesStandardised(f, hoursPerYear);
      && |r.rows| == |f.rows|
      && (forall i :: 0 <= i < |f.rows| ==>
            var salary := TextOf(Column(f, SalaryColumn)[i]);
            && Column(r, AvgYearlyColumn)[i] == NumCell(MapAvgSalary(salary, PerYear))
            && Column(r, AvgHourlyColumn)[i] == NumCell(MapAvgSalary(salary, PerHour))
            && Column(r, StandardisedColumn)[i] == NumCell(StandardisedSalary(salary, hoursPerYear)))
  {
    var f1 := SetColumn(f, AvgYearlyColumn, AverageSalaries(f, PerYear));
    ColumnAfterSetColumn(f, AvgYearlyColumn, AverageSalaries(f, PerYear), SalaryColumn);
    var f2 := SetColumn(f1, AvgHourlyColumn, AverageSalaries(f1, PerHour));
    ColumnAfterSetColumn(f1, AvgHourlyColumn, AverageSalaries(f1, PerHour), AvgYearlyColumn);
    var r := SetColumn(f2, StandardisedColumn, CombinedSalaries(f2, hoursPerYear));
    ColumnAfterSetColumn(f2, StandardisedColumn, CombinedSalaries(f2, hoursPerYear), AvgYearlyColumn);
    ColumnAfterSetColumn(f2, StandardisedColumn, CombinedSalaries(f2, hoursPerYear), AvgHourlyColumn);
    forall i | 0 <= i < |f.rows|
      ensures Column(r, StandardisedColumn)[i]
           == NumCell(StandardisedSalary(TextOf(Column(f, SalaryColumn)[i]), hoursPerYear))
    {
      var salary := TextOf(Column(f, SalaryColumn)[i]);
      CellRealOfNumCell(MapAvgSalary(salary, PerYear));
      CellRealOfNumCell(MapAvgSalary(salary, PerHour));
    }
  }

  /** Running `standardise_salaries` a second time changes nothing. */
  lemma SalariesStandardisedIdempotent(f: Frame, hoursPerYear: int)
    requires WellFormed(f) && SalaryColumn in f.columns && IsTextColumn(f, SalaryColumn)
    ensures var r := SalariesStandardised(f, hoursPerYear);
      && SalaryColumn in r.columns && IsTextColumn(r, SalaryColumn)
      && SalariesStandardised(r, hoursPerYear) == r
  {
    var r := SalariesStandardised(f, hoursPerYear);
    SalariesStandardisedColumns(f, hoursPerYear);
    var f1 := SetColumn(f, AvgYearlyColumn, AverageSalaries(f, PerYear));
    ColumnAfterSetColumn(f, AvgYearlyColumn, AverageSalaries(f, PerYear), SalaryColumn);
    var f2 := SetColumn(f1, AvgHourlyColumn, AverageSalaries(f1, PerHour));
    ColumnAfterSetColumn(f1, AvgHourlyColumn, AverageSalaries(f1, PerHour), SalaryColumn);
    ColumnAfterSetColumn(f2, StandardisedColumn, CombinedSalaries(f2, hoursPerYear), SalaryColumn);
    assert Column(r, SalaryColumn) == Column(f, SalaryColumn);
    // The first write puts back the yearly column `r` already holds.
    assert AverageSalaries(r, PerYear) == Column(r, AvgYearlyColumn);
    SetColumnSame(r, AvgYearlyColumn, AverageSalaries(r, PerYear));
    // So does the second, for the hourly column.
    assert AverageSalaries(r, PerHour) == Column(r, AvgHourlyColumn);
    SetColumnSame(r, AvgHourlyColumn, AverageSalaries(r, PerHour));
    // And the third combines the same two columns into the same result.
    forall i | 0 <= i < |r.rows|
      ensures CombinedSalaries(r, hoursPerYear)[i] == Column(r, StandardisedColumn)[i]
    {
      var salary := TextOf(Column(f, SalaryColumn)[i]);
      CellRealOfNumCell(MapAvgSalary(salary, PerYear));
      CellRealOfNumCell(MapAvgSalary(salary, PerHour));
    }
    SetColumnSame(r, StandardisedColumn, CombinedSalaries(r, hoursPerYear));
  }
}
