/**
 * The assumptions the exploration-and-cleansing script passes to
 * `standardise_salaries`, and what they make of a salary posted per hour.
 */
module ExploreAndCleanse {
  import opened Wrappers
  import opened PyFloat
  import opened CleansingUtils

  const HoursPerWeek := 40
  const WeeksPerYear := 52
  const WeeksVacationPerYear := 5

  /** The hours a full-time employee works in a year: 40 * (52 - 5). */
  const HoursWorkedPerYear := HoursPerWeek * (WeeksPerYear - WeeksVacationPerYear)

  /** `combine_salaries` under these assumptions, for a posting with only an hourly midpoint. */
  lemma CombineHourlyOnly(yearly: Option<real>, hourly: Option<real>, m: real)
    requires yearly.None? && hourly.Some? && hourly.value == m
    ensures var r := CombineSalaries(yearly, hourly, HoursWorkedPerYear);
      r.Some? && r.value == m * 1880.0
  {
  }

  /**
   * A range posted only per hour standardises to between its bounds scaled
   * by the hours worked in a year.
   */
  lemma HourlyStandardisedBounds(salary: string)
    requires ParseRange(salary, PerYear).None? && ParseRange(salary, PerHour).Some?
    requires ParseRange(salary, PerHour).value.0 <= ParseRange(salary, PerHour).value.1
    ensures var r := StandardisedSalary(Some(salary), HoursWorkedPerYear);
      && r.Some?
      && ParseRange(salary, PerHour).value.0 * 1880.0 <= r.value
      && r.value <= ParseRange(salary, PerHour).value.1 * 1880.0
  {
    var hourly := MapAvgSalary(Some(salary), PerHour);
    CombineHourlyOnly(MapAvgSalary(Some(salary), PerYear), hourly, hourly.value);
  }

  /**
   * `$lo - $hi /hour` in whole dollars becomes the hourly midpoint times
   * 1880 hours, and `$lo - $hi /year` the yearly midpoint itself.
   */
  lemma PostedRangesStandardised(lo: nat, hi: nat)
    ensures var r := StandardisedSalary(Some(RenderRange(NatToString(lo), NatToString(hi), PerHour)), HoursWorkedPerYear);
      r.Some? && r.value == (lo + hi) as real / 2.0 * 1880.0
    ensures var r := StandardisedSalary(Some(RenderRange(NatToString(lo), NatToString(hi), PerYear)), HoursWorkedPerYear);
      r.Some? && r.value == (lo + hi) as real / 2.0
  {
    WholeAmountText(lo);
    WholeAmountText(hi);
    OtherUnitIgnored(NatToString(lo), NatToString(hi));
    WholeRangeMidpoint(lo, hi, PerHour);
    WholeRangeMidpoint(lo, hi, PerYear);
    var hourly := RenderRange(NatToString(lo), NatToString(hi), PerHour);
    CombineHourlyOnly(MapAvgSalary(Some(hourly), PerYear), MapAvgSalary(Some(hourly), PerHour), (lo + hi) as real / 2.0);
  }
}
