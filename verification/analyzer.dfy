/** Aggregation: completion rates per (month, habit) group, and the
    comparison of one month's per-habit completion rates with those of the
    month before it. */
module Analyzer {
  import opened Observations

  /** A calendar month: the period key that a monthly `to_period` gives a date. */
  datatype Period = Period(year: int, month: int)

  function PeriodOf(o: Observation): (p: Period)
    ensures ValidDate(o.date) ==> 1 <= p.month <= 12
    ensures o.year == o.date.year && o.month == o.date.month ==> p == Period(o.year, o.month)
  {
    Period(o.date.year, o.date.month)
  }

  /** The months in order, as consecutive integers. */
  function MonthIndex(p: Period): int {
    12 * p.year + p.month - 1
  }

  /** `(completion / total).fillna(0)` for one group: `completion` has no
      entry for a group without completed rows, and the gap is filled with 0. */
  function FilledRate(completed: nat, total: nat): (rate: real)
    requires completed <= total
    ensures 0.0 <= rate <= 1.0
    ensures total > 0 ==> rate == completed as real / total as real
    ensures completed == 0 ==> rate == 0.0
  {
    if completed == 0 then 0.0 else completed as real / total as real
  }

  /** The completion rate of a group of rows (`(completion / total).fillna(0)`
      for one group): completed over all rows, and 0 when none is completed. */
  function RateOf(rows: seq<Observation>): (rate: real)
    ensures 0.0 <= rate <= 1.0
    ensures |rows| > 0 ==> rate == CountCompleted(rows) as real / |rows| as real
    ensures rate == 0.0 <==> CountCompleted(rows) == 0
    ensures rate == 1.0 <==> |rows| > 0 && CountCompleted(rows) == |rows|
  {
    var completed, total := CountCompleted(rows), |rows|;
    if total > 0 then
      Ratio(completed as real, total as real);
      FilledRate(completed, total)
    else
      FilledRate(completed, total)
  }

  /** Facts about a ratio of counts. */
  lemma Ratio(part: real, whole: real)
    requires 0.0 <= part <= whole && whole > 0.0
    ensures 0.0 <= part / whole <= 1.0
    ensures part / whole * whole == part
    ensures part / whole == 1.0 <==> part == whole
    ensures part / whole == 0.0 <==> part == 0.0
  {
    var q := part / whole;
    assert q * whole == part;
    if q == 1.0 {
      assert part == whole;
    }
  }

  /** The (period, habit) groups that occur in a table. */
  function Groups(df: seq<Observation>): set<(Period, string)> {
    set o | o in df :: (PeriodOf(o), o.habit)
  }

  function InGroup(g: (Period, string)): Observation -> bool {
    (o: Observation) => PeriodOf(o) == g.0 && o.habit == g.1
  }

  /** The rows of one (period, habit) group, in table order. */
  function GroupRows(df: seq<Observation>, g: (Period, string)): (r: seq<Observation>)
    ensures forall o :: o in r <==> o in df && PeriodOf(o) == g.0 && o.habit == g.1
  {
    Filter(df, InGroup(g))
  }

  /** A (period, habit) group holds each of its rows as often as the table does. */
  lemma GroupRowsMultiplicity(df: seq<Observation>, g: (Period, string))
    ensures forall o :: multiset(GroupRows(df, g))[o] == if PeriodOf(o) == g.0 && o.habit == g.1 then multiset(df)[o] else 0
  {
  }

  lemma GroupRowsNonEmpty(df: seq<Observation>)
    ensures forall g :: g in Groups(df) ==> |GroupRows(df, g)| > 0
  {
    forall g | g in Groups(df) ensures |GroupRows(df, g)| > 0 {
      var o :| o in df && (PeriodOf(o), o.habit) == g;
      assert o in GroupRows(df, g);
    }
  }

  /** `compute_completion_rates` with monthly periods: one rate per
      (month, habit) group present in the table, equal to the group's
      completed rows over all its rows. */
  function ComputeCompletionRates(df: seq<Observation>): (rates: map<(Period, string), real>)
    ensures rates.Keys == Groups(df)
    ensures forall g :: g in rates ==>
      |GroupRows(df, g)| > 0 && rates[g] == CountCompleted(GroupRows(df, g)) as real / |GroupRows(df, g)| as real
    ensures forall g :: g in rates ==> 0.0 <= rates[g] <= 1.0
  {
    GroupRowsNonEmpty(df);
    map g | g in Groups(df) :: RateOf(GroupRows(df, g))
  }

  /** The month before (year, month), January wrapping to December of the year before. */
  function PreviousMonth(year: int, month: int): (p: Period)
    ensures 1 <= month <= 12 ==> 1 <= p.month <= 12 && MonthIndex(p) == MonthIndex(Period(year, month)) - 1
  {
    if month == 1 then Period(year - 1, 12) else Period(year, month - 1)
  }

  function InMonth(year: int, month: int): Observation -> bool {
    (o: Observation) => o.year == year && o.month == month
  }

  /** The rows whose Year and Month columns are (year, month), in table order. */
  function MonthRows(df: seq<Observation>, year: int, month: int): (r: seq<Observation>)
    ensures forall o :: o in r <==> o in df && o.year == year && o.month == month
    ensures forall o :: multiset(r)[o] == if o.year == year && o.month == month then multiset(df)[o] else 0
  {
    Filter(df, InMonth(year, month))
  }

  /** `compute_rates`: one rate per habit present in `data`. */
  function ComputeRates(data: seq<Observation>): (rates: map<string, real>)
    ensures rates.Keys == HabitsOf(data)
    ensures forall h :: h in rates ==> HabitRate(data, h, rates[h])
  {
    var rates := map h | h in HabitsOf(data) :: RateOf(HabitRows(data, h));
    HabitRates(data, rates);
    rates
  }

  /** Each entry of the habit-rate map is that habit's completed share. */
  lemma HabitRates(data: seq<Observation>, rates: map<string, real>)
    requires rates == map h | h in HabitsOf(data) :: RateOf(HabitRows(data, h))
    ensures forall h :: h in rates ==> HabitRate(data, h, rates[h])
  {
    forall h | h in rates ensures HabitRate(data, h, rates[h]) {
      HabitRowsNonEmpty(data, h);
    }
  }

  /** `rate` is the completed share of a habit's non-empty group. */
  predicate HabitRate(data: seq<Observation>, h: string, rate: real) {
    |HabitRows(data, h)| > 0 && rate == CountCompleted(HabitRows(data, h)) as real / |HabitRows(data, h)| as real
  }

  /** The completion rate of a habit in one month; 0 when the habit has no
      row in that month. */
  function MonthRate(df: seq<Observation>, year: int, month: int, habit: string): real {
    RateOf(HabitRows(MonthRows(df, year, month), habit))
  }

  /** One row of the monthly comparison. */
  datatype Comparison = Comparison(current: real, previous: real, change: real)

  /** The rate a comparison side shows for a habit: the month's rate, or 0
      (`fillna(0)`) for a habit absent that month. */
  function RateOr0(rates: map<string, real>, habit: string): (rate: real)
    ensures habit in rates ==> rate == rates[habit]
    ensures habit !in rates ==> rate == 0.0
    ensures (forall h :: h in rates ==> 0.0 <= rates[h] <= 1.0) ==> 0.0 <= rate <= 1.0
  {
    if habit in rates then rates[habit] else 0.0
  }

  /** Read with a 0 for absent habits, the rates of `compute_rates` are the
      habit groups' rates, and a habit absent from the data reads 0. */
  lemma RatesOr0(data: seq<Observation>)
    ensures forall h :: RateOr0(ComputeRates(data), h) == RateOf(HabitRows(data, h))
    ensures forall h :: h !in HabitsOf(data) ==> RateOr0(ComputeRates(data), h) == 0.0
  {
    forall h ensures RateOr0(ComputeRates(data), h) == RateOf(HabitRows(data, h)) {
      HabitRowsNonEmpty(data, h);
    }
  }

  /** The comparison table built from two rate tables (`pd.DataFrame` of the
      two series, `fillna(0)`, then the Change column). */
  function CompareRates(currentRates: map<string, real>, previousRates: map<string, real>): (report: map<string, Comparison>)
    ensures report.Keys == currentRates.Keys + previousRates.Keys
    ensures forall h :: h in report ==>
      && report[h].current == RateOr0(currentRates, h)
      && report[h].previous == RateOr0(previousRates, h)
      && report[h].change == report[h].current - report[h].previous
  {
    map h | h in currentRates.Keys + previousRates.Keys ::
      var c, p := RateOr0(currentRates, h), RateOr0(previousRates, h);
      Comparison(c, p, c - p)
  }

  /** `generate_monthly_report`: for every habit seen in the month or in the
      month before, both months' completion rates and their difference. */
  function GenerateMonthlyReport(df: seq<Observation>, year: int, month: int): (report: map<string, Comparison>)
    ensures var prev := PreviousMonth(year, month);
      report.Keys == HabitsOf(MonthRows(df, year, month)) + HabitsOf(MonthRows(df, prev.year, prev.month))
    ensures var prev := PreviousMonth(year, month);
      forall h :: h in report ==>
        && report[h].current == MonthRate(df, year, month, h)
        && report[h].previous == MonthRate(df, prev.year, prev.month, h)
    ensures forall h :: h in report ==> report[h].change == report[h].current - report[h].previous
    ensures forall h :: h in report ==>
      && 0.0 <= report[h].current <= 1.0
      && 0.0 <= report[h].previous <= 1.0
      && -1.0 <= report[h].change <= 1.0
    ensures var prev := PreviousMonth(year, month);
      forall h :: h in report ==>
        && (h !in HabitsOf(MonthRows(df, year, month)) ==> report[h].current == 0.0)
        && (h !in HabitsOf(MonthRows(df, prev.year, prev.month)) ==> report[h].previous == 0.0)
  {
    var target := MonthRows(df, year, month);
    var prev := PreviousMonth(year, month);
    var prevData := MonthRows(df, prev.year, prev.month);
    RatesOr0(target);
    RatesOr0(prevData);
    CompareRates(ComputeRates(target), ComputeRates(prevData))
  }

  /** When each row's Year and Month columns are its date's (as loaded), the
      monthly comparison and the period rates agree: a habit's rate in a
      month is the rate of that (month, habit) group. */
  lemma MonthRateIsGroupRate(df: seq<Observation>, year: int, month: int, habit: string)
    requires forall o :: o in df ==> o.year == o.date.year && o.month == o.date.month
    requires (Period(year, month), habit) in Groups(df)
    ensures MonthRate(df, year, month, habit) == ComputeCompletionRates(df)[(Period(year, month), habit)]
  {
    var g := (Period(year, month), habit);
    FilterOfFilter(df, InMonth(year, month), HasHabit(habit), InGroup(g));
    GroupRowsNonEmpty(df);
  }
}
