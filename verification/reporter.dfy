/** Reporting: the percentage form of the monthly comparison, and the
    per-habit summary of overall completion rate and current streak.
    Writing the CSV files is not part of this module; its methods return
    the tables that would be written. */
module Reporter {
  import opened Observations
  import opened Analyzer

  /** One row of the saved monthly report: the comparison's columns in
      percent, renamed "Current Month (%)", "Previous Month (%)", "Change (%)". */
  datatype PercentComparison = PercentComparison(currentPct: real, previousPct: real, changePct: real)

  /** `save_monthly_report` up to the file write: a copy of the comparison
      whose three columns are multiplied by 100, one column at a time, and
      then renamed. The same habits keep their rows; the comparison passed
      in is a value and is not changed. */
  method SaveMonthlyReport(comparison: map<string, Comparison>) returns (report: map<string, PercentComparison>)
    ensures report.Keys == comparison.Keys
    ensures forall h :: h in report ==>
      && report[h].currentPct == 100.0 * comparison[h].current
      && report[h].previousPct == 100.0 * comparison[h].previous
      && report[h].changePct == 100.0 * comparison[h].change
    ensures (forall h :: h in comparison ==> comparison[h].change == comparison[h].current - comparison[h].previous) ==>
      forall h :: h in report ==> report[h].changePct == report[h].currentPct - report[h].previousPct
    ensures (forall h :: h in comparison ==>
               0.0 <= comparison[h].current <= 1.0 && 0.0 <= comparison[h].previous <= 1.0
               && comparison[h].change == comparison[h].current - comparison[h].previous) ==>
      forall h :: h in report ==>
        && 0.0 <= report[h].currentPct <= 100.0
        && 0.0 <= report[h].previousPct <= 100.0
        && -100.0 <= report[h].changePct <= 100.0
  {
    var csv := comparison;
    csv := map h | h in csv :: csv[h].(current := csv[h].current * 100.0);
    csv := map h | h in csv :: csv[h].(previous := csv[h].previous * 100.0);
    csv := map h | h in csv :: csv[h].(change := csv[h].change * 100.0);
    report := map h | h in csv :: PercentComparison(csv[h].current, csv[h].previous, csv[h].change);
  }

  /** The mean of the Completed column over a habit's rows. */
  function CompletionMean(rows: seq<Observation>): (mean: real)
    requires |rows| > 0
    ensures 0.0 <= mean <= 1.0
    ensures mean == RateOf(rows)
    ensures mean == 1.0 <==> forall k :: 0 <= k < |rows| ==> rows[k].completed
    ensures mean == 0.0 <==> forall k :: 0 <= k < |rows| ==> !rows[k].completed
  {
    var completed, total := CountCompleted(rows) as real, |rows| as real;
    Ratio(completed, total);
    completed / total
  }

  /** The most recent row first: every row's date is on or after the dates of
      the rows that follow it. */
  predicate SortedByDateDesc(s: seq<Observation>) {
    forall i, j :: 0 <= i < j < |s| ==> OnOrBefore(s[j].date, s[i].date)
  }

  function InsertByDate(x: Observation, s: seq<Observation>): (r: seq<Observation>)
    requires SortedByDateDesc(s)
    ensures SortedByDateDesc(r)
    ensures multiset(r) == multiset(s) + multiset{x}
  {
    if s == [] || OnOrBefore(s[0].date, x.date) then
      [x] + s
    else
      var rest := InsertByDate(x, s[1..]);
      assert s == [s[0]] + s[1..];
      NoLaterThan(s[0], x, s[1..], rest);
      [s[0]] + rest
  }

  /** Rows made of `x` and rows no later than `head` are no later than `head`
      when `x` is not. */
  lemma NoLaterThan(head: Observation, x: Observation, tail: seq<Observation>, rest: seq<Observation>)
    requires SortedByDateDesc([head] + tail) && OnOrBefore(x.date, head.date)
    requires multiset(rest) == multiset(tail) + multiset{x}
    ensures forall y :: y in rest ==> OnOrBefore(y.date, head.date)
  {
    forall y | y in rest ensures OnOrBefore(y.date, head.date) {
      assert y in multiset(rest);
      if y != x {
        assert y in multiset(tail);
        var k :| 0 <= k < |tail| && tail[k] == y;
        assert ([head] + tail)[0] == head && ([head] + tail)[k + 1] == y;
      }
    }
  }

  /** `sort_values('Date', ascending=False)`: the rows reordered so that the
      most recent comes first. */
  function SortByDateDesc(s: seq<Observation>): (r: seq<Observation>)
    ensures SortedByDateDesc(r)
    ensures multiset(r) == multiset(s) && |r| == |s|
  {
    if s == [] then []
    else
      assert s == [s[0]] + s[1..];
      InsertByDate(s[0], SortByDateDesc(s[1..]))
  }

  /** After the sort, the first row is a most recent one. */
  lemma LatestFirst(group: seq<Observation>)
    requires |group| > 0
    ensures forall o :: o in group ==> OnOrBefore(o.date, SortByDateDesc(group)[0].date)
  {
    var recent := SortByDateDesc(group);
    forall o | o in group ensures OnOrBefore(o.date, recent[0].date) {
      assert o in multiset(recent);
      var k :| 0 <= k < |recent| && recent[k] == o;
    }
  }

  /** Two date-descending orders of the same rows, no date ties, start
      with the same row. */
  lemma SortedSameHead(a: seq<Observation>, b: seq<Observation>)
    requires SortedByDateDesc(a) && SortedByDateDesc(b) && multiset(a) == multiset(b)
    requires NoDateTies(a) && a != []
    ensures b != [] && a[0] == b[0]
  {
    assert a[0] in multiset(b) && b[0] in multiset(a);
    var i :| 0 <= i < |a| && a[i] == b[0];
    var j :| 0 <= j < |b| && b[j] == a[0];
    assert OnOrBefore(b[0].date, a[0].date) && OnOrBefore(a[0].date, b[0].date);
  }

  /** Dropping the first row keeps the order and removes just that row. */
  lemma SortedTail(a: seq<Observation>)
    requires SortedByDateDesc(a) && a != []
    ensures SortedByDateDesc(a[1..])
    ensures multiset(a[1..]) == multiset(a) - multiset{a[0]}
  {
    assert a == [a[0]] + a[1..];
  }

  /** Dropping the first row keeps no date ties. */
  lemma NoDateTiesTail(a: seq<Observation>)
    requires NoDateTies(a) && a != []
    ensures NoDateTies(a[1..])
  {
  }

  /** Rows with no date ties have a single date-descending order. */
  lemma {:induction false} SortedUnique(a: seq<Observation>, b: seq<Observation>)
    requires SortedByDateDesc(a) && SortedByDateDesc(b) && multiset(a) == multiset(b)
    requires NoDateTies(a)
    ensures a == b
  {
    if a == [] {
      assert |b| == |multiset(b)| == 0;
    } else {
      SortedSameHead(a, b);
      SortedTail(a);
      SortedTail(b);
      NoDateTiesTail(a);
      SortedUnique(a[1..], b[1..]);
      assert a == [a[0]] + a[1..] && b == [b[0]] + b[1..];
    }
  }

  /** With no date ties, sorting does not depend on the order in which the
      table lists a habit's rows, and neither does the current streak. */
  lemma SortIgnoresTableOrder(g1: seq<Observation>, g2: seq<Observation>)
    requires multiset(g1) == multiset(g2) && NoDateTies(g1)
    ensures SortByDateDesc(g1) == SortByDateDesc(g2)
    ensures CurrentStreak(g1) == CurrentStreak(g2)
  {
    var s1, s2 := SortByDateDesc(g1), SortByDateDesc(g2);
    assert forall x :: x in s1 <==> x in g1 by {
      forall x ensures x in s1 <==> x in g1 {
        assert x in s1 <==> x in multiset(s1);
      }
    }
    SortedUnique(s1, s2);
  }

  /** The number of completed rows at the front of `rows`, up to the first
      row that is not completed. */
  function LeadingCompleted(rows: seq<Observation>): (n: nat)
    ensures n <= |rows|
    ensures forall k :: 0 <= k < n ==> rows[k].completed
    ensures n < |rows| ==> !rows[n].completed
  {
    if rows == [] || !rows[0].completed then 0
    else 1 + LeadingCompleted(rows[1..])
  }

  /** The current streak of a habit's rows: the rows sorted most recent first
      begin with exactly this many completed rows. */
  function CurrentStreak(group: seq<Observation>): (n: nat)
    ensures n <= |group|
    ensures forall k :: 0 <= k < n ==> SortByDateDesc(group)[k].completed
    ensures n < |group| ==> !SortByDateDesc(group)[n].completed
    ensures |group| > 0 && !SortByDateDesc(group)[0].completed ==> n == 0
  {
    LeadingCompleted(SortByDateDesc(group))
  }

  /** `compute_streak`: count completed rows from the most recent one back,
      stopping at the first row that is not completed. */
  method ComputeStreak(group: seq<Observation>) returns (streak: nat)
    ensures streak == CurrentStreak(group)
  {
    var recent := SortByDateDesc(group);
    streak := 0;
    for i := 0 to |recent|
      invariant streak == i
      invariant forall k :: 0 <= k < i ==> recent[k].completed
    {
      if recent[i].completed {
        streak := streak + 1;
      } else {
        break;
      }
    }
  }

  /** One row of the habit summary. */
  datatype HabitSummary = HabitSummary(completionRate: real, currentStreak: nat)

  /** `generate_summary` up to formatting and the file write: one summary row
      for every habit of the table, holding the mean of the habit's Completed
      column and its current streak. */
  function GenerateSummary(df: seq<Observation>): (summary: map<string, HabitSummary>)
    ensures summary.Keys == HabitsOf(df)
    ensures forall h :: h in summary ==> SummarizesHabit(df, h, summary[h])
  {
    var summary := map h | h in HabitsOf(df) :: SummaryOf(df, h);
    SummaryRows(df, summary);
    summary
  }

  /** Each entry of the summary map summarizes its habit. */
  lemma SummaryRows(df: seq<Observation>, summary: map<string, HabitSummary>)
    requires summary == map h | h in HabitsOf(df) :: SummaryOf(df, h)
    ensures summary.Keys == HabitsOf(df)
    ensures forall h :: h in summary ==> SummarizesHabit(df, h, summary[h])
  {
    forall h | h in summary ensures SummarizesHabit(df, h, summary[h]) {
      SummaryOfHabit(df, h);
    }
  }

  /** The summary row of a habit of the table. */
  function SummaryOf(df: seq<Observation>, h: string): HabitSummary
    requires h in HabitsOf(df)
  {
    HabitRowsNonEmpty(df, h);
    HabitSummary(CompletionMean(HabitRows(df, h)), CurrentStreak(HabitRows(df, h)))
  }

  /** `s` holds the completion ratio, in [0, 1], and the current streak, at
      most the row count, of the habit's non-empty group. */
  predicate SummarizesHabit(df: seq<Observation>, h: string, s: HabitSummary) {
    && |HabitRows(df, h)| > 0
    && s.completionRate == RateOf(HabitRows(df, h))
    && 0.0 <= s.completionRate <= 1.0
    && s.currentStreak == CurrentStreak(HabitRows(df, h))
    && s.currentStreak <= |HabitRows(df, h)|
  }

  /** A habit of the table gets a summary row with the promised values. */
  lemma SummaryOfHabit(df: seq<Observation>, h: string)
    requires h in HabitsOf(df)
    ensures SummarizesHabit(df, h, SummaryOf(df, h))
  {
    HabitRowsNonEmpty(df, h);
  }
}
