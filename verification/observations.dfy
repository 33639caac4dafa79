/** The merged observation table shared by the loader, the aggregator and the
    reporter: calendar dates, one record per (date, habit), and the row
    selections and counts that every aggregation is built from. */
module Observations {
  import opened Wrappers

  /** A calendar date as parsed from a Date column. */
  datatype Date = Date(year: int, month: int, day: int)

  predicate IsLeapYear(year: int) {
    (year % 4 == 0 && year % 100 != 0) || year % 400 == 0
  }

  function DaysInMonth(year: int, month: int): (n: int)
    requires 1 <= month <= 12
    ensures 28 <= n <= 31
    ensures n == 29 <==> month == 2 && IsLeapYear(year)
  {
    if month == 2 then (if IsLeapYear(year) then 29 else 28)
    else if month == 4 || month == 6 || month == 9 || month == 11 then 30
    else 31
  }

  /** What a successful date parse produces: a real day of the Gregorian calendar. */
  predicate ValidDate(d: Date) {
    1 <= d.month <= 12 && 1 <= d.day <= DaysInMonth(d.year, d.month)
  }

  /** Chronological order: `a` is the same day as `b` or an earlier one. */
  predicate OnOrBefore(a: Date, b: Date) {
    || a.year < b.year
    || (a.year == b.year && (a.month < b.month || (a.month == b.month && a.day <= b.day)))
  }

  /** One row of the merged table: the raw checkmark value of one habit on one
      day, its score if the score table has one, the habit's display colour,
      the date's components and the derived completion flag. */
  datatype Observation = Observation(
    date: Date,
    habit: string,
    value: int,
    score: Option<real>,
    color: Option<string>,
    year: int,
    month: int,
    day: int,
    completed: bool)

  /** The rows of `s` that satisfy `keep`, in their original order (a boolean
      mask applied to a table). */
  function Filter<T(==,!new)>(s: seq<T>, keep: T -> bool): (r: seq<T>)
    ensures |r| <= |s|
    ensures forall x :: x in r <==> x in s && keep(x)
    ensures forall x :: multiset(r)[x] == if keep(x) then multiset(s)[x] else 0
  {
    if s == [] then []
    else
      assert s == [s[0]] + s[1..];
      (if keep(s[0]) then [s[0]] else []) + Filter(s[1..], keep)
  }

  lemma FilterCons<T(!new)>(s: seq<T>, keep: T -> bool)
    requires s != []
    ensures Filter(s, keep) == (if keep(s[0]) then [s[0]] else []) + Filter(s[1..], keep)
  {
  }

  /** Filtering twice is filtering once by both conditions. */
  lemma {:induction false} FilterOfFilter<T(!new)>(s: seq<T>, outer: T -> bool, inner: T -> bool, both: T -> bool)
    requires forall x :: x in s ==> (both(x) <==> outer(x) && inner(x))
    ensures Filter(Filter(s, outer), inner) == Filter(s, both)
  {
    if s != [] {
      var x, tail := s[0], s[1..];
      assert x in s && forall y :: y in tail ==> y in s;
      FilterOfFilter(tail, outer, inner, both);
      FilterCons(s, outer);
      FilterCons(s, both);
      var once := Filter(s, outer);
      if outer(x) {
        FilterCons(once, inner);
        assert once[0] == x && once[1..] == Filter(tail, outer);
        assert Filter(once, inner) == (if inner(x) then [x] else []) + Filter(tail, both);
      } else {
        assert once == Filter(tail, outer);
        assert Filter(s, both) == Filter(tail, both);
      }
    }
  }

  /** A filter that keeps every row changes nothing. */
  lemma {:induction false} FilterKeepsAll<T(!new)>(s: seq<T>, keep: T -> bool)
    requires forall k :: 0 <= k < |s| ==> keep(s[k])
    ensures Filter(s, keep) == s
  {
    if s != [] {
      FilterCons(s, keep);
      FilterKeepsAll(s[1..], keep);
    }
  }

  /** The number of rows whose completion flag is set: the size of the
      selection of completed rows. */
  function CountCompleted(rows: seq<Observation>): (n: nat)
    ensures n <= |rows|
    ensures n == 0 <==> forall k :: 0 <= k < |rows| ==> !rows[k].completed
    ensures n == |rows| <==> forall k :: 0 <= k < |rows| ==> rows[k].completed
  {
    if rows == [] then 0
    else
      assert forall k :: 1 <= k < |rows| ==> rows[k] == rows[1..][k - 1];
      (if rows[0].completed then 1 else 0) + CountCompleted(rows[1..])
  }

  /** The boolean mask of the Completed column. */
  predicate IsCompleted(o: Observation) {
    o.completed
  }

  /** The completed-row count is the length of the selection of completed
      rows (`df[df['Completed']]`). */
  lemma {:induction false} CountCompletedSelection(rows: seq<Observation>)
    ensures CountCompleted(rows) == |Filter(rows, IsCompleted)|
  {
    if rows != [] {
      FilterCons(rows, IsCompleted);
      CountCompletedSelection(rows[1..]);
    }
  }

  /** No two different rows fall on the same date. Identical copies of one
      row may still repeat; they sort alike, so the order stays unique. */
  predicate NoDateTies(rows: seq<Observation>) {
    forall x, y :: x in rows && y in rows && x.date == y.date ==> x == y
  }

  /** No two rows of the table share both date and habit. */
  predicate OnePerDateAndHabit(rows: seq<Observation>) {
    forall i, j :: 0 <= i < j < |rows| ==> (rows[i].date, rows[i].habit) != (rows[j].date, rows[j].habit)
  }

  /** In a table with one row per (date, habit), no two rows of a habit share a date. */
  lemma HabitRowsNoDateTies(rows: seq<Observation>, habit: string)
    requires OnePerDateAndHabit(rows)
    ensures NoDateTies(HabitRows(rows, habit))
  {
    var group := HabitRows(rows, habit);
    forall x, y | x in group && y in group && x.date == y.date ensures x == y {
      var i :| 0 <= i < |rows| && rows[i] == x;
      var j :| 0 <= j < |rows| && rows[j] == y;
      assert i == j;
    }
  }

  /** The habits that occur in a table. */
  function HabitsOf(rows: seq<Observation>): set<string> {
    set o | o in rows :: o.habit
  }

  /** The rows of one habit, in table order (a group of a group-by on Habit). */
  function HabitRows(rows: seq<Observation>, habit: string): (r: seq<Observation>)
    ensures forall o :: o in r ==> o in rows && o.habit == habit
    ensures forall o :: o in rows && o.habit == habit ==> o in r
  {
    Filter(rows, HasHabit(habit))
  }

  /** A habit group holds each of the habit's rows as often as the table does,
      and no other row. */
  lemma HabitRowsMultiplicity(rows: seq<Observation>, habit: string)
    ensures forall o :: multiset(HabitRows(rows, habit))[o] == if o.habit == habit then multiset(rows)[o] else 0
  {
  }

  function HasHabit(habit: string): Observation -> bool {
    (o: Observation) => o.habit == habit
  }

  /** A habit has a non-empty group exactly when it occurs in the table. */
  lemma HabitRowsNonEmpty(rows: seq<Observation>, habit: string)
    ensures habit in HabitsOf(rows) <==> |HabitRows(rows, habit)| > 0
  {
    if habit in HabitsOf(rows) {
      var o :| o in rows && o.habit == habit;
      assert o in HabitRows(rows, habit);
    }
    if |HabitRows(rows, habit)| > 0 {
      assert HabitRows(rows, habit)[0] in rows;
    }
  }
}
