/** Worked examples of the pipeline on small concrete tables. */
module Scenarios {
  import opened Wrappers
  import opened Observations
  import opened Loader
  import opened Analyzer
  import opened Reporter

  /** The report for January 2024 compares against December 2023. */
  lemma JanuaryComparesWithDecember()
    ensures PreviousMonth(2024, 1) == Period(2023, 12)
    ensures PreviousMonth(2024, 3) == Period(2024, 2)
  {
  }

  /** The completion rule on sample values: a boolean-style habit needs its
      top value 2, a numeric habit any positive value, and -1 never counts. */
  lemma CompletionExamples()
    ensures DetermineCompletion("Quit coffee", 2) && !DetermineCompletion("Quit coffee", 1)
    ensures DetermineCompletion("Exercise", 1) && DetermineCompletion("Exercise", 2)
    ensures !DetermineCompletion("Exercise", 0) && !DetermineCompletion("Exercise", -1)
    ensures !DetermineCompletion("Stay away from sugar", -1)
  {
  }

  /** A checkmark file with one habit column, "Exercise", holding 1, 0 and
      -1 on 1-3 January 2024, a catalogue listing Exercise in #4CAF50 and a
      score file without habit columns load into three rows: completed, not
      completed, not completed, each coloured #4CAF50 and without a score. */
  lemma ExerciseJanuaryLoad(meta: seq<HabitMeta>, checkmarks: WideTable<int>, scores: WideTable<real>)
    requires meta == [HabitMeta("Exercise", "#4CAF50")]
    requires checkmarks.habits == ["Exercise"] && |checkmarks.rows| == 3
    requires forall k :: 0 <= k < 3 ==> checkmarks.rows[k] == WideRow(Date(2024, 1, k + 1), [1 - k])
    requires Rectangular(scores) && scores.habits == []
    ensures Rectangular(checkmarks)
    ensures var df := LoadHabitData(meta, checkmarks, scores);
      && |df| == 3
      && df[0].completed && !df[1].completed && !df[2].completed
      && (forall k :: 0 <= k < 3 ==> df[k].habit == "Exercise" && df[k].date == Date(2024, 1, k + 1))
      && (forall k :: 0 <= k < 3 ==> df[k].color == Some("#4CAF50") && df[k].score == None)
  {
    ExerciseCheckRows(meta, checkmarks);
    var checks := CatalogueCheckmarks(meta, checkmarks);
    assert CatalogueScores(meta, scores) == [] by {
      assert |Melt(scores)| == 0;
    }
    assert LoadHabitData(meta, checkmarks, scores) == Merge(checks, [], meta);
    ExerciseMerge(meta, checks);
  }

  /** The long rows of the Exercise example: 1, 0 and -1 on 1-3 January 2024. */
  predicate ExerciseRows(rows: seq<LongRow<int>>) {
    && |rows| == 3
    && forall k :: 0 <= k < 3 ==> rows[k] == LongRow(Date(2024, 1, k + 1), "Exercise", 1 - k)
  }

  /** Merging the three Exercise rows without scores. */
  lemma ExerciseMerge(meta: seq<HabitMeta>, checks: seq<LongRow<int>>)
    requires |meta| == 1 && meta[0] == HabitMeta("Exercise", "#4CAF50")
    requires ExerciseRows(checks)
    ensures var df := Merge(checks, [], meta);
      && |df| == 3
      && df[0].completed && !df[1].completed && !df[2].completed
      && (forall k :: 0 <= k < 3 ==> df[k].habit == "Exercise" && df[k].date == Date(2024, 1, k + 1))
      && (forall k :: 0 <= k < 3 ==> df[k].color == Some("#4CAF50") && df[k].score == None)
  {
    assert UniqueKeys(meta, MetaName);
    MergeRows(checks, [], meta);
    var df, m := Merge(checks, [], meta), meta[0];
    assert m in meta;
    forall k | 0 <= k < 3
      ensures df[k].color == Some("#4CAF50") && df[k].score == None
      ensures df[k].habit == "Exercise" && df[k].date == Date(2024, 1, k + 1)
      ensures df[k].completed == DetermineCompletion("Exercise", checks[k].value)
    {
      assert MergedFrom(df[k], checks[k], [], meta);
    }
    assert checks[0].value == 1 && checks[1].value == 0 && checks[2].value == -1;
    CompletionExamples();
  }

  /** The catalogue keeps all three melted Exercise rows, in file order. */
  lemma ExerciseCheckRows(meta: seq<HabitMeta>, checkmarks: WideTable<int>)
    requires meta == [HabitMeta("Exercise", "#4CAF50")]
    requires checkmarks.habits == ["Exercise"] && |checkmarks.rows| == 3
    requires forall k :: 0 <= k < 3 ==> checkmarks.rows[k] == WideRow(Date(2024, 1, k + 1), [1 - k])
    ensures Rectangular(checkmarks)
    ensures ExerciseRows(CatalogueCheckmarks(meta, checkmarks))
  {
    ExerciseMelt(checkmarks);
    assert "Exercise" in CatalogueNames(meta) by {
      assert meta[0].name == "Exercise";
    }
    FilterKeepsAll(Melt(checkmarks), InCatalogue(CatalogueNames(meta)));
  }

  /** Melting the one-column checkmark file lists its three cells in order. */
  lemma ExerciseMelt(checkmarks: WideTable<int>)
    requires checkmarks.habits == ["Exercise"] && |checkmarks.rows| == 3
    requires forall k :: 0 <= k < 3 ==> checkmarks.rows[k] == WideRow(Date(2024, 1, k + 1), [1 - k])
    ensures Rectangular(checkmarks)
    ensures ExerciseRows(Melt(checkmarks))
  {
    assert Rectangular(checkmarks);
    forall i | 0 <= i < 3
      ensures Melt(checkmarks)[i] == LongRow(checkmarks.rows[i].date, "Exercise", checkmarks.rows[i].cells[0])
    {
      MeltAt(checkmarks, 0, i);
    }
  }

  /** Those three rows give Exercise a January 2024 completion rate of 1/3. */
  lemma ExerciseJanuaryRate(df: seq<Observation>)
    requires |df| == 3 && df[0].completed && !df[1].completed && !df[2].completed
    requires forall k :: 0 <= k < 3 ==> df[k].habit == "Exercise" && df[k].date == Date(2024, 1, k + 1)
    ensures ComputeCompletionRates(df)[(Period(2024, 1), "Exercise")] == 1.0 / 3.0
  {
    var g := (Period(2024, 1), "Exercise");
    assert df[0] in df;
    FilterKeepsAll(df, InGroup(g));
    assert GroupRows(df, g) == df;
    OneOfThree(df);
  }

  /** Completed, not completed, not completed: one completed row. */
  lemma OneOfThree(rows: seq<Observation>)
    requires |rows| == 3 && rows[0].completed && !rows[1].completed && !rows[2].completed
    ensures CountCompleted(rows) == 1
  {
    assert CountCompleted(rows[2..]) == 0;
    assert CountCompleted(rows[1..]) == 0 by {
      assert rows[1..][1..] == rows[2..];
    }
    assert rows[1..][0] == rows[1];
  }

  /** A habit's rows for four consecutive January days, listed oldest first
      as the checkmark file lists them and completed, not completed,
      completed, completed, have a current streak of 2: the two latest days. */
  lemma StreakOfTwo(d1: Observation, d2: Observation, d3: Observation, d4: Observation)
    requires d1.date == Date(2024, 1, 1) && d2.date == Date(2024, 1, 2)
    requires d3.date == Date(2024, 1, 3) && d4.date == Date(2024, 1, 4)
    requires d1.completed && !d2.completed && d3.completed && d4.completed
    ensures CurrentStreak([d1, d2, d3, d4]) == 2
  {
    SortsNewestFirst(d1, d2, d3, d4);
    var recent := SortByDateDesc([d1, d2, d3, d4]);
    assert recent[0] == d4 && recent[1] == d3 && recent[2] == d2;
    forall k | 0 <= k < 2 ensures recent[k].completed {
      assert k == 0 || k == 1;
    }
  }

  /** Sorting four rows listed oldest first reverses them. */
  lemma SortsNewestFirst(d1: Observation, d2: Observation, d3: Observation, d4: Observation)
    requires d1.date == Date(2024, 1, 1) && d2.date == Date(2024, 1, 2)
    requires d3.date == Date(2024, 1, 3) && d4.date == Date(2024, 1, 4)
    ensures SortByDateDesc([d1, d2, d3, d4]) == [d4, d3, d2, d1]
  {
    var group, recent := [d1, d2, d3, d4], [d4, d3, d2, d1];
    NewestFirst(d1, d2, d3, d4);
    var sorted := SortByDateDesc(group);
    assert multiset(recent) == multiset(group) == multiset(sorted);
    SortedUnique(recent, sorted);
  }

  lemma NewestFirst(d1: Observation, d2: Observation, d3: Observation, d4: Observation)
    requires d1.date == Date(2024, 1, 1) && d2.date == Date(2024, 1, 2)
    requires d3.date == Date(2024, 1, 3) && d4.date == Date(2024, 1, 4)
    ensures SortedByDateDesc([d4, d3, d2, d1]) && NoDateTies([d4, d3, d2, d1])
  {
  }
}
