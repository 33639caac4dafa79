# Habit pipeline model

A Dafny model of the transformation core of habits-visualizer, a tool that
turns exported habit-tracker data into monthly reports and summaries.

- **Loading** (`Loader`). The habit catalogue and two wide date-by-habit
  tables are turned into one observation table:
  - the tables are the raw checkmark values and the habit scores;
  - both tables are melted into long (date, habit, value) rows;
  - rows of habits outside the catalogue are dropped;
  - scores are left-joined on (date, habit), and colours on the habit name;
  - the Year, Month and Day columns are derived from the date;
  - each row is classified as completed or not by the completion rule.
- **Aggregation** (`Analyzer`). Completion rates per (month, habit) group,
  and the monthly comparison:
  - the comparison puts a month's per-habit rates next to those of the
    previous month;
  - January wraps to December of the year before;
  - a habit missing on one side reads 0;
  - the Change column is the difference of the two rates.
- **Reporting** (`Reporter`). The percentage form of the comparison, and the
  per-habit summary:
  - the summary holds each habit's mean completion and its current streak;
  - the streak is the run of completed rows counted back from the most
    recent date.

Tables are modelled as follows:
- Tables are sequences of records (`Observation`, `LongRow`).
- Tables that pandas indexes by habit or by (period, habit) are maps.
- Rates are exact ratios of row counts.
- The shared row type and the row selections (`Filter`, `HabitRows`,
  `CountCompleted`) live in `Observations`.
- `Scenarios` works small concrete cases through the model.

## Model

| member | source | states |
|---|---|---|
| Observations.Filter | analytics/loader.py:13 | A boolean mask keeps exactly the rows satisfying the condition, each as often as it occurs, and never adds rows |
| Observations.CountCompleted | analytics/analyzer.py:9 | The completed-row count is at most the row count; it is 0 iff no row is completed and equals the row count iff every row is |
| Observations.CountCompletedSelection | analytics/analyzer.py:9 | The completed-row count is the length of the selection `df[df['Completed']]` |
| Observations.HabitRows | analytics/analyzer.py:32-33 | A habit group holds exactly the table's rows of that habit |
| Observations.HabitRowsMultiplicity | analytics/analyzer.py:32-33 | A habit group holds each of the habit's rows as often as the table does, and no row of another habit |
| Observations.HabitRowsNoDateTies | analytics/reporter.py:40-41 | In a table with one row per (date, habit), no two different rows of a habit group share a date |
| Observations.HabitRowsNonEmpty | analytics/analyzer.py:33 | A habit has a non-empty group iff it occurs in the table, so group-by never yields an empty group |
| Observations.FilterOfFilter | analytics/analyzer.py:20 | Selecting a month and then a habit is the same as selecting both at once |
| Loader.Melt | analytics/loader.py:12 | Melting yields one long row per (line, habit column); every long row's habit is a column and its date a line's date |
| Loader.MeltAt | analytics/loader.py:12 | Cell (line i, column j) becomes long row j * lines + i with that line's date, that column's habit and that cell's value |
| Loader.CatalogueNames | analytics/loader.py:8 | Every catalogue entry's name is in the name list, and every listed name is some entry's name |
| Loader.CatalogueRows | analytics/loader.py:13 | After `isin`, every row's habit is in the catalogue; a catalogue habit's row occurs as often as in the melted table, any other habit's not at all |
| Loader.JoinRow | analytics/loader.py:21 | One left row joins into at least one row, all carrying that left row. Each right row of its key is paired with it. A present right side has the same key; an absent one means no right row has that key |
| Loader.LeftJoin | analytics/loader.py:21 | A left join has at least as many rows as the left table and carries only left rows. A present right side is a right row with the same key. An absent right side means no right row has that key |
| Loader.LeftJoinComplete | analytics/loader.py:21-26 | Every left row occurs in the join, and it occurs paired with each right row of its key |
| Loader.JoinRowMultiplicity | analytics/loader.py:21 | One left row joins into each right row of its key as often as the right table holds it, and into one row without a right side exactly when no right row has its key |
| Loader.LeftJoinMultiplicity | analytics/loader.py:21-26 | A (left, right) pair occurs as many times as the left row's copies times the right row's copies when their keys agree, and never otherwise. A (left, none) pair occurs once per copy of a left row that no right row matches, and never for a matched one |
| Loader.LeftJoinOneToOne | analytics/loader.py:21 | With unique right keys, the join has one row per left row, in left order |
| Loader.CatalogueRowsUniqueKeys | analytics/loader.py:12-18 | A table with distinct dates and distinct habit columns melts and filters into rows with distinct (Date, Habit) keys |
| Loader.DetermineCompletion | analytics/loader.py:36-41 | -1 is never completed. The two boolean habits are completed iff the value is 2. Every other habit is completed iff the value is positive |
| Loader.Observe | analytics/loader.py:29-43 | A merged row keeps the checkmark's date, habit and value. Its Year/Month/Day are the date's components. Its Completed flag is the completion rule's verdict |
| Loader.DeriveColumns | analytics/loader.py:43 | The derived columns are computed row by row, one output row per joined row |
| Loader.LoadHabitData | analytics/loader.py:4-45 | The loaded table has at least as many rows as there are catalogue checkmark rows. Every row's habit is in the catalogue and its date is a checkmark date. Year/Month/Day match the date. Completed follows the rule |
| Loader.MergeProvenance | analytics/loader.py:21-43 | Every merged row's habit and date are those of some checkmark row |
| Loader.LoadHabitDataCovers | analytics/loader.py:12-27 | Whatever the score and catalogue keys, every catalogue checkmark row reaches the loaded table with its date, habit and value. For each catalogue entry of its habit, some such row carries that entry's colour |
| Loader.MergeRows | analytics/loader.py:21-43 | With unique score keys and unique catalogue names, the merge has one row per checkmark row and row k is merged from checkmark row k |
| Loader.LoadHabitDataRows | analytics/loader.py:21-27 | With unique score keys and unique catalogue names, row k of the table comes from catalogue checkmark row k, and each row carries: the same date, habit and value; the matching score, or none if there is no matching score row; the habit's catalogue colour; the date's components; the completion verdict |
| Loader.LoadedKeysUnique | analytics/loader.py:4-27 | With distinct dates and habit columns in the checkmark file, unique score keys and unique catalogue names, no two loaded rows share a (Date, Habit) pair |
| Loader.LoadedHabitNoDateTies | analytics/loader.py:4-27 | Under the same conditions, no two different rows of a habit in the loaded table share a date |
| Loader.LoadedDatesValid | analytics/loader.py:30-32 | If every parsed date is a calendar day, every row's date is one too and its Month lies in 1..12 |
| Analyzer.PeriodOf | analytics/analyzer.py:6-7 | A valid date's monthly period has a month in 1..12, and it is the row's (Year, Month) whenever those columns come from the date |
| Analyzer.FilledRate | analytics/analyzer.py:12 | A group's rate lies in [0, 1] and is completed / total; a group without completed rows gets 0 |
| Analyzer.RateOf | analytics/analyzer.py:12 | A group's rate lies in [0, 1] and is its completed rows over its rows. It is 0 iff no row is completed, and 1 iff the group is non-empty and every row is completed |
| Analyzer.GroupRows | analytics/analyzer.py:9-10 | A (period, habit) group holds exactly the rows of that month and habit |
| Analyzer.GroupRowsMultiplicity | analytics/analyzer.py:9-10 | A (period, habit) group holds each of its rows as often as the table does, and no other row |
| Analyzer.GroupRowsNonEmpty | analytics/analyzer.py:10 | Every group present in the table has at least one row |
| Analyzer.ComputeCompletionRates | analytics/analyzer.py:4-14 | One rate per (month, habit) group present, equal to the group's completed rows over its rows, and in [0, 1] |
| Analyzer.PreviousMonth | analytics/analyzer.py:23-26 | For a valid month, the previous month is a valid month and exactly one month earlier; January wraps to December of the year before |
| Analyzer.MonthRows | analytics/analyzer.py:20 | The month selection holds exactly the rows whose Year and Month are the given ones, each as often as in the table |
| Analyzer.ComputeRates | analytics/analyzer.py:31-34 | One rate per habit present in the data, equal to its completed rows over its rows |
| Analyzer.RateOr0 | analytics/analyzer.py:39-41 | A habit present in a rate series reads its rate, a missing one reads 0, and the value stays in [0, 1] when the series' rates do |
| Analyzer.RatesOr0 | analytics/analyzer.py:39-41 | Read with 0 for a missing habit, a rate series gives each habit its group rate, and 0 to a habit absent from the data |
| Analyzer.CompareRates | analytics/analyzer.py:39-43 | The comparison covers the union of both series' habits. Each side is that series' rate, or 0 when missing. Change is current minus previous |
| Analyzer.GenerateMonthlyReport | analytics/analyzer.py:17-45 | One row per habit seen in the month or the month before. The current side uses only the month's rows, the previous side only the previous month's. Rates lie in [0, 1], Change in [-1, 1]. An absent side is 0 |
| Analyzer.MonthRateIsGroupRate | analytics/analyzer.py:9-20 | With Year/Month taken from the date, a habit's rate in the monthly report is that (month, habit) group's completion rate |
| Reporter.SaveMonthlyReport | analytics/reporter.py:5-29 | The report keeps the same habits. Each of the three columns is 100 times the input column, before rounding. Without rounding, Change stays current minus previous. The bounds scale to [0, 100] and [-100, 100] |
| Reporter.CompletionMean | analytics/reporter.py:35-37 | The mean of Completed lies in [0, 1] and is the habit's completion ratio. It is 1 iff every row is completed, and 0 iff none is |
| Reporter.InsertByDate | analytics/reporter.py:41 | Inserting into a date-descending sequence keeps it date-descending and adds exactly the one row |
| Reporter.SortByDateDesc | analytics/reporter.py:41 | The sort is date-descending and a permutation of the group's rows |
| Reporter.LatestFirst | analytics/reporter.py:41 | After the sort, the first row has a most recent date of the group |
| Reporter.SortedUnique | analytics/reporter.py:41 | Without two different rows on one date, there is only one date-descending order of a group's rows |
| Reporter.SortIgnoresTableOrder | analytics/reporter.py:40-48 | Without two different rows on one date, the sorted rows and the streak do not depend on the order in which the table lists the rows |
| Reporter.LeadingCompleted | analytics/reporter.py:43-47 | The count covers exactly the completed rows before the first row that is not completed |
| Reporter.CurrentStreak | analytics/reporter.py:40-48 | The streak is between 0 and the number of rows. The sorted rows before it are all completed, and the row at it (if any) is not. It is 0 when the most recent row is not completed |
| Reporter.ComputeStreak | analytics/reporter.py:40-48 | The loop with `break` returns exactly the current streak |
| Reporter.GenerateSummary | analytics/reporter.py:32-55 | One summary row per habit of the table. Its completion rate is the habit's completion ratio, in [0, 1]. Its streak is the habit's current streak, at most its row count. An empty table gives an empty summary |
| Scenarios.ExerciseJanuaryLoad | analytics/loader.py:4-45 | A one-column checkmark file with Exercise values 1, 0 and -1 on 1-3 January 2024 loads into three rows, completed, not completed and not completed, each coloured from the catalogue and without a score |
| Scenarios.ExerciseJanuaryRate | analytics/analyzer.py:4-14 | Those three rows give Exercise a January 2024 completion rate of 1/3 |
| Scenarios.StreakOfTwo | analytics/reporter.py:40-48 | Four days completed [T, F, T, T] oldest first, i.e. [T, T, F, T] newest first, give a streak of 2 |
| Scenarios.CompletionExamples | analytics/loader.py:36-41 | Sample values: 2 and 1 for a boolean habit, 2, 1, 0 and -1 for a numeric one |
| Scenarios.JanuaryComparesWithDecember | analytics/analyzer.py:23-26 | January 2024 is compared with December 2023, March 2024 with February 2024 |

## Left out

- Reading and writing CSV files (`read_csv`, `to_csv`, `os.makedirs`, file names built from year and month) is not modelled. The model's inputs are the parsed tables and its outputs are the tables that would be written.
- Date parsing is not modelled: a date is a (year, month, day) triple, and `LoadedDatesValid` takes valid calendar days as its hypothesis.
- The Weekday column (analytics/loader.py:33) is not modelled; nothing downstream in the core reads it.
- `to_period` with a frequency other than monthly is not modelled; the period is the (year, month) of the date.
- Floating point is not modelled: rates are exact ratios of counts.
- Reporter.SaveMonthlyReport: does not round to one decimal (`.round(1)`), because the model computes with exact reals. The identity "Change is current minus previous" holds only without rounding: rates 3/16 and 1/16 round to 18.8 and 6.2, but their difference 12.5 rounds to 12.5, not 12.6.
- Analyzer.ComputeCompletionRates: on a loaded table with no rows at all (for example, when no checkmark column is a catalogue habit), the Completed column pandas builds is not boolean, so `df_period[df_period['Completed']]` selects no columns and the following `groupby` fails (analytics/analyzer.py:9). The model does not model that failure and returns no rates.
- Analyzer.GenerateMonthlyReport: on a loaded table with no rows at all, `data[data['Completed']]` fails in the same way before the group-by (analytics/analyzer.py:32). The model does not model that failure and returns an empty comparison.
- Reporter.GenerateSummary: on an empty table the source's `groupby('Habit').apply(compute_streak)` yields an empty frame, and its `sort_values(ascending=False)` without a column raises an error (analytics/reporter.py:50). The model does not model that failure and returns the empty summary.
- Reporter.GenerateSummary: does not render the completion rate as a percentage string (`"{x:.1%}"`), and does not sort rows by rate or by streak. Its result is a map keyed by habit, so it carries no row order.
- Analyzer.GenerateMonthlyReport and Analyzer.ComputeCompletionRates: return maps keyed by habit or by (period, habit), so the row order pandas gives these tables is not modelled.
- Loader.LoadHabitData: the checkmark values are integers; a missing (NaN) checkmark cell is not modelled. Scores are carried as an optional value and take no part in the completion logic, so NaN propagation of missing scores is left out.
- Reporter.SortByDateDesc: when two rows of a habit share a date, pandas' sort may order them either way and the streak may depend on it. The model picks one order. `SortIgnoresTableOrder` shows the choice does not matter when no two different rows of a habit share a date. `LoadedHabitNoDateTies` shows the loaded table has that property when the checkmark file's dates and habit columns are distinct, the score keys are unique and the catalogue names are unique.
- Reporter.SaveMonthlyReport: the CSV header names are modelled as the fields of `PercentComparison`, not as strings.
- analytics/visualizer.py and analytics/run_analysis.py (plotting, the command line, the clock) are not part of this model.
