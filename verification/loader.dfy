/** Loading: the habit catalogue and the two wide per-date tables (raw
    checkmark values and scores) are reshaped into long rows, restricted to
    the catalogue, joined, coloured and classified into the observation
    table. Reading the CSV files and parsing their dates happen before this
    module: its inputs are the parsed tables. */
module Loader {
  import opened Wrappers
  import opened Observations

  /** One entry of the habit catalogue: its Name and Color columns. */
  datatype HabitMeta = HabitMeta(name: string, color: string)

  /** One line of a wide table: a date and one cell per habit column. */
  datatype WideRow<V> = WideRow(date: Date, cells: seq<V>)

  /** A wide table as read from CSV: a Date column followed by one column per habit. */
  datatype WideTable<V> = WideTable(habits: seq<string>, rows: seq<WideRow<V>>)

  /** Every line has exactly one cell per habit column, as a parsed CSV table does. */
  predicate Rectangular<V>(t: WideTable<V>) {
    forall i :: 0 <= i < |t.rows| ==> |t.rows[i].cells| == |t.habits|
  }

  function DatesOf<V>(t: WideTable<V>): set<Date> {
    set i | 0 <= i < |t.rows| :: t.rows[i].date
  }

  /** One row of a long (melted) table: (Date, Habit, value). */
  datatype LongRow<V> = LongRow(date: Date, habit: string, value: V)

  /** The join key of a long row. */
  function RowKey<V>(x: LongRow<V>): (Date, string) {
    (x.date, x.habit)
  }

  /** Habit column `j` melted: one long row per line of the table. */
  function MeltColumn<V>(t: WideTable<V>, j: nat): seq<LongRow<V>>
    requires Rectangular(t) && j < |t.habits|
  {
    seq(|t.rows|, i requires 0 <= i < |t.rows| => LongRow(t.rows[i].date, t.habits[j], t.rows[i].cells[j]))
  }

  /** The first `n` habit columns melted, column after column. */
  function MeltColumns<V>(t: WideTable<V>, n: nat): (r: seq<LongRow<V>>)
    requires Rectangular(t) && n <= |t.habits|
    ensures |r| == n * |t.rows|
    ensures forall x :: x in r ==> x.habit in t.habits[..n] && x.date in DatesOf(t)
  {
    if n == 0 then []
    else
      var prefix, column := MeltColumns(t, n - 1), MeltColumn(t, n - 1);
      assert forall x :: x in column ==> x.habit == t.habits[n - 1] && x.date in DatesOf(t) by {
        forall x | x in column ensures x.habit == t.habits[n - 1] && x.date in DatesOf(t) {
          var i :| 0 <= i < |column| && column[i] == x;
        }
      }
      assert forall x :: x in prefix ==> x.habit in t.habits[..n] by {
        assert t.habits[..n - 1] <= t.habits[..n];
      }
      assert (n - 1) * |t.rows| + |t.rows| == n * |t.rows|;
      prefix + column
  }

  /** `melt(id_vars='Date')`: the wide table turned into one long row per
      (line, habit column), all lines of the first habit column first. */
  function Melt<V>(t: WideTable<V>): (r: seq<LongRow<V>>)
    requires Rectangular(t)
    ensures |r| == |t.habits| * |t.rows|
    ensures forall x :: x in r ==> x.habit in t.habits && x.date in DatesOf(t)
  {
    assert t.habits[..|t.habits|] == t.habits;
    MeltColumns(t, |t.habits|)
  }

  lemma {:induction false} MeltColumnsAt<V>(t: WideTable<V>, n: nat, j: nat, i: nat)
    requires Rectangular(t) && n <= |t.habits| && j < n && i < |t.rows|
    ensures j * |t.rows| + i < |MeltColumns(t, n)|
    ensures MeltColumns(t, n)[j * |t.rows| + i] == LongRow(t.rows[i].date, t.habits[j], t.rows[i].cells[j])
  {
    var width := |t.rows|;
    assert (n - 1) * width + width == n * width;
    if j < n - 1 {
      MeltColumnsAt(t, n - 1, j, i);
    } else {
      assert j * width + i == (n - 1) * width + i;
    }
  }

  /** Every cell of the wide table appears in the melted table, at the
      position `melt` gives it: cell (line i, habit j) at j * lines + i. */
  lemma MeltAt<V>(t: WideTable<V>, j: nat, i: nat)
    requires Rectangular(t) && j < |t.habits| && i < |t.rows|
    ensures j * |t.rows| + i < |Melt(t)|
    ensures Melt(t)[j * |t.rows| + i] == LongRow(t.rows[i].date, t.habits[j], t.rows[i].cells[j])
  {
    MeltColumnsAt(t, |t.habits|, j, i);
  }

  /** The habit names of the catalogue (`habits_meta['Name'].tolist()`). */
  function CatalogueNames(meta: seq<HabitMeta>): (names: set<string>)
    ensures forall k :: 0 <= k < |meta| ==> meta[k].name in names
    ensures forall n :: n in names ==> exists k :: 0 <= k < |meta| && meta[k].name == n
  {
    set m | m in meta :: m.name
  }

  /** A melted table restricted to the catalogue habits (`isin(habit_names)`):
      rows of other habits are dropped, every other row is kept as often as it occurs. */
  function CatalogueRows<V(==,!new)>(t: WideTable<V>, names: set<string>): (r: seq<LongRow<V>>)
    requires Rectangular(t)
    ensures forall x :: x in r ==> x.habit in names && x.date in DatesOf(t)
    ensures forall x :: multiset(r)[x] == if x.habit in names then multiset(Melt(t))[x] else 0
  {
    Filter(Melt(t), InCatalogue(names))
  }

  function InCatalogue<V>(names: set<string>): LongRow<V> -> bool {
    (x: LongRow<V>) => x.habit in names
  }

  /** No two rows of `s` share a key. */
  predicate UniqueKeys<R, K(==)>(s: seq<R>, key: R -> K) {
    forall i, j :: 0 <= i < j < |s| ==> key(s[i]) != key(s[j])
  }

  /** The rows of `right` whose key is `key`, in order. */
  function KeyMatches<R(==,!new), K(==)>(right: seq<R>, rkey: R -> K, key: K): (m: seq<R>)
    ensures forall y :: y in m <==> y in right && rkey(y) == key
  {
    Filter(right, (y: R) => rkey(y) == key)
  }

  /** The rows a left join produces for one left row. */
  function JoinRow<L(==), R(==,!new), K(==)>(l: L, right: seq<R>, lkey: L -> K, rkey: R -> K): (r: seq<(L, Option<R>)>)
    ensures |r| >= 1 && r[0].0 == l
    ensures forall p :: p in r ==> p.0 == l
    ensures forall p :: p in r && p.1.Some? ==> p.1.value in right && rkey(p.1.value) == lkey(l)
    ensures forall p :: p in r && p.1.None? ==> forall y :: y in right ==> rkey(y) != lkey(l)
    ensures forall y :: y in right && rkey(y) == lkey(l) ==> (l, Some(y)) in r
  {
    var matches := KeyMatches(right, rkey, lkey(l));
    if matches == [] then [(l, None)]
    else
      var r := seq(|matches|, k requires 0 <= k < |matches| => (l, Some(matches[k])));
      assert forall y :: y in right && rkey(y) == lkey(l) ==> (l, Some(y)) in r by {
        forall y | y in right && rkey(y) == lkey(l) ensures (l, Some(y)) in r {
          var k :| 0 <= k < |matches| && matches[k] == y;
          assert r[k] == (l, Some(y));
        }
      }
      r
  }

  /** `pd.merge(left, right, how='left')`: each left row, in order, paired
      with every right row of the same key in right-table order, or with
      None when the right table has no row of that key. */
  function LeftJoin<L(==), R(==,!new), K(==)>(left: seq<L>, right: seq<R>, lkey: L -> K, rkey: R -> K): (r: seq<(L, Option<R>)>)
    ensures |r| >= |left|
    ensures forall p :: p in r ==> p.0 in left
    ensures forall p :: p in r && p.1.Some? ==> p.1.value in right && rkey(p.1.value) == lkey(p.0)
    ensures forall p :: p in r && p.1.None? ==> forall y :: y in right ==> rkey(y) != lkey(p.0)
  {
    if left == [] then []
    else
      var head, tail := JoinRow(left[0], right, lkey, rkey), LeftJoin(left[1..], right, lkey, rkey);
      head + tail
  }

  /** A left join drops no left row: every left row occurs in it, paired with
      each right row of its key. */
  lemma {:induction false} LeftJoinComplete<L, R(!new), K>(left: seq<L>, right: seq<R>, lkey: L -> K, rkey: R -> K)
    ensures forall l :: l in left ==> exists p :: p in LeftJoin(left, right, lkey, rkey) && p.0 == l
    ensures forall l, y :: l in left && y in right && rkey(y) == lkey(l) ==> (l, Some(y)) in LeftJoin(left, right, lkey, rkey)
  {
    if left != [] {
      LeftJoinComplete(left[1..], right, lkey, rkey);
      var head, tail := JoinRow(left[0], right, lkey, rkey), LeftJoin(left[1..], right, lkey, rkey);
      assert LeftJoin(left, right, lkey, rkey) == head + tail;
      assert forall l :: l in left ==> l == left[0] || l in left[1..];
      assert head[0] in head + tail;
    }
  }

  /** No right row has the key of `l`. */
  predicate NoMatch<L, R, K(==)>(l: L, right: seq<R>, lkey: L -> K, rkey: R -> K) {
    forall k :: 0 <= k < |right| ==> rkey(right[k]) != lkey(l)
  }

  /** Pairing `l` with each row of `m` counts each row as often as `m` holds it. */
  lemma {:induction false} PairedCount<L, R>(l: L, m: seq<R>)
    ensures forall l', y :: multiset(seq(|m|, k requires 0 <= k < |m| => (l, Some(m[k]))))[(l', Some(y))]
                 == if l' == l then multiset(m)[y] else 0
  {
    var r := seq(|m|, k requires 0 <= k < |m| => (l, Some(m[k])));
    if m != [] {
      PairedCount(l, m[1..]);
      var rest := seq(|m[1..]|, k requires 0 <= k < |m[1..]| => (l, Some(m[1..][k])));
      assert r == [(l, Some(m[0]))] + rest;
      assert m == [m[0]] + m[1..];
    }
  }

  /** The join of one left row holds each matching right row as often as
      the right table does, and one `None` row exactly when nothing matches. */
  lemma JoinRowMultiplicity<L(!new), R(!new), K>(l: L, right: seq<R>, lkey: L -> K, rkey: R -> K)
    ensures forall l', y :: multiset(JoinRow(l, right, lkey, rkey))[(l', Some(y))]
                 == if l' == l && rkey(y) == lkey(l) then multiset(right)[y] else 0
    ensures forall l' :: multiset(JoinRow(l, right, lkey, rkey))[(l', None)]
                 == if l' == l && NoMatch(l, right, lkey, rkey) then 1 else 0
  {
    JoinRowMatchCount(l, right, lkey, rkey);
    JoinRowNoneCount(l, right, lkey, rkey);
  }

  lemma JoinRowMatchCount<L(!new), R(!new), K>(l: L, right: seq<R>, lkey: L -> K, rkey: R -> K)
    ensures MatchCounts(JoinRow(l, right, lkey, rkey), [l], right, lkey, rkey)
  {
    JoinRowPairs(l, right, lkey, rkey);
    SingleMatchCounts(JoinRow(l, right, lkey, rkey), l, right, lkey, rkey);
  }

  lemma JoinRowPairs<L, R(!new), K>(l: L, right: seq<R>, lkey: L -> K, rkey: R -> K)
    ensures forall l', y :: multiset(JoinRow(l, right, lkey, rkey))[(l', Some(y))]
                 == if l' == l && rkey(y) == lkey(l) then multiset(right)[y] else 0
  {
    var matches := KeyMatches(right, rkey, lkey(l));
    assert forall y :: multiset(matches)[y] == if rkey(y) == lkey(l) then multiset(right)[y] else 0;
    if matches != [] {
      PairedCount(l, matches);
    }
  }

  lemma SingleMatchCounts<L(!new), R(!new), K>(h: seq<(L, Option<R>)>, l: L, right: seq<R>, lkey: L -> K, rkey: R -> K)
    requires forall l', y :: multiset(h)[(l', Some(y))] == if l' == l && rkey(y) == lkey(l) then multiset(right)[y] else 0
    ensures MatchCounts(h, [l], right, lkey, rkey)
  {
    forall l', y ensures multiset(h)[(l', Some(y))]
                          == multiset([l])[l'] * (if rkey(y) == lkey(l') then multiset(right)[y] else 0)
    {
      assert multiset([l])[l'] == if l' == l then 1 else 0;
    }
  }

  lemma JoinRowNoneCount<L(!new), R(!new), K>(l: L, right: seq<R>, lkey: L -> K, rkey: R -> K)
    ensures NoneCounts(JoinRow(l, right, lkey, rkey), [l], right, lkey, rkey)
  {
    var matches := KeyMatches(right, rkey, lkey(l));
    if matches == [] {
      assert NoMatch(l, right, lkey, rkey);
    } else {
      assert !NoMatch(l, right, lkey, rkey) by {
        assert matches[0] in matches;
      }
    }
  }

  /** `joined` holds each (left, right) pair once per copy of the left row
      and per copy of a right row of its key. */
  ghost predicate MatchCounts<L(!new), R(!new), K>(joined: seq<(L, Option<R>)>, left: seq<L>, right: seq<R>, lkey: L -> K, rkey: R -> K) {
    forall l, y :: multiset(joined)[(l, Some(y))]
                 == multiset(left)[l] * (if rkey(y) == lkey(l) then multiset(right)[y] else 0)
  }

  /** `joined` holds each (left, None) pair once per copy of an unmatched left row. */
  ghost predicate NoneCounts<L(!new), R(!new), K>(joined: seq<(L, Option<R>)>, left: seq<L>, right: seq<R>, lkey: L -> K, rkey: R -> K) {
    forall l :: multiset(joined)[(l, None)] == if NoMatch(l, right, lkey, rkey) then multiset(left)[l] else 0
  }

  /** Pair counts add up over concatenated joins. */
  lemma MatchCountsConcat<L(!new), R(!new), K>(h: seq<(L, Option<R>)>, a: seq<L>, t: seq<(L, Option<R>)>, b: seq<L>,
                                   right: seq<R>, lkey: L -> K, rkey: R -> K)
    requires MatchCounts(h, a, right, lkey, rkey) && MatchCounts(t, b, right, lkey, rkey)
    ensures MatchCounts(h + t, a + b, right, lkey, rkey)
  {
    forall l, y ensures multiset(h + t)[(l, Some(y))]
                          == multiset(a + b)[l] * (if rkey(y) == lkey(l) then multiset(right)[y] else 0)
    {
      var c := if rkey(y) == lkey(l) then multiset(right)[y] else 0;
      Distribute(multiset(a)[l], multiset(b)[l], c);
    }
  }

  lemma Distribute(m: nat, n: nat, c: nat)
    ensures (m + n) * c == m * c + n * c
  {
  }

  lemma NoneCountsConcat<L(!new), R(!new), K>(h: seq<(L, Option<R>)>, a: seq<L>, t: seq<(L, Option<R>)>, b: seq<L>,
                                  right: seq<R>, lkey: L -> K, rkey: R -> K)
    requires NoneCounts(h, a, right, lkey, rkey) && NoneCounts(t, b, right, lkey, rkey)
    ensures NoneCounts(h + t, a + b, right, lkey, rkey)
  {
  }

  /** `pd.merge(how='left')` row counts: a (left, right) pair occurs once for
      every copy of the left row and every copy of a right row of its key, and
      a (left, None) pair once for every copy of a left row no right row matches. */
  lemma LeftJoinMultiplicity<L(!new), R(!new), K>(left: seq<L>, right: seq<R>, lkey: L -> K, rkey: R -> K)
    ensures forall l, y :: multiset(LeftJoin(left, right, lkey, rkey))[(l, Some(y))]
                 == multiset(left)[l] * (if rkey(y) == lkey(l) then multiset(right)[y] else 0)
    ensures forall l :: multiset(LeftJoin(left, right, lkey, rkey))[(l, None)]
                 == if NoMatch(l, right, lkey, rkey) then multiset(left)[l] else 0
  {
    LeftJoinMatchCounts(left, right, lkey, rkey);
    LeftJoinNoneCounts(left, right, lkey, rkey);
  }

  lemma {:induction false} LeftJoinMatchCounts<L(!new), R(!new), K>(left: seq<L>, right: seq<R>, lkey: L -> K, rkey: R -> K)
    ensures MatchCounts(LeftJoin(left, right, lkey, rkey), left, right, lkey, rkey)
  {
    if left != [] {
      LeftJoinMatchCounts(left[1..], right, lkey, rkey);
      JoinRowMatchCount(left[0], right, lkey, rkey);
      var head, tail := JoinRow(left[0], right, lkey, rkey), LeftJoin(left[1..], right, lkey, rkey);
      MatchCountsConcat(head, [left[0]], tail, left[1..], right, lkey, rkey);
      assert [left[0]] + left[1..] == left;
      assert LeftJoin(left, right, lkey, rkey) == head + tail;
    }
  }

  lemma {:induction false} LeftJoinNoneCounts<L(!new), R(!new), K>(left: seq<L>, right: seq<R>, lkey: L -> K, rkey: R -> K)
    ensures NoneCounts(LeftJoin(left, right, lkey, rkey), left, right, lkey, rkey)
  {
    if left != [] {
      LeftJoinNoneCounts(left[1..], right, lkey, rkey);
      JoinRowNoneCount(left[0], right, lkey, rkey);
      var head, tail := JoinRow(left[0], right, lkey, rkey), LeftJoin(left[1..], right, lkey, rkey);
      NoneCountsConcat(head, [left[0]], tail, left[1..], right, lkey, rkey);
      assert [left[0]] + left[1..] == left;
      assert LeftJoin(left, right, lkey, rkey) == head + tail;
    }
  }

  lemma {:induction false} UniqueKeysTail<R, K>(s: seq<R>, key: R -> K)
    requires UniqueKeys(s, key) && s != []
    ensures UniqueKeys(s[1..], key)
    ensures forall y :: y in s[1..] ==> key(y) != key(s[0])
  {
    forall y | y in s[1..] ensures key(y) != key(s[0]) {
      var k :| 0 <= k < |s[1..]| && s[1..][k] == y;
      assert s[k + 1] == y;
    }
  }

  /** With unique right keys, a key has at most one match. */
  lemma {:induction false} AtMostOneMatch<R(!new), K>(right: seq<R>, rkey: R -> K, key: K)
    requires UniqueKeys(right, rkey)
    ensures |KeyMatches(right, rkey, key)| <= 1
  {
    if right != [] {
      UniqueKeysTail(right, rkey);
      AtMostOneMatch(right[1..], rkey, key);
      if rkey(right[0]) == key {
        assert KeyMatches(right[1..], rkey, key) == [];
      }
    }
  }

  /** Two rows of a table with unique keys that share a key are the same row. */
  lemma SameKeySameRow<R, K>(s: seq<R>, key: R -> K, a: R, b: R)
    requires UniqueKeys(s, key) && a in s && b in s && key(a) == key(b)
    ensures a == b
  {
    var i :| 0 <= i < |s| && s[i] == a;
    var j :| 0 <= j < |s| && s[j] == b;
    assert i == j;
  }

  /** With unique right keys a left join is one-to-one and keeps the left order. */
  lemma {:induction false} LeftJoinOneToOne<L, R(!new), K>(left: seq<L>, right: seq<R>, lkey: L -> K, rkey: R -> K)
    requires UniqueKeys(right, rkey)
    ensures |LeftJoin(left, right, lkey, rkey)| == |left|
    ensures forall k :: 0 <= k < |left| ==> LeftJoin(left, right, lkey, rkey)[k].0 == left[k]
  {
    if left != [] {
      AtMostOneMatch(right, rkey, lkey(left[0]));
      LeftJoinOneToOne(left[1..], right, lkey, rkey);
      var head := JoinRow(left[0], right, lkey, rkey);
      assert |head| == 1;
    }
  }

  lemma UniqueKeysCons<R, K>(x: R, s: seq<R>, key: R -> K)
    requires UniqueKeys(s, key) && forall y :: y in s ==> key(y) != key(x)
    ensures UniqueKeys([x] + s, key)
  {
    var t := [x] + s;
    forall i, j | 0 <= i < j < |t| ensures key(t[i]) != key(t[j]) {
      assert t[j] == s[j - 1];
      if i > 0 {
        assert t[i] == s[i - 1];
      }
    }
  }

  lemma UniqueKeysConcat<R, K>(a: seq<R>, b: seq<R>, key: R -> K)
    requires UniqueKeys(a, key) && UniqueKeys(b, key)
    requires forall x, y :: x in a && y in b ==> key(x) != key(y)
    ensures UniqueKeys(a + b, key)
  {
    var t := a + b;
    forall i, j | 0 <= i < j < |t| ensures key(t[i]) != key(t[j]) {
      if j < |a| {
        assert t[i] == a[i] && t[j] == a[j];
      } else if i < |a| {
        assert t[i] in a && t[j] in b;
      } else {
        assert t[i] == b[i - |a|] && t[j] == b[j - |a|];
      }
    }
  }

  /** Dropping rows keeps the keys unique. */
  lemma {:induction false} FilterUniqueKeys<R(!new), K>(s: seq<R>, keep: R -> bool, key: R -> K)
    requires UniqueKeys(s, key)
    ensures UniqueKeys(Filter(s, keep), key)
  {
    if s != [] {
      UniqueKeysTail(s, key);
      FilterUniqueKeys(s[1..], keep, key);
      if keep(s[0]) {
        UniqueKeysCons(s[0], Filter(s[1..], keep), key);
      }
    }
  }

  /** No date occurs on two lines of the table. */
  predicate DistinctDates<V>(t: WideTable<V>) {
    forall i, j :: 0 <= i < j < |t.rows| ==> t.rows[i].date != t.rows[j].date
  }

  /** No habit heads two columns of the table. */
  predicate DistinctHabits<V>(t: WideTable<V>) {
    forall i, j :: 0 <= i < j < |t.habits| ==> t.habits[i] != t.habits[j]
  }

  lemma {:induction false} MeltColumnsUniqueKeys<V>(t: WideTable<V>, n: nat)
    requires Rectangular(t) && n <= |t.habits| && DistinctDates(t) && DistinctHabits(t)
    ensures UniqueKeys(MeltColumns(t, n), RowKey)
  {
    if n > 0 {
      MeltColumnsUniqueKeys(t, n - 1);
      var prefix, column := MeltColumns(t, n - 1), MeltColumn(t, n - 1);
      forall i, j | 0 <= i < j < |column| ensures RowKey(column[i]) != RowKey(column[j]) {
        assert column[i].date == t.rows[i].date && column[j].date == t.rows[j].date;
      }
      forall x, y | x in prefix && y in column ensures RowKey(x) != RowKey(y) {
        var j :| 0 <= j < n - 1 && t.habits[..n - 1][j] == x.habit;
        var i :| 0 <= i < |column| && column[i] == y;
        assert t.habits[j] != t.habits[n - 1];
      }
      UniqueKeysConcat(prefix, column, RowKey);
    }
  }

  /** A table whose dates and habit columns are distinct melts into rows with
      distinct (Date, Habit) keys, and keeps them distinct once restricted to
      the catalogue. */
  lemma CatalogueRowsUniqueKeys<V(!new)>(t: WideTable<V>, names: set<string>)
    requires Rectangular(t) && DistinctDates(t) && DistinctHabits(t)
    ensures UniqueKeys(CatalogueRows(t, names), RowKey)
  {
    MeltColumnsUniqueKeys(t, |t.habits|);
    FilterUniqueKeys(Melt(t), InCatalogue(names), RowKey);
  }

  /** The habits whose raw value is a tri-state quality signal. */
  const BooleanHabits: set<string> := {"Stay away from sugar", "Quit coffee"}

  /** The completion rule: the sentinel -1 (no data) is never completed, a
      boolean-style habit is completed only at its top value 2, any other
      habit whenever its value is positive. */
  function DetermineCompletion(habit: string, value: int): (completed: bool)
    ensures value == -1 ==> !completed
    ensures value != -1 && habit in BooleanHabits ==> (completed <==> value == 2)
    ensures value != -1 && habit !in BooleanHabits ==> (completed <==> value > 0)
  {
    if value == -1 then false
    else if habit in BooleanHabits then value == 2
    else value > 0
  }

  type Scored = (LongRow<int>, Option<LongRow<real>>)
  type Coloured = (Scored, Option<HabitMeta>)

  function ScoredHabit(p: Scored): string {
    p.0.habit
  }

  function MetaName(m: HabitMeta): string {
    m.name
  }

  /** The columns of one merged row: the checkmark row, its score, its colour,
      the date's components and the completion flag. */
  function Observe(row: Coloured): (o: Observation)
    ensures o.date == row.0.0.date && o.habit == row.0.0.habit && o.value == row.0.0.value
    ensures o.year == o.date.year && o.month == o.date.month && o.day == o.date.day
    ensures o.completed == DetermineCompletion(o.habit, o.value)
  {
    var (scored, meta) := row;
    var (check, score) := scored;
    Observation(
      check.date, check.habit, check.value,
      if score.Some? then Some(score.value.value) else None,
      if meta.Some? then Some(meta.value.color) else None,
      check.date.year, check.date.month, check.date.day,
      DetermineCompletion(check.habit, check.value))
  }

  /** The checkmark rows that the merged table is built from. */
  function CatalogueCheckmarks(meta: seq<HabitMeta>, checkmarks: WideTable<int>): seq<LongRow<int>>
    requires Rectangular(checkmarks)
  {
    CatalogueRows(checkmarks, CatalogueNames(meta))
  }

  /** The score rows that the merged table is joined with. */
  function CatalogueScores(meta: seq<HabitMeta>, scores: WideTable<real>): seq<LongRow<real>>
    requires Rectangular(scores)
  {
    CatalogueRows(scores, CatalogueNames(meta))
  }

  /** The derived columns added to the joined rows, one observation per row. */
  function DeriveColumns(coloured: seq<Coloured>): (df: seq<Observation>)
    ensures |df| == |coloured|
    ensures forall k :: 0 <= k < |df| ==> df[k] == Observe(coloured[k])
  {
    seq(|coloured|, k requires 0 <= k < |coloured| => Observe(coloured[k]))
  }

  /** The merge chain of `load_habit_data` applied to catalogue rows: the
      score join, the colour join and the derived columns. */
  function Merge(checks: seq<LongRow<int>>, scoreRows: seq<LongRow<real>>, meta: seq<HabitMeta>): seq<Observation> {
    DeriveColumns(LeftJoin(LeftJoin(checks, scoreRows, RowKey, RowKey), meta, ScoredHabit, MetaName))
  }

  /** `load_habit_data`: melt both wide tables, keep the catalogue habits,
      left-join the scores on (Date, Habit), left-join the colours on the
      habit name, derive Year, Month and Day and the Completed flag. */
  function LoadHabitData(meta: seq<HabitMeta>, checkmarks: WideTable<int>, scores: WideTable<real>): (df: seq<Observation>)
    requires Rectangular(checkmarks) && Rectangular(scores)
    ensures |df| >= |CatalogueCheckmarks(meta, checkmarks)|
    ensures forall k :: 0 <= k < |df| ==> df[k].habit in CatalogueNames(meta) && df[k].date in DatesOf(checkmarks)
    ensures forall k :: 0 <= k < |df| ==>
      df[k].year == df[k].date.year && df[k].month == df[k].date.month && df[k].day == df[k].date.day
    ensures forall k :: 0 <= k < |df| ==> df[k].completed == DetermineCompletion(df[k].habit, df[k].value)
  {
    var checks := CatalogueCheckmarks(meta, checkmarks);
    MergeProvenance(checks, CatalogueScores(meta, scores), meta, CatalogueNames(meta), DatesOf(checkmarks));
    Merge(checks, CatalogueScores(meta, scores), meta)
  }

  /** Every merged row takes its habit and date from some checkmark row. */
  lemma MergeProvenance(checks: seq<LongRow<int>>, scoreRows: seq<LongRow<real>>, meta: seq<HabitMeta>,
                        names: set<string>, dates: set<Date>)
    requires forall c :: c in checks ==> c.habit in names && c.date in dates
    ensures forall o :: o in Merge(checks, scoreRows, meta) ==> o.habit in names && o.date in dates
  {
    var scored := LeftJoin(checks, scoreRows, RowKey, RowKey);
    var coloured := LeftJoin(scored, meta, ScoredHabit, MetaName);
    var df := Merge(checks, scoreRows, meta);
    forall k | 0 <= k < |df| ensures df[k].habit in names && df[k].date in dates {
      assert coloured[k] in coloured;
      assert coloured[k].0 in scored;
      assert coloured[k].0.0 in checks;
    }
  }

  /** Every catalogue checkmark row reaches the loaded table, whatever the
      score and catalogue keys: some row carries its date, habit and value,
      and for each catalogue entry of its habit some such row carries that
      entry's colour. */
  lemma LoadHabitDataCovers(meta: seq<HabitMeta>, checkmarks: WideTable<int>, scores: WideTable<real>)
    requires Rectangular(checkmarks) && Rectangular(scores)
    ensures forall c :: c in CatalogueCheckmarks(meta, checkmarks) ==>
      exists o :: o in LoadHabitData(meta, checkmarks, scores) && Carries(o, c)
    ensures forall c, m :: c in CatalogueCheckmarks(meta, checkmarks) && m in meta && m.name == c.habit ==>
      exists o :: o in LoadHabitData(meta, checkmarks, scores) && Carries(o, c) && o.color == Some(m.color)
  {
    var checks, scoreRows := CatalogueCheckmarks(meta, checkmarks), CatalogueScores(meta, scores);
    forall c | c in checks
      ensures exists o :: o in LoadHabitData(meta, checkmarks, scores) && Carries(o, c)
    {
      MergeReaches(checks, scoreRows, meta, c);
    }
    forall c, m | c in checks && m in meta && m.name == c.habit
      ensures exists o :: o in LoadHabitData(meta, checkmarks, scores) && Carries(o, c) && o.color == Some(m.color)
    {
      MergeReachesColour(checks, scoreRows, meta, c, m);
    }
  }

  lemma MergeReaches(checks: seq<LongRow<int>>, scoreRows: seq<LongRow<real>>, meta: seq<HabitMeta>, c: LongRow<int>)
    requires c in checks
    ensures exists o :: o in Merge(checks, scoreRows, meta) && Carries(o, c)
  {
    var scored := LeftJoin(checks, scoreRows, RowKey, RowKey);
    var coloured := LeftJoin(scored, meta, ScoredHabit, MetaName);
    LeftJoinComplete(checks, scoreRows, RowKey, RowKey);
    var p :| p in scored && p.0 == c;
    LeftJoinComplete(scored, meta, ScoredHabit, MetaName);
    var q :| q in coloured && q.0 == p;
    DeriveColumnsHas(coloured, q);
    var o := Observe(q);
    assert o in Merge(checks, scoreRows, meta) && Carries(o, c);
  }

  lemma MergeReachesColour(checks: seq<LongRow<int>>, scoreRows: seq<LongRow<real>>, meta: seq<HabitMeta>, c: LongRow<int>, m: HabitMeta)
    requires c in checks && m in meta && m.name == c.habit
    ensures exists o :: o in Merge(checks, scoreRows, meta) && Carries(o, c) && o.color == Some(m.color)
  {
    var scored := LeftJoin(checks, scoreRows, RowKey, RowKey);
    var coloured := LeftJoin(scored, meta, ScoredHabit, MetaName);
    LeftJoinComplete(checks, scoreRows, RowKey, RowKey);
    var p :| p in scored && p.0 == c;
    LeftJoinComplete(scored, meta, ScoredHabit, MetaName);
    assert MetaName(m) == ScoredHabit(p);
    assert (p, Some(m)) in coloured;
    DeriveColumnsHas(coloured, (p, Some(m)));
    var o := Observe((p, Some(m)));
    assert o in Merge(checks, scoreRows, meta) && Carries(o, c) && o.color == Some(m.color);
  }

  lemma DeriveColumnsHas(coloured: seq<Coloured>, q: Coloured)
    requires q in coloured
    ensures Observe(q) in DeriveColumns(coloured)
  {
    var k :| 0 <= k < |coloured| && coloured[k] == q;
    assert DeriveColumns(coloured)[k] == Observe(q);
  }

  /** `o` holds the date, habit and value of checkmark row `c`. */
  predicate Carries(o: Observation, c: LongRow<int>) {
    o.date == c.date && o.habit == c.habit && o.value == c.value
  }

  /** What the merged row built from checkmark row `c` holds: the same date,
      habit and value; the score of the score row with the same (Date, Habit),
      or none if there is no such row; the colour of the catalogue entry of
      the habit; the date's components; the completion rule's verdict. */
  ghost predicate MergedFrom(o: Observation, c: LongRow<int>, scores: seq<LongRow<real>>, meta: seq<HabitMeta>) {
    && o.date == c.date && o.habit == c.habit && o.value == c.value
    && (forall s :: s in scores && RowKey(s) == RowKey(c) ==> o.score == Some(s.value))
    && ((forall s :: s in scores ==> RowKey(s) != RowKey(c)) ==> o.score == None)
    && (forall m :: m in meta && m.name == c.habit ==> o.color == Some(m.color))
    && o.year == c.date.year && o.month == c.date.month && o.day == c.date.day
    && o.completed == DetermineCompletion(c.habit, c.value)
  }

  /** With unique score keys and unique catalogue names the merged table has
      exactly one row per catalogue checkmark row, in the same order, and
      each row carries its matching score and its catalogue colour. */
  lemma LoadHabitDataRows(meta: seq<HabitMeta>, checkmarks: WideTable<int>, scores: WideTable<real>)
    requires Rectangular(checkmarks) && Rectangular(scores)
    requires UniqueKeys(CatalogueScores(meta, scores), RowKey)
    requires UniqueKeys(meta, MetaName)
    ensures |LoadHabitData(meta, checkmarks, scores)| == |CatalogueCheckmarks(meta, checkmarks)|
    ensures forall k :: 0 <= k < |CatalogueCheckmarks(meta, checkmarks)| ==>
      MergedFrom(LoadHabitData(meta, checkmarks, scores)[k], CatalogueCheckmarks(meta, checkmarks)[k],
                 CatalogueScores(meta, scores), meta)
  {
    MergeRows(CatalogueCheckmarks(meta, checkmarks), CatalogueScores(meta, scores), meta);
  }

  /** The merge of checkmark rows has one row per checkmark row, each merged
      from the checkmark row at the same position. */
  lemma MergeRows(checks: seq<LongRow<int>>, scoreRows: seq<LongRow<real>>, meta: seq<HabitMeta>)
    requires UniqueKeys(scoreRows, RowKey) && UniqueKeys(meta, MetaName)
    ensures |Merge(checks, scoreRows, meta)| == |checks|
    ensures forall k :: 0 <= k < |checks| ==> MergedFrom(Merge(checks, scoreRows, meta)[k], checks[k], scoreRows, meta)
  {
    var scored := LeftJoin(checks, scoreRows, RowKey, RowKey);
    LeftJoinOneToOne(checks, scoreRows, RowKey, RowKey);
    LeftJoinOneToOne(scored, meta, ScoredHabit, MetaName);
    forall k | 0 <= k < |checks|
      ensures MergedFrom(Merge(checks, scoreRows, meta)[k], checks[k], scoreRows, meta)
    {
      MergeRowAt(checks, scoreRows, meta, k);
    }
  }

  /** Row k of a one-to-one merge is merged from checkmark row k. */
  lemma MergeRowAt(checks: seq<LongRow<int>>, scoreRows: seq<LongRow<real>>, meta: seq<HabitMeta>, k: nat)
    requires UniqueKeys(scoreRows, RowKey) && UniqueKeys(meta, MetaName)
    requires k < |checks|
    requires |LeftJoin(checks, scoreRows, RowKey, RowKey)| == |checks|
    requires LeftJoin(checks, scoreRows, RowKey, RowKey)[k].0 == checks[k]
    requires var scored := LeftJoin(checks, scoreRows, RowKey, RowKey);
      |LeftJoin(scored, meta, ScoredHabit, MetaName)| == |scored| && LeftJoin(scored, meta, ScoredHabit, MetaName)[k].0 == scored[k]
    ensures k < |Merge(checks, scoreRows, meta)|
    ensures MergedFrom(Merge(checks, scoreRows, meta)[k], checks[k], scoreRows, meta)
  {
    var scored := LeftJoin(checks, scoreRows, RowKey, RowKey);
    var coloured := LeftJoin(scored, meta, ScoredHabit, MetaName);
    var df := Merge(checks, scoreRows, meta);
    var c := checks[k];
    forall s | s in scoreRows && RowKey(s) == RowKey(c) ensures df[k].score == Some(s.value) {
      SameKeySameRow(scoreRows, RowKey, s, scored[k].1.value);
    }
    forall m | m in meta && m.name == c.habit ensures df[k].color == Some(m.color) {
      SameKeySameRow(meta, MetaName, m, coloured[k].1.value);
    }
  }

  /** With distinct dates and habit columns in the checkmark file, unique
      score keys and unique catalogue names, the loaded table has exactly one
      row per (Date, Habit). */
  lemma LoadedKeysUnique(meta: seq<HabitMeta>, checkmarks: WideTable<int>, scores: WideTable<real>)
    requires Rectangular(checkmarks) && Rectangular(scores)
    requires DistinctDates(checkmarks) && DistinctHabits(checkmarks)
    requires UniqueKeys(CatalogueScores(meta, scores), RowKey) && UniqueKeys(meta, MetaName)
    ensures OnePerDateAndHabit(LoadHabitData(meta, checkmarks, scores))
  {
    var checks := CatalogueCheckmarks(meta, checkmarks);
    CatalogueRowsUniqueKeys(checkmarks, CatalogueNames(meta));
    LoadHabitDataRows(meta, checkmarks, scores);
    var df := LoadHabitData(meta, checkmarks, scores);
    forall i, j | 0 <= i < j < |df| ensures (df[i].date, df[i].habit) != (df[j].date, df[j].habit) {
      assert MergedFrom(df[i], checks[i], CatalogueScores(meta, scores), meta);
      assert MergedFrom(df[j], checks[j], CatalogueScores(meta, scores), meta);
      assert RowKey(checks[i]) != RowKey(checks[j]);
    }
  }

  /** Under the same conditions each habit of the loaded table has one row
      per date, so sorting its rows by date leaves no tie. */
  lemma LoadedHabitNoDateTies(meta: seq<HabitMeta>, checkmarks: WideTable<int>, scores: WideTable<real>, habit: string)
    requires Rectangular(checkmarks) && Rectangular(scores)
    requires DistinctDates(checkmarks) && DistinctHabits(checkmarks)
    requires UniqueKeys(CatalogueScores(meta, scores), RowKey) && UniqueKeys(meta, MetaName)
    ensures NoDateTies(HabitRows(LoadHabitData(meta, checkmarks, scores), habit))
  {
    LoadedKeysUnique(meta, checkmarks, scores);
    HabitRowsNoDateTies(LoadHabitData(meta, checkmarks, scores), habit);
  }

  /** When every parsed checkmark date is a real calendar day, so is every
      merged row's date, and its Month column lies in 1..12. */
  lemma LoadedDatesValid(meta: seq<HabitMeta>, checkmarks: WideTable<int>, scores: WideTable<real>)
    requires Rectangular(checkmarks) && Rectangular(scores)
    requires forall i :: 0 <= i < |checkmarks.rows| ==> ValidDate(checkmarks.rows[i].date)
    ensures forall o :: o in LoadHabitData(meta, checkmarks, scores) ==> ValidDate(o.date) && 1 <= o.month <= 12
  {
    var df := LoadHabitData(meta, checkmarks, scores);
    forall o | o in df ensures ValidDate(o.date) && 1 <= o.month <= 12 {
      var k :| 0 <= k < |df| && df[k] == o;
      var i :| 0 <= i < |checkmarks.rows| && checkmarks.rows[i].date == o.date;
    }
  }
}

