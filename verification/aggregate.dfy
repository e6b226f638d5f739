/** The group-by-mean aggregators: one row per distinct year, or per
    distinct (year, genre) pair, holding the mean of each requested feature
    and of popularity, ordered by key. */
module Aggregation {
  import opened Optional
  import opened Stats
  import opened Sorting
  import opened Tracks

  /** A group key. `genre` is `None` when grouping by year alone. */
  datatype Key = Key(year: int, genre: Option<string>)

  datatype GroupBy = ByYear | ByYearGenre

  function KeyOf(grouping: GroupBy, t: Track): Key
  {
    match grouping
    case ByYear => Key(t.year, None)
    case ByYearGenre => Key(t.year, Some(t.genre))
  }

  /** Lexicographic order on strings by character code, as Python compares
      `str` values. */
  predicate StrLt(a: string, b: string)
    decreases |a|
  {
    if |a| == 0 then |b| > 0
    else |b| > 0 && (a[0] < b[0] || (a[0] == b[0] && StrLt(a[1..], b[1..])))
  }

  /** Keys order by year, then by genre. */
  predicate KeyLt(a: Key, b: Key)
  {
    || a.year < b.year
    || (a.year == b.year && a.genre.Some? && b.genre.Some? && StrLt(a.genre.value, b.genre.value))
    || (a.year == b.year && a.genre.None? && b.genre.Some?)
  }

  lemma {:induction false} StrLtIrreflexive(a: string)
    ensures !StrLt(a, a)
  {
    if |a| > 0 {
      StrLtIrreflexive(a[1..]);
    }
  }

  lemma {:induction false} StrLtTransitive(a: string, b: string, c: string)
    requires StrLt(a, b) && StrLt(b, c)
    ensures StrLt(a, c)
  {
    if |a| > 0 && a[0] == b[0] && b[0] == c[0] {
      StrLtTransitive(a[1..], b[1..], c[1..]);
    }
  }

  lemma {:induction false} StrLtConnected(a: string, b: string)
    requires a != b
    ensures StrLt(a, b) || StrLt(b, a)
  {
    if |a| > 0 && |b| > 0 && a[0] == b[0] {
      assert a == [a[0]] + a[1..];
      assert b == [b[0]] + b[1..];
      StrLtConnected(a[1..], b[1..]);
    }
  }

  /** The key order is a strict total order, so sorted key lists are
      well defined. */
  lemma KeyLtStrictTotal()
    ensures StrictTotal(KeyLt)
  {
    forall a: Key ensures !KeyLt(a, a) {
      if a.genre.Some? {
        StrLtIrreflexive(a.genre.value);
      }
    }
    forall a: Key, b: Key, c: Key | KeyLt(a, b) && KeyLt(b, c) ensures KeyLt(a, c) {
      if a.year == b.year == c.year && a.genre.Some? && b.genre.Some? && c.genre.Some? {
        StrLtTransitive(a.genre.value, b.genre.value, c.genre.value);
      }
    }
    forall a: Key, b: Key | a != b ensures KeyLt(a, b) || KeyLt(b, a) {
      if a.year == b.year && a.genre.Some? && b.genre.Some? {
        StrLtConnected(a.genre.value, b.genre.value);
      }
    }
  }

  /** The feature columns to aggregate: the given list, or the nine default
      features, with repeats dropped (a dict comprehension keeps the first
      position of each key). */
  function Columns(features: Option<seq<Feature>>): (cs: seq<Feature>)
    ensures forall f :: f in cs <==> f in features.GetOr(DefaultFeatures)
    ensures forall i, j :: 0 <= i < j < |cs| ==> cs[i] != cs[j]
  {
    Dedup(features.GetOr(DefaultFeatures))
  }

  function Dedup(fs: seq<Feature>): (r: seq<Feature>)
    ensures forall f :: f in r <==> f in fs
    ensures forall i, j :: 0 <= i < j < |r| ==> r[i] != r[j]
  {
    if |fs| == 0 then []
    else
      var d := Dedup(fs[..|fs| - 1]);
      assert fs == fs[..|fs| - 1] + [fs[|fs| - 1]];
      if fs[|fs| - 1] in d then d else d + [fs[|fs| - 1]]
  }

  /** The rows of `table` whose key is `k`, in table order, each as often
      as the table holds it. */
  function Group(table: seq<Track>, grouping: GroupBy, k: Key): (g: seq<Track>)
    ensures forall t :: t in g <==> t in table && KeyOf(grouping, t) == k
    ensures |g| <= |table|
  {
    if |table| == 0 then []
    else
      (if KeyOf(grouping, table[0]) == k then [table[0]] else []) + Group(table[1..], grouping, k)
  }

  /** Grouping a concatenation concatenates the groups: with `GroupOne`,
      the group is the table's matching rows in table order. */
  lemma {:induction false} GroupAppend(a: seq<Track>, b: seq<Track>, grouping: GroupBy, k: Key)
    ensures Group(a + b, grouping, k) == Group(a, grouping, k) + Group(b, grouping, k)
  {
    if |a| == 0 {
      assert a + b == b;
    } else {
      var head := if KeyOf(grouping, a[0]) == k then [a[0]] else [];
      calc {
        Group(a + b, grouping, k);
      == { assert (a + b)[0] == a[0] && (a + b)[1..] == a[1..] + b; }
        head + Group(a[1..] + b, grouping, k);
      == { GroupAppend(a[1..], b, grouping, k); }
        head + (Group(a[1..], grouping, k) + Group(b, grouping, k));
      ==
        (head + Group(a[1..], grouping, k)) + Group(b, grouping, k);
      }
    }
  }

  /** The group holds each matching row as often as the table does, and
      no other row. */
  lemma {:induction false} GroupCounts(table: seq<Track>, grouping: GroupBy, k: Key)
    ensures forall t ::
      multiset(Group(table, grouping, k))[t] == if KeyOf(grouping, t) == k then multiset(table)[t] else 0
  {
    if |table| > 0 {
      GroupCounts(table[1..], grouping, k);
      assert table == [table[0]] + table[1..];
    }
  }

  /** A single row forms the group or nothing. */
  lemma GroupOne(t: Track, grouping: GroupBy, k: Key)
    ensures Group([t], grouping, k) == if KeyOf(grouping, t) == k then [t] else []
  {
  }

  /** One feature column of a list of rows. */
  function Column(ts: seq<Track>, f: Feature): (c: seq<real>)
    ensures |c| == |ts|
  {
    seq(|ts|, i requires 0 <= i < |ts| => ts[i].audio.Get(f))
  }

  /** The popularity column of a list of rows. */
  function Popularities(ts: seq<Track>): (c: seq<real>)
    ensures |c| == |ts|
  {
    seq(|ts|, i requires 0 <= i < |ts| => ts[i].popularity as real)
  }

  /** One output row: the group key, the mean of each aggregated column (in
      column order) and the mean popularity. */
  datatype AggRow = AggRow(key: Key, means: seq<real>, popularity: real)

  /** `row` holds the means of `g`: its group is non-empty, and each mean
      times the group size is the column's sum. */
  predicate MeansOf(row: AggRow, g: seq<Track>, cols: seq<Feature>)
  {
    && |g| > 0
    && |row.means| == |cols|
    && (forall j :: 0 <= j < |cols| ==> row.means[j] * (|g| as real) == Sum(Column(g, cols[j])))
    && row.popularity * (|g| as real) == Sum(Popularities(g))
  }

  /** Some row of `table` has key `k`. */
  predicate Occurs(table: seq<Track>, grouping: GroupBy, k: Key)
  {
    exists t :: t in table && KeyOf(grouping, t) == k
  }

  /** The keys of a list of output rows. */
  function KeyList(rows: seq<AggRow>): (ks: seq<Key>)
    ensures |ks| == |rows|
  {
    seq(|rows|, i requires 0 <= i < |rows| => rows[i].key)
  }

  /** The distinct keys of a table in ascending order. */
  function Keys(table: seq<Track>, grouping: GroupBy): (ks: seq<Key>)
    ensures Ascending(ks, KeyLt)
    ensures forall k :: k in ks <==> Occurs(table, grouping, k)
  {
    KeyLtStrictTotal();
    var all := seq(|table|, i requires 0 <= i < |table| => KeyOf(grouping, table[i]));
    var ks := SortedDistinct(all, KeyLt);
    assert forall k :: k in ks ==> exists t :: t in table && KeyOf(grouping, t) == k by {
      forall k | k in ks ensures exists t :: t in table && KeyOf(grouping, t) == k {
        var i :| 0 <= i < |all| && all[i] == k;
        assert table[i] in table;
      }
    }
    assert forall t :: t in table ==> KeyOf(grouping, t) in ks by {
      forall t | t in table ensures KeyOf(grouping, t) in ks {
        var i :| 0 <= i < |table| && table[i] == t;
        assert all[i] in all;
      }
    }
    ks
  }

  /** The output row for key `k` over its non-empty group `g`. */
  function Row(k: Key, g: seq<Track>, cols: seq<Feature>): (row: AggRow)
    requires |g| > 0
    ensures row.key == k
    ensures MeansOf(row, g, cols)
  {
    var means := seq(|cols|, j requires 0 <= j < |cols| => Mean(Column(g, cols[j])));
    forall j | 0 <= j < |cols| ensures means[j] * (|g| as real) == Sum(Column(g, cols[j])) {
      MeanTimesCount(Column(g, cols[j]));
    }
    MeanTimesCount(Popularities(g));
    AggRow(k, means, Mean(Popularities(g)))
  }

  /** A key of the table has a non-empty group. */
  lemma GroupNonEmpty(table: seq<Track>, grouping: GroupBy, k: Key)
    requires k in Keys(table, grouping)
    ensures |Group(table, grouping, k)| > 0
  {
    var t :| t in table && KeyOf(grouping, t) == k;
    assert t in Group(table, grouping, k);
  }

  /** `df.groupby(by).agg(mean)`: one row per distinct key, ascending by
      key; each mean is taken over exactly the rows of that key, and every
      table row falls in exactly one output row. */
  function Aggregate(table: seq<Track>, grouping: GroupBy, features: Option<seq<Feature>>): (rows: seq<AggRow>)
    ensures Ascending(KeyList(rows), KeyLt)
    ensures forall k :: k in KeyList(rows) <==> Occurs(table, grouping, k)
    ensures forall i :: 0 <= i < |rows| ==> MeansOf(rows[i], Group(table, grouping, rows[i].key), Columns(features))
  {
    var ks := Keys(table, grouping);
    var cols := Columns(features);
    forall i | 0 <= i < |ks| ensures |Group(table, grouping, ks[i])| > 0 {
      assert ks[i] in ks;
      GroupNonEmpty(table, grouping, ks[i]);
    }
    var rows := RowsFor(table, grouping, ks, cols);
    assert KeyList(rows) == ks;
    rows
  }

  /** One output row per key of `ks`, in order. */
  function RowsFor(table: seq<Track>, grouping: GroupBy, ks: seq<Key>, cols: seq<Feature>): (rows: seq<AggRow>)
    requires forall i :: 0 <= i < |ks| ==> |Group(table, grouping, ks[i])| > 0
    ensures |rows| == |ks|
    ensures forall i :: 0 <= i < |rows| ==>
      rows[i].key == ks[i] && MeansOf(rows[i], Group(table, grouping, ks[i]), cols)
  {
    if |ks| == 0 then []
    else [Row(ks[0], Group(table, grouping, ks[0]), cols)] + RowsFor(table, grouping, ks[1..], cols)
  }

  /** Some row of `table` is from `year` and, when `genre` is given, of
      that genre. */
  predicate InTable(table: seq<Track>, year: int, genre: Option<string>)
  {
    exists t :: t in table && t.year == year && (genre.None? || t.genre == genre.value)
  }

  /** `aggregate_by_year`: the means over each year's rows, in year
      order; `AggregateByYearKeys` states which years appear. */
  function AggregateByYear(table: seq<Track>, features: Option<seq<Feature>>): (rows: seq<AggRow>)
    ensures forall i :: 0 <= i < |rows| ==> MeansOf(rows[i], Group(table, ByYear, rows[i].key), Columns(features))
  {
    Aggregate(table, ByYear, features)
  }

  /** The by-year aggregation has one row per year of the table and no
      other, years strictly ascending. */
  lemma AggregateByYearKeys(table: seq<Track>, features: Option<seq<Feature>>)
    ensures var ks := KeyList(AggregateByYear(table, features));
      && (forall i :: 0 <= i < |ks| ==> ks[i].genre.None?)
      && (forall i, j :: 0 <= i < j < |ks| ==> ks[i].year < ks[j].year)
      && (forall i :: 0 <= i < |ks| ==> InTable(table, ks[i].year, None))
      && (forall t :: t in table ==> Key(t.year, None) in ks)
  {
    var ks := KeyList(AggregateByYear(table, features));
    forall i | 0 <= i < |ks| ensures ks[i].genre.None? {
      assert ks[i] in ks;
    }
    forall i | 0 <= i < |ks| ensures InTable(table, ks[i].year, None) {
      assert ks[i] in ks;
      var t :| t in table && KeyOf(ByYear, t) == ks[i];
      assert t in table && t.year == ks[i].year;
    }
    forall t | t in table ensures Key(t.year, None) in ks {
      assert Occurs(table, ByYear, KeyOf(ByYear, t));
    }
    forall i, j | 0 <= i < j < |ks| ensures ks[i].year < ks[j].year {
      assert KeyLt(ks[i], ks[j]);
    }
  }

  /** `aggregate_by_genre_year`: the means over each (year, genre) pair's
      rows, in key order; `AggregateByGenreYearKeys` states which pairs
      appear. */
  function AggregateByGenreYear(table: seq<Track>, features: Option<seq<Feature>>): (rows: seq<AggRow>)
    ensures forall i :: 0 <= i < |rows| ==> MeansOf(rows[i], Group(table, ByYearGenre, rows[i].key), Columns(features))
  {
    Aggregate(table, ByYearGenre, features)
  }

  /** The by-(year, genre) aggregation has one row per pair of the table
      and no other, ascending by year and then by genre. */
  lemma AggregateByGenreYearKeys(table: seq<Track>, features: Option<seq<Feature>>)
    ensures var ks := KeyList(AggregateByGenreYear(table, features));
      && Ascending(ks, KeyLt)
      && (forall i :: 0 <= i < |ks| ==> ks[i].genre.Some? && InTable(table, ks[i].year, ks[i].genre))
      && (forall t :: t in table ==> Key(t.year, Some(t.genre)) in ks)
  {
    var ks := KeyList(AggregateByGenreYear(table, features));
    forall i | 0 <= i < |ks| ensures ks[i].genre.Some? && InTable(table, ks[i].year, ks[i].genre) {
      assert ks[i] in ks;
      var t :| t in table && KeyOf(ByYearGenre, t) == ks[i];
      assert t in table && ks[i] == Key(t.year, Some(t.genre));
    }
    forall t | t in table ensures Key(t.year, Some(t.genre)) in ks {
      assert Occurs(table, ByYearGenre, KeyOf(ByYearGenre, t));
    }
  }

  /** A list without repeats is its own de-duplication. */
  lemma {:induction false} DedupDistinct(fs: seq<Feature>)
    requires forall i, j :: 0 <= i < j < |fs| ==> fs[i] != fs[j]
    ensures Dedup(fs) == fs
  {
    if |fs| > 0 {
      var init := fs[..|fs| - 1];
      DedupDistinct(init);
      assert fs[|fs| - 1] !in init;
      assert init + [fs[|fs| - 1]] == fs;
    }
  }

  /** Without an explicit feature list both aggregators average the nine
      default features, in their listed order. */
  lemma DefaultColumns()
    ensures Columns(None) == DefaultFeatures
  {
    DedupDistinct(DefaultFeatures);
  }

  /** The rows of a key that occurs once form a singleton group. */
  lemma {:induction false} GroupOfUniqueKey(table: seq<Track>, grouping: GroupBy, i: nat)
    requires i < |table|
    requires forall j :: 0 <= j < |table| && KeyOf(grouping, table[j]) == KeyOf(grouping, table[i]) ==> j == i
    ensures Group(table, grouping, KeyOf(grouping, table[i])) == [table[i]]
  {
    var k := KeyOf(grouping, table[i]);
    if i == 0 {
      NoGroup(table[1..], grouping, k);
    } else {
      assert KeyOf(grouping, table[0]) != k;
      GroupOfUniqueKey(table[1..], grouping, i - 1);
    }
  }

  /** A key that no row carries has an empty group. */
  lemma {:induction false} NoGroup(table: seq<Track>, grouping: GroupBy, k: Key)
    requires forall j :: 0 <= j < |table| ==> KeyOf(grouping, table[j]) != k
    ensures Group(table, grouping, k) == []
  {
    if |table| > 0 {
      NoGroup(table[1..], grouping, k);
    }
  }

  /** The means of a single-row group are that row's own values. */
  lemma MeansOfSingleton(row: AggRow, t: Track, cols: seq<Feature>)
    requires MeansOf(row, [t], cols)
    ensures forall j :: 0 <= j < |cols| ==> row.means[j] == t.audio.Get(cols[j])
    ensures row.popularity == t.popularity as real
  {
    forall j | 0 <= j < |cols| ensures row.means[j] == t.audio.Get(cols[j]) {
      var c := Column([t], cols[j]);
      assert c == [t.audio.Get(cols[j])];
      assert Sum(c) == c[0] + Sum([]);
    }
    var p := Popularities([t]);
    assert p == [t.popularity as real];
    assert Sum(p) == p[0] + Sum([]);
  }

  /** Aggregating a table that already has one row per key reproduces that
      row's values: the mean of a single value is the value itself. */
  lemma AggregateUniqueKeys(table: seq<Track>, grouping: GroupBy, features: Option<seq<Feature>>, i: nat)
    requires forall a, b :: 0 <= a < |table| && 0 <= b < |table| && KeyOf(grouping, table[a]) == KeyOf(grouping, table[b]) ==> a == b
    requires i < |Aggregate(table, grouping, features)|
    ensures var row := Aggregate(table, grouping, features)[i];
      exists t :: t in table && KeyOf(grouping, t) == row.key
        && (forall j :: 0 <= j < |Columns(features)| ==> row.means[j] == t.audio.Get(Columns(features)[j]))
        && row.popularity == t.popularity as real
  {
    var rows := Aggregate(table, grouping, features);
    var row := rows[i];
    assert row.key == KeyList(rows)[i];
    assert Occurs(table, grouping, row.key);
    var n :| 0 <= n < |table| && KeyOf(grouping, table[n]) == row.key;
    GroupOfUniqueKey(table, grouping, n);
    MeansOfSingleton(row, table[n], Columns(features));
  }

  /** When the table is already sorted by strictly ascending key (as an
      aggregated table is), aggregation keeps its keys in the same order. */
  lemma AggregateSortedKeys(table: seq<Track>, grouping: GroupBy, features: Option<seq<Feature>>)
    requires Ascending(TableKeys(table, grouping), KeyLt)
    ensures KeyList(Aggregate(table, grouping, features)) == TableKeys(table, grouping)
  {
    var ks := TableKeys(table, grouping);
    var rows := Aggregate(table, grouping, features);
    KeyLtStrictTotal();
    AscendingUnique(KeyList(rows), ks, KeyLt);
  }

  /** The key of every table row, in table order. */
  function TableKeys(table: seq<Track>, grouping: GroupBy): (ks: seq<Key>)
    ensures |ks| == |table|
    ensures forall k :: k in ks <==> Occurs(table, grouping, k)
  {
    var ks := seq(|table|, i requires 0 <= i < |table| => KeyOf(grouping, table[i]));
    assert forall k :: Occurs(table, grouping, k) ==> k in ks by {
      forall k | Occurs(table, grouping, k) ensures k in ks {
        var t :| t in table && KeyOf(grouping, t) == k;
        var n :| 0 <= n < |table| && table[n] == t;
        assert ks[n] == k;
      }
    }
    ks
  }

  /** The mean of a group of in-bounds tracks is within the bounds of its
      feature. */
  lemma MeanWithin(row: AggRow, g: seq<Track>, cols: seq<Feature>, j: nat)
    requires MeansOf(row, g, cols)
    requires j < |cols|
    requires forall t :: t in g ==> WithinBounds(t)
    ensures Lower(cols[j]) <= row.means[j] <= Upper(cols[j])
    ensures 0.0 <= row.popularity <= 99.0
  {
    var f := cols[j];
    var c := Column(g, f);
    forall m | 0 <= m < |c| ensures Lower(f) <= c[m] <= Upper(f) {
      assert g[m] in g;
    }
    SumBounds(c, Lower(f), Upper(f));
    ScaledWithin(row.means[j], |g| as real, Sum(c), Lower(f), Upper(f));
    var p := Popularities(g);
    forall m | 0 <= m < |p| ensures 0.0 <= p[m] <= 99.0 {
      assert g[m] in g;
    }
    SumBounds(p, 0.0, 99.0);
    ScaledWithin(row.popularity, |g| as real, Sum(p), 0.0, 99.0);
  }

  /** Aggregating tracks that respect their declared bounds yields years
      within 1924..2024 and means within the same bounds. */
  lemma AggregateWithinBounds(table: seq<Track>, grouping: GroupBy, features: Option<seq<Feature>>, i: nat, j: nat)
    requires forall t :: t in table ==> WithinBounds(t)
    requires i < |Aggregate(table, grouping, features)|
    requires j < |Columns(features)|
    ensures var row := Aggregate(table, grouping, features)[i];
      && 1924 <= row.key.year <= 2024
      && 0.0 <= row.popularity <= 99.0
      && Lower(Columns(features)[j]) <= row.means[j] <= Upper(Columns(features)[j])
  {
    var rows := Aggregate(table, grouping, features);
    var row := rows[i];
    assert Occurs(table, grouping, row.key);
    var g := Group(table, grouping, row.key);
    MeanWithin(row, g, Columns(features), j);
  }

  /** The output rows carry exactly the table's distinct keys, once each. */
  lemma AggregateKeys(table: seq<Track>, grouping: GroupBy, features: Option<seq<Feature>>)
    ensures KeyList(Aggregate(table, grouping, features)) == Keys(table, grouping)
  {
    KeyLtStrictTotal();
    AscendingUnique(KeyList(Aggregate(table, grouping, features)), Keys(table, grouping), KeyLt);
  }
}
