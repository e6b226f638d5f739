/** The insight generators of utils.py: notable year-over-year moves of a
    feature (`get_anomaly_insights`) and the fixed list of guided stories
    (`generate_story_insights`). Message texts are not modelled; each
    insight or story keeps the values its message is built from. */
module Insights {
  import opened Optional
  import opened Stats
  import opened Sorting
  import opened Tracks
  import opened Aggregation

  // ---------------------------------------------------------------------
  // get_anomaly_insights

  /** A notable move of a feature's yearly mean: the year it arrived in,
      whether it went up ("increased") or not ("decreased"), and its size. */
  datatype Insight = Insight(year: int, increased: bool, magnitude: real)

  function Abs(x: real): (r: real)
    ensures r >= 0.0 && (r == x || r == -x)
  {
    if x < 0.0 then -x else x
  }

  function Min(a: nat, b: nat): nat
  {
    if a < b then a else b
  }

  /** `yearly_avg.diff()` without its leading NaN: entry `i` is the move
      from position `i` to position `i + 1`. */
  function Changes(means: seq<real>): (d: seq<real>)
    requires |means| > 0
    ensures |d| == |means| - 1
  {
    seq(|means| - 1, i requires 0 <= i < |means| - 1 => means[i + 1] - means[i])
  }

  /** The move into position `p` of the yearly means. */
  function Move(means: seq<real>, p: nat): real
    requires 1 <= p < |means|
  {
    means[p] - means[p - 1]
  }

  /** A move `d` is larger than 1.5 standard deviations, `v` being the
      variance: `|d| > 1.5 * sqrt(v)` is `d * d > 2.25 * v`. */
  predicate Beyond(d: real, v: real)
  {
    d * d > 2.25 * v
  }

  /** The move into position `p` is notable. `Series.std` skips the
      leading NaN of the differences and uses ddof = 1. */
  predicate IsNotable(means: seq<real>, p: nat)
    requires 3 <= |means|
    requires 1 <= p < |means|
  {
    Beyond(Move(means, p), SampleVariance(Changes(means)))
  }

  /** The positions `q >= p` whose incoming move is beyond the cut for
      variance `v`, ascending. */
  function NotableFrom(means: seq<real>, v: real, p: nat): (ps: seq<nat>)
    requires 1 <= p <= |means|
    ensures forall k :: 0 <= k < |ps| ==> p <= ps[k] < |means|
    ensures forall a, b :: 0 <= a < b < |ps| ==> ps[a] < ps[b]
    ensures forall q :: p <= q < |means| ==> (q in ps <==> Beyond(Move(means, q), v))
    decreases |means| - p
  {
    if p == |means| then []
    else (if Beyond(Move(means, p), v) then [p] else []) + NotableFrom(means, v, p + 1)
  }

  /** `yoy_change[abs(yoy_change) > threshold].index`, as positions: the
      first position never appears, since its move is NaN. */
  function NotablePositions(means: seq<real>): (ps: seq<nat>)
    requires 3 <= |means|
    ensures forall k :: 0 <= k < |ps| ==> 1 <= ps[k] < |means|
    ensures forall a, b :: 0 <= a < b < |ps| ==> ps[a] < ps[b]
    ensures forall q :: 1 <= q < |means| ==> (q in ps <==> IsNotable(means, q))
  {
    NotableFrom(means, SampleVariance(Changes(means)), 1)
  }

  /** `xs[-n:]`: the last `n` elements, or all of them when there are
      fewer; as in Python, `xs[-0:]` is the whole of `xs`. Every element
      from the first kept one on is kept. */
  function Last(xs: seq<nat>, n: nat): (r: seq<nat>)
    requires forall a, b :: 0 <= a < b < |xs| ==> xs[a] < xs[b]
    ensures |r| == if n == 0 then |xs| else Min(n, |xs|)
    ensures forall y :: y in r ==> y in xs
    ensures forall a, b :: 0 <= a < b < |r| ==> r[a] < r[b]
    ensures forall y :: y in xs && (n == 0 || |r| < n || (|r| > 0 && r[0] <= y)) ==> y in r
  {
    var k := if n == 0 then |xs| else Min(n, |xs|);
    var r := xs[|xs| - k..];
    forall y | y in xs && (n == 0 || |r| < n || (|r| > 0 && r[0] <= y)) ensures y in r {
      var i :| 0 <= i < |xs| && xs[i] == y;
      if n > 0 && |r| == n {
        assert xs[|xs| - n] == r[0];
        assert |xs| - n <= i;
      }
      assert r[i - (|xs| - |r|)] == y;
    }
    r
  }

  /** `anomaly_years[-3:]`: a suffix of the notable positions, of length
      three or all of them when there are fewer. */
  function Chosen(means: seq<real>): (c: seq<nat>)
    requires 3 <= |means|
    ensures |c| == Min(3, |NotablePositions(means)|)
    ensures c == NotablePositions(means)[|NotablePositions(means)| - |c|..]
    ensures forall k :: 0 <= k < |c| ==> 1 <= c[k] < |means|
  {
    var ps := NotablePositions(means);
    var c := Last(ps, 3);
    assert forall k :: 0 <= k < |c| ==> c[k] == ps[|ps| - |c| + k];
    c
  }

  /** The chosen positions are the last three notable ones: each is
      notable, they ascend, and every notable position from the first
      chosen one on is chosen (all of them when fewer than three). */
  lemma ChosenLastNotable(means: seq<real>)
    requires 3 <= |means|
    ensures var c := Chosen(means);
      && (forall k :: 0 <= k < |c| ==> 1 <= c[k] < |means| && IsNotable(means, c[k]))
      && (forall a, b :: 0 <= a < b < |c| ==> c[a] < c[b])
      && (forall q :: 1 <= q < |means| && IsNotable(means, q) && (|c| < 3 || c[0] <= q) ==> q in c)
  {
    var c := Chosen(means);
    var ps := NotablePositions(means);
    forall k | 0 <= k < |c| ensures 1 <= c[k] < |means| && IsNotable(means, c[k]) {
      assert c[k] in c;
    }
  }

  /** The chosen positions ascend. */
  lemma ChosenAscending(means: seq<real>)
    requires 3 <= |means|
    ensures forall a, b :: 0 <= a < b < |Chosen(means)| ==> Chosen(means)[a] < Chosen(means)[b]
  {
    ChosenLastNotable(means);
  }

  /** The insight for position `p`: the direction is "increased" exactly
      when the change is positive. */
  function InsightAt(years: seq<int>, means: seq<real>, p: nat): (r: Insight)
    requires |years| == |means|
    requires 1 <= p < |means|
    ensures r.year == years[p]
    ensures r.increased <==> means[p] > means[p - 1]
    ensures r.magnitude == Abs(means[p] - means[p - 1])
  {
    var d := means[p] - means[p - 1];
    Insight(years[p], d > 0.0, Abs(d))
  }

  /** `get_anomaly_insights` from the yearly means on: nothing for fewer
      than three years, otherwise one insight per chosen position. */
  function YearlyInsights(years: seq<int>, means: seq<real>): (r: seq<Insight>)
    requires |years| == |means|
    ensures |means| < 3 ==> r == []
    ensures |r| <= 3
    ensures |means| >= 3 ==>
      (|r| == |Chosen(means)| && forall k :: 0 <= k < |r| ==> r[k] == InsightAt(years, means, Chosen(means)[k]))
  {
    if |means| < 3 then [] else InsightsAt(years, means, Chosen(means))
  }

  /** One insight per given position. */
  function InsightsAt(years: seq<int>, means: seq<real>, ps: seq<nat>): (r: seq<Insight>)
    requires |years| == |means|
    requires forall k :: 0 <= k < |ps| ==> 1 <= ps[k] < |means|
    ensures |r| == |ps|
    ensures forall k :: 0 <= k < |r| ==> r[k] == InsightAt(years, means, ps[k])
  {
    seq(|ps|, k requires 0 <= k < |ps| => InsightAt(years, means, ps[k]))
  }

  /** A flat trend (every move zero) yields no insight. */
  lemma FlatTrendNoInsights(years: seq<int>, means: seq<real>)
    requires |years| == |means|
    requires forall p :: 1 <= p < |means| ==> Move(means, p) == 0.0
    ensures YearlyInsights(years, means) == []
  {
    if |means| >= 3 {
      var d := Changes(means);
      assert forall i :: 0 <= i < |d| ==> d[i] == Move(means, i + 1);
      MeanConstant(d, 0.0);
      SumSqConstant(d, 0.0);
      assert SampleVariance(d) == 0.0;
      FlagsNothing(means, 1);
    }
  }

  /** With a zero variance only non-zero moves are notable; a flat
      stretch has none. */
  lemma {:induction false} FlagsNothing(means: seq<real>, p: nat)
    requires 1 <= p <= |means|
    requires forall q :: p <= q < |means| ==> Move(means, q) == 0.0
    ensures NotableFrom(means, 0.0, p) == []
    decreases |means| - p
  {
    if p < |means| {
      FlagsNothing(means, p + 1);
    }
  }

  /** A steady linear trend has a zero standard deviation of moves, so
      every move counts as notable. */
  lemma LinearTrendAllNotable(means: seq<real>, c: real)
    requires |means| >= 3
    requires c != 0.0
    requires forall p :: 1 <= p < |means| ==> Move(means, p) == c
    ensures forall q :: 1 <= q < |means| ==> IsNotable(means, q)
  {
    var d := Changes(means);
    assert forall i :: 0 <= i < |d| ==> d[i] == Move(means, i + 1);
    MeanConstant(d, c);
    SumSqConstant(d, c);
    assert SampleVariance(d) == 0.0;
    assert c * c > 0.0 by {
      if c < 0.0 {
        assert c * c == (-c) * (-c);
      }
    }
  }

  /** On a steady linear trend the chosen positions are the last three
      (the last two when there are only three years). */
  lemma LinearTrendChosen(means: seq<real>, c: real)
    requires |means| >= 3
    requires c != 0.0
    requires forall p :: 1 <= p < |means| ==> Move(means, p) == c
    ensures |Chosen(means)| == Min(3, |means| - 1)
    ensures forall k :: 0 <= k < |Chosen(means)| ==> Chosen(means)[k] == |means| - |Chosen(means)| + k
  {
    LinearTrendPositions(means, c);
    SuffixOfRun(NotablePositions(means), Chosen(means), |means|);
  }

  /** On a steady linear trend every position but the first is notable. */
  lemma LinearTrendPositions(means: seq<real>, c: real)
    requires |means| >= 3
    requires c != 0.0
    requires forall p :: 1 <= p < |means| ==> Move(means, p) == c
    ensures |NotablePositions(means)| == |means| - 1
    ensures forall k :: 0 <= k < |NotablePositions(means)| ==> NotablePositions(means)[k] == k + 1
  {
    LinearTrendAllNotable(means, c);
    AllPositions(NotablePositions(means), |means|);
  }

  /** A suffix of the run `1, 2, ..., n - 1` ends at `n - 1`. */
  lemma SuffixOfRun(ps: seq<nat>, c: seq<nat>, n: nat)
    requires |ps| == n - 1
    requires forall k :: 0 <= k < |ps| ==> ps[k] == k + 1
    requires |c| <= |ps| && c == ps[|ps| - |c|..]
    ensures forall k :: 0 <= k < |c| ==> c[k] == n - |c| + k
  {
    forall k | 0 <= k < |c| ensures c[k] == n - |c| + k {
      assert c[k] == ps[|ps| - |c| + k];
    }
  }

  /** On a steady linear trend the insights are about the last three years
      (the last two when there are only three years), all in the trend's
      direction and of its size. */
  lemma LinearTrendFlagsAll(years: seq<int>, means: seq<real>, c: real)
    requires |years| == |means| >= 3
    requires c != 0.0
    requires forall p :: 1 <= p < |means| ==> Move(means, p) == c
    ensures |YearlyInsights(years, means)| == Min(3, |means| - 1)
    ensures forall k :: 0 <= k < |YearlyInsights(years, means)| ==>
      YearlyInsights(years, means)[k] == Insight(years[|means| - |YearlyInsights(years, means)| + k], c > 0.0, Abs(c))
  {
    LinearTrendChosen(means, c);
    var r := YearlyInsights(years, means);
    forall k | 0 <= k < |r|
      ensures r[k] == Insight(years[|means| - |r| + k], c > 0.0, Abs(c))
    {
      LinearTrendInsight(years, means, c, k);
    }
  }

  /** One insight of a steady linear trend. */
  lemma LinearTrendInsight(years: seq<int>, means: seq<real>, c: real, k: nat)
    requires |years| == |means| >= 3
    requires forall p :: 1 <= p < |means| ==> Move(means, p) == c
    requires k < |Chosen(means)|
    requires Chosen(means)[k] == |means| - |Chosen(means)| + k
    ensures k < |YearlyInsights(years, means)|
    ensures YearlyInsights(years, means)[k] == Insight(years[|means| - |Chosen(means)| + k], c > 0.0, Abs(c))
  {
    var p := Chosen(means)[k];
    assert Move(means, p) == c;
  }

  /** An ascending list of positions in `[1, n)` holding all of them is
      exactly `1, 2, ..., n - 1`. */
  lemma AllPositions(ps: seq<nat>, n: nat)
    requires n >= 1
    requires forall k :: 0 <= k < |ps| ==> 1 <= ps[k] < n
    requires forall a, b :: 0 <= a < b < |ps| ==> ps[a] < ps[b]
    requires forall q :: 1 <= q < n ==> q in ps
    ensures |ps| == n - 1
    ensures forall k :: 0 <= k < |ps| ==> ps[k] == k + 1
  {
    var all: seq<nat> := seq(n - 1, k requires 0 <= k < n - 1 => k + 1);
    var lt := (a: nat, b: nat) => a < b;
    assert Ascending(ps, lt);
    assert Ascending(all, lt);
    forall y ensures y in ps <==> y in all {
      if 1 <= y < n {
        assert all[y - 1] == y;
      }
    }
    AscendingUnique(ps, all, lt);
  }

  /** `get_anomaly_insights(df, feature)`: nothing for fewer than two rows
      or fewer than three distinct years; otherwise at most three insights
      built from the yearly means of the feature. */
  function AnomalyInsights(table: seq<Track>, f: Feature): (r: seq<Insight>)
    ensures |table| < 2 ==> r == []
    ensures |Keys(table, ByYear)| < 3 ==> r == []
    ensures |r| <= 3
  {
    if |table| < 2 then []
    else
      var rows := AggregateByYear(table, Some([f]));
      AggregateKeys(table, ByYear, Some([f]));
      YearlyInsights(YearsOf(rows), FirstMeans(rows))
  }

  /** Some track of `table` is from before year `y`. */
  predicate EarlierYear(table: seq<Track>, y: int)
  {
    exists t :: t in table && t.year < y
  }

  /** The yearly rows of a table: strictly ascending years, each a year
      of the table, and every year after the first has an earlier row. */
  lemma YearRows(table: seq<Track>, features: Option<seq<Feature>>)
    ensures var ys := YearsOf(AggregateByYear(table, features));
      && (forall a, b :: 0 <= a < b < |ys| ==> ys[a] < ys[b])
      && (forall i :: 0 <= i < |ys| ==> Occurs(table, ByYear, Key(ys[i], None)))
      && (forall i :: 0 < i < |ys| ==> EarlierYear(table, ys[i]))
  {
    var rows := AggregateByYear(table, features);
    var ys := YearsOf(rows);
    var ks := KeyList(rows);
    forall i | 0 <= i < |ys| ensures Occurs(table, ByYear, Key(ys[i], None)) && ks[i] == Key(ys[i], None) {
      assert ks[i] in ks;
    }
    forall a, b | 0 <= a < b < |ys| ensures ys[a] < ys[b] {
      assert KeyLt(ks[a], ks[b]);
    }
    forall i | 0 < i < |ys| ensures EarlierYear(table, ys[i]) {
      var t :| t in table && KeyOf(ByYear, t) == ks[0];
      assert ys[0] < ys[i];
    }
  }

  /** Insight `k` of a table is about the year of yearly row `c[k]`,
      which is not the first row. */
  lemma InsightRow(table: seq<Track>, f: Feature, k: nat)
    requires k < |AnomalyInsights(table, f)|
    ensures |table| >= 2
    ensures var rows := AggregateByYear(table, Some([f]));
      && |rows| >= 3
      && |AnomalyInsights(table, f)| == |Chosen(FirstMeans(rows))|
      && 1 <= Chosen(FirstMeans(rows))[k] < |rows|
      && AnomalyInsights(table, f)[k].year == YearsOf(rows)[Chosen(FirstMeans(rows))[k]]
  {
    var rows := AggregateByYear(table, Some([f]));
    var means := FirstMeans(rows);
    ChosenLastNotable(means);
  }

  /** The insights come in ascending year order, and each is about a year
      of the table that is not its earliest year: the first year has no
      previous one to move from. */
  lemma AnomalyInsightYears(table: seq<Track>, f: Feature)
    ensures forall a, b :: 0 <= a < b < |AnomalyInsights(table, f)| ==>
      AnomalyInsights(table, f)[a].year < AnomalyInsights(table, f)[b].year
    ensures forall k :: 0 <= k < |AnomalyInsights(table, f)| ==>
      Occurs(table, ByYear, Key(AnomalyInsights(table, f)[k].year, None))
    ensures forall k :: 0 <= k < |AnomalyInsights(table, f)| ==>
      EarlierYear(table, AnomalyInsights(table, f)[k].year)
  {
    var r := AnomalyInsights(table, f);
    if |r| > 0 {
      var rows := AggregateByYear(table, Some([f]));
      var c := Chosen(FirstMeans(rows));
      var ys := YearsOf(rows);
      assert |r| == |c| && |ys| == |rows| by {
        InsightRow(table, f, 0);
      }
      ChosenAscending(FirstMeans(rows));
      forall k | 0 <= k < |r| ensures 1 <= c[k] < |ys| && r[k].year == ys[c[k]] {
        InsightRow(table, f, k);
      }
      YearRows(table, Some([f]));
      PickedYears(table, ys, c, r);
    }
  }

  /** Insights picked at ascending positions `c` (never the first) of
      ascending table years `ys` inherit the order and the properties of
      those years. */
  lemma PickedYears(table: seq<Track>, ys: seq<int>, c: seq<nat>, r: seq<Insight>)
    requires forall a, b :: 0 <= a < b < |ys| ==> ys[a] < ys[b]
    requires forall i :: 0 <= i < |ys| ==> Occurs(table, ByYear, Key(ys[i], None))
    requires forall i :: 0 < i < |ys| ==> EarlierYear(table, ys[i])
    requires |c| == |r|
    requires forall a, b :: 0 <= a < b < |c| ==> c[a] < c[b]
    requires forall k :: 0 <= k < |r| ==> 1 <= c[k] < |ys| && r[k].year == ys[c[k]]
    ensures forall a, b :: 0 <= a < b < |r| ==> r[a].year < r[b].year
    ensures forall k :: 0 <= k < |r| ==> Occurs(table, ByYear, Key(r[k].year, None))
    ensures forall k :: 0 <= k < |r| ==> EarlierYear(table, r[k].year)
  {
    forall k | 0 <= k < |r| ensures Occurs(table, ByYear, Key(r[k].year, None)) {
      assert r[k].year == ys[c[k]];
    }
    forall k | 0 <= k < |r| ensures EarlierYear(table, r[k].year) {
      assert r[k].year == ys[c[k]] && 0 < c[k];
    }
    forall a, b | 0 <= a < b < |r| ensures r[a].year < r[b].year {
      assert r[a].year == ys[c[a]] && r[b].year == ys[c[b]];
    }
  }

  /** The yearly means the insights are computed from are
      `df.groupby('year')[feature].mean()`: entry `i` is the mean of the
      feature over exactly the rows of year `i`. */
  lemma YearlyMeans(table: seq<Track>, f: Feature, i: nat)
    requires i < |AggregateByYear(table, Some([f]))|
    ensures IsMeanOf(FirstMeans(AggregateByYear(table, Some([f])))[i], Column(YearGroup(table, f, i), f))
  {
    YearRowMean(table, f, i);
    assert FirstMeans(AggregateByYear(table, Some([f])))[i] == AggregateByYear(table, Some([f]))[i].means[0];
  }

  /** The tracks of the year of yearly row `i`. */
  function YearGroup(table: seq<Track>, f: Feature, i: nat): seq<Track>
    requires i < |AggregateByYear(table, Some([f]))|
  {
    Group(table, ByYear, AggregateByYear(table, Some([f]))[i].key)
  }

  /** Yearly row `i` holds the mean of `f` over its year first. */
  lemma YearRowMean(table: seq<Track>, f: Feature, i: nat)
    requires i < |AggregateByYear(table, Some([f]))|
    ensures |AggregateByYear(table, Some([f]))[i].means| > 0
    ensures IsMeanOf(AggregateByYear(table, Some([f]))[i].means[0], Column(YearGroup(table, f, i), f))
  {
    SingleColumnMean(AggregateByYear(table, Some([f]))[i], YearGroup(table, f, i), f);
  }

  /** A row aggregated over the single column `f` holds the mean of `f`
      first. */
  lemma SingleColumnMean(row: AggRow, g: seq<Track>, f: Feature)
    requires MeansOf(row, g, Columns(Some([f])))
    ensures |row.means| > 0 && IsMeanOf(row.means[0], Column(g, f))
  {
    DedupDistinct([f]);
    assert Columns(Some([f])) == [f];
    MeanAt(row, g, [f], 0);
  }

  /** Column `j` of a row of means. */
  lemma MeanAt(row: AggRow, g: seq<Track>, cols: seq<Feature>, j: nat)
    requires MeansOf(row, g, cols)
    requires j < |cols|
    ensures row.means[j] * (|g| as real) == Sum(Column(g, cols[j]))
  {
  }

  /** The year of each yearly row. */
  function YearsOf(rows: seq<AggRow>): (ys: seq<int>)
    ensures |ys| == |rows|
  {
    seq(|rows|, i requires 0 <= i < |rows| => rows[i].key.year)
  }

  /** The first aggregated column of each row (0 for a row without one). */
  function FirstMeans(rows: seq<AggRow>): (ms: seq<real>)
    ensures |ms| == |rows|
  {
    seq(|rows|, i requires 0 <= i < |rows| => if |rows[i].means| > 0 then rows[i].means[0] else 0.0)
  }

  // ---------------------------------------------------------------------
  // generate_story_insights

  /** The two eras the stories compare. */
  datatype Era = EarlyEra | RecentEra

  /** The early era is before 1970, the recent era is 2000 on. */
  predicate InEra(era: Era, year: int)
  {
    match era
    case EarlyEra => year < 1970
    case RecentEra => year >= 2000
  }

  /** `df[mask]`: the rows of an era, in table order. */
  function EraRows(table: seq<Track>, era: Era): (g: seq<Track>)
    ensures |g| <= |table|
  {
    if |table| == 0 then []
    else (if InEra(era, table[0].year) then [table[0]] else []) + EraRows(table[1..], era)
  }

  /** A row is among an era's rows if and only if the table holds it and
      it is dated in that era. */
  lemma {:induction false} EraRowsMembers(table: seq<Track>, era: Era)
    ensures forall t :: t in EraRows(table, era) <==> t in table && InEra(era, t.year)
  {
    if |table| > 0 {
      EraRowsMembers(table[1..], era);
      assert forall t :: t in table <==> t == table[0] || t in table[1..];
    }
  }

  /** Filtering a concatenation concatenates the parts' era rows: with `EraRowsOne`, the era's rows keep table order. */
  lemma {:induction false} EraRowsAppend(a: seq<Track>, b: seq<Track>, era: Era)
    ensures EraRows(a + b, era) == EraRows(a, era) + EraRows(b, era)
  {
    if |a| == 0 {
      assert a + b == b;
    } else {
      var head := if InEra(era, a[0].year) then [a[0]] else [];
      calc {
        EraRows(a + b, era);
      == { assert (a + b)[0] == a[0] && (a + b)[1..] == a[1..] + b; }
        head + EraRows(a[1..] + b, era);
      == { EraRowsAppend(a[1..], b, era); }
        head + (EraRows(a[1..], era) + EraRows(b, era));
      ==
        (head + EraRows(a[1..], era)) + EraRows(b, era);
      }
    }
  }

  /** A single row is kept when it is dated in the era. */
  lemma EraRowsOne(t: Track, era: Era)
    ensures EraRows([t], era) == if InEra(era, t.year) then [t] else []
  {
  }

  /** Each row dated in the era is kept as often as the table holds it; no other row is kept. */
  lemma {:induction false} EraRowsCounts(s: seq<Track>, era: Era)
    ensures forall t ::
      multiset(EraRows(s, era))[t] == if InEra(era, t.year) then multiset(s)[t] else 0
  {
    if |s| > 0 {
      EraRowsCounts(s[1..], era);
      assert s == [s[0]] + s[1..];
    }
  }

  /** `df[mask][feature].mean()`: `None` (pandas' NaN) for an empty era,
      otherwise the mean over exactly the era's rows. */
  function EraMean(table: seq<Track>, era: Era, f: Feature): (m: Option<real>)
    ensures m.None? <==> |EraRows(table, era)| == 0
    ensures m.Some? ==> m.value * (|EraRows(table, era)| as real) == Sum(Column(EraRows(table, era), f))
  {
    MeanOrNone(EraRows(table, era), f)
  }

  /** The mean of one column of `g`, or `None` when `g` is empty. */
  function MeanOrNone(g: seq<Track>, f: Feature): (m: Option<real>)
    ensures m.None? <==> |g| == 0
    ensures m.Some? ==> m.value * (|g| as real) == Sum(Column(g, f))
  {
    if |g| == 0 then None
    else
      MeanTimesCount(Column(g, f));
      Some(Mean(Column(g, f)))
  }

  /** An era mean is missing exactly when no row of the table falls in the
      era. */
  lemma EraMeanMissing(table: seq<Track>, era: Era, f: Feature)
    ensures EraMean(table, era, f).None? <==> forall t :: t in table ==> !InEra(era, t.year)
  {
    var g := EraRows(table, era);
    EraRowsMembers(table, era);
    if |g| > 0 {
      assert g[0] in g;
    }
  }

  /** The early and recent means a story quotes. */
  datatype EraMeans = EraMeans(early: Option<real>, recent: Option<real>)

  /** One story: its title, the feature it is about, the era means it
      quotes (none for the genre story) and the percentage change it quotes
      (only the energy story quotes one). */
  datatype Story = Story(title: string, feature: string, eras: Option<EraMeans>, percentChange: Option<real>)

  /** `(recent - early) / early * 100`, defined only when both means exist
      and the early mean is non-zero (numpy yields inf or NaN otherwise). */
  function PercentChange(early: Option<real>, recent: Option<real>): (p: Option<real>)
    ensures p.Some? <==> early.Some? && recent.Some? && early.value != 0.0
    ensures p.Some? ==> p.value * early.value == (recent.value - early.value) * 100.0
  {
    if early.Some? && recent.Some? && early.value != 0.0
    then Some((recent.value - early.value) / early.value * 100.0)
    else None
  }

  /** The era means of one feature. */
  function Eras(table: seq<Track>, f: Feature): EraMeans
  {
    EraMeans(EraMean(table, EarlyEra, f), EraMean(table, RecentEra, f))
  }

  /** `generate_story_insights(df)`: always the same four stories, about
      energy, danceability, acousticness and genre in that order. */
  function StoryInsights(table: seq<Track>): (stories: seq<Story>)
    ensures |stories| == 4
    ensures stories[0].feature == "energy" && stories[1].feature == "danceability"
    ensures stories[2].feature == "acousticness" && stories[3].feature == "genre"
    ensures stories[0].title == "The Rise of High-Energy Music"
    ensures stories[1].title == "The Danceability Revolution"
    ensures stories[2].title == "The Digital Revolution: Acousticness Decline"
    ensures stories[3].title == "Genre Evolution Across Eras"
    ensures stories[0].eras == Some(Eras(table, Energy))
    ensures stories[1].eras == Some(Eras(table, Danceability))
    ensures stories[2].eras == Some(Eras(table, Acousticness))
    ensures stories[3].eras == None
    ensures stories[0].percentChange == PercentChange(Eras(table, Energy).early, Eras(table, Energy).recent)
    ensures forall i :: 1 <= i < 4 ==> stories[i].percentChange == None
  {
    var energy := Eras(table, Energy);
    [ Story("The Rise of High-Energy Music", Name(Energy), Some(energy), PercentChange(energy.early, energy.recent)),
      Story("The Danceability Revolution", Name(Danceability), Some(Eras(table, Danceability)), None),
      Story("The Digital Revolution: Acousticness Decline", Name(Acousticness), Some(Eras(table, Acousticness)), None),
      Story("Genre Evolution Across Eras", "genre", None, None) ]
  }

  /** An era mean of tracks within their declared bounds stays within the
      feature's bounds. */
  lemma EraMeanWithin(table: seq<Track>, era: Era, f: Feature)
    requires forall t :: t in table ==> WithinBounds(t)
    ensures EraMean(table, era, f).Some? ==> Lower(f) <= EraMean(table, era, f).value <= Upper(f)
  {
    EraRowsWithin(table, era);
    MeanOrNoneWithin(EraRows(table, era), f);
  }

  /** A mean of in-bounds tracks is within the feature's bounds. */
  lemma MeanOrNoneWithin(g: seq<Track>, f: Feature)
    requires forall i :: 0 <= i < |g| ==> WithinBounds(g[i])
    ensures MeanOrNone(g, f).Some? ==> Lower(f) <= MeanOrNone(g, f).value <= Upper(f)
  {
    var m := MeanOrNone(g, f);
    if m.Some? {
      ColumnMeanWithin(g, f, m.value);
    }
  }

  /** The rows of an era of in-bounds tracks are in bounds. */
  lemma {:induction false} EraRowsWithin(table: seq<Track>, era: Era)
    requires forall t :: t in table ==> WithinBounds(t)
    ensures forall i :: 0 <= i < |EraRows(table, era)| ==> WithinBounds(EraRows(table, era)[i])
  {
    if |table| > 0 {
      assert table[0] in table;
      assert forall t :: t in table[1..] ==> t in table;
      EraRowsWithin(table[1..], era);
    }
  }

  /** A mean of a column of in-bounds tracks is within the column's bounds. */
  lemma ColumnMeanWithin(g: seq<Track>, f: Feature, m: real)
    requires |g| > 0
    requires m * (|g| as real) == Sum(Column(g, f))
    requires forall i :: 0 <= i < |g| ==> WithinBounds(g[i])
    ensures Lower(f) <= m <= Upper(f)
  {
    var c := Column(g, f);
    assert forall i :: 0 <= i < |c| ==> Lower(f) <= c[i] <= Upper(f);
    SumBounds(c, Lower(f), Upper(f));
    ScaledWithin(m, |g| as real, Sum(c), Lower(f), Upper(f));
  }

  /** A positive early mean that the recent mean exceeds gives a positive
      percentage change, and one it undercuts a negative change. */
  lemma PercentChangeSign(early: real, recent: real)
    requires early > 0.0
    ensures recent > early ==> PercentChange(Some(early), Some(recent)).value > 0.0
    ensures recent < early ==> PercentChange(Some(early), Some(recent)).value < 0.0
  {
    var p := PercentChange(Some(early), Some(recent)).value;
    if p <= 0.0 {
      assert p * early <= 0.0;
    }
    if p >= 0.0 {
      assert p * early >= 0.0;
    }
  }
}
