/** The z-score outlier detector `detect_anomalies` (utils.py): missing
    values are dropped first, and the returned positions index the cleaned
    series, not the original one. */
module Anomaly {
  import opened Optional
  import opened Stats

  /** `series.dropna().values`: the present values, in their order. */
  function DropMissing(series: seq<Option<real>>): (xs: seq<real>)
    ensures |xs| <= |series|
  {
    if |series| == 0 then []
    else (if series[0].Some? then [series[0].value] else []) + DropMissing(series[1..])
  }

  /** A value is kept if and only if the series holds it present. */
  lemma {:induction false} DropMissingMembers(series: seq<Option<real>>)
    ensures forall x :: x in DropMissing(series) ==> Some(x) in series
    ensures forall x :: Some(x) in series ==> x in DropMissing(series)
  {
    if |series| > 0 {
      DropMissingMembers(series[1..]);
      assert forall x :: Some(x) in series <==> Some(x) == series[0] || Some(x) in series[1..];
    }
  }

  /** Dropping from a concatenation concatenates what each part keeps:
      with `DropMissingOne`, the kept values stay in series order. */
  lemma {:induction false} DropMissingAppend(a: seq<Option<real>>, b: seq<Option<real>>)
    ensures DropMissing(a + b) == DropMissing(a) + DropMissing(b)
  {
    if |a| == 0 {
      assert a + b == b;
    } else {
      var head := if a[0].Some? then [a[0].value] else [];
      calc {
        DropMissing(a + b);
      == { assert (a + b)[0] == a[0] && (a + b)[1..] == a[1..] + b; }
        head + DropMissing(a[1..] + b);
      == { DropMissingAppend(a[1..], b); }
        head + (DropMissing(a[1..]) + DropMissing(b));
      ==
        (head + DropMissing(a[1..])) + DropMissing(b);
      }
    }
  }

  /** A present value is kept, a missing one dropped. */
  lemma DropMissingOne(o: Option<real>)
    ensures DropMissing([o]) == if o.Some? then [o.value] else []
  {
  }

  /** Each value is kept as often as the series holds it present. */
  lemma {:induction false} DropMissingCounts(series: seq<Option<real>>)
    ensures forall x :: multiset(DropMissing(series))[x] == multiset(series)[Some(x)]
  {
    if |series| > 0 {
      DropMissingCounts(series[1..]);
      assert series == [series[0]] + series[1..];
    }
  }

  /** Position `i` of the cleaned series has a population z-score whose
      absolute value exceeds `t`. */
  predicate IsOutlier(xs: seq<real>, i: nat, t: real)
    requires i < |xs|
  {
    ExceedsZ(xs[i], Mean(xs), PopVariance(xs), t)
  }

  /** The positions `j >= i` of `xs` lying beyond `t` standard deviations,
      for a given mean `m` and variance `v`. */
  function Flag(xs: seq<real>, m: real, v: real, t: real, i: nat): (r: seq<nat>)
    requires i <= |xs|
    ensures forall k :: 0 <= k < |r| ==> i <= r[k] < |xs|
    ensures forall a, b :: 0 <= a < b < |r| ==> r[a] < r[b]
    ensures forall j :: i <= j < |xs| ==> (j in r <==> ExceedsZ(xs[j], m, v, t))
    decreases |xs| - i
  {
    if i == |xs| then []
    else (if ExceedsZ(xs[i], m, v, t) then [i] else []) + Flag(xs, m, v, t, i + 1)
  }

  /** `detect_anomalies(series, threshold)`: strictly ascending positions of
      the cleaned series, holding exactly its outliers. An empty cleaned
      series has none. */
  function DetectAnomalies(series: seq<Option<real>>, threshold: real): (idx: seq<nat>)
    ensures forall k :: 0 <= k < |idx| ==> idx[k] < |DropMissing(series)|
    ensures forall a, b :: 0 <= a < b < |idx| ==> idx[a] < idx[b]
    ensures forall i :: 0 <= i < |DropMissing(series)| ==>
      (i in idx <==> IsOutlier(DropMissing(series), i, threshold))
  {
    var xs := DropMissing(series);
    if |xs| == 0 then [] else Flag(xs, Mean(xs), PopVariance(xs), threshold, 0)
  }

  /** With a zero variance nothing is flagged. */
  lemma {:induction false} FlagNone(xs: seq<real>, m: real, t: real, i: nat)
    requires i <= |xs|
    ensures Flag(xs, m, 0.0, t, i) == []
    decreases |xs| - i
  {
    if i < |xs| {
      FlagNone(xs, m, t, i + 1);
    }
  }

  /** A value of the cleaned series is present in the original one. */
  lemma PresentValue(series: seq<Option<real>>, x: real)
    requires x in DropMissing(series)
    ensures Some(x) in series
  {
    DropMissingMembers(series);
  }

  /** A series whose present values are all equal has no anomalies,
      whatever the threshold. */
  lemma ConstantSeriesNoAnomalies(series: seq<Option<real>>, c: real, threshold: real)
    requires forall i :: 0 <= i < |series| && series[i].Some? ==> series[i].value == c
    ensures DetectAnomalies(series, threshold) == []
  {
    var xs := DropMissing(series);
    if |xs| > 0 {
      forall k | 0 <= k < |xs| ensures xs[k] == c {
        PresentValue(series, xs[k]);
        var j :| 0 <= j < |series| && series[j] == Some(xs[k]);
      }
      PopVarianceConstant(xs, c);
      FlagNone(xs, Mean(xs), threshold, 0);
    }
  }

  /** Raising the threshold can only shrink the set of anomalies. */
  lemma ThresholdAntitone(series: seq<Option<real>>, t1: real, t2: real)
    requires t1 <= t2
    ensures forall i :: i in DetectAnomalies(series, t2) ==> i in DetectAnomalies(series, t1)
  {
    var xs := DropMissing(series);
    var hi := DetectAnomalies(series, t2);
    forall i | i in hi ensures i in DetectAnomalies(series, t1) {
      var k :| 0 <= k < |hi| && hi[k] == i;
      ExceedsZAntitone(xs[i], Mean(xs), PopVariance(xs), t1, t2);
    }
  }

  /** The worked case below, cleaned: the missing entry disappears. */
  lemma CleanedExample()
    ensures DropMissing([Some(0.0), None, Some(0.0), Some(0.0), Some(0.0), Some(0.0), Some(6.0)])
      == [0.0, 0.0, 0.0, 0.0, 0.0, 6.0]
  {
    var series := [Some(0.0), None, Some(0.0), Some(0.0), Some(0.0), Some(0.0), Some(6.0)];
    assert DropMissing(series[6..]) == [6.0];
    assert DropMissing(series[5..]) == [0.0, 6.0];
    assert DropMissing(series[4..]) == [0.0, 0.0, 6.0];
    assert DropMissing(series[3..]) == [0.0, 0.0, 0.0, 6.0];
    assert DropMissing(series[2..]) == [0.0, 0.0, 0.0, 0.0, 6.0];
    assert DropMissing(series[1..]) == [0.0, 0.0, 0.0, 0.0, 6.0];
  }

  /** Five zeros and a six have mean 1 and population variance 5. */
  lemma MomentsExample()
    ensures Mean([0.0, 0.0, 0.0, 0.0, 0.0, 6.0]) == 1.0
    ensures PopVariance([0.0, 0.0, 0.0, 0.0, 0.0, 6.0]) == 5.0
  {
    var xs := [0.0, 0.0, 0.0, 0.0, 0.0, 6.0];
    assert Sum(xs[5..]) == 6.0;
    assert Sum(xs[4..]) == 6.0;
    assert Sum(xs[3..]) == 6.0;
    assert Sum(xs[2..]) == 6.0;
    assert Sum(xs[1..]) == 6.0;
    assert Mean(xs) == 1.0;
    assert SumSq(xs[5..], 1.0) == 25.0;
    assert SumSq(xs[4..], 1.0) == 26.0;
    assert SumSq(xs[3..], 1.0) == 27.0;
    assert SumSq(xs[2..], 1.0) == 28.0;
    assert SumSq(xs[1..], 1.0) == 29.0;
  }

  /** A worked case: one missing value is dropped, so the outlier 6 sits at
      position 5 of the cleaned series although it is the seventh entry.
      Mean 1 and variance 5 put it at z = 5 / sqrt(5) > 2, while the zeros
      sit at z = 1 / sqrt(5). */
  lemma OutlierAfterMissing()
    ensures DetectAnomalies([Some(0.0), None, Some(0.0), Some(0.0), Some(0.0), Some(0.0), Some(6.0)], 2.0) == [5]
  {
    var xs := [0.0, 0.0, 0.0, 0.0, 0.0, 6.0];
    CleanedExample();
    MomentsExample();
    assert Flag(xs, 1.0, 5.0, 2.0, 6) == [];
    assert Flag(xs, 1.0, 5.0, 2.0, 5) == [5];
    assert Flag(xs, 1.0, 5.0, 2.0, 4) == [5];
    assert Flag(xs, 1.0, 5.0, 2.0, 3) == [5];
    assert Flag(xs, 1.0, 5.0, 2.0, 2) == [5];
    assert Flag(xs, 1.0, 5.0, 2.0, 1) == [5];
  }
}
