/** Sums, means and variances over series of reals, shared by the Python
    and the JavaScript halves of the dashboard. All arithmetic is exact:
    IEEE-754 rounding is not modelled. */
module Stats {

  /** Sum of a series. */
  function Sum(xs: seq<real>): real
  {
    if |xs| == 0 then 0.0 else xs[0] + Sum(xs[1..])
  }

  /** Arithmetic mean of a non-empty series. */
  function Mean(xs: seq<real>): real
    requires |xs| > 0
  {
    Sum(xs) / (|xs| as real)
  }

  /** `m` is the mean of `xs`: times the count it gives back the sum. */
  predicate IsMeanOf(m: real, xs: seq<real>)
  {
    m * (|xs| as real) == Sum(xs)
  }

  /** The mean times the count gives back the sum. */
  lemma MeanTimesCount(xs: seq<real>)
    requires |xs| > 0
    ensures Mean(xs) * (|xs| as real) == Sum(xs)
  {
  }

  /** Sum of squared deviations of `xs` from `m`. */
  function SumSq(xs: seq<real>, m: real): (r: real)
    ensures r >= 0.0
  {
    if |xs| == 0 then 0.0
    else
      Square(xs[0] - m);
      (xs[0] - m) * (xs[0] - m) + SumSq(xs[1..], m)
  }

  /** Population variance (ddof = 0), the convention of `scipy.stats.zscore`
      and of the dashboard's anomaly chart. */
  function PopVariance(xs: seq<real>): (r: real)
    requires |xs| > 0
    ensures r >= 0.0
  {
    SumSq(xs, Mean(xs)) / (|xs| as real)
  }

  /** Sample variance (ddof = 1), the convention of `pandas.Series.std`. */
  function SampleVariance(xs: seq<real>): (r: real)
    requires |xs| > 1
    ensures r >= 0.0
  {
    SumSq(xs, Mean(xs)) / ((|xs| - 1) as real)
  }

  /** `x` lies strictly more than `t` standard deviations from `m`, where
      `v` is the variance, i.e. `|x - m| > t * sqrt(v)` stated without a
      square root. A zero variance flags nothing: the z-score is 0/0 (NaN)
      and `|v - m| > 0` is false when every value equals the mean. A
      negative `t` flags every point once the variance is positive. */
  predicate ExceedsZ(x: real, m: real, v: real, t: real)
  {
    v > 0.0 && (t < 0.0 || (x - m) * (x - m) > t * t * v)
  }

  /** Clip `x` into `[lo, hi]`, as `max(lo, min(hi, x))`. */
  function Clamp(x: real, lo: real, hi: real): (r: real)
    requires lo <= hi
    ensures lo <= r <= hi
    ensures lo <= x <= hi ==> r == x
    ensures x < lo ==> r == lo
    ensures x > hi ==> r == hi
  {
    if x < lo then lo else if x > hi then hi else x
  }

  /** Clipping preserves order. */
  lemma ClampMonotone(x1: real, x2: real, lo: real, hi: real)
    requires lo <= hi
    requires x1 <= x2
    ensures Clamp(x1, lo, hi) <= Clamp(x2, lo, hi)
  {
  }

  /** Rounding to the nearest integer with halves going up, as JavaScript's
      `Math.round`. */
  function RoundHalfUp(x: real): (r: int)
    ensures x - 0.5 < r as real <= x + 0.5
  {
    (x + 0.5).Floor
  }

  /** A square is non-negative. */
  lemma Square(d: real)
    ensures d * d >= 0.0
  {
    if d < 0.0 {
      assert d * d == (-d) * (-d);
    }
  }

  lemma {:induction false} SumAppend(a: seq<real>, b: seq<real>)
    ensures Sum(a + b) == Sum(a) + Sum(b)
  {
    if |a| == 0 {
      assert a + b == b;
    } else {
      assert (a + b)[1..] == a[1..] + b;
      SumAppend(a[1..], b);
    }
  }

  /** A series whose every value is `c` sums to `|xs| * c`. */
  lemma {:induction false} SumConstant(xs: seq<real>, c: real)
    requires forall i :: 0 <= i < |xs| ==> xs[i] == c
    ensures Sum(xs) == (|xs| as real) * c
  {
    if |xs| > 0 {
      SumConstant(xs[1..], c);
    }
  }

  /** Values within `[lo, hi]` have a sum within `[|xs| * lo, |xs| * hi]`. */
  lemma {:induction false} SumBounds(xs: seq<real>, lo: real, hi: real)
    requires forall i :: 0 <= i < |xs| ==> lo <= xs[i] <= hi
    ensures (|xs| as real) * lo <= Sum(xs) <= (|xs| as real) * hi
  {
    if |xs| > 0 {
      SumBounds(xs[1..], lo, hi);
    }
  }

  /** The mean of values within `[lo, hi]` lies within `[lo, hi]`. */
  lemma MeanBounds(xs: seq<real>, lo: real, hi: real)
    requires |xs| > 0
    requires forall i :: 0 <= i < |xs| ==> lo <= xs[i] <= hi
    ensures lo <= Mean(xs) <= hi
  {
    SumBounds(xs, lo, hi);
    var n := |xs| as real;
    assert n * lo <= Sum(xs) <= n * hi;
    assert Sum(xs) / n >= lo by {
      assert (Sum(xs) / n) * n == Sum(xs);
    }
    assert Sum(xs) / n <= hi by {
      assert (Sum(xs) / n) * n == Sum(xs);
    }
  }

  /** A value whose `n`-fold is a sum of `n` values within `[lo, hi]` lies
      within `[lo, hi]` too. */
  lemma ScaledWithin(a: real, n: real, s: real, lo: real, hi: real)
    requires n > 0.0
    requires a * n == s
    requires n * lo <= s <= n * hi
    ensures lo <= a <= hi
  {
  }

  /** The mean of a constant series is that constant. */
  lemma MeanConstant(xs: seq<real>, c: real)
    requires |xs| > 0
    requires forall i :: 0 <= i < |xs| ==> xs[i] == c
    ensures Mean(xs) == c
  {
    SumConstant(xs, c);
  }

  /** A mean of a single value is the value itself. */
  lemma MeanSingleton(x: real)
    ensures Mean([x]) == x
  {
    MeanConstant([x], x);
  }

  /** Deviations of a series from its own constant value square-sum to zero. */
  lemma {:induction false} SumSqConstant(xs: seq<real>, m: real)
    requires forall i :: 0 <= i < |xs| ==> xs[i] == m
    ensures SumSq(xs, m) == 0.0
  {
    if |xs| > 0 {
      assert xs[0] == m;
      SumSqConstant(xs[1..], m);
    }
  }

  /** A constant series has zero population variance. */
  lemma PopVarianceConstant(xs: seq<real>, c: real)
    requires |xs| > 0
    requires forall i :: 0 <= i < |xs| ==> xs[i] == c
    ensures PopVariance(xs) == 0.0
  {
    MeanConstant(xs, c);
    SumSqConstant(xs, c);
  }

  /** Raising the threshold can only un-flag a point. */
  lemma ExceedsZAntitone(x: real, m: real, v: real, t1: real, t2: real)
    requires t1 <= t2
    requires ExceedsZ(x, m, v, t2)
    ensures ExceedsZ(x, m, v, t1)
  {
    if t1 >= 0.0 {
      assert t1 * t1 <= t2 * t2 by {
        assert t1 * t1 <= t1 * t2 <= t2 * t2;
      }
      assert t1 * t1 * v <= t2 * t2 * v;
    }
  }
}
