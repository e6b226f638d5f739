/** The what-if simulator's composite score: a weighted average of a row's
    audio features under a caller-supplied weight map. */
module Scorer {
  import opened Stats
  import opened Tracks

  /** The numeric columns of one table row, by name. */
  type Row = map<string, real>

  /** A weight map as (key, weight) entries in insertion order. Any key may
      appear, not only feature names. */
  type Weights = seq<(string, real)>

  /** The features the score looks at, in the order it visits them. */
  const ScoredFeatures: seq<string> :=
    ["danceability", "energy", "loudness", "acousticness", "instrumentalness",
     "liveness", "valence", "tempo", "speechiness"]

  /** A dict cannot hold a key twice. */
  predicate DistinctKeys(ws: Weights)
  {
    forall i, j :: 0 <= i < j < |ws| ==> ws[i].0 != ws[j].0
  }

  /** The keys of a weight map. */
  function Keys(ws: Weights): set<string>
  {
    set i | 0 <= i < |ws| :: ws[i].0
  }

  /** `weights[k]` for a key that is present. */
  function Lookup(ws: Weights, k: string): real
    requires k in Keys(ws)
  {
    if ws[0].0 == k then ws[0].1
    else
      var i :| 0 <= i < |ws| && ws[i].0 == k;
      assert ws[1..][i - 1].0 == k;
      Lookup(ws[1..], k)
  }

  /** `sum(weights.values())`. */
  function TotalWeight(ws: Weights): real
  {
    if |ws| == 0 then 0.0 else ws[0].1 + TotalWeight(ws[1..])
  }

  /** Loudness rescaled from [-10, 0] to [0, 1] and clipped. */
  function NormalizeLoudness(l: real): (r: real)
    ensures 0.0 <= r <= 1.0
    ensures l <= -10.0 ==> r == 0.0
    ensures l >= 0.0 ==> r == 1.0
    ensures -10.0 <= l <= 0.0 ==> r * 10.0 == l + 10.0
  {
    Clamp((l + 10.0) / 10.0, 0.0, 1.0)
  }

  /** The value a feature contributes: loudness is rescaled, every other
      feature, tempo included, is taken as it is. */
  function Normalized(row: Row, f: string): real
    requires f in row
  {
    if f == "loudness" then NormalizeLoudness(row[f]) else row[f]
  }

  /** What feature `f` adds to the numerator. */
  function Contribution(row: Row, ws: Weights, f: string): real
  {
    if f in row && f in Keys(ws) then Normalized(row, f) * Lookup(ws, f) else 0.0
  }

  /** The numerator accumulated by visiting the features `fs` in order. */
  function FeatureSum(row: Row, ws: Weights, fs: seq<string>): real
  {
    if |fs| == 0 then 0.0 else Contribution(row, ws, fs[0]) + FeatureSum(row, ws, fs[1..])
  }

  /** What one weight entry `(k, w)` adds: its key counts when it is one of
      `fs` and a column of the row. */
  function Entry(row: Row, k: string, w: real, fs: seq<string>): real
  {
    if k in fs && k in row then Normalized(row, k) * w else 0.0
  }

  /** The same numerator accumulated entry by entry over the weight map. */
  function EntrySum(row: Row, ws: Weights, fs: seq<string>): real
  {
    if |ws| == 0 then 0.0 else Entry(row, ws[0].0, ws[0].1, fs) + EntrySum(row, ws[1..], fs)
  }

  /** `calculate_custom_score`: the weighted sum of the scored features
      present in both the row and the weight map, divided by the sum of ALL
      weights when that sum is positive and left undivided otherwise. */
  function CustomScore(row: Row, ws: Weights): (score: real)
    ensures DistinctKeys(ws) && TotalWeight(ws) > 0.0 ==>
      score * TotalWeight(ws) == EntrySum(row, ws, ScoredFeatures)
    ensures DistinctKeys(ws) && TotalWeight(ws) <= 0.0 ==>
      score == EntrySum(row, ws, ScoredFeatures)
  {
    var total := TotalWeight(ws);
    var numerator := FeatureSum(row, ws, ScoredFeatures);
    FeatureSumIsEntrySum(row, ws, ScoredFeatures);
    if total > 0.0 then numerator / total else numerator
  }

  /** Removing the first entry of a weight map takes exactly its own
      contribution out of the feature-ordered sum. */
  lemma {:induction false} FeatureSumDropEntry(row: Row, ws: Weights, fs: seq<string>)
    requires |ws| > 0
    requires ws[0].0 !in Keys(ws[1..])
    requires forall i, j :: 0 <= i < j < |fs| ==> fs[i] != fs[j]
    ensures FeatureSum(row, ws, fs) ==
      Entry(row, ws[0].0, ws[0].1, fs)
      + FeatureSum(row, ws[1..], fs)
  {
    if |fs| > 0 {
      assert fs[0] !in fs[1..] by {
        forall i | 0 <= i < |fs[1..]| ensures fs[1..][i] != fs[0] {
          assert fs[1..][i] == fs[i + 1];
        }
      }
      assert forall i, j :: 0 <= i < j < |fs[1..]| ==> fs[1..][i] != fs[1..][j] by {
        forall i, j | 0 <= i < j < |fs[1..]| ensures fs[1..][i] != fs[1..][j] {
          assert fs[1..][i] == fs[i + 1] && fs[1..][j] == fs[j + 1];
        }
      }
      FeatureSumDropEntry(row, ws, fs[1..]);
      assert fs == [fs[0]] + fs[1..];
      assert ws[0].0 in fs <==> ws[0].0 == fs[0] || ws[0].0 in fs[1..];
    }
  }

  /** Visiting the features in their fixed order or the weight entries in
      insertion order accumulates the same numerator. */
  lemma {:induction false} FeatureSumIsEntrySum(row: Row, ws: Weights, fs: seq<string>)
    requires forall i, j :: 0 <= i < j < |fs| ==> fs[i] != fs[j]
    ensures DistinctKeys(ws) ==> FeatureSum(row, ws, fs) == EntrySum(row, ws, fs)
  {
    if DistinctKeys(ws) {
      if |ws| == 0 {
        FeatureSumEmpty(row, ws, fs);
      } else {
        assert ws[0].0 !in Keys(ws[1..]) by {
          forall i | 0 <= i < |ws[1..]| ensures ws[1..][i].0 != ws[0].0 {
            assert ws[1..][i] == ws[i + 1];
          }
        }
        assert DistinctKeys(ws[1..]) by {
          forall i, j | 0 <= i < j < |ws[1..]| ensures ws[1..][i].0 != ws[1..][j].0 {
            assert ws[1..][i] == ws[i + 1] && ws[1..][j] == ws[j + 1];
          }
        }
        FeatureSumDropEntry(row, ws, fs);
        FeatureSumIsEntrySum(row, ws[1..], fs);
      }
    }
  }

  /** With no weights, no feature contributes. */
  lemma {:induction false} FeatureSumEmpty(row: Row, ws: Weights, fs: seq<string>)
    requires |ws| == 0
    ensures FeatureSum(row, ws, fs) == 0.0
  {
    if |fs| > 0 {
      FeatureSumEmpty(row, ws, fs[1..]);
    }
  }

  /** Non-negative weights summing to zero are all zero. */
  lemma {:induction false} ZeroTotalMeansZeroWeights(ws: Weights)
    requires forall i :: 0 <= i < |ws| ==> ws[i].1 >= 0.0
    requires TotalWeight(ws) == 0.0
    ensures forall i :: 0 <= i < |ws| ==> ws[i].1 == 0.0
  {
    if |ws| > 0 {
      NonNegativeTotal(ws[1..]);
      ZeroTotalMeansZeroWeights(ws[1..]);
      forall i | 0 <= i < |ws| ensures ws[i].1 == 0.0 {
        if i > 0 {
          assert ws[i] == ws[1..][i - 1];
        }
      }
    }
  }

  lemma {:induction false} NonNegativeTotal(ws: Weights)
    requires forall i :: 0 <= i < |ws| ==> ws[i].1 >= 0.0
    ensures TotalWeight(ws) >= 0.0
  {
    if |ws| > 0 {
      NonNegativeTotal(ws[1..]);
    }
  }

  /** A numerator whose every contribution vanishes is zero. */
  lemma {:induction false} FeatureSumOfZeroWeights(row: Row, ws: Weights, fs: seq<string>)
    requires forall i :: 0 <= i < |ws| ==> ws[i].1 == 0.0
    ensures FeatureSum(row, ws, fs) == 0.0
  {
    if |fs| > 0 {
      if fs[0] in row && fs[0] in Keys(ws) {
        LookupIsAnEntry(ws, fs[0]);
      }
      FeatureSumOfZeroWeights(row, ws, fs[1..]);
    }
  }

  /** The value looked up is the weight of some entry with that key. */
  lemma {:induction false} LookupIsAnEntry(ws: Weights, k: string)
    requires k in Keys(ws)
    ensures exists i :: 0 <= i < |ws| && ws[i].0 == k && ws[i].1 == Lookup(ws, k)
  {
    if ws[0].0 != k {
      var i :| 0 <= i < |ws| && ws[i].0 == k;
      assert ws[1..][i - 1].0 == k;
      LookupIsAnEntry(ws[1..], k);
      var j :| 0 <= j < |ws[1..]| && ws[1..][j].0 == k && ws[1..][j].1 == Lookup(ws[1..], k);
      assert ws[j + 1] == ws[1..][j];
    }
  }

  /** When the weights total zero (an empty map, or all weights zero) the
      score is 0 and no division happens. */
  lemma ZeroWeightScore(row: Row, ws: Weights)
    requires forall i :: 0 <= i < |ws| ==> ws[i].1 >= 0.0
    requires TotalWeight(ws) == 0.0
    ensures CustomScore(row, ws) == 0.0
  {
    ZeroNumerator(row, ws, ScoredFeatures);
  }

  /** With non-negative weights summing to zero, no feature contributes. */
  lemma ZeroNumerator(row: Row, ws: Weights, fs: seq<string>)
    requires forall i :: 0 <= i < |ws| ==> ws[i].1 >= 0.0
    requires TotalWeight(ws) == 0.0
    ensures FeatureSum(row, ws, fs) == 0.0
  {
    ZeroTotalMeansZeroWeights(ws);
    FeatureSumOfZeroWeights(row, ws, fs);
  }

  /** A single positive weight on one scored feature yields that feature's
      (normalised) value. */
  lemma SingleFeatureScore(row: Row, f: string, w: real)
    requires f in ScoredFeatures && f in row
    requires w > 0.0
    ensures CustomScore(row, [(f, w)]) == Normalized(row, f)
  {
    var ws := [(f, w)];
    assert TotalWeight(ws) == w;
    assert EntrySum(row, ws, ScoredFeatures) == Normalized(row, f) * w + EntrySum(row, [], ScoredFeatures);
    var s := CustomScore(row, ws);
    assert s * w == Normalized(row, f) * w;
    assert s == (s * w) / w;
  }

  /** Tempo enters the score unscaled: a lone weight on tempo 120 scores
      120, far outside [0, 1]. */
  lemma TempoNotRescaled()
    ensures CustomScore(map["tempo" := 120.0], [("tempo", 1.0)]) == 120.0
  {
    SingleFeatureScore(map["tempo" := 120.0], "tempo", 1.0);
  }

  /** Appending an entry adds its own term to the entry-ordered numerator. */
  lemma {:induction false} EntrySumAppend(row: Row, ws: Weights, k: string, w: real, fs: seq<string>)
    ensures EntrySum(row, ws + [(k, w)], fs) ==
      EntrySum(row, ws, fs) + Entry(row, k, w, fs)
  {
    if |ws| > 0 {
      assert (ws + [(k, w)])[1..] == ws[1..] + [(k, w)];
      EntrySumAppend(row, ws[1..], k, w, fs);
    }
  }

  lemma {:induction false} TotalWeightAppend(ws: Weights, k: string, w: real)
    ensures TotalWeight(ws + [(k, w)]) == TotalWeight(ws) + w
  {
    if |ws| > 0 {
      assert (ws + [(k, w)])[1..] == ws[1..] + [(k, w)];
      TotalWeightAppend(ws[1..], k, w);
    }
  }

  /** A weight on a key that is not a scored feature still counts in the
      denominator: it dilutes the score without adding to the numerator. */
  lemma UnknownKeyDilutes(row: Row, ws: Weights, k: string, w: real)
    requires DistinctKeys(ws) && k !in Keys(ws)
    requires k !in ScoredFeatures
    requires TotalWeight(ws) > 0.0 && w >= 0.0
    ensures TotalWeight(ws + [(k, w)]) == TotalWeight(ws) + w
    ensures CustomScore(row, ws + [(k, w)]) * TotalWeight(ws + [(k, w)]) == CustomScore(row, ws) * TotalWeight(ws)
  {
    AppendUnscored(row, ws, k, w, ScoredFeatures);
    ScoreTimesTotal(row, ws);
    ScoreTimesTotal(row, ws + [(k, w)]);
  }

  /** Appending a fresh key outside `fs` keeps the keys distinct, leaves the
      numerator alone and adds its weight to the total. */
  lemma AppendUnscored(row: Row, ws: Weights, k: string, w: real, fs: seq<string>)
    requires DistinctKeys(ws) && k !in Keys(ws) && k !in fs
    ensures DistinctKeys(ws + [(k, w)])
    ensures EntrySum(row, ws + [(k, w)], fs) == EntrySum(row, ws, fs)
    ensures TotalWeight(ws + [(k, w)]) == TotalWeight(ws) + w
  {
    DistinctKeysAppend(ws, k, w);
    EntrySumAppend(row, ws, k, w, fs);
    TotalWeightAppend(ws, k, w);
  }

  /** The score scaled back by a positive total is the numerator. */
  lemma ScoreTimesTotal(row: Row, ws: Weights)
    requires DistinctKeys(ws) && TotalWeight(ws) > 0.0
    ensures CustomScore(row, ws) * TotalWeight(ws) == EntrySum(row, ws, ScoredFeatures)
  {
  }

  /** Appending a fresh key keeps the keys distinct. */
  lemma DistinctKeysAppend(ws: Weights, k: string, w: real)
    requires DistinctKeys(ws) && k !in Keys(ws)
    ensures DistinctKeys(ws + [(k, w)])
  {
    var ws' := ws + [(k, w)];
    forall i, j | 0 <= i < j < |ws'| ensures ws'[i].0 != ws'[j].0 {
      if j == |ws| {
        assert ws'[i].0 in Keys(ws);
      }
    }
  }

  /** Every counted entry adds a value within [0, w], so the numerator lies
      between 0 and the total weight. */
  lemma {:induction false} EntrySumWithin(row: Row, ws: Weights, fs: seq<string>)
    requires forall i :: 0 <= i < |ws| ==> ws[i].1 >= 0.0
    requires forall f :: f in fs && f in row && f != "loudness" ==> 0.0 <= row[f] <= 1.0
    ensures 0.0 <= EntrySum(row, ws, fs) <= TotalWeight(ws)
  {
    if |ws| > 0 {
      EntryWithin(row, ws[0].0, ws[0].1, fs);
      EntrySumWithin(row, ws[1..], fs);
    }
  }

  /** One entry adds a value within [0, w]. */
  lemma EntryWithin(row: Row, k: string, w: real, fs: seq<string>)
    requires w >= 0.0
    requires forall f :: f in fs && f in row && f != "loudness" ==> 0.0 <= row[f] <= 1.0
    ensures 0.0 <= Entry(row, k, w, fs) <= w
  {
    if k in fs && k in row {
      var v := Normalized(row, k);
      if k == "loudness" {
        assert v == NormalizeLoudness(row[k]);
      } else {
        assert v == row[k];
      }
      UnitScale(v, w);
      assert Entry(row, k, w, fs) == v * w;
    }
  }

  lemma UnitScale(v: real, w: real)
    requires 0.0 <= v <= 1.0 && w >= 0.0
    ensures 0.0 <= v * w <= w
  {
    assert v * w <= 1.0 * w;
  }

  /** With non-negative weights and every scored feature other than
      loudness within [0, 1], the score is within [0, 1]; tempo, left
      unscaled, is what breaks this on real rows. */
  lemma ScoreWithinUnitInterval(row: Row, ws: Weights)
    requires DistinctKeys(ws)
    requires forall i :: 0 <= i < |ws| ==> ws[i].1 >= 0.0
    requires forall f :: f in ScoredFeatures && f in row && f != "loudness" ==> 0.0 <= row[f] <= 1.0
    ensures 0.0 <= CustomScore(row, ws) <= 1.0
  {
    EntrySumWithin(row, ws, ScoredFeatures);
    NonNegativeTotal(ws);
    var total := TotalWeight(ws);
    if total > 0.0 {
      ScaledWithin(CustomScore(row, ws), total, EntrySum(row, ws, ScoredFeatures), 0.0, 1.0);
    }
  }

  /** The numeric columns of a track as a table row. */
  function RowOf(t: Track): (row: Row)
    ensures forall f :: Name(f) in row && row[Name(f)] == t.audio.Get(f)
  {
    map["danceability" := t.audio.danceability, "energy" := t.audio.energy,
        "loudness" := t.audio.loudness, "speechiness" := t.audio.speechiness,
        "acousticness" := t.audio.acousticness, "instrumentalness" := t.audio.instrumentalness,
        "liveness" := t.audio.liveness, "valence" := t.audio.valence, "tempo" := t.audio.tempo,
        "popularity" := t.popularity as real, "year" := t.year as real]
  }

  /** On a track, a single positive weight on any feature but loudness
      scores exactly that feature's raw value. */
  lemma TrackSingleFeatureScore(t: Track, f: Feature, w: real)
    requires f != Loudness && w > 0.0
    ensures CustomScore(RowOf(t), [(Name(f), w)]) == t.audio.Get(f)
  {
    assert Name(f) in ScoredFeatures;
    SingleFeatureScore(RowOf(t), Name(f), w);
  }
}
