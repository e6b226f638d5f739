/** The synthetic track generator: base values come from a seeded random
    stream, which the model takes as input (`Draw`), and a linear drift over
    the years is then applied to energy, danceability and acousticness. */
module Generator {
  import opened Stats
  import opened Tracks

  /** The values drawn at random for one track. */
  datatype Draw = Draw(year: int, genre: string, artist: nat, base: AudioFeatures, popularity: int)

  /** The ranges the generator draws from: years 1924..2024, one of the ten
      genres, artists 0..499, each feature uniform over its half-open range
      and popularity 0..99. */
  predicate ValidDraw(d: Draw)
  {
    && 1924 <= d.year <= 2024
    && d.genre in Genres
    && 0 <= d.artist < 500
    && 0.4 <= d.base.danceability < 0.9
    && 0.3 <= d.base.energy < 0.95
    && -10.0 <= d.base.loudness < 0.0
    && 0.0 <= d.base.speechiness < 0.5
    && 0.0 <= d.base.acousticness < 1.0
    && 0.0 <= d.base.instrumentalness < 0.8
    && 0.0 <= d.base.liveness < 1.0
    && 0.2 <= d.base.valence < 0.9
    && 60.0 <= d.base.tempo < 200.0
    && 0 <= d.popularity < 100
  }

  /** Position of a year between 1924 (0) and 2024 (1). */
  function YearsNorm(year: int): real
  {
    (year - 1924) as real / 100.0
  }

  function DriftEnergy(year: int, e: real): (r: real)
    ensures 0.0 <= r <= 1.0
    ensures year == 1924 && 0.0 <= e <= 1.0 ==> r == e
  {
    Clamp(e + YearsNorm(year) * 0.2, 0.0, 1.0)
  }

  function DriftDanceability(year: int, d: real): (r: real)
    ensures 0.0 <= r <= 1.0
    ensures year == 1924 && 0.0 <= d <= 1.0 ==> r == d
  {
    Clamp(d + YearsNorm(year) * 0.15, 0.0, 1.0)
  }

  function DriftAcousticness(year: int, a: real): (r: real)
    ensures 0.0 <= r <= 1.0
    ensures year == 1924 && 0.0 <= a <= 1.0 ==> r == a
  {
    Clamp(a - YearsNorm(year) * 0.3, 0.0, 1.0)
  }

  /** The drift step applied to one row: only energy, danceability and
      acousticness move. */
  function Drift(year: int, a: AudioFeatures): (r: AudioFeatures)
    ensures forall f :: f != Energy && f != Danceability && f != Acousticness ==> r.Get(f) == a.Get(f)
    ensures 0.0 <= r.energy <= 1.0 && 0.0 <= r.danceability <= 1.0 && 0.0 <= r.acousticness <= 1.0
  {
    a.(energy := DriftEnergy(year, a.energy),
       danceability := DriftDanceability(year, a.danceability),
       acousticness := DriftAcousticness(year, a.acousticness))
  }

  /** Decimal digits of a natural number, as Python's `str` writes it. */
  function NatToString(n: nat): (s: string)
    ensures |s| > 0
    ensures forall i :: 0 <= i < |s| ==> '0' <= s[i] <= '9'
  {
    if n < 10 then [Digit(n)] else NatToString(n / 10) + [Digit(n % 10)]
  }

  function Digit(d: nat): (c: char)
    requires d < 10
    ensures '0' <= c <= '9'
  {
    ['0', '1', '2', '3', '4', '5', '6', '7', '8', '9'][d]
  }

  /** The number a string of decimal digits denotes. */
  function DigitsValue(s: string): nat
    requires forall i :: 0 <= i < |s| ==> '0' <= s[i] <= '9'
  {
    if |s| == 0 then 0 else DigitsValue(s[..|s| - 1]) * 10 + (s[|s| - 1] as int - '0' as int)
  }

  /** Reading back the decimal digits gives the number that was written. */
  lemma {:induction false} NatToStringRoundTrip(n: nat)
    ensures DigitsValue(NatToString(n)) == n
  {
    if n >= 10 {
      NatToStringRoundTrip(n / 10);
      var s := NatToString(n);
      assert s[..|s| - 1] == NatToString(n / 10);
    }
  }

  /** The track built from the draw at position `i`. */
  function MakeTrack(i: nat, d: Draw): Track
  {
    Track("track_" + NatToString(i), "Track " + NatToString(i), "Artist " + NatToString(d.artist),
          d.year, d.genre, Drift(d.year, d.base), d.popularity)
  }

  /** `generate_spotify_data` with the random draws given: one track per draw,
      in order, with the drift step applied. */
  function Generate(draws: seq<Draw>): (ts: seq<Track>)
    ensures |ts| == |draws|
    ensures forall i :: 0 <= i < |ts| ==> ts[i].id == "track_" + NatToString(i)
    ensures forall i :: 0 <= i < |ts| ==>
      && ts[i].year == draws[i].year
      && ts[i].genre == draws[i].genre
      && ts[i].popularity == draws[i].popularity
      && ts[i].audio == Drift(draws[i].year, draws[i].base)
  {
    seq(|draws|, i requires 0 <= i < |draws| => MakeTrack(i, draws[i]))
  }

  /** Every generated track respects the declared bounds, whatever the draws
      within their ranges. */
  lemma GenerateWithinBounds(draws: seq<Draw>)
    requires forall i :: 0 <= i < |draws| ==> ValidDraw(draws[i])
    ensures forall i :: 0 <= i < |draws| ==> WithinBounds(Generate(draws)[i])
  {
    var ts := Generate(draws);
    forall i | 0 <= i < |draws| ensures WithinBounds(ts[i]) {
      var a := ts[i].audio;
      forall f ensures Lower(f) <= a.Get(f) <= Upper(f) {
        if f != Energy && f != Danceability && f != Acousticness {
          assert a.Get(f) == draws[i].base.Get(f);
        }
      }
    }
  }

  /** Track ids are pairwise distinct. */
  lemma GenerateIdsDistinct(draws: seq<Draw>, i: nat, j: nat)
    requires i < |draws| && j < |draws| && i != j
    ensures Generate(draws)[i].id != Generate(draws)[j].id
  {
    var ts := Generate(draws);
    if ts[i].id == ts[j].id {
      assert NatToString(i) == ts[i].id[6..];
      assert NatToString(j) == ts[j].id[6..];
      NatToStringRoundTrip(i);
      NatToStringRoundTrip(j);
    }
  }

  /** For a fixed base value, drifted energy and danceability never fall as
      the year grows, and drifted acousticness never rises. */
  lemma DriftMonotone(y1: int, y2: int, base: real)
    requires y1 <= y2
    ensures DriftEnergy(y1, base) <= DriftEnergy(y2, base)
    ensures DriftDanceability(y1, base) <= DriftDanceability(y2, base)
    ensures DriftAcousticness(y1, base) >= DriftAcousticness(y2, base)
  {
    assert YearsNorm(y1) <= YearsNorm(y2);
    ClampMonotone(base + YearsNorm(y1) * 0.2, base + YearsNorm(y2) * 0.2, 0.0, 1.0);
    ClampMonotone(base + YearsNorm(y1) * 0.15, base + YearsNorm(y2) * 0.15, 0.0, 1.0);
    ClampMonotone(base - YearsNorm(y2) * 0.3, base - YearsNorm(y1) * 0.3, 0.0, 1.0);
  }
}
