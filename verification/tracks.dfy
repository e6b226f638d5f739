/** The track table shared by the Python half of the dashboard: one record
    per track with a release year, a genre label, nine audio features and a
    popularity score. */
module Tracks {

  /** The nine audio features, in the order the aggregators list them. */
  datatype Feature =
    | Danceability | Energy | Loudness | Speechiness | Acousticness
    | Instrumentalness | Liveness | Valence | Tempo

  /** Column name of a feature. */
  function Name(f: Feature): string
  {
    match f
    case Danceability => "danceability"
    case Energy => "energy"
    case Loudness => "loudness"
    case Speechiness => "speechiness"
    case Acousticness => "acousticness"
    case Instrumentalness => "instrumentalness"
    case Liveness => "liveness"
    case Valence => "valence"
    case Tempo => "tempo"
  }

  /** The default feature list of both aggregators. */
  const DefaultFeatures: seq<Feature> :=
    [Danceability, Energy, Loudness, Speechiness, Acousticness,
     Instrumentalness, Liveness, Valence, Tempo]

  /** The ten genre labels the generator draws from. */
  const Genres: seq<string> :=
    ["Pop", "Rock", "Hip-Hop", "Electronic", "Classical", "Jazz", "Country", "R&B", "Latin", "Folk"]

  datatype AudioFeatures = AudioFeatures(
    danceability: real,
    energy: real,
    loudness: real,
    speechiness: real,
    acousticness: real,
    instrumentalness: real,
    liveness: real,
    valence: real,
    tempo: real)
  {
    /** The value of one feature column. */
    function Get(f: Feature): real
    {
      match f
      case Danceability => danceability
      case Energy => energy
      case Loudness => loudness
      case Speechiness => speechiness
      case Acousticness => acousticness
      case Instrumentalness => instrumentalness
      case Liveness => liveness
      case Valence => valence
      case Tempo => tempo
    }
  }

  datatype Track = Track(
    id: string,
    name: string,
    artist: string,
    year: int,
    genre: string,
    audio: AudioFeatures,
    popularity: int)

  /** Declared lower bound of a feature: loudness lies within [-10, 0],
      tempo within [60, 200] and every other feature within [0, 1]. */
  function Lower(f: Feature): real
  {
    match f
    case Loudness => -10.0
    case Tempo => 60.0
    case _ => 0.0
  }

  /** Declared upper bound of a feature. */
  function Upper(f: Feature): real
  {
    match f
    case Loudness => 0.0
    case Tempo => 200.0
    case _ => 1.0
  }

  /** The declared ranges of a track: a year from 1924 to 2024, one of the
      ten genres, popularity 0..99 and every feature within its bounds. */
  predicate WithinBounds(t: Track)
  {
    && 1924 <= t.year <= 2024
    && t.genre in Genres
    && 0 <= t.popularity <= 99
    && (forall f :: Lower(f) <= t.audio.Get(f) <= Upper(f))
  }

  /** Different features have different column names. */
  lemma NameInjective(f: Feature, g: Feature)
    requires Name(f) == Name(g)
    ensures f == g
  {
  }
}
