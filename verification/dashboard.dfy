/** The dashboard's client-side logic (docs/dashboard-script-cwm.js) over
    the rows `parseCSV` builds: genre classification, the trends chart's
    filter and per-year averages, the anomaly chart's filter, the year
    slider handlers, the genre toggle and the hit-song split. Drawing,
    the DOM and the network are not modelled. */
module Dashboard {
  import opened Optional
  import opened Stats
  import opened Sorting
  import opened Csv

  // ---------------------------------------------------------------------
  // JavaScript's view of a row property

  /** `obj[key]`: the cell, or `undefined` (`None`). */
  function Get(obj: Obj, key: string): (c: Option<Cell>)
    ensures c.Some? <==> key in obj
    ensures c.Some? ==> c.value == obj[key]
  {
    if key in obj then Some(obj[key]) else None
  }

  /** `v || d` used as a number. A falsy value (`undefined`, `0`, `''`,
      `NaN`) gives `d`; a number other than zero is itself; a non-empty
      string, which the parser keeps only when it is not numeric, is `NaN`
      (`None`) under the comparison or subtraction that follows. */
  function OrDefault(c: Option<Cell>, d: real): (r: Option<real>)
    ensures r.None? <==> c.Some? && c.value.Text? && c.value.s != ""
    ensures c.Some? && c.value.Num? && c.value.x != 0.0 ==> r == Some(c.value.x)
    ensures (c.None? || c.value.NotANumber? || c == Some(Text("")) || c == Some(Num(0.0))) ==> r == Some(d)
  {
    match c
    case None => Some(d)
    case Some(Num(x)) => if x == 0.0 then Some(d) else Some(x)
    case Some(Text(s)) => if s == "" then Some(d) else None
    case Some(NotANumber) => Some(d)
  }

  /** `a > k`: false when `a` is `NaN`. */
  predicate Above(a: Option<real>, k: real)
  {
    a.Some? && a.value > k
  }

  /** `a < k`: false when `a` is `NaN`. */
  predicate Below(a: Option<real>, k: real)
  {
    a.Some? && a.value < k
  }

  // ---------------------------------------------------------------------
  // classifyGenre

  /** The four properties `classifyGenre` reads, each as `track.f || 0`
      (`tempo` is read too but never used). */
  datatype Mood = Mood(energy: Option<real>, danceability: Option<real>,
                       acousticness: Option<real>, valence: Option<real>)

  /** The properties of a row that `classifyGenre` looks at. */
  function MoodOf(t: Obj): Mood
  {
    Mood(OrDefault(Get(t, "energy"), 0.0), OrDefault(Get(t, "danceability"), 0.0),
         OrDefault(Get(t, "acousticness"), 0.0), OrDefault(Get(t, "valence"), 0.0))
  }

  /** The labels `classifyGenre` can return. */
  const GenreLabels: set<string> := {"jazz", "electronic", "hip-hop", "rock", "pop"}

  /** `classifyGenre`: the first matching heuristic wins, `pop` otherwise.
      Acoustic tracks are always jazz, and each other label implies the
      thresholds its rule tests. */
  function Classify(m: Mood): (g: string)
    ensures g in GenreLabels
    ensures Above(m.acousticness, 0.6) ==> g == "jazz"
    ensures g == "electronic" ==> Above(m.energy, 0.7) && Above(m.danceability, 0.7)
    ensures g == "hip-hop" ==> Above(m.energy, 0.6) && Above(m.danceability, 0.5) && Below(m.valence, 0.6)
    ensures g == "rock" ==> Above(m.energy, 0.7) && !Above(m.danceability, 0.7)
  {
    if Above(m.acousticness, 0.6) then "jazz"
    else if Above(m.energy, 0.7) && Above(m.danceability, 0.7) then "electronic"
    else if Above(m.energy, 0.6) && Above(m.danceability, 0.5) && Below(m.valence, 0.6) then "hip-hop"
    else if Above(m.energy, 0.7) then "rock"
    else if Above(m.danceability, 0.7) then "pop"
    else if Below(m.valence, 0.4) then "jazz"
    else "pop"
  }

  /** The genre of a row. */
  function ClassifyGenre(t: Obj): (g: string)
    ensures g in GenreLabels
  {
    Classify(MoodOf(t))
  }

  /** One heuristic: a test and the label it gives. */
  datatype Rule = Rule(holds: Mood -> bool, genre: string)

  /** The heuristics of `classifyGenre` as a table, in order. */
  const GenreRules: seq<Rule> := [
    Rule((m: Mood) => Above(m.acousticness, 0.6), "jazz"),
    Rule((m: Mood) => Above(m.energy, 0.7) && Above(m.danceability, 0.7), "electronic"),
    Rule((m: Mood) => Above(m.energy, 0.6) && Above(m.danceability, 0.5) && Below(m.valence, 0.6), "hip-hop"),
    Rule((m: Mood) => Above(m.energy, 0.7), "rock"),
    Rule((m: Mood) => Above(m.danceability, 0.7), "pop"),
    Rule((m: Mood) => Below(m.valence, 0.4), "jazz")
  ]

  /** The label of the first rule that holds, else `fallback`. */
  function FirstMatch(rules: seq<Rule>, m: Mood, fallback: string): string
  {
    if |rules| == 0 then fallback
    else if rules[0].holds(m) then rules[0].genre
    else FirstMatch(rules[1..], m, fallback)
  }

  /** `classifyGenre` is the first-match reading of its rule table. */
  lemma ClassifyIsFirstMatch(m: Mood)
    ensures Classify(m) == FirstMatch(GenreRules, m, "pop")
  {
    var r := GenreRules;
    assert FirstMatch(r[5..], m, "pop") == if Below(m.valence, 0.4) then "jazz" else "pop";
    assert FirstMatch(r[4..], m, "pop") == if Above(m.danceability, 0.7) then "pop" else FirstMatch(r[5..], m, "pop");
    assert FirstMatch(r[3..], m, "pop") == if Above(m.energy, 0.7) then "rock" else FirstMatch(r[4..], m, "pop");
    assert FirstMatch(r[2..], m, "pop") ==
      if Above(m.energy, 0.6) && Above(m.danceability, 0.5) && Below(m.valence, 0.6) then "hip-hop" else FirstMatch(r[3..], m, "pop");
    assert FirstMatch(r[1..], m, "pop") ==
      if Above(m.energy, 0.7) && Above(m.danceability, 0.7) then "electronic" else FirstMatch(r[2..], m, "pop");
  }

  /** A row with none of the four properties reads them all as 0, and a
      valence of 0 makes it jazz. */
  lemma FeaturelessIsJazz()
    ensures ClassifyGenre(map[]) == "jazz"
  {
    assert MoodOf(map[]) == Mood(Some(0.0), Some(0.0), Some(0.0), Some(0.0));
  }

  /** A text valence never compares below a threshold, so a track that
      would be jazz for its low valence falls back to pop instead. */
  lemma TextValenceIsPop(m: Mood)
    requires m.valence.None?
    requires !Above(m.acousticness, 0.6) && !Above(m.energy, 0.7) && !Above(m.danceability, 0.7)
    ensures Classify(m) == "pop"
  {
  }

  // ---------------------------------------------------------------------
  // The trends chart: which rows are shown

  /** `t.year || 0` inside the slider range. A text year is `NaN`, which
      compares false both ways, so it is never excluded. */
  predicate InYearRange(t: Obj, yearStart: int, yearEnd: int)
  {
    var y := OrDefault(Get(t, "year"), 0.0);
    !(Below(y, yearStart as real) || Above(y, yearEnd as real))
  }

  /** The trends filter: rows in the year range whose genre is selected,
      in their order. */
  function TrendRows(tracks: seq<Obj>, yearStart: int, yearEnd: int, selected: set<string>): (r: seq<Obj>)
    ensures |r| <= |tracks|
    ensures forall i :: 0 <= i < |r| ==> InYearRange(r[i], yearStart, yearEnd) && ClassifyGenre(r[i]) in selected
  {
    if |tracks| == 0 then []
    else
      var t := tracks[0];
      (if InYearRange(t, yearStart, yearEnd) && ClassifyGenre(t) in selected then [t] else [])
        + TrendRows(tracks[1..], yearStart, yearEnd, selected)
  }

  /** A row is kept if and only if it occurs and passes both tests. */
  lemma {:induction false} TrendRowsMembers(tracks: seq<Obj>, yearStart: int, yearEnd: int, selected: set<string>)
    ensures forall t :: t in TrendRows(tracks, yearStart, yearEnd, selected) <==>
      t in tracks && InYearRange(t, yearStart, yearEnd) && ClassifyGenre(t) in selected
  {
    if |tracks| > 0 {
      TrendRowsMembers(tracks[1..], yearStart, yearEnd, selected);
      assert forall t :: t in tracks <==> t == tracks[0] || t in tracks[1..];
    }
  }

  /** Filtering a concatenation concatenates the parts' kept rows: with `TrendRowsOne`, the kept rows stay in row order. */
  lemma {:induction false} TrendRowsAppend(a: seq<Obj>, b: seq<Obj>, yearStart: int, yearEnd: int, selected: set<string>)
    ensures TrendRows(a + b, yearStart, yearEnd, selected) == TrendRows(a, yearStart, yearEnd, selected) + TrendRows(b, yearStart, yearEnd, selected)
  {
    if |a| == 0 {
      assert a + b == b;
    } else {
      var head := if InYearRange(a[0], yearStart, yearEnd) && ClassifyGenre(a[0]) in selected then [a[0]] else [];
      calc {
        TrendRows(a + b, yearStart, yearEnd, selected);
      == { assert (a + b)[0] == a[0] && (a + b)[1..] == a[1..] + b; }
        head + TrendRows(a[1..] + b, yearStart, yearEnd, selected);
      == { TrendRowsAppend(a[1..], b, yearStart, yearEnd, selected); }
        head + (TrendRows(a[1..], yearStart, yearEnd, selected) + TrendRows(b, yearStart, yearEnd, selected));
      ==
        (head + TrendRows(a[1..], yearStart, yearEnd, selected)) + TrendRows(b, yearStart, yearEnd, selected);
      }
    }
  }

  /** A single row is kept when it passes both tests. */
  lemma TrendRowsOne(t: Obj, yearStart: int, yearEnd: int, selected: set<string>)
    ensures TrendRows([t], yearStart, yearEnd, selected) == if InYearRange(t, yearStart, yearEnd) && ClassifyGenre(t) in selected then [t] else []
  {
  }

  /** Each passing row is kept as often as it occurs; no other row is kept. */
  lemma {:induction false} TrendRowsCounts(s: seq<Obj>, yearStart: int, yearEnd: int, selected: set<string>)
    ensures forall t ::
      multiset(TrendRows(s, yearStart, yearEnd, selected))[t] == if InYearRange(t, yearStart, yearEnd) && ClassifyGenre(t) in selected then multiset(s)[t] else 0
  {
    if |s| > 0 {
      TrendRowsCounts(s[1..], yearStart, yearEnd, selected);
      assert s == [s[0]] + s[1..];
    }
  }

  /** A row whose `year` is a non-numeric string passes every range. */
  lemma TextYearInEveryRange(t: Obj, yearStart: int, yearEnd: int)
    requires "year" in t && t["year"].Text? && t["year"].s != ""
    ensures InYearRange(t, yearStart, yearEnd)
  {
  }

  /** A row with no year counts as year 0: it is shown exactly when the
      range reaches 0. */
  lemma MissingYearIsZero(t: Obj, yearStart: int, yearEnd: int)
    requires "year" !in t
    ensures InYearRange(t, yearStart, yearEnd) <==> yearStart <= 0 <= yearEnd
  {
  }

  // ---------------------------------------------------------------------
  // Year sliders and genre pills

  /** The two slider values. */
  datatype YearRange = YearRange(start: int, end: int)

  /** The start slider's `input` handler: the new start, pulled down to
      the end when it passes it; the end stays. */
  function OnStartInput(start: int, end: int): (r: YearRange)
    ensures r.end == end && r.start <= end
    ensures start <= end ==> r.start == start
    ensures start > end ==> r.start == end
  {
    if start > end then YearRange(end, end) else YearRange(start, end)
  }

  /** The end slider's `input` handler: the new end, pushed up to the
      start when it falls below it; the start stays. */
  function OnEndInput(start: int, end: int): (r: YearRange)
    ensures r.start == start && start <= r.end
    ensures start <= end ==> r.end == end
    ensures end < start ==> r.end == start
  {
    if end < start then YearRange(start, start) else YearRange(start, end)
  }

  /** Each handler leaves an ordered range alone, and applying it to its
      own result changes nothing. */
  lemma SliderHandlersSettle(start: int, end: int)
    ensures start <= end ==> OnStartInput(start, end) == YearRange(start, end)
    ensures start <= end ==> OnEndInput(start, end) == YearRange(start, end)
    ensures var r := OnStartInput(start, end); OnStartInput(r.start, r.end) == r
    ensures var r := OnEndInput(start, end); OnEndInput(r.start, r.end) == r
  {
  }

  /** The genres selected when the page loads. */
  const InitialGenres: set<string> := {"pop", "rock", "hip-hop"}

  /** A pill click: the clicked genre flips, every other one stays. */
  function Toggle(selected: set<string>, genre: string): (r: set<string>)
    ensures genre in r <==> genre !in selected
    ensures forall g :: g != genre ==> (g in r <==> g in selected)
  {
    if genre in selected then selected - {genre} else selected + {genre}
  }

  /** On load the trends chart shows pop, rock and hip-hop rows and hides
      jazz and electronic ones. */
  lemma InitialSelection(t: Obj)
    ensures ClassifyGenre(t) in InitialGenres <==> ClassifyGenre(t) != "jazz" && ClassifyGenre(t) != "electronic"
  {
  }

  /** Clicking a pill twice restores the selection. */
  lemma ToggleTwice(selected: set<string>, genre: string)
    ensures Toggle(Toggle(selected, genre), genre) == selected
  {
  }

  /** Clicks on different pills commute. */
  lemma ToggleCommutes(selected: set<string>, g1: string, g2: string)
    ensures Toggle(Toggle(selected, g1), g2) == Toggle(Toggle(selected, g2), g1)
  {
  }

  // ---------------------------------------------------------------------
  // The trends chart: per-year averages

  /** The year a row is plotted under: `t.year || 0`, kept when above 0.
      Only a positive numeric year qualifies. */
  function PlotYear(t: Obj): (y: Option<real>)
    ensures y.Some? <==> "year" in t && t["year"].Num? && t["year"].x > 0.0
    ensures y.Some? ==> y.value == t["year"].x
  {
    var y := OrDefault(Get(t, "year"), 0.0);
    if Above(y, 0.0) then y else None
  }

  /** Whether a row contributes to the per-year lists: a plotted year and
      a present value of `feature` that `accept` lets through. */
  predicate Counts(t: Obj, feature: string, accept: Cell -> bool)
  {
    PlotYear(t).Some? && feature in t && accept(t[feature])
  }

  /** The plotted years of the contributing rows, in row order. */
  function YearsWith(tracks: seq<Obj>, feature: string, accept: Cell -> bool): (ys: seq<real>)
    ensures |ys| <= |tracks|
    decreases |tracks|
  {
    if |tracks| == 0 then []
    else
      var t := tracks[|tracks| - 1];
      YearsWith(tracks[..|tracks| - 1], feature, accept) + (if Counts(t, feature, accept) then [PlotYear(t).value] else [])
  }

  /** `yearData[y]`: the accepted cells of the rows plotted under `y`, in
      row order. */
  function CellsAt(tracks: seq<Obj>, feature: string, y: real, accept: Cell -> bool): (cs: seq<Cell>)
    ensures |cs| <= |tracks|
    ensures forall i :: 0 <= i < |cs| ==> accept(cs[i])
    decreases |tracks|
  {
    if |tracks| == 0 then []
    else
      var t := tracks[|tracks| - 1];
      CellsAt(tracks[..|tracks| - 1], feature, y, accept)
        + (if Counts(t, feature, accept) && PlotYear(t) == Some(y) then [t[feature]] else [])
  }

  /** Collecting over a concatenation concatenates the parts' cells: with
      `CellsAtOne`, the list holds the matching rows' cells in row order,
      each row contributing once. */
  lemma {:induction false} CellsAtAppend(a: seq<Obj>, b: seq<Obj>, feature: string, y: real, accept: Cell -> bool)
    ensures CellsAt(a + b, feature, y, accept) == CellsAt(a, feature, y, accept) + CellsAt(b, feature, y, accept)
    decreases |b|
  {
    if |b| == 0 {
      assert a + b == a;
    } else {
      var n := |b| - 1;
      var t := b[n];
      var tail := if Counts(t, feature, accept) && PlotYear(t) == Some(y) then [t[feature]] else [];
      calc {
        CellsAt(a + b, feature, y, accept);
      == { assert (a + b)[|a + b| - 1] == t && (a + b)[..|a + b| - 1] == a + b[..n]; }
        CellsAt(a + b[..n], feature, y, accept) + tail;
      == { CellsAtAppend(a, b[..n], feature, y, accept); }
        (CellsAt(a, feature, y, accept) + CellsAt(b[..n], feature, y, accept)) + tail;
      ==
        CellsAt(a, feature, y, accept) + (CellsAt(b[..n], feature, y, accept) + tail);
      }
    }
  }

  /** A single row adds its cell when it is plotted under `y` and its cell
      is admitted, and nothing otherwise. */
  lemma CellsAtOne(t: Obj, feature: string, y: real, accept: Cell -> bool)
    ensures CellsAt([t], feature, y, accept) ==
      if Counts(t, feature, accept) && PlotYear(t) == Some(y) then [t[feature]] else []
  {
  }

  /** A year that occurs has at least one cell. */
  lemma {:induction false} CellsAtNonEmpty(tracks: seq<Obj>, feature: string, y: real, accept: Cell -> bool)
    requires y in YearsWith(tracks, feature, accept)
    ensures |CellsAt(tracks, feature, y, accept)| > 0
    decreases |tracks|
  {
    var n := |tracks| - 1;
    var t := tracks[n];
    if !(Counts(t, feature, accept) && PlotYear(t) == Some(y)) {
      CellsAtNonEmpty(tracks[..n], feature, y, accept);
    }
  }

  /** A year occurs exactly when some contributing row is plotted under it. */
  lemma {:induction false} YearsWithMembers(tracks: seq<Obj>, feature: string, accept: Cell -> bool, y: real)
    ensures y in YearsWith(tracks, feature, accept) <==>
      exists i :: 0 <= i < |tracks| && Counts(tracks[i], feature, accept) && PlotYear(tracks[i]) == Some(y)
    decreases |tracks|
  {
    if |tracks| > 0 {
      var n := |tracks| - 1;
      YearsWithMembers(tracks[..n], feature, accept, y);
      if exists i :: 0 <= i < |tracks| && Counts(tracks[i], feature, accept) && PlotYear(tracks[i]) == Some(y) {
        var i :| 0 <= i < |tracks| && Counts(tracks[i], feature, accept) && PlotYear(tracks[i]) == Some(y);
        if i < n {
          assert tracks[..n][i] == tracks[i];
        }
      }
    }
  }

  /** Two filters that agree on every present cell give the same lists. */
  lemma {:induction false} SameAcceptance(tracks: seq<Obj>, feature: string, a1: Cell -> bool, a2: Cell -> bool, y: real)
    requires forall i :: 0 <= i < |tracks| && feature in tracks[i] ==> a1(tracks[i][feature]) == a2(tracks[i][feature])
    ensures YearsWith(tracks, feature, a1) == YearsWith(tracks, feature, a2)
    ensures CellsAt(tracks, feature, y, a1) == CellsAt(tracks, feature, y, a2)
    decreases |tracks|
  {
    if |tracks| > 0 {
      var n := |tracks| - 1;
      assert forall i :: 0 <= i < n ==> tracks[..n][i] == tracks[i];
      SameAcceptance(tracks[..n], feature, a1, a2, y);
    }
  }

  /** Strict order on reals. */
  predicate RealLt(a: real, b: real)
  {
    a < b
  }

  /** `<` on reals is a strict total order. */
  lemma RealLtStrictTotal()
    ensures StrictTotal(RealLt)
  {
  }

  /** `Object.keys(yearData).map(Number).sort((a, b) => a - b)`: the
      distinct plotted years, strictly ascending. */
  function SortedYears(tracks: seq<Obj>, feature: string, accept: Cell -> bool): (ys: seq<real>)
    ensures Ascending(ys, RealLt)
    ensures forall y :: y in ys <==> y in YearsWith(tracks, feature, accept)
  {
    RealLtStrictTotal();
    SortedDistinct(YearsWith(tracks, feature, accept), RealLt)
  }

  /** `Math.round(avg * 1000) / 1000`: a whole number of thousandths,
      within half a thousandth. */
  function RoundMilli(x: real): (r: real)
    ensures x - 0.0005 < r <= x + 0.0005
    ensures (r * 1000.0).Floor as real == r * 1000.0
  {
    (RoundHalfUp(x * 1000.0) as real) / 1000.0
  }

  /** The cell test of the corrected trend: numbers only. */
  predicate IsNumber(c: Cell)
  {
    c.Num?
  }

  /** The numbers held by numeric cells. */
  function Numbers(cs: seq<Cell>): (xs: seq<real>)
    requires forall i :: 0 <= i < |cs| ==> cs[i].Num?
    ensures |xs| == |cs|
    ensures forall i :: 0 <= i < |cs| ==> cs[i] == Num(xs[i])
  {
    if |cs| == 0 then [] else [cs[0].x] + Numbers(cs[1..])
  }

  /** Reading the numbers of two lists of cells in turn. */
  lemma {:induction false} NumbersAppend(x: seq<Cell>, y: seq<Cell>)
    requires forall i :: 0 <= i < |x| ==> x[i].Num?
    requires forall i :: 0 <= i < |y| ==> y[i].Num?
    ensures Numbers(x + y) == Numbers(x) + Numbers(y)
  {
    if |x| > 0 {
      assert (x + y)[1..] == x[1..] + y;
      NumbersAppend(x[1..], y);
    }
  }

  /** One point of the trends chart. */
  datatype Point = Point(year: real, value: real)

  /** The point for a year that occurs: the mean of that year's numbers,
      rounded to a whole number of thousandths. */
  function YearPoint(tracks: seq<Obj>, feature: string, y: real): (p: Point)
    requires y in YearsWith(tracks, feature, IsNumber)
    ensures p.year == y
    ensures var xs := Numbers(CellsAt(tracks, feature, y, IsNumber));
      |xs| > 0 && Mean(xs) - 0.0005 < p.value <= Mean(xs) + 0.0005
    ensures (p.value * 1000.0).Floor as real == p.value * 1000.0
  {
    CellsAtNonEmpty(tracks, feature, y, IsNumber);
    Point(y, RoundMilli(Mean(Numbers(CellsAt(tracks, feature, y, IsNumber)))))
  }

  /** The trends series as intended: only numeric cells count. One point
      per year, years strictly ascending, each value a whole number of
      thousandths within half a thousandth of the mean of that year's
      numbers. */
  function Trend(tracks: seq<Obj>, feature: string): (ps: seq<Point>)
    ensures var ys := SortedYears(tracks, feature, IsNumber);
      |ps| == |ys| && forall i :: 0 <= i < |ps| ==> ps[i] == YearPoint(tracks, feature, ys[i])
    ensures forall i, j :: 0 <= i < j < |ps| ==> ps[i].year < ps[j].year
  {
    var ys := SortedYears(tracks, feature, IsNumber);
    seq(|ys|, i requires 0 <= i < |ys| => YearPoint(tracks, feature, ys[i]))
  }

  /** Appending a row without a numeric value adds no cell to any year. */
  lemma AppendIgnored(tracks: seq<Obj>, t: Obj, feature: string, y: real)
    requires feature !in t || !t[feature].Num?
    ensures YearsWith(tracks + [t], feature, IsNumber) == YearsWith(tracks, feature, IsNumber)
    ensures CellsAt(tracks + [t], feature, y, IsNumber) == CellsAt(tracks, feature, y, IsNumber)
  {
    var all := tracks + [t];
    assert all[..|all| - 1] == tracks;
    assert !Counts(t, feature, IsNumber);
  }

  /** A row whose value is blank, text or missing does not move the trend. */
  lemma BlankCellIgnored(tracks: seq<Obj>, t: Obj, feature: string)
    requires feature !in t || !t[feature].Num?
    ensures Trend(tracks + [t], feature) == Trend(tracks, feature)
  {
    var all := tracks + [t];
    AppendIgnored(tracks, t, feature, 0.0);
    var ys := SortedYears(all, feature, IsNumber);
    assert ys == SortedYears(tracks, feature, IsNumber);
    var ps, qs := Trend(all, feature), Trend(tracks, feature);
    forall i | 0 <= i < |ys| ensures ps[i] == qs[i] {
      AppendIgnored(tracks, t, feature, ys[i]);
    }
  }

  /** The trends chart over the filtered rows plots only years inside the
      slider range. */
  lemma TrendWithinRange(tracks: seq<Obj>, yearStart: int, yearEnd: int, selected: set<string>, feature: string)
    ensures var ps := Trend(TrendRows(tracks, yearStart, yearEnd, selected), feature);
      forall i :: 0 <= i < |ps| ==> yearStart as real <= ps[i].year <= yearEnd as real
  {
    var rows := TrendRows(tracks, yearStart, yearEnd, selected);
    var ps := Trend(rows, feature);
    forall i | 0 <= i < |ps| ensures yearStart as real <= ps[i].year <= yearEnd as real {
      var y := ps[i].year;
      assert y in SortedYears(rows, feature, IsNumber);
      YearsWithMembers(rows, feature, IsNumber, y);
      var j :| 0 <= j < |rows| && Counts(rows[j], feature, IsNumber) && PlotYear(rows[j]) == Some(y);
      assert InYearRange(rows[j], yearStart, yearEnd);
    }
  }

  /** One redraw of the trends chart: `None` when no row passes the year
      and genre filter, so the function returns early and the chart on
      screen stays as it was; otherwise the intended series over the
      filtered rows, whose years all lie inside the slider range. */
  function TrendChart(tracks: seq<Obj>, yearStart: int, yearEnd: int, selected: set<string>, feature: string): (r: Option<seq<Point>>)
    ensures r.None? <==>
      forall t :: t in tracks ==> !(InYearRange(t, yearStart, yearEnd) && ClassifyGenre(t) in selected)
    ensures r.Some? ==> r.value == Trend(TrendRows(tracks, yearStart, yearEnd, selected), feature)
    ensures r.Some? ==> forall i :: 0 <= i < |r.value| ==> yearStart as real <= r.value[i].year <= yearEnd as real
  {
    var rows := TrendRows(tracks, yearStart, yearEnd, selected);
    TrendRowsMembers(tracks, yearStart, yearEnd, selected);
    TrendWithinRange(tracks, yearStart, yearEnd, selected, feature);
    if |rows| == 0 then None
    else
      assert rows[0] in rows;
      Some(Trend(rows, feature))
  }

  // As written: the sum is JavaScript's `+`, which turns into string
  // concatenation as soon as a blank (empty string) cell is met.

  /** A JavaScript value met while summing: a number or a string. */
  datatype JsValue = JNum(x: real) | JStr(s: string)

  /** JavaScript's `+`: numbers add; when either side is a string the other
      is turned into one with `show` (`Number.prototype.toString`) and the
      two are concatenated. */
  function JsAdd(a: JsValue, b: JsValue, show: real -> string): (r: JsValue)
    ensures r.JNum? <==> a.JNum? && b.JNum?
    ensures r.JNum? ==> r.x == a.x + b.x
  {
    match (a, b)
    case (JNum(x), JNum(y)) => JNum(x + y)
    case (JNum(x), JStr(t)) => JStr(show(x) + t)
    case (JStr(s), JNum(y)) => JStr(s + show(y))
    case (JStr(s), JStr(t)) => JStr(s + t)
  }

  /** `vs.reduce((a, b) => a + b, acc)`. */
  function JsReduceSum(acc: JsValue, vs: seq<JsValue>, show: real -> string): JsValue
    decreases |vs|
  {
    if |vs| == 0 then acc else JsReduceSum(JsAdd(acc, vs[0], show), vs[1..], show)
  }

  /** The JavaScript values of cells that passed `isNaN`; a `NaN` cell
      never reaches the sum, so none is given. */
  function AsJs(cs: seq<Cell>): (vs: seq<JsValue>)
    requires forall i :: 0 <= i < |cs| ==> !cs[i].NotANumber?
    ensures |vs| == |cs|
  {
    if |cs| == 0 then []
    else [match cs[0] case Num(x) => JNum(x) case Text(s) => JStr(s) case NotANumber => JNum(0.0)] + AsJs(cs[1..])
  }

  /** Over numbers the reduction is the ordinary sum. */
  lemma {:induction false} ReduceNumbers(acc: real, cs: seq<Cell>, show: real -> string)
    requires forall i :: 0 <= i < |cs| ==> cs[i].Num?
    ensures JsReduceSum(JNum(acc), AsJs(cs), show) == JNum(acc + Sum(Numbers(cs)))
    decreases |cs|
  {
    if |cs| > 0 {
      ReduceNumbers(acc + cs[0].x, cs[1..], show);
      assert AsJs(cs)[1..] == AsJs(cs[1..]);
      assert Numbers(cs)[1..] == Numbers(cs[1..]);
    }
  }

  /** `Number(v)`: `None` is `NaN`; the empty string is 0. */
  function JsToNumber(v: JsValue, number: string -> Option<real>): Option<real>
  {
    match v
    case JNum(x) => Some(x)
    case JStr(s) => if s == "" then Some(0.0) else number(s)
  }

  /** `isNaN(cell)`: numbers are not, `NaN` is, and a string is when it is
      non-empty and `Number` rejects it. The empty string is not NaN. */
  predicate JsIsNaN(c: Cell, number: string -> Option<real>)
  {
    match c
    case Num(_) => false
    case NotANumber => true
    case Text(s) => s != "" && number(s).None?
  }

  /** The dashboard's mean: `values.reduce((a, b) => a + b, 0) / n`. */
  function JsMean(cs: seq<Cell>, show: real -> string, number: string -> Option<real>): (m: Option<real>)
    requires |cs| > 0
    requires forall i :: 0 <= i < |cs| ==> !cs[i].NotANumber?
    ensures (forall i :: 0 <= i < |cs| ==> cs[i].Num?) ==> m == Some(Mean(Numbers(cs)))
  {
    if forall i :: 0 <= i < |cs| ==> cs[i].Num? then
      ReduceNumbers(0.0, cs, show);
      JsDivide(JsToNumber(JsReduceSum(JNum(0.0), AsJs(cs), show), number), |cs|)
    else
      JsDivide(JsToNumber(JsReduceSum(JNum(0.0), AsJs(cs), show), number), |cs|)
  }

  /** `v / n` for a positive count. */
  function JsDivide(v: Option<real>, n: nat): Option<real>
    requires n > 0
  {
    if v.Some? then Some(v.value / n as real) else None
  }

  /** One point of the trends chart as written: `NaN` is `None`. */
  datatype WrittenPoint = WrittenPoint(year: real, value: Option<real>)

  /** The cell test of the loop as written: present and `!isNaN`. */
  function NotNaN(number: string -> Option<real>): Cell -> bool
  {
    (c: Cell) => !JsIsNaN(c, number)
  }

  /** The point for a year as written. */
  function WrittenYearPoint(tracks: seq<Obj>, feature: string, y: real,
                            show: real -> string, number: string -> Option<real>): (p: WrittenPoint)
    requires y in YearsWith(tracks, feature, NotNaN(number))
    ensures p.year == y
  {
    CellsAtNonEmpty(tracks, feature, y, NotNaN(number));
    var m := JsMean(CellsAt(tracks, feature, y, NotNaN(number)), show, number);
    WrittenPoint(y, if m.Some? then Some(RoundMilli(m.value)) else None)
  }

  /** The trends series as the loop computes it. */
  function WrittenTrend(tracks: seq<Obj>, feature: string, show: real -> string, number: string -> Option<real>): (ps: seq<WrittenPoint>)
    ensures var ys := SortedYears(tracks, feature, NotNaN(number));
      |ps| == |ys| && forall i :: 0 <= i < |ps| ==> ps[i].year == ys[i]
  {
    var ys := SortedYears(tracks, feature, NotNaN(number));
    seq(|ys|, i requires 0 <= i < |ys| => WrittenYearPoint(tracks, feature, ys[i], show, number))
  }

  /** With no blank cell (and text cells non-numeric, as the parser
      guarantees) the loop as written draws the intended trend. */
  lemma WrittenAgreesWithoutBlanks(tracks: seq<Obj>, feature: string, show: real -> string, number: string -> Option<real>)
    requires forall i :: 0 <= i < |tracks| && feature in tracks[i] ==>
      tracks[i][feature] != Text("") && (tracks[i][feature].Text? ==> number(tracks[i][feature].s).None?)
    ensures var w, t := WrittenTrend(tracks, feature, show, number), Trend(tracks, feature);
      |w| == |t| && forall i :: 0 <= i < |w| ==> w[i] == WrittenPoint(t[i].year, Some(t[i].value))
  {
    forall i | 0 <= i < |tracks| && feature in tracks[i]
      ensures IsNumber(tracks[i][feature]) == NotNaN(number)(tracks[i][feature])
    {
    }
    SameAcceptance(tracks, feature, IsNumber, NotNaN(number), 0.0);
    var ys := SortedYears(tracks, feature, IsNumber);
    assert ys == SortedYears(tracks, feature, NotNaN(number));
    var w, t := WrittenTrend(tracks, feature, show, number), Trend(tracks, feature);
    forall i | 0 <= i < |w| ensures w[i] == WrittenPoint(t[i].year, Some(t[i].value)) {
      SameAcceptance(tracks, feature, IsNumber, NotNaN(number), ys[i]);
      var cs := CellsAt(tracks, feature, ys[i], IsNumber);
      assert cs == CellsAt(tracks, feature, ys[i], NotNaN(number));
      CellsAtNonEmpty(tracks, feature, ys[i], IsNumber);
      assert JsMean(cs, show, number) == Some(Mean(Numbers(cs)));
    }
  }

  /** Three rows of the year 2000 whose `energy` cells are blank, 1 and 2. */
  function BlankExample(): seq<Obj>
  {
    [ map["year" := Num(2000.0), "energy" := Text("")],
      map["year" := Num(2000.0), "energy" := Num(1.0)],
      map["year" := Num(2000.0), "energy" := Num(2.0)] ]
  }

  /** The per-year lists of the example, numbers only. */
  lemma BlankExampleNumbers()
    ensures YearsWith(BlankExample(), "energy", IsNumber) == [2000.0, 2000.0]
    ensures CellsAt(BlankExample(), "energy", 2000.0, IsNumber) == [Num(1.0), Num(2.0)]
  {
    var ts := BlankExample();
    assert ts[..2][..1] == ts[..1];
    assert ts[..3] == ts;
    assert PlotYear(ts[1]) == Some(2000.0);
    assert PlotYear(ts[2]) == Some(2000.0);
  }

  /** The per-year lists of the example as written: the blank cell is kept. */
  lemma BlankExampleKept(number: string -> Option<real>)
    ensures YearsWith(BlankExample(), "energy", NotNaN(number)) == [2000.0, 2000.0, 2000.0]
    ensures CellsAt(BlankExample(), "energy", 2000.0, NotNaN(number)) == [Text(""), Num(1.0), Num(2.0)]
  {
    var ts := BlankExample();
    assert ts[..1][..0] == [];
    assert ts[..2][..1] == ts[..1];
    assert ts[..3] == ts;
    assert PlotYear(ts[0]) == Some(2000.0);
    assert PlotYear(ts[1]) == Some(2000.0);
    assert PlotYear(ts[2]) == Some(2000.0);
  }

  /** A strictly ascending list of two or more holds two different values. */
  lemma TwoDifferent(ys: seq<real>)
    requires Ascending(ys, RealLt)
    requires |ys| > 1
    ensures ys[0] in ys && ys[1] in ys && ys[0] != ys[1]
  {
    assert RealLt(ys[0], ys[1]);
  }

  /** A strictly ascending list whose only member is `y` is `[y]`. */
  lemma OnlyMember(ys: seq<real>, y: real)
    requires Ascending(ys, RealLt)
    requires y in ys
    requires forall z :: z in ys ==> z == y
    ensures ys == [y]
  {
    if |ys| > 1 {
      TwoDifferent(ys);
      assert false;
    }
  }

  /** `0 + "" + 1 + 2` is the string "012". */
  lemma BlankExampleSum(show: real -> string)
    requires show(0.0) == "0" && show(1.0) == "1" && show(2.0) == "2"
    ensures JsReduceSum(JNum(0.0), AsJs([Text(""), Num(1.0), Num(2.0)]), show) == JStr("012")
  {
    var vs := AsJs([Text(""), Num(1.0), Num(2.0)]);
    assert vs == [JStr(""), JNum(1.0), JNum(2.0)];
    assert JsAdd(JNum(0.0), JStr(""), show) == JStr("0");
    assert JsAdd(JStr("0"), JNum(1.0), show) == JStr("01");
    assert JsAdd(JStr("01"), JNum(2.0), show) == JStr("012");
    assert vs[1..][1..][1..] == [];
  }

  /** The dashboard's mean of blank, 1 and 2 is `Number("012") / 3`. */
  lemma BlankExampleMean(show: real -> string, number: string -> Option<real>)
    requires show(0.0) == "0" && show(1.0) == "1" && show(2.0) == "2"
    requires number("012") == Some(12.0)
    ensures JsMean([Text(""), Num(1.0), Num(2.0)], show, number) == Some(4.0)
  {
    var cs := [Text(""), Num(1.0), Num(2.0)];
    BlankExampleSum(show);
    assert !cs[0].Num?;
  }

  /** The mean of 1 and 2. */
  lemma OneTwoMean()
    ensures Mean(Numbers([Num(1.0), Num(2.0)])) == 1.5
  {
    var xs := Numbers([Num(1.0), Num(2.0)]);
    assert xs == [1.0, 2.0];
    assert xs[1..] == [2.0];
    assert xs[1..][1..] == [];
  }

  /** The example as written plots 4 for the year 2000. */
  lemma BlankExampleWritten(show: real -> string, number: string -> Option<real>)
    requires show(0.0) == "0" && show(1.0) == "1" && show(2.0) == "2"
    requires number("012") == Some(12.0)
    ensures WrittenTrend(BlankExample(), "energy", show, number) == [WrittenPoint(2000.0, Some(4.0))]
  {
    BlankExampleKept(number);
    var ws := SortedYears(BlankExample(), "energy", NotNaN(number));
    OnlyMember(ws, 2000.0);
    BlankExampleMean(show, number);
    assert RoundHalfUp(4.0 * 1000.0) == 4000;
  }

  /** The example as intended plots 1.5 for the year 2000. */
  lemma BlankExampleIntended()
    ensures Trend(BlankExample(), "energy") == [Point(2000.0, 1.5)]
  {
    BlankExampleNumbers();
    var ys := SortedYears(BlankExample(), "energy", IsNumber);
    OnlyMember(ys, 2000.0);
    OneTwoMean();
    assert RoundHalfUp(1.5 * 1000.0) == 1500;
  }

  /** The loop as written turns a blank cell into string concatenation:
      for the year 2000 with `energy` cells blank, 1 and 2 it plots
      `Number("012") / 3`, which is 4, where the mean of the numbers is 1.5. */
  lemma BlankCellConcatenates(show: real -> string, number: string -> Option<real>)
    requires show(0.0) == "0" && show(1.0) == "1" && show(2.0) == "2"
    requires number("012") == Some(12.0)
    ensures WrittenTrend(BlankExample(), "energy", show, number) == [WrittenPoint(2000.0, Some(4.0))]
    ensures Trend(BlankExample(), "energy") == [Point(2000.0, 1.5)]
  {
    BlankExampleWritten(show, number);
    BlankExampleIntended();
  }

  // ---------------------------------------------------------------------
  // The anomalies chart

  /** The present cells of `feature` that `accept` lets through, in row
      order, whatever the year. */
  function CellsOf(tracks: seq<Obj>, feature: string, accept: Cell -> bool): (cs: seq<Cell>)
    ensures |cs| <= |tracks|
    ensures forall i :: 0 <= i < |cs| ==> accept(cs[i])
    decreases |tracks|
  {
    if |tracks| == 0 then []
    else
      var t := tracks[|tracks| - 1];
      CellsOf(tracks[..|tracks| - 1], feature, accept)
        + (if feature in t && accept(t[feature]) then [t[feature]] else [])
  }

  /** Listing over a concatenation concatenates the parts' lists: with
      `CellsOfOne`, the list holds every admitted present cell in row
      order, each row contributing once. */
  lemma {:induction false} CellsOfAppend(a: seq<Obj>, b: seq<Obj>, feature: string, accept: Cell -> bool)
    ensures CellsOf(a + b, feature, accept) == CellsOf(a, feature, accept) + CellsOf(b, feature, accept)
    decreases |b|
  {
    if |b| == 0 {
      assert a + b == a;
    } else {
      var n := |b| - 1;
      var t := b[n];
      var tail := if feature in t && accept(t[feature]) then [t[feature]] else [];
      calc {
        CellsOf(a + b, feature, accept);
      == { assert (a + b)[|a + b| - 1] == t && (a + b)[..|a + b| - 1] == a + b[..n]; }
        CellsOf(a + b[..n], feature, accept) + tail;
      == { CellsOfAppend(a, b[..n], feature, accept); }
        (CellsOf(a, feature, accept) + CellsOf(b[..n], feature, accept)) + tail;
      ==
        CellsOf(a, feature, accept) + (CellsOf(b[..n], feature, accept) + tail);
      }
    }
  }

  /** A single row lists its cell when it has one and `accept` lets it
      through, and nothing otherwise. */
  lemma CellsOfOne(t: Obj, feature: string, accept: Cell -> bool)
    ensures CellsOf([t], feature, accept) == if feature in t && accept(t[feature]) then [t[feature]] else []
  {
  }

  /** Every listed cell is the value of some row. */
  lemma {:induction false} CellsOfFrom(tracks: seq<Obj>, feature: string, accept: Cell -> bool, k: nat)
    requires k < |CellsOf(tracks, feature, accept)|
    ensures exists j :: 0 <= j < |tracks| && feature in tracks[j] && tracks[j][feature] == CellsOf(tracks, feature, accept)[k]
    decreases |tracks|
  {
    var n := |tracks| - 1;
    var front := CellsOf(tracks[..n], feature, accept);
    if k < |front| {
      CellsOfFrom(tracks[..n], feature, accept, k);
      var j :| 0 <= j < n && feature in tracks[..n][j] && tracks[..n][j][feature] == front[k];
      assert tracks[j] == tracks[..n][j];
    } else {
      assert tracks[n][feature] == CellsOf(tracks, feature, accept)[k];
    }
  }

  /** Two filters that agree on every present cell list the same cells. */
  lemma {:induction false} CellsOfSame(tracks: seq<Obj>, feature: string, a1: Cell -> bool, a2: Cell -> bool)
    requires forall i :: 0 <= i < |tracks| && feature in tracks[i] ==> a1(tracks[i][feature]) == a2(tracks[i][feature])
    ensures CellsOf(tracks, feature, a1) == CellsOf(tracks, feature, a2)
    decreases |tracks|
  {
    if |tracks| > 0 {
      var n := |tracks| - 1;
      assert forall i :: 0 <= i < n ==> tracks[..n][i] == tracks[i];
      CellsOfSame(tracks[..n], feature, a1, a2);
    }
  }

  /** `|x - m| > s * sd` for a variance `v = sd * sd`, stated without the
      root. A negative sensitivity flags every value once the spread is
      positive. */
  predicate FarFrom(x: real, m: real, v: real, s: real)
  {
    (s < 0.0 && v > 0.0) || (x - m) * (x - m) > s * s * v
  }

  /** Between non-negative numbers, order is the order of the squares. */
  lemma SquareOrder(a: real, t: real)
    requires a >= 0.0 && t >= 0.0
    ensures a > t <==> a * a > t * t
  {
    if a > t {
      var d := a - t;
      assert a * a == t * t + 2.0 * t * d + d * d;
      assert d * d > 0.0 && t * d >= 0.0;
    } else {
      var d := t - a;
      assert t * t == a * a + 2.0 * a * d + d * d;
      assert d * d >= 0.0 && a * d >= 0.0;
    }
  }

  /** `FarFrom` is the dashboard's `Math.abs(value - mean) > sensitivity * stdDev`
      for the standard deviation `d`. */
  lemma FarFromStdDev(x: real, m: real, s: real, d: real)
    requires d >= 0.0
    ensures FarFrom(x, m, d * d, s) <==> (if x < m then m - x else x - m) > s * d
  {
    var a := if x < m then m - x else x - m;
    assert a * a == (x - m) * (x - m);
    assert s * s * (d * d) == (s * d) * (s * d);
    if s * d >= 0.0 {
      SquareOrder(a, s * d);
      if s < 0.0 {
        assert d == 0.0;
      }
    } else {
      assert s < 0.0 && d > 0.0;
      assert d * d > 0.0;
    }
  }

  /** Row `j` holds a number of `feature` lying far from the mean. */
  predicate IsFar(tracks: seq<Obj>, feature: string, m: real, v: real, s: real, j: int)
    requires 0 <= j < |tracks|
  {
    feature in tracks[j] && tracks[j][feature].Num? && FarFrom(tracks[j][feature].x, m, v, s)
  }

  /** One point of the anomalies chart: the row's position and value. */
  datatype Flagged = Flagged(index: nat, value: real)

  /** The far rows from position `i` on, in row order. */
  function FarRows(tracks: seq<Obj>, feature: string, m: real, v: real, s: real, i: nat): (r: seq<Flagged>)
    requires i <= |tracks|
    ensures forall k :: 0 <= k < |r| ==>
      (i <= r[k].index < |tracks| && IsFar(tracks, feature, m, v, s, r[k].index)
       && tracks[r[k].index][feature] == Num(r[k].value))
    ensures forall a, b :: 0 <= a < b < |r| ==> r[a].index < r[b].index
    ensures forall j :: i <= j < |tracks| && IsFar(tracks, feature, m, v, s, j) ==> Flagged(j, tracks[j][feature].x) in r
    decreases |tracks| - i
  {
    if i == |tracks| then []
    else
      (if IsFar(tracks, feature, m, v, s, i) then [Flagged(i, tracks[i][feature].x)] else [])
        + FarRows(tracks, feature, m, v, s, i + 1)
  }

  /** The numbers the anomaly statistics are taken over: numeric cells only. */
  function AnomalyNumbers(tracks: seq<Obj>, feature: string): (xs: seq<real>)
    ensures |xs| <= |tracks|
  {
    Numbers(CellsOf(tracks, feature, IsNumber))
  }

  /** The numbers of a concatenation are the parts' numbers in turn: with
      `AnomalyNumbersOne`, they are the rows' numeric values in row order. */
  lemma AnomalyNumbersAppend(a: seq<Obj>, b: seq<Obj>, feature: string)
    ensures AnomalyNumbers(a + b, feature) == AnomalyNumbers(a, feature) + AnomalyNumbers(b, feature)
  {
    CellsOfAppend(a, b, feature, IsNumber);
    NumbersAppend(CellsOf(a, feature, IsNumber), CellsOf(b, feature, IsNumber));
  }

  /** A single row gives its value when that is a number, and nothing
      otherwise. */
  lemma AnomalyNumbersOne(t: Obj, feature: string)
    ensures AnomalyNumbers([t], feature) == if feature in t && t[feature].Num? then [t[feature].x] else []
  {
    CellsOfOne(t, feature, IsNumber);
  }

  /** The anomalies chart as intended: nothing is drawn without a number;
      otherwise at most 100 rows, in row order, each holding a number that
      lies more than `s` population standard deviations from the mean. */
  function Anomalies(tracks: seq<Obj>, feature: string, s: real): (r: Option<seq<Flagged>>)
    ensures r.None? <==> |AnomalyNumbers(tracks, feature)| == 0
    ensures r.Some? ==> var xs := AnomalyNumbers(tracks, feature);
      |xs| > 0 && |r.value| <= 100
      && (forall k :: 0 <= k < |r.value| ==>
            (0 <= r.value[k].index < |tracks|
             && IsFar(tracks, feature, Mean(xs), PopVariance(xs), s, r.value[k].index)
             && tracks[r.value[k].index][feature] == Num(r.value[k].value)))
      && (forall a, b :: 0 <= a < b < |r.value| ==> r.value[a].index < r.value[b].index)
  {
    var xs := AnomalyNumbers(tracks, feature);
    if |xs| == 0 then None
    else
      var all := FarRows(tracks, feature, Mean(xs), PopVariance(xs), s, 0);
      Some(all[..if |all| < 100 then |all| else 100])
  }

  /** Only the cap drops a far row: a far row is listed, or 100 earlier
      rows are. */
  lemma AnomaliesFirstHundred(tracks: seq<Obj>, feature: string, s: real, j: nat)
    requires j < |tracks|
    requires var xs := AnomalyNumbers(tracks, feature);
      |xs| > 0 && IsFar(tracks, feature, Mean(xs), PopVariance(xs), s, j)
    ensures var r := Anomalies(tracks, feature, s).value;
      Flagged(j, tracks[j][feature].x) in r || (|r| == 100 && forall k :: 0 <= k < |r| ==> r[k].index < j)
  {
    var xs := AnomalyNumbers(tracks, feature);
    var all := FarRows(tracks, feature, Mean(xs), PopVariance(xs), s, 0);
    CapKeepsOrFills(all, Flagged(j, tracks[j][feature].x));
  }

  /** Cutting an index-ascending list to its first 100 entries keeps a
      given entry, or keeps 100 entries that all come before it. */
  lemma CapKeepsOrFills(all: seq<Flagged>, x: Flagged)
    requires x in all
    requires forall a, b :: 0 <= a < b < |all| ==> all[a].index < all[b].index
    ensures var r := all[..if |all| < 100 then |all| else 100];
      x in r || (|r| == 100 && forall k :: 0 <= k < |r| ==> r[k].index < x.index)
  {
    var r := all[..if |all| < 100 then |all| else 100];
    var p :| 0 <= p < |all| && all[p] == x;
    if p < |r| {
      assert r[p] == all[p];
    } else {
      forall k | 0 <= k < |r| ensures r[k].index < x.index {
        assert r[k] == all[k];
      }
    }
  }

  /** No number lies far from a constant mean with zero spread. */
  lemma {:induction false} NothingFarFromConstant(tracks: seq<Obj>, feature: string, s: real, c: real, i: nat)
    requires i <= |tracks|
    requires forall i :: 0 <= i < |tracks| && feature in tracks[i] && tracks[i][feature].Num? ==> tracks[i][feature].x == c
    ensures FarRows(tracks, feature, c, 0.0, s, i) == []
    decreases |tracks| - i
  {
    if i < |tracks| {
      NothingFarFromConstant(tracks, feature, s, c, i + 1);
    }
  }

  /** A feature whose numbers are all equal has no anomalies, whatever the
      sensitivity: the deviation is 0 and `0 > threshold` fails for a zero
      spread. */
  lemma ConstantFeatureNoAnomalies(tracks: seq<Obj>, feature: string, s: real, c: real)
    requires forall i :: 0 <= i < |tracks| && feature in tracks[i] && tracks[i][feature].Num? ==> tracks[i][feature].x == c
    ensures Anomalies(tracks, feature, s) == None || Anomalies(tracks, feature, s) == Some([])
  {
    var xs := AnomalyNumbers(tracks, feature);
    if |xs| > 0 {
      var cs := CellsOf(tracks, feature, IsNumber);
      forall k | 0 <= k < |xs| ensures xs[k] == c {
        CellsOfFrom(tracks, feature, IsNumber, k);
      }
      MeanConstant(xs, c);
      PopVarianceConstant(xs, c);
      NothingFarFromConstant(tracks, feature, s, c, 0);
    }
  }

  /** The anomaly mean as written: over the present cells that pass
      `isNaN`, with JavaScript's `+`. The chart returns early when there are
      none. */
  function WrittenAnomalyMean(tracks: seq<Obj>, feature: string, show: real -> string, number: string -> Option<real>): Option<real>
    requires |CellsOf(tracks, feature, NotNaN(number))| > 0
  {
    JsMean(CellsOf(tracks, feature, NotNaN(number)), show, number)
  }

  /** With no blank cell the anomaly mean as written is the intended one. */
  lemma WrittenAnomalyMeanWithoutBlanks(tracks: seq<Obj>, feature: string, show: real -> string, number: string -> Option<real>)
    requires forall i :: 0 <= i < |tracks| && feature in tracks[i] ==>
      tracks[i][feature] != Text("") && (tracks[i][feature].Text? ==> number(tracks[i][feature].s).None?)
    ensures |CellsOf(tracks, feature, NotNaN(number))| == |AnomalyNumbers(tracks, feature)|
    ensures |AnomalyNumbers(tracks, feature)| > 0 ==>
      WrittenAnomalyMean(tracks, feature, show, number) == Some(Mean(AnomalyNumbers(tracks, feature)))
  {
    forall i | 0 <= i < |tracks| && feature in tracks[i]
      ensures IsNumber(tracks[i][feature]) == NotNaN(number)(tracks[i][feature])
    {
    }
    CellsOfSame(tracks, feature, IsNumber, NotNaN(number));
  }

  /** The example's cells for the anomaly mean as written. */
  lemma BlankExampleAnomalyKept(number: string -> Option<real>)
    ensures CellsOf(BlankExample(), "energy", NotNaN(number)) == [Text(""), Num(1.0), Num(2.0)]
  {
    var ts := BlankExample();
    assert ts[..1][..0] == [];
    assert ts[..2][..1] == ts[..1];
    assert ts[..3] == ts;
    assert CellsOf(ts[..1], "energy", NotNaN(number)) == [Text("")];
    assert CellsOf(ts[..2], "energy", NotNaN(number)) == [Text(""), Num(1.0)];
  }

  /** The example's numbers for the anomaly chart as intended. */
  lemma BlankExampleAnomalyNumbers()
    ensures AnomalyNumbers(BlankExample(), "energy") == Numbers([Num(1.0), Num(2.0)])
  {
    var ts := BlankExample();
    assert ts[..1][..0] == [];
    assert ts[..2][..1] == ts[..1];
    assert ts[..3] == ts;
    assert CellsOf(ts[..1], "energy", IsNumber) == [];
    assert CellsOf(ts[..2], "energy", IsNumber) == [Num(1.0)];
    assert CellsOf(ts, "energy", IsNumber) == [Num(1.0), Num(2.0)];
  }

  /** The anomaly mean as written meets the same blank cell: for `energy`
      cells blank, 1 and 2 it is 4, where the mean of the numbers is 1.5. */
  lemma BlankCellSkewsAnomalyMean(show: real -> string, number: string -> Option<real>)
    requires show(0.0) == "0" && show(1.0) == "1" && show(2.0) == "2"
    requires number("012") == Some(12.0)
    ensures |CellsOf(BlankExample(), "energy", NotNaN(number))| > 0
    ensures WrittenAnomalyMean(BlankExample(), "energy", show, number) == Some(4.0)
    ensures Mean(AnomalyNumbers(BlankExample(), "energy")) == 1.5
  {
    BlankExampleAnomalyKept(number);
    BlankExampleAnomalyNumbers();
    BlankExampleMean(show, number);
    OneTwoMean();
  }

  // ---------------------------------------------------------------------
  // The hit-song blueprint: the era filter and the hit split

  /** `t.year || 2000`: a missing or falsy year counts as 2000; `None` is a
      non-numeric text year, which is `NaN` in the comparisons. */
  function EraYear(t: Obj): (y: Option<real>)
    ensures "year" !in t ==> y == Some(2000.0)
    ensures "year" in t && t["year"].Num? && t["year"].x != 0.0 ==> y == Some(t["year"].x)
  {
    OrDefault(Get(t, "year"), 2000.0)
  }

  /** `year >= eraStart && year < eraStart + 10`. */
  predicate InEra(t: Obj, eraStart: int)
  {
    var y := EraYear(t);
    y.Some? && eraStart as real <= y.value < (eraStart + 10) as real
  }

  /** The rows of the decade starting at `eraStart`, in row order. */
  function EraTracks(tracks: seq<Obj>, eraStart: int): (r: seq<Obj>)
    ensures |r| <= |tracks|
    ensures forall i :: 0 <= i < |r| ==> InEra(r[i], eraStart)
  {
    if |tracks| == 0 then []
    else (if InEra(tracks[0], eraStart) then [tracks[0]] else []) + EraTracks(tracks[1..], eraStart)
  }

  /** A row is kept if and only if it occurs and falls in the decade. */
  lemma {:induction false} EraTracksMembers(tracks: seq<Obj>, eraStart: int, t: Obj)
    ensures t in EraTracks(tracks, eraStart) <==> t in tracks && InEra(t, eraStart)
  {
    if |tracks| > 0 {
      EraTracksMembers(tracks[1..], eraStart, t);
      assert t in tracks <==> t == tracks[0] || t in tracks[1..];
    }
  }

  /** Filtering a concatenation concatenates the parts' era rows: with `EraTracksOne`, the kept rows stay in row order. */
  lemma {:induction false} EraTracksAppend(a: seq<Obj>, b: seq<Obj>, eraStart: int)
    ensures EraTracks(a + b, eraStart) == EraTracks(a, eraStart) + EraTracks(b, eraStart)
  {
    if |a| == 0 {
      assert a + b == b;
    } else {
      var head := if InEra(a[0], eraStart) then [a[0]] else [];
      calc {
        EraTracks(a + b, eraStart);
      == { assert (a + b)[0] == a[0] && (a + b)[1..] == a[1..] + b; }
        head + EraTracks(a[1..] + b, eraStart);
      == { EraTracksAppend(a[1..], b, eraStart); }
        head + (EraTracks(a[1..], eraStart) + EraTracks(b, eraStart));
      ==
        (head + EraTracks(a[1..], eraStart)) + EraTracks(b, eraStart);
      }
    }
  }

  /** A single row is kept when it falls in the decade. */
  lemma EraTracksOne(t: Obj, eraStart: int)
    ensures EraTracks([t], eraStart) == if InEra(t, eraStart) then [t] else []
  {
  }

  /** Each row of the decade is kept as often as it occurs; no other row is kept. */
  lemma {:induction false} EraTracksCounts(s: seq<Obj>, eraStart: int)
    ensures forall t ::
      multiset(EraTracks(s, eraStart))[t] == if InEra(t, eraStart) then multiset(s)[t] else 0
  {
    if |s| > 0 {
      EraTracksCounts(s[1..], eraStart);
      assert s == [s[0]] + s[1..];
    }
  }

  /** A row without a year is filed under the decade holding 2000. */
  lemma MissingYearInTwoThousands(t: Obj, eraStart: int)
    requires "year" !in t
    ensures InEra(t, eraStart) <==> eraStart <= 2000 < eraStart + 10
  {
  }

  /** `t.popularity || 0` as the sort key. */
  function Popularity(t: Obj): real
  {
    if "popularity" in t && t["popularity"].Num? then t["popularity"].x else 0.0
  }

  /** Most popular first. */
  predicate ByPopularity(s: seq<Obj>)
  {
    forall i, j :: 0 <= i < j < |s| ==> Popularity(s[i]) >= Popularity(s[j])
  }

  /** Put `t` in front of the first row that is not more popular. */
  function InsertByPopularity(t: Obj, s: seq<Obj>): (r: seq<Obj>)
    ensures multiset(r) == multiset(s) + multiset{t}
  {
    if |s| == 0 || Popularity(s[0]) <= Popularity(t) then [t] + s
    else
      assert s == [s[0]] + s[1..];
      [s[0]] + InsertByPopularity(t, s[1..])
  }

  /** Inserting into a list that is most popular first keeps it so. */
  lemma {:induction false} InsertKeepsOrder(t: Obj, s: seq<Obj>)
    requires ByPopularity(s)
    ensures ByPopularity(InsertByPopularity(t, s))
  {
    if |s| > 0 && Popularity(s[0]) > Popularity(t) {
      var rest := InsertByPopularity(t, s[1..]);
      InsertKeepsOrder(t, s[1..]);
      forall j | 0 <= j < |rest| ensures Popularity(s[0]) >= Popularity(rest[j]) {
        assert rest[j] in multiset(s[1..]) + multiset{t};
        if rest[j] != t {
          assert rest[j] in s[1..];
        }
      }
      assert InsertByPopularity(t, s) == [s[0]] + rest;
    }
  }

  /** `sort((a, b) => (b.popularity || 0) - (a.popularity || 0))`: a
      rearrangement, most popular first. */
  function SortByPopularity(s: seq<Obj>): (r: seq<Obj>)
    ensures multiset(r) == multiset(s)
    ensures ByPopularity(r)
  {
    if |s| == 0 then []
    else
      assert s == [s[0]] + s[1..];
      var rest := SortByPopularity(s[1..]);
      InsertKeepsOrder(s[0], rest);
      InsertByPopularity(s[0], rest)
  }

  /** `Math.ceil(n * 0.25)`: the least count whose fourfold reaches `n`. */
  function HitCount(n: nat): (k: nat)
    ensures 4 * k >= n && 4 * (k - 1) < n
    ensures k <= n
  {
    (n + 3) / 4
  }

  /** Cutting a most-popular-first list leaves the front at least as
      popular as the back. */
  lemma CutOrdered(sorted: seq<Obj>, k: nat)
    requires ByPopularity(sorted) && k <= |sorted|
    ensures forall i, j :: 0 <= i < k && 0 <= j < |sorted| - k ==>
      Popularity(sorted[..k][i]) >= Popularity(sorted[k..][j])
  {
    forall i, j | 0 <= i < k && 0 <= j < |sorted| - k
      ensures Popularity(sorted[..k][i]) >= Popularity(sorted[k..][j])
    {
      assert sorted[..k][i] == sorted[i] && sorted[k..][j] == sorted[k + j];
    }
  }

  /** The two halves of the blueprint's comparison. */
  datatype Split = Split(hits: seq<Obj>, rest: seq<Obj>)

  /** The era's rows split into the most popular quarter (rounded up) and the
      rest: together a rearrangement of the era, every hit at least as
      popular as every other row. */
  function HitSplit(tracks: seq<Obj>, eraStart: int): (sp: Split)
    ensures var era := EraTracks(tracks, eraStart);
      multiset(sp.hits + sp.rest) == multiset(era) && |sp.hits| == HitCount(|era|)
    ensures forall i, j :: 0 <= i < |sp.hits| && 0 <= j < |sp.rest| ==>
      Popularity(sp.hits[i]) >= Popularity(sp.rest[j])
  {
    var era := EraTracks(tracks, eraStart);
    var sorted := SortByPopularity(era);
    assert |sorted| == |multiset(sorted)| == |multiset(era)| == |era|;
    var k := HitCount(|era|);
    CutOrdered(sorted, k);
    assert sorted[..k] + sorted[k..] == sorted;
    Split(sorted[..k], sorted[k..])
  }

  /** Every row of the split is of the era. */
  lemma HitSplitInEra(tracks: seq<Obj>, eraStart: int, t: Obj)
    requires t in HitSplit(tracks, eraStart).hits + HitSplit(tracks, eraStart).rest
    ensures t in tracks && InEra(t, eraStart)
  {
    var sp := HitSplit(tracks, eraStart);
    assert t in multiset(sp.hits + sp.rest);
    EraTracksMembers(tracks, eraStart, t);
  }

  /** An era with a row has at least one hit, and from two rows on the hits
      never outnumber the rest. */
  lemma HitSplitSizes(tracks: seq<Obj>, eraStart: int)
    ensures var n := |EraTracks(tracks, eraStart)|; var sp := HitSplit(tracks, eraStart);
      (n > 0 <==> |sp.hits| > 0) && (n >= 2 ==> |sp.hits| <= |sp.rest|)
  {
    var sp := HitSplit(tracks, eraStart);
    assert |sp.hits + sp.rest| == |multiset(EraTracks(tracks, eraStart))|;
  }
}
