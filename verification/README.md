# Music Trends Time Machine — a Dafny model of its numeric core

Music Trends Time Machine is a small music-analytics dashboard. A Python half
generates a synthetic Spotify-like track table and aggregates it. A static
JavaScript dashboard reads a CSV export of the tracks and draws trends,
anomalies and a hit-song blueprint. This project models the pure transforms
under both halves as Dafny functions over immutable sequences of records,
and proves what they promise.

Python side (`utils.py`, `data.py`):

- `Tracks`: the track record, its nine audio features and their declared ranges.
- `Generator`: the drift-and-clip step of `generate_spotify_data`. The random
  draws are inputs.
- `Aggregation`: `aggregate_by_year` and `aggregate_by_genre_year`, one mean
  row per key, ascending by key.
- `Scorer`: `calculate_custom_score`.
- `Anomaly`: `detect_anomalies`, the z-score detector over the series with
  missing values dropped.
- `Insights`: `get_anomaly_insights` and `generate_story_insights`.

JavaScript side (`docs/dashboard-script-cwm.js`):

- `Csv`: `parseCSV`, covering line splitting, the quote-aware field splitter,
  numeric coercion and the `year` taken from `release_date`.
- `Dashboard`:
  - `classifyGenre`;
  - the trends filter and its per-year averages;
  - the anomaly filter;
  - the year-slider handlers and the genre pills;
  - the era filter and the top-quarter hit split.

Shared modules:

- `Stats`: sums, means and variances, clipping and `Math.round`.
- `Sorting`: sorted distinct lists.
- `Optional`: the option type.

All numbers are exact reals, so floating-point rounding is not modelled.
Square roots are avoided by comparing squares: `|x - m| > t * sd` is stated
as `(x - m)^2 > t^2 * variance`, with the signs handled explicitly.

On the JavaScript side a property of a parsed row is a `Cell`:
- a number;
- a string, which the parser keeps only when it is empty or not numeric;
- `NaN`, which `parseInt` can produce for `year`.

Reading a missing property gives `undefined`. JavaScript's loose coercions
are written out in the model:
- `v || d`;
- `isNaN`;
- comparisons that are false on `NaN`;
- `+`, which turns into string concatenation once a string is met.

`Number`/`parseFloat`, `parseInt` and `Number.prototype.toString` are
parameters. The model fixes where they are applied, not how they read or
write digits.

A release date that is a bare number, such as `1999`, is coerced to a
number before the `year` extraction runs, and the extraction is then
skipped. When the CSV has no `year` column, such a row therefore gets
no `year`, and the dashboard's filters treat the year as missing.
`Csv.BuildRowYear` states this under that assumption: its precondition
excludes a `year` header. When the CSV does have a `year` column, a
numeric date leaves the row with that column's coerced value, as
`Csv.BuildRowYearColumn` states.

## Model

| member | source | states |
|---|---|---|
| Stats.Clamp | data.py:44-54 | `.clip(lo, hi)`: the result lies in [lo, hi], is `x` when `x` already does, and is the nearer bound otherwise |
| Stats.RoundHalfUp | docs/dashboard-script-cwm.js:253 | `Math.round`: the integer within half a unit of `x`, halves going up |
| Generator.DriftEnergy | data.py:44-46 | drifted energy lies in [0, 1] and is the base value itself in 1924 for a base in [0, 1] |
| Generator.DriftDanceability | data.py:49-50 | drifted danceability lies in [0, 1] and is unchanged in 1924 |
| Generator.DriftAcousticness | data.py:53-54 | drifted acousticness lies in [0, 1] and is unchanged in 1924 |
| Generator.Drift | data.py:43-54 | only energy, danceability and acousticness move; the other six features are untouched, and the three moved ones lie in [0, 1] |
| Generator.DriftMonotone | data.py:43-54 | for a fixed base, energy and danceability never fall as the year grows, and acousticness never rises |
| Generator.NatToString | data.py:24-25 | a number is written as a non-empty string of decimal digits |
| Generator.NatToStringRoundTrip | data.py:24-25 | reading the digits back gives the number, so distinct positions give distinct ids |
| Generator.Generate | data.py:14-54 | one track per draw, in order; track `i` has id `track_i` and carries its draw's year, genre and popularity, with the drift applied to the features |
| Generator.GenerateWithinBounds | data.py:14-54 | for draws within the generator's ranges, every track has a year in 1924..2024, one of the ten genres, popularity 0..99 and every feature within its declared bounds |
| Generator.GenerateIdsDistinct | data.py:24 | the track ids are pairwise distinct |
| Aggregation.Columns | data.py:70-75 | the aggregated columns are the given features, or the nine defaults when none are given, each once |
| Aggregation.DefaultColumns | data.py:70-72 | without a feature list the columns are exactly the nine default features, in order |
| Aggregation.Group | data.py:77 | a row is in a group if and only if the table holds it and it carries the group's key; the group is no longer than the table |
| Aggregation.GroupAppend | data.py:77 | filtering a concatenation concatenates the filtered parts, so the kept rows keep their order |
| Aggregation.GroupOne | data.py:77 | a single row forms the group when it carries the key, and otherwise adds nothing |
| Aggregation.GroupCounts | data.py:77 | each row carrying the key occurs in the group as often as in the table; no other row occurs |
| Aggregation.Keys | data.py:77 | the distinct keys of the table, strictly ascending |
| Aggregation.Row | data.py:74-77 | an output row holds, per column and for popularity, the mean over its group |
| Aggregation.Aggregate | data.py:68-90 | one row per key that occurs, in strictly ascending key order (year, then genre); each value times the group size is the group's column sum |
| Aggregation.AggregateByYear | data.py:68-78 | each output row holds the means over the rows of its year |
| Aggregation.AggregateByYearKeys | data.py:68-78 | one row per year of the table and no other, years strictly ascending |
| Aggregation.AggregateByGenreYear | data.py:80-90 | each output row holds the means over the rows of its (year, genre) pair |
| Aggregation.AggregateByGenreYearKeys | data.py:80-90 | one row per (year, genre) pair of the table and no other, ascending by year then by genre |
| Aggregation.AggregateKeys | data.py:77 | the output keys are exactly the table's distinct keys, each once |
| Aggregation.AggregateSortedKeys | data.py:77 | a table already ordered by strictly ascending key keeps its key order |
| Aggregation.AggregateUniqueKeys | data.py:77 | with one row per key, each output row carries the values of the table row with its key |
| Aggregation.AggregateWithinBounds | data.py:68-90 | over in-bounds tracks, every output year lies in 1924..2024, every mean within its feature's bounds and the popularity mean within 0..99 |
| Scorer.NormalizeLoudness | utils.py:34-36 | loudness becomes `(l + 10) / 10` clipped to [0, 1]: -10 and below give 0, 0 and above give 1 |
| Scorer.CustomScore | utils.py:23-45 | the score times the total weight is the weighted sum over the scored features present in both the row and the weights; with a non-positive total the sum is returned undivided |
| Scorer.FeatureSumIsEntrySum | utils.py:29-40 | visiting the nine features in order or the weight entries in insertion order gives the same numerator |
| Scorer.ZeroWeightScore | utils.py:42-45 | non-negative weights summing to 0, an empty map included, give a score of 0 |
| Scorer.SingleFeatureScore | utils.py:29-43 | a single positive weight on one scored feature yields that feature's normalised value |
| Scorer.TrackSingleFeatureScore | utils.py:29-43 | on a track, a single positive weight on any feature but loudness yields its raw value |
| Scorer.TempoNotRescaled | utils.py:37-38 | tempo enters unscaled: a lone weight on tempo 120 scores 120 |
| Scorer.UnknownKeyDilutes | utils.py:25-43 | a weight on a key outside the nine features counts in the denominator only |
| Scorer.ScoreWithinUnitInterval | utils.py:23-45 | with non-negative weights and features other than loudness in [0, 1], the score lies in [0, 1] |
| Scorer.RowOf | utils.py:31-38 | a track seen as a row has every feature under its column name |
| Anomaly.DropMissing | utils.py:18 | the cleaned series is no longer than the original |
| Anomaly.DropMissingMembers | utils.py:18 | a value is in the cleaned series if and only if the series holds it present |
| Anomaly.DropMissingAppend | utils.py:18 | dropping from a concatenation concatenates what each part keeps, so the values keep their order |
| Anomaly.DropMissingOne | utils.py:18 | a present value is kept and a missing one is dropped |
| Anomaly.DropMissingCounts | utils.py:18 | each value occurs in the cleaned series as often as the series holds it present |
| Anomaly.Flag | utils.py:19-20 | the flagged positions ascend strictly, and a position is flagged iff its value lies beyond the threshold |
| Anomaly.DetectAnomalies | utils.py:16-21 | strictly ascending positions into the cleaned series, holding exactly those whose population z-score exceeds the threshold in absolute value |
| Anomaly.ConstantSeriesNoAnomalies | utils.py:19-20 | a series whose present values are all equal has no anomalies, whatever the threshold |
| Anomaly.ThresholdAntitone | utils.py:20 | raising the threshold can only shrink the result |
| Anomaly.OutlierAfterMissing | utils.py:18-20 | positions index the cleaned series: with one missing entry, the outlier in seventh place is reported as position 5 |
| Insights.Changes | utils.py:60 | the year-over-year differences, one fewer than the means |
| Insights.NotablePositions | utils.py:63-66 | strictly ascending positions from 1 on, holding exactly the moves beyond 1.5 sample standard deviations of the moves |
| Insights.Last | utils.py:68 | `[-n:]`: the last `min(n, len)` elements for `n > 0` and the whole list for `n = 0`, in order, with every element from the first kept one on kept |
| Insights.Chosen | utils.py:68 | the last three notable positions, or all of them when there are fewer |
| Insights.ChosenLastNotable | utils.py:66-68 | each chosen position is notable and never the first year; they ascend; every notable position from the first chosen one on is chosen |
| Insights.InsightAt | utils.py:69-72 | the insight names the year, "increased" iff the change is positive, and the change's absolute size |
| Insights.YearlyInsights | utils.py:56-74 | nothing for fewer than three years; otherwise one insight per chosen position, at most three |
| Insights.AnomalyInsights | utils.py:47-74 | nothing for fewer than two rows or fewer than three distinct years, and never more than three insights |
| Insights.AnomalyInsightYears | utils.py:54-72 | insights come in ascending year order, about years of the table other than its earliest |
| Insights.YearlyMeans | utils.py:54 | the yearly series is the mean of the feature over exactly that year's rows |
| Insights.FlatTrendNoInsights | utils.py:60-66 | a flat trend yields no insight |
| Insights.LinearTrendFlagsAll | utils.py:60-72 | when every year moves by the same non-zero step, every move is notable, so the insights are the last three years (two when there are three), each in the trend's direction and of the step's size |
| Insights.EraRows | utils.py:81-82 | an era never holds more rows than the table |
| Insights.EraRowsMembers | utils.py:81-82 | a row is in an era if and only if the table holds it and it is dated before 1970 (early) or from 2000 on (recent) |
| Insights.EraRowsAppend | utils.py:81-82 | filtering a concatenation concatenates the filtered parts, so the kept rows keep their order |
| Insights.EraRowsOne | utils.py:81-82 | a single row is kept when it is dated in the era, and otherwise dropped |
| Insights.EraRowsCounts | utils.py:81-82 | each row dated in the era occurs as often as in the table; no other row occurs |
| Insights.EraMean | utils.py:81-82 | missing for an empty era, otherwise the mean over exactly its rows |
| Insights.EraMeanMissing | utils.py:81-82 | an era mean is missing iff no row falls in the era |
| Insights.EraMeanWithin | utils.py:81-103 | an era mean of in-bounds tracks lies within the feature's bounds |
| Insights.PercentChange | utils.py:85 | defined iff both means exist and the early one is non-zero, and then it is the change relative to the early mean, in percent |
| Insights.PercentChangeSign | utils.py:85 | a positive early mean gives a positive change when the recent mean is above it and a negative change when it is below |
| Insights.StoryInsights | utils.py:76-114 | always four stories, about energy, danceability, acousticness and genre in that order, with their titles; the first three quote the era means, and only the first quotes a percentage |
| Csv.TrimStart | docs/dashboard-script-cwm.js:44 | what is kept does not start with white space |
| Csv.TrimEnd | docs/dashboard-script-cwm.js:44 | what is kept does not end with white space |
| Csv.TrimStartSuffix | docs/dashboard-script-cwm.js:44 | leading trimming keeps a suffix and drops only white space |
| Csv.TrimEndPrefix | docs/dashboard-script-cwm.js:44 | trailing trimming keeps a prefix and drops only white space |
| Csv.Trim | docs/dashboard-script-cwm.js:57 | `trim()` leaves no white space at either end |
| Csv.TrimIdentity | docs/dashboard-script-cwm.js:57 | trimming changes a string iff it has white space at an end |
| Csv.TrimKeepsOut | docs/dashboard-script-cwm.js:57 | trimming adds no character |
| Csv.SplitOn | docs/dashboard-script-cwm.js:44 | `split` always yields at least one part |
| Csv.JoinSplit | docs/dashboard-script-cwm.js:44 | no part holds the separator, and joining the parts gives the text back |
| Csv.SplitJoin | docs/dashboard-script-cwm.js:44 | splitting a join of separator-free parts gives the parts back |
| Csv.KeepNonBlank | docs/dashboard-script-cwm.js:44 | every kept line is non-blank once trimmed |
| Csv.KeepNonBlankMembers | docs/dashboard-script-cwm.js:44 | every kept line occurs in the input, and every non-blank input line is kept |
| Csv.KeepNonBlankAppend | docs/dashboard-script-cwm.js:44 | filtering a concatenation concatenates the filtered parts, so the kept lines keep their order |
| Csv.KeepNonBlankOne | docs/dashboard-script-cwm.js:44 | a single line is kept when it is not blank once trimmed, and otherwise dropped |
| Csv.KeepNonBlankCounts | docs/dashboard-script-cwm.js:44 | each non-blank line is kept as often as it occurs; no blank line is kept |
| Csv.NonBlankLines | docs/dashboard-script-cwm.js:44 | every line the parser reads is non-blank |
| Csv.NonBlankLinesSingle | docs/dashboard-script-cwm.js:44 | no line the parser reads holds a line feed |
| Csv.StripQuotes | docs/dashboard-script-cwm.js:57 | a quote-free string is unchanged, and no string grows |
| Csv.FieldsFrom | docs/dashboard-script-cwm.js:74-84 | one field more than there are commas outside quotes |
| Csv.SplitFields | docs/dashboard-script-cwm.js:53-63 | a line has one field more than it has commas outside quotes |
| Csv.CleanIsClean | docs/dashboard-script-cwm.js:84 | a field built without quotes comes out trimmed and quote-free |
| Csv.FieldsFromClean | docs/dashboard-script-cwm.js:74-84 | quote characters are never copied into a field, and every field is trimmed |
| Csv.SplitFieldsClean | docs/dashboard-script-cwm.js:74-84 | no field of a line holds a quote or has white space at an end |
| Csv.FieldsCopy | docs/dashboard-script-cwm.js:74-82 | a quote-free stretch is copied into the current field, with its commas when a quote is open |
| Csv.FieldsRoundTrip | docs/dashboard-script-cwm.js:74-84 | plain fields joined with commas split back into the same fields |
| Csv.QuotedComma | docs/dashboard-script-cwm.js:74-84 | a comma inside double quotes stays in its field, and the quotes are dropped |
| Csv.Coerce | docs/dashboard-script-cwm.js:89 | a non-empty numeric value becomes its number; anything else stays the same string, which is then empty or non-numeric |
| Csv.Fill | docs/dashboard-script-cwm.js:86-90 | the row's keys are exactly the headers |
| Csv.FillLastWins | docs/dashboard-script-cwm.js:86-90 | a repeated header keeps the value at its last position |
| Csv.FillCells | docs/dashboard-script-cwm.js:88-89 | every stored value is a number, the empty string or a non-numeric string |
| Csv.Prefix4 | docs/dashboard-script-cwm.js:94 | `substring(0, 4)`: the first four characters, or the whole string when it is shorter |
| Csv.YearCell | docs/dashboard-script-cwm.js:94 | `parseInt` of the date's first four characters, or NaN when that fails |
| Csv.BuildRow | docs/dashboard-script-cwm.js:86-95 | the row's keys are the headers, plus `year` only when a `release_date` header exists |
| Csv.BuildRowCell | docs/dashboard-script-cwm.js:86-90 | a header other than `year` holds the coerced value at its last position |
| Csv.MissingFieldIsBlank | docs/dashboard-script-cwm.js:88 | a header past the end of a short line gets the empty string |
| Csv.BuildRowYear | docs/dashboard-script-cwm.js:89-95 | when there is no `year` header, a row gets a `year` iff its date is a non-empty, non-numeric string, and then it is read from the first four characters |
| Csv.BuildRowYearColumn | docs/dashboard-script-cwm.js:86-95 | when there is a `year` header, a non-empty, non-numeric date overwrites it with the value read from its first four characters, and any other date leaves the column's coerced value |
| Csv.TextCellsNotNumeric | docs/dashboard-script-cwm.js:89 | no string kept in a row is numeric |
| Csv.ParseCsv | docs/dashboard-script-cwm.js:43-104 | no rows unless there are at least two non-blank lines; otherwise one row per non-blank data line |
| Csv.ParseCsvRow | docs/dashboard-script-cwm.js:71-97 | row `i` is built from the header line and data line `i + 1` |
| Csv.ParseCsvCell | docs/dashboard-script-cwm.js:68-97 | field `j` of a data line lands, coerced, under header `j` when that header is not `year` and no later header repeats it |
| Dashboard.Get | docs/dashboard-script-cwm.js:162 | a property read is `undefined` exactly when the key is absent |
| Dashboard.OrDefault | docs/dashboard-script-cwm.js:162-166 | `v \|\| d` as a number: falsy values give `d`, a non-zero number is itself, a non-empty string is NaN |
| Dashboard.Classify | docs/dashboard-script-cwm.js:161-177 | the label is one of the five; acousticness above 0.6 always gives jazz; each other label implies the thresholds its rule tests |
| Dashboard.ClassifyGenre | docs/dashboard-script-cwm.js:161-177 | every track gets one of the five labels |
| Dashboard.ClassifyIsFirstMatch | docs/dashboard-script-cwm.js:168-176 | the classifier is the first-match reading of its six-rule table, with pop as the fallback |
| Dashboard.FeaturelessIsJazz | docs/dashboard-script-cwm.js:162-174 | a track with none of the features reads them as 0 and is jazz |
| Dashboard.TextValenceIsPop | docs/dashboard-script-cwm.js:165-176 | a text valence is NaN and never compares below a bound, so a track that is not acoustic, energetic or danceable falls through to pop rather than jazz |
| Dashboard.TrendRows | docs/dashboard-script-cwm.js:221-228 | every kept row is inside the year range and of a selected genre |
| Dashboard.TrendRowsMembers | docs/dashboard-script-cwm.js:221-228 | a row is kept if and only if it occurs and passes both tests |
| Dashboard.TrendRowsAppend | docs/dashboard-script-cwm.js:221-228 | filtering a concatenation concatenates the filtered parts, so the kept rows keep their order |
| Dashboard.TrendRowsOne | docs/dashboard-script-cwm.js:221-228 | a single row is kept when it passes both tests, and otherwise dropped |
| Dashboard.TrendRowsCounts | docs/dashboard-script-cwm.js:221-228 | each row passing both tests is kept as often as it occurs; no other row is kept |
| Dashboard.TextYearInEveryRange | docs/dashboard-script-cwm.js:222-223 | a text year is NaN, compares false both ways, and is never excluded |
| Dashboard.MissingYearIsZero | docs/dashboard-script-cwm.js:222-223 | a row without a year counts as year 0 |
| Dashboard.InitialSelection | docs/dashboard-script-cwm.js:38 | on load, pop, rock and hip-hop rows are shown and jazz and electronic rows are hidden |
| Dashboard.OnStartInput | docs/dashboard-script-cwm.js:563-575 | after the start handler, start ≤ end; the end is untouched; the start moves only when it passed the end, and then to the end |
| Dashboard.OnEndInput | docs/dashboard-script-cwm.js:577-589 | after the end handler, start ≤ end; the start is untouched; the end moves only when it fell below the start, and then to the start |
| Dashboard.SliderHandlersSettle | docs/dashboard-script-cwm.js:562-590 | both handlers leave an ordered range alone and are idempotent |
| Dashboard.Toggle | docs/dashboard-script-cwm.js:607-613 | a click flips the clicked genre and leaves every other genre as it was |
| Dashboard.ToggleTwice | docs/dashboard-script-cwm.js:607-613 | two clicks on one pill restore the selection |
| Dashboard.ToggleCommutes | docs/dashboard-script-cwm.js:607-613 | clicks on different pills commute |
| Dashboard.PlotYear | docs/dashboard-script-cwm.js:240-243 | a row is plotted iff its year is a number above 0, and then under that year |
| Dashboard.YearsWith | docs/dashboard-script-cwm.js:238-246 | at most one plotted year per row |
| Dashboard.YearsWithMembers | docs/dashboard-script-cwm.js:238-246 | a year occurs iff some admitted row is plotted under it |
| Dashboard.CellsAt | docs/dashboard-script-cwm.js:238-246 | a year's list holds only admitted cells and is no longer than the row list |
| Dashboard.CellsAtAppend | docs/dashboard-script-cwm.js:238-246 | collecting over a concatenation concatenates the parts' lists, so cells are pushed in row order |
| Dashboard.CellsAtOne | docs/dashboard-script-cwm.js:238-246 | a single row pushes its cell when it is plotted under the year and the cell is admitted, and pushes nothing otherwise |
| Dashboard.CellsAtNonEmpty | docs/dashboard-script-cwm.js:244-245 | a year that occurs has at least one value |
| Dashboard.SortedYears | docs/dashboard-script-cwm.js:250 | the distinct plotted years, strictly ascending |
| Dashboard.RoundMilli | docs/dashboard-script-cwm.js:253 | a whole number of thousandths, within half a thousandth of the mean |
| Dashboard.YearPoint | docs/dashboard-script-cwm.js:251-253 | a year's point is a whole number of thousandths within half a thousandth of the mean of that year's numbers |
| Dashboard.Trend | docs/dashboard-script-cwm.js:238-254 | the series as intended: one point per year, years strictly ascending, each value a whole number of thousandths within half a thousandth of the mean of the year's numeric values |
| Dashboard.BlankCellIgnored | docs/dashboard-script-cwm.js:242 | a row whose value is missing, blank or text does not move the intended series |
| Dashboard.TrendWithinRange | docs/dashboard-script-cwm.js:221-254 | the chart over the filtered rows plots only years inside the slider range |
| Dashboard.TrendChart | docs/dashboard-script-cwm.js:221-254 | nothing is redrawn iff no row passes the year and genre filter; otherwise the intended series over the filtered rows, every year inside the slider range |
| Dashboard.JsAdd | docs/dashboard-script-cwm.js:252 | `+` gives a number iff both sides are numbers, and then their sum |
| Dashboard.ReduceNumbers | docs/dashboard-script-cwm.js:252 | over numbers only, the reduction is the ordinary sum |
| Dashboard.JsMean | docs/dashboard-script-cwm.js:252 | over numbers only, the mean as written is the exact mean |
| Dashboard.WrittenYearPoint | docs/dashboard-script-cwm.js:251-253 | the point as written stays under its year |
| Dashboard.WrittenTrend | docs/dashboard-script-cwm.js:238-254 | the series as the loop computes it, one point per year that passes the `!isNaN` test, years strictly ascending |
| Dashboard.WrittenAgreesWithoutBlanks | docs/dashboard-script-cwm.js:238-254 | without blank cells the series as written equals the intended one, point for point |
| Dashboard.BlankCellConcatenates | docs/dashboard-script-cwm.js:242-253 | cells blank, 1 and 2 in one year plot 4 as written, where the intended value is 1.5 |
| Dashboard.CellsOf | docs/dashboard-script-cwm.js:335-337 | the admitted values of a feature, over all rows |
| Dashboard.CellsOfAppend | docs/dashboard-script-cwm.js:335-337 | listing over a concatenation concatenates the parts' lists, so values are listed in row order |
| Dashboard.CellsOfOne | docs/dashboard-script-cwm.js:335-337 | a single row lists its value when present and admitted, and nothing otherwise |
| Dashboard.CellsOfFrom | docs/dashboard-script-cwm.js:335-337 | every listed value is some row's value |
| Dashboard.FarFromStdDev | docs/dashboard-script-cwm.js:343-355 | the square-free test is `abs(value - mean) > sensitivity * stdDev` for the standard deviation |
| Dashboard.FarRows | docs/dashboard-script-cwm.js:348-355 | row order is kept, every listed row's number is far from the mean, and every far row is listed |
| Dashboard.AnomalyNumbers | docs/dashboard-script-cwm.js:335-337 | at most one number per row |
| Dashboard.AnomalyNumbersAppend | docs/dashboard-script-cwm.js:335-337 | the numbers of a concatenation are the parts' numbers in turn |
| Dashboard.AnomalyNumbersOne | docs/dashboard-script-cwm.js:335-337 | a single row gives its value when it is a number, and nothing otherwise |
| Dashboard.Anomalies | docs/dashboard-script-cwm.js:335-356 | no chart without a number; otherwise at most 100 rows in row order, each beyond `sensitivity` population standard deviations |
| Dashboard.AnomaliesFirstHundred | docs/dashboard-script-cwm.js:356 | only the cap drops a far row: it is listed, or 100 earlier rows are |
| Dashboard.ConstantFeatureNoAnomalies | docs/dashboard-script-cwm.js:342-355 | a feature whose numbers are all equal has no anomalies, whatever the sensitivity |
| Dashboard.WrittenAnomalyMeanWithoutBlanks | docs/dashboard-script-cwm.js:335-342 | without blank cells the anomaly mean as written is the mean of the numbers |
| Dashboard.BlankCellSkewsAnomalyMean | docs/dashboard-script-cwm.js:335-342 | cells blank, 1 and 2 give an anomaly mean of 4 as written, where the numbers' mean is 1.5 |
| Dashboard.EraYear | docs/dashboard-script-cwm.js:862 | a missing year counts as 2000, and a non-zero numeric year is itself |
| Dashboard.EraTracks | docs/dashboard-script-cwm.js:861-864 | every kept row lies in the decade starting at the era's start |
| Dashboard.EraTracksMembers | docs/dashboard-script-cwm.js:861-864 | a row is kept if and only if it occurs and lies in the decade |
| Dashboard.EraTracksAppend | docs/dashboard-script-cwm.js:861-864 | filtering a concatenation concatenates the filtered parts, so the kept rows keep their order |
| Dashboard.EraTracksOne | docs/dashboard-script-cwm.js:861-864 | a single row is kept when it lies in the decade, and otherwise dropped |
| Dashboard.EraTracksCounts | docs/dashboard-script-cwm.js:861-864 | each row of the decade is kept as often as it occurs; no other row is kept |
| Dashboard.MissingYearInTwoThousands | docs/dashboard-script-cwm.js:862-863 | a row without a year belongs to the era holding 2000 |
| Dashboard.InsertByPopularity | docs/dashboard-script-cwm.js:866 | insertion adds exactly the one row |
| Dashboard.InsertKeepsOrder | docs/dashboard-script-cwm.js:866 | inserting into a most-popular-first list keeps it so |
| Dashboard.SortByPopularity | docs/dashboard-script-cwm.js:866 | the sort is a rearrangement, most popular first |
| Dashboard.HitCount | docs/dashboard-script-cwm.js:867 | `Math.ceil(n * 0.25)`: the least count whose fourfold reaches `n` |
| Dashboard.CutOrdered | docs/dashboard-script-cwm.js:867-868 | cutting a most-popular-first list leaves the front at least as popular as the back |
| Dashboard.HitSplit | docs/dashboard-script-cwm.js:861-868 | hits and non-hits together rearrange the era's rows; there are `ceil(n/4)` hits, each at least as popular as every non-hit |
| Dashboard.HitSplitInEra | docs/dashboard-script-cwm.js:861-868 | every row of the split is a row of the era |
| Dashboard.HitSplitSizes | docs/dashboard-script-cwm.js:867-868 | a non-empty era has a hit, and from two rows on the hits never outnumber the rest |

## Left out

- Random draws and seeding in `generate_spotify_data` (`np.random.seed(42)`, `choice`, `uniform`, `randint`): the draws are inputs, constrained only by the ranges the generator draws from.
- `load_or_generate_data`, the parquet cache and the dashboard's `fetch` calls: file and network I/O.
- `normalize_features`: a wrapper over scikit-learn's `StandardScaler`.
- app.py is not part of this model. It holds Streamlit widgets and plain row selection.
- The dashboard's DOM, Plotly, tooltip, smooth-scroll and logging code, the mock-track generator, the hero statistics and the other charts, including the Pearson correlation: UI code, randomness and floating-point numerics.
- IEEE-754 floating point: numbers are exact reals. `Math.round`, `toFixed` and `sqrt` rounding are not modelled. The model has no infinities; a cell that `parseFloat` reads as ±Infinity, such as `1e999`, is outside it.
- How `Number`, `parseFloat`, `parseInt` and `Number.prototype.toString` read and write digits: they are parameters. The parser's `toNumber` stands for `isNaN` followed by `parseFloat`, and the dashboard's `number` stands for `Number`. The model does not relate the two, so strings on which `Number` and `parseFloat` disagree, such as `"0x10"` (16 against 0), are not tied down.
- JavaScript strings are UTF-16 code-unit sequences; the model's strings are sequences of Unicode scalar values. `substring(0, 4)` and the character loop differ only on characters outside the Basic Multilingual Plane.
- Property names with special meaning on JavaScript objects, such as `__proto__`, are treated as ordinary keys.
- Insight and story messages: only the values they are built from are modelled, not the formatted text.
- Missing values in the Python frames: the Python tracks always carry every feature.
- The anomaly chart's `zscore` field and the year shown with each point: only positions and values are modelled.
- Dashboard.Popularity: a non-empty text popularity makes the sort comparator return NaN, and the resulting order is implementation-defined. The model ranks such a row as 0.
- Dashboard.SortByPopularity: the contract does not state that `Array.prototype.sort` is stable. Among equally popular rows the order is left open.
- Dashboard.Anomalies: the corrected filter ignores blank cells. As written, a blank cell is read as 0 by `t.value - mean` and can itself be flagged.
- Dashboard.InEra: the era start is an integer; a `NaN` from `parseInt` on the era selector is not modelled.
- Aggregation.Group: the function's own contract states the length bound and membership only. Order is stated by `GroupAppend` with `GroupOne`, and multiplicity by `GroupCounts`.
- Anomaly.DropMissing: the function's own contract states the length bound only. Membership is stated by `DropMissingMembers`. Order is stated by `DropMissingAppend` with `DropMissingOne`, and multiplicity by `DropMissingCounts`.
- Insights.EraRows: the function's own contract states the length bound only. Membership is stated by `EraRowsMembers`. Order is stated by `EraRowsAppend` with `EraRowsOne`, and multiplicity by `EraRowsCounts`.
- Csv.KeepNonBlank: the function's own contract states the length bound and that every kept line is non-blank. Membership is stated by `KeepNonBlankMembers`. Order is stated by `KeepNonBlankAppend` with `KeepNonBlankOne`, and multiplicity by `KeepNonBlankCounts`.
- Dashboard.TrendRows: the function's own contract states the length bound and that every kept row passes both tests. Membership is stated by `TrendRowsMembers`. Order is stated by `TrendRowsAppend` with `TrendRowsOne`, and multiplicity by `TrendRowsCounts`.
- Dashboard.EraTracks: the function's own contract states the length bound and that every kept row lies in the decade. Membership is stated by `EraTracksMembers`. Order is stated by `EraTracksAppend` with `EraTracksOne`, and multiplicity by `EraTracksCounts`.
- Dashboard.CellsAt: the function's own contract states the length bound and that every cell is admitted. The list's contents and order are stated by `CellsAtAppend` with `CellsAtOne`.
- Anomaly.DropMissingMembers: states membership only. Order and multiplicity are stated by `DropMissingAppend`, `DropMissingOne` and `DropMissingCounts`.
- Insights.EraRowsMembers: states membership only. Order and multiplicity are stated by `EraRowsAppend`, `EraRowsOne` and `EraRowsCounts`.
- Csv.KeepNonBlankMembers: states membership only. Order and multiplicity are stated by `KeepNonBlankAppend`, `KeepNonBlankOne` and `KeepNonBlankCounts`.
- Dashboard.TrendRowsMembers: states membership only. Order and multiplicity are stated by `TrendRowsAppend`, `TrendRowsOne` and `TrendRowsCounts`.
- Dashboard.EraTracksMembers: states membership only. Order and multiplicity are stated by `EraTracksAppend`, `EraTracksOne` and `EraTracksCounts`.
- Dashboard.CellsOf: the function's own contract states the length bound and that every cell is admitted. The list's contents and order are stated by `CellsOfAppend` with `CellsOfOne`.
- Dashboard.AnomalyNumbers: the function's own contract states the length bound only. Its contents and order are stated by `AnomalyNumbersAppend` with `AnomalyNumbersOne`.
- Anomaly.DetectAnomalies: the default `threshold=2.0` is not modelled; the threshold is always an argument, as the one caller in app.py passes it.
- Anomaly.DetectAnomalies: positions are reported as in the source, into the cleaned series; mapping them back to original positions is the caller's concern.

## Findings

| source | as written | input that shows it | evidently intended | confidence | as-written member | corrected member |
|---|---|---|---|---|---|---|
| docs/dashboard-script-cwm.js:238-254 | The trend loop admits any value with `!isNaN(value)`. `isNaN('')` is false, so a blank cell joins the year's list. `reduce((a, b) => a + b, 0)` then switches to string concatenation. | One year whose `energy` cells are blank, 1 and 2, for example a short CSV line. The sum is `"012"` and the plotted mean is 12 / 3 = 4. | Only numeric cells count, so the plotted mean is 1.5. | not executed | Dashboard.BlankCellConcatenates | Dashboard.Trend |
| docs/dashboard-script-cwm.js:335-342 | The anomaly chart filters with the same `!isNaN` test and computes its mean with the same `reduce`. | The same cells: the mean is 4. | The mean of the numbers, 1.5. | not executed | Dashboard.BlankCellSkewsAnomalyMean | Dashboard.Anomalies |
