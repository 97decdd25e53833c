# Grade-10 entrance-exam score lookup: decision logic in Dafny

This project models the pure decision logic of a React front end for a
provincial (Nghệ An) grade-10 entrance-exam score lookup. It covers:

- how a candidate's total score (`tong_diem`) is put in a grade band:
  Giỏi, Khá, Trung bình or Yếu, with thresholds 25/17/11;
- how the leaderboard colours a score (thresholds 28/25/20);
- the three copies of `calculateDistribution`, which count students per band;
- the guards in front of the score-range and council searches;
- the fallbacks of the range inputs;
- the twelve-card preview;
- leaderboard ranks, podium, threshold counters and list sizes;
- on the bulk-search page: the list of number slots, the paste box that
  tokenises text, the search guard and the CSV rows of the export.

JavaScript values are modelled explicitly:

- `JsValues`: a record field is a `JsValue` (undefined, null, boolean,
  number, string). A parsed number is a `Score`, either `Num(v)` or `NaN`.
  Every comparison with `NaN` is false.
- `JsStrings`: `trim` uses the ECMAScript whitespace set, which is the same
  set as the regular-expression class `\s`. This module also has `join`
  and `split` on a single character.
- `JsNumbers`: `parseFloat` reads the longest decimal literal after leading
  whitespace. `Number(x)`, the coercion behind a comparison such as
  `x >= 25`, accepts a string only when its trimmed text is a single
  literal, and reads a blank string as 0.

The band cascade (`Grades.Classify`) is defined once. So is the distribution
(`Distribution.Tally`, a left fold that bumps one counter per score). The
counter loop of `calculateDistribution` is modelled once, as
`Distribution.CountTotals`, whose contract says it computes that fold. The
three copies are one-line methods that feed it their coerced totals. So the
two `parseFloat` copies agree by construction. Only the coercion of the
Statistics.js copy differs, and lemmas compare it with the other two.

The copy in src/pages/Statistics.js compares the raw `tong_diem` instead of
`parseFloat(tong_diem)`. The model proves that it agrees with the other two
copies whenever every total is "clean", which includes every JSON number.
It also exhibits a total, `"25a"`, on which the copies disagree.

A total that cannot be parsed is counted in the Yếu bucket, as the code does.

Modules follow the source files:

| module | file |
|---|---|
| `JsValues`, `JsStrings`, `JsNumbers` | js_values.dfy, js_strings.dfy, js_numbers.dfy |
| `Grades`, `StudentCard` | grades.dfy, student_card.dfy |
| `Students`, `Distribution` | students.dfy, distribution.dfy |
| `ScoreRangeStats`, `CouncilStats` | score_range_stats.dfy, council_stats.dfy |
| `StatisticsPage` | statistics_page.dfy |
| `TopScores` | top_scores.dfy |
| `BulkSearch` | bulk_search.dfy |

## Model

| member | source | states |
|---|---|---|
| JsStrings.Trim | src/pages/Statistics.js:43 | `trim` yields a string no longer than its input, with no whitespace at either end. |
| JsStrings.TrimBlank | src/pages/Statistics.js:43 | `trim` yields the empty string exactly when the input is all whitespace. |
| JsStrings.TrimSlice | src/pages/BulkSearch.js:43 | `trim` yields a contiguous slice of its input, and every character outside that slice is whitespace. |
| JsStrings.TrimIdempotent | src/pages/BulkSearch.js:43 | Trimming twice is the same as trimming once. |
| JsStrings.SplitJoin | src/pages/BulkSearch.js:85 | This row is about reading the exported CSV back, which the program does not do itself. `split(c)` undoes `join(c)` when there is at least one piece and no piece contains `c`. |
| JsStrings.SplitCount | src/pages/BulkSearch.js:85 | This row is about reading the exported CSV back, which the program does not do itself. `split(c)` yields one more piece than there are occurrences of `c`. |
| JsNumbers.DecimalPrefixLongest | src/components/StudentCard.js:6 | The prefix `parseFloat` reads is a decimal literal, and one more character would not extend it. |
| JsNumbers.DecimalPrefixNone | src/components/StudentCard.js:6 | When no prefix is read, no prefix of the text is a decimal literal, so `parseFloat` gives NaN only for text that starts with none. |
| JsNumbers.ParseFloatReadsTrimmed | src/components/StudentCard.js:6 | `parseFloat` of a string reads the literal at the start of the string's trimmed text. |
| JsNumbers.ParseFloatAgreesWithNumber | src/pages/Statistics.js:81 | On a number, or on a string whose trimmed text is exactly one literal, the raw comparison's `Number` coercion gives the same value as `parseFloat`. |
| Grades.Classify | src/components/StudentCard.js:13-19 | The cascade assigns one band per score. Giỏi is [25, ∞), Khá is [17, 25), Trung bình is [11, 17). Yếu is below 11 or NaN. A score on a boundary goes to the higher band. |
| Grades.ClassifyMonotone | src/components/StudentCard.js:13-19 | A higher score never lands in a lower band. |
| Grades.NaNIsWeakest | src/components/StudentCard.js:14-18 | An unparseable score is in the lowest band, the same band as 0. |
| StudentCard.GradeLevel | src/components/StudentCard.js:13-19 | The label is always one of the four band labels, the one of the band of `parseFloat(score)`. NaN gives 'Yếu'. |
| StudentCard.ScoreColor | src/components/StudentCard.js:5-11 | The colour class is the one of the same band that `GradeLevel` uses. |
| StudentCard.LabelsAndColoursDistinct | src/components/StudentCard.js:5-19 | Different bands have different labels and different colours. |
| StudentCard.ColourMatchesGrade | src/components/StudentCard.js:5-19 | Two scores get the same label exactly when they get the same colour. |
| Students.ParsedTotals | src/components/ScoreRangeStats.js:14 | One parsed total per student, in order. |
| Students.CoercedTotals | src/pages/Statistics.js:81 | One `Number`-coerced total per student, in order. |
| Distribution.Entries | src/components/ScoreRangeStats.js:6-11 | The object has exactly the four keys, in insertion order, each with its band's count. |
| Distribution.KeysDistinct | src/components/ScoreRangeStats.js:6-11 | The four keys are pairwise distinct, and every band has a key. |
| Distribution.TallyTotal | src/components/ScoreRangeStats.js:13-19 | The four counts add up to the number of scores. |
| Distribution.TallyStep | src/components/ScoreRangeStats.js:15-18 | Each student increments exactly the counter of their band. |
| Distribution.TallyCounts | src/components/ScoreRangeStats.js:13-19 | Each counter equals the number of scores in its band. |
| Distribution.TallyConcat | src/components/ScoreRangeStats.js:13-19 | The distribution of a concatenation is the pointwise sum of the two distributions. |
| Distribution.TallyPermutation | src/components/ScoreRangeStats.js:13-19 | The distribution does not depend on the order of the students. |
| Distribution.TallySameBands | src/components/ScoreRangeStats.js:15-18 | Score lists whose scores fall pairwise in the same bands have the same distribution. |
| Distribution.CountTotals | src/components/ScoreRangeStats.js:13-19 | The counting loop computes the band fold of its totals. The counts sum to the number of totals, and each count is the number of totals in its band. |
| ScoreRangeStats.CalculateDistribution | src/components/ScoreRangeStats.js:5-22 | The loop computes the band fold of the parsed totals. The counts sum to the number of students, and each count is the number of students in its band. |
| ScoreRangeStats.SumScores | src/components/ScoreRangeStats.js:45 | The `reduce` sum is NaN exactly when some term is NaN. |
| ScoreRangeStats.MeanCell | src/components/ScoreRangeStats.js:44-47 | The mean cell shows 'N/A' exactly when the list is absent or empty. When shown, it is NaN exactly when some total does not parse. |
| CouncilStats.CalculateDistribution | src/components/CouncilStats.js:5-22 | Same contract as the ScoreRangeStats copy, so the two copies compute the same function. |
| CouncilStats.TotalStudentsCell | src/components/CouncilStats.js:35 | Every falsy count shows 0: missing, 0, `""`, `false` or NaN. A truthy count is shown as it is. |
| CouncilStats.OrNotAvailable | src/components/CouncilStats.js:43-59 | Every falsy value shows 'N/A': missing, a score of exactly 0, `""`, `false` or NaN. A truthy value is shown as it is. The cell is never a falsy value. |
| StatisticsPage.HandleScoreRangeSearch | src/pages/Statistics.js:17-20 | The search proceeds exactly when 0 ≤ min ≤ max ≤ 30, and then requests exactly that range. Otherwise it sets the range error. |
| StatisticsPage.MinInput | src/pages/Statistics.js:154 | An unparseable minimum becomes 0. Any parsed number is taken as typed. |
| StatisticsPage.MaxInputAsWritten | src/pages/Statistics.js:168 | An unparseable maximum becomes 30, and so does a typed 0. |
| StatisticsPage.MaxInputZeroBecomesThirty | src/pages/Statistics.js:168 | With the code as written, typing 0 in both inputs requests [0, 30] instead of [0, 0]. |
| StatisticsPage.MaxInput | src/pages/Statistics.js:168 | The intended maximum: only an unparseable entry becomes 30. |
| StatisticsPage.TypedRangeIsQueried | src/pages/Statistics.js:153-168 | With the intended fallback, the typed range is requested exactly when it is valid, and refused otherwise. An unparseable minimum counts as 0 and an unparseable maximum as 30. |
| StatisticsPage.ZeroRangeIsQueried | src/pages/Statistics.js:153-168 | With the intended fallback, typing 0 in both inputs requests [0, 0]. |
| StatisticsPage.HandleCouncilSearch | src/pages/Statistics.js:43-53 | A blank code is refused with the message. Otherwise the request carries the trimmed code, which is non-empty. |
| StatisticsPage.CouncilButtonMatchesGuard | src/pages/Statistics.js:212 | When not loading, the council button is enabled exactly when the search would send a request. |
| StatisticsPage.CalculateDistribution | src/pages/Statistics.js:72-89 | The raw-compare loop computes the band fold of the `Number`-coerced totals. Its counts sum to the number of students. |
| StatisticsPage.CoercionKeepsBand | src/pages/Statistics.js:81-85 | On a clean total, the raw comparison and the parsed comparison choose the same band. |
| StatisticsPage.StatisticsCopyAgrees | src/pages/Statistics.js:80-86 | When every total is clean, this page's distribution equals the components' distribution. |
| StatisticsPage.StatisticsCopyDiverges | src/pages/Statistics.js:81-85 | For a total of "25a", the components count Giỏi but this page counts Yếu. |
| StatisticsPage.StudentPreview | src/pages/Statistics.js:309-316 | The preview shows the first min(n, 12) students in order. The "others" line appears exactly when n > 12, and shown + others = n. |
| TopScores.RankIcon | src/pages/TopScores.js:36-47 | The star is returned exactly for index ≥ 3. |
| TopScores.RankStyle | src/pages/TopScores.js:49-60 | The default style is returned exactly for index ≥ 3. |
| TopScores.PodiumStylesDistinct | src/pages/TopScores.js:36-60 | Places 1-3 each have their own icon and style. All later places share the default. |
| TopScores.RankBadge | src/pages/TopScores.js:254-258 | The first three places show a podium icon. Index i ≥ 3 shows the number i + 1. |
| TopScores.BadgesDistinct | src/pages/TopScores.js:254-258 | No two places show the same badge. |
| TopScores.ScoreColor | src/pages/TopScores.js:62-68 | Purple is [28, ∞), green is [25, 28), blue is [20, 25). Gray is below 20 or NaN. |
| TopScores.ColourAgreesWithGioi | src/pages/TopScores.js:64-65 | A score is purple or green exactly when the card's band for it is Giỏi. |
| TopScores.PodiumOf | src/pages/TopScores.js:123 | The podium exists exactly when there are at least 3 students, and it shows the first three. |
| TopScores.CountAtLeast | src/pages/TopScores.js:331 | The threshold count never exceeds the number of students. |
| TopScores.CountAtLeastAntitone | src/pages/TopScores.js:331-337 | Raising the threshold never raises the count. |
| TopScores.ThresholdCountsOrdered | src/pages/TopScores.js:331-337 | count(≥ 25) ≤ count(≥ 20) ≤ n. |
| TopScores.ExcellentCountIsGioiBucket | src/pages/TopScores.js:331 | The "≥ 25" counter equals the Giỏi count of the distribution. |
| TopScores.LimitAfter | src/pages/TopScores.js:98-101 | After any sequence of clicks, the limit is one of 10, 25, 50 and 100, and it is the last one clicked. |
| BulkSearch.EditSlot | src/pages/BulkSearch.js:13-17 | The length is kept, slot i holds the new value, and every other slot is unchanged. |
| BulkSearch.AddSlot | src/pages/BulkSearch.js:19-21 | Exactly one empty slot is appended, and the existing slots are unchanged. |
| BulkSearch.WithoutIndex | src/pages/BulkSearch.js:25 | Filtering out index i removes exactly slot i, in order. An index out of range changes nothing. |
| BulkSearch.RemoveSlot | src/pages/BulkSearch.js:23-28 | The list never becomes empty. With more than one slot, exactly slot i is removed and the order of the rest is kept. |
| BulkSearch.SplitSeparated | src/pages/BulkSearch.js:31-33 | Take words with no separator in them, put a non-empty run of newlines, commas or spaces between each two, and allow such runs at either end. The regex split of that text gives exactly those words, plus one empty piece for each end that has a run. |
| BulkSearch.SplitPiecesAreWords | src/pages/BulkSearch.js:32-33 | No piece of the regex split contains a separator. |
| BulkSearch.Valid | src/pages/BulkSearch.js:42-44 | The entries kept are trimmed and non-empty. There are at most as many as the inputs. |
| BulkSearch.ValidConcat | src/pages/BulkSearch.js:42-44 | `validSbds` works entry by entry: it distributes over concatenation. |
| BulkSearch.ValidSingle | src/pages/BulkSearch.js:42-44 | A single entry is kept, trimmed, exactly when it is not blank. |
| BulkSearch.ValidEmpty | src/pages/BulkSearch.js:42-46 | Nothing is kept exactly when every entry is blank after trimming. |
| BulkSearch.TextareaEntries | src/pages/BulkSearch.js:30-39 | The list is never empty, and each entry is a non-empty word with no separator. The result is `['']` exactly when the text is only separators. |
| BulkSearch.WordsKeepText | src/pages/BulkSearch.js:32-35 | The words taken from the text hold exactly its non-separator characters, in order. |
| BulkSearch.PasteSeparated | src/pages/BulkSearch.js:30-39 | Pasting words with no separator in them, with a non-empty run of newlines, commas or spaces between each two and optional runs at either end, fills the slots with exactly those words. So the placeholder's "0100001, 0100002, 0100003" gives three slots. |
| BulkSearch.PasteJoined | src/pages/BulkSearch.js:30-39 | Pasting words joined by any one separator character gives back exactly those words. |
| BulkSearch.PasteIdempotent | src/pages/BulkSearch.js:30-39 | Pasting the result back, one entry per line, changes nothing. |
| BulkSearch.HandleSearch | src/pages/BulkSearch.js:41-49 | The search is refused with the message exactly when every entry is blank after trimming. Otherwise it sends the valid numbers, of which there is at least one. |
| BulkSearch.ButtonMatchesGuard | src/pages/BulkSearch.js:170 | When not loading, the button is disabled exactly when the search would be refused. |
| BulkSearch.StudentRow | src/pages/BulkSearch.js:76-84 | Each row has seven cells with the number first. Each other cell is its value when truthy and '' when falsy. |
| BulkSearch.ExportRows | src/pages/BulkSearch.js:71-85 | Nothing is exported when `results` or `found` is absent. Otherwise there is the header plus one seven-cell row per found student, in order. |
| BulkSearch.CsvReadsBack | src/pages/BulkSearch.js:74-85 | When no cell contains a comma or a line break, the CSV text has one line per row. Each line splits back into that row's cells. |
| BulkSearch.CommaInCellAddsField | src/pages/BulkSearch.js:85 | Cells are not quoted, so a comma inside a cell makes its line read back with more fields than the row has. |

## Left out

- src/services/api.js and test_api.js are not part of this model. They are
  HTTP calls, interceptors and logging. Each search result here is a plain
  parameter.
- App.js, Home.js, Footer.js, LoadingSpinner.js and StudentLookup.js are not
  modelled. They are static rendering, plus one blank-code check of the same
  shape as `HandleCouncilSearch`.
- React state, `useEffect`, loading and error flags, async sequencing and
  rendering are left out. Each handler is a function from the current state
  to the new state or outcome.
- The shown value of the mean (floating-point division, `toFixed`),
  `Math.max`/`Math.min` and `toLocaleString` are left out. Only the
  'N/A'-versus-value decisions are modelled.
- Number-to-text formatting is left out. `CellText` takes the engine's
  number formatting as a parameter.
- The Blob, URL and DOM download in `exportResults` and the date in the file
  name are left out, because they are browser I/O.
- JsNumbers.ParseFloat: numbers are exact reals, not IEEE doubles, so no
  rounding happens. `"24.99999999999999999"` reads as a value below 25,
  while JavaScript rounds it to 25. Exponents are not read: `"2.5e1"` reads
  as 2.5, while JavaScript gives 25. `Infinity` and negative zero are not
  modelled.
- JsNumbers.ToNumber: the same rounding gap as `ParseFloat`. A string with
  an exponent such as `"2.5e1"` gives NaN, while JavaScript gives 25. Hex,
  octal and binary literals also give NaN rather than their values.
  `"Infinity"`, `"+Infinity"` and `"-Infinity"` give NaN rather than
  Infinity. So in `StatisticsPage.CalculateDistribution` a total of
  `"Infinity"` is counted as Yếu, where JavaScript counts it as Giỏi.
- StatisticsPage.MinInput: inherits both gaps of `ParseFloat`. This matters
  because a `type="number"` input can hold `"2e1"`: JavaScript reads 20, the
  model reads 2. Digits beyond double precision are kept exactly.
- StatisticsPage.MaxInput: the same gaps as `MinInput`. So does
  `MaxInputAsWritten`.
- JsValues.JsValue has no objects or arrays. API fields are taken to be
  scalars (numbers, strings, booleans, null or missing). A field holding an
  object or array would be truthy in JavaScript, and that case is not
  modelled.
- BulkSearch.EditSlot requires the index to be a rendered slot. The handler
  is only bound to those. Writing past the end would leave holes in the
  array. `map`, `filter` and `every` skip holes. Only the next
  `[...sbdList]` spread turns a hole into `undefined`, and only after that
  would `trim` throw.
- The `topStudents[0]?.tong_diem || 'N/A'` cell of TopScores.js:316 is not
  modelled separately. It is the `OrNotAvailable` fallback applied to the
  first record.
- The mean cell of TopScores.js (lines 322-325) is `MeanCell` applied to a
  list that is present.

## Findings

| source | as written | input that shows it | evidently intended | confidence | as-written member | corrected member |
|---|---|---|---|---|---|---|
| src/pages/Statistics.js:168 | `parseFloat(value) \|\| 30` treats a typed 0 as falsy and replaces it with 30 | type 0 in both the minimum and the maximum input, then search: the request is [0, 30] | only an unparseable entry falls back to 30, so [0, 0] can be requested | medium, not executed | StatisticsPage.MaxInputZeroBecomesThirty | StatisticsPage.TypedRangeIsQueried |
