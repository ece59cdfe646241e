# Hardware-monitoring CSV pipeline: a Dafny model

This project models the normalisation and inference pipeline of a
hardware-monitoring dashboard. The pipeline turns the text of a sensor-log
CSV export into a chart-ready dataset. It recovers:

- the header list;
- the data rows, with blank rows, header-echo rows and rows lacking a date or
  time dropped;
- the date and time columns, and from them the time mode (`date-time`,
  `single` or `index`);
- the first and last timestamps and the run's duration;
- the columns numeric enough to chart;
- the de-duplicated parser warnings.

It then partitions the numeric columns into CPU, GPU, RAM and Other sections.
Each section's columns are grouped three to a chart card. Each series gets a
key and a palette colour, and each row gets one chart point.

Modules follow the program's structure:

| module | file | what it holds |
|---|---|---|
| `Seqs` | seqs.dfy | order-preserving filter, subsequences, first-match search, first-occurrence de-duplication |
| `Text` | text.dfy | JavaScript `trim`, ASCII case-insensitive keyword search, the `\b` word boundary, digit runs, `parseInt`, `padStart` |
| `Values`, `Host` | values.dfy | cells, rows as maps, `Option`/`Result`, and `Env`, the host functions the pipeline calls |
| `CsvLib` | csvlib.dfy | the library leaves: time-key detection, numeric coercion, numeric-column detection, classification, chunking |
| `TimeFormats` | timeformats.dfy | the time-of-day reader and the absolute-timestamp reader |
| `Cleanup` | cleanup.dfy | byte-order-mark removal and repair of a quoted header line |
| `Parser` | parser.dfy | the parse hook's body, from file text to parsed state or error |
| `Charts` | charts.dfy | series keys and colours, chart points, category sections, chart groups |

Each regular expression is modelled as a recogniser. It is proved to accept
only text of the pattern's shape, with the captured groups (in its
contract). A completeness lemma shows every such text is accepted with
exactly those groups. Keyword regexes without `\b` are case-insensitive
substring tests; `/\bdate\b/i` and `/\btime\b/i` are word-boundary tests.
The keywords are lower-case ASCII. A regex without the `u` flag folds case by
upper-casing and never maps a non-ASCII character onto an ASCII one, and its
`\b` looks only at `[A-Za-z0-9_]`. So folding ASCII letters alone is exact for
these keywords.

The tokeniser is a third-party library and is not part of this model. Its two
passes are fields of `Host.Env`:
- the header pass yields trimmed header fields, row objects and error
  messages;
- the headerless pass yields string fields per line.

The pipeline is modelled on their outputs. A row is a map from header to
`Cell`. A key that is absent from the map reads as `Undefined`, kept apart
from `Null` and from the empty string.

Where the source and its design description disagree, the model follows the
source:
- headerless files get columns named `Colonne 1`, `Colonne 2`, … (not
  `Column n`);
- only the first decimal comma of a string is rewritten before float parsing;
- the two "no rows" failures carry different messages ("No valid rows after
  parsing." and "No valid data rows after filtering.");
- headers are not de-duplicated, so two columns with the same title share
  one key of the row map;
- lines are re-joined with a bare line feed only when the quoted-header
  repair runs. So carriage returns survive otherwise, and every CRLF in the
  file becomes LF when the repair runs.

A stamp that reads as a time beyond 8.64·10^15 milliseconds from the epoch
(the range of an ECMAScript time value) makes `new Date(…)` invalid, and
`Intl.DateTimeFormat.format` then throws a `RangeError`. The handler is
asynchronous and invoked without a catch. The parse therefore aborts after
the previous error was cleared, sets no state and shows no message. The model
reports this as the error `InvalidTimeValue`, which has no message.

The source tests a raw stamp for truthiness before reading it as a date. A
falsy stamp never reads as one, so the test changes nothing.

## Model

| member | source | states |
|---|---|---|
| CsvLib.DetectTimeKey | src/lib/csv.ts:18-22 | the result is the first header mentioning time, date, timestamp, recorded or log (case-insensitively), every earlier header mentions none, and the result is absent exactly when no header mentions one |
| CsvLib.CoerceNumber | src/lib/csv.ts:24-40 | null, undefined and the empty string give no number; a finite number is returned unchanged; infinities, booleans and dates give none; a non-empty string gives the float parse of the string with its first comma turned into a point |
| CsvLib.CoerceExamples | src/lib/csv.ts:33-36 | with a float parser that reads "12.5" and rejects "abc", "12,5" coerces to 12.5 and "abc" to nothing |
| CsvLib.ColumnIsNumeric | src/lib/csv.ts:120-134 | the one-pass count of non-empty samples and numeric samples, compared as a ratio with 0.6, accepts a column exactly when it has a sample and 5·numeric ≥ 3·samples |
| CsvLib.RatioThreshold | src/lib/csv.ts:134 | the ratio test numeric/samples ≥ 0.6 is equivalent to the integer test 5·numeric ≥ 3·samples |
| CsvLib.GetNumericColumns | src/lib/csv.ts:118-136 | the result is an order-preserving subsequence of the headers holding exactly the numeric headers |
| CsvLib.Classify | src/lib/csv.ts:144-153 | a header is CPU exactly when it mentions a CPU keyword, GPU exactly when it mentions a GPU keyword and no CPU keyword, RAM exactly when it mentions a RAM keyword and neither of the others, and Other exactly when it mentions none |
| CsvLib.NoSamplesNotNumeric | src/lib/csv.ts:125-134 | a column whose every cell is null, undefined or empty is never numeric |
| CsvLib.CategorizeColumns | src/lib/csv.ts:138-157 | each bucket is exactly the headers of its category, in input order |
| CsvLib.CategorizePartition | src/lib/csv.ts:138-157 | every header lies in exactly the bucket of its category, and the four buckets together hold the headers with their multiplicities |
| CsvLib.ClassifyCpuExamples | src/lib/csv.ts:14 | "CPU Package Power" and "AMD CPU Core" are CPU columns: the CPU rule wins over GPU |
| CsvLib.ClassifyGpuExample | src/lib/csv.ts:144-149 | "GPU Memory" is a GPU column: the GPU rule is tried before the RAM rule |
| CsvLib.ClassifyRamExample | src/lib/csv.ts:16 | "Physical Memory Used" is a RAM column |
| CsvLib.ClassifyOtherExample | src/lib/csv.ts:150-153 | "Fan Speed" matches no rule and is an Other column |
| CsvLib.ChunkArray | src/lib/csv.ts:159-165 | the chunks concatenate back to the items, each is non-empty with at most `size` items, and all but the last have exactly `size` |
| CsvLib.ChunkCount | src/lib/csv.ts:159-165 | there are no chunks for no items, and otherwise the fewest chunks of `size` that can hold every item |
| TimeFormats.MatchTimeOnly | src/lib/csv.ts:11 | an accepted text is exactly hours, minutes and seconds of one or two digits joined by colons, with an optional dot and digit fraction |
| TimeFormats.MatchTimeOnlyComplete | src/lib/csv.ts:11 | every text of that shape is accepted, with exactly its groups |
| TimeFormats.Millis3 | src/lib/csv.ts:56 | the fraction read as milliseconds is at most 999 |
| TimeFormats.ParseTimeOnly | src/lib/csv.ts:42-62 | non-strings, numbers included, give no time; a string gives a time exactly when its trimmed form matches the pattern, and then it is the milliseconds of the matched hours, minutes, seconds and fraction; every time is at most 99·3600000 + 99·60000 + 99·1000 + 999 |
| TimeFormats.ParseTimeOnlyText | src/lib/csv.ts:47-57 | reading a time-of-day text gives hours·3600000 + minutes·60000 + seconds·1000 + the first three fraction digits right-padded with zeros |
| TimeFormats.MatchEuroDate | src/lib/csv.ts:12-13 | an accepted text is exactly day and month of one or two digits, a four-digit year, whitespace and a time of day |
| TimeFormats.MatchEuroDateComplete | src/lib/csv.ts:12-13 | every text of that shape is accepted, with exactly its groups |
| TimeFormats.EpochMillis | src/lib/csv.ts:73-83 | a number is a timestamp exactly when it exceeds 10^9, every timestamp lies above 10^12 milliseconds, and numbers above 10^12 are returned unchanged |
| TimeFormats.ParseDateText | src/lib/csv.ts:85-89 | whitespace-only strings give no timestamp |
| TimeFormats.ParseDateValue | src/lib/csv.ts:64-116 | null, undefined, empty and whitespace-only values give no timestamp; valid dates pass through; numbers follow the magnitude heuristic; booleans and infinities give none |
| TimeFormats.EpochSecondsAgreeWithMillis | src/lib/csv.ts:74-80 | an epoch in seconds and the same epoch in milliseconds read as the same instant |
| TimeFormats.ParseEuroDateText | src/lib/csv.ts:91-112 | a day-first timestamp reaches the Date constructor with zero-based month and the fraction cut or padded to milliseconds; only an invalid result falls through to the generic parser on the slash-to-hyphen text |
| Cleanup.StripBom | src/components/csv-dashboard.tsx:125-127 | exactly one leading U+FEFF is removed, and nothing else changes |
| Cleanup.CrlfToLfNoCr | src/components/csv-dashboard.tsx:129-137 | text without carriage returns is unchanged by turning CRLF into LF |
| Cleanup.JoinSplit | src/components/csv-dashboard.tsx:129-137 | splitting on `\r?\n` and re-joining with `\n` turns every CRLF into LF and changes nothing else |
| Cleanup.CollapseKeepsUnquoted | src/components/csv-dashboard.tsx:134 | collapsing tripled quotes removes only quotes |
| Cleanup.CollapseWithoutQuotes | src/components/csv-dashboard.tsx:134 | text without quotes is left unchanged by the collapse |
| Cleanup.CollapseRemovesEvenCount | src/components/csv-dashboard.tsx:134 | the collapse removes an even number of characters (two per tripled quote) |
| Cleanup.RemovePairsKeepsUnquoted | src/components/csv-dashboard.tsx:135 | deleting doubled quotes removes only quotes |
| Cleanup.RemovePairsLeavesNoPair | src/components/csv-dashboard.tsx:135 | after deleting doubled quotes no two adjacent quotes remain |
| Cleanup.RemovePairsWithoutPair | src/components/csv-dashboard.tsx:135 | text without two adjacent quotes is left unchanged by the deletion |
| Cleanup.RemovePairsRemovesEvenCount | src/components/csv-dashboard.tsx:135 | the deletion removes an even number of quotes |
| Cleanup.RewritesKeepFirstChar | src/components/csv-dashboard.tsx:134-135 | neither rewrite touches a leading non-quote character |
| Cleanup.RunSurvivorsClosedForm | src/components/csv-dashboard.tsx:134-135 | a run of k quotes leaves (k div 3 + k mod 3) mod 2 quotes after both rewrites |
| Cleanup.RepairIsRunwise | src/components/csv-dashboard.tsx:134-135 | the two global rewrites in sequence equal the run-wise reference repair: every non-quote character kept in order, and each maximal run of k quotes replaced by that many survivors |
| Cleanup.CleanHeaderLine | src/components/csv-dashboard.tsx:131-135 | the repaired header differs from the line only by removed quotes and holds no doubled quote |
| Cleanup.CleanHeaderLineRuns | src/components/csv-dashboard.tsx:131-135 | the repaired header is the run-wise repair of the line without its outer quotes |
| Cleanup.CleanHeaderKeepsEscapedQuote | src/components/csv-dashboard.tsx:131-135 | the header `"a"""b"` is repaired to `a"b`: its outer quotes go and a tripled quote inside survives as one quote |
| Cleanup.CleanPlainQuotedHeader | src/components/csv-dashboard.tsx:130-136 | a header wrapped in one pair of quotes with none inside is simply unwrapped |
| Cleanup.PrepareText | src/components/csv-dashboard.tsx:125-138 | after the BOM is stripped, when the first line starts with a quote and holds a comma it is replaced by its repair and the rest of the text has CRLF turned into LF; otherwise the text is left as it is |
| Cleanup.PrepareTextReplacesFirstLineOnly | src/components/csv-dashboard.tsx:125-138 | for text without carriage returns, only the first line is touched, and it is repaired exactly when it starts with a quote and holds a comma |
| Parser.HasValue | src/components/csv-dashboard.tsx:148-152 | a row holds a value exactly when some key maps to a cell that is neither null, undefined nor the empty string |
| Parser.NamedFields | src/components/csv-dashboard.tsx:147 | the header fields are those of the header pass that are non-empty, in order and with their repetitions |
| Parser.FallbackHeaders | src/components/csv-dashboard.tsx:169-171 | n generated column names, the i-th being "Colonne i+1", pairwise distinct and non-empty |
| Parser.FallbackTable | src/components/csv-dashboard.tsx:169-177 | the headers are sized after the first line, and there is one row object per line, zipping the headers with the line's fields |
| Parser.FallbackCell | src/components/csv-dashboard.tsx:172-177 | a fallback row maps exactly the generated names, and column j to field j of its line, or null past the line's end |
| Parser.Tabulate | src/components/csv-dashboard.tsx:147-178 | with named header fields, the rows are the header pass's rows holding some value, in order and with their repetitions; otherwise the headerless lines are used, and there is no table exactly when every headerless line is empty |
| Parser.FindWordHeader | src/components/csv-dashboard.tsx:186-188 | the first header holding the word as a standalone token; absent exactly when no header does |
| Parser.FilterTimeRows | src/components/csv-dashboard.tsx:191-224 | the kept rows are a subsequence of the input; where a date or time column exists they are exactly the rows that echo no title and have a date and time, each with its multiplicity in the input; without such columns nothing is dropped |
| Parser.FilterTimeRowsEmpty | src/components/csv-dashboard.tsx:191-230 | the filter drops every row exactly when no row passes the time-row test |
| Parser.FilterTimeRowsIdempotent | src/components/csv-dashboard.tsx:191-224 | filtering the kept rows again removes nothing |
| Parser.ChooseTimeMode | src/components/csv-dashboard.tsx:235-244 | date-time mode with the time column as key exactly when both a date and a time column exist; single mode on the detected key; index mode exactly when there is no key |
| Parser.WordHeaderIsTimeHeader | src/components/csv-dashboard.tsx:186-189 | a header naming date or time as a word also mentions a time keyword |
| Parser.TimeModeIndexIff | src/components/csv-dashboard.tsx:186-189 | index mode is chosen exactly when no header mentions a time keyword |
| Parser.StampMillisIsParse | src/components/csv-dashboard.tsx:246-265 | testing the raw stamp for truthiness before parsing it, and turning undefined into null, change nothing about the parsed instant |
| Parser.FormatDuration | src/components/csv-dashboard.tsx:270-280 | there is a label exactly for non-negative durations, shaped as three colon-separated fields |
| Parser.FormatDurationFields | src/components/csv-dashboard.tsx:274-279 | the label's fields are the unique hours, minutes below 60 and seconds below 60 adding up to the whole seconds, each padded to two digits |
| Parser.FormatDurationRoundTrip | src/components/csv-dashboard.tsx:270-280 | a duration label below 100 hours reads back as a time of day equal to the duration cut to whole seconds |
| Parser.DurationBetween | src/components/csv-dashboard.tsx:285-291 | there is a duration label exactly when both ends read as times of day and the last is not earlier than the first |
| Parser.DurationLabel | src/components/csv-dashboard.tsx:282-291 | there is a duration label exactly when a time key exists, the first and last rows' time cells both read as times of day, and the last is not earlier; it is then the formatted difference |
| Parser.Warnings | src/components/csv-dashboard.tsx:297-306 | the warnings are distinct and are exactly the error messages that mention neither "Too few fields" nor "Too many fields" |
| Parser.WarningsOrder | src/components/csv-dashboard.tsx:297-306 | the warnings are listed in the order of their first occurrence among the errors |
| Parser.DisplayedWarnings | src/components/csv-dashboard.tsx:604 | at most four warnings are shown, and they are the first ones |
| Parser.ChartableColumns | src/components/csv-dashboard.tsx:293-295 | the numeric columns are the numeric headers other than the time key, in header order and each as often as it occurs among the headers |
| Parser.Summarize | src/components/csv-dashboard.tsx:232-329 | the only failure is an out-of-range time value; a parsed state keeps the file name, headers, rows and date key, picks mode and key by the mode rule, sets the parsed-time flag only with a parsed last instant in the range of `Date`, carries the duration of the first and last rows, exactly the numeric columns other than the time key (in header order, with repetitions), and the warnings; index mode always succeeds with the row count and no stamp, label or duration |
| Parser.SummarizeSingleStamps | src/components/csv-dashboard.tsx:246-324 | in single mode the parse fails exactly when the last row's time cell reads as a time outside the range of `Date`; otherwise time parsed exactly when both end cells read as non-zero instants, the last timestamp is the end instant, else the cell, else the row count, and the label is the formatted instant, else the text of a truthy cell |
| Parser.SummarizeDateTimeStamps | src/components/csv-dashboard.tsx:246-324 | in date-time mode the same, reading the joined date and time texts: the last timestamp is the end instant or else the joined text, and the label is the formatted instant, else the non-empty joined text |
| Parser.ParseTable | src/components/csv-dashboard.tsx:180-329 | no rows, every row dropped by the time-row test, and an out-of-range last stamp are each reported exactly in their situation and are the only failures; a parsed state is consistent, keeps the headers and exactly the rows the time filter keeps, and is in date-time mode exactly when headers name both date and time as words, in index mode exactly when no header mentions a time keyword |
| Parser.ParseCsv | src/components/csv-dashboard.tsx:118-178 | whitespace-only text is reported as an empty file, a text without a table as having no data, and any other text is decided by the table of its prepared text |
| Parser.ParseCsvOutcomes | src/components/csv-dashboard.tsx:118-329 | each of the five outcomes (empty file, no data, no rows, every row filtered out, out-of-range time value) happens exactly in its situation, stated on the file text; a parsed state is consistent and keeps exactly the filtered rows of the tabulated ones |
| Charts.SeriesKeys | src/components/csv-dashboard.tsx:359 | one series per column, in column order, the i-th keyed "series_i", with pairwise distinct keys |
| Charts.SeriesConfig | src/components/csv-dashboard.tsx:63-71 | the configuration has an entry exactly for the keys of the series |
| Charts.SeriesConfigEntry | src/components/csv-dashboard.tsx:63-71 | a series whose key does not recur later is configured with its column's label and the palette colour of its position |
| Charts.ChartPoint | src/components/csv-dashboard.tsx:81-106 | point i is numbered i+1 and carries the series values; without a time axis it has no position or stamp; in date-time mode its stamp is the joined date and time text, in single mode the time cell's text; on a time axis its position is the instant the summary reads from the row's raw stamp when stamps parsed and that instant is non-zero, else i+1 |
| Charts.PointAtStamp | src/components/csv-dashboard.tsx:88-96 | once stamps parsed, a row whose raw stamp reads as a non-zero instant is placed at exactly that instant |
| Charts.CardConfig | src/components/csv-dashboard.tsx:63-71 | in a chart card, series i is configured with column i's label and palette colour i mod 5 |
| Charts.BuildChartData | src/components/csv-dashboard.tsx:81-107 | one point per row in row order, point i numbered i+1, a position and raw stamp exactly when the chart has a time axis, position i+1 whenever stamps did not parse |
| Charts.ChartValue | src/components/csv-dashboard.tsx:101-103 | with distinct series keys, a point's value for a series is the coerced cell of that series' column |
| Charts.ChartEndsAgreeWithSummary | src/components/csv-dashboard.tsx:88-96 | when stamps parsed, the chart places the last row at the parsed-state's last timestamp and the first row at a non-zero instant |
| Charts.CategoryColumns | src/components/csv-dashboard.tsx:535-549 | the sections are the categorisation of the numeric headers: a header lies in a section exactly when it is a numeric column of that category, and the four sections together hold the numeric headers with their multiplicities |
| Charts.ChartGroups | src/components/csv-dashboard.tsx:483 | a section's columns split into the fewest groups of at most three, concatenating back to the columns |

## Left out

- Tokenisation (Papa.parse) with header sniffing, greedy blank-line skipping and dynamic typing is a third-party library that is not part of this model. Both of its passes are inputs through `Host.Env`.
- Float semantics: `Number.parseFloat` followed by `Number.isFinite` is an abstract function returning an optional real, so NaN and the infinities are "no number". Numbers in cells are finite reals. The `Infinite` cell stands for a `±Infinity` value, should the tokeniser yield one, and it gives no number.
- The `Date` constructor, `Date.parse`, `String()` of numbers and dates, and the `Intl.DateTimeFormat` labels depend on the host and its time zone and are abstract functions. The model extracts the day-first fields and passes them on. A round trip from a formatted epoch back to the same instant therefore depends on the host and is not stated.
- TimeFormats.ParseDateValue: no finiteness test of a date's time value beyond its optional value, because `Date` objects are abstract.
- Parser.FormatDuration: `Number.isFinite` on the duration is not modelled, because durations are differences of natural numbers and are always finite.
- React state and hooks, the asynchronous file read, the dynamic import, drag-and-drop handlers, chart rendering and markup are UI plumbing and are not modelled. So is the stale-parse race.
- The page layout and the sidebar (src/app/layout.tsx, src/components/app-sidebar.tsx) are static presentation with no logic.
- The unhandled `RangeError` rejection itself (its console report) is not modelled: an out-of-range time value is the error `InvalidTimeValue`, and the model promises no message for it.
- Extra fields of ragged rows, which the tokeniser files under a reserved key, are not modelled, because the tokeniser is abstract.
