/**
  The dashboard's parse pipeline: from the raw file text to the parsed state
  (headers, rows, time keys, time mode, last timestamp, duration, numeric
  columns and warnings), or to one of the four user-facing errors.
 */
module Parser {
  import opened Values
  import opened Host
  import opened Seqs
  import opened Text
  import opened CsvLib
  import opened TimeFormats
  import opened Cleanup

  /** How rows are placed on the horizontal axis: by a date column joined
      with a time column, by a single time column, or by row number. */
  datatype TimeMode = DateTime | Single | Index

  /** The outcomes other than a parsed state. `InvalidTimeValue` is the
      `RangeError` the date formatter throws for a last timestamp outside the
      range of `Date`: the asynchronous handler rejects after clearing the
      error, so no message and no new state appear. */
  datatype ParseError = EmptyFile | NoData | NoRowsAfterParsing | NoRowsAfterFiltering | InvalidTimeValue {
    /** The message shown to the user, if any. */
    function Message(): Option<string> {
      match this
      case EmptyFile => Some("The file is empty.")
      case NoData => Some("No data detected in the CSV.")
      case NoRowsAfterParsing => Some("No valid rows after parsing.")
      case NoRowsAfterFiltering => Some("No valid data rows after filtering.")
      case InvalidTimeValue => None
    }
  }

  /** The largest magnitude of a time value, 100,000,000 days in
      milliseconds (the TimeClip operation of ECMA-262); a `Date` built from
      anything larger is invalid and `Intl.DateTimeFormat` refuses to format
      it. */
  const MaxTimeValue: real := 8640000000000000.0

  predicate IsTimeValue(ms: real) {
    -MaxTimeValue <= ms <= MaxTimeValue
  }

  /** `lastTimestamp`: epoch milliseconds when the last row's stamp parsed,
      else the raw stamp, else the row count. */
  datatype Stamp = StampMs(ms: real) | StampRaw(raw: Cell) | StampCount(count: nat)

  /** The parsed state handed to the dashboard. */
  datatype ParsedCsv = ParsedCsv(
    fileName: string,
    headers: seq<string>,
    rows: seq<Row>,
    dateKey: Option<string>,
    timeKey: Option<string>,
    timeMode: TimeMode,
    lastTimestamp: Stamp,
    lastTimestampLabel: Option<string>,
    timeParsed: bool,
    durationLabel: Option<string>,
    numericColumns: seq<string>,
    warnings: seq<string>)

  // ---------------------------------------------------------------------------
  // Tabulation: header pass, empty-row drop, headerless fallback
  // ---------------------------------------------------------------------------

  datatype Table = Table(headers: seq<string>, rows: seq<Row>)

  /** `Object.values(row).some(…)`: some value of the row is neither
      `null`, `undefined` nor `""`; equivalently, some key holds such a
      value. */
  function HasValue(row: Row): (b: bool)
    ensures b <==> exists k :: k in row && !IsBlank(row[k])
  {
    exists v :: v in row.Values && !IsBlank(v)
  }

  /** The header fields of the header pass with empty names dropped, in
      their order and with their repetitions. */
  function NamedFields(pass: HeaderPass): (r: seq<string>)
    ensures forall h :: h in r <==> h in pass.fields.GetOr([]) && h != ""
    ensures IsSubseq(r, pass.fields.GetOr([]))
    ensures forall h :: multiset(r)[h] == if h != "" then multiset(pass.fields.GetOr([]))[h] else 0
  {
    var fields := pass.fields.GetOr([]);
    FilterIsSubseq(fields, h => h != "");
    FilterMultiplicity(fields, h => h != "");
    Filter(fields, h => h != "")
  }

  /** The generated name of column `i` (counting from 0) in a file without a
      header row. */
  function ColumnLabel(i: nat): string {
    "Colonne " + NatToString(i + 1)
  }

  /** Generated names never collide. */
  lemma ColumnLabelInjective(i: nat, j: nat)
    requires ColumnLabel(i) == ColumnLabel(j)
    ensures i == j
  {
    var a := ColumnLabel(i);
    var b := ColumnLabel(j);
    assert a[8..] == NatToString(i + 1);
    assert b[8..] == NatToString(j + 1);
    NatToStringInjective(i + 1, j + 1);
  }

  function FallbackHeaders(n: nat): (r: seq<string>)
    ensures |r| == n && NoDup(r)
    ensures forall i :: 0 <= i < n ==> r[i] == ColumnLabel(i) && r[i] != ""
  {
    var r := seq(n, i requires 0 <= i => ColumnLabel(i));
    assert NoDup(r) by {
      forall i, j | 0 <= i < j < n ensures r[i] != r[j] {
        if r[i] == r[j] {
          ColumnLabelInjective(i, j);
        }
      }
    }
    r
  }

  /** Cell `j` of a headerless row: the field as a string, or `null` past the
      end of a short row. */
  function CellAt(cells: seq<string>, j: nat): Cell {
    if j < |cells| then Str(cells[j]) else Null
  }

  /** The row object built by folding the headers left to right, each
      assigning its cell; for a repeated header the last assignment wins. */
  function ZipRow(headers: seq<string>, cells: seq<string>): (r: Row)
    ensures forall h :: h in r <==> h in headers
    decreases |headers|
  {
    if headers == [] then map[]
    else
      var n := |headers| - 1;
      ZipRow(headers[..n], cells)[headers[n] := CellAt(cells, n)]
  }

  /** Each header that does not occur again later holds its own cell. */
  lemma {:induction false} ZipRowCell(headers: seq<string>, cells: seq<string>, j: nat)
    requires j < |headers| && headers[j] !in headers[j + 1..]
    ensures ZipRow(headers, cells)[headers[j]] == CellAt(cells, j)
    decreases |headers|
  {
    var n := |headers| - 1;
    if j < n {
      var init := headers[..n];
      assert headers[n] in headers[j + 1..];
      assert init[j + 1..] == headers[j + 1..n];
      ZipRowCell(init, cells, j);
    }
  }

  predicate NonEmptyFields(cells: seq<string>) {
    |cells| > 0
  }

  /** The table of a headerless file: generated column names sized after the
      first line, and one row object per line. */
  function FallbackTable(lines: seq<seq<string>>): (r: Table)
    requires lines != []
    ensures r.headers == FallbackHeaders(|lines[0]|)
    ensures |r.rows| == |lines|
    ensures forall i :: 0 <= i < |lines| ==> r.rows[i] == ZipRow(r.headers, lines[i])
  {
    var headers := FallbackHeaders(|lines[0]|);
    Table(headers, seq(|lines|, i requires 0 <= i < |lines| => ZipRow(headers, lines[i])))
  }

  /** In a headerless file, row `i` maps exactly the generated names, and the
      name of column `j` to field `j` of line `i` (or `null` past its end). */
  lemma FallbackCell(lines: seq<seq<string>>, i: nat, j: nat)
    requires lines != [] && i < |lines| && j < |lines[0]|
    ensures var t := FallbackTable(lines);
      && (forall h :: h in t.rows[i] <==> h in t.headers)
      && t.rows[i][ColumnLabel(j)] == CellAt(lines[i], j)
  {
    var t := FallbackTable(lines);
    assert t.headers[j] == ColumnLabel(j);
    assert t.headers[j] !in t.headers[j + 1..];
    ZipRowCell(t.headers, lines[i], j);
  }

  lemma NoNonEmptyLines(fallback: seq<seq<string>>)
    requires Filter(fallback, NonEmptyFields) == []
    ensures forall cells :: cells in fallback ==> cells == []
  {
  }

  /** Headers and rows. With at least one named header field, the rows of the
      header pass that hold some value; otherwise the headerless pass, whose
      non-empty rows are keyed by generated column names sized after the
      first of them, and `None` when it has no such row. */
  function Tabulate(pass: HeaderPass, fallback: seq<seq<string>>): (r: Option<Table>)
    ensures r.Some? ==> r.value.headers != [] && forall h :: h in r.value.headers ==> h != ""
    ensures NamedFields(pass) != [] ==>
      && r.Some? && r.value.headers == NamedFields(pass)
      && (forall row :: row in r.value.rows <==> row in pass.data && HasValue(row))
      && IsSubseq(r.value.rows, pass.data)
      && (forall row :: multiset(r.value.rows)[row] == if HasValue(row) then multiset(pass.data)[row] else 0)
    ensures NamedFields(pass) == [] ==>
      (r.None? <==> forall cells :: cells in fallback ==> cells == [])
    ensures NamedFields(pass) == [] && r.Some? ==>
      r.value == FallbackTable(Filter(fallback, NonEmptyFields))
  {
    var fields := NamedFields(pass);
    if fields != [] then
      FilterIsSubseq(pass.data, HasValue);
      FilterMultiplicity(pass.data, HasValue);
      Some(Table(fields, Filter(pass.data, HasValue)))
    else
      var lines := Filter(fallback, NonEmptyFields);
      if lines == [] then
        NoNonEmptyLines(fallback);
        None
      else
        assert lines[0] in fallback;
        Some(FallbackTable(lines))
  }

  // ---------------------------------------------------------------------------
  // Date and time columns, and the row filter they drive
  // ---------------------------------------------------------------------------

  /** The first header holding `w` as a standalone word, ignoring case
      (`/\bw\b/i`), or `None`. */
  function FindWordHeader(headers: seq<string>, w: string): (r: Option<string>)
    ensures r.Some? ==> r.value in headers && HasWord(r.value, w)
    ensures r.Some? ==> exists i | 0 <= i < |headers| ::
      headers[i] == r.value && forall k :: 0 <= k < i ==> !HasWord(headers[k], w)
    ensures r.None? <==> forall h :: h in headers ==> !HasWord(h, w)
  {
    var i := FindIndex(headers, h => HasWord(h, w));
    if i < 0 then None else Some(headers[i])
  }

  /** `s.toLowerCase() === w` for a lower-case ASCII word `w`. */
  predicate EqualsIgnoreCase(s: string, w: string) {
    |s| == |w| && MatchesAt(s, w, 0)
  }

  /** The cell under an optional key; `null` when there is no key or the key
      is the (falsy) empty string. */
  function KeyCell(row: Row, key: Option<string>): (c: Cell)
    ensures !KeyPresent(key) ==> c == Null
    ensures KeyPresent(key) && key.value !in row ==> c == Undefined
  {
    if KeyPresent(key) then Get(row, key.value) else Null
  }

  /** A string cell that merely repeats the column title. */
  predicate IsEcho(c: Cell, title: string) {
    c.Str? && EqualsIgnoreCase(c.s, title)
  }

  /** Rows that repeat the header titles and rows missing the date or the
      time are dropped. */
  predicate KeepTimeRow(row: Row, dateKey: Option<string>, timeKey: Option<string>) {
    var dateValue := KeyCell(row, dateKey);
    var timeValue := KeyCell(row, timeKey);
    && !IsEcho(dateValue, "date")
    && !IsEcho(timeValue, "time")
    && !(KeyPresent(dateKey) && IsBlank(dateValue))
    && !(KeyPresent(timeKey) && IsBlank(timeValue))
  }

  function TimeRowFilter(dateKey: Option<string>, timeKey: Option<string>): Row -> bool {
    row => KeepTimeRow(row, dateKey, timeKey)
  }

  /** The row filter, applied only when a date or time column exists. Kept
      rows are a subsequence of the input; none of them lacks a date or time
      value or repeats a title, and no row meeting those conditions is
      dropped. */
  function FilterTimeRows(rows: seq<Row>, dateKey: Option<string>, timeKey: Option<string>): (r: seq<Row>)
    ensures IsSubseq(r, rows)
    ensures !KeyPresent(dateKey) && !KeyPresent(timeKey) ==> r == rows
    ensures KeyPresent(dateKey) || KeyPresent(timeKey) ==>
      forall row :: row in r <==> row in rows && KeepTimeRow(row, dateKey, timeKey)
    ensures KeyPresent(dateKey) || KeyPresent(timeKey) ==>
      forall row :: multiset(r)[row] == if KeepTimeRow(row, dateKey, timeKey) then multiset(rows)[row] else 0
    ensures forall row :: row in r && KeyPresent(dateKey) ==> !IsBlank(Get(row, dateKey.value))
    ensures forall row :: row in r && KeyPresent(timeKey) ==> !IsBlank(Get(row, timeKey.value))
  {
    if KeyPresent(dateKey) || KeyPresent(timeKey) then
      FilterIsSubseq(rows, TimeRowFilter(dateKey, timeKey));
      FilterMultiplicity(rows, TimeRowFilter(dateKey, timeKey));
      Filter(rows, TimeRowFilter(dateKey, timeKey))
    else
      SubseqRefl(rows);
      rows
  }

  /** The filter drops every row exactly when no row passes the time-row test. */
  lemma FilterTimeRowsEmpty(rows: seq<Row>, dateKey: Option<string>, timeKey: Option<string>)
    ensures FilterTimeRows(rows, dateKey, timeKey) == [] <==>
      forall row :: row in rows ==> !KeepTimeRow(row, dateKey, timeKey)
  {
    var r := FilterTimeRows(rows, dateKey, timeKey);
    if !KeyPresent(dateKey) && !KeyPresent(timeKey) && rows != [] {
      assert KeepTimeRow(rows[0], dateKey, timeKey);
    }
    if r != [] {
      assert r[0] in r;
    }
  }

  /** Filtering a second time removes nothing more. */
  lemma FilterTimeRowsIdempotent(rows: seq<Row>, dateKey: Option<string>, timeKey: Option<string>)
    ensures var once := FilterTimeRows(rows, dateKey, timeKey);
      FilterTimeRows(once, dateKey, timeKey) == once
  {
    if KeyPresent(dateKey) || KeyPresent(timeKey) {
      FilterIdempotent(rows, TimeRowFilter(dateKey, timeKey));
    }
  }

  // ---------------------------------------------------------------------------
  // Time mode
  // ---------------------------------------------------------------------------

  datatype TimeChoice = TimeChoice(mode: TimeMode, key: Option<string>)

  /** Date-and-time mode when both a date and a time column exist (the time
      column is the key); otherwise single mode on the detected time key;
      otherwise index mode with no key. */
  function ChooseTimeMode(dateKey: Option<string>, timeColumnKey: Option<string>, detected: Option<string>): (r: TimeChoice)
    ensures r.mode.DateTime? <==> KeyPresent(dateKey) && KeyPresent(timeColumnKey)
    ensures r.mode.DateTime? ==> r.key == timeColumnKey
    ensures r.mode.Single? ==> r.key == detected
    ensures r.mode.Index? <==> !KeyPresent(r.key)
    ensures r.mode.Index? ==> r.key.None? && !KeyPresent(detected)
  {
    if KeyPresent(dateKey) && KeyPresent(timeColumnKey) then TimeChoice(DateTime, timeColumnKey)
    else if KeyPresent(detected) then TimeChoice(Single, detected)
    else TimeChoice(Index, None)
  }

  /** A header naming a date or a time as a word also mentions a time
      keyword. */
  lemma WordHeaderIsTimeHeader(h: string)
    requires HasWord(h, "date") || HasWord(h, "time")
    ensures IsTimeHeader(h)
  {
    if HasWord(h, "date") {
      HasWordContains(h, "date", 0);
      assert ContainsCI(h, TimeKeywords[1]);
    } else {
      HasWordContains(h, "time", 0);
      assert ContainsCI(h, TimeKeywords[0]);
    }
  }

  /** Index mode is chosen exactly when no header mentions a time keyword. */
  lemma TimeModeIndexIff(headers: seq<string>)
    requires forall h :: h in headers ==> h != ""
    ensures var choice := ChooseTimeMode(
        FindWordHeader(headers, "date"), FindWordHeader(headers, "time"), DetectTimeKey(headers));
      choice.mode.Index? <==> forall h :: h in headers ==> !IsTimeHeader(h)
  {
    var dateKey := FindWordHeader(headers, "date");
    var timeColumnKey := FindWordHeader(headers, "time");
    var detected := DetectTimeKey(headers);
    if detected.None? {
      if dateKey.Some? {
        WordHeaderIsTimeHeader(dateKey.value);
      }
    }
  }

  // ---------------------------------------------------------------------------
  // Timestamps
  // ---------------------------------------------------------------------------

  /** `String(value)` for a cell. */
  function CellText(c: Cell, env: Env): string {
    match c
    case Str(s) => s
    case Num(x) => env.numberText(x)
    case Infinite(negative) => if negative then "-Infinity" else "Infinity"
    case Bool(b) => if b then "true" else "false"
    case Instant(time) => if time.Some? then env.dateText(time.value) else "Invalid Date"
    case Null => "null"
    case Undefined => "undefined"
  }

  /** `String(value ?? "")`: absent values print as the empty string. */
  function TextOrEmpty(c: Cell, env: Env): (r: string)
    ensures c.Null? || c.Undefined? ==> r == ""
    ensures c.Str? ==> r == c.s
  {
    if c.Null? || c.Undefined? then "" else CellText(c, env)
  }

  /** The date cell and the time cell joined by a space, trimmed. */
  function JoinedStamp(row: Row, dateKey: string, timeKey: string, env: Env): string {
    Trim(TextOrEmpty(Get(row, dateKey), env) + " " + TextOrEmpty(Get(row, timeKey), env))
  }

  /** `value ?? null` */
  function Nullish(c: Cell): (r: Cell)
    ensures r != Undefined
    ensures c != Undefined ==> r == c
  {
    if c.Undefined? then Null else c
  }

  /** The raw timestamp of a row: the joined date and time text in
      date-and-time mode, the time cell in single mode, `null` in index
      mode. */
  function RawTimestamp(row: Row, choice: TimeChoice, dateKey: Option<string>, env: Env): (r: Cell)
    ensures choice.mode.Index? ==> r == Null
    ensures choice.mode.DateTime? && KeyPresent(dateKey) && KeyPresent(choice.key) ==>
      r == Str(JoinedStamp(row, dateKey.value, choice.key.value, env))
    ensures choice.mode.Single? && KeyPresent(choice.key) ==> r == Nullish(Get(row, choice.key.value))
  {
    if choice.mode.DateTime? && KeyPresent(dateKey) && KeyPresent(choice.key) then
      Str(JoinedStamp(row, dateKey.value, choice.key.value, env))
    else if choice.mode.Single? && KeyPresent(choice.key) then
      Nullish(Get(row, choice.key.value))
    else Null
  }

  /** Epoch milliseconds of a truthy raw timestamp. */
  function StampMillis(raw: Cell, env: Env): (r: Option<real>)
    ensures !Truthy(raw) ==> r.None?
    ensures Truthy(raw) ==> r == ParseDateValue(raw, env)
  {
    if Truthy(raw) then ParseDateValue(raw, env) else None
  }

  /** `end ?? raw ?? rowCount` */
  function LastTimestamp(end: Option<real>, raw: Cell, rowCount: nat): (r: Stamp)
    ensures end.Some? ==> r == StampMs(end.value)
    ensures end.None? && (raw.Null? || raw.Undefined?) ==> r == StampCount(rowCount)
    ensures end.None? && !(raw.Null? || raw.Undefined?) ==> r == StampRaw(raw)
  {
    if end.Some? then StampMs(end.value)
    else if raw.Null? || raw.Undefined? then StampCount(rowCount)
    else StampRaw(raw)
  }

  /** The display label of the last timestamp. */
  function LastTimestampLabel(end: Option<real>, raw: Cell, env: Env): (r: Option<string>)
    ensures end.Some? ==> r == Some(env.timestampLabel(end.value))
    ensures end.None? && Truthy(raw) ==> r == Some(CellText(raw, env))
    ensures end.None? && !Truthy(raw) ==> r.None?
  {
    if end.Some? then Some(env.timestampLabel(end.value))
    else if Truthy(raw) then Some(CellText(raw, env))
    else None
  }

  // ---------------------------------------------------------------------------
  // Duration
  // ---------------------------------------------------------------------------

  /** Hours, minutes and seconds, each padded to at least two digits and
      separated by colons. */
  function ClockText(h: nat, m: nat, s: nat): string {
    Pad2(h) + ":" + Pad2(m) + ":" + Pad2(s)
  }

  /** `HH:MM:SS` of the whole seconds of a non-negative duration; hours are
      not capped and print with as many digits as they need. */
  function FormatDuration(durationMs: int): (r: Option<string>)
    ensures r.None? <==> durationMs < 0
    ensures r.Some? ==> var t := r.value;
      |t| >= 8 && t[|t| - 3] == ':' && t[|t| - 6] == ':'
  {
    if durationMs < 0 then None
    else
      var totalSeconds := durationMs / 1000;
      var hours := totalSeconds / 3600;
      var minutes := (totalSeconds % 3600) / 60;
      var seconds := totalSeconds % 60;
      assert minutes < 60;
      Some(ClockText(hours, minutes, seconds))
  }

  lemma MulAtLeast(d: int, b: int)
    requires d >= 1 && b > 0
    ensures d * b >= b
  {
    var e := d - 1;
    assert d * b == e * b + b;
    assert e * b >= 0;
  }

  /** Quotient and remainder are determined by `a == q * b + m` with
      `0 <= m < b`. */
  lemma DivModUnique(a: int, b: int, q: int, m: int)
    requires b > 0 && 0 <= m < b && a == q * b + m
    ensures a / b == q && a % b == m
  {
    var q' := a / b;
    var m' := a % b;
    assert a == q' * b + m' && 0 <= m' < b;
    var d := q - q';
    assert d * b == m' - m by {
      assert q * b - q' * b == (q - q') * b;
    }
    if d >= 1 {
      MulAtLeast(d, b);
    } else if d <= -1 {
      MulAtLeast(-d, b);
    }
  }

  /** The three fields are the unique hours, minutes below 60 and seconds
      below 60 that add up to the whole seconds of the duration. */
  lemma FormatDurationFields(durationMs: int, h: nat, m: nat, s: nat)
    requires durationMs >= 0 && m < 60 && s < 60
    requires h * 3600 + m * 60 + s == durationMs / 1000
    ensures FormatDuration(durationMs) == Some(ClockText(h, m, s))
  {
    var total := durationMs / 1000;
    DivModUnique(total, 3600, h, m * 60 + s);
    DivModUnique(m * 60 + s, 60, m, s);
    DivModUnique(total, 60, h * 60 + m, s);
  }

  /** Reading a formatted duration below 100 hours back as a time of day gives
      the duration truncated to whole seconds. */
  lemma FormatDurationRoundTrip(durationMs: int)
    requires 0 <= durationMs < 100 * 3600 * 1000
    ensures FormatDuration(durationMs).Some?
    ensures var r := ParseTimeOnly(Str(FormatDuration(durationMs).value));
      r.Some? && r.value == (durationMs / 1000) * 1000
  {
    var total := durationMs / 1000;
    var h, m, s := SplitSeconds(total);
    assert h < 100;
    FormatDurationFields(durationMs, h, m, s);
    ClockTextReadsBack(h, m, s);
  }

  lemma ClockTextReadsBack(h: nat, m: nat, s: nat)
    requires h < 100 && m < 60 && s < 60
    ensures var r := ParseTimeOnly(Str(ClockText(h, m, s)));
      r.Some? && r.value == h * 3600000 + m * 60000 + s * 1000
  {
    var p := ClockParts(h, m, s);
    ClockPartsText(h, m, s);
    ParseTimeOnlyText(p);
  }

  function ClockParts(h: nat, m: nat, s: nat): TimeParts {
    TimeParts(Pad2(h), Pad2(m), Pad2(s), "")
  }

  lemma ClockPartsText(h: nat, m: nat, s: nat)
    requires h < 100 && m < 60 && s < 60
    ensures ValidTimeParts(ClockParts(h, m, s))
    ensures TimeText(ClockParts(h, m, s)) == ClockText(h, m, s)
    ensures TimeMillis(ClockParts(h, m, s)) == h * 3600000 + m * 60000 + s * 1000
  {
  }

  lemma SplitSeconds(total: nat) returns (h: nat, m: nat, s: nat)
    ensures total == h * 3600 + m * 60 + s && m < 60 && s < 60
  {
    h := total / 3600;
    var rest := total % 3600;
    m := rest / 60;
    s := rest % 60;
  }

  // ---------------------------------------------------------------------------
  // Warnings
  // ---------------------------------------------------------------------------

  /** Case-sensitive substring test. */
  predicate Includes(s: string, w: string) {
    exists i: nat | i <= |s| :: OccursAt(s, w, i)
  }

  predicate OccursAt(s: string, w: string, i: nat) {
    i + |w| <= |s| && s[i..i + |w|] == w
  }

  /** Field-count complaints, which ragged exports produce in bulk. */
  predicate IsFieldCountError(message: string) {
    Includes(message, "Too few fields") || Includes(message, "Too many fields")
  }

  predicate IsWarning(message: string) {
    !IsFieldCountError(message)
  }

  /** The distinct parse-error messages that are not field-count complaints,
      in order of first occurrence. */
  function Warnings(errors: seq<string>): (r: seq<string>)
    ensures NoDup(r)
    ensures forall m :: m in r <==> m in errors && !IsFieldCountError(m)
  {
    Dedupe(Filter(errors, IsWarning))
  }

  /** Warnings are listed in the order their messages first occur among the
      parse errors. */
  lemma WarningsOrder(errors: seq<string>)
    ensures var r := Warnings(errors);
      forall i, j :: 0 <= i < j < |r| ==> FirstIndex(errors, r[i]) < FirstIndex(errors, r[j])
  {
    assert Warnings(errors) == Dedupe(Filter(errors, IsWarning));
    DedupeFilterOrder(errors, IsWarning);
  }

  const MaxShownWarnings: nat := 4

  /** The warnings listed on screen: the first four. */
  function DisplayedWarnings(warnings: seq<string>): (r: seq<string>)
    ensures |r| == if |warnings| < MaxShownWarnings then |warnings| else MaxShownWarnings
    ensures r <= warnings
  {
    if |warnings| <= MaxShownWarnings then warnings else warnings[..MaxShownWarnings]
  }

  // ---------------------------------------------------------------------------
  // The whole pipeline
  // ---------------------------------------------------------------------------

  /** The duration between the first and the last row's time-of-day values,
      formatted; `None` when there is no time key (both values are then
      `null`), when either does not read as a time of day, or when the last
      is earlier than the first. */
  function DurationLabel(first: Row, last: Row, timeKey: Option<string>): (r: Option<string>)
    ensures r.Some? <==>
      && KeyPresent(timeKey)
      && ParseTimeOnly(Get(first, timeKey.value)).Some?
      && ParseTimeOnly(Get(last, timeKey.value)).Some?
      && ParseTimeOnly(Get(first, timeKey.value)).value <= ParseTimeOnly(Get(last, timeKey.value)).value
    ensures r.Some? ==>
      r == FormatDuration(ParseTimeOnly(Get(last, timeKey.value)).value - ParseTimeOnly(Get(first, timeKey.value)).value)
  {
    if KeyPresent(timeKey) then
      DurationBetween(ParseTimeOnly(Get(first, timeKey.value)), ParseTimeOnly(Get(last, timeKey.value)))
    else None
  }

  function DurationBetween(firstMs: Option<nat>, lastMs: Option<nat>): (r: Option<string>)
    ensures r.Some? <==> firstMs.Some? && lastMs.Some? && firstMs.value <= lastMs.value
    ensures r.Some? ==> r == FormatDuration(lastMs.value - firstMs.value)
  {
    if firstMs.Some? && lastMs.Some? then FormatDuration(lastMs.value - firstMs.value) else None
  }

  /** The numeric columns other than the time key, in header order and with
      their repetitions. */
  function ChartableColumns(headers: seq<string>, rows: seq<Row>, timeKey: Option<string>, parseFloat: string -> Option<real>)
    : (r: seq<string>)
    ensures IsSubseq(r, headers)
    ensures forall c :: c in r <==> c in headers && IsNumericColumn(rows, c, parseFloat) && Some(c) != timeKey
    ensures forall c ::
      multiset(r)[c] == if IsNumericColumn(rows, c, parseFloat) && Some(c) != timeKey then multiset(headers)[c] else 0
    ensures timeKey.Some? ==> timeKey.value !in r
  {
    var numeric := NumericColumns(headers, rows, parseFloat);
    var keep := c => Some(c) != timeKey;
    FilterIsSubseq(headers, h => IsNumericColumn(rows, h, parseFloat));
    FilterIsSubseq(numeric, keep);
    FilterMultiplicity(headers, h => IsNumericColumn(rows, h, parseFloat));
    FilterMultiplicity(numeric, keep);
    SubseqTrans(Filter(numeric, keep), numeric, headers);
    Filter(numeric, keep)
  }

  /** A falsy raw stamp never reads as a date, so testing the raw stamp
      before parsing it changes nothing; nor does turning `undefined` into
      `null`. */
  lemma StampMillisIsParse(c: Cell, env: Env)
    ensures StampMillis(c, env) == ParseDateValue(c, env)
    ensures ParseDateValue(Nullish(c), env) == ParseDateValue(c, env)
  {
  }

  /** The parsed state of a file whose rows survived both filters, or
      `InvalidTimeValue` when the last row's stamp reads as a time outside the
      range of `Date`. In single mode the stamps are the first and last rows'
      time cells, in date-and-time mode their joined date and time texts,
      each read as a date. */
  function Summarize(
    fileName: string, headers: seq<string>, rows: seq<Row>,
    dateKey: Option<string>, timeColumnKey: Option<string>, errors: seq<string>, env: Env)
    : (r: Result<ParsedCsv, ParseError>)
    requires rows != []
    ensures r.Failure? ==> r.error == InvalidTimeValue
    ensures r.Success? ==> var p := r.value;
      && p.fileName == fileName && p.headers == headers && p.rows == rows && p.dateKey == dateKey
      && p.timeMode == ChooseTimeMode(dateKey, timeColumnKey, DetectTimeKey(headers)).mode
      && (p.timeMode.DateTime? ==> p.timeKey == timeColumnKey)
      && (p.timeMode.Single? ==> p.timeKey == DetectTimeKey(headers))
      && (p.timeParsed ==> p.lastTimestamp.StampMs? && p.lastTimestampLabel.Some?)
      && (p.lastTimestamp.StampMs? ==> IsTimeValue(p.lastTimestamp.ms))
      && p.durationLabel == DurationLabel(rows[0], rows[|rows| - 1], p.timeKey)
      && (forall c :: c in p.numericColumns <==>
            c in headers && IsNumericColumn(rows, c, env.parseFloat) && Some(c) != p.timeKey)
      && p.numericColumns == ChartableColumns(headers, rows, p.timeKey, env.parseFloat)
      && p.warnings == Warnings(errors)
    ensures ChooseTimeMode(dateKey, timeColumnKey, DetectTimeKey(headers)).mode.Index? ==>
      && r.Success? && r.value.timeKey.None? && r.value.lastTimestamp == StampCount(|rows|)
      && !r.value.timeParsed && r.value.lastTimestampLabel.None? && r.value.durationLabel.None?
  {
    var first := rows[0];
    var last := rows[|rows| - 1];
    var choice := ChooseTimeMode(dateKey, timeColumnKey, DetectTimeKey(headers));
    var rawEnd := RawTimestamp(last, choice, dateKey, env);
    var rawStart := RawTimestamp(first, choice, dateKey, env);
    var endMs := StampMillis(rawEnd, env);
    var startMs := StampMillis(rawStart, env);
    SummaryOf(fileName, headers, rows, dateKey, choice, rawEnd, endMs, startMs, errors, env)
  }

  /** In single mode the summary reads the last and first rows' time cells
      as dates: the parse fails exactly when the last one reads as a time
      outside the range of `Date`; otherwise the stamps parsed when both are
      non-zero, the last timestamp is the end time, else the raw cell, else the
      row count, and the label is the formatted end time, else the text of a
      truthy cell. */
  lemma SummarizeSingleStamps(
    fileName: string, headers: seq<string>, rows: seq<Row>,
    dateKey: Option<string>, timeColumnKey: Option<string>, errors: seq<string>, env: Env)
    requires rows != []
    ensures var s := Summarize(fileName, headers, rows, dateKey, timeColumnKey, errors, env);
      var choice := ChooseTimeMode(dateKey, timeColumnKey, DetectTimeKey(headers));
      choice.mode.Single? ==>
        var endCell := Get(rows[|rows| - 1], choice.key.value);
        var endMs := ParseDateValue(endCell, env);
        && (s.Failure? <==> endMs.Some? && !IsTimeValue(endMs.value))
        && (s.Success? ==>
          && s.value.timeParsed == (NonZero(endMs) && NonZero(ParseDateValue(Get(rows[0], choice.key.value), env)))
          && s.value.lastTimestamp ==
               (if endMs.Some? then StampMs(endMs.value)
                else if endCell.Null? || endCell.Undefined? then StampCount(|rows|)
                else StampRaw(endCell))
          && s.value.lastTimestampLabel ==
               (if endMs.Some? then Some(env.timestampLabel(endMs.value))
                else if Truthy(endCell) then Some(CellText(endCell, env))
                else None))
  {
    var choice := ChooseTimeMode(dateKey, timeColumnKey, DetectTimeKey(headers));
    if choice.mode.Single? {
      var k := choice.key.value;
      var last, first := rows[|rows| - 1], rows[0];
      var c := Get(last, k);
      var rawEnd := RawTimestamp(last, choice, dateKey, env);
      var rawStart := RawTimestamp(first, choice, dateKey, env);
      assert rawEnd == Nullish(c) && rawStart == Nullish(Get(first, k));
      StampMillisIsParse(c, env);
      StampMillisIsParse(Get(first, k), env);
      StampMillisIsParse(rawEnd, env);
      StampMillisIsParse(rawStart, env);
      var endMs := StampMillis(rawEnd, env);
      assert endMs == ParseDateValue(c, env);
      assert StampMillis(rawStart, env) == ParseDateValue(Get(first, k), env);
      assert Truthy(rawEnd) == Truthy(c) && (Truthy(c) ==> rawEnd == c);
    }
  }

  /** In date-and-time mode the summary reads the joined date and time texts
      of the last and first rows as dates: the parse fails exactly when the
      last one reads as a time outside the range of `Date`; otherwise the last
      timestamp is the end time or else the joined text itself, and the label
      is the formatted end time, else a non-empty joined text. */
  lemma SummarizeDateTimeStamps(
    fileName: string, headers: seq<string>, rows: seq<Row>,
    dateKey: Option<string>, timeColumnKey: Option<string>, errors: seq<string>, env: Env)
    requires rows != []
    ensures var s := Summarize(fileName, headers, rows, dateKey, timeColumnKey, errors, env);
      var choice := ChooseTimeMode(dateKey, timeColumnKey, DetectTimeKey(headers));
      choice.mode.DateTime? ==>
        var endText := JoinedStamp(rows[|rows| - 1], dateKey.value, choice.key.value, env);
        var startText := JoinedStamp(rows[0], dateKey.value, choice.key.value, env);
        var endMs := ParseDateValue(Str(endText), env);
        && (s.Failure? <==> endMs.Some? && !IsTimeValue(endMs.value))
        && (s.Success? ==>
          && s.value.timeParsed == (NonZero(endMs) && NonZero(ParseDateValue(Str(startText), env)))
          && s.value.lastTimestamp == (if endMs.Some? then StampMs(endMs.value) else StampRaw(Str(endText)))
          && s.value.lastTimestampLabel ==
               (if endMs.Some? then Some(env.timestampLabel(endMs.value))
                else if endText != "" then Some(endText)
                else None))
  {
    var choice := ChooseTimeMode(dateKey, timeColumnKey, DetectTimeKey(headers));
    if choice.mode.DateTime? {
      var k := choice.key.value;
      StampMillisIsParse(Str(JoinedStamp(rows[|rows| - 1], dateKey.value, k, env)), env);
      StampMillisIsParse(Str(JoinedStamp(rows[0], dateKey.value, k, env)), env);
    }
  }

  /** The state assembled from the end and start stamps. */
  function SummaryOf(
    fileName: string, headers: seq<string>, rows: seq<Row>, dateKey: Option<string>,
    choice: TimeChoice, rawEnd: Cell, endMs: Option<real>, startMs: Option<real>,
    errors: seq<string>, env: Env): (r: Result<ParsedCsv, ParseError>)
    requires rows != []
    ensures r.Failure? <==> endMs.Some? && !IsTimeValue(endMs.value)
    ensures r.Success? ==> r.value.lastTimestamp.StampMs? ==> IsTimeValue(r.value.lastTimestamp.ms)
  {
    if endMs.Some? && !IsTimeValue(endMs.value) then Failure(InvalidTimeValue)
    else
      Success(ParsedCsv(
        fileName := fileName,
        headers := headers,
        rows := rows,
        dateKey := dateKey,
        timeKey := choice.key,
        timeMode := choice.mode,
        lastTimestamp := LastTimestamp(endMs, rawEnd, |rows|),
        lastTimestampLabel := LastTimestampLabel(endMs, rawEnd, env),
        timeParsed := NonZero(endMs) && NonZero(startMs),
        durationLabel := DurationLabel(rows[0], rows[|rows| - 1], choice.key),
        numericColumns := ChartableColumns(headers, rows, choice.key, env.parseFloat),
        warnings := Warnings(errors)))
  }

  /** The table the two tokenisation passes give for the prepared text. */
  function TableOf(text: string, env: Env): Option<Table> {
    var prepared := PrepareText(text);
    Tabulate(env.tokenize(prepared), env.tokenizeRows(prepared))
  }

  /** The invariants every parsed state satisfies. */
  predicate Consistent(p: ParsedCsv) {
    && p.headers != [] && p.rows != []
    && (forall h :: h in p.headers ==> h != "")
    && (p.dateKey.Some? ==> p.dateKey.value in p.headers && HasWord(p.dateKey.value, "date"))
    && (p.timeKey.Some? ==> p.timeKey.value in p.headers && p.timeKey.value !in p.numericColumns)
    && (p.timeMode.DateTime? ==> p.dateKey.Some? && p.timeKey.Some? && HasWord(p.timeKey.value, "time"))
    && (p.timeMode.Single? ==> p.timeKey.Some? && IsTimeHeader(p.timeKey.value))
    && (p.timeMode.Index? ==> p.timeKey.None?)
    && (forall row :: row in p.rows && p.dateKey.Some? ==> !IsBlank(Get(row, p.dateKey.value)))
    && (forall row :: row in p.rows && p.timeMode.DateTime? ==> !IsBlank(Get(row, p.timeKey.value)))
    && (forall c :: c in p.numericColumns ==> c in p.headers)
    && (p.lastTimestamp.StampMs? ==> IsTimeValue(p.lastTimestamp.ms))
    && NoDup(p.warnings)
  }

  /** The tabulated rows that survive the date and time filter. */
  function FilteredRows(t: Table): seq<Row> {
    FilterTimeRows(t.rows, FindWordHeader(t.headers, "date"), FindWordHeader(t.headers, "time"))
  }

  /** Everything after tabulation: the date and time filter, then the
      summary. */
  function ParseTable(fileName: string, t: Table, errors: seq<string>, env: Env): (r: Result<ParsedCsv, ParseError>)
    requires t.headers != [] && forall h :: h in t.headers ==> h != ""
    ensures r == Failure(NoRowsAfterParsing) <==> t.rows == []
    ensures r == Failure(NoRowsAfterFiltering) <==>
      t.rows != [] && forall row :: row in t.rows ==>
        !KeepTimeRow(row, FindWordHeader(t.headers, "date"), FindWordHeader(t.headers, "time"))
    ensures r == Failure(InvalidTimeValue) <==>
      && t.rows != [] && FilteredRows(t) != []
      && Summarize(fileName, t.headers, FilteredRows(t), FindWordHeader(t.headers, "date"),
           FindWordHeader(t.headers, "time"), errors, env).Failure?
    ensures r.Failure? ==> r.error in {NoRowsAfterParsing, NoRowsAfterFiltering, InvalidTimeValue}
    ensures r.Success? ==>
      var p := r.value;
      && Consistent(p) && p.fileName == fileName && p.headers == t.headers
      && p.rows == FilteredRows(t) && IsSubseq(p.rows, t.rows)
      && p.warnings == Warnings(errors)
    ensures r.Success? ==> var p := r.value;
      p.timeMode.DateTime? <==>
        (exists h :: h in p.headers && HasWord(h, "date")) && (exists h :: h in p.headers && HasWord(h, "time"))
    ensures r.Success? ==> var p := r.value;
      p.timeMode.Index? <==> forall h :: h in p.headers ==> !IsTimeHeader(h)
  {
    if t.rows == [] then Failure(NoRowsAfterParsing)
    else
      var headers := t.headers;
      var dateKey := FindWordHeader(headers, "date");
      var timeColumnKey := FindWordHeader(headers, "time");
      var rows := FilterTimeRows(t.rows, dateKey, timeColumnKey);
      FilterTimeRowsEmpty(t.rows, dateKey, timeColumnKey);
      if rows == [] then Failure(NoRowsAfterFiltering)
      else
        TimeModeIndexIff(headers);
        Summarize(fileName, headers, rows, dateKey, timeColumnKey, errors, env)
  }

  /** From the file text to the parsed state or an error. Each error is
      reported exactly in its situation; a parsed state is consistent, keeps
      the tabulated headers and exactly the tabulated rows the time filter
      keeps, chooses date-and-time mode exactly when a date word and a time
      word head columns, and index mode exactly when no header mentions a
      time keyword. */
  function ParseCsv(fileName: string, text: string, env: Env): (r: Result<ParsedCsv, ParseError>)
    ensures r == Failure(EmptyFile) <==> AllSpace(text)
    ensures r == Failure(NoData) <==> !AllSpace(text) && TableOf(text, env).None?
    ensures !AllSpace(text) && TableOf(text, env).Some? ==>
      r == ParseTable(fileName, TableOf(text, env).value, env.tokenize(PrepareText(text)).errors, env)
  {
    TrimEmptyIff(text);
    var t := TableOf(text, env);
    if Trim(text) == [] then Failure(EmptyFile)
    else if t.None? then Failure(NoData)
    else ParseTable(fileName, t.value, env.tokenize(PrepareText(text)).errors, env)
  }

  /** Each outcome of the whole pipeline in terms of the text: the four
      messages exactly in their situations, the aborted parse exactly when
      the summary of the filtered rows fails, and a parsed state that is
      consistent and keeps exactly the filtered rows. */
  lemma ParseCsvOutcomes(fileName: string, text: string, env: Env)
    ensures var r := ParseCsv(fileName, text, env);
      && (r == Failure(EmptyFile) <==> AllSpace(text))
      && (r == Failure(NoData) <==> !AllSpace(text) && TableOf(text, env).None?)
      && (r == Failure(NoRowsAfterParsing) <==>
            !AllSpace(text) && TableOf(text, env).Some? && TableOf(text, env).value.rows == [])
      && (r == Failure(NoRowsAfterFiltering) <==>
            && !AllSpace(text) && TableOf(text, env).Some? && TableOf(text, env).value.rows != []
            && (var t := TableOf(text, env).value;
                forall row :: row in t.rows ==>
                  !KeepTimeRow(row, FindWordHeader(t.headers, "date"), FindWordHeader(t.headers, "time"))))
      && (r == Failure(InvalidTimeValue) <==>
            && !AllSpace(text) && TableOf(text, env).Some? && FilteredRows(TableOf(text, env).value) != []
            && (var t := TableOf(text, env).value;
                Summarize(fileName, t.headers, FilteredRows(t), FindWordHeader(t.headers, "date"),
                  FindWordHeader(t.headers, "time"), env.tokenize(PrepareText(text)).errors, env).Failure?))
    ensures var r := ParseCsv(fileName, text, env);
      r.Success? ==>
        var p := r.value;
        && TableOf(text, env).Some?
        && (var t := TableOf(text, env).value;
            && Consistent(p) && p.fileName == fileName && p.headers == t.headers
            && p.rows == FilteredRows(t) && IsSubseq(p.rows, t.rows)
            && p.warnings == Warnings(env.tokenize(PrepareText(text)).errors))
  {
    var r := ParseCsv(fileName, text, env);
    if !AllSpace(text) && TableOf(text, env).Some? {
      var t := TableOf(text, env).value;
      if t.rows == [] {
        assert FilteredRows(t) == [];
      }
    }
  }
}
