/**
  The two timestamp readers of the CSV library: the time-of-day reader
  (`H:M:S[.fff]` to milliseconds since midnight) and the absolute-timestamp
  reader (epoch-magnitude heuristic for numbers, the `DD.MM.YYYY HH:MM:SS[.fff]`
  pattern for strings, then the host's generic date parser).

  Both regular expressions are recognised by scanning maximal digit and
  whitespace runs; each recogniser is proved to accept exactly the strings the
  pattern describes (soundness in its contract, completeness as a lemma).
 */
module TimeFormats {
  import opened Values
  import opened Host
  import opened Text

  // ---------------------------------------------------------------------------
  // Time of day: ^(\d{1,2}):(\d{1,2}):(\d{1,2})(?:\.(\d+))?$
  // ---------------------------------------------------------------------------

  /** The capture groups of the time-of-day pattern; `fraction` is empty when
      the optional `.fff` group did not take part in the match. */
  datatype TimeParts = TimeParts(hours: string, minutes: string, seconds: string, fraction: string)

  /** `\d{1,2}` */
  predicate ShortNumeral(s: string) {
    AllDigits(s) && 1 <= |s| <= 2
  }

  predicate ValidTimeParts(p: TimeParts) {
    && ShortNumeral(p.hours) && ShortNumeral(p.minutes) && ShortNumeral(p.seconds)
    && AllDigits(p.fraction)
  }

  function FractionSuffix(f: string): string {
    if f == "" then "" else "." + f
  }

  /** The text the pattern matches for the given groups. */
  function TimeText(p: TimeParts): string {
    p.hours + ":" + p.minutes + ":" + p.seconds + FractionSuffix(p.fraction)
  }

  /** Splits `t` as a one- or two-digit numeral, the separator `sep`, and the
      rest of the text. */
  function TakeNumeral(t: string, sep: char): (r: Option<(string, string)>)
    ensures r.Some? ==> ShortNumeral(r.value.0) && t == r.value.0 + [sep] + r.value.1
  {
    var a := DigitRun(t, 0);
    if 1 <= a <= 2 && a < |t| && t[a] == sep then
      assert t == t[..a] + [sep] + t[a + 1..];
      Some((t[..a], t[a + 1..]))
    else None
  }

  lemma TakeNumeralOf(d: string, sep: char, rest: string)
    requires ShortNumeral(d) && !IsDigit(sep)
    ensures TakeNumeral(d + [sep] + rest, sep) == Some((d, rest))
  {
    var t := d + [sep] + rest;
    DigitRunIs(t, 0, |d|);
    assert t[..|d|] == d;
    assert t[|d| + 1..] == rest;
  }

  /** The seconds group and the optional fraction group at the end of the
      text. */
  function MatchSecondsTail(t: string): (r: Option<(string, string)>)
    ensures r.Some? ==>
      ShortNumeral(r.value.0) && AllDigits(r.value.1) && t == r.value.0 + FractionSuffix(r.value.1)
  {
    var c := DigitRun(t, 0);
    var tail := t[c..];
    assert t == t[..c] + tail;
    if !(1 <= c <= 2) then None
    else if tail == "" then Some((t[..c], ""))
    else if tail[0] == '.' && |tail| > 1 && AllDigits(tail[1..]) then
      assert tail == "." + tail[1..];
      Some((t[..c], tail[1..]))
    else None
  }

  lemma MatchSecondsTailOf(s: string, f: string)
    requires ShortNumeral(s) && AllDigits(f)
    ensures MatchSecondsTail(s + FractionSuffix(f)) == Some((s, f))
  {
    var t := s + FractionSuffix(f);
    DigitRunIs(t, 0, |s|);
    assert t[..|s|] == s;
    assert t[|s|..] == FractionSuffix(f);
  }

  /** Matching against the time-of-day pattern: the groups it captures. */
  function MatchTimeOnly(t: string): (r: Option<TimeParts>)
    ensures r.Some? ==> ValidTimeParts(r.value) && TimeText(r.value) == t
  {
    match TakeNumeral(t, ':')
    case None => None
    case Some((h, r1)) =>
      match TakeNumeral(r1, ':')
      case None => None
      case Some((m, r2)) =>
        match MatchSecondsTail(r2)
        case None => None
        case Some((sec, f)) =>
          var p := TimeParts(h, m, sec, f);
          TimeTextAssoc(p);
          Some(p)
  }

  lemma TimeTextAssoc(p: TimeParts)
    ensures TimeText(p) == p.hours + [':'] + (p.minutes + [':'] + (p.seconds + FractionSuffix(p.fraction)))
  {
  }

  /** Completeness: every text of the time-of-day shape is matched, with
      exactly its groups. */
  lemma MatchTimeOnlyComplete(p: TimeParts)
    requires ValidTimeParts(p)
    ensures MatchTimeOnly(TimeText(p)) == Some(p)
  {
    var r2 := p.seconds + FractionSuffix(p.fraction);
    var r1 := p.minutes + [':'] + r2;
    TimeTextAssoc(p);
    TakeNumeralOf(p.hours, ':', r1);
    TakeNumeralOf(p.minutes, ':', r2);
    MatchSecondsTailOf(p.seconds, p.fraction);
  }

  /** `ms.padEnd(3, "0").slice(0, 3)` read as an integer: the first three
      fraction digits, right-padded with zeros; 0 when there is no fraction. */
  function Millis3(f: string): (r: nat)
    requires AllDigits(f)
    ensures r <= 999
  {
    if f == "" then 0
    else
      var d := if |f| >= 3 then f[..3] else f + seq(3 - |f|, _ => '0');
      DigitsValueBound(d);
      DigitsValue(d)
  }

  lemma ShortNumeralBound(s: string)
    requires ShortNumeral(s)
    ensures DigitsValue(s) <= 99
  {
    DigitsValueBound(s);
  }

  /** Milliseconds since midnight denoted by the groups. */
  function TimeMillis(p: TimeParts): nat
    requires ValidTimeParts(p)
  {
    DigitsValue(p.hours) * 3600000 + DigitsValue(p.minutes) * 60000
      + DigitsValue(p.seconds) * 1000 + Millis3(p.fraction)
  }

  /** The largest value the time-of-day reader can produce. */
  const MaxTimeOnlyMillis: nat := 99 * 3600000 + 99 * 60000 + 99 * 1000 + 999

  /** `parseTimeOnly`: milliseconds since midnight of a trimmed `H:M:S[.fff]`
      string; `None` for anything else, numbers included. */
  function ParseTimeOnly(c: Cell): (r: Option<nat>)
    ensures !c.Str? ==> r.None?
    ensures c.Str? ==> (r.Some? <==> MatchTimeOnly(Trim(c.s)).Some?)
    ensures c.Str? && r.Some? ==> r.value == TimeMillis(MatchTimeOnly(Trim(c.s)).value)
    ensures r.Some? ==> r.value <= MaxTimeOnlyMillis
  {
    match c
    case Str(s) =>
      if s == "" then None
      else
        var m := MatchTimeOnly(Trim(s));
        if m.None? then None
        else
          var p := m.value;
          ShortNumeralBound(p.hours);
          ShortNumeralBound(p.minutes);
          ShortNumeralBound(p.seconds);
          Some(TimeMillis(p))
    case _ => None
  }

  /** Reading back a time-of-day text yields the time its groups denote. */
  lemma ParseTimeOnlyText(p: TimeParts)
    requires ValidTimeParts(p)
    ensures ParseTimeOnly(Str(TimeText(p))) == Some(TimeMillis(p))
  {
    var t := TimeText(p);
    assert t[0] == p.hours[0];
    assert !IsSpace(t[|t| - 1]) by {
      if p.fraction == "" {
        assert t[|t| - 1] == p.seconds[|p.seconds| - 1];
      } else {
        assert t[|t| - 1] == p.fraction[|p.fraction| - 1];
      }
    }
    TrimIdentity(t);
    MatchTimeOnlyComplete(p);
  }

  // ---------------------------------------------------------------------------
  // Absolute timestamps: ^(\d{1,2})\.(\d{1,2})\.(\d{4})\s+<time of day>$
  // ---------------------------------------------------------------------------

  /** The capture groups of the day-first date pattern, together with the
      whitespace between date and time. */
  datatype EuroParts = EuroParts(day: string, month: string, year: string, gap: string, time: TimeParts)

  predicate ValidEuroParts(e: EuroParts) {
    && ShortNumeral(e.day) && ShortNumeral(e.month)
    && AllDigits(e.year) && |e.year| == 4
    && e.gap != [] && AllSpace(e.gap)
    && ValidTimeParts(e.time)
  }

  function EuroText(e: EuroParts): string {
    e.day + "." + e.month + "." + e.year + e.gap + TimeText(e.time)
  }

  /** The year group, the whitespace gap and the time of day that follow
      the month's separator. */
  function MatchYearAndTime(t: string): (r: Option<(string, string, TimeParts)>)
    ensures r.Some? ==> var (year, gap, tp) := r.value;
      && AllDigits(year) && |year| == 4 && gap != [] && AllSpace(gap) && ValidTimeParts(tp)
      && t == year + gap + TimeText(tp)
  {
    if DigitRun(t, 0) != 4 then None
    else
      var rest := t[4..];
      var w := SpaceRun(rest, 0);
      if w == 0 then None
      else
        match MatchTimeOnly(rest[w..])
        case None => None
        case Some(tp) =>
          YearAndGap(t, w);
          Some((t[..4], rest[..w], tp))
  }

  lemma YearAndGap(t: string, w: nat)
    requires DigitRun(t, 0) == 4 && 0 < w && SpaceRun(t[4..], 0) == w
    ensures AllDigits(t[..4]) && AllSpace(t[4..][..w])
    ensures t == t[..4] + t[4..][..w] + t[4..][w..]
  {
    var rest := t[4..];
    forall k | 0 <= k < 4 ensures IsDigit(t[..4][k]) {
      assert t[..4][k] == t[k];
    }
    forall k | 0 <= k < w ensures IsSpace(rest[..w][k]) {
      assert rest[..w][k] == rest[k];
    }
    assert rest == rest[..w] + rest[w..];
  }

  lemma MatchYearAndTimeOf(year: string, gap: string, tp: TimeParts)
    requires AllDigits(year) && |year| == 4 && gap != [] && AllSpace(gap) && ValidTimeParts(tp)
    ensures MatchYearAndTime(year + gap + TimeText(tp)) == Some((year, gap, tp))
  {
    var tt := TimeText(tp);
    var t := year + gap + tt;
    assert t[4] == gap[0];
    DigitRunIs(t, 0, 4);
    var rest := t[4..];
    assert rest == gap + tt;
    assert rest[|gap|] == tp.hours[0];
    SpaceRunIs(rest, 0, |gap|);
    assert t[..4] == year;
    assert rest[..|gap|] == gap;
    assert rest[|gap|..] == tt;
    MatchTimeOnlyComplete(tp);
  }

  /** Matching against the day-first date pattern. */
  function MatchEuroDate(t: string): (r: Option<EuroParts>)
    ensures r.Some? ==> ValidEuroParts(r.value) && EuroText(r.value) == t
  {
    match TakeNumeral(t, '.')
    case None => None
    case Some((day, r1)) =>
      match TakeNumeral(r1, '.')
      case None => None
      case Some((month, r2)) =>
        match MatchYearAndTime(r2)
        case None => None
        case Some((year, gap, tp)) =>
          var e := EuroParts(day, month, year, gap, tp);
          EuroTextAssoc(e);
          Some(e)
  }

  lemma EuroTextAssoc(e: EuroParts)
    ensures EuroText(e) == e.day + ['.'] + (e.month + ['.'] + (e.year + e.gap + TimeText(e.time)))
  {
  }

  /** Completeness: every text of the day-first shape is matched, with exactly
      its groups. */
  lemma MatchEuroDateComplete(e: EuroParts)
    requires ValidEuroParts(e)
    ensures MatchEuroDate(EuroText(e)) == Some(e)
  {
    var r2 := e.year + e.gap + TimeText(e.time);
    var r1 := e.month + ['.'] + r2;
    EuroTextAssoc(e);
    TakeNumeralOf(e.day, '.', r1);
    TakeNumeralOf(e.month, '.', r2);
    MatchYearAndTimeOf(e.year, e.gap, e.time);
  }

  /** The arguments the source passes to the `Date` constructor: the month
      becomes zero-based and the fraction is cut or padded to milliseconds. */
  function DateFieldsOf(e: EuroParts): DateFields
    requires ValidEuroParts(e)
  {
    DateFields(
      DigitsValue(e.year), DigitsValue(e.month) - 1, DigitsValue(e.day),
      DigitsValue(e.time.hours), DigitsValue(e.time.minutes), DigitsValue(e.time.seconds),
      Millis3(e.time.fraction))
  }

  const EpochSecondsFloor: real := 1000000000.0
  const EpochMillisFloor: real := 1000000000000.0

  /** The magnitude heuristic for numbers: above 10^12 they are epoch
      milliseconds, above 10^9 epoch seconds, anything smaller is no
      timestamp. */
  function EpochMillis(x: real): (r: Option<real>)
    ensures r.Some? <==> x > EpochSecondsFloor
    ensures r.Some? ==> r.value > EpochMillisFloor
    ensures x > EpochMillisFloor ==> r == Some(x)
  {
    if x > EpochMillisFloor then Some(x)
    else if x > EpochSecondsFloor then Some(x * 1000.0)
    else None
  }

  /** Strings are trimmed, tried against the day-first pattern and then
      handed, slashes turned into hyphens, to the host's date parser. */
  function ParseDateText(s: string, env: Env): (r: Option<real>)
    ensures AllSpace(s) ==> r.None?
  {
    if s == "" then None
    else
      var t := Trim(s);
      TrimEmptyIff(s);
      if t == "" then None
      else
        var euro := MatchEuroDate(t);
        if euro.Some? && env.makeDate(DateFieldsOf(euro.value)).Some? then
          env.makeDate(DateFieldsOf(euro.value))
        else
          env.dateParse(ReplaceAllChar(t, '/', '-'))
  }

  /** `parseDateValue`: epoch milliseconds for a cell, or `None`.
      Valid dates pass through, numbers go through the magnitude heuristic,
      strings through the text reader; nothing else is a timestamp. */
  function ParseDateValue(c: Cell, env: Env): (r: Option<real>)
    ensures IsBlank(c) ==> r.None?
    ensures c.Str? && AllSpace(c.s) ==> r.None?
    ensures c.Num? ==> (r.Some? <==> c.x > EpochSecondsFloor)
    ensures c.Num? && r.Some? ==> r.value > EpochMillisFloor
    ensures c.Num? && c.x > EpochMillisFloor ==> r == Some(c.x)
    ensures c.Instant? ==> r == c.time
    ensures c.Infinite? || c.Bool? ==> r.None?
  {
    match c
    case Null => None
    case Undefined => None
    case Instant(time) => time
    case Num(x) => EpochMillis(x)
    case Str(s) => ParseDateText(s, env)
    case Infinite(_) => None
    case Bool(_) => None
  }

  /** The magnitude heuristic is consistent: an epoch in seconds and the same
      epoch in milliseconds denote the same instant. */
  lemma EpochSecondsAgreeWithMillis(x: real, env: Env)
    requires EpochSecondsFloor < x <= EpochMillisFloor
    ensures ParseDateValue(Num(x), env) == ParseDateValue(Num(x * 1000.0), env)
  {
  }

  /** A day-first timestamp reaches the `Date` constructor with its fields
      extracted; only when that yields an invalid date does the generic parser
      get the text. */
  lemma ParseEuroDateText(e: EuroParts, env: Env)
    requires ValidEuroParts(e)
    ensures ParseDateValue(Str(EuroText(e)), env) ==
      if env.makeDate(DateFieldsOf(e)).Some? then env.makeDate(DateFieldsOf(e))
      else env.dateParse(ReplaceAllChar(EuroText(e), '/', '-'))
  {
    var t := EuroText(e);
    var tt := TimeText(e.time);
    assert t[0] == e.day[0];
    assert t[|t| - 1] == tt[|tt| - 1];
    assert !IsSpace(tt[|tt| - 1]) by {
      if e.time.fraction == "" {
        assert tt[|tt| - 1] == e.time.seconds[|e.time.seconds| - 1];
      } else {
        assert tt[|tt| - 1] == e.time.fraction[|e.time.fraction| - 1];
      }
    }
    TrimIdentity(t);
    MatchEuroDateComplete(e);
  }
}
