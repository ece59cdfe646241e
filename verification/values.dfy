/**
  The values the pipeline manipulates: optional and fallible results, the cell
  values a tokenised CSV row holds, and rows as maps from header to cell.
 */
module Values {

  datatype Option<+T> = None | Some(value: T) {
    function GetOr(default: T): T {
      match this
      case Some(v) => v
      case None => default
    }
  }

  datatype Result<+R, +E> = Success(value: R) | Failure(error: E)

  /** A raw cell as the tokeniser delivers it with type sniffing switched on.
      Numbers are finite reals; `Infinite` is a `±Infinity` value, should the
      tokeniser yield one; `Instant` is a `Date` object (its time value, or
      `None` for an invalid date); `Null` and `Undefined` are JavaScript's two
      absent values, kept apart because the source tests for both. */
  datatype Cell =
    | Str(s: string)
    | Num(x: real)
    | Infinite(negative: bool)
    | Bool(b: bool)
    | Instant(time: Option<real>)
    | Null
    | Undefined

  /** A row object: header name to cell. A key that is not present reads as
      `Undefined`. */
  type Row = map<string, Cell>

  /** `row[key]` in JavaScript. */
  function Get(row: Row, key: string): (c: Cell)
    ensures key !in row ==> c == Undefined
  {
    if key in row then row[key] else Undefined
  }

  /** `value === null || value === undefined || value === ""`: the test the
      source repeats wherever it asks whether a cell holds anything. */
  predicate IsBlank(c: Cell) {
    c.Null? || c.Undefined? || c == Str("")
  }

  /** JavaScript truthiness of a cell value: the empty string, zero, `false`,
      `null` and `undefined` are falsy, every object is truthy. */
  predicate Truthy(c: Cell) {
    match c
    case Str(s) => s != ""
    case Num(x) => x != 0.0
    case Infinite(_) => true
    case Bool(b) => b
    case Instant(_) => true
    case Null => false
    case Undefined => false
  }

  /** JavaScript truthiness of a header key that may be `null`. */
  predicate KeyPresent(k: Option<string>) {
    k.Some? && k.value != ""
  }

  /** JavaScript truthiness of a number that may be `null`. */
  predicate NonZero(v: Option<real>) {
    v.Some? && v.value != 0.0
  }
}

/**
  Everything the pipeline obtains from the JavaScript host or from third-party
  code it does not contain, passed in as functions: float parsing, the `Date`
  constructor and `Date.parse`, number and date stringification, the
  `Intl.DateTimeFormat` label, and the two tokenisation passes.
 */
module Host {
  import opened Values

  /** The arguments handed to `new Date(year, monthIndex, day, h, m, s, ms)`. */
  datatype DateFields = DateFields(
    year: int, monthIndex: int, day: int,
    hours: int, minutes: int, seconds: int, millis: int)

  /** What the header-mode tokenisation pass reports: the header fields
      (after the header-trimming hook; absent when no header row was sniffed),
      the row objects, and the messages of the parse errors it met. */
  datatype HeaderPass = HeaderPass(fields: Option<seq<string>>, data: seq<Row>, errors: seq<string>)

  datatype Env = Env(
    /** `Number.parseFloat` followed by `Number.isFinite`: `None` for NaN and
        for the infinities. */
    parseFloat: string -> Option<real>,
    /** `new Date(…).getTime()` in local time; `None` for an invalid date. */
    makeDate: DateFields -> Option<real>,
    /** `Date.parse`; `None` for NaN. */
    dateParse: string -> Option<real>,
    /** `String(x)` for a finite number. */
    numberText: real -> string,
    /** `String(d)` for a valid `Date` with time value `t`. */
    dateText: real -> string,
    /** The medium date-and-time label of an epoch-millisecond value. */
    timestampLabel: real -> string,
    /** Tokenisation with a header row, greedy blank-line skipping and type
        sniffing. */
    tokenize: string -> HeaderPass,
    /** Tokenisation without a header row and without type sniffing. */
    tokenizeRows: string -> seq<seq<string>>)
}
