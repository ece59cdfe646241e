/**
  The leaf helpers of the CSV library: time-column detection, lenient numeric
  coercion, the numeric-column detector, the CPU/GPU/RAM/Other classifier and
  fixed-size chunking.
 */
module CsvLib {
  import opened Values
  import opened Seqs
  import opened Text

  // ---------------------------------------------------------------------------
  // Time-column detection
  // ---------------------------------------------------------------------------

  /** The alternation of the time-key pattern. */
  const TimeKeywords: seq<string> := ["time", "date", "timestamp", "recorded", "log"]

  predicate IsTimeHeader(h: string) {
    ContainsAny(h, TimeKeywords)
  }

  /** The first header that mentions a time keyword, or `None`. (The source's
      `match || null` would also turn an empty header into `null`, but an empty
      header mentions no keyword.) */
  function DetectTimeKey(headers: seq<string>): (r: Option<string>)
    ensures r.Some? ==> r.value in headers && IsTimeHeader(r.value)
    ensures r.Some? ==> exists i | 0 <= i < |headers| ::
      headers[i] == r.value && forall k :: 0 <= k < i ==> !IsTimeHeader(headers[k])
    ensures r.None? <==> forall h :: h in headers ==> !IsTimeHeader(h)
  {
    var i := FindIndex(headers, IsTimeHeader);
    if i < 0 then None else Some(headers[i])
  }

  // ---------------------------------------------------------------------------
  // Numeric coercion
  // ---------------------------------------------------------------------------

  /** Best-effort conversion of a cell to a finite number. Strings have their
      first decimal comma turned into a point before float parsing; every
      other non-number yields `None`. All reals are finite, so a `Some`
      result is always a finite number. */
  function CoerceNumber(c: Cell, parseFloat: string -> Option<real>): (r: Option<real>)
    ensures IsBlank(c) ==> r.None?
    ensures c.Num? ==> r == Some(c.x)
    ensures c.Infinite? || c.Bool? || c.Instant? ==> r.None?
    ensures r.Some? ==> c.Num? || (c.Str? && c.s != "")
    ensures c.Str? && c.s != "" ==> r == parseFloat(ReplaceFirstChar(c.s, ',', '.'))
  {
    match c
    case Null => None
    case Undefined => None
    case Num(x) => Some(x)
    case Str(s) => if s == "" then None else parseFloat(ReplaceFirstChar(s, ',', '.'))
    case Infinite(_) => None
    case Bool(_) => None
    case Instant(_) => None
  }

  /** The decimal comma is rewritten before float parsing: with a parser that
      reads `"12.5"` as 12.5 and finds no number in `"abc"`, the string
      `"12,5"` coerces to 12.5 and `"abc"` to nothing. */
  lemma CoerceExamples(parseFloat: string -> Option<real>)
    requires parseFloat("12.5") == Some(12.5) && parseFloat("abc") == None
    ensures CoerceNumber(Str("12,5"), parseFloat) == Some(12.5)
    ensures CoerceNumber(Str("abc"), parseFloat) == None
  {
    assert ',' !in "abc";
    assert ',' in "12,5" by { assert "12,5"[2] == ','; }
    assert FirstIndexOf("12,5", ',') == 2;
    assert "12,5"[..2] + ['.'] + "12,5"[3..] == "12.5";
  }

  // ---------------------------------------------------------------------------
  // Numeric-column detection
  // ---------------------------------------------------------------------------

  /** Rows whose cell under `h` holds a value. */
  function SampleCount(rows: seq<Row>, h: string): (n: nat)
    ensures n <= |rows|
  {
    if rows == [] then 0
    else SampleCount(rows[..|rows| - 1], h) + (if IsBlank(Get(rows[|rows| - 1], h)) then 0 else 1)
  }

  /** Rows whose cell under `h` holds a value that coerces to a number. */
  function NumericCount(rows: seq<Row>, h: string, parseFloat: string -> Option<real>): (n: nat)
    ensures n <= SampleCount(rows, h)
  {
    if rows == [] then 0
    else
      var last := Get(rows[|rows| - 1], h);
      NumericCount(rows[..|rows| - 1], h, parseFloat)
        + (if !IsBlank(last) && CoerceNumber(last, parseFloat).Some? then 1 else 0)
  }

  /** A column is numeric when it has at least one sample and at least 60% of
      its samples coerce to numbers (`5 * numeric >= 3 * samples`). */
  predicate IsNumericColumn(rows: seq<Row>, h: string, parseFloat: string -> Option<real>) {
    var samples := SampleCount(rows, h);
    samples > 0 && 5 * NumericCount(rows, h, parseFloat) >= 3 * samples
  }

  /** The headers judged numeric, in header order. */
  function NumericColumns(headers: seq<string>, rows: seq<Row>, parseFloat: string -> Option<real>): seq<string> {
    Filter(headers, h => IsNumericColumn(rows, h, parseFloat))
  }

  /** The detector's per-column scan: counts samples and numeric samples in one
      pass and compares their ratio with 0.6. */
  method ColumnIsNumeric(h: string, rows: seq<Row>, parseFloat: string -> Option<real>) returns (numeric: bool)
    ensures numeric <==> IsNumericColumn(rows, h, parseFloat)
    ensures numeric ==> SampleCount(rows, h) > 0
  {
    var sampleCount := 0;
    var numericCount := 0;
    var j := 0;
    while j < |rows|
      invariant 0 <= j <= |rows|
      invariant sampleCount == SampleCount(rows[..j], h)
      invariant numericCount == NumericCount(rows[..j], h, parseFloat)
    {
      assert rows[..j + 1][..j] == rows[..j];
      var value := Get(rows[j], h);
      if !IsBlank(value) {
        sampleCount := sampleCount + 1;
        if CoerceNumber(value, parseFloat).Some? {
          numericCount := numericCount + 1;
        }
      }
      j := j + 1;
    }
    assert rows[..j] == rows;
    numeric := sampleCount > 0 && (numericCount as real) / (sampleCount as real) >= 0.6;
    if sampleCount > 0 {
      RatioThreshold(numericCount, sampleCount);
    }
  }

  /** The source's ratio test read over exact rationals. */
  lemma RatioThreshold(numeric: nat, samples: nat)
    requires samples > 0
    ensures (numeric as real) / (samples as real) >= 0.6 <==> 5 * numeric >= 3 * samples
  {
    var n := numeric as real;
    var s := samples as real;
    var q := n / s;
    assert q * s == n;
    if q >= 0.6 {
      assert q * s >= 0.6 * s;
    } else {
      assert q * s < 0.6 * s;
    }
    assert (5 * numeric) as real == 5.0 * n;
    assert (3 * samples) as real == 3.0 * s;
  }

  /** `getNumericColumns`: the headers whose columns are numeric, as an
      order-preserving subsequence of the headers. */
  method GetNumericColumns(headers: seq<string>, rows: seq<Row>, parseFloat: string -> Option<real>)
    returns (columns: seq<string>)
    ensures columns == NumericColumns(headers, rows, parseFloat)
    ensures IsSubseq(columns, headers)
    ensures forall h :: h in columns <==> h in headers && IsNumericColumn(rows, h, parseFloat)
  {
    columns := [];
    var i := |headers|;
    while i > 0
      invariant 0 <= i <= |headers|
      invariant columns == NumericColumns(headers[i..], rows, parseFloat)
    {
      i := i - 1;
      var numeric := ColumnIsNumeric(headers[i], rows, parseFloat);
      assert headers[i..][1..] == headers[i + 1..];
      if numeric {
        columns := [headers[i]] + columns;
      }
    }
    assert headers[0..] == headers;
    FilterIsSubseq(headers, h => IsNumericColumn(rows, h, parseFloat));
  }

  /** A column without a single non-empty sample is never numeric, whatever
      the other columns hold. */
  lemma NoSamplesNotNumeric(headers: seq<string>, rows: seq<Row>, h: string, parseFloat: string -> Option<real>)
    requires forall j :: 0 <= j < |rows| ==> IsBlank(Get(rows[j], h))
    ensures h !in NumericColumns(headers, rows, parseFloat)
  {
    BlankColumnHasNoSamples(rows, h);
  }

  lemma {:induction false} BlankColumnHasNoSamples(rows: seq<Row>, h: string)
    requires forall j :: 0 <= j < |rows| ==> IsBlank(Get(rows[j], h))
    ensures SampleCount(rows, h) == 0
  {
    if rows != [] {
      var init := rows[..|rows| - 1];
      assert forall j :: 0 <= j < |init| ==> init[j] == rows[j];
      BlankColumnHasNoSamples(init, h);
    }
  }

  // ---------------------------------------------------------------------------
  // Column classification
  // ---------------------------------------------------------------------------

  datatype Category = Cpu | Gpu | Ram | Other

  const CpuKeywords: seq<string> := ["cpu", "core", "package", "tdp", "vrm", "socket"]
  const GpuKeywords: seq<string> := ["gpu", "graphics", "vram", "rtx", "gtx", "radeon", "nvidia", "amd"]
  const RamKeywords: seq<string> := ["ram", "memory", "mem", "dimm", "dram"]

  /** The ordered rule list: the first pattern that matches decides, so a
      header falls in a category exactly when that category's pattern
      matches and no earlier one does. */
  function Classify(h: string): (r: Category)
    ensures r == Cpu <==> ContainsAny(h, CpuKeywords)
    ensures r == Gpu <==> !ContainsAny(h, CpuKeywords) && ContainsAny(h, GpuKeywords)
    ensures r == Ram <==>
      !ContainsAny(h, CpuKeywords) && !ContainsAny(h, GpuKeywords) && ContainsAny(h, RamKeywords)
    ensures r == Other <==>
      !ContainsAny(h, CpuKeywords) && !ContainsAny(h, GpuKeywords) && !ContainsAny(h, RamKeywords)
  {
    if ContainsAny(h, CpuKeywords) then Cpu
    else if ContainsAny(h, GpuKeywords) then Gpu
    else if ContainsAny(h, RamKeywords) then Ram
    else Other
  }

  /** The test "header `h` falls in category `c`", as a filter predicate. */
  function InCategory(c: Category): string -> bool {
    h => Classify(h) == c
  }

  datatype CategoryMap = CategoryMap(cpu: seq<string>, gpu: seq<string>, ram: seq<string>, other: seq<string>) {
    function Bucket(c: Category): seq<string> {
      match c
      case Cpu => cpu
      case Gpu => gpu
      case Ram => ram
      case Other => other
    }
  }

  /** One pass over the headers appending each to the bucket of its category.
      Each bucket is the headers of that category in input order. */
  function CategorizeColumns(headers: seq<string>): (r: CategoryMap)
    ensures forall c :: r.Bucket(c) == Filter(headers, InCategory(c))
  {
    if headers == [] then CategoryMap([], [], [], [])
    else
      var rest := CategorizeColumns(headers[1..]);
      var h := headers[0];
      assert forall c :: (Filter(headers, InCategory(c))
        == (if Classify(h) == c then [h] else []) + Filter(headers[1..], InCategory(c)));
      match Classify(h)
      case Cpu => rest.(cpu := [h] + rest.cpu)
      case Gpu => rest.(gpu := [h] + rest.gpu)
      case Ram => rest.(ram := [h] + rest.ram)
      case Other => rest.(other := [h] + rest.other)
  }

  /** Classification is a partition: every header lies in exactly the bucket
      of its category, and the four buckets together hold every header exactly
      as often as the input does. */
  lemma CategorizePartition(headers: seq<string>)
    ensures var m := CategorizeColumns(headers);
      && (forall h, c :: h in headers ==> (h in m.Bucket(c) <==> Classify(h) == c))
      && (forall h, c :: h in m.Bucket(c) ==> h in headers)
      && multiset(m.cpu + m.gpu + m.ram + m.other) == multiset(headers)
  {
    var m := CategorizeColumns(headers);
    BucketsMultiset(headers);
  }

  lemma {:induction false} BucketsMultiset(headers: seq<string>)
    ensures var m := CategorizeColumns(headers);
      multiset(m.cpu) + multiset(m.gpu) + multiset(m.ram) + multiset(m.other) == multiset(headers)
  {
    if headers != [] {
      BucketsMultiset(headers[1..]);
      var m := CategorizeColumns(headers);
      var rest := CategorizeColumns(headers[1..]);
      var h := headers[0];
      assert multiset(headers) == multiset{h} + multiset(headers[1..]) by {
        assert headers == [h] + headers[1..];
      }
      match Classify(h)
      case Cpu => assert m.cpu == [h] + rest.cpu;
      case Gpu => assert m.gpu == [h] + rest.gpu;
      case Ram => assert m.ram == [h] + rest.ram;
      case Other => assert m.other == [h] + rest.other;
    }
  }

  lemma ClassifyCpuExamples()
    ensures Classify("CPU Package Power") == Cpu
    ensures Classify("AMD CPU Core") == Cpu
  {
    assert MatchesAt("CPU Package Power", CpuKeywords[0], 0);
    ContainsFromWitness("CPU Package Power", CpuKeywords[0], 0, 0);
    assert MatchesAt("AMD CPU Core", CpuKeywords[0], 4);
    ContainsFromWitness("AMD CPU Core", CpuKeywords[0], 4, 0);
  }

  /** The CPU rule is tried first, so a GPU header is not captured by it. */
  lemma ClassifyGpuExample()
    ensures Classify("GPU Memory") == Gpu
  {
    NoKeyword("GPU Memory", CpuKeywords);
    assert MatchesAt("GPU Memory", GpuKeywords[0], 0);
    ContainsFromWitness("GPU Memory", GpuKeywords[0], 0, 0);
  }

  lemma ClassifyRamExample()
    ensures Classify("Physical Memory Used") == Ram
  {
    var h := "Physical Memory Used";
    PhysicalMemoryNotCpuOrGpu();
    var w := RamKeywords[2];
    assert w == "mem" && h[9] == 'M' && h[10] == 'e' && h[11] == 'm';
    assert MatchesFrom(h, w, 9, 3);
    assert MatchesFrom(h, w, 9, 2);
    assert MatchesFrom(h, w, 9, 1);
    assert MatchesAt(h, w, 9);
    ContainsFromWitness(h, w, 9, 0);
  }

  lemma PhysicalMemoryNotCpuOrGpu()
    ensures !ContainsAny("Physical Memory Used", CpuKeywords)
    ensures !ContainsAny("Physical Memory Used", GpuKeywords)
  {
    var h := "Physical Memory Used";
    forall j | 0 <= j < |CpuKeywords| ensures !ContainsCI(h, CpuKeywords[j]) {
      AbsentOpening(h, CpuKeywords[j]);
    }
    forall j | 0 <= j < |GpuKeywords| ensures !ContainsCI(h, GpuKeywords[j]) {
      AbsentOpening(h, GpuKeywords[j]);
    }
  }

  lemma ClassifyOtherExample()
    ensures Classify("Fan Speed") == Other
  {
    NoKeyword("Fan Speed", CpuKeywords);
    NoKeyword("Fan Speed", GpuKeywords);
    NoKeyword("Fan Speed", RamKeywords);
  }

  // ---------------------------------------------------------------------------
  // Chunking
  // ---------------------------------------------------------------------------

  function Flatten<T>(chunks: seq<seq<T>>): seq<T> {
    if chunks == [] then [] else chunks[0] + Flatten(chunks[1..])
  }

  /** Consecutive slices of `size` items, the last one possibly shorter. */
  function ChunkArray<T>(items: seq<T>, size: nat): (r: seq<seq<T>>)
    requires size > 0
    ensures Flatten(r) == items
    ensures forall i :: 0 <= i < |r| ==> 0 < |r[i]| <= size
    ensures forall i :: 0 <= i < |r| - 1 ==> |r[i]| == size
    decreases |items|
  {
    if items == [] then []
    else
      var n := if |items| < size then |items| else size;
      var rest := ChunkArray(items[n..], size);
      var r := [items[..n]] + rest;
      assert r[0] == items[..n] && r[1..] == rest;
      assert items[..n] + items[n..] == items;
      r
  }

  /** `n` groups of at most `size` are needed for `len` items, and `n - 1`
      would not be enough. */
  predicate FewestGroups(n: nat, len: nat, size: nat) {
    (len == 0 <==> n == 0) && (len != 0 ==> (n - 1) * size < len <= n * size)
  }

  lemma FewestGroupsStep(k: nat, len: nat, size: nat)
    requires size > 0 && len >= size && FewestGroups(k, len - size, size)
    ensures FewestGroups(k + 1, len, size)
  {
    assert (k + 1) * size == k * size + size;
    if k > 0 {
      assert k * size == (k - 1) * size + size;
    }
  }

  /** There are `ceil(|items| / size)` chunks: the fewest groups of `size`
      that hold every item. */
  lemma {:induction false} ChunkCount<T>(items: seq<T>, size: nat)
    requires size > 0
    ensures FewestGroups(|ChunkArray(items, size)|, |items|, size)
    decreases |items|
  {
    if items != [] {
      if |items| < size {
        assert items[|items|..] == [];
        assert |ChunkArray(items, size)| == 1;
      } else {
        var rest := items[size..];
        ChunkCount(rest, size);
        assert |ChunkArray(items, size)| == |ChunkArray(rest, size)| + 1;
        FewestGroupsStep(|ChunkArray(rest, size)|, |items|, size);
      }
    }
  }

}
