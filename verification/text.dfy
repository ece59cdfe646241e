/**
  Character and string vocabulary for the parts of JavaScript's string API and
  regular expressions that the CSV pipeline relies on: `String.prototype.trim`,
  case-insensitive keyword search (`/…/i`), the `\b` word boundary, decimal
  digit runs and `parseInt`, `String(n).padStart(2, "0")` and the first-match
  and global forms of `String.prototype.replace` on single characters.

  Only ASCII letters are folded. A regular expression without the `u` flag
  folds case by upper-casing and refuses to map a non-ASCII character onto an
  ASCII one, and `\b` looks only at `[A-Za-z0-9_]`, so for the lower-case
  ASCII keywords used here folding ASCII letters alone is exact.
 */
module Text {

  // ---------------------------------------------------------------------------
  // Whitespace and trimming
  // ---------------------------------------------------------------------------

  /** JavaScript's WhiteSpace and LineTerminator characters: the set removed by
      `trim()` and matched by `\s`. */
  predicate IsSpace(c: char) {
    c in SpaceChars
  }

  const SpaceChars: set<char> := {
    '\t', '\n', '\U{B}', '\U{C}', '\r', ' ', '\U{A0}', '\U{1680}',
    '\U{2000}', '\U{2001}', '\U{2002}', '\U{2003}', '\U{2004}', '\U{2005}',
    '\U{2006}', '\U{2007}', '\U{2008}', '\U{2009}', '\U{200A}',
    '\U{2028}', '\U{2029}', '\U{202F}', '\U{205F}', '\U{3000}', '\U{FEFF}'
  }

  predicate AllSpace(s: string) {
    forall k :: 0 <= k < |s| ==> IsSpace(s[k])
  }

  /** `s` with its leading whitespace removed. */
  function TrimStart(s: string): (r: string)
    ensures |r| <= |s| && r == s[|s| - |r|..]
    ensures forall k :: 0 <= k < |s| - |r| ==> IsSpace(s[k])
    ensures r != [] ==> !IsSpace(r[0])
  {
    if s != [] && IsSpace(s[0]) then
      var r := TrimStart(s[1..]);
      assert s[1..][|s| - 1 - |r|..] == s[|s| - |r|..];
      assert forall k :: 1 <= k < |s| - |r| ==> s[k] == s[1..][k - 1];
      r
    else s
  }

  /** `s` with its trailing whitespace removed. */
  function TrimEnd(s: string): (r: string)
    ensures |r| <= |s| && r == s[..|r|]
    ensures forall k :: |r| <= k < |s| ==> IsSpace(s[k])
    ensures r != [] ==> !IsSpace(r[|r| - 1])
  {
    if s != [] && IsSpace(s[|s| - 1]) then TrimEnd(s[..|s| - 1]) else s
  }

  /** `String.prototype.trim`. */
  function Trim(s: string): string {
    TrimEnd(TrimStart(s))
  }

  /** Trimming yields the empty string exactly for whitespace-only input. */
  lemma TrimEmptyIff(s: string)
    ensures Trim(s) == [] <==> AllSpace(s)
  {
    var a := TrimStart(s);
    if Trim(s) == [] {
      assert a == [];
      assert s[..|s|] == s;
    } else {
      var r := Trim(s);
      assert r[0] == a[0];
      assert a[0] == s[|s| - |a|];
    }
  }

  /** A string that neither starts nor ends with whitespace is its own trim. */
  lemma TrimIdentity(s: string)
    requires s != [] && !IsSpace(s[0]) && !IsSpace(s[|s| - 1])
    ensures Trim(s) == s
  {
  }

  // ---------------------------------------------------------------------------
  // Case-insensitive keyword search and word boundaries
  // ---------------------------------------------------------------------------

  function LowerChar(c: char): char {
    if 'A' <= c <= 'Z' then (c as int + 32) as char else c
  }

  /** `w[k..]` occurs in `s` at position `i + k`, ignoring ASCII case
      (`w` is written in lower case). */
  predicate MatchesFrom(s: string, w: string, i: nat, k: nat)
    decreases |w| - k
  {
    k >= |w| || (i + k < |s| && LowerChar(s[i + k]) == w[k] && MatchesFrom(s, w, i, k + 1))
  }

  /** The lower-case keyword `w` occurs in `s` at position `i`. */
  predicate MatchesAt(s: string, w: string, i: nat) {
    i + |w| <= |s| && MatchesFrom(s, w, i, 0)
  }

  /** Some occurrence of `w` in `s` starts at `i` or later. */
  predicate ContainsFrom(s: string, w: string, i: nat)
    decreases |s| - i
  {
    i + |w| <= |s| && (MatchesAt(s, w, i) || ContainsFrom(s, w, i + 1))
  }

  /** `/w/i.test(s)` for a lower-case literal keyword `w`. */
  predicate ContainsCI(s: string, w: string) {
    ContainsFrom(s, w, 0)
  }

  /** `/(k1|k2|…)/i.test(s)`: some keyword of the alternation occurs in `s`. */
  predicate ContainsAny(s: string, keywords: seq<string>) {
    exists j | 0 <= j < |keywords| :: ContainsCI(s, keywords[j])
  }

  lemma ContainsFromWitness(s: string, w: string, i: nat, j: nat)
    requires j <= i && MatchesAt(s, w, i)
    ensures ContainsFrom(s, w, j)
    decreases i - j
  {
    if j < i {
      ContainsFromWitness(s, w, i, j + 1);
    }
  }

  /** A search succeeds exactly when some position holds a match. */
  lemma {:induction false} ContainsFromIff(s: string, w: string, i: nat)
    ensures ContainsFrom(s, w, i) <==> exists p :: i <= p && MatchesAt(s, w, p)
    decreases |s| - i
  {
    if i + |w| <= |s| {
      ContainsFromIff(s, w, i + 1);
      if !ContainsFrom(s, w, i) {
        forall p | i <= p ensures !MatchesAt(s, w, p) {
          if p == i {
          } else {
            assert i + 1 <= p;
          }
        }
      }
    } else {
      assert forall p :: i <= p ==> !MatchesAt(s, w, p);
    }
  }

  /** A match at `i` places each keyword letter, lower-cased, at its
      offset. */
  lemma {:induction false} MatchesFromChar(s: string, w: string, i: nat, k: nat, j: nat)
    requires MatchesFrom(s, w, i, k) && k <= j < |w|
    ensures i + j < |s| && LowerChar(s[i + j]) == w[j]
    decreases j - k
  {
    if k < j {
      MatchesFromChar(s, w, i, k + 1, j);
    }
  }

  /** A keyword whose first two letters never stand side by side in `s`
      (ignoring case) does not occur in `s`. */
  lemma AbsentOpening(s: string, w: string)
    requires |w| >= 2
    requires forall p :: 0 <= p < |s| - 1 ==> !(LowerChar(s[p]) == w[0] && LowerChar(s[p + 1]) == w[1])
    ensures !ContainsCI(s, w)
  {
    if ContainsCI(s, w) {
      ContainsFromIff(s, w, 0);
      var p :| 0 <= p && MatchesAt(s, w, p);
      MatchesFromChar(s, w, p, 0, 0);
      MatchesFromChar(s, w, p, 0, 1);
    }
  }

  /** No keyword of the alternation occurs in `s` when none of their
      two-letter openings does. */
  lemma NoKeyword(s: string, keywords: seq<string>)
    requires forall j :: 0 <= j < |keywords| ==> |keywords[j]| >= 2
    requires forall j, p :: 0 <= j < |keywords| && 0 <= p < |s| - 1 ==>
      !(LowerChar(s[p]) == keywords[j][0] && LowerChar(s[p + 1]) == keywords[j][1])
    ensures !ContainsAny(s, keywords)
  {
    forall j | 0 <= j < |keywords| ensures !ContainsCI(s, keywords[j]) {
      AbsentOpening(s, keywords[j]);
    }
  }

  /** `[A-Za-z0-9_]`, the characters `\b` treats as word characters. */
  predicate IsWordChar(c: char) {
    ('a' <= c <= 'z') || ('A' <= c <= 'Z') || ('0' <= c <= '9') || c == '_'
  }

  /** `w` occurs at `i` with a word boundary on both sides. */
  predicate WordAt(s: string, w: string, i: nat) {
    && MatchesAt(s, w, i)
    && (i == 0 || !IsWordChar(s[i - 1]))
    && (i + |w| == |s| || !IsWordChar(s[i + |w|]))
  }

  predicate HasWordFrom(s: string, w: string, i: nat)
    decreases |s| - i
  {
    i + |w| <= |s| && (WordAt(s, w, i) || HasWordFrom(s, w, i + 1))
  }

  /** `/\bw\b/i.test(s)` for a lower-case literal word `w`. */
  predicate HasWord(s: string, w: string) {
    HasWordFrom(s, w, 0)
  }

  /** A standalone word is in particular a substring: `/\bw\b/i` matching
      implies `/w/i` matching. */
  lemma {:induction false} HasWordContains(s: string, w: string, i: nat)
    requires HasWordFrom(s, w, i)
    ensures ContainsFrom(s, w, i)
    decreases |s| - i
  {
    if !WordAt(s, w, i) {
      HasWordContains(s, w, i + 1);
    }
  }

  // ---------------------------------------------------------------------------
  // Decimal digits
  // ---------------------------------------------------------------------------

  predicate IsDigit(c: char) {
    '0' <= c <= '9'
  }

  predicate AllDigits(s: string) {
    forall k :: 0 <= k < |s| ==> IsDigit(s[k])
  }

  function DigitValue(c: char): nat
    requires IsDigit(c)
  {
    c as int - '0' as int
  }

  function DigitChar(d: nat): (c: char)
    requires d < 10
    ensures IsDigit(c) && DigitValue(c) == d
  {
    ('0' as int + d) as char
  }

  /** Length of the maximal run of digits starting at `i`. */
  function DigitRun(s: string, i: nat): (n: nat)
    requires i <= |s|
    ensures i + n <= |s|
    ensures forall k :: i <= k < i + n ==> IsDigit(s[k])
    ensures i + n == |s| || !IsDigit(s[i + n])
    decreases |s| - i
  {
    if i < |s| && IsDigit(s[i]) then 1 + DigitRun(s, i + 1) else 0
  }

  /** Length of the maximal run of whitespace starting at `i`. */
  function SpaceRun(s: string, i: nat): (n: nat)
    requires i <= |s|
    ensures i + n <= |s|
    ensures forall k :: i <= k < i + n ==> IsSpace(s[k])
    ensures i + n == |s| || !IsSpace(s[i + n])
    decreases |s| - i
  {
    if i < |s| && IsSpace(s[i]) then 1 + SpaceRun(s, i + 1) else 0
  }

  /** A run of `n` digits ending at a non-digit (or the end) is the maximal one. */
  lemma DigitRunIs(s: string, i: nat, n: nat)
    requires i + n <= |s|
    requires forall k :: i <= k < i + n ==> IsDigit(s[k])
    requires i + n == |s| || !IsDigit(s[i + n])
    ensures DigitRun(s, i) == n
  {
  }

  lemma SpaceRunIs(s: string, i: nat, n: nat)
    requires i + n <= |s|
    requires forall k :: i <= k < i + n ==> IsSpace(s[k])
    requires i + n == |s| || !IsSpace(s[i + n])
    ensures SpaceRun(s, i) == n
  {
  }

  /** `parseInt(s, 10)` of a non-empty string of decimal digits. */
  function DigitsValue(s: string): nat
    requires AllDigits(s)
  {
    if s == [] then 0 else 10 * DigitsValue(s[..|s| - 1]) + DigitValue(s[|s| - 1])
  }

  function Pow10(n: nat): (p: nat)
    ensures p >= 1
  {
    if n == 0 then 1 else 10 * Pow10(n - 1)
  }

  /** A value written with `n` digits is below `10^n`. */
  lemma {:induction false} DigitsValueBound(s: string)
    requires AllDigits(s)
    ensures DigitsValue(s) < Pow10(|s|)
  {
    if s != [] {
      DigitsValueBound(s[..|s| - 1]);
    }
  }

  /** Leading zeros do not change the value read by `parseInt`. */
  lemma {:induction false} DigitsValueLeadingZero(s: string)
    requires AllDigits(s)
    ensures AllDigits("0" + s) && DigitsValue("0" + s) == DigitsValue(s)
  {
    if s != [] {
      var t := "0" + s;
      assert t[..|t| - 1] == "0" + s[..|s| - 1];
      DigitsValueLeadingZero(s[..|s| - 1]);
    }
  }

  /** `String(n)` for a natural number: its decimal digits, no leading zero. */
  function NatToString(n: nat): (r: string)
    ensures r != [] && AllDigits(r)
    ensures DigitsValue(r) == n
    ensures |r| == 1 <==> n < 10
    ensures n < 100 ==> |r| <= 2
    ensures |r| > 1 ==> r[0] != '0'
  {
    if n < 10 then [DigitChar(n)]
    else
      var r := NatToString(n / 10) + [DigitChar(n % 10)];
      assert r[..|r| - 1] == NatToString(n / 10);
      r
  }

  /** Distinct numbers print differently. */
  lemma NatToStringInjective(a: nat, b: nat)
    requires NatToString(a) == NatToString(b)
    ensures a == b
  {
  }

  /** `String(n).padStart(2, "0")`. */
  function Pad2(n: nat): (r: string)
    ensures AllDigits(r) && |r| >= 2
    ensures DigitsValue(r) == n
    ensures n < 100 ==> |r| == 2
    ensures |r| > 2 ==> r[0] != '0'
  {
    var d := NatToString(n);
    if |d| < 2 then DigitsValueLeadingZero(d); "0" + d else d
  }

  // ---------------------------------------------------------------------------
  // Single-character replacement
  // ---------------------------------------------------------------------------

  /** `s.replace(a, b)` with a one-character string pattern: only the first
      occurrence of `a` is replaced. */
  function ReplaceFirstChar(s: string, a: char, b: char): (r: string)
    ensures |r| == |s|
    ensures a !in s ==> r == s
    ensures a in s ==> var i := FirstIndexOf(s, a);
      r == s[..i] + [b] + s[i + 1..]
  {
    if s == [] then []
    else if s[0] == a then [b] + s[1..]
    else
      var rest := ReplaceFirstChar(s[1..], a, b);
      assert a in s ==> a in s[1..];
      [s[0]] + rest
  }

  /** Position of the first `c` in `s`. */
  function FirstIndexOf(s: string, c: char): (i: nat)
    requires c in s
    ensures i < |s| && s[i] == c && c !in s[..i]
  {
    if s[0] == c then 0
    else
      assert c in s[1..];
      var k := FirstIndexOf(s[1..], c);
      assert s[..k + 1] == [s[0]] + s[1..][..k];
      k + 1
  }

  /** `s.replace(/a/g, b)`: every occurrence of `a` becomes `b`. */
  function ReplaceAllChar(s: string, a: char, b: char): (r: string)
    ensures |r| == |s|
    ensures forall k :: 0 <= k < |s| ==> r[k] == (if s[k] == a then b else s[k])
  {
    if s == [] then []
    else [if s[0] == a then b else s[0]] + ReplaceAllChar(s[1..], a, b)
  }
}
