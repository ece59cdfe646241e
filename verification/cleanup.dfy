/**
  Text clean-up that runs before tokenisation: removal of a leading
  byte-order mark and repair of a header line that an exporter wrote as one
  quoted field with doubled quotes inside.
 */
module Cleanup {
  import opened Text

  const Bom: char := '\U{FEFF}'

  /** Removes one leading byte-order mark, if there is one. */
  function StripBom(t: string): (r: string)
    ensures |t| - 1 <= |r| <= |t| && r == t[|t| - |r|..]
    ensures |r| < |t| <==> t != [] && t[0] == Bom
  {
    if t != [] && t[0] == Bom then t[1..] else t
  }

  // ---------------------------------------------------------------------------
  // Lines
  // ---------------------------------------------------------------------------

  function DropCr(s: string): (r: string)
    ensures '\n' in r ==> '\n' in s
  {
    if s != [] && s[|s| - 1] == '\r' then s[..|s| - 1] else s
  }

  /** `t.split(/\r?\n/)`: the pieces between line feeds, each piece that is
      followed by a line feed losing one carriage return before it. */
  function SplitLines(t: string): (ls: seq<string>)
    ensures |ls| >= 1
    ensures forall i :: 0 <= i < |ls| ==> '\n' !in ls[i]
    decreases |t|
  {
    if '\n' !in t then [t]
    else
      var i := FirstIndexOf(t, '\n');
      [DropCr(t[..i])] + SplitLines(t[i + 1..])
  }

  /** `lines.join("\n")` */
  function JoinLines(ls: seq<string>): string
    requires |ls| >= 1
  {
    if |ls| == 1 then ls[0] else ls[0] + "\n" + JoinLines(ls[1..])
  }

  /** Every carriage return directly before a line feed removed: what
      splitting on `/\r?\n/` and re-joining with `"\n"` does to a text. */
  function CrlfToLf(s: string): (r: string)
    ensures |r| <= |s|
  {
    if s == [] then []
    else if |s| >= 2 && s[0] == '\r' && s[1] == '\n' then "\n" + CrlfToLf(s[2..])
    else [s[0]] + CrlfToLf(s[1..])
  }

  /** A text without carriage returns is left as it is. */
  lemma {:induction false} CrlfToLfNoCr(s: string)
    requires '\r' !in s
    ensures CrlfToLf(s) == s
  {
    if s != [] {
      assert s == [s[0]] + s[1..] && '\r' !in s[1..];
      CrlfToLfNoCr(s[1..]);
    }
  }

  /** One step of `CrlfToLf` on a text that does not start with CRLF. */
  lemma CrlfToLfCons(c: char, s: string)
    requires !(c == '\r' && s != [] && s[0] == '\n')
    ensures CrlfToLf([c] + s) == [c] + CrlfToLf(s)
  {
    var t := [c] + s;
    assert t[0] == c && t[1..] == s;
  }

  /** A line longer than a lone carriage return loses a final carriage
      return from its tail. */
  lemma DropCrCons(a: string)
    requires |a| >= 2 || (|a| == 1 && a[0] != '\r')
    ensures DropCr(a) == [a[0]] + DropCr(a[1..])
  {
    if |a| >= 2 {
      assert a[1..][|a| - 2] == a[|a| - 1];
      assert a[..|a| - 1] == [a[0]] + a[1..][..|a| - 2];
    } else {
      assert a[1..] == [];
    }
  }

  /** A line without a line feed, then a line feed, then the rest: the line
      loses a final carriage return, the rest is normalised in turn. */
  lemma {:induction false} CrlfToLfLine(a: string, rest: string)
    requires '\n' !in a
    ensures CrlfToLf(a + "\n" + rest) == DropCr(a) + "\n" + CrlfToLf(rest)
    decreases |a|
  {
    if a == [] {
      assert a + "\n" + rest == ['\n'] + rest;
      CrlfToLfCons('\n', rest);
    } else if a == "\r" {
      var s := a + "\n" + rest;
      assert s[0] == '\r' && s[1] == '\n' && s[2..] == rest;
    } else {
      assert '\n' !in a[1..];
      assert |a| == 1 ==> a == [a[0]];
      CrlfToLfLine(a[1..], rest);
      CrlfToLfLineStep(a, rest);
    }
  }

  lemma CrlfToLfLineStep(a: string, rest: string)
    requires '\n' !in a && (|a| >= 2 || (|a| == 1 && a[0] != '\r'))
    requires CrlfToLf(a[1..] + "\n" + rest) == DropCr(a[1..]) + "\n" + CrlfToLf(rest)
    ensures CrlfToLf(a + "\n" + rest) == DropCr(a) + "\n" + CrlfToLf(rest)
  {
    CrlfToLfLineHead(a, rest);
    DropCrCons(a);
  }

  /** The first character of a line that is not a lone carriage return
      passes through unchanged. */
  lemma CrlfToLfLineHead(a: string, rest: string)
    requires '\n' !in a && (|a| >= 2 || (|a| == 1 && a[0] != '\r'))
    ensures CrlfToLf(a + "\n" + rest) == [a[0]] + CrlfToLf(a[1..] + "\n" + rest)
  {
    var tail := a[1..] + "\n" + rest;
    assert |a| >= 2 ==> tail[0] == a[1] && a[1] in a;
    assert a + "\n" + rest == [a[0]] + tail;
    CrlfToLfCons(a[0], tail);
  }


  /** One step of `SplitLines` on a text with a line feed. */
  lemma SplitLinesStep(t: string)
    requires '\n' in t
    ensures var i := FirstIndexOf(t, '\n');
      SplitLines(t) == [DropCr(t[..i])] + SplitLines(t[i + 1..])
  {
  }

  lemma JoinLinesCons(l: string, ls: seq<string>)
    requires |ls| >= 1
    ensures JoinLines([l] + ls) == l + "\n" + JoinLines(ls)
  {
    assert ([l] + ls)[1..] == ls;
  }

  /** Splitting into lines and re-joining them with line feeds turns every
      CRLF line break into a bare line feed and changes nothing else. */
  lemma {:induction false} JoinSplit(t: string)
    ensures JoinLines(SplitLines(t)) == CrlfToLf(t)
    decreases |t|
  {
    if '\n' in t {
      var i := FirstIndexOf(t, '\n');
      var line, rest := t[..i], t[i + 1..];
      calc {
        JoinLines(SplitLines(t));
      == { SplitLinesStep(t); }
        JoinLines([DropCr(line)] + SplitLines(rest));
      == { JoinLinesCons(DropCr(line), SplitLines(rest)); }
        DropCr(line) + "\n" + JoinLines(SplitLines(rest));
      == { JoinSplit(rest); }
        DropCr(line) + "\n" + CrlfToLf(rest);
      == { CrlfToLfLine(line, rest); }
        CrlfToLf(line + "\n" + rest);
      == { assert t == line + "\n" + rest; }
        CrlfToLf(t);
      }
    } else {
      CrlfToLfNoLf(t);
    }
  }

  lemma {:induction false} CrlfToLfNoLf(s: string)
    requires '\n' !in s
    ensures CrlfToLf(s) == s
  {
    if s != [] {
      assert '\n' !in s[1..];
      CrlfToLfNoLf(s[1..]);
    }
  }

  /** The first line is a prefix of the normalised text; after it comes a
      line feed unless it is the only line. */
  lemma FirstLineOfJoin(ls: seq<string>, c: string)
    requires |ls| >= 1
    ensures ls[0] <= JoinLines(ls)
    ensures JoinLines([c] + ls[1..]) == c + JoinLines(ls)[|ls[0]|..]
  {
    var joined := [c] + ls[1..];
    assert joined[1..] == ls[1..];
    if |ls| > 1 {
      assert JoinLines(ls) == ls[0] + ("\n" + JoinLines(ls[1..]));
    }
  }

  // ---------------------------------------------------------------------------
  // Quoted header repair
  // ---------------------------------------------------------------------------

  /** The characters of `s` other than double quotes, in order. */
  function Unquoted(s: string): string {
    if s == [] then []
    else (if s[0] == '"' then "" else [s[0]]) + Unquoted(s[1..])
  }

  lemma UnquotedCons(c: char, s: string)
    ensures Unquoted([c] + s) == (if c == '"' then "" else [c]) + Unquoted(s)
  {
    var t := [c] + s;
    assert t[0] == c && t[1..] == s;
  }

  lemma {:induction false} UnquotedAppend(a: string, b: string)
    ensures Unquoted(a + b) == Unquoted(a) + Unquoted(b)
  {
    if a == [] {
      assert a + b == b;
    } else {
      var t := a + b;
      assert t[0] == a[0] && t[1..] == a[1..] + b;
      UnquotedAppend(a[1..], b);
      var h := if a[0] == '"' then "" else [a[0]];
      assert Unquoted(t) == h + Unquoted(a[1..] + b);
      assert Unquoted(a) == h + Unquoted(a[1..]);
    }
  }

  /** No two adjacent double quotes. */
  predicate NoQuotePair(s: string) {
    forall i, j :: 0 <= i < |s| && j == i + 1 && j < |s| ==> !(s[i] == '"' && s[j] == '"')
  }

  /** `s.replace(/"""/g, '"')`: left to right, each run of three quotes
      becomes one. */
  function CollapseTripleQuotes(s: string): string {
    if s == [] then []
    else if |s| >= 3 && s[0] == '"' && s[1] == '"' && s[2] == '"' then
      "\"" + CollapseTripleQuotes(s[3..])
    else
      [s[0]] + CollapseTripleQuotes(s[1..])
  }

  /** `s.replace(/""/g, "")`: left to right, each pair of quotes is deleted. */
  function RemoveQuotePairs(s: string): string {
    if s == [] then []
    else if |s| >= 2 && s[0] == '"' && s[1] == '"' then
      RemoveQuotePairs(s[2..])
    else
      [s[0]] + RemoveQuotePairs(s[1..])
  }

  /** One step of each rewrite: a leading triple (respectively pair) of
      quotes is rewritten, any other first character is kept. */
  lemma CollapseTripleStep(u: string)
    ensures CollapseTripleQuotes("\"\"\"" + u) == "\"" + CollapseTripleQuotes(u)
  {
    var t := "\"\"\"" + u;
    assert t[0] == '"' && t[1] == '"' && t[2] == '"' && t[3..] == u;
  }

  lemma CollapseKeepStep(c: char, u: string)
    requires !(c == '"' && |u| >= 2 && u[0] == '"' && u[1] == '"')
    ensures CollapseTripleQuotes([c] + u) == [c] + CollapseTripleQuotes(u)
  {
    var v := [c] + u;
    assert v[0] == c && v[1..] == u;
    assert |v| >= 3 ==> v[1] == u[0] && v[2] == u[1];
  }

  lemma RemovePairStep(u: string)
    ensures RemoveQuotePairs("\"\"" + u) == RemoveQuotePairs(u)
  {
    var t := "\"\"" + u;
    assert t[0] == '"' && t[1] == '"' && t[2..] == u;
  }

  lemma RemoveKeepStep(c: char, u: string)
    requires !(c == '"' && u != [] && u[0] == '"')
    ensures RemoveQuotePairs([c] + u) == [c] + RemoveQuotePairs(u)
  {
    var v := [c] + u;
    assert v[0] == c && v[1..] == u;
  }

  /** Collapsing tripled quotes only removes quotes. */
  lemma {:induction false} CollapseKeepsUnquoted(s: string)
    ensures Unquoted(CollapseTripleQuotes(s)) == Unquoted(s)
    decreases |s|
  {
    if s == [] {
    } else if |s| >= 3 && s[0] == '"' && s[1] == '"' && s[2] == '"' {
      var u := s[3..];
      assert s == "\"\"\"" + u;
      CollapseKeepsUnquoted(u);
      CollapseTripleStep(u);
      UnquotedAppend("\"\"\"", u);
      UnquotedAppend("\"", CollapseTripleQuotes(u));
    } else {
      var u := s[1..];
      assert s == [s[0]] + u;
      CollapseKeepsUnquoted(u);
      CollapseKeepStep(s[0], u);
      UnquotedCons(s[0], u);
      UnquotedCons(s[0], CollapseTripleQuotes(u));
    }
  }

  /** Deleting doubled quotes only removes quotes. */
  lemma {:induction false} RemovePairsKeepsUnquoted(s: string)
    ensures Unquoted(RemoveQuotePairs(s)) == Unquoted(s)
    decreases |s|
  {
    if s == [] {
    } else if |s| >= 2 && s[0] == '"' && s[1] == '"' {
      var u := s[2..];
      assert s == "\"\"" + u;
      RemovePairsKeepsUnquoted(u);
      RemovePairStep(u);
      UnquotedAppend("\"\"", u);
    } else {
      var u := s[1..];
      assert s == [s[0]] + u;
      RemovePairsKeepsUnquoted(u);
      RemoveKeepStep(s[0], u);
      UnquotedCons(s[0], u);
      UnquotedCons(s[0], RemoveQuotePairs(u));
    }
  }

  /** A first character that is not a quote stays first under both
      rewrites. */
  lemma RewritesKeepFirstChar(s: string)
    requires s != [] && s[0] != '"'
    ensures CollapseTripleQuotes(s) != [] && CollapseTripleQuotes(s)[0] == s[0]
    ensures RemoveQuotePairs(s) != [] && RemoveQuotePairs(s)[0] == s[0]
  {
    assert s == [s[0]] + s[1..];
    CollapseKeepStep(s[0], s[1..]);
    RemoveKeepStep(s[0], s[1..]);
  }

  /** A text with no quotes at all is left alone by tripled-quote
      collapsing. */
  lemma {:induction false} CollapseWithoutQuotes(s: string)
    requires '"' !in s
    ensures CollapseTripleQuotes(s) == s
    decreases |s|
  {
    if s != [] {
      assert s == [s[0]] + s[1..] && '"' !in s[1..];
      CollapseWithoutQuotes(s[1..]);
      CollapseKeepStep(s[0], s[1..]);
    }
  }

  /** No doubled quote survives the deletion, and a text without one is left
      alone. */
  lemma {:induction false} RemovePairsLeavesNoPair(s: string)
    ensures NoQuotePair(RemoveQuotePairs(s))
    decreases |s|
  {
    if s == [] {
    } else if |s| >= 2 && s[0] == '"' && s[1] == '"' {
      RemovePairsLeavesNoPair(s[2..]);
      RemovePairStep(s[2..]);
      assert s == "\"\"" + s[2..];
    } else {
      var u := s[1..];
      assert s == [s[0]] + u;
      RemovePairsLeavesNoPair(u);
      RemoveKeepStep(s[0], u);
      var rest := RemoveQuotePairs(u);
      var r := [s[0]] + rest;
      if s[0] == '"' && u != [] {
        RewritesKeepFirstChar(u);
      }
      forall i, j | 0 <= i < |r| && j == i + 1 && j < |r| ensures !(r[i] == '"' && r[j] == '"') {
        if i > 0 {
          assert r[i] == rest[i - 1] && r[j] == rest[j - 1];
        }
      }
    }
  }

  lemma {:induction false} RemovePairsWithoutPair(s: string)
    requires NoQuotePair(s)
    ensures RemoveQuotePairs(s) == s
    decreases |s|
  {
    if s != [] {
      var u := s[1..];
      assert s == [s[0]] + u;
      forall i, j | 0 <= i < |u| && j == i + 1 && j < |u| ensures !(u[i] == '"' && u[j] == '"') {
        assert u[i] == s[i + 1] && u[j] == s[j + 1];
      }
      RemovePairsWithoutPair(u);
      assert |s| >= 2 ==> !(s[0] == '"' && s[1] == '"');
      RemoveKeepStep(s[0], u);
    }
  }

  /** Adding zero or two to an even count keeps it even. */
  lemma EvenPlus(x: int, d: int)
    requires x % 2 == 0 && (d == 0 || d == 2)
    ensures (x + d) % 2 == 0
  {
  }

  /** Both rewrites shorten the text by an even number of characters: each
      step turns three quotes into one or deletes two. */
  lemma {:induction false} CollapseRemovesEvenCount(s: string)
    ensures (|s| - |CollapseTripleQuotes(s)|) % 2 == 0
    decreases |s|
  {
    if s == [] {
    } else if |s| >= 3 && s[0] == '"' && s[1] == '"' && s[2] == '"' {
      var t := s[3..];
      CollapseRemovesEvenCount(t);
      assert |s| - |CollapseTripleQuotes(s)| == (|t| - |CollapseTripleQuotes(t)|) + 2;
      EvenPlus(|t| - |CollapseTripleQuotes(t)|, 2);
    } else {
      var t := s[1..];
      CollapseRemovesEvenCount(t);
      assert |s| - |CollapseTripleQuotes(s)| == |t| - |CollapseTripleQuotes(t)|;
    }
  }

  lemma {:induction false} RemovePairsRemovesEvenCount(s: string)
    ensures (|s| - |RemoveQuotePairs(s)|) % 2 == 0
    decreases |s|
  {
    if s == [] {
    } else if |s| >= 2 && s[0] == '"' && s[1] == '"' {
      var t := s[2..];
      RemovePairsRemovesEvenCount(t);
      assert |s| - |RemoveQuotePairs(s)| == (|t| - |RemoveQuotePairs(t)|) + 2;
      EvenPlus(|t| - |RemoveQuotePairs(t)|, 2);
    } else {
      var t := s[1..];
      RemovePairsRemovesEvenCount(t);
      assert |s| - |RemoveQuotePairs(s)| == |t| - |RemoveQuotePairs(t)|;
    }
  }

  /** `.replace(/^"/, "")` */
  function DropLeadingQuote(s: string): (r: string)
    ensures Unquoted(r) == Unquoted(s)
  {
    if s != [] && s[0] == '"' then
      UnquotedCons('"', s[1..]);
      assert s == [s[0]] + s[1..];
      s[1..]
    else s
  }

  /** `.replace(/"$/, "")` */
  function DropTrailingQuote(s: string): (r: string)
    ensures Unquoted(r) == Unquoted(s)
  {
    if s != [] && s[|s| - 1] == '"' then
      var init := s[..|s| - 1];
      assert s == init + "\"";
      UnquotedAppend(init, "\"");
      init
    else s
  }

  /** The header repair: strip one opening and one closing quote, collapse
      tripled quotes, then delete doubled quotes. Only quotes are ever removed,
      and no doubled quote remains. */
  function CleanHeaderLine(line: string): (r: string)
    ensures NoQuotePair(r)
    ensures Unquoted(r) == Unquoted(line)
  {
    var collapsed := CollapseTripleQuotes(DropTrailingQuote(DropLeadingQuote(line)));
    CollapseKeepsUnquoted(DropTrailingQuote(DropLeadingQuote(line)));
    RemovePairsKeepsUnquoted(collapsed);
    RemovePairsLeavesNoPair(collapsed);
    RemoveQuotePairs(collapsed)
  }

  // ---------------------------------------------------------------------------
  // The repair, run by run
  // ---------------------------------------------------------------------------

  /** `n` double quotes. */
  function Quotes(n: nat): (r: string)
    ensures |r| == n && forall i :: 0 <= i < n ==> r[i] == '"'
  {
    if n == 0 then [] else "\"" + Quotes(n - 1)
  }

  /** The length of the run of quotes that `s` starts with. */
  function QuoteRun(s: string): (k: nat)
    ensures k <= |s| && (forall i :: 0 <= i < k ==> s[i] == '"') && (k < |s| ==> s[k] != '"')
  {
    if s != [] && s[0] == '"' then 1 + QuoteRun(s[1..]) else 0
  }

  /** How many quotes a run of `k` keeps when tripled quotes collapse. */
  function Collapsed(k: nat): nat {
    if k >= 3 then 1 + Collapsed(k - 3) else k
  }

  /** How many quotes a run of `m` keeps when doubled quotes are deleted. */
  function Unpaired(m: nat): nat {
    if m >= 2 then Unpaired(m - 2) else m
  }

  /** How many quotes of a maximal run of `k` survive the repair. */
  function RunSurvivors(k: nat): nat {
    Unpaired(Collapsed(k))
  }

  lemma {:induction false} CollapsedClosedForm(k: nat)
    ensures Collapsed(k) == k / 3 + k % 3
  {
    if k >= 3 {
      CollapsedClosedForm(k - 3);
    }
  }

  lemma {:induction false} UnpairedClosedForm(m: nat)
    ensures Unpaired(m) == m % 2
  {
    if m >= 2 {
      UnpairedClosedForm(m - 2);
    }
  }

  /** In closed form: tripled quotes collapse to `k / 3` singles with
      `k % 3` left over, and deleting pairs leaves the parity. */
  lemma RunSurvivorsClosedForm(k: nat)
    ensures RunSurvivors(k) == (k / 3 + k % 3) % 2
  {
    CollapsedClosedForm(k);
    UnpairedClosedForm(Collapsed(k));
  }

  /** The repair as a reference definition over maximal runs of quotes:
      every other character is kept, and each run of `k` quotes is replaced
      by `RunSurvivors(k)` quotes. */
  function RepairRuns(s: string): string
    decreases |s|
  {
    if s == [] then []
    else if s[0] != '"' then [s[0]] + RepairRuns(s[1..])
    else
      var k := QuoteRun(s);
      Quotes(RunSurvivors(k)) + RepairRuns(s[k..])
  }

  lemma QuotesSplit(a: nat, b: nat)
    ensures Quotes(a + b) == Quotes(a) + Quotes(b)
  {
  }

  /** A run of `k` quotes followed by something that is not a quote
      collapses to `Collapsed(k)` quotes. */
  lemma {:induction false} CollapseRun(k: nat, u: string)
    requires u == [] || u[0] != '"'
    ensures CollapseTripleQuotes(Quotes(k) + u) == Quotes(Collapsed(k)) + CollapseTripleQuotes(u)
    decreases k
  {
    if k >= 3 {
      CollapseRun(k - 3, u);
      CollapseLongRun(k, u);
    } else {
      CollapseShortRun(k, u);
    }
  }

  lemma QuotesDropThree(k: nat, u: string)
    requires k >= 3
    ensures Quotes(k) + u == "\"\"\"" + (Quotes(k - 3) + u)
  {
    QuotesSplit(3, k - 3);
    assert Quotes(3) == "\"\"\"";
  }

  lemma CollapsedQuotesHead(k: nat)
    requires k >= 3
    ensures Quotes(Collapsed(k)) == "\"" + Quotes(Collapsed(k - 3))
  {
    assert Collapsed(k) == 1 + Collapsed(k - 3);
    QuotesSplit(1, Collapsed(k - 3));
    assert Quotes(1) == "\"";
  }

  lemma CollapseLongRun(k: nat, u: string)
    requires k >= 3
    requires CollapseTripleQuotes(Quotes(k - 3) + u) == Quotes(Collapsed(k - 3)) + CollapseTripleQuotes(u)
    ensures CollapseTripleQuotes(Quotes(k) + u) == Quotes(Collapsed(k)) + CollapseTripleQuotes(u)
  {
    var v := Quotes(k - 3) + u;
    calc {
      CollapseTripleQuotes(Quotes(k) + u);
    == { QuotesDropThree(k, u); }
      CollapseTripleQuotes("\"\"\"" + v);
    == { CollapseTripleStep(v); }
      "\"" + CollapseTripleQuotes(v);
      "\"" + (Quotes(Collapsed(k - 3)) + CollapseTripleQuotes(u));
    == { CollapsedQuotesHead(k); }
      Quotes(Collapsed(k)) + CollapseTripleQuotes(u);
    }
  }

  lemma CollapseShortRun(k: nat, u: string)
    requires k < 3 && (u == [] || u[0] != '"')
    ensures CollapseTripleQuotes(Quotes(k) + u) == Quotes(Collapsed(k)) + CollapseTripleQuotes(u)
  {
    if k == 2 {
      CollapseTwoQuotes(u);
    } else if k == 1 {
      assert Quotes(1) + u == ['"'] + u;
      CollapseKeepStep('"', u);
    } else {
      assert Quotes(0) + u == u;
    }
  }

  lemma CollapseTwoQuotes(u: string)
    requires u == [] || u[0] != '"'
    ensures CollapseTripleQuotes(Quotes(2) + u) == Quotes(2) + CollapseTripleQuotes(u)
  {
    var v := ['"'] + u;
    calc {
      CollapseTripleQuotes(Quotes(2) + u);
    == { assert Quotes(2) + u == ['"'] + v; }
      CollapseTripleQuotes(['"'] + v);
    == { CollapseKeepStep('"', v); }
      ['"'] + CollapseTripleQuotes(v);
    == { CollapseKeepStep('"', u); }
      ['"'] + (['"'] + CollapseTripleQuotes(u));
    == { assert Quotes(2) == ['"'] + ['"']; }
      Quotes(2) + CollapseTripleQuotes(u);
    }
  }



  /** A run of `m` quotes followed by something that is not a quote keeps
      `Unpaired(m)` of them once pairs are deleted. */
  lemma {:induction false} RemovePairsRun(m: nat, u: string)
    requires u == [] || u[0] != '"'
    ensures RemoveQuotePairs(Quotes(m) + u) == Quotes(Unpaired(m)) + RemoveQuotePairs(u)
    decreases m
  {
    if m >= 2 {
      var v := Quotes(m - 2) + u;
      RemovePairsRun(m - 2, u);
      calc {
        RemoveQuotePairs(Quotes(m) + u);
      == { QuotesSplit(2, m - 2); assert Quotes(2) == "\"\""; assert Quotes(m) + u == "\"\"" + v; }
        RemoveQuotePairs("\"\"" + v);
      == { RemovePairStep(v); }
        RemoveQuotePairs(v);
      }
    } else if m == 1 {
      assert Quotes(1) == "\"";
      assert Quotes(1) + u == ['"'] + u;
      RemoveKeepStep('"', u);
    } else {
      assert Quotes(0) == [];
      assert Quotes(0) + u == u;
    }
  }

  /** Collapsing tripled quotes and then deleting doubled ones is the
      run-by-run repair. */
  lemma {:induction false} RepairIsRunwise(s: string)
    ensures RemoveQuotePairs(CollapseTripleQuotes(s)) == RepairRuns(s)
    decreases |s|
  {
    if s == [] {
    } else if s[0] != '"' {
      RepairIsRunwise(s[1..]);
      var c := CollapseTripleQuotes(s[1..]);
      assert s == [s[0]] + s[1..];
      CollapseKeepStep(s[0], s[1..]);
      RemoveKeepStep(s[0], c);
    } else {
      var k := QuoteRun(s);
      var u := s[k..];
      assert s == Quotes(k) + u;
      RepairIsRunwise(u);
      CollapseRun(k, u);
      var cu := CollapseTripleQuotes(u);
      if u != [] {
        RewritesKeepFirstChar(u);
      }
      RemovePairsRun(Collapsed(k), cu);
    }
  }

  /** The whole header repair: the outer quotes go, then every remaining
      maximal run of `k` quotes becomes `RunSurvivors(k)` quotes. */
  lemma CleanHeaderLineRuns(line: string)
    ensures CleanHeaderLine(line) == RepairRuns(DropTrailingQuote(DropLeadingQuote(line)))
  {
    RepairIsRunwise(DropTrailingQuote(DropLeadingQuote(line)));
  }

  /** A tripled quote inside the header survives as one quote. */
  lemma CleanHeaderKeepsEscapedQuote()
    ensures CleanHeaderLine("\"a\"\"\"b\"") == "a\"b"
  {
    var line := "\"a\"\"\"b\"";
    assert DropLeadingQuote(line) == "a\"\"\"b\"";
    assert DropTrailingQuote("a\"\"\"b\"") == "a\"\"\"b";
    var inner := "a\"\"\"b";
    assert inner == "a" + Quotes(3) + "b";
    CleanHeaderLineRuns(line);
    assert inner[1..] == Quotes(3) + "b";
    assert QuoteRun(inner[1..]) == 3;
    assert inner[1..][3..] == "b";
    assert RepairRuns("b") == "b";
    assert RepairRuns(inner[1..]) == Quotes(1) + "b";
  }

  /** A header written as one quoted field with no quotes inside is simply
      unwrapped. */
  lemma CleanPlainQuotedHeader(inner: string)
    requires '"' !in inner
    ensures CleanHeaderLine("\"" + inner + "\"") == inner
  {
    var line := "\"" + inner + "\"";
    assert DropLeadingQuote(line) == inner + "\"";
    assert DropTrailingQuote(inner + "\"") == inner;
    CollapseWithoutQuotes(inner);
    RemovePairsWithoutPair(inner);
  }

  /** The repair applies to a first line that opens with a quote and holds a
      comma. */
  predicate NeedsHeaderCleanup(line: string) {
    line != [] && line[0] == '"' && ',' in line
  }

  /** BOM removal, then the header repair when the first line needs it. The
      repair re-joins the lines with line feeds, so then, and only then,
      every CRLF line break of the text becomes a bare line feed; otherwise
      the text after the BOM is passed on untouched. */
  function PrepareText(text: string): (r: string)
    ensures var t := StripBom(text);
      var first := SplitLines(t)[0];
      && first <= CrlfToLf(t)
      && r == if NeedsHeaderCleanup(first) then CleanHeaderLine(first) + CrlfToLf(t)[|first|..] else t
  {
    var t := StripBom(text);
    var lines := SplitLines(t);
    JoinSplit(t);
    FirstLineOfJoin(lines, CleanHeaderLine(lines[0]));
    if NeedsHeaderCleanup(lines[0]) then JoinLines([CleanHeaderLine(lines[0])] + lines[1..])
    else t
  }

  /** For text without carriage returns, preparation replaces the first line
      (after the BOM) by its repaired form and leaves every following
      character as it was. */
  lemma PrepareTextReplacesFirstLineOnly(text: string)
    requires '\r' !in text
    ensures var t := StripBom(text);
      var first := SplitLines(t)[0];
      && first <= t
      && PrepareText(text) ==
         (if NeedsHeaderCleanup(first) then CleanHeaderLine(first) else first) + t[|first|..]
  {
    var t := StripBom(text);
    assert '\r' !in t;
    CrlfToLfNoCr(t);
  }
}
