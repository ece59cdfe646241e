/**
  Generic sequence vocabulary shared by the whole model: order-preserving
  filtering, the subsequence relation, first-match search, duplicate-free
  sequences and first-occurrence de-duplication.
 */
module Seqs {

  /** `a` can be obtained from `b` by deleting elements, keeping the order. */
  predicate IsSubseq<T(==)>(a: seq<T>, b: seq<T>)
    decreases |b|
  {
    if a == [] then true
    else if b == [] then false
    else (a[0] == b[0] && IsSubseq(a[1..], b[1..])) || IsSubseq(a, b[1..])
  }

  /** The elements of `s` satisfying `keep`, in their original order
      (JavaScript's `Array.prototype.filter`). */
  function Filter<T(!new)>(s: seq<T>, keep: T -> bool): (r: seq<T>)
    ensures |r| <= |s|
    ensures forall x :: x in r <==> x in s && keep(x)
  {
    if s == [] then []
    else (if keep(s[0]) then [s[0]] else []) + Filter(s[1..], keep)
  }

  /** Every kept element occurs as often as in the input, every other one not
      at all. */
  lemma {:induction false} FilterMultiplicity<T(!new)>(s: seq<T>, keep: T -> bool)
    ensures forall x :: multiset(Filter(s, keep))[x] == if keep(x) then multiset(s)[x] else 0
  {
    if s != [] {
      FilterMultiplicity(s[1..], keep);
      var head := if keep(s[0]) then [s[0]] else [];
      assert s == [s[0]] + s[1..];
      assert multiset(s) == multiset{s[0]} + multiset(s[1..]);
      assert multiset(Filter(s, keep)) == multiset(head) + multiset(Filter(s[1..], keep));
    }
  }

  lemma {:induction false} FilterIsSubseq<T(!new)>(s: seq<T>, keep: T -> bool)
    ensures IsSubseq(Filter(s, keep), s)
  {
    if s != [] {
      FilterIsSubseq(s[1..], keep);
      var rest := Filter(s[1..], keep);
      if keep(s[0]) {
        assert Filter(s, keep) == [s[0]] + rest;
        assert ([s[0]] + rest)[1..] == rest;
      } else {
        assert Filter(s, keep) == rest;
        SubseqOfTail(rest, s);
      }
    }
  }

  lemma {:induction false} SubseqOfTail<T>(a: seq<T>, b: seq<T>)
    requires b != [] && IsSubseq(a, b[1..])
    ensures IsSubseq(a, b)
  {
  }

  lemma {:induction false} SubseqRefl<T>(s: seq<T>)
    ensures IsSubseq(s, s)
  {
    if s != [] {
      SubseqRefl(s[1..]);
    }
  }

  /** One step of `Filter`: the head is kept or dropped, then the tail is
      filtered. */
  lemma FilterCons<T(!new)>(s: seq<T>, keep: T -> bool)
    requires s != []
    ensures Filter(s, keep) == (if keep(s[0]) then [s[0]] + Filter(s[1..], keep) else Filter(s[1..], keep))
  {
  }

  /** A subsequence of a subsequence is a subsequence. */
  lemma {:induction false} SubseqTrans<T>(a: seq<T>, b: seq<T>, c: seq<T>)
    requires IsSubseq(a, b) && IsSubseq(b, c)
    ensures IsSubseq(a, c)
    decreases |c|
  {
    if a != [] && b != [] && c != [] {
      if b[0] == c[0] && IsSubseq(b[1..], c[1..]) {
        if a[0] == b[0] && IsSubseq(a[1..], b[1..]) {
          SubseqTrans(a[1..], b[1..], c[1..]);
        } else {
          SubseqTrans(a, b[1..], c[1..]);
        }
      } else {
        SubseqTrans(a, b, c[1..]);
      }
    }
  }

  /** Two filters may be applied in either order. */
  lemma {:induction false} FilterCommute<T(!new)>(s: seq<T>, p: T -> bool, q: T -> bool)
    ensures Filter(Filter(s, p), q) == Filter(Filter(s, q), p)
  {
    if s != [] {
      var x := s[0];
      var tail := s[1..];
      FilterCommute(tail, p, q);
      var tp := Filter(tail, p);
      var tq := Filter(tail, q);
      FilterCons(s, p);
      FilterCons(s, q);
      if p(x) {
        var fp := [x] + tp;
        assert fp[0] == x && fp[1..] == tp;
        FilterCons(fp, q);
      }
      if q(x) {
        var fq := [x] + tq;
        assert fq[0] == x && fq[1..] == tq;
        FilterCons(fq, p);
      }
    }
  }

  /** Filtering an already filtered sequence by the same test changes nothing. */
  lemma {:induction false} FilterIdempotent<T(!new)>(s: seq<T>, keep: T -> bool)
    ensures Filter(Filter(s, keep), keep) == Filter(s, keep)
  {
    if s != [] {
      FilterIdempotent(s[1..], keep);
      var rest := Filter(s[1..], keep);
      if keep(s[0]) {
        assert Filter(s, keep) == [s[0]] + rest;
        var t := [s[0]] + rest;
        assert t[0] == s[0] && t[1..] == rest;
        assert Filter(t, keep) == [s[0]] + Filter(rest, keep);
      } else {
        assert Filter(s, keep) == rest;
      }
    }
  }

  /** Index of the first element of `s` satisfying `p`, if any
      (JavaScript's `Array.prototype.find`, returning the position). */
  function FindIndex<T>(s: seq<T>, p: T -> bool): (r: int)
    ensures -1 <= r < |s|
    ensures r >= 0 ==> p(s[r])
    ensures forall k :: 0 <= k < |s| && (r == -1 || k < r) ==> !p(s[k])
  {
    if s == [] then -1
    else if p(s[0]) then 0
    else var k := FindIndex(s[1..], p); if k == -1 then -1 else k + 1
  }

  predicate NoDup<T(==)>(s: seq<T>) {
    forall i, j :: 0 <= i < j < |s| ==> s[i] != s[j]
  }

  /** Position of the first occurrence of `x` in `s`. */
  function FirstIndex<T(==)>(s: seq<T>, x: T): (r: nat)
    requires x in s
    ensures r < |s| && s[r] == x && x !in s[..r]
  {
    if s[0] == x then 0
    else
      assert x in s[1..];
      var k := FirstIndex(s[1..], x);
      assert s[..k + 1] == [s[0]] + s[1..][..k];
      k + 1
  }

  /** The distinct elements of `s` in order of first occurrence: what
      `Array.from(new Set(s))` yields in JavaScript. */
  function Dedupe<T(==,!new)>(s: seq<T>): (r: seq<T>)
    ensures NoDup(r)
    ensures forall x :: x in r <==> x in s
    decreases |s|
  {
    if s == [] then []
    else
      var init := s[..|s| - 1];
      var prev := Dedupe(init);
      assert forall x :: x in s <==> x in init || x == s[|s| - 1] by {
        assert s == init + [s[|s| - 1]];
      }
      if s[|s| - 1] in prev then prev else prev + [s[|s| - 1]]
  }

  lemma FirstIndexOfPrefix<T>(s: seq<T>, n: nat, x: T)
    requires n <= |s| && x in s[..n]
    ensures x in s && FirstIndex(s, x) == FirstIndex(s[..n], x)
  {
    var k := FirstIndex(s[..n], x);
    assert s[..n][..k] == s[..k];
    FirstIndexUnique(s, x, k);
  }

  lemma FirstIndexUnique<T>(s: seq<T>, x: T, k: nat)
    requires k < |s| && s[k] == x && x !in s[..k]
    ensures FirstIndex(s, x) == k
  {
  }

  /** De-duplication keeps first-occurrence order: the elements of the result
      appear in the order of their first positions in the input. */
  lemma {:induction false} DedupeFirstOccurrenceOrder<T(!new)>(s: seq<T>)
    ensures forall i, j :: 0 <= i < j < |Dedupe(s)| ==>
      FirstIndex(s, Dedupe(s)[i]) < FirstIndex(s, Dedupe(s)[j])
  {
    if s != [] {
      var n := |s| - 1;
      var init := s[..n];
      var prev := Dedupe(init);
      DedupeFirstOccurrenceOrder(init);
      forall x | x in prev
        ensures FirstIndex(s, x) == FirstIndex(init, x) && FirstIndex(s, x) < n
      {
        FirstIndexOfPrefix(s, n, x);
      }
      if s[n] !in prev {
        assert s[n] !in init;
        assert s[..n] == init;
        FirstIndexUnique(s, s[n], n);
        var r := prev + [s[n]];
        assert r == Dedupe(s);
        forall i, j | 0 <= i < j < |r|
          ensures FirstIndex(s, r[i]) < FirstIndex(s, r[j])
        {
          assert r[i] == prev[i];
          if j < |prev| {
            assert r[j] == prev[j];
          }
        }
      }
    }
  }

  /** Filtering keeps the relative order of first occurrences. */
  lemma {:induction false} FilterFirstIndexOrder<T(!new)>(s: seq<T>, keep: T -> bool, x: T, y: T)
    requires x in Filter(s, keep) && y in Filter(s, keep)
    requires FirstIndex(Filter(s, keep), x) < FirstIndex(Filter(s, keep), y)
    ensures FirstIndex(s, x) < FirstIndex(s, y)
  {
    var h := s[0];
    var f := Filter(s, keep);
    var rest := Filter(s[1..], keep);
    if keep(h) {
      assert f == [h] + rest;
      if x != h {
        assert y != h;
        assert f[1..] == rest;
        FilterFirstIndexOrder(s[1..], keep, x, y);
      }
    } else {
      assert f == rest;
      FilterFirstIndexOrder(s[1..], keep, x, y);
    }
  }

  /** Filtering and then de-duplicating lists the kept elements in the order
      of their first occurrences in the unfiltered input. */
  lemma DedupeFilterOrder<T(!new)>(s: seq<T>, keep: T -> bool)
    ensures var r := Dedupe(Filter(s, keep));
      forall i, j :: 0 <= i < j < |r| ==> FirstIndex(s, r[i]) < FirstIndex(s, r[j])
  {
    var f := Filter(s, keep);
    var r := Dedupe(f);
    DedupeFirstOccurrenceOrder(f);
    forall i, j | 0 <= i < j < |r| ensures FirstIndex(s, r[i]) < FirstIndex(s, r[j]) {
      FilterFirstIndexOrder(s, keep, r[i], r[j]);
    }
  }
}
