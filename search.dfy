/**
 * Case-insensitive search in the text widget (`text.search(term, idx, nocase=1,
 * stopindex=END)`) and the find-all scan built on it.
 */
module NoCaseSearch {
  import opened Wrappers

  /** A half-open character range [start, end) of the widget text, as a tag covers it. */
  datatype Range = Range(start: nat, end: nat)

  /** Case folding of one character (ASCII letters only). */
  function Fold(c: char): char {
    if 'A' <= c <= 'Z' then (c as int + 32) as char else c
  }

  predicate EqualNoCase(a: string, b: string) {
    |a| == |b| && forall k :: 0 <= k < |a| ==> Fold(a[k]) == Fold(b[k])
  }

  /** The characters of `text` starting at `i` equal `term` up to case. */
  predicate MatchAt(text: string, term: string, i: nat) {
    i + |term| <= |text| && EqualNoCase(text[i..i + |term|], term)
  }

  /** The first match at or after `from`, or None: what the widget's search returns. */
  function SearchFrom(text: string, term: string, from: nat): (r: Option<nat>)
    ensures r.Some? ==> from <= r.value && MatchAt(text, term, r.value)
    ensures forall j :: from <= j && (r.None? || j < r.value) ==> !MatchAt(text, term, j)
    decreases |text| - from
  {
    if |text| < from + |term| then None
    else if MatchAt(text, term, from) then Some(from)
    else SearchFrom(text, term, from + 1)
  }

  /**
   * The ranges the find-all scan tags when it starts at `from`: search, tag
   * [i, i + |term|), resume at the end of that range.
   */
  function Matches(text: string, term: string, from: nat): (ms: seq<Range>)
    requires |term| > 0
    decreases |text| - from
  {
    match SearchFrom(text, term, from)
    case None => []
    case Some(i) => [Range(i, i + |term|)] + Matches(text, term, i + |term|)
  }

  /** `m` covers exactly one case-insensitive occurrence of `term` at or after `from`. */
  predicate IsHit(text: string, term: string, from: nat, m: Range) {
    from <= m.start && m.end == m.start + |term| && MatchAt(text, term, m.start)
  }

  /** Each range is non-empty and ends at or before the next one starts. */
  predicate Ordered(ms: seq<Range>) {
    forall a, b :: 0 <= a < b < |ms| ==> ms[a].start < ms[a].end <= ms[b].start
  }

  /** Offset `p` lies inside one of the ranges. */
  predicate Covered(ms: seq<Range>, p: nat) {
    exists k :: 0 <= k < |ms| && ms[k].start <= p < ms[k].end
  }

  lemma {:induction false} MatchesSound(text: string, term: string, from: nat)
    requires |term| > 0
    ensures forall m :: m in Matches(text, term, from) ==> IsHit(text, term, from, m)
    decreases |text| - from
  {
    match SearchFrom(text, term, from)
    case None =>
    case Some(i) =>
      MatchesSound(text, term, i + |term|);
  }

  /** The tagged ranges are increasing and pairwise disjoint. */
  lemma {:induction false} MatchesOrdered(text: string, term: string, from: nat)
    requires |term| > 0
    ensures Ordered(Matches(text, term, from))
    decreases |text| - from
  {
    match SearchFrom(text, term, from)
    case None =>
    case Some(i) =>
      var rest := Matches(text, term, i + |term|);
      MatchesOrdered(text, term, i + |term|);
      MatchesSound(text, term, i + |term|);
      var ms := Matches(text, term, from);
      assert ms == [Range(i, i + |term|)] + rest;
      forall a, b | 0 <= a < b < |ms| ensures ms[a].start < ms[a].end <= ms[b].start {
        assert ms[b] == rest[b - 1];
        assert rest[b - 1] in rest;
        if a > 0 {
          assert ms[a] == rest[a - 1];
        }
      }
  }

  /**
   * Leftmost-greedy: no occurrence at or after `from` is skipped; each one lies
   * inside some tagged range (it is tagged itself or overlaps an earlier match).
   */
  lemma {:induction false} MatchesComplete(text: string, term: string, from: nat, p: nat)
    requires |term| > 0 && from <= p && MatchAt(text, term, p)
    ensures Covered(Matches(text, term, from), p)
    decreases |text| - from
  {
    var r := SearchFrom(text, term, from);
    assert r.Some?;
    var i := r.value;
    var rest := Matches(text, term, i + |term|);
    var ms := Matches(text, term, from);
    assert ms == [Range(i, i + |term|)] + rest;
    assert i <= p;
    if p < i + |term| {
      assert ms[0].start <= p < ms[0].end;
    } else {
      MatchesComplete(text, term, i + |term|, p);
      var k :| 0 <= k < |rest| && rest[k].start <= p < rest[k].end;
      assert ms[k + 1] == rest[k];
    }
  }

  /**
   * What a find-all scan must produce: every range a case-insensitive
   * occurrence of `term`, ranges increasing and disjoint, and no occurrence
   * left outside all ranges.
   */
  ghost predicate LeftmostTags(text: string, term: string, ms: seq<Range>) {
    && (forall m :: m in ms ==> IsHit(text, term, 0, m))
    && Ordered(ms)
    && (forall p: nat :: MatchAt(text, term, p) ==> Covered(ms, p))
  }

  lemma MatchesAreLeftmostTags(text: string, term: string)
    requires |term| > 0
    ensures LeftmostTags(text, term, Matches(text, term, 0))
  {
    MatchesSound(text, term, 0);
    MatchesOrdered(text, term, 0);
    forall p: nat | MatchAt(text, term, p) ensures Covered(Matches(text, term, 0), p) {
      MatchesComplete(text, term, 0, p);
    }
  }

  /**
   * The find-all loop: search from `idx`, tag [idx, idx + |term|), resume at
   * the end of that range, until the search fails.
   */
  method TagAll(text: string, term: string) returns (tags: seq<Range>)
    requires |term| > 0
    ensures tags == Matches(text, term, 0)
  {
    tags := [];
    var idx: nat := 0;
    while true
      invariant idx <= |text|
      invariant tags + Matches(text, term, idx) == Matches(text, term, 0)
      decreases |text| - idx
    {
      var hit := SearchFrom(text, term, idx);
      if hit.None? {
        break;
      }
      var last := hit.value + |term|;
      assert Matches(text, term, idx) == [Range(hit.value, last)] + Matches(text, term, last);
      tags := tags + [Range(hit.value, last)];
      idx := last;
    }
  }

  /** Overlapping occurrences: "aa" in "aaa" is tagged once. */
  lemma OverlapTaggedOnce()
    ensures Matches("aaa\n", "aa", 0) == [Range(0, 2)]
  {
    var text := "aaa\n";
    assert MatchAt(text, "aa", 0);
    assert !MatchAt(text, "aa", 2) by {
      assert text[2..4][1] == '\n';
    }
    assert SearchFrom(text, "aa", 3) == None;
    assert SearchFrom(text, "aa", 2) == None;
    assert SearchFrom(text, "aa", 0) == Some(0);
  }

  /** "abc" in "xabcxabc" is tagged at offsets 1 and 5. */
  lemma TwoOccurrencesTagged()
    ensures Matches("xabcxabc\n", "abc", 0) == [Range(1, 4), Range(5, 8)]
  {
    var text := "xabcxabc\n";
    assert !MatchAt(text, "abc", 0) by { assert text[0..3][0] == 'x'; }
    assert MatchAt(text, "abc", 1);
    assert !MatchAt(text, "abc", 4) by { assert text[4..7][0] == 'x'; }
    assert MatchAt(text, "abc", 5);
    assert SearchFrom(text, "abc", 8) == None;
    assert SearchFrom(text, "abc", 5) == Some(5);
    assert SearchFrom(text, "abc", 1) == Some(1);
    assert SearchFrom(text, "abc", 0) == Some(1);
    assert SearchFrom(text, "abc", 4) == Some(5);
  }

  /** Case is ignored: "FOO" tags both "Foo" and "foo". */
  lemma CaseIgnored()
    ensures Matches("Foo foo\n", "FOO", 0) == [Range(0, 3), Range(4, 7)]
  {
    var text := "Foo foo\n";
    assert MatchAt(text, "FOO", 0);
    assert !MatchAt(text, "FOO", 3) by { assert text[3..6][0] == ' '; }
    assert MatchAt(text, "FOO", 4);
    assert SearchFrom(text, "FOO", 7) == None;
    assert SearchFrom(text, "FOO", 4) == Some(4);
    assert SearchFrom(text, "FOO", 3) == Some(4);
    assert SearchFrom(text, "FOO", 0) == Some(0);
  }
}
