/**
 * Python's `str.replace(old, new)` for a non-empty `old`: literal, left to
 * right, non-overlapping replacement of every occurrence.
 */
module LiteralReplace {
  import opened Wrappers

  /** `f` occurs in `s` at offset `i` (case-sensitive). */
  predicate OccursAt(s: string, f: string, i: nat) {
    i + |f| <= |s| && s[i..i + |f|] == f
  }

  /** No occurrence of `f` starts in `s` before offset `n`. */
  predicate NoneBefore(s: string, f: string, n: nat) {
    forall j: nat :: j < n ==> !OccursAt(s, f, j)
  }

  /** The result of `s.replace(f, r)`, scanning `s` one position at a time. */
  function Replace(s: string, f: string, r: string): (res: string)
    requires |f| > 0
    ensures |r| == |f| ==> |res| == |s|
    decreases |s|
  {
    if |s| < |f| then s
    else if s[..|f|] == f then r + Replace(s[|f|..], f, r)
    else [s[0]] + Replace(s[1..], f, r)
  }

  /** `str.find`: the first occurrence of `f` at or after `from`. */
  function FirstOccurrence(s: string, f: string, from: nat): (r: Option<nat>)
    ensures r.Some? ==> from <= r.value && OccursAt(s, f, r.value)
    ensures forall j :: from <= j && (r.None? || j < r.value) ==> !OccursAt(s, f, j)
    decreases |s| - from
  {
    if |s| < from + |f| then None
    else if OccursAt(s, f, from) then Some(from)
    else FirstOccurrence(s, f, from + 1)
  }

  /** `str.split(f)`: the pieces of `s` between the leftmost non-overlapping occurrences of `f`. */
  function Split(s: string, f: string): (parts: seq<string>)
    requires |f| > 0
    ensures |parts| >= 1
    decreases |s|
  {
    match FirstOccurrence(s, f, 0)
    case None => [s]
    case Some(i) => [s[..i]] + Split(s[i + |f|..], f)
  }

  /** `sep.join(parts)`. */
  function Join(parts: seq<string>, sep: string): string
    decreases |parts|
  {
    if parts == [] then ""
    else if |parts| == 1 then parts[0]
    else parts[0] + sep + Join(parts[1..], sep)
  }

  lemma JoinCons(a: string, tail: seq<string>, sep: string)
    requires |tail| >= 1
    ensures Join([a] + tail, sep) == a + sep + Join(tail, sep)
  {
    assert ([a] + tail)[1..] == tail;
  }

  lemma SliceAround(s: string, i: nat, j: nat)
    requires i <= j <= |s|
    ensures s == s[..i] + s[i..j] + s[j..]
  {
  }

  /** Splitting at `f` and joining with `f` gives back the string. */
  lemma {:induction false} JoinSplit(s: string, f: string)
    requires |f| > 0
    ensures Join(Split(s, f), f) == s
    decreases |s|
  {
    var found := FirstOccurrence(s, f, 0);
    if found.Some? {
      var i := found.value;
      var rest := s[i + |f|..];
      JoinSplit(rest, f);
      SplitStep(s, f, i);
      JoinCons(s[..i], Split(rest, f), f);
      SliceAround(s, i, i + |f|);
    }
  }

  /**
   * The pieces are the leftmost split: no occurrence of `f` starts inside a
   * piece, counting the separator that follows it.
   */
  lemma {:induction false} SplitLeftmost(s: string, f: string)
    requires |f| > 0
    ensures var parts := Split(s, f);
      && (forall k :: 0 <= k < |parts| - 1 ==> NoneBefore(parts[k] + f, f, |parts[k]|))
      && NoneBefore(parts[|parts| - 1], f, |parts[|parts| - 1]|)
    decreases |s|
  {
    match FirstOccurrence(s, f, 0)
    case None =>
    case Some(i) =>
      var rest := s[i + |f|..];
      SplitLeftmost(rest, f);
      var parts := Split(s, f);
      var tail := Split(rest, f);
      assert parts == [s[..i]] + tail;
      FirstPieceLeftmost(s, f, i);
      forall k | 0 <= k < |parts| - 1 ensures NoneBefore(parts[k] + f, f, |parts[k]|) {
        if k > 0 { assert parts[k] == tail[k - 1]; }
      }
      assert parts[|parts| - 1] == tail[|tail| - 1];
  }

  lemma FirstPieceLeftmost(s: string, f: string, i: nat)
    requires OccursAt(s, f, i) && NoneBefore(s, f, i)
    ensures NoneBefore(s[..i] + f, f, i)
  {
    assert s[..i] + f == s[..i + |f|];
    forall j: nat | j < i ensures !OccursAt(s[..i] + f, f, j) {
      assert (s[..i] + f)[j..j + |f|] == s[j..j + |f|];
      assert !OccursAt(s, f, j);
    }
  }

  /** Replacing skips unchanged over a prefix that holds no occurrence. */
  lemma {:induction false} ReplaceSkips(s: string, f: string, r: string, i: nat)
    requires |f| > 0 && i <= |s| && NoneBefore(s, f, i)
    ensures Replace(s, f, r) == s[..i] + Replace(s[i..], f, r)
    decreases i
  {
    if i == 0 {
      assert s[..0] == [] && s[0..] == s;
    } else if |s| < |f| {
      assert |s[i..]| < |f|;
      assert s[..i] + s[i..] == s;
    } else {
      var t := s[1..];
      NoneBeforeShift(s, f, i);
      ReplaceSkips(t, f, r, i - 1);
      assert !OccursAt(s, f, 0);
      assert s[0..|f|] == s[..|f|];
      ReplaceKeepStep(s, f, r, t);
      assert t[i - 1..] == s[i..];
      assert [s[0]] + t[..i - 1] == s[..i];
    }
  }

  lemma NoneBeforeShift(s: string, f: string, i: nat)
    requires 1 <= i <= |s| && NoneBefore(s, f, i)
    ensures NoneBefore(s[1..], f, i - 1)
  {
    var t := s[1..];
    forall j: nat | j < i - 1 ensures !OccursAt(t, f, j) {
      assert !OccursAt(s, f, j + 1);
      if j + |f| <= |t| { assert t[j..j + |f|] == s[j + 1..j + 1 + |f|]; }
    }
  }

  lemma SplitStep(s: string, f: string, i: nat)
    requires |f| > 0 && FirstOccurrence(s, f, 0) == Some(i)
    ensures i + |f| <= |s| && Split(s, f) == [s[..i]] + Split(s[i + |f|..], f)
  {
  }

  /** `s.replace(f, r) == r.join(s.split(f))`: the scan and the split-and-join agree. */
  lemma {:induction false} ReplaceIsJoinOfSplit(s: string, f: string, r: string)
    requires |f| > 0
    ensures Replace(s, f, r) == Join(Split(s, f), r)
    decreases |s|
  {
    match FirstOccurrence(s, f, 0)
    case None =>
      ReplaceSkips(s, f, r, |s|);
      assert s[..|s|] == s;
      assert Replace(s[|s|..], f, r) == [];
    case Some(i) =>
      var rest := s[i + |f|..];
      ReplaceSkips(s, f, r, i);
      var u := s[i..];
      assert u[..|f|] == f;
      assert u[|f|..] == rest;
      assert Replace(u, f, r) == r + Replace(rest, f, r);
      ReplaceIsJoinOfSplit(rest, f, r);
      SplitStep(s, f, i);
      JoinCons(s[..i], Split(rest, f), r);
  }

  /** Replacing `f` by itself leaves the string as it was. */
  lemma ReplaceBySelf(s: string, f: string)
    requires |f| > 0
    ensures Replace(s, f, f) == s
  {
    ReplaceIsJoinOfSplit(s, f, f);
    JoinSplit(s, f);
  }

  /** When `f` does not occur, replacing leaves the string as it was. */
  lemma ReplaceAbsent(s: string, f: string, r: string)
    requires |f| > 0 && NoneBefore(s, f, |s| + 1)
    ensures Replace(s, f, r) == s
  {
    ReplaceSkips(s, f, r, |s|);
    assert s[..|s|] == s;
  }

  lemma ReplaceMatchStep(s: string, f: string, r: string, t: string)
    requires 0 < |f| <= |s| && s[..|f|] == f && s[|f|..] == t
    ensures Replace(s, f, r) == r + Replace(t, f, r)
  {
  }

  lemma ReplacePrefixStep(f: string, t: string, r: string)
    requires |f| > 0
    ensures Replace(f + t, f, r) == r + Replace(t, f, r)
  {
    assert (f + t)[..|f|] == f && (f + t)[|f|..] == t;
  }

  lemma ReplaceTwoPrefixes(f: string, t: string, r: string)
    requires |f| > 0
    ensures Replace(f + (f + t), f, r) == r + (r + Replace(t, f, r))
  {
    ReplacePrefixStep(f, t, r);
    ReplacePrefixStep(f, f + t, r);
  }

  lemma ReplaceKeepStep(s: string, f: string, r: string, t: string)
    requires 0 < |f| <= |s| && s[..|f|] != f && s[1..] == t
    ensures Replace(s, f, r) == [s[0]] + Replace(t, f, r)
  {
  }

  /** Every occurrence is replaced: for example "foo" by "bar" in "foofoo baz foo". */
  lemma ReplaceExample(s: string, f: string, r: string)
    requires s == "foofoo baz foo" && f == "foo" && r == "bar"
    ensures Replace(s, f, r) == "barbar baz bar"
  {
    var t := " baz foo";
    ReplaceExampleTail(t, f, r);
    ReplaceTwoPrefixes(f, t, r);
    ExampleSpelling();
  }

  lemma ExampleSpelling()
    ensures "foofoo baz foo" == "foo" + ("foo" + " baz foo")
    ensures "bar" + ("bar" + " baz bar") == "barbar baz bar"
  {
  }

  lemma ReplaceExampleTail(t: string, f: string, r: string)
    requires t == " baz foo" && f == "foo" && r == "bar"
    ensures Replace(t, f, r) == " baz bar"
  {
    TailSpelling();
    ReplacePrefixStep(f, "", r);
    ReplaceKeepOne(' ', f, f, r);
    ReplaceKeepOne('z', [' '] + f, f, r);
    ReplaceKeepOne('a', ['z'] + ([' '] + f), f, r);
    ReplaceKeepOne('b', ['a'] + (['z'] + ([' '] + f)), f, r);
    ReplaceKeepOne(' ', ['b'] + (['a'] + (['z'] + ([' '] + f))), f, r);
  }

  lemma TailSpelling()
    ensures " baz foo" == [' '] + (['b'] + (['a'] + (['z'] + ([' '] + "foo"))))
    ensures [' '] + (['b'] + (['a'] + (['z'] + ([' '] + ("bar" + ""))))) == " baz bar"
  {
  }

  /** A character that cannot start `f` is copied unchanged. */
  lemma ReplaceKeepOne(c: char, t: string, f: string, r: string)
    requires |f| > 0 && c != f[0]
    ensures Replace([c] + t, f, r) == [c] + Replace(t, f, r)
  {
    var s := [c] + t;
    assert s[1..] == t;
    if |s| >= |f| {
      assert s[..|f|][0] == c;
    } else {
      assert Replace(t, f, r) == t;
    }
  }

  /** An empty replacement deletes the occurrences. */
  lemma ReplaceDeletes()
    ensures Replace("a-b-c", "-", "") == "abc"
  {
  }
}
