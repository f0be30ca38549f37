/**
 * The text widget's "line.column" indices over the buffer's characters: lines
 * are 1-based, columns 0-based, and the cursor is a character offset.
 */
module TextIndex {
  /** Number of newline characters in `s`. */
  function CountNewlines(s: string): (n: nat)
    ensures n <= |s|
    ensures n == 0 <==> forall k :: 0 <= k < |s| ==> s[k] != '\n'
    decreases |s|
  {
    if s == [] then 0
    else CountNewlines(s[..|s| - 1]) + (if s[|s| - 1] == '\n' then 1 else 0)
  }

  /** Number of characters after the last newline of `s`. */
  function ColumnAt(s: string): nat
    decreases |s|
  {
    if s == [] || s[|s| - 1] == '\n' then 0 else ColumnAt(s[..|s| - 1]) + 1
  }

  /**
   * The line number of the last character position ("end-1c"): the buffer has
   * one line more than it has newline characters.
   */
  function LineCount(content: string): (c: nat)
    ensures 1 <= c <= |content| + 1
    ensures c == 1 <==> forall k :: 0 <= k < |content| ==> content[k] != '\n'
  {
    CountNewlines(content) + 1
  }

  datatype Position = Position(line: nat, column: nat)

  /** The "line.column" index of offset `offset`. */
  function PositionOf(content: string, offset: nat): (p: Position)
    requires offset <= |content|
    ensures 1 <= p.line <= LineCount(content)
  {
    assert content[..|content|] == content;
    CountNewlinesMonotone(content, offset, |content|);
    Position(CountNewlines(content[..offset]) + 1, ColumnAt(content[..offset]))
  }

  /** Scan forward from `i` past `n` more newlines; stop at the end of `s`. */
  function SkipFrom(s: string, n: nat, i: nat): (p: nat)
    requires i <= |s|
    ensures i <= p <= |s|
    decreases |s| - i
  {
    if n == 0 || i == |s| then i
    else SkipFrom(s, if s[i] == '\n' then n - 1 else n, i + 1)
  }

  /**
   * The offset of index "line.0": a line before the first means the start, a
   * line after the last means the end of the buffer.
   */
  function LineStart(content: string, line: int): (p: nat)
    ensures p <= |content|
  {
    if line <= 1 then 0 else SkipFrom(content, line - 1, 0)
  }

  lemma PrefixStep(s: string, i: nat)
    requires i < |s|
    ensures s[..i + 1][..i] == s[..i] && s[..i + 1][i] == s[i]
    ensures CountNewlines(s[..i + 1]) == CountNewlines(s[..i]) + (if s[i] == '\n' then 1 else 0)
    ensures ColumnAt(s[..i + 1]) == if s[i] == '\n' then 0 else ColumnAt(s[..i]) + 1
  {
    assert s[..i + 1][..i] == s[..i];
  }

  lemma {:induction false} CountNewlinesMonotone(s: string, i: nat, j: nat)
    requires i <= j <= |s|
    ensures CountNewlines(s[..i]) <= CountNewlines(s[..j])
    decreases j - i
  {
    if i < j {
      PrefixStep(s, j - 1);
      CountNewlinesMonotone(s, i, j - 1);
    }
  }

  lemma {:induction false} SkipFromLands(s: string, n: nat, i: nat)
    requires i <= |s|
    ensures var p := SkipFrom(s, n, i);
      CountNewlines(s[..i]) + n <= CountNewlines(s) ==>
        CountNewlines(s[..p]) == CountNewlines(s[..i]) + n && (n > 0 ==> s[p - 1] == '\n')
    ensures CountNewlines(s[..i]) + n > CountNewlines(s) ==> SkipFrom(s, n, i) == |s|
    decreases |s| - i
  {
    assert s[..|s|] == s;
    CountNewlinesMonotone(s, i, |s|);
    if n != 0 && i != |s| {
      PrefixStep(s, i);
      SkipFromLands(s, if s[i] == '\n' then n - 1 else n, i + 1);
    }
  }

  /** The offsets that start a line: the beginning, or just after a newline. */
  predicate AtLineStart(s: string, q: nat) {
    q <= |s| && (q == 0 || s[q - 1] == '\n')
  }

  lemma {:induction false} SkipFromReaches(s: string, i: nat, q: nat)
    requires i <= q && AtLineStart(s, q) && (i < q ==> s[q - 1] == '\n')
    ensures CountNewlines(s[..i]) <= CountNewlines(s[..q])
    ensures SkipFrom(s, CountNewlines(s[..q]) - CountNewlines(s[..i]), i) == q
    decreases q - i
  {
    CountNewlinesMonotone(s, i, q);
    if i < q {
      PrefixStep(s, q - 1);
      CountNewlinesMonotone(s, i, q - 1);
      PrefixStep(s, i);
      SkipFromReaches(s, i + 1, q);
    }
  }

  lemma {:induction false} StartOfLine(s: string, p: nat)
    requires p <= |s|
    ensures ColumnAt(s[..p]) <= p
    ensures AtLineStart(s, p - ColumnAt(s[..p]))
    ensures CountNewlines(s[..p - ColumnAt(s[..p])]) == CountNewlines(s[..p])
    decreases p
  {
    if p > 0 {
      PrefixStep(s, p - 1);
      if s[p - 1] != '\n' {
        StartOfLine(s, p - 1);
      }
    }
  }

  /**
   * Going to line `line` of the buffer puts the cursor at column 0 of that
   * line. Line 0 and negative lines mean the first line, lines past the last
   * the end of the buffer.
   */
  lemma GotoLineLands(content: string, line: int)
    ensures 1 <= line <= LineCount(content) ==>
      PositionOf(content, LineStart(content, line)) == Position(line, 0)
    ensures line <= 1 ==> LineStart(content, line) == 0
    ensures line > LineCount(content) ==> LineStart(content, line) == |content|
  {
    assert content[..0] == [];
    if line > 1 {
      SkipFromLands(content, line - 1, 0);
      var p := LineStart(content, line);
      if line <= LineCount(content) {
        PrefixStep(content, p - 1);
      }
    }
  }

  /**
   * Every offset is named by its "line.column" index: going to the start of
   * its line and moving right by its column returns to it.
   */
  lemma IndexRoundTrip(content: string, offset: nat)
    requires offset <= |content|
    ensures var pos := PositionOf(content, offset);
      1 <= pos.line <= LineCount(content) && LineStart(content, pos.line) + pos.column == offset
  {
    assert content[..|content|] == content;
    CountNewlinesMonotone(content, offset, |content|);
    StartOfLine(content, offset);
    var q := offset - ColumnAt(content[..offset]);
    assert content[..0] == [];
    SkipFromReaches(content, 0, q);
  }
}
