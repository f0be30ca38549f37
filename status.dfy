/** The status-bar text: file name, unsaved marker, cursor line and column. */
module StatusBar {
  import opened Wrappers
  import opened PosixPath
  import opened Decimal
  import opened TextIndex

  /** The base name of the current file, or "Untitled" when there is none. */
  function DisplayName(filename: Option<string>): (name: string)
    ensures forall k :: 0 <= k < |name| ==> name[k] != '/'
    ensures filename.Some? && filename.value != "" ==>
      |name| <= |filename.value| && name == filename.value[|filename.value| - |name|..]
    ensures filename.Some? && filename.value != "" && |name| < |filename.value| ==>
      filename.value[|filename.value| - |name| - 1] == '/'
    ensures filename.None? ==> name == "Untitled"
  {
    if filename.Some? && filename.value != "" then Basename(filename.value) else "Untitled"
  }

  /** The unsaved-changes marker. */
  function Marker(modified: bool): string {
    if modified then "*" else ""
  }

  /**
   * The text `_update_status_bar` computes for the given session state and
   * cursor offset: it starts with the display name, and the character after
   * the name is '*' exactly when there are unsaved changes.
   */
  function StatusText(filename: Option<string>, modified: bool, content: string, insert: nat): (t: string)
    requires insert <= |content|
    ensures |DisplayName(filename)| < |t| && t[..|DisplayName(filename)|] == DisplayName(filename)
    ensures t[|DisplayName(filename)|] == '*' <==> modified
  {
    var pos := PositionOf(content, insert);
    StatusPrefix(DisplayName(filename), modified, NatToString(pos.line), NatToString(pos.column + 1));
    DisplayName(filename) + Marker(modified) + "    Ln " + NatToString(pos.line)
      + ", Col " + NatToString(pos.column + 1)
  }

  lemma StatusPrefix(name: string, modified: bool, line: string, column: string)
    ensures var t := name + Marker(modified) + "    Ln " + line + ", Col " + column;
      |name| < |t| && t[..|name|] == name && (t[|name|] == '*' <==> modified)
  {
    var after := "    Ln " + line + ", Col " + column;
    assert after[0] == ' ';
    NameThenMarker(name, modified, after);
    assert name + Marker(modified) + "    Ln " + line + ", Col " + column
      == name + Marker(modified) + after;
  }

  lemma NameThenMarker(name: string, modified: bool, after: string)
    requires |after| > 0 && after[0] == ' '
    ensures var t := name + Marker(modified) + after;
      |name| < |t| && t[..|name|] == name && (t[|name|] == '*' <==> modified)
  {
    var t := name + Marker(modified) + after;
    assert t == name + (Marker(modified) + after);
  }

  /**
   * The column is shown 1-based: the last digits of the text denote the
   * cursor's 0-based column plus one.
   */
  lemma StatusColumnOneBased(filename: Option<string>, modified: bool, content: string, insert: nat)
    requires insert <= |content|
    ensures var t := StatusText(filename, modified, content, insert);
      var col := NatToString(PositionOf(content, insert).column + 1);
      |col| <= |t| && Value(t[|t| - |col|..]) == PositionOf(content, insert).column + 1
  {
    var pos := PositionOf(content, insert);
    var col := NatToString(pos.column + 1);
    var front := DisplayName(filename) + Marker(modified) + "    Ln " + NatToString(pos.line) + ", Col ";
    SuffixOf(front, col);
    ValueOfNatToString(pos.column + 1);
  }

  lemma SuffixOf(front: string, back: string)
    ensures var t := front + back; |back| <= |t| && t[|t| - |back|..] == back
  {
  }

  /** For a cursor at the start of a line the computed text ends with "Col 1". */
  lemma StatusColumnAtLineStart(filename: Option<string>, modified: bool, content: string, insert: nat)
    requires AtLineStart(content, insert)
    ensures var t := StatusText(filename, modified, content, insert);
      |t| >= 7 && t[|t| - 7..] == ", Col 1"
  {
    var pos := PositionOf(content, insert);
    ColumnZeroAtLineStart(content, insert);
    assert NatToString(pos.column + 1) == "1";
    ColumnOneCoda(DisplayName(filename) + Marker(modified) + "    Ln " + NatToString(pos.line));
  }

  lemma ColumnZeroAtLineStart(content: string, insert: nat)
    requires AtLineStart(content, insert)
    ensures PositionOf(content, insert).column == 0
  {
    if insert > 0 {
      PrefixStep(content, insert - 1);
    }
  }

  lemma ColumnOneCoda(front: string)
    ensures var t := front + ", Col " + "1"; |t| >= 7 && t[|t| - 7..] == ", Col 1"
  {
    var t := front + ", Col " + "1";
    assert t == front + ", Col 1";
    SuffixOf(front, ", Col 1");
  }

  /**
   * For the cursor that going to line `line` sets, the status text computed
   * shows that line and column 1.
   */
  lemma StatusAfterGoto(filename: Option<string>, modified: bool, content: string, line: int)
    requires 1 <= line <= LineCount(content)
    ensures StatusText(filename, modified, content, LineStart(content, line))
      == DisplayName(filename) + Marker(modified) + "    Ln " + NatToString(line) + ", Col 1"
  {
    GotoLineLands(content, line);
  }
}
