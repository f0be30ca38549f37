/**
 * The editor's document session: file name, unsaved-changes flag, the text
 * widget's characters, its insert cursor, its "found" tag and its modified
 * flag, updated by the New, Open, Save, Save-As, Find, Replace, Goto-line
 * commands and the modification callback. Dialog answers and file contents
 * are parameters; a file write is recorded in `lastWrite`.
 */
module Editor {
  import opened Wrappers
  import NoCaseSearch
  import LiteralReplace
  import opened TextIndex
  import StatusBar

  /** One whole-file write: the path and the text written to it. */
  datatype FileWrite = FileWrite(path: string, data: string)

  /** A dialog answer that Python treats as true: not dismissed and not empty. */
  predicate Chosen(answer: Option<string>) {
    answer.Some? && answer.value != ""
  }

  class TextEditor {
    var filename: Option<string>
    var modified: bool
    /** The widget's characters, not counting the newline it always keeps at the end. */
    var content: string
    /** The insert mark, as an offset into `content`. */
    var insert: nat
    /** The widget's own modified flag (`edit_modified()`). */
    var widgetModified: bool
    /** The ranges carrying the "found" tag, in the order they were tagged. */
    var found: seq<NoCaseSearch.Range>
    var lastWrite: Option<FileWrite>

    ghost predicate Valid()
      reads this
    {
      insert <= |content|
    }

    /** `get(1.0, END)`: the characters including the widget's final newline. */
    function WidgetText(): (t: string)
      reads this
      ensures |t| == |content| + 1 && t[..|content|] == content && t[|content|] == '\n'
    {
      content + "\n"
    }

    /** The text `_update_status_bar` computes for the current state. */
    function Status(): string
      reads this
      requires Valid()
    {
      StatusBar.StatusText(filename, modified, content, insert)
    }

    constructor ()
      ensures Valid()
      ensures filename == None && !modified && content == "" && insert == 0
      ensures !widgetModified && found == [] && lastWrite == None
    {
      filename := None;
      modified := false;
      content := "";
      insert := 0;
      widgetModified := false;
      found := [];
      lastWrite := None;
    }

    /** Modification callback: take over the widget's flag, then clear it. */
    method OnModified()
      requires Valid()
      modifies this`modified, this`widgetModified
      ensures Valid()
      ensures modified == old(widgetModified) && !widgetModified
    {
      modified := widgetModified;
      widgetModified := false;
    }

    /**
     * An edit the widget itself applies (typing, pasting): new characters and
     * cursor, and the widget's modified flag set.
     */
    method Edit(newContent: string, newInsert: nat)
      requires newInsert <= |newContent|
      modifies this`content, this`insert, this`widgetModified
      ensures Valid() && content == newContent && insert == newInsert && widgetModified
    {
      content := newContent;
      insert := newInsert;
      widgetModified := true;
    }

    /** New: no file, empty buffer, no unsaved changes. */
    method NewFile()
      modifies this`filename, this`content, this`insert, this`found, this`modified
      ensures Valid()
      ensures filename == None && content == "" && insert == 0 && found == [] && !modified
    {
      filename := None;
      content := "";
      insert := 0;
      found := [];
      modified := false;
    }

    /**
     * Open: when a path is chosen, the buffer becomes the file's text, the path
     * the current file, the cursor goes to the end; otherwise nothing changes.
     */
    method OpenFile(path: Option<string>, fileText: string)
      requires Valid()
      modifies this`filename, this`content, this`insert, this`found, this`modified
      ensures Valid()
      ensures Chosen(path) ==>
        filename == path && content == fileText && insert == |content| && found == [] && !modified
      ensures !Chosen(path) ==>
        filename == old(filename) && content == old(content) && insert == old(insert)
        && found == old(found) && modified == old(modified)
    {
      if Chosen(path) {
        content := fileText;
        found := [];
        filename := path;
        modified := false;
        insert := |content|;
      }
    }

    /**
     * Save: with a current file, write the whole widget text to it and clear
     * the unsaved flag; without one, behave as Save-As with `dialog` as the
     * answer of its file chooser.
     */
    method SaveFile(dialog: Option<string>)
      requires Valid()
      modifies this`filename, this`modified, this`lastWrite
      ensures Valid()
      ensures old(Chosen(filename)) ==>
        filename == old(filename) && !modified
        && lastWrite == Some(FileWrite(filename.value, old(WidgetText())))
      ensures !old(Chosen(filename)) && Chosen(dialog) ==>
        filename == dialog && !modified && lastWrite == Some(FileWrite(dialog.value, old(WidgetText())))
      ensures !old(Chosen(filename)) && !Chosen(dialog) ==>
        filename == old(filename) && modified == old(modified) && lastWrite == old(lastWrite)
      decreases if Chosen(filename) then 0 else 2
    {
      if Chosen(filename) {
        lastWrite := Some(FileWrite(filename.value, WidgetText()));
        modified := false;
      } else {
        SaveFileAs(dialog);
      }
    }

    /** Save-As: when a path is chosen it becomes the current file and is saved. */
    method SaveFileAs(dialog: Option<string>)
      requires Valid()
      modifies this`filename, this`modified, this`lastWrite
      ensures Valid()
      ensures Chosen(dialog) ==>
        filename == dialog && !modified && lastWrite == Some(FileWrite(dialog.value, old(WidgetText())))
      ensures !Chosen(dialog) ==>
        filename == old(filename) && modified == old(modified) && lastWrite == old(lastWrite)
      decreases 1
    {
      if Chosen(dialog) {
        filename := dialog;
        SaveFile(dialog);
      }
    }

    /**
     * Find: for a non-empty term, clear the "found" tag and tag every
     * case-insensitive occurrence, leftmost first, resuming after each match.
     */
    method Find(term: Option<string>)
      requires Valid()
      modifies this`found
      ensures Valid()
      ensures !Chosen(term) ==> found == old(found)
      ensures Chosen(term) ==> found == NoCaseSearch.Matches(WidgetText(), term.value, 0)
      ensures Chosen(term) ==> NoCaseSearch.LeftmostTags(WidgetText(), term.value, found)
    {
      if Chosen(term) {
        found := [];
        found := NoCaseSearch.TagAll(WidgetText(), term.value);
        NoCaseSearch.MatchesAreLeftmostTags(WidgetText(), term.value);
      }
    }

    /**
     * Replace: for a non-empty find term and an answered replacement, rewrite
     * the buffer with every occurrence in the widget text replaced; the
     * widget's final newline is part of the rewritten text.
     */
    method Replace(find: Option<string>, replacement: Option<string>)
      requires Valid()
      modifies this`content, this`insert, this`found
      ensures Valid()
      ensures Chosen(find) && replacement.Some? ==>
        content == LiteralReplace.Replace(old(WidgetText()), find.value, replacement.value)
        && insert == |content| && found == []
      ensures !(Chosen(find) && replacement.Some?) ==>
        content == old(content) && insert == old(insert) && found == old(found)
    {
      if Chosen(find) && replacement.Some? {
        var rewritten := LiteralReplace.Replace(WidgetText(), find.value, replacement.value);
        content := rewritten;
        found := [];
        insert := |content|;
      }
    }

    /**
     * Goto-line: for an answered, non-zero line, put the cursor at column 0
     * of that line (clamped to the buffer).
     */
    method GotoLine(line: Option<int>)
      requires Valid()
      modifies this`insert
      ensures Valid()
      ensures line.Some? && line.value != 0 ==> insert == LineStart(content, line.value)
      ensures line.Some? && 1 <= line.value <= LineCount(content) ==>
        PositionOf(content, insert) == Position(line.value, 0)
      ensures line.None? || line.value == 0 ==> insert == old(insert)
    {
      if line.Some? && line.value != 0 {
        insert := LineStart(content, line.value);
        GotoLineLands(content, line.value);
      }
    }
  }

  /**
   * Opening a file and saving it straight away writes the file's text followed
   * by the widget's final newline, not the file's text alone.
   */
  method OpenThenSave(path: string, fileText: string) returns (written: FileWrite)
    requires path != ""
    ensures written == FileWrite(path, fileText + "\n")
  {
    var editor := new TextEditor();
    editor.OpenFile(Some(path), fileText);
    editor.SaveFile(None);
    written := editor.lastWrite.value;
  }

  /** An edit shows the unsaved marker once the widget reports it; saving clears it. */
  method EditThenSave(path: string, text: string) returns (before: bool, after: bool)
    requires path != ""
    ensures before && !after
  {
    var editor := new TextEditor();
    editor.Edit(text, |text|);
    editor.OnModified();
    before := editor.modified;
    editor.SaveFileAs(Some(path));
    after := editor.modified;
  }
}
