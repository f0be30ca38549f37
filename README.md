# Text editor session model

A Dafny model of the core of a minimal Tk text editor (`text_editor.py`): the
document session (current file name, unsaved-changes flag, buffer, insert
cursor, the "found" highlight tag and the widget's own modified flag) and the
commands that update it — New, Open, Save, Save-As, Find, Replace, Goto-line
and the modification callback — together with the pure pieces they rely on:
case-insensitive search, Python's `str.replace`, the widget's `line.column`
indices, `os.path.basename`, `str(n)`, the status-bar text and the width of
the line-number gutter.

Modules, one per file:

- `Wrappers` (`wrappers.dfy`): `Option`, the answer of a dialog (`None` when dismissed).
- `NoCaseSearch` (`search.dfy`): the widget's `search(..., nocase=1, stopindex=END)` as
  `SearchFrom` (first case-insensitive match at or after an index), the find-all loop
  `TagAll`, its specification `Matches`, and the leftmost-greedy properties.
- `LiteralReplace` (`replace.dfy`): `s.replace(f, r)` as a left-to-right scan, proved
  equal to `r.join(s.split(f))`.
- `TextIndex` (`lines.dfy`): character offsets against Tk's `line.column` indices
  (`PositionOf`, `LineStart`, `LineCount`).
- `Decimal`, `PosixPath`, `LineGutter`, `StatusBar`: `str(n)`, `basename`, the gutter
  width formula and the status-bar string.
- `Editor` (`editor.dfy`): the class `TextEditor` with the session fields and one method
  per command, and two client methods that run command sequences.

How the widget is represented. `content` holds the text widget's characters
except the newline Tk always keeps at the end; `WidgetText()` is
`get(1.0, END)`, that is `content + "\n"`. The insert cursor is a character
offset into `content`. Dialog answers, the text read from a file and the
measured pixel width of a digit are parameters; a file write is recorded in the
field `lastWrite`. Python's truthiness tests on dialog answers (`if path:`,
`if term:`, `if line:`) become `Chosen` (not dismissed and not empty) and, for
the line number, "answered and not 0".

Three consequences of the code that the model makes explicit:

- Saving right after opening does not reproduce the file: `get(1.0, END)`
  ends with the widget's newline, so the file's text plus `"\n"` is written
  (`Editor.OpenThenSave`).
- Replace reads `get(1.0, END)` and inserts the result before the widget's own
  newline, so the buffer gains a trailing newline even when nothing is replaced.
  `LiteralReplace.ReplaceAbsent` and `LiteralReplace.ReplaceBySelf` hold of the
  string computation, not of the buffer.
- The unsaved flag is not tied to the buffer's contents: the code copies the
  widget's flag in `_on_modified` and clears it in New, Open and Save.

## Model

| member | source | states |
|---|---|---|
| `NoCaseSearch.SearchFrom` | text_editor.py:131 | the result is a case-insensitive match at or after the start index with no match between the start and it; None exactly when no match starts at or after the start index |
| `NoCaseSearch.TagAll` | text_editor.py:129-136 | the search-tag-resume loop terminates and produces exactly the ranges `Matches` gives from index 0 |
| `NoCaseSearch.MatchesSound` | text_editor.py:134-135 | every tagged range has length `len(term)` and covers a case-insensitive occurrence of the term |
| `NoCaseSearch.MatchesOrdered` | text_editor.py:134-136 | tagged ranges are non-empty, strictly increasing and pairwise disjoint, because each search resumes at the end of the previous match |
| `NoCaseSearch.MatchesComplete` | text_editor.py:130-136 | no occurrence is skipped: every case-insensitive occurrence lies inside some tagged range (tagged itself or overlapping an earlier match) |
| `NoCaseSearch.MatchesAreLeftmostTags` | text_editor.py:125-137 | the scan's ranges satisfy all three properties together (sound, ordered, complete) |
| `NoCaseSearch.OverlapTaggedOnce` | text_editor.py:134-136 | "aa" in "aaa" is tagged once, at [0, 2) |
| `NoCaseSearch.TwoOccurrencesTagged` | text_editor.py:125-137 | "abc" in "xabcxabc" is tagged at [1, 4) and [5, 8) |
| `NoCaseSearch.CaseIgnored` | text_editor.py:131 | the search ignores case: "FOO" tags both "Foo" and "foo" |
| `LiteralReplace.Replace` | text_editor.py:144 | `s.replace(f, r)` scanning left to right; a replacement as long as the find term keeps the length of the text |
| `LiteralReplace.ReplaceIsJoinOfSplit` | text_editor.py:144 | the left-to-right replacement equals joining the leftmost split at the find term with the replacement |
| `LiteralReplace.JoinSplit` | text_editor.py:144 | joining the split pieces with the find term gives back the original text |
| `LiteralReplace.SplitLeftmost` | text_editor.py:144 | the split is leftmost and non-overlapping: no occurrence starts inside a piece, counting the separator after it, and none in the last piece |
| `LiteralReplace.ReplaceBySelf` | text_editor.py:144 | replacing the find term by itself leaves the text unchanged |
| `LiteralReplace.ReplaceAbsent` | text_editor.py:144 | when the find term does not occur the text is unchanged |
| `LiteralReplace.ReplaceExample` | text_editor.py:144 | replacing "foo" by "bar" in "foofoo baz foo" gives "barbar baz bar" |
| `LiteralReplace.ReplaceDeletes` | text_editor.py:142-144 | an empty replacement deletes the occurrences: "-" by "" in "a-b-c" gives "abc" |
| `TextIndex.LineCount` | text_editor.py:61 | the line number of `end-1c` is between 1 and the number of characters plus one, and is 1 exactly when the buffer has no newline |
| `TextIndex.PositionOf` | text_editor.py:85 | the line of `index(INSERT)` is between 1 and the line count |
| `TextIndex.LineStart` | text_editor.py:151 | the index "line.0" is an offset within the buffer |
| `TextIndex.GotoLineLands` | text_editor.py:148-152 | going to a line between 1 and the line count puts the cursor at that line, column 0; lines below 1 go to the start, lines past the last to the end |
| `TextIndex.IndexRoundTrip` | text_editor.py:85 | every cursor offset has a line between 1 and the line count, and the start of that line plus the column is the offset again |
| `Decimal.NatToString` | text_editor.py:62 | `str(n)` is at least one decimal digit, with a leading '0' exactly when n is 0 |
| `Decimal.ValueOfNatToString` | text_editor.py:89 | the digits of `str(n)` denote n |
| `Decimal.DigitCountBounds` | text_editor.py:62 | a positive n has exactly `len(str(n))` decimal digits: 10^(d-1) <= n < 10^d |
| `Decimal.DigitCountMonotone` | text_editor.py:62 | a larger number never has fewer digits |
| `LineGutter.Digits` | text_editor.py:61-62 | the digit count of the line count is at least 1 and is its number of decimal digits |
| `LineGutter.GutterWidth` | text_editor.py:66 | the gutter is at least one digit width plus 10 pixels wide |
| `LineGutter.GutterWidthMonotone` | text_editor.py:58-67 | the gutter width never decreases as the line count grows |
| `PosixPath.Basename` | text_editor.py:86 | the base name is the suffix of the path after its last '/', contains no '/', and is the whole path when there is no '/' |
| `StatusBar.DisplayName` | text_editor.py:86 | the displayed name is "Untitled" without a file; otherwise it is the '/'-free suffix of the file name that starts right after its last '/' (the whole name when it has none) |
| `StatusBar.StatusText` | text_editor.py:84-89 | the text `_update_status_bar` computes starts with the displayed name, and the next character is '*' exactly when there are unsaved changes |
| `StatusBar.StatusColumnOneBased` | text_editor.py:85-89 | the digits at the end of the computed status text denote the 0-based column plus one |
| `StatusBar.StatusColumnAtLineStart` | text_editor.py:85-89 | for a cursor at the start of a line the computed status text ends with "Col 1" |
| `StatusBar.StatusAfterGoto` | text_editor.py:148-152 | for the cursor that going to line L sets, the status text `_update_status_bar` would compute reads "Ln L, Col 1" (Goto itself does not refresh the label) |
| `Editor.TextEditor.WidgetText` | text_editor.py:143 | `get(1.0, END)` is the buffer's characters followed by exactly one newline, the widget's final one |
| `Editor.TextEditor.constructor` | text_editor.py:12-22 | a fresh session has no file, no unsaved changes, an empty buffer and the cursor at 0 |
| `Editor.TextEditor.OnModified` | text_editor.py:48-52 | the unsaved flag takes the widget's modified flag, which is then cleared |
| `Editor.TextEditor.Edit` | text_editor.py:33 | an edit the widget applies itself replaces the characters and cursor and sets the widget's modified flag |
| `Editor.TextEditor.NewFile` | text_editor.py:91-95 | no file name, empty buffer, cursor at 0, no "found" tags, no unsaved changes |
| `Editor.TextEditor.OpenFile` | text_editor.py:97-108 | a dismissed or empty path changes nothing; a chosen path makes the buffer the file's text, the path the file name, clears the unsaved flag and puts the cursor at the end |
| `Editor.TextEditor.SaveFile` | text_editor.py:110-117 | with a file name, writes the whole widget text to it and clears the unsaved flag; without one, behaves as Save-As |
| `Editor.TextEditor.SaveFileAs` | text_editor.py:119-123 | a dismissed or empty path leaves file name, unsaved flag and writes unchanged; a chosen path becomes the file name and the widget text is written to it |
| `Editor.TextEditor.Find` | text_editor.py:125-137 | a dismissed or empty term changes nothing; otherwise the old tags are dropped and the new ones are exactly the leftmost, non-overlapping, case-insensitive matches in the widget text |
| `Editor.TextEditor.Replace` | text_editor.py:139-146 | acts only for a non-empty find term and an answered replacement (possibly empty); the buffer becomes the widget text with every occurrence replaced left to right |
| `Editor.TextEditor.GotoLine` | text_editor.py:148-152 | a dismissed or zero line changes nothing; otherwise the cursor goes to column 0 of the line, clamped to the buffer |
| `Editor.OpenThenSave` | text_editor.py:97-117 | opening a file and saving it writes the file's text followed by the widget's final newline |
| `Editor.EditThenSave` | text_editor.py:48-52 | after an edit and the modification callback the unsaved flag is set; Save-As to a chosen path clears it |

## Left out

- Tk widgets, styles, the canvas drawing of line numbers and its pixel geometry (`dlineinfo`, `create_text`, `winfo_width`), scrolling (`yview_moveto`, `see`), focus and the tag colours: user interface only.
- Font measurement (`tkfont.Font(...).measure('9')`): a call into the toolkit; the digit width is the parameter `digitWidth` of `LineGutter.GutterWidth`.
- File and message dialogs: their answers are parameters.
- File reading and writing, UTF-8 decoding and encoding, and Python's newline translation in text mode: the file's text is a parameter of `OpenFile`, a write is recorded in `lastWrite`; the source does not handle I/O errors, so neither does the model.
- Key bindings, window setup, Quit and the main loop: plumbing.
- The unused syntax-highlighting imports: dead code.
- When Tk itself sets its modified flag (on the delete and insert calls inside New, Open and Replace, and as undo returns to a saved state) and its re-firing of the modification event when the flag is cleared: toolkit event semantics; New, Open and Replace leave `widgetModified` unchanged.
- Edit: the "found" ranges stay as they were; how Tk moves or drops tags when the user edits around them is not modelled.
- The status label's refresh: `_update_status_bar` runs only from the constructor, the modification callback, New, Open and Save, so after Goto or a cursor move the label keeps its old line and column; the model computes the status text for a state (`Editor.TextEditor.Status`) and does not track the text last displayed.
- PosixPath.Basename: splits at '/' only, as on POSIX; `os.path` on Windows also splits at `\` and after a drive letter.
- NoCaseSearch.Fold: case folding is ASCII only; Tk folds all of Unicode.
