# Vim editor text-buffer engine, in Dafny

A model of the text-buffer engine of a small modal (Vim-like) editor written
in C++ (`Vim_Editor.cpp`), with proofs about it.

The editor holds the document as a vector of doubly-linked character chains,
one chain per line, a null head standing for an empty line. It also keeps a
current line index and a `Cursor` node, null meaning no cursor. On top
of that sit:

- an insert/normal mode flag;
- a copy buffer for yank and paste;
- a status line;
- a `FileManager` holding the current file name and the modified flag;
- a `SearchEngine` remembering the last pattern and match;
- a `CommandMode` history with a browsing index.

In the model:

- A chain is the sequence of its characters (`Text.Line = seq<char>`).
- The document is a `seq<Line>`.
- The cursor is the index of its cell in the current line (`Option<nat>`).

Relinking cells therefore becomes sequence splicing.

The C++ classes whose fields change in place are Dafny classes:
`Editor.TextEditor`, `Search.SearchEngine`, `Files.FileManager` and
`Commands.CommandMode`. Their methods are proved against value-level
specification functions. `Buffers.Buffer(lines, line, cursor)` is the
document with its current line and cursor. `Buffers`, `Motion` and `Edits`
give the effect of every buffer operation on it, and
`TextEditor.Buf()` is the editor's current `Buffer`. Each mutator states its
new state as a function of the old one, for example
`Buf() == InsertChar(old(Buf()), ch)`. Lemmas about those functions prove what
the editor promises:

- placement and the 30-cell split of `insert`;
- deletion of exactly one cell;
- the line shifts of join and delete;
- the clamping of the moves;
- where the word motions land;
- yank/paste layout;
- the search engine's first-match and resumed-scan results;
- the document-wide `replace`;
- the cell rewrite of `replaceFirst`/`replaceAll`;
- the load/save round trip;
- the history browsing.

Module layout, following the program's structure:

| module | holds |
|---|---|
| `Chars` | `isWordCharacter`, `isPunctuation` |
| `Text` | lines, flattening, the file text of a document, `to_string` |
| `Files` | `FileManager` and the chain/text building loops |
| `Matching` | the cell-by-cell pattern walk and the first-hit scans |
| `Find` | `std::string::find` and the string rewriting `replace` uses |
| `Search` | `SearchEngine` |
| `Buffers` | the `Buffer` value, typing, the split, cell and line deletion |
| `Motion` | the cursor motions |
| `Edits` | new line, join, backspace, yank/paste, indentation, counted commands |
| `LineReplace` | the rolling match and cell rewrite of `replaceFirst`/`replaceAll` |
| `Editor` | `EditorStatus` and `TextEditor` |
| `Commands` | `CommandMode` and the `:s/old/new[/g]` splitter |

The model follows what the code does, including these behaviours of it:

- The split on typing (lines 581-621) moves only the cells after the new
  cell. Typing 31 characters into an empty line therefore leaves a line of
  31 cells and an empty line after it.
- `indentLine(true)` calls `insert(' ')`, which places the space after the
  cursor's cell. The comment at line 314 says the space goes at the
  beginning of the line; it does so only when the cursor is null.
- `findNext`/`findPrevious` restart the recorded line at its head. They
  report a match there at the recorded column plus the cell index, so, for
  a non-empty pattern, a `findNext` right after a `search` reports twice
  the column.
- The rolling match of `replaceFirst`/`replaceAll` does not retry the cell
  that broke a partial match, so it misses "ab" in "aab".
- The rewrite overwrites cells from the match start but links the match start
  straight to the cell after the written ones. "ab" with "a" replaced by "xy"
  becomes "x\0", and `replaceAll("a", "bb")` turns "aaa" into "bb\0".
- After a rewrite, `replaceAll` goes on from the cell that completed the
  match. With a new text shorter than the pattern that cell is still
  linked, so `replaceAll("abc", "x")` turns "abcabc" into "xbcxbc"; with
  one of the same length the scan resumes right after the written cell,
  and `replaceAll("ab", "xy")` turns "abab" into "xx\0".
- The usage message at line 1129 names the form `:s/old/new`, but the
  splitter rejects it (see "## Findings").
- `insert`, `joinLines`, `deleteLineNumber`, `deleteCharacterAtCursor`,
  `indentLine`, `replaceFirst` and `replaceAll` call `markModified`.
  `backspace`, `newLine` and the search engine's `replace` do not.
- The model's cursor is an index into the current line, so it is null
  wherever the source's `Cursor` is no longer a cell of the current line.
  `getCursorColumn` (lines 890-899) walks the current line without meeting
  such a cell and reports one past the line's length, as for a null
  `Cursor`, so the reported column agrees. This happens when:
  - `deleteLineNumber` removes the current line: its cells are freed;
  - `deleteLineNumber` removes an earlier line while the current line is
    not the last: the index then names the next line, and `Cursor` stays on
    a live cell of the line now above it. With the last line current, the
    clamp at lines 344-346 moves the index back onto the cursor's own line,
    and the model keeps the cursor;
  - the search engine's `replace` rebuilds the current line;
  - `replaceFirst`/`replaceAll` relink the match start past the cursor's
    cell (lines 464-465): that cell is detached from the line, not freed.

  What later operations do through such a `Cursor` is listed under
  "## Left out".

## Model

| member | source | states |
|---|---|---|
| Chars.ClassesDisjoint | Vim_Editor.cpp:265-276 | no character is both a word character and punctuation |
| Chars.UnclassifiedExamples | Vim_Editor.cpp:265-276 | digits, `_`, `[` and tab are in neither class; `,`, `@` and space are punctuation |
| Text.FlattenAppend | Vim_Editor.cpp:231-237 | the characters of two documents laid end to end are those of the first, then those of the second |
| Text.SaveText | Vim_Editor.cpp:231-237 | the saved text has one character per cell plus one newline per line |
| Text.SaveTextAppend | Vim_Editor.cpp:231-237 | saving one more line appends its cells and a newline to the saved text |
| Text.NewlineIndex | Vim_Editor.cpp:203 | reports the first newline: it is a newline and none precedes it; without a result the text has no newline |
| Text.NewlineIndexAt | Vim_Editor.cpp:203 | a newline with none before it is the one `getline` stops at |
| Text.LoadText | Vim_Editor.cpp:203-218 | the loaded lines never contain a newline |
| Text.LoadSaveRoundTrip | Vim_Editor.cpp:196-243 | saving newline-free lines and loading the file again gives back the same lines |
| Text.SaveLoadText | Vim_Editor.cpp:196-243 | loading a file text and saving it again gives back the text, plus a final newline if it had none |
| Text.SaveLoadFirstLine | Vim_Editor.cpp:196-243 | the round trip for a text holds once it holds for the text after its first newline |
| Text.LoadTextCons | Vim_Editor.cpp:203-218 | the first loaded line is the text up to the first newline, the rest is what follows it |
| Text.SaveTextCons | Vim_Editor.cpp:231-237 | saving writes the first line and its newline before the other lines |
| Text.ResavedAfterNewline | Vim_Editor.cpp:231-237 | text after a newline is resaved on its own |
| Text.NatToDecimal | Vim_Editor.cpp:348 | `to_string` writes a non-empty string of decimal digits |
| Text.DigitChar | Vim_Editor.cpp:348 | each digit below ten is written as a character '0'-'9' |
| Text.DecimalRoundTrip | Vim_Editor.cpp:348 | reading the written digits back gives the number; one digit exactly for numbers below ten |
| Files.TextToChains | Vim_Editor.cpp:202-218 | the `getline` loop building one chain per line yields exactly the lines of the text |
| Files.GetLine | Vim_Editor.cpp:203-217 | one `getline` takes the newline-free prefix up to the first newline or the end of the text |
| Files.FirstLineCut | Vim_Editor.cpp:203-218 | a non-empty text loads as its first line followed by the lines of the text after its newline |
| Files.ChainsToText | Vim_Editor.cpp:231-237 | the save loop writes exactly the saved text of the document |
| Files.FileManager.constructor | Vim_Editor.cpp:194 | no file name, not modified |
| Files.FileManager.LoadFile | Vim_Editor.cpp:196-223 | an openable file replaces the lines by its loaded text, records the name and clears the modified flag; otherwise nothing changes |
| Files.FileManager.SaveFile | Vim_Editor.cpp:225-243 | a writable file receives the saved text, the name is recorded and the flag cleared; otherwise nothing changes |
| Files.FileManager.MarkAsModified | Vim_Editor.cpp:245-247 | sets the modified flag and keeps the name |
| Files.FileManager.HasUnsavedChanges | Vim_Editor.cpp:248-250 | reports the modified flag |
| Matching.GuardIrrelevant | Vim_Editor.cpp:70-74 | for a non-empty pattern the first-character test of findNext/findPrevious accepts exactly the real matches |
| Matching.MatchLength | Vim_Editor.cpp:45-49 | the inner walk counts the agreeing characters; it reaches the pattern's length exactly at a match |
| Matching.FirstHit | Vim_Editor.cpp:43-57 | the reported cell is a hit at or after the start and no earlier cell from the start is one; no result means no hit |
| Matching.ForwardScan | Vim_Editor.cpp:38-90 | the reported hit is on the earliest line with one, at its leftmost hit; no result means no line from the start has one |
| Matching.BackwardScan | Vim_Editor.cpp:114-133 | the reported hit is on the nearest earlier line that has one, at its leftmost hit; no result means none of those lines has one |
| Find.FindFrom | Vim_Editor.cpp:153-159 | `find` returns a position at or after the start at which the pattern fits |
| Find.FindFromFirst | Vim_Editor.cpp:153-159 | a result of `find` is an occurrence with none between the start and it; no result means no occurrence from the start |
| Find.FindFromSomeIffContains | Vim_Editor.cpp:153-154 | `find` from 0 succeeds exactly when the text contains the pattern |
| Find.FindFromSuffix | Vim_Editor.cpp:159 | searching from an offset is searching the suffix, shifted |
| Find.ReplaceEveryWithoutOccurrence | Vim_Editor.cpp:153-160 | a text without occurrence is left as it is |
| Find.FindFromAt | Vim_Editor.cpp:153-159 | an occurrence with none before it is what `find` returns |
| Find.ReplaceEveryKeepsPrefix | Vim_Editor.cpp:157-160 | the text before the first occurrence is kept and the new text follows it, in both the single and the global rewrite |
| Find.RewriteStep | Vim_Editor.cpp:157-160 | one round of the do-while keeps the rewritten prefix plus the global rewrite of the rest equal to the global rewrite of the line |
| Find.SuffixFound | Vim_Editor.cpp:159 | an occurrence found from an offset is found, shifted, in the suffix |
| Find.ReplaceEveryFound | Vim_Editor.cpp:157-160 | the global rewrite cuts the text at the occurrence `find` returns |
| Find.RegroupRewrite | Vim_Editor.cpp:158-159 | the rewritten text and the original agree around the replaced occurrence |
| Find.RewriteDone | Vim_Editor.cpp:160 | when `find` fails the rest of the text is already rewritten |
| Search.ScanForward | Vim_Editor.cpp:38-90 | the nested loops of search/findNext report exactly the first hit of the forward scan |
| Search.ScanBackward | Vim_Editor.cpp:114-133 | the second loop of findPrevious reports exactly the hit of the backward scan |
| Search.FindNextAfterSearch | Vim_Editor.cpp:65-90 | findNext right after a search re-finds the same match and reports it at twice its column |
| Search.EmptyPatternFound | Vim_Editor.cpp:43-50 | the empty pattern is found exactly when some line is non-empty |
| Search.EmptyPatternEarliest | Vim_Editor.cpp:43-50 | the earliest match of the empty pattern is the head of the first non-empty line |
| Search.RewriteLine | Vim_Editor.cpp:153-160 | the line text becomes the global rewrite with `global`, and the first-occurrence rewrite without it |
| Search.RewriteAdvances | Vim_Editor.cpp:157-160 | each round of the rewrite loop keeps its invariant and leaves less text to scan |
| Search.FirstRewrite | Vim_Editor.cpp:158 | the first occurrence found is the one replaced |
| Search.OnlyFirstContaining | Vim_Editor.cpp:153-182 | the first line containing the pattern is the only line that is first to contain it |
| Search.UnrebuiltLineKept | Vim_Editor.cpp:154-181 | a line replace does not rebuild keeps its text |
| Search.EveryReplacedStep | Vim_Editor.cpp:155-181 | rewriting a containing line extends the invariant of the global loop by one line |
| Search.NoneStep | Vim_Editor.cpp:153-182 | passing a line without occurrence keeps the loop invariant and what is known about earlier lines |
| Search.FirstReplaceDone | Vim_Editor.cpp:155-182 | without `global`, stopping after the first containing line leaves exactly the specified document |
| Search.NoneReplaced | Vim_Editor.cpp:139-185 | without `global`, a document with no occurrence is left as it is |
| Search.SearchEngine.constructor | Vim_Editor.cpp:36 | the recorded match starts at line 0, column 0 |
| Search.SearchEngine.DoSearch | Vim_Editor.cpp:38-61 | records the pattern; finds a match exactly when one exists; reports the earliest line and leftmost column; a failure resets line and column to 0 |
| Search.SearchEngine.FindNext | Vim_Editor.cpp:65-90 | reports the forward scan from the recorded line, at the column findNext computes; no hit leaves the record unchanged |
| Search.SearchEngine.FindPrevious | Vim_Editor.cpp:91-136 | the same forward scan as findNext; only if it fails, the nearest earlier line's leftmost hit with its true column |
| Search.SearchEngine.Replace | Vim_Editor.cpp:139-185 | true exactly when some line contains a non-empty pattern; every line becomes its specified rewrite; an empty pattern changes nothing |
| Buffers.Place | Vim_Editor.cpp:581-602 | linking in the new cell keeps the buffer well-formed |
| Buffers.Typed | Vim_Editor.cpp:581-621 | typing into an empty line leaves a last line of at most 30 cells |
| Buffers.TypedSnoc | Vim_Editor.cpp:581-621 | typing one more character changes only the last line, as typing at its end does |
| Buffers.InsertChar | Vim_Editor.cpp:581-621 | an insertion keeps the buffer well-formed |
| Buffers.TypeText | Vim_Editor.cpp:581-621 | typing a text keeps the buffer well-formed |
| Buffers.DeleteAtCursor | Vim_Editor.cpp:703-728 | deleting the cursor's cell keeps the buffer well-formed |
| Buffers.DeleteLine | Vim_Editor.cpp:326-349 | removing a line, with another one left, keeps the buffer well-formed |
| Buffers.InsertAtEnd | Vim_Editor.cpp:581-621 | typing at the end of a line grows it, and adds an empty line after it once it exceeds 30 cells |
| Buffers.TypeOneMore | Vim_Editor.cpp:581-621 | one more character typed at the end keeps the layout that typing the longer text gives |
| Buffers.TypeIntoEmptyLine | Vim_Editor.cpp:581-621 | typing into an empty line lays the text out as `Typed` says, cursor on the last cell typed |
| Buffers.TypedKeepsText | Vim_Editor.cpp:581-621 | typing never loses or duplicates a character |
| Buffers.TypedShape | Vim_Editor.cpp:603-617 | every filled line holds 31 cells; the line count and last line length follow from the text length |
| Buffers.TypedShort | Vim_Editor.cpp:603 | a text of at most 30 characters stays on one line |
| Buffers.TypedFull | Vim_Editor.cpp:603-617 | 31 characters fill one line and leave an empty line after it |
| Buffers.TypingThirtyOneCharacters | Vim_Editor.cpp:581-621 | typing 31 characters into the empty document gives a line of all 31 and an empty second line |
| Buffers.InsertWithinLimit | Vim_Editor.cpp:581-621 | within 30 cells the character lands after the cursor's cell (front without one), the cursor is on it, and no other line changes |
| Buffers.PlaceAfterCursor | Vim_Editor.cpp:581-621 | one character typed on a line under 30 cells goes right after the cursor's cell and takes the cursor |
| Buffers.TypeOneAfter | Vim_Editor.cpp:581-621 | one more character typed after text already typed after the cursor extends that text in place |
| Buffers.TypeAfterCursor | Vim_Editor.cpp:581-621 | text typed within 30 cells sits right after the cursor's cell, in order, with the cursor on its last character |
| Buffers.InsertOverflowSplit | Vim_Editor.cpp:603-617 | a split leaves the prefix through the new cell, then a new line with the cells after it; earlier and later lines are kept and one cell is added in all |
| Buffers.InsertCharLines | Vim_Editor.cpp:581-621 | only the current line is replaced: by the placed line, or by its prefix through the new cell followed by the rest laid out as `Typed` lays out text |
| Buffers.ResettledKeepsCells | Vim_Editor.cpp:603-617 | the split moves cells without losing any |
| Buffers.InsertKeepsCells | Vim_Editor.cpp:581-621 | an insertion adds exactly the typed cell at its place to the document's characters |
| Buffers.InsertKeepsEarlierLines | Vim_Editor.cpp:581-621 | an insertion keeps the lines before the current one and never removes a line |
| Buffers.DeleteRemovesCursorCell | Vim_Editor.cpp:703-728 | removes exactly the cursor's cell and touches no other line; without a cursor nothing changes |
| Buffers.DeleteLineShifts | Vim_Editor.cpp:326-349 | lines after the removed one move down one index; the current index is clamped to the last line |
| Buffers.DeleteLineKeepsCursorLine | Vim_Editor.cpp:343-346 | a cursor that survives a line deletion is the same index into the same line it was on |
| Buffers.DeleteEarlierUnderLastLine | Vim_Editor.cpp:343-346 | with the last line current, removing the line before it keeps the cursor, and its column, on that line |
| Motion.MoveUp | Vim_Editor.cpp:623-628 | keeps the buffer well-formed |
| Motion.MoveDown | Vim_Editor.cpp:630-635 | keeps the buffer well-formed |
| Motion.MoveRight | Vim_Editor.cpp:637-643 | keeps the buffer well-formed |
| Motion.MoveLeft | Vim_Editor.cpp:645-651 | keeps the buffer well-formed |
| Motion.ColumnCursor | Vim_Editor.cpp:378-383 | a cursor exists exactly for a column inside the line, and is that column |
| Motion.StartOfLine | Vim_Editor.cpp:786-791 | keeps the buffer well-formed |
| Motion.EndOfLine | Vim_Editor.cpp:792-801 | keeps the buffer well-formed |
| Motion.CursorColumn | Vim_Editor.cpp:890-899 | the 1-based column is one past the cursor's index; a null cursor counts the whole line |
| Motion.SkipForward | Vim_Editor.cpp:819-827 | stops at the first cell not in the class, or the last cell, with every cell passed in the class |
| Motion.SkipBackward | Vim_Editor.cpp:853-858 | stops at the first cell going back that is not in the class, or the head, with every cell passed in the class |
| Motion.SkipAhead | Vim_Editor.cpp:873-878 | stops where the next cell is not in the class, or at the last cell |
| Motion.NextWord | Vim_Editor.cpp:802-832 | keeps the buffer well-formed |
| Motion.PreviousWord | Vim_Editor.cpp:833-865 | keeps the buffer well-formed |
| Motion.WordEnd | Vim_Editor.cpp:868-880 | keeps the buffer well-formed |
| Motion.VerticalMoves | Vim_Editor.cpp:623-635 | up/down step one line only when not at the first/last line and land on the head cell; the text is unchanged |
| Motion.DownThenUp | Vim_Editor.cpp:623-635 | moving down then up returns to the line, on its head cell |
| Motion.HorizontalMoves | Vim_Editor.cpp:943-955 | left/right, through the iterator's clamps, stay on the line, step one cell, and stay put at the line ends or without a cursor |
| Motion.LeftUndoesRight | Vim_Editor.cpp:943-955 | away from the ends, left and right undo each other |
| Motion.NextWordLandsOnWordStart | Vim_Editor.cpp:819-828 | within a line the move lands on a letter after a non-letter, later than the cursor, or on the last cell |
| Motion.NextWordExample | Vim_Editor.cpp:819-828 | from the head of "  foo, bar" the next word starts at index 7 |
| Motion.PreviousWordFromLetter | Vim_Editor.cpp:853-862 | from a letter the move lands on the first letter of that word |
| Motion.PreviousWordFromSeparators | Vim_Editor.cpp:833-866 | from separators that follow a word the move lands on that word's first letter |
| Motion.PreviousWordCanMoveForward | Vim_Editor.cpp:859-861 | from an unclassified cell the move can go forward: in "a_b" from '_' to 'b' |
| Motion.WordEndMovesForward | Vim_Editor.cpp:868-880 | never moves back; passes only separators and letters, and stops before a non-letter or at the last cell |
| Edits.NewLine | Vim_Editor.cpp:653-657 | keeps the buffer well-formed |
| Edits.JoinLines | Vim_Editor.cpp:283-306 | keeps the buffer well-formed |
| Edits.Backspace | Vim_Editor.cpp:729-749 | keeps the buffer well-formed |
| Edits.Yanked | Vim_Editor.cpp:750-759 | the copy buffer holds every cell of a non-empty line but its last; an empty line keeps the old buffer |
| Edits.PasteAfter | Vim_Editor.cpp:761-768 | keeps the buffer well-formed |
| Edits.PasteBefore | Vim_Editor.cpp:770-785 | keeps the buffer well-formed |
| Edits.Indent | Vim_Editor.cpp:308-316 | keeps the buffer well-formed |
| Edits.Unindent | Vim_Editor.cpp:308-320 | keeps the buffer well-formed |
| Edits.DeleteLines | Vim_Editor.cpp:352-356 | a counted `dd` removes exactly `count` lines |
| Edits.DeleteLinesStep | Vim_Editor.cpp:352-356 | each further `dd` removes the then-current line |
| Edits.MoveDownTimes | Vim_Editor.cpp:362-366 | keeps the buffer well-formed |
| Edits.IndentTimes | Vim_Editor.cpp:367-371 | keeps the buffer well-formed |
| Edits.UnindentTimes | Vim_Editor.cpp:372-376 | keeps the buffer well-formed |
| Edits.UnindentsSafeFewer | Vim_Editor.cpp:372-376 | a safe count of unindents stays safe when made smaller |
| Edits.JoinLinesEffect | Vim_Editor.cpp:283-306 | one line less, later lines shift down; a non-empty line gains the next line's text, an empty one drops it |
| Edits.JoinLastLine | Vim_Editor.cpp:284 | joining on the last line does nothing |
| Edits.BackspaceRemovesPrevious | Vim_Editor.cpp:729-749 | removes exactly the cell before the cursor, which stays on its character; no other line changes |
| Edits.NewLineEffect | Vim_Editor.cpp:653-657 | an empty line after the current one becomes current; nothing else changes |
| Edits.PasteAfterLays | Vim_Editor.cpp:761-768 | the copy buffer is laid out in new lines right below the current one; a short buffer is one line |
| Edits.YankThenPaste | Vim_Editor.cpp:750-768 | yank then paste adds below the line a copy of it without its last character |
| Edits.PasteBeforeLays | Vim_Editor.cpp:770-778 | below the first line, the copy buffer goes in new lines just above the current line |
| Edits.PasteBeforeFirstEmptyLine | Vim_Editor.cpp:779-784 | on an empty first line the copy is typed into that line, laid out as `Typed` lays out text |
| Edits.PasteBeforeFirstLine | Vim_Editor.cpp:779-784 | on a non-empty first line the copy goes right after the head cell, not before it, while the line stays within 30 cells |
| Edits.NewLineSplits | Vim_Editor.cpp:653-657 | the new line is empty, without cursor, between the lines up to the current one and the rest |
| Edits.IndentPlacesSpace | Vim_Editor.cpp:313-315 | indenting types a space right after the cursor, not at the start of the line |
| Edits.UnindentEffect | Vim_Editor.cpp:316-320 | unindenting a line that starts with a space removes the cursor's character; otherwise nothing changes |
| Edits.DeleteLinesKeepsEarlier | Vim_Editor.cpp:352-356 | a counted `dd` keeps the lines before the new current one |
| Edits.DeleteCurrentKeepsEarlier | Vim_Editor.cpp:326-349 | removing the current line keeps the lines before the new current one |
| Edits.MoveDownTimesLine | Vim_Editor.cpp:362-366 | a counted `j` moves `count` lines down, stopping at the last line |
| LineReplace.Rewritten | Vim_Editor.cpp:444-465 | the rewrite keeps the cells before the match start and writes the new text's first character there; the length follows the relink |
| LineReplace.Splice | Vim_Editor.cpp:444-465 | the overwrite loop and the relink yield exactly the rewritten line |
| LineReplace.Relink | Vim_Editor.cpp:464-465 | linking the match start to the cell after the written ones gives the rewritten line |
| LineReplace.OverwriteStep | Vim_Editor.cpp:445-453 | one character written, and a `'\0'` cell appended when the written cell was the last |
| LineReplace.RemapKeepsCell | Vim_Editor.cpp:444-465 | a cursor survives the rewrite exactly when its cell stays linked, and then points to the same cell |
| LineReplace.RewriteIsNotReplacement | Vim_Editor.cpp:444-465 | replacing "a" in "ab" by "xy" gives "x\0", not "xyb" |
| LineReplace.RewriteOneCharacter | Vim_Editor.cpp:444-465 | a one-character new text overwrites the match start, with a `'\0'` cell after a last cell |
| LineReplace.RollingMatch | Vim_Editor.cpp:437-477 | a match the rolling scan completes is a real occurrence inside the line |
| LineReplace.FirstRolling | Vim_Editor.cpp:437-477 | a match the rolling scan completes over the line is a real occurrence |
| LineReplace.ScanRolling | Vim_Editor.cpp:433-477 | the scan loop with `matchIndex` and `matchStart` yields exactly the rolling match |
| LineReplace.RollingMissesRestartedMatch | Vim_Editor.cpp:472-474 | "aab" contains "ab" but the rolling scan misses it |
| LineReplace.RollingSingleCharacter | Vim_Editor.cpp:437-477 | for a single character the rolling scan is `find` |
| LineReplace.RollingFindsOccurrence | Vim_Editor.cpp:437-477 | a rolling match is an occurrence, and the leftmost one for a single character |
| LineReplace.RewriteConsumes | Vim_Editor.cpp:495-527 | a rewrite at a matching cell leaves fewer matching cells after it, unless a `'\0'` rewrite runs off the line's end, so the sweep ends |
| LineReplace.NulRunOffRepeats | Vim_Editor.cpp:502-533 | a `'\0'` rewrite that runs off the end leaves a `'\0'` last cell as the next one scanned, in the same situation again, so the scan never ends |
| LineReplace.NulSweepExample | Vim_Editor.cpp:494-534 | replaceAll("\0", "x") on "\0ab" stays inside the line, ends, and gives "xab" |
| LineReplace.SweepLine | Vim_Editor.cpp:488-534 | the scan loop of replaceAll yields the sweep's line and cursor, and reports a match exactly when the character occurs |
| LineReplace.SweepKeepsCursor | Vim_Editor.cpp:488-534 | a cursor inside the line stays inside it |
| LineReplace.SweepWithoutMatch | Vim_Editor.cpp:488-534 | without a matching cell nothing changes |
| LineReplace.SweepLeavesNoMatch | Vim_Editor.cpp:488-534 | afterwards no cell holds the character, unless the new text starts with it |
| LineReplace.SweepOneCharacter | Vim_Editor.cpp:488-534 | a one-character new text substitutes every matching cell in place, with a `'\0'` cell after a matching last cell |
| LineReplace.SweepOneMatch | Vim_Editor.cpp:495-527 | the step of the sweep at a matching cell that is not the last |
| LineReplace.SweepLastMatch | Vim_Editor.cpp:495-527 | the step of the sweep at a matching last cell |
| LineReplace.Substituted | Vim_Editor.cpp:501-511 | substituting keeps the length and replaces exactly the matching characters |
| LineReplace.SweepExample | Vim_Editor.cpp:488-534 | replaceAll("a", "bb") turns "aaa" into "bb\0" |
| LineReplace.MatchExtends | Vim_Editor.cpp:495-499 | a matching cell extends the partial match by one, and completes an occurrence at the pattern's last character |
| LineReplace.ResumeIndex | Vim_Editor.cpp:514-533 | after a rewrite the scan goes on past the match start and no further than the end of the rewritten line |
| LineReplace.SweepRollingByMatches | Vim_Editor.cpp:494-534 | the cell-by-cell scan rewrites exactly the match the rolling match completes and goes on from the resume cell; without one nothing changes |
| LineReplace.SweepRollingKeepsPrefix | Vim_Editor.cpp:494-534 | the scan never changes the cells before where it starts |
| LineReplace.SweepRollingKeepsCursor | Vim_Editor.cpp:494-534 | a cursor inside the line stays inside it |
| LineReplace.RollingSweepFirst | Vim_Editor.cpp:494-534 | without a rolling match the line and cursor are unchanged; with one, the cells before it are kept and its start holds the new text's first character |
| LineReplace.RollingSweepLine | Vim_Editor.cpp:488-534 | the scan loop of replaceAll for a longer pattern yields the sweep's line and cursor, and reports a match exactly when the rolling match finds one |
| LineReplace.RollingSweepShorter | Vim_Editor.cpp:494-534 | replaceAll("abc", "x") turns "abcabc" into "xbcxbc" |
| LineReplace.RollingSweepSameLength | Vim_Editor.cpp:494-534 | replaceAll("ab", "xy") turns "abab" into "xx\0" |
| Editor.StatusOf | Vim_Editor.cpp:881-889 | mode name, 1-based line within the line count, column within the line plus one, the command |
| Editor.Moving | Vim_Editor.cpp:603-617 | every intermediate state of the split is well-formed |
| Editor.SplitStart | Vim_Editor.cpp:604-607 | opening the new line starts the split with nothing moved |
| Editor.SplitStep | Vim_Editor.cpp:608-616 | typing the next cell below and unlinking it moves the split on by one cell |
| Editor.InsertWithoutSplit | Vim_Editor.cpp:603 | a line within 30 cells only receives the new cell |
| Editor.SplitDone | Vim_Editor.cpp:603-617 | once every cell has moved, the split yields the insertion |
| Editor.WalkForward | Vim_Editor.cpp:819-827 | the forward skip loop stops where the skip says |
| Editor.WalkBackward | Vim_Editor.cpp:853-858 | the backward skip loop stops where the skip says |
| Editor.WalkAhead | Vim_Editor.cpp:873-878 | the look-ahead skip loop stops where the skip says |
| Editor.TextEditor.constructor | Vim_Editor.cpp:279-282 | one empty line, no cursor, normal mode, the status of that state |
| Editor.TextEditor.UpdateStatus | Vim_Editor.cpp:881-889 | the status describes the current state; an empty command keeps the last one |
| Editor.TextEditor.GetCursorColumn | Vim_Editor.cpp:890-899 | the walk yields the 1-based cursor column |
| Editor.TextEditor.CountCharactersInLine | Vim_Editor.cpp:572-580 | the walk counts the line's cells |
| Editor.TextEditor.MarkModified | Vim_Editor.cpp:561-563 | sets the modified flag |
| Editor.TextEditor.HasUnsavedChanges | Vim_Editor.cpp:565-567 | reports the modified flag |
| Editor.TextEditor.GetFileName | Vim_Editor.cpp:569-571 | reports the file name |
| Editor.TextEditor.SaveToFile | Vim_Editor.cpp:541-548 | a writable file receives the document's saved text and clears the flag; the document is unchanged |
| Editor.TextEditor.LoadFromFile | Vim_Editor.cpp:550-559 | a file that opens replaces the document by its lines, first line current with the cursor on its head; otherwise nothing changes |
| Editor.TextEditor.Insert | Vim_Editor.cpp:581-621 | the new state is the insertion of the value model; modified is set and the status says "Insert" |
| Editor.TextEditor.SplitLine | Vim_Editor.cpp:603-617 | after the placed cell overflows the line, the split yields the insertion |
| Editor.TextEditor.MoveCells | Vim_Editor.cpp:608-616 | the loop moves every cell after the new one to the new line, in order |
| Editor.TextEditor.MoveUp | Vim_Editor.cpp:623-628 | the new state is `Motion.MoveUp` of the old one |
| Editor.TextEditor.MoveDown | Vim_Editor.cpp:630-635 | the new state is `Motion.MoveDown` of the old one |
| Editor.TextEditor.MoveRight | Vim_Editor.cpp:637-643 | the new state is `Motion.MoveRight` of the old one |
| Editor.TextEditor.MoveLeft | Vim_Editor.cpp:645-651 | the new state is `Motion.MoveLeft` of the old one |
| Editor.TextEditor.MoveToColumn | Vim_Editor.cpp:378-383 | the cursor is on the given column of the current line, or null past its end |
| Editor.TextEditor.MoveToStartOfLine | Vim_Editor.cpp:786-791 | the new state is `Motion.StartOfLine` of the old one |
| Editor.TextEditor.MoveToEndOfLine | Vim_Editor.cpp:792-801 | the new state is `Motion.EndOfLine` of the old one |
| Editor.TextEditor.MoveToNextWord | Vim_Editor.cpp:802-832 | the new state is `Motion.NextWord` of the old one |
| Editor.TextEditor.MoveToPreviousWord | Vim_Editor.cpp:833-865 | the new state is `Motion.PreviousWord` of the old one |
| Editor.TextEditor.MoveToWordEnd | Vim_Editor.cpp:868-880 | the new state is `Motion.WordEnd` of the old one |
| Editor.TextEditor.NewLine | Vim_Editor.cpp:653-657 | the new state is `Edits.NewLine` of the old one |
| Editor.TextEditor.JoinLines | Vim_Editor.cpp:283-306 | the new state is `Edits.JoinLines` of the old one; a join sets modified and the status |
| Editor.TextEditor.DeleteLineNumber | Vim_Editor.cpp:326-349 | a line number in range removes that line, sets modified and reports it; out of range nothing changes |
| Editor.TextEditor.DeleteCharacterAtCursor | Vim_Editor.cpp:703-728 | the new state is the deletion at the cursor; modified is set exactly when there was a cursor |
| Editor.TextEditor.Backspace | Vim_Editor.cpp:729-749 | the new state is `Edits.Backspace` of the old one; modified is not set |
| Editor.TextEditor.YankLine | Vim_Editor.cpp:750-759 | the copy buffer becomes the yanked text; the document is unchanged |
| Editor.TextEditor.TypeAll | Vim_Editor.cpp:761-785 | typing a text character by character reaches the value model's typing of it |
| Editor.TextEditor.TypeOne | Vim_Editor.cpp:761-785 | one round of the typing loop extends the typed text by one character |
| Editor.TextEditor.PasteAfter | Vim_Editor.cpp:761-768 | the new state is `Edits.PasteAfter` of the old one and the copy buffer |
| Editor.TextEditor.PasteBefore | Vim_Editor.cpp:770-785 | the new state is `Edits.PasteBefore` of the old one and the copy buffer |
| Editor.TextEditor.IndentLine | Vim_Editor.cpp:308-324 | the new state is the indent or unindent; a non-empty line is marked modified with the matching status |
| Editor.TextEditor.ExecuteWithCount | Vim_Editor.cpp:351-377 | `dd`, `j`, `>>` and `<<` are repeated `count` times; other commands and counts below one change nothing |
| Editor.TextEditor.RepeatDeleteLine | Vim_Editor.cpp:352-356 | `count` deletions of the current line; the status names the last line number deleted |
| Editor.TextEditor.DeleteOnce | Vim_Editor.cpp:353-355 | one more deletion of the current line |
| Editor.TextEditor.RepeatMoveDown | Vim_Editor.cpp:362-366 | `count` moves down |
| Editor.TextEditor.RepeatIndent | Vim_Editor.cpp:367-376 | `count` indents or unindents; an initially empty line stays as it is |
| Editor.TextEditor.IndentRound | Vim_Editor.cpp:367-376 | one round of the indent loop keeps its invariant |
| Editor.TextEditor.Search | Vim_Editor.cpp:384-393 | on a match the current line and cursor go to the earliest match; otherwise the document is unchanged |
| Editor.TextEditor.FindNext | Vim_Editor.cpp:395-404 | on a hit of the resumed scan the current line and cursor move to it; the text never changes |
| Editor.TextEditor.FindPrevious | Vim_Editor.cpp:407-416 | on a hit of either scan the current line and cursor move to it; the text never changes |
| Editor.TextEditor.Replace | Vim_Editor.cpp:418-425 | the lines become the search engine's replacement; a rebuilt current line loses its cursor |
| Editor.TextEditor.ReplaceFirst | Vim_Editor.cpp:426-480 | an empty pattern is an error; a rolling match is rewritten and the cursor remapped, marking modified; otherwise nothing changes |
| Editor.TextEditor.ReplaceAll | Vim_Editor.cpp:482-538 | a one-character pattern sweeps the line cell by cell, a longer one by the rolling match resuming after each rewrite; modified is set exactly when a match was found; an empty pattern is an error |
| Editor.TextEditor.EnterInsertMode | Vim_Editor.cpp:659-661 | insert mode on, nothing else changes |
| Editor.TextEditor.ExitInsertMode | Vim_Editor.cpp:663-665 | insert mode off, nothing else changes |
| Editor.TextEditor.IsInsertMode | Vim_Editor.cpp:667-669 | reports the mode |
| Commands.SizeT | Vim_Editor.cpp:990 | conversion to `size_t` is the value modulo 2^64 |
| Commands.NextGuardMeaning | Vim_Editor.cpp:990 | in every reachable state the wrapped guard means there is a later entry |
| Commands.PreviousStep | Vim_Editor.cpp:981-987 | above 0 the index steps back and returns that entry; otherwise "" and no move |
| Commands.NextStep | Vim_Editor.cpp:989-995 | with a later entry the index steps forward and returns it; otherwise "" and no move |
| Commands.BrowseAfterAdd | Vim_Editor.cpp:976-995 | right after an add, previous returns the newest command and next returns nothing |
| Commands.PreviousThenNext | Vim_Editor.cpp:981-995 | stepping back then forward returns to the entry left |
| Commands.PreviousAtOldest | Vim_Editor.cpp:981-987 | at the oldest entry previous returns nothing and stays |
| Commands.CommandMode.constructor | Vim_Editor.cpp:975 | empty history, index -1 |
| Commands.CommandMode.AddCommandToHistory | Vim_Editor.cpp:976-979 | appends the command and puts the index one past it |
| Commands.CommandMode.GetPreviousCommand | Vim_Editor.cpp:981-987 | the step back of the value model |
| Commands.CommandMode.GetNextCommand | Vim_Editor.cpp:989-995 | the step forward of the value model |
| Commands.FirstIndex | Vim_Editor.cpp:1112 | `find('/')`: the first slash; none exactly when there is no slash |
| Commands.LastIndex | Vim_Editor.cpp:1113 | `rfind('/')`: the last slash; none exactly when there is no slash |
| Commands.ParseSubstituteSplits | Vim_Editor.cpp:1111-1118 | accepted exactly with two slashes; split at the first and last, global exactly for the tail "g" |
| Commands.ShortFormRejected | Vim_Editor.cpp:1111-1129 | `old/new`, the documented short form and the history entry of every first-occurrence substitution, is rejected |
| Commands.ShortEntry | Vim_Editor.cpp:1126 | the history entry of a first-occurrence substitution is `:s/old/new` |
| Commands.ParseSubstituteFixedRoundTrip | Vim_Editor.cpp:1126-1129 | the corrected splitter parses every history entry back to its substitution |
| Commands.FixedOneSlash | Vim_Editor.cpp:1129 | the corrected splitter reads `old/new` as a first-occurrence substitution |
| Commands.FixedTwoSlashes | Vim_Editor.cpp:1115-1118 | the corrected splitter reads `old/new/t` as global exactly for t = "g" |
| Commands.FirstOfThree | Vim_Editor.cpp:1112 | the first slash of `a/b/c` is the one after a slash-free `a` |
| Commands.FirstAfterSlashFree | Vim_Editor.cpp:1112 | the first slash of `a/b` is the one after a slash-free `a` |
| Commands.LastBeforeSlashFree | Vim_Editor.cpp:1113 | the last slash of `a/b` is the one before a slash-free `b` |

## Left out

- `getChar`, the terminal key decoding (termios/conio), is not modelled: platform I/O.
- `display`, the screen rendering through `system` and `cout`, is not modelled: output only.
- `main`'s key loop, `cin` reads, digit-prefix accumulation and the history-browser screen are not modelled. They are I/O. Only the `:s/` splitter and the history entry it records are kept.
- File streams are not modelled. A load receives the file's text, or None when the file cannot be opened; a save receives a "writable" flag and returns the text written. `getline` is taken to split on `'\n'` only.
- Memory management (`new`/`delete`, leaks) is not modelled: sequences make it moot.
- `deleteToEndOfLine` is not modelled: it uses freed cells and nothing reaches it. The commented-out `deleteCurrentLine` is not modelled either.
- The `yy` branch of `executeWithCount` is not modelled: it only prints a message, and the model treats it as doing nothing.
- Console messages (`cout`) of the failure paths are not modelled.
- Editor.TextEditor.DeleteCharacterAtCursor: requires that the line is not a single cell when there is a cursor. The source follows a null link there.
- Editor.TextEditor.Backspace: requires a cursor at an index other than 1. The source dereferences `Cursor` before its null test, and at index 1 it dereferences the head's null predecessor.
- Editor.TextEditor.MoveToNextWord: requires a cursor when on the last line; the source dereferences a null `Cursor` there.
- Editor.TextEditor.MoveToPreviousWord: requires a cursor when on the first line; the source dereferences a null `Cursor` there.
- Editor.TextEditor.DeleteLineNumber: requires that the only line is not removed; the source would set the current line to -1.
- Editor.TextEditor.ExecuteWithCount: requires `count` below the line count for `dd` and safe unindents for `<<`, for the same reasons.
- Editor.TextEditor.ReplaceFirst: requires a non-empty new text when there is a match; the source links the match start to itself otherwise.
- Editor.TextEditor.ReplaceAll: requires, for a pattern of two or more characters with a rolling match on the line, a new text of 1 to |pattern| characters. Only with a longer new text does the source's scan, after the rewrite at m, walk the detached cells m+|pattern|..m+|new text|-1; an empty new text links the match start to itself.
- Editor.TextEditor.ReplaceAll: requires, for a one-character pattern that occurs on the line, a non-empty new text, and for the pattern `'\0'` that no rewrite of the sweep runs off the line's end (`SweepSafe`). The source otherwise links a cell to itself, or appends a `'\0'` cell that is scanned next and matches again, and does not terminate. A `'\0'` pattern whose rewrites stay inside the line is modelled: "\0ab" with "x" gives "xab".
- Editor.TextEditor.FindPrevious: requires the recorded line to be at most the line count; the source indexes past the end otherwise.
- Editor.TextEditor.LoadFromFile: requires a non-empty file text. `updateStatus` reads `lines[0]` of the empty document an empty file loads.
- Buffers.DeleteLine: sets the cursor to null when an earlier line goes under a current line that is not the last; the source's `Cursor` stays on a live cell of the line above, which an index into the current line cannot express.
- Editor.TextEditor.DeleteLineNumber: after removing an earlier line under a current line that is not the last, the cursor is null. In the source a later `insert`, `deleteCharacterAtCursor` or motion acts through `Cursor` on the line above; the model acts on the current line as from a null cursor. After removing the current line the source's `Cursor` dangles.
- LineReplace.Remap: maps a detached cell to a null cursor; the source keeps `Cursor` on the detached cell.
- Editor.TextEditor.ReplaceFirst: when the relink detaches the cursor's cell, the cursor becomes null. In the source the cell is not freed, so a later `insert` goes into the detached cells and the line does not change; the model inserts at the line's head.
- Editor.TextEditor.ReplaceAll: the same as for ReplaceFirst when a relink detaches the cursor's cell.
- Editor.TextEditor.IndentLine: requires, for an unindent, that the line is not a single space under the cursor (`UnindentSafe`). `deleteCharacterAtCursor` then sets the head to null and writes through it (lines 713-714).
- Edits.Unindent: requires `UnindentSafe`, for the null write at lines 713-714 described for IndentLine.
- Edits.UnindentTimes: requires `UnindentsSafe`, that is `UnindentSafe` before each of the unindents, for the same null write at lines 713-714.
- Editor.TextEditor.Replace: the cursor after a rebuild of the current line is set to null. In the source it dangles; the model's choice for freed cells is explained above.
- Commands.CommandMode.AddCommandToHistory: requires the new history size to fit the `int` index; the source's conversion would overflow.
- Integer widths are not modelled, except the `size_t` wrap of the `getNextCommand` guard (`Commands.SizeT`): line and column numbers are unbounded.

## Findings

| source | as written | input that shows it | evidently intended | confidence | as-written member | corrected member |
|---|---|---|---|---|---|---|
| Vim_Editor.cpp:1109-1129 | the `:s/` splitter demands that the first and the last '/' of the text after "s/" be different slashes | `:s/old/new` | accept `:s/old/new` as a first-occurrence replacement, as the usage message at line 1129 and the history entry at line 1126 say | not executed | Commands.ShortFormRejected | Commands.ParseSubstituteFixedRoundTrip |

