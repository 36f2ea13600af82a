/** The editor: the document, the current line and cursor, the mode, the copy
    buffer and the status line, with the file manager and the search engine
    it drives. Each operation is proved to have the effect the value-level
    definitions of Buffers, Motion, Edits and LineReplace give it. */
module Editor {
  import opened Wrappers
  import opened Text
  import opened Chars
  import opened Files
  import opened Matching
  import opened Find
  import opened Search
  import opened Buffers
  import opened LineReplace
  import Motion
  import Edits

  /** The status line: the mode, the 1-based cursor line and column, the
      number of lines and the name of the last command. */
  datatype EditorStatus = EditorStatus(currentMode: string, cursorLine: nat, cursorColumn: nat,
                                       totalLines: nat, lastCommand: string)

  /** The status `updateStatus` computes for the document `b`, with `command`
      as the name of the last command. */
  function StatusOf(b: Buffer, insertMode: bool, command: string): (s: EditorStatus)
    requires b.Valid()
    ensures s.currentMode == (if insertMode then "INSERT" else "NORMAL")
    ensures 1 <= s.cursorLine <= s.totalLines && s.totalLines == |b.lines| && s.cursorLine == b.line + 1
    ensures 1 <= s.cursorColumn <= |b.Current()| + 1
    ensures b.cursor.Some? ==> s.cursorColumn == b.cursor.value + 1
    ensures s.lastCommand == command
  {
    EditorStatus(if insertMode then "INSERT" else "NORMAL", b.line + 1, Motion.CursorColumn(b.Current(), b.cursor),
                 |b.lines|, command)
  }

  /** The status label of `deleteLineNumber(n)`. */
  function DeletedLabel(n: nat): string
  {
    "Deleted line " + NatToDecimal(n)
  }

  /** The status label of `indentLine(increase)`. */
  function IndentLabel(increase: bool): string
  {
    if increase then "Indented line" else "Unindented line"
  }

  /** The document while the split of an insertion moves the cells after the
      new one: `head` ends with the new cell, the first `j` cells of `tail`
      have been typed into the lines below it and the others still follow
      `head`. */
  function Moving(pre: seq<Line>, head: Line, tail: Line, j: nat, post: seq<Line>): (m: Buffer)
    requires j <= |tail|
    ensures m.Valid()
  {
    var t := Typed(tail[..j]);
    SpliceAround(pre + [head + tail[j..]], t, post);
    Buffer(pre + [head + tail[j..]] + t + post, |pre| + |t|, EndCursor(Last(t)))
  }

  /** Replacing the element after `a` in `a + [x] + b + c`. */
  lemma UpdateAfter(a: seq<Line>, x: Line, y: Line, b: seq<Line>, c: seq<Line>)
    ensures (a + [x] + b + c)[|a| := y] == a + [y] + b + c
  {
    var s := a + [x] + b + c;
    assert s == a + ([x] + (b + c));
    assert a + [y] + b + c == a + ([y] + (b + c));
  }

  /** The split right after the new line was opened. */
  lemma SplitStart(b: Buffer, ch: char)
    requires b.Valid()
    ensures var p := Place(b, ch);
            var k := PlacedIndex(b);
            var placed := p.Current();
            Edits.NewLine(Buffer(p.lines, p.line, None))
              == Moving(b.lines[..b.line], placed[..k + 1], placed[k + 1..], 0, b.lines[b.line + 1..])
  {
    var p := Place(b, ch);
    var k := PlacedIndex(b);
    var placed := p.Current();
    var pre := b.lines[..b.line];
    var post := b.lines[b.line + 1..];
    assert placed[..k + 1] + placed[k + 1..][0..] == placed;
    assert p.lines == pre + [placed] + post;
    assert p.lines[..p.line + 1] == pre + [placed];
    assert p.lines[p.line + 1..] == post;
    assert Typed(placed[k + 1..][..0]) == [[]];
  }

  /** One step of the split: the cell after `head` is typed below, then
      unlinked from the line of `head`. */
  lemma SplitStep(pre: seq<Line>, head: Line, tail: Line, j: nat, post: seq<Line>)
    requires j < |tail| && head != []
    ensures var m := Moving(pre, head, tail, j, post);
            var x := head + tail[j..];
            && |pre| < m.line && m.lines[|pre|] == x
            && |m.Current()| == PlacedIndex(m)
            && x[|head|] == tail[j]
            && x[..|head|] + x[|head| + 1..] == head + tail[j + 1..]
            && var r := InsertChar(m, tail[j]);
               && |pre| < r.line && r.lines[|pre|] == x
               && Buffer(r.lines[|pre| := head + tail[j + 1..]], r.line, r.cursor)
                    == Moving(pre, head, tail, j + 1, post)
  {
    var x := head + tail[j..];
    var t := Typed(tail[..j]);
    var m := Moving(pre, head, tail, j, post);
    var b := Buffer(pre + [x] + [[]] + post, |pre| + 1, None);
    assert b.lines[..b.line] == pre + [x];
    assert b.lines[b.line + 1..] == post;
    TypeOneMore(b, tail[..j], tail[j], m);
    assert tail[..j] + [tail[j]] == tail[..j + 1];
    var t2 := Typed(tail[..j + 1]);
    var r := InsertChar(m, tail[j]);
    assert r.lines == pre + [x] + t2 + post;
    UpdateAfter(pre, x, head + tail[j + 1..], t2, post);
    assert x[..|head|] == head;
    assert x[|head| + 1..] == tail[j + 1..];
    if Last(t) != [] {
      assert PlacedIndex(m) == |Last(t)|;
    }
  }

  /** A line that stays within 30 cells only receives the new cell. */
  lemma InsertWithoutSplit(b: Buffer, ch: char)
    requires b.Valid() && |Place(b, ch).Current()| <= SplitThreshold
    ensures InsertChar(b, ch) == Place(b, ch)
  {
  }

  /** The split once every cell after the new one has moved. */
  lemma SplitDone(b: Buffer, ch: char)
    requires b.Valid() && |Place(b, ch).Current()| > SplitThreshold
    ensures var p := Place(b, ch);
            var k := PlacedIndex(b);
            var placed := p.Current();
            var tail := placed[k + 1..];
            Moving(b.lines[..b.line], placed[..k + 1], tail, |tail|, b.lines[b.line + 1..]) == InsertChar(b, ch)
  {
    var p := Place(b, ch);
    var k := PlacedIndex(b);
    var placed := p.Current();
    var tail := placed[k + 1..];
    assert tail[..|tail|] == tail;
    assert placed[..k + 1] + tail[|tail|..] == placed[..k + 1];
    assert p.lines[..p.line] == b.lines[..b.line];
    assert p.lines[p.line + 1..] == b.lines[b.line + 1..];
  }

  /** The forward skip loop of the word motions: from cell `i`, on while
      the cell is in class `k` and has a successor. */
  method WalkForward(l: Line, i: nat, k: Motion.CharClass) returns (t: nat)
    requires i < |l|
    ensures t == Motion.SkipForward(l, i, k)
  {
    t := i;
    while t + 1 < |l| && Motion.InClass(l[t], k)
      invariant t < |l| && Motion.SkipForward(l, t, k) == Motion.SkipForward(l, i, k)
      decreases |l| - t
    {
      t := t + 1;
    }
  }

  /** The backward skip loop of `moveToPreviousWord`: from cell `i`, back
      while the cell is in class `k` and has a predecessor. */
  method WalkBackward(l: Line, i: nat, k: Motion.CharClass) returns (t: nat)
    requires i < |l|
    ensures t == Motion.SkipBackward(l, i, k)
  {
    t := i;
    while t > 0 && Motion.InClass(l[t], k)
      invariant t < |l| && Motion.SkipBackward(l, t, k) == Motion.SkipBackward(l, i, k)
    {
      t := t - 1;
    }
  }

  /** The skip loop of `moveToWordEnd`: from cell `i`, on while the next
      cell is in class `k`. */
  method WalkAhead(l: Line, i: nat, k: Motion.CharClass) returns (t: nat)
    requires i < |l|
    ensures t == Motion.SkipAhead(l, i, k)
  {
    t := i;
    while t + 1 < |l| && Motion.InClass(l[t + 1], k)
      invariant t < |l| && Motion.SkipAhead(l, t, k) == Motion.SkipAhead(l, i, k)
      decreases |l| - t
    {
      t := t + 1;
    }
  }

  class TextEditor {
    var lines: seq<Line>
    var currentLine: nat
    var cursor: Option<nat>
    var insertMode: bool
    var copyBuffer: string
    var status: EditorStatus
    const fileManager: FileManager
    const searchEngine: SearchEngine

    /** The document, its current line and cursor, as a value. */
    function Buf(): Buffer
      reads this
    {
      Buffer(lines, currentLine, cursor)
    }

    predicate Valid()
      reads this
    {
      Buf().Valid()
    }

    /** One empty line, no cursor, normal mode, nothing copied, nothing
        modified. */
    constructor ()
      ensures Valid() && Buf() == Buffer([[]], 0, None)
      ensures !insertMode && copyBuffer == ""
      ensures status == EditorStatus("NORMAL", 1, 1, 1, "")
      ensures fresh(fileManager) && !fileManager.modified && fileManager.currentFileName == ""
      ensures fresh(searchEngine) && searchEngine.lastMatchLine == 0 && searchEngine.lastMatchColumn == 0
    {
      lines := [[]];
      currentLine := 0;
      cursor := None;
      insertMode := false;
      copyBuffer := "";
      status := EditorStatus("", 0, 0, 0, "");
      fileManager := new FileManager();
      searchEngine := new SearchEngine();
      new;
      UpdateStatus("");
    }

    // -------------------------------------------------------------------
    // Status

    /** `updateStatus`: the status line describes the document as it is now. */
    method UpdateStatus(command: string)
      requires Valid()
      modifies this
      ensures Valid() && Buf() == old(Buf())
      ensures insertMode == old(insertMode) && copyBuffer == old(copyBuffer)
      ensures status == StatusOf(Buf(), insertMode, if command == [] then old(status).lastCommand else command)
    {
      var column := GetCursorColumn();
      var last := if command == [] then status.lastCommand else command;
      status := EditorStatus(if insertMode then "INSERT" else "NORMAL", currentLine + 1, column, |lines|, last);
    }

    /** `getCursorColumn`: walks the current line up to the cursor's cell. */
    method GetCursorColumn() returns (column: nat)
      requires Valid()
      ensures column == Motion.CursorColumn(lines[currentLine], cursor)
    {
      var l := lines[currentLine];
      var i := 0;
      while i < |l| && cursor != Some(i)
        invariant i <= |l|
        invariant cursor.Some? ==> i <= cursor.value
      {
        i := i + 1;
      }
      column := i + 1;
    }

    /** `countCharactersInLine`: walks a line counting its cells. */
    method CountCharactersInLine(l: Line) returns (count: nat)
      ensures count == |l|
    {
      count := 0;
      while count < |l|
        invariant count <= |l|
      {
        count := count + 1;
      }
    }

    // -------------------------------------------------------------------
    // The modified flag and the file

    method MarkModified()
      modifies fileManager
      ensures fileManager.modified && fileManager.currentFileName == old(fileManager.currentFileName)
    {
      fileManager.MarkAsModified();
    }

    method HasUnsavedChanges() returns (r: bool)
      ensures r == fileManager.modified
    {
      r := fileManager.HasUnsavedChanges();
    }

    method GetFileName() returns (name: string)
      ensures name == fileManager.currentFileName
    {
      name := fileManager.currentFileName;
    }

    /** `saveToFile`: the file receives every line followed by a newline when
        it can be opened; the editor itself does not change. */
    method SaveToFile(filename: string, writable: bool) returns (written: seq<char>)
      modifies fileManager
      ensures writable ==> written == SaveText(lines) && !fileManager.modified
                           && fileManager.currentFileName == filename
      ensures !writable ==> written == [] && fileManager.modified == old(fileManager.modified)
                            && fileManager.currentFileName == old(fileManager.currentFileName)
    {
      var ok;
      ok, written := fileManager.SaveFile(filename, lines, writable);
    }

    /** `loadFromFile`: a file that opens replaces the document, the first
        line becomes current with the cursor on its head. An empty file
        leaves no line, which the status update then indexes. */
    method LoadFromFile(filename: string, content: Option<seq<char>>)
      requires Valid()
      requires content.Some? ==> content.value != []
      modifies this, fileManager
      ensures Valid()
      ensures insertMode == old(insertMode) && copyBuffer == old(copyBuffer)
      ensures content.Some? ==>
                && lines == LoadText(content.value) && currentLine == 0
                && cursor == HeadCursor(lines[0])
                && !fileManager.modified && fileManager.currentFileName == filename
                && status == StatusOf(Buf(), insertMode, "File Loaded")
      ensures content.None? ==>
                && Buf() == old(Buf()) && status == old(status)
                && fileManager.modified == old(fileManager.modified)
                && fileManager.currentFileName == old(fileManager.currentFileName)
    {
      var ok, newLines := fileManager.LoadFile(filename, content, lines);
      if ok {
        lines := newLines;
        currentLine := 0;
        cursor := if lines[0] == [] then None else Some(0);
        UpdateStatus("File Loaded");
      }
    }

    // -------------------------------------------------------------------
    // Typing

    /** `insert(ch)`: the new cell is linked in after the cursor's (at the
        front without a cursor); if the line then has more than 30 cells, a
        new line is opened below it and the cells after the new one are
        typed into it one by one, each unlinked from the old line. */
    method Insert(ch: char)
      requires Valid()
      modifies this, fileManager
      ensures Valid() && Buf() == InsertChar(old(Buf()), ch)
      ensures insertMode == old(insertMode) && copyBuffer == old(copyBuffer)
      ensures fileManager.modified && fileManager.currentFileName == old(fileManager.currentFileName)
      ensures status == StatusOf(Buf(), insertMode, "Insert")
      decreases |lines[currentLine]| - PlacedIndex(Buf()), 2
    {
      ghost var b0 := Buf();
      var l := lines[currentLine];
      var k := if l == [] || cursor.None? then 0 else cursor.value + 1;
      lines := lines[currentLine := l[..k] + [ch] + l[k..]];
      cursor := Some(k);
      assert Buf() == Place(b0, ch);
      var n := CountCharactersInLine(lines[currentLine]);
      if n > SplitThreshold {
        SplitLine(b0, ch);
      } else {
        InsertWithoutSplit(b0, ch);
      }
      MarkModified();
      UpdateStatus("Insert");
    }

    /** The split of `insert`: the cursor's cell is the new one, on a line
        of more than 30 cells. A new line is opened below it, then the cells
        after the new one move there. */
    method SplitLine(ghost b0: Buffer, ghost ch: char)
      requires Valid() && b0.Valid() && Buf() == Place(b0, ch)
      requires |Place(b0, ch).Current()| > SplitThreshold
      modifies this, fileManager
      ensures Valid() && Buf() == InsertChar(b0, ch)
      ensures insertMode == old(insertMode) && copyBuffer == old(copyBuffer)
      ensures fileManager.currentFileName == old(fileManager.currentFileName)
      decreases |b0.Current()| - PlacedIndex(b0), 1
    {
      var lineIdx := currentLine;
      var temp := cursor.value;
      ghost var placed := lines[lineIdx];
      ghost var pre := b0.lines[..b0.line];
      ghost var post := b0.lines[b0.line + 1..];
      cursor := None;
      NewLine();
      cursor := HeadCursor(lines[currentLine]);
      SplitStart(b0, ch);
      MoveCells(lineIdx, temp, pre, placed[..temp + 1], placed[temp + 1..], post);
      SplitDone(b0, ch);
    }

    /** The loop of the split: while the new cell at index `temp` of line
        `lineIdx` has a successor, that successor's character is typed into
        the lines below and the cell is unlinked. */
    method MoveCells(lineIdx: nat, temp: nat, ghost pre: seq<Line>, ghost head: Line, ghost tail: Line,
                     ghost post: seq<Line>)
      requires lineIdx == |pre| && temp + 1 == |head|
      requires Buf() == Moving(pre, head, tail, 0, post)
      modifies this, fileManager
      ensures Buf() == Moving(pre, head, tail, |tail|, post)
      ensures insertMode == old(insertMode) && copyBuffer == old(copyBuffer)
      ensures fileManager.currentFileName == old(fileManager.currentFileName)
      decreases |tail|, 0
    {
      ghost var j := 0;
      while temp + 1 < |lines[lineIdx]|
        invariant MovedCells(pre, head, tail, j, post, old(insertMode), old(copyBuffer), old(fileManager.currentFileName))
        decreases |tail| - j
      {
        SplitStep(pre, head, tail, j, post);
        Insert(lines[lineIdx][temp + 1]);
        ghost var r := Buf();
        var row := lines[lineIdx];
        lines := lines[lineIdx := row[..temp + 1] + row[temp + 2..]];
        assert Buf() == Buffer(r.lines[|pre| := head + tail[j + 1..]], r.line, r.cursor);
        j := j + 1;
      }
    }

    /** Where the loop of the split stands once `j` cells have moved. */
    predicate MovedCells(pre: seq<Line>, head: Line, tail: Line, j: nat, post: seq<Line>,
                         insertMode0: bool, copyBuffer0: string, fileName0: string)
      reads this, fileManager
    {
      && j <= |tail| && Buf() == Moving(pre, head, tail, j, post)
      && insertMode == insertMode0 && copyBuffer == copyBuffer0
      && fileManager.currentFileName == fileName0
    }

    // -------------------------------------------------------------------
    // Moves

    method MoveUp()
      requires Valid()
      modifies this
      ensures Valid() && Buf() == Motion.MoveUp(old(Buf()))
      ensures insertMode == old(insertMode) && copyBuffer == old(copyBuffer) && status == old(status)
    {
      if currentLine > 0 {
        currentLine := currentLine - 1;
        cursor := HeadCursor(lines[currentLine]);
      }
    }

    method MoveDown()
      requires Valid()
      modifies this
      ensures Valid() && Buf() == Motion.MoveDown(old(Buf()))
      ensures insertMode == old(insertMode) && copyBuffer == old(copyBuffer) && status == old(status)
    {
      if currentLine < |lines| - 1 {
        currentLine := currentLine + 1;
        cursor := HeadCursor(lines[currentLine]);
      }
    }

    /** `moveRight` and `moveLeft` step the iterator, which stays put at the
        ends of the chain. */
    method MoveRight()
      requires Valid()
      modifies this
      ensures Valid() && Buf() == Motion.MoveRight(old(Buf()))
      ensures insertMode == old(insertMode) && copyBuffer == old(copyBuffer) && status == old(status)
    {
      if cursor.Some? {
        var c := cursor.value;
        if c + 1 < |lines[currentLine]| {
          cursor := Some(c + 1);
        }
      }
    }

    method MoveLeft()
      requires Valid()
      modifies this
      ensures Valid() && Buf() == Motion.MoveLeft(old(Buf()))
      ensures insertMode == old(insertMode) && copyBuffer == old(copyBuffer) && status == old(status)
    {
      if cursor.Some? {
        var c := cursor.value;
        if c > 0 {
          cursor := Some(c - 1);
        }
      }
    }

    /** `moveToColumn`: from the head, step `column` cells or until the
        walk leaves the line. The old cursor plays no part. */
    method MoveToColumn(column: nat)
      requires currentLine < |lines|
      modifies this
      ensures Valid() && lines == old(lines) && currentLine == old(currentLine)
      ensures cursor == Motion.ColumnCursor(lines[currentLine], column)
      ensures insertMode == old(insertMode) && copyBuffer == old(copyBuffer) && status == old(status)
    {
      var l := lines[currentLine];
      var walk := if l == [] then None else Some(0);
      var i := 0;
      while i < column && walk.Some?
        invariant i <= column
        invariant walk == Motion.ColumnCursor(l, i)
      {
        walk := if walk.value + 1 < |l| then Some(walk.value + 1) else None;
        i := i + 1;
      }
      cursor := walk;
    }

    method MoveToStartOfLine()
      requires Valid()
      modifies this
      ensures Valid() && Buf() == Motion.StartOfLine(old(Buf()))
      ensures insertMode == old(insertMode) && copyBuffer == old(copyBuffer) && status == old(status)
    {
      if lines[currentLine] != [] {
        cursor := Some(0);
      }
    }

    /** `moveToEndOfLine`: walks to the last cell. */
    method MoveToEndOfLine()
      requires Valid()
      modifies this
      ensures Valid() && Buf() == Motion.EndOfLine(old(Buf()))
      ensures insertMode == old(insertMode) && copyBuffer == old(copyBuffer) && status == old(status)
    {
      var l := lines[currentLine];
      if l == [] {
        return;
      }
      var t := 0;
      while t + 1 < |l|
        invariant t < |l|
      {
        t := t + 1;
      }
      cursor := Some(t);
    }

    /** `moveToNextWord`: the three skip loops over non-letters, letters and
        non-letters, or a move to the next line. */
    method MoveToNextWord()
      requires Valid()
      requires cursor.None? ==> currentLine + 1 < |lines|
      modifies this
      ensures Valid() && Buf() == Motion.NextWord(old(Buf()))
      ensures insertMode == old(insertMode) && copyBuffer == old(copyBuffer) && status == old(status)
    {
      if cursor.None? {
        currentLine := currentLine + 1;
        cursor := HeadCursor(lines[currentLine]);
        return;
      }
      var l := lines[currentLine];
      var c := cursor.value;
      if c + 1 == |l| {
        if currentLine + 1 < |lines| {
          currentLine := currentLine + 1;
          cursor := HeadCursor(lines[currentLine]);
        }
        return;
      }
      var t1 := WalkForward(l, c, Motion.NonWord);
      var t2 := WalkForward(l, t1, Motion.Word);
      var t := WalkForward(l, t2, Motion.NonWord);
      cursor := Some(t);
    }

    /** `moveToPreviousWord`: back over separators and letters, or a move to
        the end of the previous line. */
    method MoveToPreviousWord()
      requires Valid()
      requires cursor.None? ==> currentLine > 0
      modifies this
      ensures Valid() && Buf() == Motion.PreviousWord(old(Buf()))
      ensures insertMode == old(insertMode) && copyBuffer == old(copyBuffer) && status == old(status)
    {
      if cursor.None? || cursor.value == 0 {
        if currentLine > 0 {
          currentLine := currentLine - 1;
          cursor := HeadCursor(lines[currentLine]);
          MoveToEndOfLine();
        }
        return;
      }
      var l := lines[currentLine];
      var c := cursor.value;
      var t1 := WalkBackward(l, c, Motion.Separator);
      var t := WalkBackward(l, t1, Motion.Word);
      if !IsWordCharacter(l[t]) && t + 1 < |l| {
        t := t + 1;
      }
      cursor := Some(t);
    }

    /** `moveToWordEnd`: forward while the next cell is a separator, then
        while it is a letter. */
    method MoveToWordEnd()
      requires Valid()
      modifies this
      ensures Valid() && Buf() == Motion.WordEnd(old(Buf()))
      ensures insertMode == old(insertMode) && copyBuffer == old(copyBuffer) && status == old(status)
    {
      if cursor.None? || cursor.value + 1 == |lines[currentLine]| {
        return;
      }
      var l := lines[currentLine];
      var c := cursor.value;
      var t1 := WalkAhead(l, c, Motion.Separator);
      var t := WalkAhead(l, t1, Motion.Word);
      cursor := Some(t);
    }

    // -------------------------------------------------------------------
    // Lines

    /** `newLine`: an empty line below the current one becomes current. */
    method NewLine()
      requires Valid()
      modifies this
      ensures Valid() && Buf() == Edits.NewLine(old(Buf()))
      ensures insertMode == old(insertMode) && copyBuffer == old(copyBuffer) && status == old(status)
    {
      lines := lines[..currentLine + 1] + [[]] + lines[currentLine + 1..];
      currentLine := currentLine + 1;
      cursor := None;
    }

    /** `joinLines`: walks to the current line's last cell, links the next
        line after it and removes the next line from the document. */
    method JoinLines()
      requires Valid()
      modifies this, fileManager
      ensures Valid() && Buf() == Edits.JoinLines(old(Buf()))
      ensures insertMode == old(insertMode) && copyBuffer == old(copyBuffer)
      ensures fileManager.currentFileName == old(fileManager.currentFileName)
      ensures old(currentLine + 1 < |lines|) ==>
                fileManager.modified && status == StatusOf(Buf(), insertMode, "Joined lines")
      ensures old(currentLine + 1 >= |lines|) ==>
                fileManager.modified == old(fileManager.modified) && status == old(status)
    {
      if currentLine + 1 < |lines| {
        var l := lines[currentLine];
        var next := lines[currentLine + 1];
        var e := 0;
        while e + 1 < |l|
          invariant l == [] || e < |l|
        {
          e := e + 1;
        }
        var joined := if l != [] then l[..e + 1] + next else l;
        assert l != [] ==> l[..e + 1] == l;
        lines := lines[..currentLine] + [joined] + lines[currentLine + 2..];
        MarkModified();
        UpdateStatus("Joined lines");
      }
    }

    /** `deleteLineNumber(n)`: removes line `n` (1-based); out of range it
        changes nothing. Removing the only line is excluded. */
    method DeleteLineNumber(n: nat)
      requires Valid()
      requires 1 <= n <= |lines| ==> |lines| > 1
      modifies this, fileManager
      ensures Valid()
      ensures insertMode == old(insertMode) && copyBuffer == old(copyBuffer)
      ensures fileManager.currentFileName == old(fileManager.currentFileName)
      ensures old(1 <= n <= |lines|) ==>
                && Buf() == DeleteLine(old(Buf()), n - 1) && fileManager.modified
                && status == StatusOf(Buf(), insertMode, DeletedLabel(n))
      ensures old(n < 1 || n > |lines|) ==>
                Buf() == old(Buf()) && status == old(status) && fileManager.modified == old(fileManager.modified)
    {
      if n < 1 || n > |lines| {
        return;
      }
      var d := n - 1;
      var wasCurrent := currentLine;
      lines := lines[..d] + lines[d + 1..];
      if currentLine >= |lines| {
        currentLine := |lines| - 1;
      }
      // The cursor's cell is on the current line only when a later line went,
      // or when the clamp moved the index back onto the cursor's own line.
      if !(d > wasCurrent || (d < wasCurrent && wasCurrent == |lines|)) {
        cursor := None;
      }
      MarkModified();
      UpdateStatus(DeletedLabel(d + 1));
    }

    // -------------------------------------------------------------------
    // Deleting characters

    /** `deleteCharacterAtCursor`: unlinks the cursor's cell; nothing
        happens without a cursor. */
    method DeleteCharacterAtCursor()
      requires Valid()
      requires cursor.Some? ==> |lines[currentLine]| != 1
      modifies this, fileManager
      ensures Valid() && Buf() == DeleteAtCursor(old(Buf()))
      ensures insertMode == old(insertMode) && copyBuffer == old(copyBuffer) && status == old(status)
      ensures fileManager.currentFileName == old(fileManager.currentFileName)
      ensures fileManager.modified == (old(fileManager.modified) || old(cursor.Some?))
    {
      var l := lines[currentLine];
      if l == [] || cursor.None? {
        return;
      }
      var c := cursor.value;
      if c == 0 {
        lines := lines[currentLine := l[1..]];
        cursor := Some(0);
      } else if c == |l| - 1 {
        lines := lines[currentLine := l[..c]];
        cursor := Some(c - 1);
      } else {
        lines := lines[currentLine := l[..c] + l[c + 1..]];
        cursor := Some(c);
      }
      MarkModified();
    }

    /** `backspace`: unlinks the cell before the cursor's. The modified flag
        is not set. */
    method Backspace()
      requires Valid() && cursor.Some? && cursor.value != 1
      modifies this
      ensures Valid() && Buf() == Edits.Backspace(old(Buf()))
      ensures insertMode == old(insertMode) && copyBuffer == old(copyBuffer) && status == old(status)
    {
      var c := cursor.value;
      if c == 0 {
        return;
      }
      var l := lines[currentLine];
      lines := lines[currentLine := l[..c - 1] + l[c..]];
      cursor := Some(c - 1);
    }

    // -------------------------------------------------------------------
    // Yank and paste

    /** `yankLine`: copies every cell of the current line but the last. */
    method YankLine()
      requires Valid()
      modifies this
      ensures Buf() == old(Buf()) && insertMode == old(insertMode) && status == old(status)
      ensures copyBuffer == Edits.Yanked(lines[currentLine], old(copyBuffer))
    {
      var l := lines[currentLine];
      if l == [] {
        return;
      }
      var copied := [];
      var t := 0;
      while t + 1 < |l|
        invariant t < |l| && copied == l[..t]
      {
        copied := copied + [l[t]];
        t := t + 1;
      }
      copyBuffer := copied;
    }

    /** Types `s` character by character from the current state. */
    method TypeAll(s: string)
      requires Valid()
      modifies this, fileManager
      ensures Valid() && Buf() == TypeText(old(Buf()), s)
      ensures insertMode == old(insertMode) && copyBuffer == old(copyBuffer)
      ensures fileManager.currentFileName == old(fileManager.currentFileName)
      ensures s != [] ==> fileManager.modified && status == StatusOf(Buf(), insertMode, "Insert")
      ensures s == [] ==> fileManager.modified == old(fileManager.modified) && status == old(status)
    {
      ghost var b0 := Buf();
      for i := 0 to |s|
        invariant TypedFrom(b0, s[..i], old(status), old(fileManager.modified))
        invariant insertMode == old(insertMode) && copyBuffer == old(copyBuffer)
        invariant fileManager.currentFileName == old(fileManager.currentFileName)
      {
        assert s[..i + 1] == s[..i] + [s[i]];
        TypeOne(b0, s[..i], s[i], old(status), old(fileManager.modified));
      }
      assert s[..|s|] == s;
    }

    /** Where the typing loop stands once `typed` has been typed from `b0`,
        whose status and modified mark were `status0` and `modified0`. */
    predicate TypedFrom(b0: Buffer, typed: string, status0: EditorStatus, modified0: bool)
      reads this, fileManager
    {
      && Valid() && b0.Valid() && Buf() == TypeText(b0, typed)
      && (typed != [] ==> fileManager.modified && status == StatusOf(Buf(), insertMode, "Insert"))
      && (typed == [] ==> fileManager.modified == modified0 && status == status0)
    }

    /** One round of the typing loop: the next character of the text. */
    method TypeOne(ghost b0: Buffer, ghost typed: string, ch: char, ghost status0: EditorStatus, ghost modified0: bool)
      requires TypedFrom(b0, typed, status0, modified0)
      modifies this, fileManager
      ensures TypedFrom(b0, typed + [ch], status0, modified0)
      ensures insertMode == old(insertMode) && copyBuffer == old(copyBuffer)
      ensures fileManager.currentFileName == old(fileManager.currentFileName)
    {
      assert (typed + [ch])[..|typed|] == typed;
      Insert(ch);
    }

    /** `pasteAfter`: a new line below, into which the copy buffer is typed. */
    method PasteAfter()
      requires Valid()
      modifies this, fileManager
      ensures Valid() && Buf() == Edits.PasteAfter(old(Buf()), copyBuffer)
      ensures insertMode == old(insertMode) && copyBuffer == old(copyBuffer)
      ensures fileManager.currentFileName == old(fileManager.currentFileName)
      ensures copyBuffer != [] ==> fileManager.modified && status == StatusOf(Buf(), insertMode, "Insert")
      ensures copyBuffer == [] ==> fileManager.modified == old(fileManager.modified) && status == old(status)
    {
      if copyBuffer == [] {
        return;
      }
      NewLine();
      TypeAll(copyBuffer);
    }

    /** `pasteBefore`: below the first line, a new line above the current
        one; on the first line, after the head cell of that line. */
    method PasteBefore()
      requires Valid()
      modifies this, fileManager
      ensures Valid() && Buf() == Edits.PasteBefore(old(Buf()), copyBuffer)
      ensures insertMode == old(insertMode) && copyBuffer == old(copyBuffer)
      ensures fileManager.currentFileName == old(fileManager.currentFileName)
      ensures copyBuffer != [] ==> fileManager.modified && status == StatusOf(Buf(), insertMode, "Insert")
      ensures copyBuffer == [] ==> fileManager.modified == old(fileManager.modified) && status == old(status)
    {
      ghost var b := Buf();
      if currentLine > 0 {
        currentLine := currentLine - 1;
        cursor := HeadCursor(lines[currentLine]);
        assert Buf() == Buffer(b.lines, b.line - 1, HeadCursor(b.lines[b.line - 1]));
        NewLine();
        TypeAll(copyBuffer);
      } else {
        cursor := HeadCursor(lines[currentLine]);
        assert Buf() == Buffer(b.lines, b.line, HeadCursor(b.Current()));
        TypeAll(copyBuffer);
      }
    }

    // -------------------------------------------------------------------
    // Indentation and counted commands

    /** `indentLine`: on a non-empty line, types a space after the cursor or
        deletes the cursor's character if the line starts with a space; the
        line counts as modified either way. */
    method IndentLine(increase: bool)
      requires Valid()
      requires !increase ==> Edits.UnindentSafe(Buf())
      modifies this, fileManager
      ensures Valid()
      ensures Buf() == if increase then Edits.Indent(old(Buf())) else Edits.Unindent(old(Buf()))
      ensures insertMode == old(insertMode) && copyBuffer == old(copyBuffer)
      ensures fileManager.currentFileName == old(fileManager.currentFileName)
      ensures old(lines[currentLine]) != [] ==>
                fileManager.modified
                && status == StatusOf(Buf(), insertMode, IndentLabel(increase))
      ensures old(lines[currentLine]) == [] ==> fileManager.modified == old(fileManager.modified) && status == old(status)
    {
      var l := lines[currentLine];
      if l == [] {
        return;
      }
      if increase {
        Insert(' ');
      } else if l[0] == ' ' {
        DeleteCharacterAtCursor();
      }
      MarkModified();
      UpdateStatus(IndentLabel(increase));
    }

    /** `executeWithCount`: repeats `dd`, `j`, `>>` or `<<` `count` times;
        `yy`, any other command and a count below one do nothing. A `dd`
        count reaching the number of lines, and unindents that would unlink
        the only cell of a line, are excluded. */
    method ExecuteWithCount(count: int, cmd: string)
      requires Valid()
      requires cmd == "dd" && count > 0 ==> count < |lines|
      requires cmd == "<<" && count > 0 ==> Edits.UnindentsSafe(Buf(), count)
      modifies this, fileManager
      ensures Valid()
      ensures insertMode == old(insertMode) && copyBuffer == old(copyBuffer)
      ensures fileManager.currentFileName == old(fileManager.currentFileName)
      ensures cmd == "dd" && count > 0 ==>
                && Buf() == Edits.DeleteLines(old(Buf()), count) && fileManager.modified
                && status == StatusOf(Buf(), insertMode,
                                      DeletedLabel(Edits.DeleteLines(old(Buf()), count - 1).line + 1))
      ensures cmd == "j" && count > 0 ==>
                Buf() == Edits.MoveDownTimes(old(Buf()), count)
                && fileManager.modified == old(fileManager.modified) && status == old(status)
      ensures cmd == ">>" && count > 0 ==>
                && Buf() == Edits.IndentTimes(old(Buf()), count)
                && (old(lines[currentLine]) != [] ==>
                      fileManager.modified && status == StatusOf(Buf(), insertMode, "Indented line"))
                && (old(lines[currentLine]) == [] ==>
                      Buf() == old(Buf()) && fileManager.modified == old(fileManager.modified) && status == old(status))
      ensures cmd == "<<" && count > 0 ==>
                && Buf() == Edits.UnindentTimes(old(Buf()), count)
                && (old(lines[currentLine]) != [] ==>
                      fileManager.modified && status == StatusOf(Buf(), insertMode, "Unindented line"))
                && (old(lines[currentLine]) == [] ==>
                      Buf() == old(Buf()) && fileManager.modified == old(fileManager.modified) && status == old(status))
      ensures (count <= 0 || (cmd != "dd" && cmd != "j" && cmd != ">>" && cmd != "<<")) ==>
                Buf() == old(Buf()) && fileManager.modified == old(fileManager.modified) && status == old(status)
    {
      if count <= 0 {
        return;
      }
      if cmd == "dd" {
        RepeatDeleteLine(count);
      } else if cmd == "j" {
        RepeatMoveDown(count);
      } else if cmd == ">>" {
        RepeatIndent(count, true);
      } else if cmd == "<<" {
        RepeatIndent(count, false);
      }
    }

    /** The `dd` loop: `deleteLineNumber(current_line + 1)` `count` times. */
    method RepeatDeleteLine(count: nat)
      requires Valid() && 0 < count < |lines|
      modifies this, fileManager
      ensures Valid() && Buf() == Edits.DeleteLines(old(Buf()), count) && fileManager.modified
      ensures status == StatusOf(Buf(), insertMode,
                                 DeletedLabel(Edits.DeleteLines(old(Buf()), count - 1).line + 1))
      ensures insertMode == old(insertMode) && copyBuffer == old(copyBuffer)
      ensures fileManager.currentFileName == old(fileManager.currentFileName)
    {
      ghost var b0 := Buf();
      var i := 0;
      while i < count - 1
        invariant i <= count - 1
        invariant Valid() && Buf() == Edits.DeleteLines(b0, i)
        invariant insertMode == old(insertMode) && copyBuffer == old(copyBuffer)
        invariant fileManager.currentFileName == old(fileManager.currentFileName)
      {
        DeleteOnce(b0, i);
        i := i + 1;
      }
      // The last round, whose line number the status reports.
      DeleteOnce(b0, i);
    }

    /** One round of the `dd` loop, the `i`-th deletion from `b0`. */
    method DeleteOnce(ghost b0: Buffer, ghost i: nat)
      requires Valid() && b0.Valid() && i + 1 < |b0.lines| && Buf() == Edits.DeleteLines(b0, i)
      modifies this, fileManager
      ensures Valid() && Buf() == Edits.DeleteLines(b0, i + 1) && fileManager.modified
      ensures status == StatusOf(Buf(), insertMode, DeletedLabel(old(currentLine) + 1))
      ensures insertMode == old(insertMode) && copyBuffer == old(copyBuffer)
      ensures fileManager.currentFileName == old(fileManager.currentFileName)
    {
      Edits.DeleteLinesStep(b0, i);
      DeleteLineNumber(currentLine + 1);
    }

    /** The `j` loop: `moveDown` `count` times. */
    method RepeatMoveDown(count: nat)
      requires Valid()
      modifies this
      ensures Valid() && Buf() == Edits.MoveDownTimes(old(Buf()), count)
      ensures insertMode == old(insertMode) && copyBuffer == old(copyBuffer) && status == old(status)
    {
      ghost var b0 := Buf();
      var i := 0;
      while i < count
        invariant i <= count
        invariant Valid() && Buf() == Edits.MoveDownTimes(b0, i)
        invariant insertMode == old(insertMode) && copyBuffer == old(copyBuffer) && status == old(status)
      {
        MoveDown();
        i := i + 1;
      }
    }

    /** The `>>` and `<<` loops: `indentLine` `count` times. After the first
        call that finds the current line empty, every later one does nothing. */
    method RepeatIndent(count: nat, increase: bool)
      requires Valid() && count > 0
      requires !increase ==> Edits.UnindentsSafe(Buf(), count)
      modifies this, fileManager
      ensures Valid()
      ensures increase ==> Buf() == Edits.IndentTimes(old(Buf()), count)
      ensures !increase ==> Buf() == Edits.UnindentTimes(old(Buf()), count)
      ensures insertMode == old(insertMode) && copyBuffer == old(copyBuffer)
      ensures fileManager.currentFileName == old(fileManager.currentFileName)
      ensures old(lines[currentLine]) != [] ==>
                fileManager.modified && status == StatusOf(Buf(), insertMode, IndentLabel(increase))
      ensures old(lines[currentLine]) == [] ==>
                Buf() == old(Buf()) && fileManager.modified == old(fileManager.modified) && status == old(status)
    {
      ghost var b0 := Buf();
      // The first round, which decides whether the line counts as modified.
      IndentRound(b0, 0, count, increase, status, fileManager.modified);
      var i := 1;
      while i < count
        invariant 1 <= i <= count
        invariant IndentedFrom(b0, i, increase, old(status), old(fileManager.modified))
        invariant insertMode == old(insertMode) && copyBuffer == old(copyBuffer)
        invariant fileManager.currentFileName == old(fileManager.currentFileName)
      {
        IndentRound(b0, i, count, increase, old(status), old(fileManager.modified));
        i := i + 1;
      }
    }

    /** Where the `>>` or `<<` loop stands after `i` rounds from `b0`, whose
        status and modified mark were `status0` and `modified0`. */
    predicate IndentedFrom(b0: Buffer, i: nat, increase: bool, status0: EditorStatus, modified0: bool)
      reads this, fileManager
    {
      && Valid() && b0.Valid() && (!increase ==> Edits.UnindentsSafe(b0, i))
      && Buf() == (if increase then Edits.IndentTimes(b0, i) else Edits.UnindentTimes(b0, i))
      && (b0.Current() != [] ==> fileManager.modified && status == StatusOf(Buf(), insertMode, IndentLabel(increase)))
      && (b0.Current() == [] ==> Buf() == b0 && fileManager.modified == modified0 && status == status0)
    }

    /** One round of the `>>` and `<<` loops. */
    method IndentRound(ghost b0: Buffer, ghost i: nat, ghost count: nat, increase: bool,
                       ghost status0: EditorStatus, ghost modified0: bool)
      requires Valid() && b0.Valid() && i < count
      requires !increase ==> Edits.UnindentsSafe(b0, count)
      requires i == 0 ==> Buf() == b0 && status == status0 && fileManager.modified == modified0
      requires i > 0 ==> IndentedFrom(b0, i, increase, status0, modified0)
      modifies this, fileManager
      ensures IndentedFrom(b0, i + 1, increase, status0, modified0)
      ensures insertMode == old(insertMode) && copyBuffer == old(copyBuffer)
      ensures fileManager.currentFileName == old(fileManager.currentFileName)
    {
      if !increase {
        Edits.UnindentsSafeFewer(b0, count, i + 1);
      }
      IndentLine(increase);
    }

    // -------------------------------------------------------------------
    // Search and replace

    /** `search`: on a match the current line becomes the line of the
        document's earliest match and the cursor its first cell; without one
        only the search engine's record changes. */
    method Search(str: string)
      requires Valid()
      modifies this, searchEngine
      ensures Valid() && lines == old(lines)
      ensures insertMode == old(insertMode) && copyBuffer == old(copyBuffer)
      ensures searchEngine.lastPattern == str
      ensures (exists i, c :: 0 <= i < |lines| && MatchAt(lines[i], c, str)) ==>
                && currentLine == searchEngine.lastMatchLine
                && cursor == Some(searchEngine.lastMatchColumn)
                && MatchAt(lines[currentLine], searchEngine.lastMatchColumn, str)
                && (forall i, c :: 0 <= i < |lines| && MatchAt(lines[i], c, str) ==>
                      currentLine < i || (currentLine == i && searchEngine.lastMatchColumn <= c))
                && status == StatusOf(Buf(), insertMode, "Search: " + str)
      ensures !(exists i, c :: 0 <= i < |lines| && MatchAt(lines[i], c, str)) ==>
                && Buf() == old(Buf()) && status == old(status)
                && searchEngine.lastMatchLine == 0 && searchEngine.lastMatchColumn == 0
    {
      var found := searchEngine.DoSearch(lines, str);
      if found {
        currentLine := searchEngine.lastMatchLine;
        MoveToColumn(searchEngine.lastMatchColumn);
        UpdateStatus("Search: " + str);
      }
    }

    /** `findNext`: on a hit of the resumed forward scan the current line
        becomes the hit's line and the cursor walks to the reported column,
        which leaves the line when the column is past its end. */
    method FindNext()
      requires Valid()
      modifies this, searchEngine
      ensures Valid() && lines == old(lines)
      ensures insertMode == old(insertMode) && copyBuffer == old(copyBuffer)
      ensures searchEngine.lastPattern == old(searchEngine.lastPattern)
      ensures var r := ForwardScan(lines, searchEngine.lastPattern, true, old(searchEngine.lastMatchLine));
              && (r.Some? ==>
                    && currentLine == r.value.line == searchEngine.lastMatchLine
                    && searchEngine.lastMatchColumn
                       == ReportedColumn(r.value, old(searchEngine.lastMatchLine), old(searchEngine.lastMatchColumn))
                    && cursor == Motion.ColumnCursor(lines[currentLine], searchEngine.lastMatchColumn)
                    && status == StatusOf(Buf(), insertMode, "Find Next"))
              && (r.None? ==>
                    && Buf() == old(Buf()) && status == old(status)
                    && searchEngine.lastMatchLine == old(searchEngine.lastMatchLine)
                    && searchEngine.lastMatchColumn == old(searchEngine.lastMatchColumn))
    {
      var found := searchEngine.FindNext(lines);
      if found {
        currentLine := searchEngine.lastMatchLine;
        MoveToColumn(searchEngine.lastMatchColumn);
        UpdateStatus("Find Next");
      }
    }

    /** `findPrevious`: the forward scan of findNext, then the lines before
        the recorded one; on a hit the current line and cursor move to it.
        A recorded line beyond the document (after lines were deleted) is
        excluded: the backward scan would read past the end. */
    method FindPrevious()
      requires Valid() && searchEngine.lastMatchLine <= |lines|
      modifies this, searchEngine
      ensures Valid() && lines == old(lines)
      ensures insertMode == old(insertMode) && copyBuffer == old(copyBuffer)
      ensures searchEngine.lastPattern == old(searchEngine.lastPattern)
      ensures var f := ForwardScan(lines, searchEngine.lastPattern, true, old(searchEngine.lastMatchLine));
              var b := BackwardScan(lines, searchEngine.lastPattern, old(searchEngine.lastMatchLine));
              && (f.Some? ==>
                    && currentLine == f.value.line == searchEngine.lastMatchLine
                    && searchEngine.lastMatchColumn
                       == ReportedColumn(f.value, old(searchEngine.lastMatchLine), old(searchEngine.lastMatchColumn)))
              && (f.None? && b.Some? ==>
                    && currentLine == b.value.line == searchEngine.lastMatchLine
                    && searchEngine.lastMatchColumn == b.value.cell)
              && (f.Some? || b.Some? ==>
                    && cursor == Motion.ColumnCursor(lines[currentLine], searchEngine.lastMatchColumn)
                    && status == StatusOf(Buf(), insertMode, "Find Previous"))
              && (f.None? && b.None? ==>
                    && Buf() == old(Buf()) && status == old(status)
                    && searchEngine.lastMatchLine == old(searchEngine.lastMatchLine)
                    && searchEngine.lastMatchColumn == old(searchEngine.lastMatchColumn))
    {
      var found := searchEngine.FindPrevious(lines);
      if found {
        currentLine := searchEngine.lastMatchLine;
        MoveToColumn(searchEngine.lastMatchColumn);
        UpdateStatus("Find Previous");
      }
    }

    /** `replace`: the search engine's document-wide replace. A line it
        builds anew frees the old cells, so a cursor on the current line is
        lost when that line is rebuilt. The document is not marked
        modified. */
    method Replace(oldStr: string, newStr: string, global: bool)
      requires Valid()
      modifies this
      ensures Valid() && currentLine == old(currentLine) && |lines| == |old(lines)|
      ensures insertMode == old(insertMode) && copyBuffer == old(copyBuffer)
      ensures oldStr == [] ==> lines == old(lines)
      ensures oldStr != [] ==>
                forall i :: 0 <= i < |lines| ==> lines[i] == ReplacedLine(old(lines), oldStr, newStr, global, i)
      ensures cursor == if Rebuilt(old(lines), oldStr, global, currentLine) then None else old(cursor)
      ensures oldStr != [] && AnyContains(old(lines), oldStr, |old(lines)|) ==>
                status == StatusOf(Buf(), insertMode, "Replaced: " + oldStr + " with " + newStr)
      ensures !(oldStr != [] && AnyContains(old(lines), oldStr, |old(lines)|)) ==> status == old(status)
    {
      var result, replaced := searchEngine.Replace(lines, oldStr, newStr, global);
      var lost := Rebuilt(lines, oldStr, global, currentLine);
      if !lost && oldStr != [] {
        UnrebuiltLineKept(lines, oldStr, newStr, global, currentLine);
      }
      lines := result;
      if lost {
        cursor := None;
      }
      if replaced {
        UpdateStatus("Replaced: " + oldStr + " with " + newStr);
      }
    }

    /** `replaceFirst`: the rolling match over the current line's cells and
        the rewrite at the first match it completes. An empty new text with a
        match is excluded: it links the match start to itself. */
    method ReplaceFirst(oldText: string, newText: string)
      requires Valid()
      requires oldText != [] && FirstRolling(lines[currentLine], oldText).Some? ==> newText != []
      modifies this, fileManager
      ensures Valid() && currentLine == old(currentLine) && |lines| == |old(lines)|
      ensures insertMode == old(insertMode) && copyBuffer == old(copyBuffer)
      ensures fileManager.currentFileName == old(fileManager.currentFileName)
      ensures oldText == [] ==>
                && Buf() == old(Buf()) && fileManager.modified == old(fileManager.modified)
                && status == StatusOf(Buf(), insertMode, "Error: Search text cannot be empty.")
      ensures oldText != [] ==>
                var r := FirstRolling(old(lines[currentLine]), oldText);
                && (r.Some? ==>
                      && lines == old(lines)[currentLine := Rewritten(old(lines[currentLine]), r.value, newText)]
                      && cursor == Remap(old(cursor), r.value, |newText|)
                      && fileManager.modified
                      && status == StatusOf(Buf(), insertMode, "First occurrence replaced."))
                && (r.None? ==>
                      && Buf() == old(Buf()) && fileManager.modified == old(fileManager.modified)
                      && status == StatusOf(Buf(), insertMode, "No occurrences found to replace."))
    {
      if oldText == [] {
        UpdateStatus("Error: Search text cannot be empty.");
        return;
      }
      var l := lines[currentLine];
      var r := ScanRolling(l, oldText);
      if r.None? {
        UpdateStatus("No occurrences found to replace.");
        return;
      }
      var m := r.value;
      if cursor.Some? {
        RemapKeepsCell(l, m, newText, cursor.value);
      }
      var w := Splice(l, m, newText);
      lines := lines[currentLine := w];
      cursor := Remap(cursor, m, |newText|);
      MarkModified();
      UpdateStatus("First occurrence replaced.");
    }

    /** `replaceAll`: a one-character pattern is swept cell by cell; a
        longer one by the rolling match, which after each rewrite resumes at
        the cell that completed the match. A new text longer than the
        pattern with a match is excluded: the source's scan then walks the
        cells the relink has detached (as is an empty one, which links the
        match start to itself). */
    method ReplaceAll(oldText: string, newText: string)
      requires Valid()
      requires |oldText| == 1 ==> SweepSafe(lines[currentLine], oldText[0], newText, 0)
      requires |oldText| > 1 ==>
                 1 <= |newText| <= |oldText| || FirstRolling(lines[currentLine], oldText).None?
      modifies this, fileManager
      ensures Valid() && currentLine == old(currentLine) && |lines| == |old(lines)|
      ensures insertMode == old(insertMode) && copyBuffer == old(copyBuffer)
      ensures fileManager.currentFileName == old(fileManager.currentFileName)
      ensures oldText == [] ==>
                && Buf() == old(Buf()) && fileManager.modified == old(fileManager.modified)
                && status == StatusOf(Buf(), insertMode, "Error: Search text cannot be empty.")
      ensures |oldText| == 1 ==>
                var r := Sweep(old(lines[currentLine]), oldText[0], newText, old(cursor));
                && lines == old(lines)[currentLine := r.0] && cursor == r.1
                && (oldText[0] in old(lines[currentLine]) ==>
                      fileManager.modified && status == StatusOf(Buf(), insertMode, "All occurrences replaced."))
                && (oldText[0] !in old(lines[currentLine]) ==>
                      && fileManager.modified == old(fileManager.modified)
                      && status == StatusOf(Buf(), insertMode, "No occurrences found to replace."))
      ensures |oldText| > 1 ==>
                var r := RollingSweep(old(lines[currentLine]), oldText, newText, old(cursor));
                && lines == old(lines)[currentLine := r.0] && cursor == r.1
                && (FirstRolling(old(lines[currentLine]), oldText).Some? ==>
                      fileManager.modified && status == StatusOf(Buf(), insertMode, "All occurrences replaced."))
                && (FirstRolling(old(lines[currentLine]), oldText).None? ==>
                      && fileManager.modified == old(fileManager.modified)
                      && status == StatusOf(Buf(), insertMode, "No occurrences found to replace."))
    {
      if oldText == [] {
        UpdateStatus("Error: Search text cannot be empty.");
        return;
      }
      var found: bool;
      if |oldText| == 1 {
        var l := lines[currentLine];
        SweepKeepsCursor(l, oldText[0], newText, 0, cursor);
        var w, c;
        w, c, found := SweepLine(l, oldText[0], newText, cursor);
        lines := lines[currentLine := w];
        cursor := c;
      } else {
        var l := lines[currentLine];
        SweepRollingKeepsCursor(l, oldText, newText, 0, cursor);
        var w, c;
        w, c, found := RollingSweepLine(l, oldText, newText, cursor);
        lines := lines[currentLine := w];
        cursor := c;
      }
      UpdateStatus(if found then "All occurrences replaced." else "No occurrences found to replace.");
      if found {
        MarkModified();
      }
    }

    // -------------------------------------------------------------------
    // Mode

    method EnterInsertMode()
      modifies this
      ensures insertMode && Buf() == old(Buf()) && copyBuffer == old(copyBuffer) && status == old(status)
    {
      insertMode := true;
    }

    method ExitInsertMode()
      modifies this
      ensures !insertMode && Buf() == old(Buf()) && copyBuffer == old(copyBuffer) && status == old(status)
    {
      insertMode := false;
    }

    method IsInsertMode() returns (r: bool)
      ensures r == insertMode
    {
      r := insertMode;
    }
  }
}
