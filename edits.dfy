/** The editing operations built on typing and deleting: new line, join,
    backspace, yank and paste, indentation, and the counted commands. */
module Edits {
  import opened Wrappers
  import opened Text
  import opened Buffers
  import opened Motion

  /** `newLine`: an empty line after the current one becomes current, with a
      null cursor. */
  function NewLine(b: Buffer): (r: Buffer)
    requires b.Valid()
    ensures r.Valid()
  {
    Buffer(b.lines[..b.line + 1] + [[]] + b.lines[b.line + 1..], b.line + 1, None)
  }

  /** `joinLines`: the next line is removed from the document; its cells are
      linked after the current line's last cell, which an empty current line
      does not have, so then they are dropped. Nothing happens on the last
      line. */
  function JoinLines(b: Buffer): (r: Buffer)
    requires b.Valid()
    ensures r.Valid()
  {
    if b.line + 1 < |b.lines| then
      var l := b.Current();
      Buffer(b.lines[..b.line] + [if l == [] then [] else l + b.lines[b.line + 1]] + b.lines[b.line + 2..],
             b.line, b.cursor)
    else b
  }

  /** `backspace`: the cell before the cursor's is unlinked and the cursor
      stays on its cell. On the head cell nothing happens. A null cursor, and
      the cursor on the second cell, make the source dereference null. */
  function Backspace(b: Buffer): (r: Buffer)
    requires b.Valid() && b.cursor.Some? && b.cursor.value != 1
    ensures r.Valid()
  {
    var c := b.cursor.value;
    var l := b.Current();
    if c == 0 then b else Buffer(b.lines[b.line := l[..c - 1] + l[c..]], b.line, Some(c - 1))
  }

  /** What `yankLine` leaves in the copy buffer: every cell of a non-empty
      current line but its last; an empty line leaves the buffer as it was. */
  function Yanked(l: Line, copyBuffer: string): (r: string)
    ensures l != [] ==> |r| + 1 == |l| && forall i :: 0 <= i < |r| ==> r[i] == l[i]
    ensures l == [] ==> r == copyBuffer
  {
    if l == [] then copyBuffer else l[..|l| - 1]
  }

  /** `pasteAfter`: a new line after the current one, into which the copy
      buffer is typed. An empty copy buffer does nothing. */
  function PasteAfter(b: Buffer, copyBuffer: string): (r: Buffer)
    requires b.Valid()
    ensures r.Valid()
  {
    if copyBuffer == [] then b else TypeText(NewLine(b), copyBuffer)
  }

  /** `pasteBefore`: below the first line, a new line before the current one
      into which the copy buffer is typed (even an empty one). On the first
      line the cursor moves to its head and the copy buffer is typed after
      it. */
  function PasteBefore(b: Buffer, copyBuffer: string): (r: Buffer)
    requires b.Valid()
    ensures r.Valid()
  {
    if b.line > 0 then TypeText(NewLine(Buffer(b.lines, b.line - 1, HeadCursor(b.lines[b.line - 1]))), copyBuffer)
    else TypeText(Buffer(b.lines, b.line, HeadCursor(b.Current())), copyBuffer)
  }

  /** `indentLine(true)` on a non-empty line types a space after the cursor. */
  function Indent(b: Buffer): (r: Buffer)
    requires b.Valid()
    ensures r.Valid()
  {
    if b.Current() == [] then b else InsertChar(b, ' ')
  }

  /** `indentLine(false)` deletes the cursor's character when the line starts
      with a space, whichever cell the cursor is on. */
  predicate UnindentSafe(b: Buffer)
    requires b.Valid()
  {
    b.Current() == [] || b.Current()[0] != ' ' || b.cursor.None? || |b.Current()| != 1
  }

  function Unindent(b: Buffer): (r: Buffer)
    requires b.Valid() && UnindentSafe(b)
    ensures r.Valid()
  {
    if b.Current() != [] && b.Current()[0] == ' ' then DeleteAtCursor(b) else b
  }

  // ---------------------------------------------------------------------
  // The counted commands of `executeWithCount`

  /** `n` times `deleteLineNumber(current_line + 1)`: the current line goes. */
  function DeleteLines(b: Buffer, n: nat): (r: Buffer)
    requires b.Valid() && n < |b.lines|
    ensures r.Valid() && |r.lines| == |b.lines| - n
  {
    if n == 0 then b else DeleteLine(DeleteLines(b, n - 1), DeleteLines(b, n - 1).line)
  }

  /** One more `dd`. */
  lemma DeleteLinesStep(b: Buffer, n: nat)
    requires b.Valid() && n + 1 < |b.lines|
    ensures var p := DeleteLines(b, n);
            |p.lines| > 1 && DeleteLines(b, n + 1) == DeleteLine(p, p.line)
  {
  }

  /** `n` times `moveDown`. */
  function MoveDownTimes(b: Buffer, n: nat): (r: Buffer)
    requires b.Valid()
    ensures r.Valid()
  {
    if n == 0 then b else MoveDown(MoveDownTimes(b, n - 1))
  }

  /** `n` times `indentLine(true)`. */
  function IndentTimes(b: Buffer, n: nat): (r: Buffer)
    requires b.Valid()
    ensures r.Valid()
  {
    if n == 0 then b else Indent(IndentTimes(b, n - 1))
  }

  /** `n` times `indentLine(false)`, and when doing so never unlinks the only
      cell of a line. */
  predicate UnindentsSafe(b: Buffer, n: nat)
    requires b.Valid()
    decreases n, 0
  {
    n == 0 || (UnindentsSafe(b, n - 1) && UnindentSafe(UnindentTimes(b, n - 1)))
  }

  function UnindentTimes(b: Buffer, n: nat): (r: Buffer)
    requires b.Valid() && UnindentsSafe(b, n)
    ensures r.Valid()
    decreases n, 1
  {
    if n == 0 then b else Unindent(UnindentTimes(b, n - 1))
  }

  /** A count of unindents that is safe stays safe when made smaller. */
  lemma {:induction false} UnindentsSafeFewer(b: Buffer, n: nat, m: nat)
    requires b.Valid() && UnindentsSafe(b, n) && m <= n
    ensures UnindentsSafe(b, m)
    decreases n
  {
    if m < n {
      UnindentsSafeFewer(b, n - 1, m);
    }
  }

  // ---------------------------------------------------------------------
  // Properties

  /** Joining removes one line: a non-empty current line is followed by the
      next line's text, an empty one stays empty and the next line's text is
      lost; the lines after them move up by one. */
  lemma JoinLinesEffect(b: Buffer)
    requires b.Valid() && b.line + 1 < |b.lines|
    ensures var r := JoinLines(b);
            var l := b.Current();
            var next := b.lines[b.line + 1];
            && |r.lines| == |b.lines| - 1 && r.line == b.line && r.cursor == b.cursor
            && (forall i :: 0 <= i < b.line ==> r.lines[i] == b.lines[i])
            && (forall i :: b.line < i < |r.lines| ==> r.lines[i] == b.lines[i + 1])
            && r.Current() == (if l == [] then [] else l + next)
            && CellCount(r.lines) == CellCount(b.lines) - (if l == [] then |next| else 0)
  {
    var r := JoinLines(b);
    var l := b.Current();
    var next := b.lines[b.line + 1];
    var pre := b.lines[..b.line];
    var post := b.lines[b.line + 2..];
    assert b.lines == pre + [l, next] + post;
    assert r.lines == pre + [r.Current()] + post;
    FlattenSplice(pre, [l, next], post);
    FlattenSplice(pre, [r.Current()], post);
    FlattenSingle(r.Current());
    assert Flatten([l, next]) == l + next by {
      assert [l, next][1..] == [next];
      FlattenSingle(next);
    }
  }

  /** On the last line joining does nothing. */
  lemma JoinLastLine(b: Buffer)
    requires b.Valid() && b.line + 1 == |b.lines|
    ensures JoinLines(b) == b
  {
  }

  /** Backspace removes exactly the cell before the cursor, which stays on
      the character it was on; no other line changes. */
  lemma BackspaceRemovesPrevious(b: Buffer)
    requires b.Valid() && b.cursor.Some? && b.cursor.value >= 2
    ensures var r := Backspace(b);
            var c := b.cursor.value;
            && |r.lines| == |b.lines| && r.line == b.line
            && (forall i :: 0 <= i < |b.lines| && i != b.line ==> r.lines[i] == b.lines[i])
            && r.Current() == b.Current()[..c - 1] + b.Current()[c..]
            && r.cursor == Some(c - 1) && r.Current()[c - 1] == b.Current()[c]
  {
  }

  /** A new line: one more line, empty, right after the current one. */
  lemma NewLineEffect(b: Buffer)
    requires b.Valid()
    ensures var r := NewLine(b);
            && |r.lines| == |b.lines| + 1 && r.line == b.line + 1 && r.Current() == []
            && r.lines[..b.line + 1] == b.lines[..b.line + 1]
            && r.lines[b.line + 2..] == b.lines[b.line + 1..]
            && CellCount(r.lines) == CellCount(b.lines)
  {
    var pre := b.lines[..b.line + 1];
    var post := b.lines[b.line + 1..];
    var r := NewLine(b);
    assert b.lines == pre + post;
    FlattenAppend(pre, post);
    FlattenSplice(pre, [[]], post);
    FlattenSingle([]);
    assert r.lines[..b.line + 1] == pre;
    assert r.lines[b.line + 2..] == post;
  }

  /** Pasting after the current line lays the copy buffer out in new lines
      right after it, as typing into an empty line does; a copy buffer of at
      most 30 characters becomes exactly one new line. */
  lemma PasteAfterLays(b: Buffer, copyBuffer: string)
    requires b.Valid() && copyBuffer != []
    ensures var t := Typed(copyBuffer);
            PasteAfter(b, copyBuffer)
              == Buffer(b.lines[..b.line + 1] + t + b.lines[b.line + 1..], b.line + |t|, EndCursor(Last(t)))
    ensures |copyBuffer| <= SplitThreshold ==>
              PasteAfter(b, copyBuffer).lines == b.lines[..b.line + 1] + [copyBuffer] + b.lines[b.line + 1..]
  {
    var n := NewLine(b);
    NewLineSplits(b);
    TypeIntoEmptyLine(n, copyBuffer);
    if |copyBuffer| <= SplitThreshold {
      TypedShort(copyBuffer);
    }
  }

  /** Yanking a line and pasting it after itself adds a copy of the line
      without its last character right below it, when that copy fits. */
  lemma YankThenPaste(b: Buffer)
    requires b.Valid() && 2 <= |b.Current()| <= SplitThreshold + 1
    ensures var y := Yanked(b.Current(), []);
            PasteAfter(b, y).lines == b.lines[..b.line + 1] + [b.Current()[..|b.Current()| - 1]] + b.lines[b.line + 1..]
  {
    PasteAfterLays(b, Yanked(b.Current(), []));
  }

  /** Below the first line, pasting before puts the copy buffer in new lines
      just above the current line. */
  lemma PasteBeforeLays(b: Buffer, copyBuffer: string)
    requires b.Valid() && b.line > 0
    ensures var t := Typed(copyBuffer);
            var r := PasteBefore(b, copyBuffer);
            r == Buffer(b.lines[..b.line] + t + b.lines[b.line..], b.line - 1 + |t|, EndCursor(Last(t)))
  {
    var up := Buffer(b.lines, b.line - 1, HeadCursor(b.lines[b.line - 1]));
    var n := NewLine(up);
    NewLineSplits(up);
    TypeIntoEmptyLine(n, copyBuffer);
  }

  /** On an empty first line, pasting before types the copy buffer into that
      line, laid out as `Typed` lays out text. */
  lemma PasteBeforeFirstEmptyLine(b: Buffer, copyBuffer: string)
    requires b.Valid() && b.line == 0 && b.Current() == []
    ensures var t := Typed(copyBuffer);
            PasteBefore(b, copyBuffer) == Buffer(t + b.lines[1..], |t| - 1, EndCursor(Last(t)))
  {
    var h := Buffer(b.lines, 0, None);
    assert PasteBefore(b, copyBuffer) == TypeText(h, copyBuffer);
    TypeIntoEmptyLine(h, copyBuffer);
    assert b.lines[..0] + Typed(copyBuffer) == Typed(copyBuffer);
  }

  /** On a non-empty first line, pasting before types the copy buffer right
      after the line's head cell, not before it: the cursor is put on the
      head and typing places after the cursor. */
  lemma PasteBeforeFirstLine(b: Buffer, copyBuffer: string)
    requires b.Valid() && b.line == 0 && b.Current() != []
    requires |b.Current()| + |copyBuffer| <= SplitThreshold
    ensures var l := b.Current();
            PasteBefore(b, copyBuffer) == Buffer(b.lines[0 := l[..1] + copyBuffer + l[1..]], 0, Some(|copyBuffer|))
  {
    var l := b.Current();
    var h := Buffer(b.lines, 0, Some(0));
    assert PasteBefore(b, copyBuffer) == TypeText(h, copyBuffer);
    TypeAfterCursor(h, copyBuffer);
  }

  /** The line `NewLine` opens is empty, has no cursor, and sits between the
      lines up to the current one and the lines after it. */
  lemma NewLineSplits(b: Buffer)
    requires b.Valid()
    ensures var n := NewLine(b);
            && n.Current() == [] && n.cursor.None? && n.line == b.line + 1
            && n.lines[..n.line] == b.lines[..b.line + 1]
            && n.lines[n.line + 1..] == b.lines[b.line + 1..]
  {
    var n := NewLine(b);
    assert n.lines[..n.line] == b.lines[..b.line + 1];
    assert n.lines[n.line + 1..] == b.lines[b.line + 1..];
  }

  /** Indenting a non-empty line of fewer than 30 cells types a space right
      after the cursor (not at the start of the line); unindenting deletes the
      cursor's character when the line starts with a space, and otherwise
      changes nothing. */
  lemma IndentPlacesSpace(b: Buffer)
    requires b.Valid() && b.Current() != [] && |b.Current()| < SplitThreshold
    ensures var r := Indent(b);
            var k := PlacedIndex(b);
            && r.Current() == b.Current()[..k] + [' '] + b.Current()[k..]
            && r.cursor == Some(k) && |r.lines| == |b.lines|
  {
    InsertWithinLimit(b, ' ');
  }

  lemma UnindentEffect(b: Buffer)
    requires b.Valid() && UnindentSafe(b)
    ensures b.Current() != [] && b.Current()[0] == ' ' && b.cursor.Some? ==>
              var c := b.cursor.value;
              Unindent(b).Current() == b.Current()[..c] + b.Current()[c + 1..]
    ensures (b.Current() == [] || b.Current()[0] != ' ' || b.cursor.None?) ==> Unindent(b) == b
  {
    if b.Current() != [] && b.Current()[0] == ' ' && b.cursor.Some? {
      DeleteRemovesCursorCell(b);
    }
  }

  /** A counted `dd` removes the current line `n` times; the lines before the
      current one stay. */
  lemma {:induction false} DeleteLinesKeepsEarlier(b: Buffer, n: nat)
    requires b.Valid() && n < |b.lines|
    ensures DeleteLines(b, n).lines[..DeleteLines(b, n).line] == b.lines[..DeleteLines(b, n).line]
    ensures DeleteLines(b, n).line <= b.line
  {
    if n > 0 {
      DeleteLinesKeepsEarlier(b, n - 1);
      var p := DeleteLines(b, n - 1);
      DeleteCurrentKeepsEarlier(p);
      var r := DeleteLine(p, p.line);
      assert DeleteLines(b, n) == r;
      PrefixOfPrefix(p.lines, b.lines, r.line, p.line);
    }
  }

  /** Removing the current line keeps the lines before the new current one. */
  lemma DeleteCurrentKeepsEarlier(b: Buffer)
    requires b.Valid() && |b.lines| > 1
    ensures var r := DeleteLine(b, b.line);
            r.line <= b.line && r.lines[..r.line] == b.lines[..r.line]
  {
    var r := DeleteLine(b, b.line);
    assert r.lines[..b.line] == b.lines[..b.line];
    PrefixOfPrefix(r.lines, b.lines, r.line, b.line);
  }

  /** Sequences that agree up to `j` agree up to any `i <= j`. */
  lemma PrefixOfPrefix<T>(x: seq<T>, y: seq<T>, i: nat, j: nat)
    requires i <= j <= |x| && j <= |y| && x[..j] == y[..j]
    ensures x[..i] == y[..i]
  {
    assert x[..i] == x[..j][..i];
    assert y[..i] == y[..j][..i];
  }

  /** A counted `j` moves `n` lines down, stopping at the last line. */
  lemma {:induction false} MoveDownTimesLine(b: Buffer, n: nat)
    requires b.Valid()
    ensures var r := MoveDownTimes(b, n);
            r.lines == b.lines
            && r.line == if b.line + n < |b.lines| then b.line + n else |b.lines| - 1
  {
    if n > 0 {
      MoveDownTimesLine(b, n - 1);
    }
  }
}
