/** The document with its current line and cursor, as a value, and the effect
    of the editing operations that other operations repeat (typing a
    character, deleting the cursor's character, deleting a line). */
module Buffers {
  import opened Wrappers
  import opened Text

  /** `lines` is the document, `line` the current line index and `cursor` the
      index of the cursor's cell in the current line, None for a null cursor. */
  datatype Buffer = Buffer(lines: seq<Line>, line: nat, cursor: Option<nat>)
  {
    /** The current line exists and the cursor, if any, is one of its cells. */
    predicate Valid()
    {
      line < |lines| && (cursor.Some? ==> cursor.value < |lines[line]|)
    }

    function Current(): Line
      requires line < |lines|
    {
      lines[line]
    }
  }

  /** The cursor on a line's head cell (null on an empty line). */
  function HeadCursor(l: Line): Option<nat>
  {
    if l == [] then None else Some(0)
  }

  /** The cursor on a line's last cell (null on an empty line). */
  function EndCursor(l: Line): Option<nat>
  {
    if l == [] then None else Some(|l| - 1)
  }

  /** A line longer than this many cells is split after an insertion. */
  const SplitThreshold: nat := 30

  /** The index the typed character takes: after the cursor's cell, or the
      front when the line is empty or the cursor is null. */
  function PlacedIndex(b: Buffer): nat
    requires b.Valid()
  {
    if b.Current() == [] || b.cursor.None? then 0 else b.cursor.value + 1
  }

  /** The new cell is linked in at its index and the cursor moves onto it. */
  function Place(b: Buffer, ch: char): (r: Buffer)
    requires b.Valid()
    ensures r.Valid()
  {
    var l := b.Current();
    var k := PlacedIndex(b);
    Buffer(b.lines[b.line := l[..k] + [ch] + l[k..]], b.line, Some(k))
  }

  /** The lines one character typed at the end of line `c` leaves: `c` grown
      by it, followed by a fresh empty line once it is over the threshold. */
  function AppendCell(c: Line, ch: char): (r: seq<Line>)
  {
    if |c + [ch]| <= SplitThreshold then [c + [ch]] else [c + [ch], []]
  }

  function Last(ls: seq<Line>): Line
    requires ls != []
  {
    ls[|ls| - 1]
  }

  /** The lines that typing `s` into an empty line produces: the 31st
      character typed into a line makes it overflow with nothing after the
      new cell to move, so the line keeps 31 cells and typing goes on in a
      fresh empty line. */
  function Typed(s: seq<char>): (r: seq<Line>)
    ensures r != [] && |Last(r)| <= SplitThreshold
    decreases |s|
  {
    if |s| <= SplitThreshold then [s]
    else [s[..SplitThreshold + 1]] + Typed(s[SplitThreshold + 1..])
  }

  /** Typing one more character changes only the last line of `Typed`, as
      typing at the end of that line does. */
  lemma {:induction false} TypedSnoc(s: seq<char>, ch: char)
    ensures var p := Typed(s);
            Typed(s + [ch]) == p[..|p| - 1] + AppendCell(Last(p), ch)
    decreases |s|
  {
    var n := SplitThreshold + 1;
    if |s| <= SplitThreshold {
      if |s + [ch]| > SplitThreshold {
        assert (s + [ch])[..n] == s + [ch];
        assert (s + [ch])[n..] == [];
      }
    } else {
      assert (s + [ch])[..n] == s[..n];
      assert (s + [ch])[n..] == s[n..] + [ch];
      TypedSnoc(s[n..], ch);
    }
  }

  /** Typing a character: it is placed after the cursor; if the line then
      has more than 30 cells, the cells after the new one leave it and are
      typed, in order, into a new line inserted after it. */
  function InsertChar(b: Buffer, ch: char): (r: Buffer)
    requires b.Valid()
    ensures r.Valid()
  {
    var p := Place(b, ch);
    var l := p.Current();
    var k := p.cursor.value;
    if |l| <= SplitThreshold then p
    else
      var t := Typed(l[k + 1..]);
      Buffer(p.lines[..p.line] + [l[..k + 1]] + t + p.lines[p.line + 1..],
             p.line + |t|, EndCursor(Last(t)))
  }

  /** Typing the characters of `s` one after the other. */
  function TypeText(b: Buffer, s: seq<char>): (r: Buffer)
    requires b.Valid()
    ensures r.Valid()
    decreases |s|
  {
    if s == [] then b else InsertChar(TypeText(b, s[..|s| - 1]), s[|s| - 1])
  }

  /** Deleting the cursor's cell: the cursor moves to the new head if it was
      the head, to the previous cell if it was the last, and to the next cell
      otherwise. Nothing happens without a cursor. A line of one cell is
      excluded: unlinking its only cell dereferences null. */
  function DeleteAtCursor(b: Buffer): (r: Buffer)
    requires b.Valid()
    requires b.cursor.Some? ==> |b.Current()| != 1
    ensures r.Valid()
  {
    var l := b.Current();
    if l == [] || b.cursor.None? then b
    else
      var c := b.cursor.value;
      if c == 0 then Buffer(b.lines[b.line := l[1..]], b.line, Some(0))
      else if c == |l| - 1 then Buffer(b.lines[b.line := l[..c]], b.line, Some(c - 1))
      else Buffer(b.lines[b.line := l[..c] + l[c + 1..]], b.line, Some(c))
  }

  /** Removing line `d` (0-based): the current line index is clamped to the
      new last line. The cursor stays when a later line is removed, and also
      when an earlier line is removed while the last line is current: the
      clamp moves the index back onto the cursor's own line. Removing the
      current line frees the cursor's cell; removing an earlier line under a
      current line that is not the last leaves the cursor on a cell of
      another line. In both cases the model's cursor becomes null. Removing
      the only line is excluded: the index would become -1. */
  function DeleteLine(b: Buffer, d: nat): (r: Buffer)
    requires b.Valid() && d < |b.lines| && |b.lines| > 1
    ensures r.Valid()
  {
    var ls := b.lines[..d] + b.lines[d + 1..];
    var ln := if b.line >= |ls| then |ls| - 1 else b.line;
    Buffer(ls, ln, if d > b.line || (d < b.line && b.line == |b.lines| - 1) then b.cursor else None)
  }

  // ---------------------------------------------------------------------
  // Properties of typing

  /** Typing at the end of a line: the grown line, and a new empty line when
      it went over the threshold. */
  lemma InsertAtEnd(b: Buffer, ch: char)
    requires b.Valid() && b.cursor == EndCursor(b.Current())
    ensures var a := AppendCell(b.Current(), ch);
            InsertChar(b, ch) ==
              Buffer(b.lines[..b.line] + a + b.lines[b.line + 1..], b.line + |a| - 1, EndCursor(Last(a)))
  {
    var l := b.Current();
    var p := Place(b, ch);
    assert PlacedIndex(b) == |l|;
    assert p.Current() == l + [ch];
    if |l + [ch]| > SplitThreshold {
      assert (l + [ch])[|l| + 1..] == [];
      assert (l + [ch])[..|l| + 1] == l + [ch];
      assert p.lines[..p.line] == b.lines[..b.line];
      assert p.lines[p.line + 1..] == b.lines[b.line + 1..];
      assert b.lines[..b.line] + [l + [ch]] + [[]] + b.lines[b.line + 1..]
          == b.lines[..b.line] + AppendCell(l, ch) + b.lines[b.line + 1..];
    } else {
      assert b.lines[b.line := l + [ch]] == b.lines[..b.line] + [l + [ch]] + b.lines[b.line + 1..];
    }
  }

  /** Indexing into a document built as `pre + p + post` around the lines `p`. */
  lemma SpliceAround(pre: seq<Line>, p: seq<Line>, post: seq<Line>)
    requires p != []
    ensures var m := pre + p + post;
            && |m| == |pre| + |p| + |post|
            && m[|pre| + |p| - 1] == Last(p)
            && m[..|pre| + |p| - 1] == pre + p[..|p| - 1]
            && m[|pre| + |p|..] == post
  {
    var m := pre + p + post;
    assert m[..|pre| + |p| - 1] == pre + p[..|p| - 1];
    assert m[|pre| + |p|..] == post;
  }

  lemma RegroupAround<T>(a: seq<T>, b: seq<T>, c: seq<T>, d: seq<T>)
    ensures a + b + c + d == a + (b + c) + d
  {
  }

  /** One more character typed at the end of the text laid out so far. */
  lemma TypeOneMore(b: Buffer, s0: seq<char>, ch: char, m: Buffer)
    requires b.Valid()
    requires var p := Typed(s0);
             m == Buffer(b.lines[..b.line] + p + b.lines[b.line + 1..], b.line + |p| - 1, EndCursor(Last(p)))
    ensures var t := Typed(s0 + [ch]);
            InsertChar(m, ch) ==
              Buffer(b.lines[..b.line] + t + b.lines[b.line + 1..], b.line + |t| - 1, EndCursor(Last(t)))
  {
    var pre := b.lines[..b.line];
    var post := b.lines[b.line + 1..];
    var p := Typed(s0);
    SpliceAround(pre, p, post);
    InsertAtEnd(m, ch);
    var a := AppendCell(Last(p), ch);
    var r := InsertChar(m, ch);
    assert r.lines == pre + p[..|p| - 1] + a + post;
    TypedSnoc(s0, ch);
    RegroupAround(pre, p[..|p| - 1], a, post);
    assert Last(Typed(s0 + [ch])) == Last(a);
  }

  /** Typing into an empty line lays the text out as `Typed` says; the cursor
      ends on the last cell typed, or null on a fresh empty line. */
  lemma {:induction false} TypeIntoEmptyLine(b: Buffer, s: seq<char>)
    requires b.Valid() && b.Current() == [] && b.cursor.None?
    ensures var t := Typed(s);
            TypeText(b, s) ==
              Buffer(b.lines[..b.line] + t + b.lines[b.line + 1..], b.line + |t| - 1, EndCursor(Last(t)))
    decreases |s|
  {
    if s == [] {
      assert b.lines[..b.line] + [[]] + b.lines[b.line + 1..] == b.lines;
    } else {
      var s0 := s[..|s| - 1];
      var ch := s[|s| - 1];
      assert s0 + [ch] == s;
      TypeIntoEmptyLine(b, s0);
      TypeOneMore(b, s0, ch, TypeText(b, s0));
    }
  }

  /** Typing never loses or duplicates a character: `Typed(s)` holds exactly `s`. */
  lemma {:induction false} TypedKeepsText(s: seq<char>)
    ensures Flatten(Typed(s)) == s
    decreases |s|
  {
    if |s| > SplitThreshold {
      var n := SplitThreshold + 1;
      TypedKeepsText(s[n..]);
      assert s == s[..n] + s[n..];
    }
  }

  /** Every line `Typed` fills but the last one holds exactly 31 cells. */
  lemma {:induction false} TypedShape(s: seq<char>)
    ensures var t := Typed(s);
            forall i :: 0 <= i < |t| - 1 ==> |t[i]| == SplitThreshold + 1
    ensures |Typed(s)| == |s| / (SplitThreshold + 1) + 1
    ensures |Last(Typed(s))| == |s| % (SplitThreshold + 1)
    decreases |s|
  {
    if |s| > SplitThreshold {
      TypedShape(s[SplitThreshold + 1..]);
    }
  }

  /** Text that fits stays on one line. */
  lemma TypedShort(s: seq<char>)
    requires |s| <= SplitThreshold
    ensures Typed(s) == [s]
  {
  }

  /** Thirty-one characters fill one line and leave an empty one after it. */
  lemma TypedFull(s: seq<char>)
    requires |s| == SplitThreshold + 1
    ensures var t := Typed(s);
            var b := Buffer([[]], 0, None);
            Buffer(b.lines[..b.line] + t + b.lines[b.line + 1..], b.line + |t| - 1, EndCursor(Last(t)))
              == Buffer([s, []], 1, None)
  {
    var n := SplitThreshold + 1;
    assert s[..n] == s[..|s|] == s;
    assert s[n..] == [];
    assert Typed(s) == [s, []];
  }

  /** Typing 31 characters into the empty document leaves all 31 on its first
      line and a second, empty line: the split fires on the 31st cell and
      nothing follows it to move. */
  lemma TypingThirtyOneCharacters(s: seq<char>)
    requires |s| == SplitThreshold + 1
    ensures TypeText(Buffer([[]], 0, None), s) == Buffer([s, []], 1, None)
  {
    TypeIntoEmptyLine(Buffer([[]], 0, None), s);
    TypedFull(s);
  }

  // ---------------------------------------------------------------------
  // Properties of one insertion

  /** While the line stays within 30 cells the typed character is simply
      placed: after the cursor's cell, or at the front when the line is
      empty or the cursor is null; the cursor lands on it and no other line
      changes. */
  lemma InsertWithinLimit(b: Buffer, ch: char)
    requires b.Valid() && |b.Current()| < SplitThreshold
    ensures var r := InsertChar(b, ch);
            var l := b.Current();
            var k := if l == [] || b.cursor.None? then 0 else b.cursor.value + 1;
            && |r.lines| == |b.lines| && r.line == b.line
            && r.Current() == l[..k] + [ch] + l[k..]
            && r.cursor == Some(k) && r.Current()[k] == ch
            && forall i :: 0 <= i < |b.lines| && i != b.line ==> r.lines[i] == b.lines[i]
  {
  }

  /** One character typed after the cursor's cell of a line under 30 cells. */
  lemma PlaceAfterCursor(b: Buffer, ch: char)
    requires b.Valid() && b.cursor.Some? && |b.Current()| < SplitThreshold
    ensures var l := b.Current();
            var k := b.cursor.value;
            InsertChar(b, ch) == Buffer(b.lines[b.line := l[..k + 1] + [ch] + l[k + 1..]], b.line, Some(k + 1))
  {
    InsertWithinLimit(b, ch);
    var l := b.Current();
    var k := b.cursor.value;
    var want := b.lines[b.line := l[..k + 1] + [ch] + l[k + 1..]];
    assert forall i :: 0 <= i < |want| ==> InsertChar(b, ch).lines[i] == want[i];
  }

  /** Typing text after the cursor's cell while the line stays within 30
      cells: the text sits, in order, right after that cell, and the cursor
      ends on its last character. */
  lemma {:induction false} TypeAfterCursor(b: Buffer, s: seq<char>)
    requires b.Valid() && b.cursor.Some? && |b.Current()| + |s| <= SplitThreshold
    ensures var l := b.Current();
            var k := b.cursor.value;
            TypeText(b, s) == Buffer(b.lines[b.line := l[..k + 1] + s + l[k + 1..]], b.line, Some(k + |s|))
    decreases |s|
  {
    var l := b.Current();
    var k := b.cursor.value;
    if s == [] {
      assert l[..k + 1] + s + l[k + 1..] == l;
      assert b.lines[b.line := l] == b.lines;
    } else {
      TypeAfterCursor(b, s[..|s| - 1]);
      TypeOneAfter(b, s, TypeText(b, s[..|s| - 1]));
    }
  }

  /** One more character typed after text already typed after the cursor. */
  lemma TypeOneAfter(b: Buffer, s: seq<char>, m: Buffer)
    requires b.Valid() && b.cursor.Some? && |b.Current()| + |s| <= SplitThreshold && s != []
    requires var l := b.Current();
             var k := b.cursor.value;
             m == Buffer(b.lines[b.line := l[..k + 1] + s[..|s| - 1] + l[k + 1..]], b.line, Some(k + |s| - 1))
    ensures var l := b.Current();
            var k := b.cursor.value;
            InsertChar(m, s[|s| - 1]) == Buffer(b.lines[b.line := l[..k + 1] + s + l[k + 1..]], b.line, Some(k + |s|))
  {
    var l := b.Current();
    var k := b.cursor.value;
    var s0 := s[..|s| - 1];
    var ch := s[|s| - 1];
    var ml := l[..k + 1] + s0 + l[k + 1..];
    PlaceAfterCursor(m, ch);
    var j := k + |s0| + 1;
    assert ml[..j] + [ch] + ml[j..] == l[..k + 1] + s + l[k + 1..] by {
      assert ml[..j] == l[..k + 1] + s0;
      assert ml[j..] == l[k + 1..];
      assert s0 + [ch] == s;
    }
    assert m.lines[b.line := l[..k + 1] + s + l[k + 1..]] ==
           b.lines[b.line := l[..k + 1] + s + l[k + 1..]];
  }

  /** The insertion that takes a line of 30 cells to 31 splits it: the cells
      after the new one move, in order, to a new line right after it, the
      old line keeps everything up to the new cell, and the current line
      becomes the new one. */
  lemma InsertOverflowSplit(b: Buffer, ch: char)
    requires b.Valid() && |b.Current()| == SplitThreshold
    ensures var r := InsertChar(b, ch);
            var l := b.Current();
            var k := PlacedIndex(b);
            var placed := l[..k] + [ch] + l[k..];
            && |r.lines| == |b.lines| + 1 && r.line == b.line + 1
            && r.lines[..b.line] == b.lines[..b.line]
            && r.lines[b.line] == placed[..k + 1]
            && r.lines[b.line + 1] == placed[k + 1..]
            && r.lines[b.line + 2..] == b.lines[b.line + 1..]
            && r.cursor == EndCursor(placed[k + 1..])
            && CellCount(r.lines) == CellCount(b.lines) + 1
  {
    var l := b.Current();
    var k := PlacedIndex(b);
    var placed := l[..k] + [ch] + l[k..];
    TypedShort(placed[k + 1..]);
    var r := InsertChar(b, ch);
    InsertKeepsCells(b, ch);
  }

  /** The lines that replace the current one once `placed` holds the new
      cell at index `k`: `placed` itself, or `placed` cut after the new cell
      with the rest typed into new lines below it. */
  function Resettled(placed: Line, k: nat): seq<Line>
    requires k < |placed|
  {
    if |placed| <= SplitThreshold then [placed] else [placed[..k + 1]] + Typed(placed[k + 1..])
  }

  /** The document after an insertion, around the current line. */
  lemma InsertCharLines(b: Buffer, ch: char)
    requires b.Valid()
    ensures var l := b.Current();
            var k := PlacedIndex(b);
            InsertChar(b, ch).lines ==
              b.lines[..b.line] + Resettled(l[..k] + [ch] + l[k..], k) + b.lines[b.line + 1..]
  {
    var l := b.Current();
    var k := PlacedIndex(b);
    var placed := l[..k] + [ch] + l[k..];
    var p := Place(b, ch);
    assert p.lines[..p.line] == b.lines[..b.line];
    assert p.lines[p.line + 1..] == b.lines[b.line + 1..];
    assert p.lines == b.lines[..b.line] + [placed] + b.lines[b.line + 1..];
  }

  /** Resettling a placed line moves cells between lines but keeps them all. */
  lemma ResettledKeepsCells(placed: Line, k: nat)
    requires k < |placed|
    ensures Flatten(Resettled(placed, k)) == placed
  {
    if |placed| <= SplitThreshold {
      FlattenSingle(placed);
    } else {
      var t := Typed(placed[k + 1..]);
      FlattenAppend([placed[..k + 1]], t);
      FlattenSingle(placed[..k + 1]);
      TypedKeepsText(placed[k + 1..]);
      assert placed[..k + 1] + placed[k + 1..] == placed;
    }
  }

  /** The cells of the document after an insertion are those before it with
      the typed character added at its place: the split moves cells but
      never loses or duplicates one. */
  lemma InsertKeepsCells(b: Buffer, ch: char)
    requires b.Valid()
    ensures var l := b.Current();
            var k := PlacedIndex(b);
            Flatten(InsertChar(b, ch).lines)
              == Flatten(b.lines[..b.line]) + (l[..k] + [ch] + l[k..]) + Flatten(b.lines[b.line + 1..])
    ensures CellCount(InsertChar(b, ch).lines) == CellCount(b.lines) + 1
  {
    var l := b.Current();
    var k := PlacedIndex(b);
    var placed := l[..k] + [ch] + l[k..];
    var pre := b.lines[..b.line];
    var post := b.lines[b.line + 1..];
    assert b.lines == pre + [l] + post;
    FlattenSplice(pre, [l], post);
    FlattenSingle(l);
    InsertCharLines(b, ch);
    FlattenSplice(pre, Resettled(placed, k), post);
    ResettledKeepsCells(placed, k);
  }

  /** An insertion leaves the lines before the current one as they were. */
  lemma InsertKeepsEarlierLines(b: Buffer, ch: char)
    requires b.Valid()
    ensures InsertChar(b, ch).line >= b.line
    ensures |InsertChar(b, ch).lines| >= |b.lines|
    ensures InsertChar(b, ch).lines[..b.line] == b.lines[..b.line]
  {
  }

  // ---------------------------------------------------------------------
  // Properties of deletion

  /** Deleting removes exactly the cursor's cell from the current line and
      touches no other line; without a cursor nothing changes. */
  lemma DeleteRemovesCursorCell(b: Buffer)
    requires b.Valid() && (b.cursor.Some? ==> |b.Current()| != 1)
    ensures var r := DeleteAtCursor(b);
            && |r.lines| == |b.lines| && r.line == b.line
            && (forall i :: 0 <= i < |b.lines| && i != b.line ==> r.lines[i] == b.lines[i])
            && (b.cursor.None? ==> r == b)
            && (b.cursor.Some? ==>
                  var c := b.cursor.value;
                  r.Current() == b.Current()[..c] + b.Current()[c + 1..]
                  && |r.Current()| + 1 == |b.Current()|)
  {
    var l := b.Current();
    if b.cursor.Some? {
      var c := b.cursor.value;
      if c == 0 {
        assert l[..0] + l[1..] == l[1..];
      } else if c == |l| - 1 {
        assert l[..c] + l[c + 1..] == l[..c];
      }
    }
  }

  /** Deleting a line: the lines after it move down by one index; with more
      than one line left, the current line index stays in range. */
  lemma DeleteLineShifts(b: Buffer, d: nat)
    requires b.Valid() && d < |b.lines| && |b.lines| > 1
    ensures var r := DeleteLine(b, d);
            && |r.lines| == |b.lines| - 1
            && (forall i :: 0 <= i < d ==> r.lines[i] == b.lines[i])
            && (forall i :: d <= i < |r.lines| ==> r.lines[i] == b.lines[i + 1])
            && r.line == (if b.line == |b.lines| - 1 then b.line - 1 else b.line)
  {
  }

  /** A cursor that survives a line deletion is on the same cells as before:
      the current line after the deletion is the one it was on. */
  lemma DeleteLineKeepsCursorLine(b: Buffer, d: nat)
    requires b.Valid() && d < |b.lines| && |b.lines| > 1
    ensures var r := DeleteLine(b, d);
            r.cursor.Some? ==> r.cursor == b.cursor && r.Current() == b.Current()
  {
    var r := DeleteLine(b, d);
    if r.cursor.Some? {
      DeleteLineShifts(b, d);
      if d < b.line {
        assert r.lines[r.line] == b.lines[r.line + 1];
      }
    }
  }

  /** With the last line current, deleting the line before it keeps the
      cursor, and its column, on that line. */
  lemma DeleteEarlierUnderLastLine()
    ensures DeleteLine(Buffer([['x'], ['a', 'b']], 1, Some(1)), 0) == Buffer([['a', 'b']], 0, Some(1))
  {
    var b := Buffer([['x'], ['a', 'b']], 1, Some(1));
    assert b.lines[..0] + b.lines[1..] == [['a', 'b']];
  }
}
