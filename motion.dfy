/** The cursor motions: by cell, by line, to a column, to the line ends and
    by word, as their effect on the document value. */
module Motion {
  import opened Wrappers
  import opened Text
  import opened Chars
  import opened Buffers

  // ---------------------------------------------------------------------
  // Lines and cells

  /** `moveUp`: to the previous line's first cell, unless on the first line. */
  function MoveUp(b: Buffer): (r: Buffer)
    requires b.Valid()
    ensures r.Valid()
  {
    if b.line > 0 then Buffer(b.lines, b.line - 1, HeadCursor(b.lines[b.line - 1])) else b
  }

  /** `moveDown`: to the next line's first cell, unless on the last line. */
  function MoveDown(b: Buffer): (r: Buffer)
    requires b.Valid()
    ensures r.Valid()
  {
    if b.line + 1 < |b.lines| then Buffer(b.lines, b.line + 1, HeadCursor(b.lines[b.line + 1])) else b
  }

  /** `moveRight`: the iterator steps to the next cell if there is one. */
  function MoveRight(b: Buffer): (r: Buffer)
    requires b.Valid()
    ensures r.Valid()
  {
    match b.cursor
    case Some(c) => if c + 1 < |b.Current()| then Buffer(b.lines, b.line, Some(c + 1)) else b
    case None => b
  }

  /** `moveLeft`: the iterator steps to the previous cell if there is one. */
  function MoveLeft(b: Buffer): (r: Buffer)
    requires b.Valid()
    ensures r.Valid()
  {
    match b.cursor
    case Some(c) => if c > 0 then Buffer(b.lines, b.line, Some(c - 1)) else b
    case None => b
  }

  /** The cursor `moveToColumn(column)` reaches: the cell at that index, or
      null once the walk runs off the end of the line. */
  function ColumnCursor(l: Line, column: nat): (r: Option<nat>)
    ensures r.Some? <==> column < |l|
    ensures r.Some? ==> r.value == column
  {
    if column < |l| then Some(column) else None
  }

  /** `moveToStartOfLine`: an empty line is left alone. */
  function StartOfLine(b: Buffer): (r: Buffer)
    requires b.Valid()
    ensures r.Valid()
  {
    if b.Current() == [] then b else Buffer(b.lines, b.line, Some(0))
  }

  /** `moveToEndOfLine`: an empty line is left alone. */
  function EndOfLine(b: Buffer): (r: Buffer)
    requires b.Valid()
    ensures r.Valid()
  {
    if b.Current() == [] then b else Buffer(b.lines, b.line, Some(|b.Current()| - 1))
  }

  /** The 1-based column `getCursorColumn` reports: one more than the number
      of cells before the cursor's, counting the whole line for a null cursor. */
  function CursorColumn(l: Line, cursor: Option<nat>): (r: nat)
    ensures r >= 1
    ensures cursor.Some? ==> r == cursor.value + 1
    ensures cursor.None? ==> r == |l| + 1
  {
    match cursor
    case Some(c) => c + 1
    case None => |l| + 1
  }

  // ---------------------------------------------------------------------
  // Words

  /** The character classes the skip loops of the word motions test. */
  datatype CharClass = Word | NonWord | Separator

  predicate InClass(ch: char, k: CharClass)
  {
    match k
    case Word => IsWordCharacter(ch)
    case NonWord => !IsWordCharacter(ch)
    case Separator => IsPunctuation(ch)
  }

  /** From cell `i`, step forward while the cell is in class `k` and has a
      successor: the first cell not in `k`, or the last cell. */
  function SkipForward(l: Line, i: nat, k: CharClass): (r: nat)
    requires i < |l|
    ensures i <= r < |l|
    ensures forall j :: i <= j < r ==> InClass(l[j], k)
    ensures r == |l| - 1 || !InClass(l[r], k)
    decreases |l| - i
  {
    if i + 1 < |l| && InClass(l[i], k) then SkipForward(l, i + 1, k) else i
  }

  /** From cell `i`, step back while the cell is in class `k` and has a
      predecessor: the first cell, going back, not in `k`, or the head. */
  function SkipBackward(l: Line, i: nat, k: CharClass): (r: nat)
    requires i < |l|
    ensures r <= i
    ensures forall j :: r < j <= i ==> InClass(l[j], k)
    ensures r == 0 || !InClass(l[r], k)
  {
    if i > 0 && InClass(l[i], k) then SkipBackward(l, i - 1, k) else i
  }

  /** From cell `i`, step forward while the NEXT cell is in class `k`. */
  function SkipAhead(l: Line, i: nat, k: CharClass): (r: nat)
    requires i < |l|
    ensures i <= r < |l|
    ensures forall j :: i < j <= r ==> InClass(l[j], k)
    ensures r == |l| - 1 || !InClass(l[r + 1], k)
    decreases |l| - i
  {
    if i + 1 < |l| && InClass(l[i + 1], k) then SkipAhead(l, i + 1, k) else i
  }

  /** Where `moveToNextWord` moves within the line from cell `c`: past the
      non-word run, the word run and the non-word run that follow. */
  function NextWordIndex(l: Line, c: nat): nat
    requires c < |l|
  {
    SkipForward(l, SkipForward(l, SkipForward(l, c, NonWord), Word), NonWord)
  }

  /** `moveToNextWord`. Without a cursor it moves to the head of the next
      line; on the line's last cell to the head of the next line, or nowhere
      on the last line; otherwise along the line as NextWordIndex says.
      Without a cursor on the last line the source dereferences null. */
  function NextWord(b: Buffer): (r: Buffer)
    requires b.Valid()
    requires b.cursor.None? ==> b.line + 1 < |b.lines|
    ensures r.Valid()
  {
    match b.cursor
    case None => Buffer(b.lines, b.line + 1, HeadCursor(b.lines[b.line + 1]))
    case Some(c) =>
      if c + 1 < |b.Current()| then Buffer(b.lines, b.line, Some(NextWordIndex(b.Current(), c)))
      else if b.line + 1 < |b.lines| then Buffer(b.lines, b.line + 1, HeadCursor(b.lines[b.line + 1]))
      else b
  }

  /** Where `moveToPreviousWord` moves within the line from cell `c > 0`:
      back over separators, then over letters; from a cell that is not a
      letter it steps forward one cell again. */
  function PreviousWordIndex(l: Line, c: nat): nat
    requires c < |l|
  {
    var i := SkipBackward(l, SkipBackward(l, c, Separator), Word);
    if !IsWordCharacter(l[i]) && i + 1 < |l| then i + 1 else i
  }

  /** `moveToPreviousWord`. Without a cursor, or on the line's head, it moves
      to the end of the previous line (nowhere on the first line from the
      head); otherwise along the line as PreviousWordIndex says. Without a
      cursor on the first line the source dereferences null. */
  function PreviousWord(b: Buffer): (r: Buffer)
    requires b.Valid()
    requires b.cursor.None? ==> b.line > 0
    ensures r.Valid()
  {
    match b.cursor
    case None => Buffer(b.lines, b.line - 1, EndCursor(b.lines[b.line - 1]))
    case Some(c) =>
      if c > 0 then Buffer(b.lines, b.line, Some(PreviousWordIndex(b.Current(), c)))
      else if b.line > 0 then Buffer(b.lines, b.line - 1, EndCursor(b.lines[b.line - 1]))
      else b
  }

  /** Where `moveToWordEnd` moves from cell `c`: over the separators that
      follow, then over the letters that follow. */
  function WordEndIndex(l: Line, c: nat): nat
    requires c < |l|
  {
    SkipAhead(l, SkipAhead(l, c, Separator), Word)
  }

  /** `moveToWordEnd`: nothing without a cursor or on the last cell. */
  function WordEnd(b: Buffer): (r: Buffer)
    requires b.Valid()
    ensures r.Valid()
  {
    match b.cursor
    case Some(c) => if c + 1 < |b.Current()| then Buffer(b.lines, b.line, Some(WordEndIndex(b.Current(), c))) else b
    case None => b
  }

  // ---------------------------------------------------------------------
  // Properties

  /** The vertical moves step one line, never past the first or last line,
      and land on the head cell; they change neither the text nor, at the
      edges, anything at all. */
  lemma VerticalMoves(b: Buffer)
    requires b.Valid()
    ensures var u := MoveUp(b);
            && u.lines == b.lines
            && (b.line > 0 ==> u.line == b.line - 1 && u.cursor == HeadCursor(b.lines[b.line - 1]))
            && (b.line == 0 ==> u == b)
    ensures var d := MoveDown(b);
            && d.lines == b.lines
            && (b.line + 1 < |b.lines| ==> d.line == b.line + 1 && d.cursor == HeadCursor(b.lines[b.line + 1]))
            && (b.line + 1 == |b.lines| ==> d == b)
  {
  }

  /** Moving down then up returns to the line, on its head cell. */
  lemma DownThenUp(b: Buffer)
    requires b.Valid() && b.line + 1 < |b.lines|
    ensures MoveUp(MoveDown(b)) == Buffer(b.lines, b.line, HeadCursor(b.Current()))
  {
  }

  /** The horizontal moves stay on the line, step one cell, and stay put at
      the ends of the line or without a cursor. */
  lemma HorizontalMoves(b: Buffer)
    requires b.Valid()
    ensures var r := MoveRight(b);
            && r.lines == b.lines && r.line == b.line
            && (b.cursor.Some? && b.cursor.value + 1 < |b.Current()| ==> r.cursor == Some(b.cursor.value + 1))
            && (b.cursor.None? || b.cursor.value + 1 == |b.Current()| ==> r == b)
    ensures var l := MoveLeft(b);
            && l.lines == b.lines && l.line == b.line
            && (b.cursor.Some? && b.cursor.value > 0 ==> l.cursor == Some(b.cursor.value - 1))
            && (b.cursor.None? || b.cursor.value == 0 ==> l == b)
  {
  }

  /** Away from the line's end, left undoes right; away from its head,
      right undoes left. */
  lemma LeftUndoesRight(b: Buffer)
    requires b.Valid() && b.cursor.Some?
    ensures b.cursor.value + 1 < |b.Current()| ==> MoveLeft(MoveRight(b)) == b
    ensures b.cursor.value > 0 ==> MoveRight(MoveLeft(b)) == b
  {
  }

  /** Within a line, `moveToNextWord` lands on the first letter of a later
      word — a letter after a non-letter, with a non-letter between it and
      the start — or, if there is none, on the line's last cell. */
  lemma NextWordLandsOnWordStart(l: Line, c: nat)
    requires c < |l|
    ensures var r := NextWordIndex(l, c);
            && c <= r < |l|
            && (r < |l| - 1 ==> IsWordCharacter(l[r]) && r > c && !IsWordCharacter(l[r - 1]))
  {
    var i1 := SkipForward(l, c, NonWord);
    var i2 := SkipForward(l, i1, Word);
    var r := SkipForward(l, i2, NonWord);
    if r < |l| - 1 {
      assert !InClass(l[r], NonWord);
      assert i2 < |l| - 1;
      assert !IsWordCharacter(l[i2]);
      if r == i2 {
        assert false;
      }
      assert InClass(l[r - 1], NonWord);
    }
  }

  /** The example: from the first cell of "  foo, bar" the next word
      starts at the 'b' of "bar", index 7. */
  lemma NextWordExample()
    ensures NextWordIndex("  foo, bar", 0) == 7
  {
    var l := "  foo, bar";
    assert SkipForward(l, 0, NonWord) == 2 by {
      assert !InClass(l[2], NonWord);
    }
    assert SkipForward(l, 2, Word) == 5 by {
      assert !InClass(l[5], Word);
    }
    assert SkipForward(l, 5, NonWord) == 7 by {
      assert !InClass(l[7], NonWord);
    }
  }

  /** Within a line, `moveToPreviousWord` from a letter lands on the first
      letter of that letter's word; from the first letter of a word it
      therefore does not move. */
  lemma PreviousWordFromLetter(l: Line, c: nat)
    requires c < |l| && IsWordCharacter(l[c])
    ensures var r := PreviousWordIndex(l, c);
            && r <= c
            && IsWordCharacter(l[r])
            && (forall j :: r <= j <= c ==> IsWordCharacter(l[j]))
            && (r == 0 || !IsWordCharacter(l[r - 1]))
  {
    ClassesDisjoint(l[c]);
    assert SkipBackward(l, c, Separator) == c;
    var i := SkipBackward(l, c, Word);
    if !IsWordCharacter(l[i]) {
      assert i < c;
    }
  }

  /** From inside a run of separators that follows a word, `moveToPreviousWord`
      goes back over the separators and lands on the first letter of that
      word. */
  lemma PreviousWordFromSeparators(l: Line, c: nat, p: nat)
    requires p < c < |l| && IsWordCharacter(l[p])
    requires forall j :: p < j <= c ==> IsPunctuation(l[j])
    ensures var r := PreviousWordIndex(l, c);
            && r <= p
            && IsWordCharacter(l[r])
            && (forall j :: r <= j <= p ==> IsWordCharacter(l[j]))
            && (r == 0 || !IsWordCharacter(l[r - 1]))
  {
    ClassesDisjoint(l[p]);
    assert SkipBackward(l, c, Separator) == p;
    PreviousWordFromLetter(l, p);
  }

  /** A cell that is neither a letter nor a separator makes
      `moveToPreviousWord` move forward: in "a_b" from the '_' the cursor
      goes to the 'b'. */
  lemma PreviousWordCanMoveForward()
    ensures PreviousWordIndex("a_b", 1) == 2
  {
    var l := "a_b";
    assert !InClass(l[1], Separator) && !InClass(l[1], Word);
  }

  /** `moveToWordEnd` never moves back, and stops on the last letter of the
      word that follows the separators after the cursor, or on the last
      separator if no letter follows them. */
  lemma WordEndMovesForward(l: Line, c: nat)
    requires c + 1 < |l|
    ensures var r := WordEndIndex(l, c);
            && c <= r < |l|
            && (forall j :: c < j <= r ==> IsPunctuation(l[j]) || IsWordCharacter(l[j]))
            && (r + 1 < |l| ==> !IsWordCharacter(l[r + 1]))
  {
    var i := SkipAhead(l, c, Separator);
    var r := SkipAhead(l, i, Word);
    if r + 1 < |l| && r == i {
      assert !InClass(l[r + 1], Word);
    }
  }
}
