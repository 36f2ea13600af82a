/** The in-line replacements of the current line, `replaceFirst` and
    `replaceAll`: the rolling match over the cells, and the rewrite that
    overwrites cells from the match start and relinks the chain. */
module LineReplace {
  import opened Wrappers
  import opened Text
  import opened Find

  // ---------------------------------------------------------------------
  // The rewrite of one match

  /** The line the rewrite of a match starting at cell `m` leaves: the cells
      from `m` on receive the characters of `newText` (a `'\0'` cell is
      appended each time the chain runs out), and cell `m` is then linked to
      the cell after the last one written, detaching those in between. */
  function Rewritten(l: Line, m: nat, newText: string): (r: Line)
    requires m < |l| && newText != []
    ensures |r| == if m + |newText| < |l| then |l| - |newText| + 1 else m + 2
    ensures r[..m] == l[..m] && r[m] == newText[0]
  {
    l[..m] + [newText[0]] + (if m + |newText| < |l| then l[m + |newText|..] else ['\0'])
  }

  /** The cells from index `p` on while the overwrite loop stands at `p`: the
      original cells, or one fresh `'\0'` cell once they are used up. */
  function Rest(l: Line, p: nat): Line
  {
    if p < |l| then l[p..] else ['\0']
  }

  /** The overwrite and relink of the rewrite, cell by cell: write each
      character of `newText`, appending a `'\0'` cell whenever the written
      cell has no successor, then link cell `m` to the cell reached. */
  method Splice(l: Line, m: nat, newText: string) returns (r: Line)
    requires m < |l| && newText != []
    ensures r == Rewritten(l, m, newText)
  {
    var w := l;
    var i := 0;
    while i < |newText|
      invariant i <= |newText|
      invariant w == Written(l, m, newText, i)
    {
      OverwriteStep(l, m, newText, i);
      var v := w[m + i := newText[i]];
      if m + i + 1 == |v| {
        w := v + ['\0'];
      } else {
        w := v;
      }
      i := i + 1;
    }
    Relink(l, m, newText, w);
    r := w[..m + 1] + w[m + |newText|..];
  }

  /** The line while the overwrite loop has written `i` characters. */
  function Written(l: Line, m: nat, newText: string, i: nat): Line
    requires m <= |l| && i <= |newText|
  {
    l[..m] + newText[..i] + Rest(l, m + i)
  }

  /** Linking cell `m` to the cell after the written ones gives the rewritten line. */
  lemma Relink(l: Line, m: nat, newText: string, w: Line)
    requires m < |l| && newText != [] && w == Written(l, m, newText, |newText|)
    ensures m + |newText| <= |w| && w[..m + 1] + w[m + |newText|..] == Rewritten(l, m, newText)
  {
    assert w[..m + 1] == l[..m] + [newText[0]];
    assert w[m + |newText|..] == Rest(l, m + |newText|);
  }

  /** One character of the overwrite, followed by the appended `'\0'` cell
      if the written cell was the last. */
  lemma OverwriteStep(l: Line, m: nat, newText: string, i: nat)
    requires m < |l| && i < |newText|
    ensures var w := Written(l, m, newText, i);
            var v := w[m + i := newText[i]];
            && m + i < |w|
            && (if m + i + 1 == |v| then v + ['\0'] else v) == Written(l, m, newText, i + 1)
  {
    var pre := l[..m] + newText[..i];
    var rest := Rest(l, m + i);
    var w := pre + rest;
    var v := w[m + i := newText[i]];
    assert v == pre + [newText[i]] + rest[1..];
    assert pre + [newText[i]] == l[..m] + newText[..i + 1];
  }

  /** Where the cursor's cell is after a rewrite of `k` characters at `m`:
      cells up to `m` keep their index, the detached cells between `m` and
      `m + k` leave the line (a null cursor in this model), and later cells
      move down by `k - 1`. */
  function Remap(cursor: Option<nat>, m: nat, k: nat): Option<nat>
    requires k >= 1
  {
    match cursor
    case None => None
    case Some(c) => if c <= m then Some(c) else if c < m + k then None else Some(c - k + 1)
  }

  /** A cursor that survives the rewrite points at the same cell: its index
      is in the new line, and, except at the match start whose character is
      overwritten, the character there is the one it was on. The cursor is
      lost exactly when its cell is detached. */
  lemma RemapKeepsCell(l: Line, m: nat, newText: string, c: nat)
    requires m < |l| && newText != [] && c < |l|
    ensures var r := Remap(Some(c), m, |newText|);
            var w := Rewritten(l, m, newText);
            && (r.None? <==> m < c < m + |newText|)
            && (r.Some? ==> r.value < |w| && (c != m ==> w[r.value] == l[c]))
  {
    var k := |newText|;
    var w := Rewritten(l, m, newText);
    if c >= m + k {
      assert w[c - k + 1] == l[m + k..][c - m - k];
    } else if c < m {
      assert w[c] == w[..m][c];
    }
  }

  /** This rewrite is not a replacement of the matched text: replacing the
      first "a" of "ab" by "xy" gives "x" followed by a `'\0'` cell, where
      replacing the text gives "xyb". */
  lemma RewriteIsNotReplacement()
    ensures Rewritten("ab", 0, "xy") == "x\0"
    ensures ReplaceFirstOccurrence("ab", "a", "xy") == "xyb"
  {
    assert Rewritten("ab", 0, "xy") == "x" + "\0";
    assert OccursAt("ab", 0, "a");
    assert FindFrom("ab", "a", 0) == Some(0);
    assert "ab"[1..] == "b";
  }

  /** With a one-character new text the rewrite overwrites the match start
      only; at the end of the line a `'\0'` cell is appended as well. */
  lemma RewriteOneCharacter(l: Line, m: nat, newText: string)
    requires m < |l| && |newText| == 1
    ensures Rewritten(l, m, newText) == l[m := newText[0]] + (if m + 1 == |l| then "\0" else [])
  {
    var w := Rewritten(l, m, newText);
    if m + 1 < |l| {
      assert forall i :: 0 <= i < |l| ==> w[i] == l[m := newText[0]][i];
    } else {
      assert w == l[..m] + [newText[0]] + ['\0'];
      assert l[m := newText[0]] == l[..m] + [newText[0]];
    }
  }

  // ---------------------------------------------------------------------
  // The rolling match

  /** The rolling match of `replaceFirst` from cell `p`, with `idx` cells of
      `pat` matched so far starting at `start`: a cell equal to the next
      pattern character extends the match, any other cell resets it to
      nothing without comparing that cell with the first character again.
      The result is the start of the first completed match. */
  function RollingMatch(l: Line, pat: string, p: nat, idx: nat, start: nat): (r: Option<nat>)
    requires idx < |pat| && p <= |l|
    requires idx > 0 ==> start + idx == p && l[start..p] == pat[..idx]
    ensures r.Some? ==> OccursAt(l, r.value, pat) && r.value < |l|
    ensures r.Some? && idx > 0 ==> r.value >= start
    ensures r.Some? && idx == 0 ==> r.value >= p
    decreases |l| - p
  {
    if p == |l| then None
    else if l[p] == pat[idx] then
      var s := if idx == 0 then p else start;
      assert l[s..p + 1] == pat[..idx + 1] by {
        if idx > 0 {
          assert l[s..p + 1] == l[s..p] + [l[p]];
          assert pat[..idx + 1] == pat[..idx] + [pat[idx]];
        }
      }
      if idx + 1 == |pat| then Some(s) else RollingMatch(l, pat, p + 1, idx + 1, s)
    else RollingMatch(l, pat, p + 1, 0, 0)
  }

  /** The rolling match over the whole line. */
  function FirstRolling(l: Line, pat: string): (r: Option<nat>)
    requires pat != []
    ensures r.Some? ==> OccursAt(l, r.value, pat) && r.value < |l|
  {
    RollingMatch(l, pat, 0, 0, 0)
  }

  /** The scan loop of `replaceFirst`: `matchIndex` counts the pattern
      characters matched so far and `matchStart` remembers where they began. */
  method ScanRolling(l: Line, pat: string) returns (r: Option<nat>)
    requires pat != []
    ensures r == FirstRolling(l, pat)
  {
    var matchIndex := 0;
    var matchStart := 0;
    var p := 0;
    while p < |l|
      invariant p <= |l| && matchIndex < |pat|
      invariant matchIndex > 0 ==> matchStart + matchIndex == p && l[matchStart..p] == pat[..matchIndex]
      invariant RollingMatch(l, pat, p, matchIndex, matchStart) == FirstRolling(l, pat)
    {
      if l[p] == pat[matchIndex] {
        if matchIndex == 0 {
          matchStart := p;
        }
        assert l[matchStart..p + 1] == pat[..matchIndex + 1] by {
          if matchIndex > 0 {
            assert l[matchStart..p + 1] == l[matchStart..p] + [l[p]];
            assert pat[..matchIndex + 1] == pat[..matchIndex] + [pat[matchIndex]];
          }
        }
        matchIndex := matchIndex + 1;
        if matchIndex == |pat| {
          return Some(matchStart);
        }
      } else {
        matchIndex := 0;
        matchStart := 0;
      }
      p := p + 1;
    }
    return None;
  }

  /** The rolling match misses a match whose first character follows a
      partial match: "aab" contains "ab", but after "a", "a" matched the
      reset skips the second "a". */
  lemma RollingMissesRestartedMatch()
    ensures Contains("aab", "ab")
    ensures FirstRolling("aab", "ab") == None
  {
    assert OccursAt("aab", 1, "ab");
  }

  /** A one-character pattern is found at its first occurrence. */
  lemma {:induction false} RollingSingleCharacter(l: Line, pat: string, p: nat)
    requires |pat| == 1 && p <= |l|
    ensures RollingMatch(l, pat, p, 0, 0) == FindFrom(l, pat, p)
    decreases |l| - p
  {
    if p < |l| {
      assert l[p..p + 1] == [l[p]];
      if l[p] != pat[0] {
        RollingSingleCharacter(l, pat, p + 1);
      }
    }
  }

  /** A match the rolling scan finds is a real occurrence, and the leftmost
      one if the pattern is a single character. */
  lemma RollingFindsOccurrence(l: Line, pat: string)
    requires pat != []
    ensures FirstRolling(l, pat).Some? ==> OccursAt(l, FirstRolling(l, pat).value, pat)
    ensures |pat| == 1 ==> FirstRolling(l, pat) == FindFrom(l, pat, 0)
  {
    if |pat| == 1 {
      RollingSingleCharacter(l, pat, 0);
    }
  }

  // ---------------------------------------------------------------------
  // The sweep of replaceAll with a one-character pattern

  /** The number of cells holding `o` from index `p` on. */
  function CountFrom(w: Line, o: char, p: nat): nat
    requires p <= |w|
  {
    multiset(w[p..])[o]
  }

  /** A rewrite at a cell holding `o` leaves fewer such cells after it,
      unless `o` is NUL and the rewrite runs off the end of the line. */
  lemma RewriteConsumes(w: Line, o: char, newText: string, p: nat)
    requires p < |w| && w[p] == o && newText != [] && (o != '\0' || p + |newText| < |w|)
    ensures CountFrom(Rewritten(w, p, newText), o, p + 1) < CountFrom(w, o, p)
  {
    var r := Rewritten(w, p, newText);
    assert w[p..] == [w[p]] + w[p + 1..];
    if p + |newText| < |w| {
      assert r[p + 1..] == w[p + |newText|..];
      assert w[p + 1..] == w[p + 1..p + |newText|] + w[p + |newText|..];
    } else {
      assert r[p + 1..] == "\0";
    }
  }

  /** The sweep of `replaceAll("\0", newText)` from cell `p` ends: it never
      rewrites with an empty new text, and no rewrite runs off the end of the
      line (the `'\0'` cell that appends is the next one scanned, and it
      matches again). */
  predicate NulSweepEnds(w: Line, newText: string, p: nat)
    requires p <= |w|
    decreases |w| - p
  {
    if p == |w| then true
    else if w[p] == '\0' then
      && newText != [] && p + |newText| < |w|
      && NulSweepEnds(Rewritten(w, p, newText), newText, p + 1)
    else NulSweepEnds(w, newText, p + 1)
  }

  /** The one-character sweep of `replaceAll` from cell `p` ends and is
      defined: `o` no longer occurs, or the new text is not empty (an empty
      one links the match start to itself) and, for the NUL character, no
      rewrite runs off the end of the line. */
  predicate SweepSafe(w: Line, o: char, newText: string, p: nat)
    requires p <= |w|
  {
    || o !in w[p..]
    || (o != '\0' && newText != [])
    || (o == '\0' && NulSweepEnds(w, newText, p))
  }

  /** Why the sweep of a NUL pattern must not run off the end: the rewrite
      then leaves a `'\0'` cell right after the written one, as the last
      cell, so the next step finds itself in the same situation again. */
  lemma NulRunOffRepeats(w: Line, newText: string, p: nat)
    requires p < |w| && w[p] == '\0' && newText != [] && p + |newText| >= |w|
    ensures var r := Rewritten(w, p, newText);
            && p + 1 < |r| && r[p + 1] == '\0' && p + 1 + |newText| >= |r|
            && !NulSweepEnds(w, newText, p)
  {
  }

  /** The scan of `replaceAll` for the one-character pattern `[o]`, from cell
      `p` of the line `w` as the rewrites so far have left it, carrying the
      cursor along: every cell holding `o` is rewritten, and the scan goes on
      with the cell that follows the matched one in the rewritten line. */
  function SweepFrom(w: Line, o: char, newText: string, p: nat, cursor: Option<nat>): (r: (Line, Option<nat>))
    requires p <= |w| && SweepSafe(w, o, newText, p)
    decreases CountFrom(w, o, p), |w| - p
  {
    if p == |w| then (w, cursor)
    else
      assert w[p..] == [w[p]] + w[p + 1..];
      if w[p] == o then
        RewriteConsumes(w, o, newText, p);
        SweepFrom(Rewritten(w, p, newText), o, newText, p + 1, Remap(cursor, p, |newText|))
      else
        SweepFrom(w, o, newText, p + 1, cursor)
  }

  /** The line and cursor after `replaceAll([o], newText)`. */
  function Sweep(l: Line, o: char, newText: string, cursor: Option<nat>): (Line, Option<nat>)
    requires SweepSafe(l, o, newText, 0)
  {
    SweepFrom(l, o, newText, 0, cursor)
  }

  /** The scan loop of `replaceAll` for a one-character pattern: it tells
      whether any cell matched, and rewrites each matching cell. */
  method SweepLine(l: Line, o: char, newText: string, cursor: Option<nat>)
    returns (line: Line, cur: Option<nat>, found: bool)
    requires SweepSafe(l, o, newText, 0)
    ensures (line, cur) == Sweep(l, o, newText, cursor)
    ensures found <==> o in l
  {
    line, cur, found := l, cursor, false;
    var p := 0;
    while p < |line|
      invariant p <= |line| && SweepSafe(line, o, newText, p)
      invariant SweepFrom(line, o, newText, p, cur) == Sweep(l, o, newText, cursor)
      invariant (o in l) <==> (found || o in line[p..])
      decreases CountFrom(line, o, p), |line| - p
    {
      assert line[p..] == [line[p]] + line[p + 1..];
      if line[p] == o {
        RewriteConsumes(line, o, newText, p);
        line := Splice(line, p, newText);
        cur := Remap(cur, p, |newText|);
        found := true;
      }
      p := p + 1;
    }
  }

  /** A cursor inside the line stays inside it through the sweep. */
  lemma {:induction false} SweepKeepsCursor(w: Line, o: char, newText: string, p: nat, cursor: Option<nat>)
    requires p <= |w| && SweepSafe(w, o, newText, p) && (cursor.Some? ==> cursor.value < |w|)
    ensures var r := SweepFrom(w, o, newText, p, cursor);
            r.1.Some? ==> r.1.value < |r.0|
    decreases CountFrom(w, o, p), |w| - p
  {
    if p < |w| {
      assert w[p..] == [w[p]] + w[p + 1..];
      if w[p] == o {
        RewriteConsumes(w, o, newText, p);
        if cursor.Some? {
          RemapKeepsCell(w, p, newText, cursor.value);
        }
        SweepKeepsCursor(Rewritten(w, p, newText), o, newText, p + 1, Remap(cursor, p, |newText|));
      } else {
        SweepKeepsCursor(w, o, newText, p + 1, cursor);
      }
    }
  }

  /** Nothing in the line matches: the sweep changes nothing. */
  lemma {:induction false} SweepWithoutMatch(w: Line, o: char, newText: string, p: nat, cursor: Option<nat>)
    requires p <= |w| && o != '\0' && newText != [] && o !in w[p..]
    ensures SweepFrom(w, o, newText, p, cursor) == (w, cursor)
    decreases |w| - p
  {
    if p < |w| {
      assert w[p] in w[p..];
      assert w[p + 1..] == w[p..][1..];
      SweepWithoutMatch(w, o, newText, p + 1, cursor);
    }
  }

  /** After the sweep no cell holds `o`, unless the new text starts with it. */
  lemma {:induction false} SweepLeavesNoMatch(w: Line, o: char, newText: string, p: nat, cursor: Option<nat>)
    requires p <= |w| && o != '\0' && newText != [] && newText[0] != o && o !in w[..p]
    ensures o !in SweepFrom(w, o, newText, p, cursor).0
    decreases CountFrom(w, o, p), |w| - p
  {
    if p < |w| {
      if w[p] == o {
        RewriteConsumes(w, o, newText, p);
        var r := Rewritten(w, p, newText);
        assert r[..p + 1] == w[..p] + [newText[0]];
        SweepLeavesNoMatch(r, o, newText, p + 1, Remap(cursor, p, |newText|));
      } else {
        assert w[..p + 1] == w[..p] + [w[p]];
        assert w[p..] == [w[p]] + w[p + 1..];
        SweepLeavesNoMatch(w, o, newText, p + 1, cursor);
      }
    }
  }

  /** The `'\0'` cell the one-character sweep from `p` appends: one if the
      last cell is still to be scanned and holds `o`. */
  function TrailingNul(w: Line, o: char, p: nat): string
  {
    if p < |w| && w[|w| - 1] == o then "\0" else []
  }

  /** With a one-character new text every cell holding `o` is overwritten in
      place, a `'\0'` cell follows if the last cell matched, and the cursor
      stays on its cell. */
  lemma {:induction false} SweepOneCharacter(w: Line, o: char, newText: string, p: nat, cursor: Option<nat>)
    requires p <= |w| && o != '\0' && |newText| == 1
    ensures SweepFrom(w, o, newText, p, cursor)
            == (w[..p] + Substituted(w[p..], o, newText[0]) + TrailingNul(w, o, p), cursor)
    decreases |w| - p, 1
  {
    if p < |w| {
      var n := newText[0];
      var x := Substituted(w[p + 1..], o, n);
      var h := if w[p] == o then n else w[p];
      assert w[p..] == [w[p]] + w[p + 1..];
      assert Substituted(w[p..], o, n) == [h] + x;
      RegroupTail(w[..p], [h], x);
      assert w[..p] + Substituted(w[p..], o, n) == w[..p] + [h] + x;
      if w[p] == o {
        if p + 1 < |w| {
          SweepOneMatch(w, o, newText, p, cursor);
        } else {
          SweepLastMatch(w, o, newText, p, cursor);
        }
      } else {
        assert w[..p + 1] == w[..p] + [w[p]];
        assert TrailingNul(w, o, p + 1) == TrailingNul(w, o, p);
        SweepOneCharacter(w, o, newText, p + 1, cursor);
      }
    } else {
      assert w[..p] + Substituted(w[p..], o, newText[0]) + TrailingNul(w, o, p) == w;
    }
  }

  /** The step of SweepOneCharacter at a matching cell that is not the last. */
  lemma {:induction false} SweepOneMatch(w: Line, o: char, newText: string, p: nat, cursor: Option<nat>)
    requires p + 1 < |w| && o != '\0' && |newText| == 1 && w[p] == o
    ensures SweepFrom(w, o, newText, p, cursor)
            == (w[..p] + [newText[0]] + Substituted(w[p + 1..], o, newText[0]) + TrailingNul(w, o, p), cursor)
    decreases |w| - p, 0
  {
    RewriteConsumes(w, o, newText, p);
    assert Remap(cursor, p, |newText|) == cursor;
    RewriteOneCharacter(w, p, newText);
    var r := Rewritten(w, p, newText);
    assert r[..p + 1] == w[..p] + [newText[0]];
    assert r[p + 1..] == w[p + 1..];
    assert TrailingNul(r, o, p + 1) == TrailingNul(w, o, p);
    SweepOneCharacter(r, o, newText, p + 1, cursor);
  }

  /** The step of SweepOneCharacter at a matching last cell. */
  lemma SweepLastMatch(w: Line, o: char, newText: string, p: nat, cursor: Option<nat>)
    requires p + 1 == |w| && o != '\0' && |newText| == 1 && w[p] == o
    ensures SweepFrom(w, o, newText, p, cursor)
            == (w[..p] + [newText[0]] + Substituted(w[p + 1..], o, newText[0]) + TrailingNul(w, o, p), cursor)
  {
    RewriteConsumes(w, o, newText, p);
    assert Remap(cursor, p, |newText|) == cursor;
    var r := Rewritten(w, p, newText);
    assert r == w[..p] + [newText[0]] + "\0";
    assert r[p + 1..] == "\0";
    SweepWithoutMatch(r, o, newText, p + 1, cursor);
    assert SweepFrom(w, o, newText, p, cursor) == (r, cursor);
    assert w[p + 1..] == [];
    assert Substituted(w[p + 1..], o, newText[0]) == [];
    assert w[..p] + [newText[0]] + Substituted(w[p + 1..], o, newText[0]) == w[..p] + [newText[0]];
    assert TrailingNul(w, o, p) == "\0";
  }

  /** The text with every `o` replaced by `n`. */
  function Substituted(s: seq<char>, o: char, n: char): (r: seq<char>)
    ensures |r| == |s|
    ensures forall i :: 0 <= i < |s| ==> r[i] == if s[i] == o then n else s[i]
  {
    if s == [] then [] else [if s[0] == o then n else s[0]] + Substituted(s[1..], o, n)
  }

  /** `replaceAll("\0", "x")` on "\0ab": the rewrite stays inside the line,
      and the sweep ends. */
  lemma NulSweepExample()
    ensures SweepSafe("\0ab", '\0', "x", 0)
    ensures Sweep("\0ab", '\0', "x", None).0 == "xab"
  {
  }

  /** `replaceAll("a", "bb")` on "aaa": the first "a" becomes "b" and is
      linked to the third cell, whose rewrite runs off the end and appends a
      `'\0'` cell. */
  lemma SweepExample()
    ensures Sweep("aaa", 'a', "bb", None).0 == "bb\0"
  {
    var w1 := Rewritten("aaa", 0, "bb");
    assert w1 == "ba";
    var w2 := Rewritten(w1, 1, "bb");
    assert w2 == "bb\0";
    assert SweepFrom(w2, 'a', "bb", 2, None) == (w2, None) by {
      assert w2[2..] == "\0";
      SweepWithoutMatch(w2, 'a', "bb", 2, None);
    }
  }

  // ---------------------------------------------------------------------
  // The sweep of replaceAll with a longer pattern and a new text no longer

  /** A cell equal to the next pattern character extends the match in
      progress, or starts one at that cell; the match is complete when it
      covers the whole pattern. */
  lemma MatchExtends(w: Line, pat: string, p: nat, idx: nat, start: nat)
    requires p < |w| && idx < |pat| && w[p] == pat[idx]
    requires idx > 0 ==> start + idx == p && w[start..p] == pat[..idx]
    ensures var s := if idx == 0 then p else start;
            && s + idx == p && w[s..p + 1] == pat[..idx + 1]
            && (idx + 1 == |pat| ==> OccursAt(w, s, pat))
  {
    var s := if idx == 0 then p else start;
    if idx > 0 {
      assert w[s..p + 1] == w[s..p] + [w[p]];
      assert pat[..idx + 1] == pat[..idx] + [pat[idx]];
    }
    if idx + 1 == |pat| {
      assert pat[..idx + 1] == pat;
    }
  }

  /** Where the scan of `replaceAll` goes on after rewriting a match of
      `pat` at `m` with a new text no longer than the pattern: the index, in
      the rewritten line, of the successor of the cell that completed the
      match. It lies past the match start and within the rewritten line. */
  function ResumeIndex(w: Line, pat: string, newText: string, m: nat): (q: nat)
    requires OccursAt(w, m, pat) && 1 <= |newText| <= |pat|
    ensures m < q <= |Rewritten(w, m, newText)|
  {
    m + |pat| - |newText| + 1
  }

  /** The scan of `replaceAll` for a pattern of two or more characters, cell
      by cell from `p` with `idx` characters of `pat` matched from `start`,
      carrying the cursor along. A completed match at `s` is rewritten; the
      scan then goes on after the cell that completed the match. With a new
      text shorter than the pattern that cell is still linked, now at
      `s + |pat| - |newText|`; with one of the same length it is detached, but
      its successor is the cell after the written ones, at `s + 1`. A longer
      new text, whose rewrite leaves the scan among detached cells, is only
      allowed where no match completes. */
  function SweepRolling(w: Line, pat: string, newText: string, p: nat, idx: nat, start: nat,
                        cursor: Option<nat>): (Line, Option<nat>)
    requires |pat| >= 2 && idx < |pat| && p <= |w|
    requires idx > 0 ==> start + idx == p && w[start..p] == pat[..idx]
    requires 1 <= |newText| <= |pat| || RollingMatch(w, pat, p, idx, start).None?
    decreases |w| - p, idx
  {
    if p == |w| then (w, cursor)
    else if w[p] == pat[idx] then
      var s := if idx == 0 then p else start;
      MatchExtends(w, pat, p, idx, start);
      if idx + 1 == |pat| then
        SweepRolling(Rewritten(w, s, newText), pat, newText, ResumeIndex(w, pat, newText, s), 0, 0,
                     Remap(cursor, s, |newText|))
      else SweepRolling(w, pat, newText, p + 1, idx + 1, s, cursor)
    else SweepRolling(w, pat, newText, p + 1, 0, 0, cursor)
  }

  /** The line and cursor after `replaceAll(pat, newText)` for a pattern of
      two or more characters. */
  function RollingSweep(l: Line, pat: string, newText: string, cursor: Option<nat>): (Line, Option<nat>)
    requires |pat| >= 2 && (1 <= |newText| <= |pat| || FirstRolling(l, pat).None?)
  {
    SweepRolling(l, pat, newText, 0, 0, 0, cursor)
  }

  /** The cell-by-cell scan is a sweep of matches: it rewrites the match the
      rolling match finds and resumes after it, and ends when none is left. */
  lemma {:induction false} SweepRollingByMatches(w: Line, pat: string, newText: string, p: nat, idx: nat,
                                                 start: nat, cursor: Option<nat>)
    requires |pat| >= 2 && idx < |pat| && p <= |w|
    requires idx > 0 ==> start + idx == p && w[start..p] == pat[..idx]
    requires 1 <= |newText| <= |pat| || RollingMatch(w, pat, p, idx, start).None?
    ensures var r := SweepRolling(w, pat, newText, p, idx, start, cursor);
            match RollingMatch(w, pat, p, idx, start)
            case None => r == (w, cursor)
            case Some(m) =>
              r == SweepRolling(Rewritten(w, m, newText), pat, newText, ResumeIndex(w, pat, newText, m), 0, 0,
                                Remap(cursor, m, |newText|))
    decreases |w| - p, idx
  {
    if p < |w| && idx + 1 < |pat| {
      if w[p] == pat[idx] {
        var s := if idx == 0 then p else start;
        MatchExtends(w, pat, p, idx, start);
        SweepRollingByMatches(w, pat, newText, p + 1, idx + 1, s, cursor);
      } else {
        SweepRollingByMatches(w, pat, newText, p + 1, 0, 0, cursor);
      }
    } else if p < |w| && w[p] != pat[idx] {
      SweepRollingByMatches(w, pat, newText, p + 1, 0, 0, cursor);
    }
  }

  /** A scan from cell `p` with no match in progress never changes the
      cells before `p`. */
  lemma {:induction false} SweepRollingKeepsPrefix(w: Line, pat: string, newText: string, p: nat,
                                                   cursor: Option<nat>)
    requires |pat| >= 2 && p <= |w|
    requires 1 <= |newText| <= |pat| || RollingMatch(w, pat, p, 0, 0).None?
    ensures var r := SweepRolling(w, pat, newText, p, 0, 0, cursor).0;
            p <= |r| && r[..p] == w[..p]
    decreases |w| - p
  {
    SweepRollingByMatches(w, pat, newText, p, 0, 0, cursor);
    var f := RollingMatch(w, pat, p, 0, 0);
    if f.Some? {
      var m := f.value;
      var v := Rewritten(w, m, newText);
      var q := ResumeIndex(w, pat, newText, m);
      assert |v| - q < |w| - p;
      SweepRollingKeepsPrefix(v, pat, newText, q, Remap(cursor, m, |newText|));
      var r := SweepRolling(v, pat, newText, q, 0, 0, Remap(cursor, m, |newText|)).0;
      assert r[..p] == r[..q][..p] == v[..q][..p] == v[..m][..p] == w[..p];
    }
  }

  /** A cursor inside the line stays inside it through the scan. */
  lemma {:induction false} SweepRollingKeepsCursor(w: Line, pat: string, newText: string, p: nat,
                                                   cursor: Option<nat>)
    requires |pat| >= 2 && p <= |w|
    requires 1 <= |newText| <= |pat| || RollingMatch(w, pat, p, 0, 0).None?
    requires cursor.Some? ==> cursor.value < |w|
    ensures var r := SweepRolling(w, pat, newText, p, 0, 0, cursor);
            r.1.Some? ==> r.1.value < |r.0|
    decreases |w| - p
  {
    SweepRollingByMatches(w, pat, newText, p, 0, 0, cursor);
    var f := RollingMatch(w, pat, p, 0, 0);
    if f.Some? {
      var m := f.value;
      var v := Rewritten(w, m, newText);
      var q := ResumeIndex(w, pat, newText, m);
      assert |v| - q < |w| - p;
      if cursor.Some? {
        RemapKeepsCell(w, m, newText, cursor.value);
      }
      SweepRollingKeepsCursor(v, pat, newText, q, Remap(cursor, m, |newText|));
    }
  }

  /** `replaceAll` with a longer pattern: without a rolling match nothing
      changes; otherwise the first rewrite is at that match, so everything
      before it is kept and the match start holds the new text's first
      character. */
  lemma RollingSweepFirst(l: Line, pat: string, newText: string, cursor: Option<nat>)
    requires |pat| >= 2 && (1 <= |newText| <= |pat| || FirstRolling(l, pat).None?)
    ensures var r := RollingSweep(l, pat, newText, cursor);
            && (FirstRolling(l, pat).None? ==> r == (l, cursor))
            && (FirstRolling(l, pat).Some? ==>
                  var m := FirstRolling(l, pat).value;
                  m < |r.0| && r.0[..m + 1] == l[..m] + [newText[0]])
  {
    SweepRollingByMatches(l, pat, newText, 0, 0, 0, cursor);
    if FirstRolling(l, pat).Some? {
      var m := FirstRolling(l, pat).value;
      var v := Rewritten(l, m, newText);
      var q := ResumeIndex(l, pat, newText, m);
      SweepRollingKeepsPrefix(v, pat, newText, q, Remap(cursor, m, |newText|));
      var r := SweepRolling(v, pat, newText, q, 0, 0, Remap(cursor, m, |newText|)).0;
      assert r[..m + 1] == r[..q][..m + 1] == v[..q][..m + 1] == v[..m + 1];
      assert v[..m + 1] == v[..m] + [v[m]];
    }
  }

  /** The scan loop of `replaceAll` for a pattern of two or more characters:
      the rolling match of `ScanRolling`, where a completed match is
      rewritten and the scan goes on from the completing cell's successor. */
  method RollingSweepLine(l: Line, pat: string, newText: string, cursor: Option<nat>)
    returns (line: Line, cur: Option<nat>, found: bool)
    requires |pat| >= 2 && (1 <= |newText| <= |pat| || FirstRolling(l, pat).None?)
    ensures (line, cur) == RollingSweep(l, pat, newText, cursor)
    ensures found <==> FirstRolling(l, pat).Some?
  {
    line, cur, found := l, cursor, false;
    var matchIndex: nat := 0;
    var matchStart: nat := 0;
    var p: nat := 0;
    while p < |line|
      invariant p <= |line| && matchIndex < |pat|
      invariant matchIndex > 0 ==> matchStart + matchIndex == p && line[matchStart..p] == pat[..matchIndex]
      invariant 1 <= |newText| <= |pat| || RollingMatch(line, pat, p, matchIndex, matchStart).None?
      invariant SweepRolling(line, pat, newText, p, matchIndex, matchStart, cur) == RollingSweep(l, pat, newText, cursor)
      invariant FirstRolling(l, pat).Some? <==> found || RollingMatch(line, pat, p, matchIndex, matchStart).Some?
      decreases |line| - p, matchIndex
    {
      if line[p] == pat[matchIndex] {
        MatchExtends(line, pat, p, matchIndex, matchStart);
        if matchIndex == 0 {
          matchStart := p;
        }
        matchIndex := matchIndex + 1;
        if matchIndex == |pat| {
          var q := ResumeIndex(line, pat, newText, matchStart);
          line := Splice(line, matchStart, newText);
          cur := Remap(cur, matchStart, |newText|);
          found := true;
          p := q - 1;
          matchIndex := 0;
          matchStart := 0;
        }
      } else {
        matchIndex := 0;
        matchStart := 0;
      }
      p := p + 1;
    }
  }

  /** A new text shorter than the pattern: the cell that completed a match
      stays linked and the scan goes on after it, so "abcabc" with "abc"
      replaced by "x" becomes "xbcxbc". */
  lemma RollingSweepShorter()
    ensures RollingSweep("abcabc", "abc", "x", None).0 == "xbcxbc"
  {
    SweepRollingByMatches("abcabc", "abc", "x", 0, 0, 0, None);
    var v := Rewritten("abcabc", 0, "x");
    assert v == "xbcabc";
    assert FirstRolling("abcabc", "abc") == Some(0);
    SweepRollingByMatches(v, "abc", "x", 3, 0, 0, None);
    assert RollingMatch(v, "abc", 3, 0, 0) == Some(3);
    var u := Rewritten(v, 3, "x");
    assert u == "xbcxbc";
  }

  /** A new text as long as the pattern: the scan resumes right after the
      match start, so "abab" with "ab" replaced by "xy" becomes "xx\0". */
  lemma RollingSweepSameLength()
    ensures RollingSweep("abab", "ab", "xy", None).0 == "xx\0"
  {
    SweepRollingByMatches("abab", "ab", "xy", 0, 0, 0, None);
    var v := Rewritten("abab", 0, "xy");
    assert v == "xab";
    assert FirstRolling("abab", "ab") == Some(0);
    SweepRollingByMatches(v, "ab", "xy", 1, 0, 0, None);
    assert RollingMatch(v, "ab", 1, 0, 0) == Some(1);
    var u := Rewritten(v, 1, "xy");
    assert u == "xx\0";
    SweepRollingByMatches(u, "ab", "xy", 2, 0, 0, None);
  }
}
