/** The search engine: a first-match scan over the document, the resumed scans
    of find-next and find-previous, and the document-wide replace. */
module Search {
  import opened Wrappers
  import opened Text
  import opened Matching
  import opened Find

  /** Scans lines `from`, `from + 1`, ... cell by cell and stops at the first hit. */
  method ScanForward(lines: seq<Line>, pat: string, guarded: bool, from: nat) returns (r: Option<Position>)
    ensures r == ForwardScan(lines, pat, guarded, from)
  {
    var i := from;
    while i < |lines|
      invariant from <= i
      invariant ForwardScan(lines, pat, guarded, from) == ForwardScan(lines, pat, guarded, i)
      decreases |lines| - i
    {
      var k := 0;
      while k < |lines[i]|
        invariant k <= |lines[i]|
        invariant FirstHit(lines[i], pat, guarded, 0) == FirstHit(lines[i], pat, guarded, k)
      {
        if !guarded || lines[i][k] == Lead(pat) {
          var j := MatchLength(lines[i], k, pat);
          if j == |pat| {
            return Some(Position(i, k));
          }
        }
        k := k + 1;
      }
      i := i + 1;
    }
    return None;
  }

  /** Scans lines `below - 1` down to 0, each from its first cell. */
  method ScanBackward(lines: seq<Line>, pat: string, below: nat) returns (r: Option<Position>)
    requires below <= |lines|
    ensures r == BackwardScan(lines, pat, below)
  {
    var i: nat := below;
    while i > 0
      invariant i <= below
      invariant BackwardScan(lines, pat, below) == BackwardScan(lines, pat, i)
    {
      i := i - 1;
      var k := 0;
      while k < |lines[i]|
        invariant k <= |lines[i]|
        invariant FirstHit(lines[i], pat, true, 0) == FirstHit(lines[i], pat, true, k)
      {
        if lines[i][k] == Lead(pat) {
          var j := MatchLength(lines[i], k, pat);
          if j == |pat| {
            return Some(Position(i, k));
          }
        }
        k := k + 1;
      }
    }
    return None;
  }

  /** The column a resumed scan reports: on the line it resumes from, the
      recorded column plus the cell index; on later lines the cell index. */
  function ReportedColumn(p: Position, from: nat, seed: nat): nat
  {
    if p.line == from then seed + p.cell else p.cell
  }

  /** findNext right after a search: the resumed scan finds the same leftmost
      match of the recorded line again, from that line's first cell, and
      reports it at the recorded column plus its cell index, that is at twice
      its column. A match at column 0 is found again unchanged. */
  lemma FindNextAfterSearch(lines: seq<Line>, pat: string, l: nat, c: nat)
    requires pat != [] && l < |lines| && MatchAt(lines[l], c, pat)
    requires forall d :: 0 <= d < c ==> !MatchAt(lines[l], d, pat)
    ensures ForwardScan(lines, pat, true, l) == Some(Position(l, c))
    ensures ReportedColumn(Position(l, c), l, c) == 2 * c
  {
    GuardIrrelevant(lines[l], c, pat);
  }

  /** The empty pattern matches at every cell, so a search for it succeeds
      exactly when the document has a non-empty line. */
  lemma EmptyPatternFound(lines: seq<Line>)
    ensures (exists i, c :: 0 <= i < |lines| && MatchAt(lines[i], c, "")) <==>
            (exists i :: 0 <= i < |lines| && lines[i] != [])
  {
    if i :| 0 <= i < |lines| && lines[i] != [] {
      assert MatchAt(lines[i], 0, "");
    }
  }

  /** The earliest match of the empty pattern is the head cell of the first
      non-empty line. */
  lemma EmptyPatternEarliest(lines: seq<Line>, l: nat, c: int)
    requires l < |lines| && MatchAt(lines[l], c, "")
    requires forall i, d :: 0 <= i < |lines| && MatchAt(lines[i], d, "") ==> l < i || (l == i && c <= d)
    ensures c == 0 && lines[l] != []
    ensures forall i :: 0 <= i < l ==> lines[i] == []
  {
    assert MatchAt(lines[l], 0, "");
    forall i | 0 <= i < l
      ensures lines[i] == []
    {
      if lines[i] != [] {
        assert MatchAt(lines[i], 0, "");
      }
    }
  }

  /** A line is the first of the document to contain `pat`. */
  predicate FirstContaining(lines: seq<Line>, pat: string, i: nat)
    requires i < |lines|
  {
    Contains(lines[i], pat) && forall j :: 0 <= j < i ==> !Contains(lines[j], pat)
  }

  /** The rewrite of one line's text that contains `oldStr`: the first
      occurrence is replaced and, with `global`, every later one found from
      the end of the text just put in. */
  method RewriteLine(line: Line, oldStr: string, newStr: string, global: bool) returns (lineContent: Line)
    requires oldStr != [] && Contains(line, oldStr)
    ensures lineContent == if global then ReplaceEvery(line, oldStr, newStr)
                           else ReplaceFirstOccurrence(line, oldStr, newStr)
  {
    FindFromSomeIffContains(line, oldStr);
    lineContent := line;
    var start: nat := 0;
    var p := FindFrom(line, oldStr, 0).value;
    while true
      invariant start <= |lineContent|
      invariant FindFrom(lineContent, oldStr, start) == Some(p)
      invariant global ==> lineContent[..start] + ReplaceEvery(lineContent[start..], oldStr, newStr)
                           == ReplaceEvery(line, oldStr, newStr)
      invariant !global ==> lineContent == line && start == 0
      decreases |lineContent| - start
    {
      RewriteAdvances(line, lineContent, oldStr, newStr, global, start, p);
      lineContent := lineContent[..p] + newStr + lineContent[p + |oldStr|..];
      if !global {
        return;
      }
      start := p + |newStr|;
      var nextPos := FindFrom(lineContent, oldStr, start);
      if nextPos.None? {
        RewriteDone(lineContent, oldStr, newStr, start);
        return;
      }
      p := nextPos.value;
    }
  }

  /** One round of the rewrite loop, from the text `content` whose next
      occurrence from `start` is at `p`: without `global` the result is the
      first replacement, with it the rest still to rewrite shrinks and
      rewriting it completes the rewrite of `line`. */
  lemma RewriteAdvances(line: Line, content: Line, oldStr: string, newStr: string, global: bool,
                        start: nat, p: nat)
    requires oldStr != [] && start <= |content| && FindFrom(content, oldStr, start) == Some(p)
    requires global ==> content[..start] + ReplaceEvery(content[start..], oldStr, newStr)
                        == ReplaceEvery(line, oldStr, newStr)
    requires !global ==> content == line && start == 0
    ensures var next := content[..p] + newStr + content[p + |oldStr|..];
            && p + |newStr| <= |next| && |next| - (p + |newStr|) < |content| - start
            && (!global ==> next == ReplaceFirstOccurrence(line, oldStr, newStr))
            && (global ==> next[..p + |newStr|] + ReplaceEvery(next[p + |newStr|..], oldStr, newStr)
                           == ReplaceEvery(line, oldStr, newStr))
  {
    if global {
      RewriteStep(content, oldStr, newStr, start, p);
    } else {
      FirstRewrite(line, oldStr, newStr, p);
    }
  }

  /** The first occurrence found is the one replaced. */
  lemma FirstRewrite(line: Line, oldStr: string, newStr: string, p: nat)
    requires FindFrom(line, oldStr, 0) == Some(p)
    ensures ReplaceFirstOccurrence(line, oldStr, newStr) == line[..p] + newStr + line[p + |oldStr|..]
  {
  }

  /** One of the first `n` lines contains `pat`. */
  predicate AnyContains(lines: seq<Line>, pat: string, n: nat)
    requires n <= |lines|
  {
    exists j :: 0 <= j < n && Contains(lines[j], pat)
  }

  /** The first line that contains `pat` is the only line that is first to contain it. */
  lemma OnlyFirstContaining(lines: seq<Line>, pat: string, i: nat)
    requires i < |lines| && Contains(lines[i], pat)
    requires !AnyContains(lines, pat, i)
    ensures forall j :: 0 <= j < |lines| ==> (FirstContaining(lines, pat, j) <==> j == i)
  {
  }

  /** Line `i` of the document after `replace`: with `global` every occurrence
      replaced, without it only the first one of the first line that has one. */
  function ReplacedLine(lines: seq<Line>, oldStr: string, newStr: string, global: bool, i: nat): Line
    requires oldStr != [] && i < |lines|
  {
    if global then ReplaceEvery(lines[i], oldStr, newStr)
    else if FirstContaining(lines, oldStr, i) then ReplaceFirstOccurrence(lines[i], oldStr, newStr)
    else lines[i]
  }

  /** `replace` builds line `i` anew: it contains `oldStr` and, without
      `global`, is the first line that does. */
  predicate Rebuilt(lines: seq<Line>, oldStr: string, global: bool, i: nat)
    requires i < |lines|
  {
    oldStr != [] && (if global then Contains(lines[i], oldStr) else FirstContaining(lines, oldStr, i))
  }

  /** A line that is not built anew keeps its text. */
  lemma UnrebuiltLineKept(lines: seq<Line>, oldStr: string, newStr: string, global: bool, i: nat)
    requires oldStr != [] && i < |lines| && !Rebuilt(lines, oldStr, global, i)
    ensures ReplacedLine(lines, oldStr, newStr, global, i) == lines[i]
  {
    if global {
      ReplaceEveryWithoutOccurrence(lines[i], oldStr, newStr);
    }
  }

  /** Where the global `replace` loop stands at line `i`: the lines before
      it have every occurrence replaced, the others are untouched. */
  predicate EveryReplacedBefore(lines: seq<Line>, result: seq<Line>, oldStr: string, newStr: string, i: nat)
    requires |result| == |lines| && oldStr != []
  {
    forall j :: 0 <= j < |lines| ==> result[j] == if j < i then ReplaceEvery(lines[j], oldStr, newStr) else lines[j]
  }

  /** The global loop rewrites line `i`, which contains `oldStr`. */
  lemma EveryReplacedStep(lines: seq<Line>, result: seq<Line>, oldStr: string, newStr: string, i: nat)
    requires i < |lines| == |result| && oldStr != [] && EveryReplacedBefore(lines, result, oldStr, newStr, i)
    ensures EveryReplacedBefore(lines, result[i := ReplaceEvery(lines[i], oldStr, newStr)], oldStr, newStr, i + 1)
  {
  }

  /** The loop passes over line `i`, which does not contain `oldStr`. */
  lemma NoneStep(lines: seq<Line>, result: seq<Line>, oldStr: string, newStr: string, global: bool, i: nat)
    requires i < |lines| == |result| && oldStr != [] && !Contains(lines[i], oldStr)
    requires global ==> EveryReplacedBefore(lines, result, oldStr, newStr, i)
    requires !AnyContains(lines, oldStr, i) || global
    ensures global ==> EveryReplacedBefore(lines, result, oldStr, newStr, i + 1)
    ensures AnyContains(lines, oldStr, i + 1) == AnyContains(lines, oldStr, i)
  {
    if global {
      ReplaceEveryWithoutOccurrence(lines[i], oldStr, newStr);
    }
    if AnyContains(lines, oldStr, i + 1) {
      var j :| 0 <= j < i + 1 && Contains(lines[j], oldStr);
      assert j < i;
    }
  }

  /** Without `global`, the first line containing `oldStr` is the one by
      which the loop stops: it alone is rewritten. */
  lemma FirstReplaceDone(lines: seq<Line>, oldStr: string, newStr: string, i: nat)
    requires i < |lines| && oldStr != [] && Contains(lines[i], oldStr) && !AnyContains(lines, oldStr, i)
    ensures AnyContains(lines, oldStr, |lines|)
    ensures var result := lines[i := ReplaceFirstOccurrence(lines[i], oldStr, newStr)];
            forall j :: 0 <= j < |lines| ==> result[j] == ReplacedLine(lines, oldStr, newStr, false, j)
  {
    OnlyFirstContaining(lines, oldStr, i);
  }

  /** Without `global`, a document with no line containing `oldStr` is left
      as it is. */
  lemma NoneReplaced(lines: seq<Line>, oldStr: string, newStr: string)
    requires oldStr != [] && !AnyContains(lines, oldStr, |lines|)
    ensures forall j :: 0 <= j < |lines| ==> lines[j] == ReplacedLine(lines, oldStr, newStr, false, j)
  {
  }

  class SearchEngine {
    var lastPattern: string
    var lastMatchLine: nat
    var lastMatchColumn: nat

    constructor ()
      ensures lastPattern == "" && lastMatchLine == 0 && lastMatchColumn == 0
    {
      lastPattern := "";
      lastMatchLine := 0;
      lastMatchColumn := 0;
    }

    /** Records `str` and looks for its first match: the earliest line that has
        one, and in it the leftmost column. A failed search resets the
        recorded position to line 0, column 0. */
    method DoSearch(lines: seq<Line>, str: string) returns (found: bool)
      modifies this
      ensures lastPattern == str
      ensures found <==> exists i, c :: 0 <= i < |lines| && MatchAt(lines[i], c, str)
      ensures found ==> lastMatchLine < |lines| && MatchAt(lines[lastMatchLine], lastMatchColumn, str)
      ensures found ==> forall i, c :: 0 <= i < |lines| && MatchAt(lines[i], c, str) ==>
                          lastMatchLine < i || (lastMatchLine == i && lastMatchColumn <= c)
      ensures !found ==> lastMatchLine == 0 && lastMatchColumn == 0
    {
      lastPattern := str;
      var r := ScanForward(lines, str, false, 0);
      match r
      case Some(p) =>
        lastMatchLine, lastMatchColumn := p.line, p.cell;
        found := true;
        forall i, c | 0 <= i < |lines| && MatchAt(lines[i], c, str)
          ensures p.line < i || (p.line == i && p.cell <= c)
        {
          assert Hit(lines[i], c, str, false);
        }
      case None =>
        lastMatchLine, lastMatchColumn := 0, 0;
        found := false;
        forall i, c | 0 <= i < |lines| && MatchAt(lines[i], c, str)
          ensures false
        {
          assert Hit(lines[i], c, str, false);
        }
    }

    /** Looks for the recorded pattern again from the recorded line on, that
        line from its first cell; a match there is reported at the recorded
        column plus its cell index. A failed search changes nothing. */
    method FindNext(lines: seq<Line>) returns (found: bool)
      modifies this
      ensures lastPattern == old(lastPattern)
      ensures var r := ForwardScan(lines, lastPattern, true, old(lastMatchLine));
              found == r.Some?
              && (found ==> lastMatchLine == r.value.line
                            && lastMatchColumn == ReportedColumn(r.value, old(lastMatchLine), old(lastMatchColumn)))
      ensures !found ==> lastMatchLine == old(lastMatchLine) && lastMatchColumn == old(lastMatchColumn)
    {
      var r := ScanForward(lines, lastPattern, true, lastMatchLine);
      found := r.Some?;
      if found {
        lastMatchColumn := ReportedColumn(r.value, lastMatchLine, lastMatchColumn);
        lastMatchLine := r.value.line;
      }
    }

    /** The same forward scan as FindNext; only if it fails, the lines before
        the recorded one, nearest first, each from its first cell. */
    method FindPrevious(lines: seq<Line>) returns (found: bool)
      requires lastMatchLine <= |lines|
      modifies this
      ensures lastPattern == old(lastPattern)
      ensures var f := ForwardScan(lines, lastPattern, true, old(lastMatchLine));
              var b := BackwardScan(lines, lastPattern, old(lastMatchLine));
              found == (f.Some? || b.Some?)
              && (f.Some? ==> lastMatchLine == f.value.line
                              && lastMatchColumn == ReportedColumn(f.value, old(lastMatchLine), old(lastMatchColumn)))
              && (f.None? && b.Some? ==> lastMatchLine == b.value.line && lastMatchColumn == b.value.cell)
      ensures !found ==> lastMatchLine == old(lastMatchLine) && lastMatchColumn == old(lastMatchColumn)
    {
      var f := ScanForward(lines, lastPattern, true, lastMatchLine);
      if f.Some? {
        lastMatchColumn := ReportedColumn(f.value, lastMatchLine, lastMatchColumn);
        lastMatchLine := f.value.line;
        return true;
      }
      var b := ScanBackward(lines, lastPattern, lastMatchLine);
      if b.Some? {
        lastMatchLine, lastMatchColumn := b.value.line, b.value.cell;
        return true;
      }
      return false;
    }

    /** Rewrites the lines that contain `oldStr`: with `global`, every such
        line has all its occurrences replaced left to right; without it, only
        the first occurrence on the first such line. The result tells whether
        any line contained `oldStr`; an empty pattern or document is refused. */
    method Replace(lines: seq<Line>, oldStr: string, newStr: string, global: bool)
      returns (result: seq<Line>, replaced: bool)
      ensures replaced <==> oldStr != [] && AnyContains(lines, oldStr, |lines|)
      ensures |result| == |lines|
      ensures oldStr == [] ==> result == lines
      ensures oldStr != [] ==>
                forall i :: 0 <= i < |lines| ==> result[i] == ReplacedLine(lines, oldStr, newStr, global, i)
    {
      result := lines;
      replaced := false;
      if |lines| == 0 || |oldStr| == 0 {
        return;
      }
      var i := 0;
      while i < |lines|
        invariant i <= |lines| && |result| == |lines|
        invariant global ==> (replaced <==> AnyContains(lines, oldStr, i))
        invariant global ==> EveryReplacedBefore(lines, result, oldStr, newStr, i)
        invariant !global ==> !replaced && result == lines && !AnyContains(lines, oldStr, i)
      {
        FindFromSomeIffContains(lines[i], oldStr);
        if FindFrom(lines[i], oldStr, 0).Some? {
          replaced := true;
          var rewritten := RewriteLine(lines[i], oldStr, newStr, global);
          if !global {
            FirstReplaceDone(lines, oldStr, newStr, i);
            return lines[i := rewritten], true;
          }
          EveryReplacedStep(lines, result, oldStr, newStr, i);
          result := result[i := rewritten];
        } else {
          NoneStep(lines, result, oldStr, newStr, global, i);
        }
        i := i + 1;
      }
      if !global {
        NoneReplaced(lines, oldStr, newStr);
      }
    }
  }
}
