/** The string operations the document-wide replace uses: `std::string::find`
    and the rewriting of a line's text. */
module Find {
  import opened Wrappers

  /** `pat` occurs in `s` starting at index `p`. */
  predicate OccursAt(s: seq<char>, p: nat, pat: seq<char>)
  {
    p + |pat| <= |s| && s[p..p + |pat|] == pat
  }

  predicate Contains(s: seq<char>, pat: seq<char>)
  {
    exists p :: 0 <= p <= |s| && OccursAt(s, p, pat)
  }

  /** No occurrence of `pat` starts in `[from, to)`. */
  predicate NoneBetween(s: seq<char>, pat: seq<char>, from: nat, to: nat)
  {
    forall q :: from <= q < to ==> !OccursAt(s, q, pat)
  }

  /** `s.find(pat, from)`: the first occurrence at or after `from`. */
  function FindFrom(s: seq<char>, pat: seq<char>, from: nat): (r: Option<nat>)
    ensures r.Some? ==> from <= r.value && r.value + |pat| <= |s|
    decreases |s| - from
  {
    if from + |pat| > |s| then None
    else if s[from..from + |pat|] == pat then Some(from)
    else FindFrom(s, pat, from + 1)
  }

  /** What `find` promises: the position it returns is an occurrence and the
      first at or after `from`, and it returns nothing only when there is no
      occurrence there or later. */
  lemma {:induction false} FindFromFirst(s: seq<char>, pat: seq<char>, from: nat)
    ensures FindFrom(s, pat, from).Some? ==> OccursAt(s, FindFrom(s, pat, from).value, pat)
    ensures FindFrom(s, pat, from).Some? ==> NoneBetween(s, pat, from, FindFrom(s, pat, from).value)
    ensures FindFrom(s, pat, from).None? ==> forall q :: from <= q ==> !OccursAt(s, q, pat)
    decreases |s| - from
  {
    if from + |pat| <= |s| && s[from..from + |pat|] != pat {
      FindFromFirst(s, pat, from + 1);
    }
  }

  /** A search from `from` finds something exactly when `s` contains `pat` there or later;
      from 0 that is when `s` contains `pat` at all. */
  lemma FindFromSomeIffContains(s: seq<char>, pat: seq<char>)
    ensures FindFrom(s, pat, 0).Some? <==> Contains(s, pat)
  {
    FindFromFirst(s, pat, 0);
    if Contains(s, pat) {
      var p :| 0 <= p <= |s| && OccursAt(s, p, pat);
    }
  }

  function ShiftBy(r: Option<nat>, d: nat): Option<nat>
  {
    match r
    case None => None
    case Some(p) => Some(p + d)
  }

  /** Searching from `start + i` in `s` is searching from `i` in the suffix of
      `s` that starts at `start`. */
  lemma {:induction false} FindFromSuffix(s: seq<char>, pat: seq<char>, start: nat, i: nat)
    requires start <= |s|
    ensures FindFrom(s, pat, start + i) == ShiftBy(FindFrom(s[start..], pat, i), start)
    decreases |s| - start - i
  {
    if start + i + |pat| <= |s| {
      assert s[start + i..start + i + |pat|] == s[start..][i..i + |pat|];
      if s[start + i..start + i + |pat|] != pat {
        FindFromSuffix(s, pat, start, i + 1);
      }
    }
  }

  /** The text after replacing the first occurrence of `oldStr`. */
  function ReplaceFirstOccurrence(s: seq<char>, oldStr: seq<char>, newStr: seq<char>): seq<char>
  {
    match FindFrom(s, oldStr, 0)
    case None => s
    case Some(p) => s[..p] + newStr + s[p + |oldStr|..]
  }

  /** The text after replacing every occurrence of `oldStr` left to right, each
      search resuming after the text just put in. */
  function ReplaceEvery(s: seq<char>, oldStr: seq<char>, newStr: seq<char>): seq<char>
    requires oldStr != []
    decreases |s|
  {
    match FindFrom(s, oldStr, 0)
    case None => s
    case Some(p) => s[..p] + newStr + ReplaceEvery(s[p + |oldStr|..], oldStr, newStr)
  }

  /** A text without occurrence is left as it is. */
  lemma ReplaceEveryWithoutOccurrence(s: seq<char>, oldStr: seq<char>, newStr: seq<char>)
    requires oldStr != [] && !Contains(s, oldStr)
    ensures ReplaceEvery(s, oldStr, newStr) == s && ReplaceFirstOccurrence(s, oldStr, newStr) == s
  {
    FindFromSomeIffContains(s, oldStr);
  }

  /** An occurrence with none before it, from `from` on, is what `find` returns. */
  lemma {:induction false} FindFromAt(s: seq<char>, pat: seq<char>, from: nat, p: nat)
    requires from <= p && OccursAt(s, p, pat) && NoneBetween(s, pat, from, p)
    ensures FindFrom(s, pat, from) == Some(p)
    decreases p - from
  {
    if from < p {
      assert !OccursAt(s, from, pat);
      FindFromAt(s, pat, from + 1, p);
    }
  }

  /** The text before the first occurrence is kept; the replacement follows it. */
  lemma ReplaceEveryKeepsPrefix(s: seq<char>, oldStr: seq<char>, newStr: seq<char>, p: nat)
    requires oldStr != [] && OccursAt(s, p, oldStr) && NoneBetween(s, oldStr, 0, p)
    ensures ReplaceEvery(s, oldStr, newStr) == s[..p] + newStr + ReplaceEvery(s[p + |oldStr|..], oldStr, newStr)
    ensures ReplaceFirstOccurrence(s, oldStr, newStr) == s[..p] + newStr + s[p + |oldStr|..]
  {
    FindFromAt(s, oldStr, 0, p);
    ReplaceEveryFound(s, oldStr, newStr, p);
  }

  /** One round of the rewrite loop: replacing the occurrence found from
      `start` and resuming after the new text keeps the text equal to
      `ReplaceEvery` of the original once the rest is rewritten. */
  lemma RewriteStep(content: seq<char>, oldStr: seq<char>, newStr: seq<char>, start: nat, pos: nat)
    requires oldStr != [] && start <= |content|
    requires FindFrom(content, oldStr, start) == Some(pos)
    ensures var next := content[..pos] + newStr + content[pos + |oldStr|..];
            pos + |newStr| <= |next|
            && next[..pos + |newStr|] + ReplaceEvery(next[pos + |newStr|..], oldStr, newStr)
               == content[..start] + ReplaceEvery(content[start..], oldStr, newStr)
  {
    var t := content[start..];
    var p := pos - start;
    var next := content[..pos] + newStr + content[pos + |oldStr|..];
    var rest := ReplaceEvery(t[p + |oldStr|..], oldStr, newStr);
    RegroupRewrite(content, oldStr, newStr, start, pos, rest);
    calc {
      next[..pos + |newStr|] + ReplaceEvery(next[pos + |newStr|..], oldStr, newStr);
      next[..pos + |newStr|] + rest;
      content[..start] + (t[..p] + newStr + rest);
      { SuffixFound(content, oldStr, start, pos);
        ReplaceEveryFound(t, oldStr, newStr, p); }
      content[..start] + ReplaceEvery(t, oldStr, newStr);
    }
  }

  /** An occurrence found from `start` is found, shifted, in the suffix from `start`. */
  lemma SuffixFound(s: seq<char>, pat: seq<char>, start: nat, pos: nat)
    requires start <= |s| && FindFrom(s, pat, start) == Some(pos)
    ensures start <= pos && FindFrom(s[start..], pat, 0) == Some(pos - start)
  {
    FindFromSuffix(s, pat, start, 0);
    assert ShiftBy(FindFrom(s[start..], pat, 0), start) == Some(pos);
  }

  /** The first occurrence is where the rewriting cuts the text. */
  lemma ReplaceEveryFound(s: seq<char>, oldStr: seq<char>, newStr: seq<char>, p: nat)
    requires oldStr != [] && FindFrom(s, oldStr, 0) == Some(p)
    ensures ReplaceEvery(s, oldStr, newStr) == s[..p] + newStr + ReplaceEvery(s[p + |oldStr|..], oldStr, newStr)
  {
  }

  /** The sequence identities behind RewriteStep: the rewritten text cut after
      the new text, and the original cut at `start`, regroup alike. */
  lemma RegroupRewrite(content: seq<char>, oldStr: seq<char>, newStr: seq<char>, start: nat, pos: nat,
                       rest: seq<char>)
    requires start <= pos && pos + |oldStr| <= |content|
    ensures var next := content[..pos] + newStr + content[pos + |oldStr|..];
            var t := content[start..];
            && pos + |newStr| <= |next|
            && next[pos + |newStr|..] == content[pos + |oldStr|..] == t[pos - start + |oldStr|..]
            && next[..pos + |newStr|] + rest == content[..start] + (t[..pos - start] + newStr + rest)
  {
    var next := content[..pos] + newStr + content[pos + |oldStr|..];
    var t := content[start..];
    assert next[..pos + |newStr|] == content[..pos] + newStr;
    assert content[..pos] == content[..start] + t[..pos - start];
  }

  /** When nothing is found from `start`, the rest is already rewritten. */
  lemma RewriteDone(content: seq<char>, oldStr: seq<char>, newStr: seq<char>, start: nat)
    requires oldStr != [] && start <= |content|
    requires FindFrom(content, oldStr, start).None?
    ensures content[..start] + ReplaceEvery(content[start..], oldStr, newStr) == content
  {
    FindFromSuffix(content, oldStr, start, 0);
  }
}
