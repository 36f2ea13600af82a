/** Command mode: the history of executed commands with its browsing index,
    and the splitter of the `:s/old/new[/g]` substitute command. */
module Commands {
  import opened Wrappers

  // ---------------------------------------------------------------------
  // History

  /** 2^64: `size_t` arithmetic is modulo this. */
  const SizeModulus: nat := 0x1_0000_0000_0000_0000

  /** The largest `int` the browsing index can hold. */
  const IntMax: nat := 0x7fff_ffff

  /** An `int` or a size converted to `size_t`. */
  function SizeT(i: int): (r: nat)
    ensures r < SizeModulus
    ensures 0 <= i < SizeModulus ==> r == i
  {
    i % SizeModulus
  }

  /** The guard of `getNextCommand`, `index < commandHistory.size() - 1`: the
      `int` index is converted to `size_t` and the subtraction wraps. */
  predicate NextGuard(index: int, size: nat)
  {
    SizeT(index) < SizeT(size - 1)
  }

  /** In every reachable state the wrapped comparison means what it says:
      there is a later entry. For the empty history (index -1) both sides
      wrap to the largest `size_t` and the guard is false. */
  lemma NextGuardMeaning(index: int, size: nat)
    requires -1 <= index <= size < IntMax && (index == -1 <==> size == 0)
    ensures NextGuard(index, size) <==> 0 <= index && index + 1 < size
  {
    if size == 0 {
      assert SizeT(index) == SizeModulus - 1 == SizeT(size - 1);
    }
  }

  /** `getPreviousCommand` on the values: the new index and the command returned. */
  function PreviousStep(history: seq<string>, index: int): (r: (int, string))
    requires index <= |history|
    ensures index > 0 ==> r.0 == index - 1 && r.1 == history[index - 1]
    ensures index <= 0 ==> r == (index, "")
  {
    if index > 0 then (index - 1, history[index - 1]) else (index, "")
  }

  /** `getNextCommand` on the values. */
  function NextStep(history: seq<string>, index: int): (r: (int, string))
    requires -1 <= index <= |history| < IntMax && (index == -1 <==> history == [])
    ensures 0 <= index && index + 1 < |history| ==> r.0 == index + 1 && r.1 == history[index + 1]
    ensures !(0 <= index && index + 1 < |history|) ==> r == (index, "")
  {
    NextGuardMeaning(index, |history|);
    if NextGuard(index, |history|) then (index + 1, history[index + 1]) else (index, "")
  }

  /** Right after a command is added, stepping back returns it, and stepping
      forward returns nothing: the index is one past the newest entry. */
  lemma BrowseAfterAdd(history: seq<string>, command: string)
    requires |history| + 1 < IntMax
    ensures PreviousStep(history + [command], |history| + 1) == (|history|, command)
    ensures NextStep(history + [command], |history| + 1) == (|history| + 1, "")
  {
  }

  /** Stepping back and then forward returns to the entry left, when there
      is one. */
  lemma PreviousThenNext(history: seq<string>, index: int)
    requires 0 < index < |history| < IntMax
    ensures var p := PreviousStep(history, index);
            NextStep(history, p.0) == (index, history[index])
  {
  }

  /** Stepping back from the oldest entry returns nothing and stays there. */
  lemma PreviousAtOldest(history: seq<string>)
    requires history != []
    ensures PreviousStep(history, 0) == (0, "")
  {
  }

  /** The history of command mode and the browsing position in it. */
  class CommandMode {
    var commandHistory: seq<string>
    var index: int

    /** The index is -1 while the history is empty, and otherwise between
        the oldest entry and one past the newest. */
    predicate Valid()
      reads this
    {
      -1 <= index <= |commandHistory| < IntMax && (index == -1 <==> commandHistory == [])
    }

    constructor ()
      ensures Valid() && commandHistory == [] && index == -1
    {
      commandHistory := [];
      index := -1;
    }

    /** `addCommandToHistory`: appends the command and puts the index one
        past it. The new size must fit the `int` index. */
    method AddCommandToHistory(command: string)
      requires Valid() && |commandHistory| + 1 < IntMax
      modifies this
      ensures Valid()
      ensures commandHistory == old(commandHistory) + [command]
      ensures index == |commandHistory|
    {
      commandHistory := commandHistory + [command];
      index := |commandHistory|;
    }

    /** `getPreviousCommand`: steps back one entry and returns it; at the
        oldest entry, or with no history, returns "" and stays. */
    method GetPreviousCommand() returns (command: string)
      requires Valid()
      modifies this
      ensures Valid() && commandHistory == old(commandHistory)
      ensures (index, command) == PreviousStep(commandHistory, old(index))
    {
      if index > 0 {
        index := index - 1;
        return commandHistory[index];
      }
      return "";
    }

    /** `getNextCommand`: steps forward one entry and returns it while there
        is a later entry; otherwise returns "" and stays. */
    method GetNextCommand() returns (command: string)
      requires Valid()
      modifies this
      ensures Valid() && commandHistory == old(commandHistory)
      ensures (index, command) == NextStep(commandHistory, old(index))
    {
      NextGuardMeaning(index, |commandHistory|);
      if SizeT(index) < SizeT(|commandHistory| - 1) {
        index := index + 1;
        return commandHistory[index];
      }
      return "";
    }
  }

  // ---------------------------------------------------------------------
  // The substitute command

  /** A parsed `:s` command: the text to find, its replacement, and whether
      every occurrence is replaced (`replaceAll`) or the first (`replaceFirst`). */
  datatype Substitution = Substitution(oldText: string, newText: string, global: bool)

  /** `find(c)`: the index of the first `c`. */
  function FirstIndex(s: string, c: char): (r: Option<nat>)
    ensures r.Some? ==> r.value < |s| && s[r.value] == c && c !in s[..r.value]
    ensures r.None? <==> c !in s
  {
    if s == [] then None
    else if s[0] == c then Some(0)
    else match FirstIndex(s[1..], c)
      case None => None
      case Some(i) =>
        assert s[..i + 1] == [s[0]] + s[1..][..i];
        Some(i + 1)
  }

  /** `rfind(c)`: the index of the last `c`. */
  function LastIndex(s: string, c: char): (r: Option<nat>)
    ensures r.Some? ==> r.value < |s| && s[r.value] == c && c !in s[r.value + 1..]
    ensures r.None? <==> c !in s
  {
    if s == [] then None
    else if s[|s| - 1] == c then Some(|s| - 1)
    else
      assert s == s[..|s| - 1] + [s[|s| - 1]];
      match LastIndex(s[..|s| - 1], c)
      case None => None
      case Some(i) =>
        assert s[i + 1..] == s[..|s| - 1][i + 1..] + [s[|s| - 1]];
        Some(i)
  }

  /** The splitter as written, on the text after a leading "s/": the first
      and the last '/' must be two different slashes; the old text precedes
      the first, the new text lies between them, and the command is global
      exactly when "g" alone follows the last. */
  function ParseSubstitute(arg: string): (r: Option<Substitution>)
  {
    match (FirstIndex(arg, '/'), LastIndex(arg, '/'))
    case (Some(f), Some(l)) =>
      if f == l then None
      else Some(Substitution(arg[..f], arg[f + 1..l], arg[l + 1..] == "g"))
    case _ => None
  }

  /** The history entry main records for a substitution. */
  function HistoryEntry(s: Substitution): string
  {
    ":s/" + s.oldText + "/" + s.newText + (if s.global then "/g" else "")
  }

  /** The splitter accepts exactly the texts with at least two slashes, and
      splits at the first and the last one. */
  lemma ParseSubstituteSplits(arg: string)
    ensures ParseSubstitute(arg).Some? <==>
              exists i, j :: 0 <= i < j < |arg| && arg[i] == '/' && arg[j] == '/'
    ensures ParseSubstitute(arg).Some? ==>
              var s := ParseSubstitute(arg).value;
              var tail := arg[|s.oldText| + |s.newText| + 2..];
              && '/' !in s.oldText && '/' !in tail
              && arg == s.oldText + "/" + s.newText + "/" + tail
              && (s.global <==> tail == "g")
  {
    var f, l := FirstIndex(arg, '/'), LastIndex(arg, '/');
    if f.Some? && l.Some? && f.value != l.value {
      assert arg == arg[..f.value] + "/" + arg[f.value + 1..l.value] + "/" + arg[l.value + 1..];
    }
  }

  /** The help text promises `:s/old/new`, but the splitter as written
      rejects it, "old/new" having one slash, which is both the first and
      the last; so is the history entry of every non-global substitution. */
  lemma ShortFormRejected(o: string, n: string)
    requires '/' !in o && '/' !in n
    ensures HistoryEntry(Substitution(o, n, false))[3..] == o + "/" + n
    ensures ParseSubstitute(o + "/" + n) == None
  {
    ShortEntry(o, n);
    FirstAfterSlashFree(o, n);
    LastBeforeSlashFree(o, n);
  }

  /** The history entry of a non-global substitution, after its ":s/". */
  lemma ShortEntry(o: string, n: string)
    ensures HistoryEntry(Substitution(o, n, false))[3..] == o + "/" + n
  {
    var a := o + "/" + n;
    assert HistoryEntry(Substitution(o, n, false)) == ":s/" + a;
  }

  /** The splitter as the help text describes it: a single slash separates
      old text from new text for a first-occurrence replacement; two or more
      are split as before. */
  function ParseSubstituteFixed(arg: string): (r: Option<Substitution>)
  {
    match (FirstIndex(arg, '/'), LastIndex(arg, '/'))
    case (Some(f), Some(l)) =>
      if f == l then Some(Substitution(arg[..f], arg[f + 1..], false))
      else Some(Substitution(arg[..f], arg[f + 1..l], arg[l + 1..] == "g"))
    case _ => None
  }

  /** Both documented forms are split back into their parts, for old and
      new texts without a slash: every history entry of a substitution
      parses back to it. */
  lemma ParseSubstituteFixedRoundTrip(s: Substitution)
    requires '/' !in s.oldText && '/' !in s.newText
    ensures ParseSubstituteFixed(HistoryEntry(s)[3..]) == Some(s)
  {
    var o, n := s.oldText, s.newText;
    if s.global {
      assert HistoryEntry(s)[3..] == o + "/" + n + "/" + "g";
      FixedTwoSlashes(o, n, "g");
    } else {
      assert HistoryEntry(s)[3..] == o + "/" + n;
      FixedOneSlash(o, n);
    }
  }

  /** `old/new` is a first-occurrence substitution. */
  lemma FixedOneSlash(o: string, n: string)
    requires '/' !in o && '/' !in n
    ensures ParseSubstituteFixed(o + "/" + n) == Some(Substitution(o, n, false))
  {
    FirstAfterSlashFree(o, n);
    LastBeforeSlashFree(o, n);
    assert (o + "/" + n)[|o| + 1..] == n;
  }

  /** `old/new/t` is global exactly when `t` is "g". */
  lemma FixedTwoSlashes(o: string, n: string, t: string)
    requires '/' !in o && '/' !in n && '/' !in t
    ensures ParseSubstituteFixed(o + "/" + n + "/" + t) == Some(Substitution(o, n, t == "g"))
  {
    var arg := o + "/" + n + "/" + t;
    var f, l := |o|, |o| + |n| + 1;
    FirstOfThree(o, n, t);
    LastBeforeSlashFree(o + "/" + n, t);
    assert arg[f + 1..l] == n;
    assert arg[l + 1..] == t;
  }

  /** The first slash of `a + "/" + b + "/" + c` is the one after `a`, when
      `a` has none. */
  lemma FirstOfThree(a: string, b: string, c: string)
    requires '/' !in a
    ensures FirstIndex(a + "/" + b + "/" + c, '/') == Some(|a|)
    ensures (a + "/" + b + "/" + c)[..|a|] == a
  {
    assert a + "/" + b + "/" + c == a + "/" + (b + "/" + c);
    FirstAfterSlashFree(a, b + "/" + c);
  }

  /** The first slash of `a + "/" + b` is the one after `a`, when `a` has none. */
  lemma FirstAfterSlashFree(a: string, b: string)
    requires '/' !in a
    ensures FirstIndex(a + "/" + b, '/') == Some(|a|)
    ensures (a + "/" + b)[..|a|] == a
  {
    var s := a + "/" + b;
    assert s[|a|] == '/';
    assert s[..|a|] == a;
  }

  /** The last slash of `a + "/" + b` is the one before `b`, when `b` has none. */
  lemma LastBeforeSlashFree(a: string, b: string)
    requires '/' !in b
    ensures LastIndex(a + "/" + b, '/') == Some(|a|)
  {
    var s := a + "/" + b;
    assert s[|a|] == '/';
    assert s[|a| + 1..] == b;
  }
}
