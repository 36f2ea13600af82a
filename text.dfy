/** Lines of the document and their plain-text form in a file. A line is the
    sequence of the characters of its cell chain, first cell first; an empty
    sequence stands for a line whose head is null. */
module Text {
  import opened Wrappers

  type Line = seq<char>

  /** All characters of the document, line after line. */
  function Flatten(lines: seq<Line>): seq<char>
  {
    if lines == [] then [] else lines[0] + Flatten(lines[1..])
  }

  lemma {:induction false} FlattenAppend(a: seq<Line>, b: seq<Line>)
    ensures Flatten(a + b) == Flatten(a) + Flatten(b)
    decreases |a|
  {
    if a == [] {
      assert a + b == b;
    } else {
      assert (a + b)[1..] == a[1..] + b;
      FlattenAppend(a[1..], b);
    }
  }

  /** Flattening a document cut into three parts. */
  lemma FlattenSplice(pre: seq<Line>, mid: seq<Line>, post: seq<Line>)
    ensures Flatten(pre + mid + post) == Flatten(pre) + Flatten(mid) + Flatten(post)
  {
    FlattenAppend(pre + mid, post);
    FlattenAppend(pre, mid);
  }

  lemma FlattenSingle(l: Line)
    ensures Flatten([l]) == l
  {
    assert [l][1..] == [];
  }

  /** Total number of cells of the document. */
  function CellCount(lines: seq<Line>): nat
  {
    |Flatten(lines)|
  }

  /** A line as it can come out of a file: it holds no newline. */
  predicate NewlineFree(line: Line)
  {
    '\n' !in line
  }

  /** The file text saving writes: every line followed by a newline. */
  function SaveText(lines: seq<Line>): (text: seq<char>)
    ensures |text| == CellCount(lines) + |lines|
  {
    if lines == [] then [] else lines[0] + ['\n'] + SaveText(lines[1..])
  }

  lemma {:induction false} SaveTextAppend(lines: seq<Line>, line: Line)
    ensures SaveText(lines + [line]) == SaveText(lines) + line + ['\n']
    decreases |lines|
  {
    if lines == [] {
      assert lines + [line] == [line];
    } else {
      assert (lines + [line])[1..] == lines[1..] + [line];
      SaveTextAppend(lines[1..], line);
    }
  }

  /** Where the first newline of `s` is, if it has one. */
  function NewlineIndex(s: seq<char>): (r: Option<nat>)
    ensures r.Some? ==> r.value < |s| && s[r.value] == '\n' && NewlineFree(s[..r.value])
    ensures r.None? ==> NewlineFree(s)
  {
    if s == [] then None
    else if s[0] == '\n' then Some(0)
    else
      match NewlineIndex(s[1..])
      case None => (assert s == [s[0]] + s[1..]; None)
      case Some(k) => (assert s[..k + 1] == [s[0]] + s[1..][..k]; Some(k + 1))
  }

  /** The first newline is the one with no newline before it. */
  lemma {:induction false} NewlineIndexAt(s: seq<char>, k: nat)
    requires k < |s| && s[k] == '\n' && NewlineFree(s[..k])
    ensures NewlineIndex(s) == Some(k)
    decreases k
  {
    if k > 0 {
      assert s[0] == s[..k][0];
      assert s[1..][..k - 1] == s[..k][1..];
      NewlineIndexAt(s[1..], k - 1);
    }
  }

  /** The lines repeated `getline` calls extract from a file text: the text up
      to each newline, and a last line without newline if the text does not
      end with one. An empty text gives no line at all. */
  function LoadText(text: seq<char>): (lines: seq<Line>)
    ensures forall i :: 0 <= i < |lines| ==> NewlineFree(lines[i])
    decreases |text|
  {
    if text == [] then []
    else
      match NewlineIndex(text)
      case None => [text]
      case Some(k) => [text[..k]] + LoadText(text[k + 1..])
  }

  /** Saving a document and loading the file again gives back the same lines. */
  lemma {:induction false} LoadSaveRoundTrip(lines: seq<Line>)
    requires forall i :: 0 <= i < |lines| ==> NewlineFree(lines[i])
    ensures LoadText(SaveText(lines)) == lines
    decreases |lines|
  {
    if lines != [] {
      var l := lines[0];
      var text := SaveText(lines);
      assert text == l + ['\n'] + SaveText(lines[1..]);
      assert text[|l|] == '\n';
      assert text[..|l|] == l;
      NewlineIndexAt(text, |l|);
      assert text[|l| + 1..] == SaveText(lines[1..]);
      LoadSaveRoundTrip(lines[1..]);
    }
  }

  /** What saving the loaded lines of `text` gives: `text`, with a newline
      added if it does not end with one. */
  function Resaved(text: seq<char>): seq<char>
  {
    if text == [] || text[|text| - 1] == '\n' then text else text + ['\n']
  }

  /** Loading a file text and saving it again gives back the same text, with a
      newline added at the end if the last line had none. */
  lemma {:induction false} SaveLoadText(text: seq<char>)
    ensures SaveText(LoadText(text)) == Resaved(text)
    decreases |text|
  {
    if text != [] {
      match NewlineIndex(text)
      case None =>
        assert text[|text| - 1] != '\n' by {
          assert text[|text| - 1] in text;
        }
      case Some(k) =>
        SaveLoadText(text[k + 1..]);
        SaveLoadFirstLine(text, k);
    }
  }

  /** The step of the round trip for a text whose first newline is at `k`. */
  lemma SaveLoadFirstLine(text: seq<char>, k: nat)
    requires NewlineIndex(text) == Some(k)
    requires SaveText(LoadText(text[k + 1..])) == Resaved(text[k + 1..])
    ensures SaveText(LoadText(text)) == Resaved(text)
  {
    var head := text[..k] + ['\n'];
    var rest := text[k + 1..];
    calc {
      SaveText(LoadText(text));
      { LoadTextCons(text, k); }
      SaveText([text[..k]] + LoadText(rest));
      { SaveTextCons(text[..k], LoadText(rest)); }
      head + Resaved(rest);
      { ResavedAfterNewline(head, rest); }
      Resaved(head + rest);
      { NewlineSplit(text, k); }
      Resaved(text);
    }
  }

  /** Loading a text whose first newline is at `k` gives the text before it,
      then the lines of the text after it. */
  lemma LoadTextCons(text: seq<char>, k: nat)
    requires NewlineIndex(text) == Some(k)
    ensures LoadText(text) == [text[..k]] + LoadText(text[k + 1..])
  {
  }

  /** A text is the part before a newline, the newline, and the part after. */
  lemma NewlineSplit(text: seq<char>, k: nat)
    requires k < |text| && text[k] == '\n'
    ensures text == text[..k] + ['\n'] + text[k + 1..]
  {
  }

  /** Saving writes the first line, its newline, and then the other lines. */
  lemma SaveTextCons(line: Line, lines: seq<Line>)
    ensures SaveText([line] + lines) == line + ['\n'] + SaveText(lines)
  {
    assert ([line] + lines)[1..] == lines;
  }

  /** Text after a newline is resaved on its own. */
  lemma ResavedAfterNewline(head: seq<char>, rest: seq<char>)
    requires head != [] && head[|head| - 1] == '\n'
    ensures Resaved(head + rest) == head + Resaved(rest)
  {
    if rest != [] {
      assert (head + rest)[|head + rest| - 1] == rest[|rest| - 1];
      RegroupTail(head, rest, ['\n']);
    }
  }

  lemma RegroupTail<T>(a: seq<T>, b: seq<T>, c: seq<T>)
    ensures a + (b + c) == a + b + c
  {
  }

  /** Decimal digits of a number, as `to_string` writes it. */
  function NatToDecimal(n: nat): (s: string)
    ensures s != [] && forall i :: 0 <= i < |s| ==> '0' <= s[i] <= '9'
  {
    if n < 10 then [DigitChar(n)] else NatToDecimal(n / 10) + [DigitChar(n % 10)]
  }

  function DigitChar(d: nat): (c: char)
    requires d < 10
    ensures '0' <= c <= '9'
  {
    (48 + d) as char
  }

  /** The number a string of decimal digits denotes. */
  function DecimalValue(s: string): nat
    requires forall i :: 0 <= i < |s| ==> '0' <= s[i] <= '9'
  {
    if s == [] then 0 else 10 * DecimalValue(s[..|s| - 1]) + ((s[|s| - 1] as int) - 48)
  }

  /** Reading the digits back gives the number, and only a number below ten
      is written with one digit. */
  lemma {:induction false} DecimalRoundTrip(n: nat)
    ensures DecimalValue(NatToDecimal(n)) == n
    ensures |NatToDecimal(n)| == 1 <==> n < 10
  {
    if n >= 10 {
      DecimalRoundTrip(n / 10);
      var s := NatToDecimal(n);
      assert s[..|s| - 1] == NatToDecimal(n / 10);
    }
  }
}
