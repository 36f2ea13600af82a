/** Loading and saving the document. The file itself is outside the model: a
    load receives the file's text (None when the file cannot be opened) and a
    save receives whether the file can be opened for writing and returns the
    text it writes. */
module Files {
  import opened Wrappers
  import opened Text

  /** Cuts a file text into lines the way the `getline` loop does, building
      each line one cell at a time. */
  method TextToChains(content: seq<char>) returns (lines: seq<Line>)
    ensures lines == LoadText(content)
  {
    lines := [];
    var rest := content;
    while rest != []
      invariant LoadText(content) == lines + LoadText(rest)
      decreases |rest|
    {
      var line, k := GetLine(rest);
      var next := if k < |rest| then rest[k + 1..] else [];
      FirstLineCut(rest, k);
      lines := lines + [line];
      rest := next;
    }
  }

  /** One `getline`: the cells up to the first newline or the end of the
      text, and the index `k` where it stopped. */
  method GetLine(rest: seq<char>) returns (line: Line, k: nat)
    ensures k <= |rest| && line == rest[..k] && NewlineFree(line)
    ensures k < |rest| ==> rest[k] == '\n'
  {
    line := [];
    k := 0;
    while k < |rest| && rest[k] != '\n'
      invariant k <= |rest| && line == rest[..k] && NewlineFree(line)
    {
      line := line + [rest[k]];
      k := k + 1;
    }
  }

  /** A non-empty text loads as the text up to cell `k`, where the first
      newline or the end of the text is, followed by what the text after
      that newline loads as. */
  lemma FirstLineCut(rest: seq<char>, k: nat)
    requires rest != [] && k <= |rest| && NewlineFree(rest[..k])
    requires k < |rest| ==> rest[k] == '\n'
    ensures LoadText(rest) == [rest[..k]] + LoadText(if k < |rest| then rest[k + 1..] else [])
  {
    if k < |rest| {
      NewlineIndexAt(rest, k);
    } else {
      assert rest[..k] == rest;
    }
  }

  /** Writes every line's cells followed by a newline. */
  method ChainsToText(lines: seq<Line>) returns (text: seq<char>)
    ensures text == SaveText(lines)
  {
    text := [];
    for i := 0 to |lines|
      invariant text == SaveText(lines[..i])
    {
      var line := lines[i];
      for j := 0 to |line|
        invariant text == SaveText(lines[..i]) + line[..j]
      {
        text := text + [line[j]];
      }
      assert line[..|line|] == line;
      SaveTextAppend(lines[..i], line);
      assert lines[..i + 1] == lines[..i] + [line];
      text := text + ['\n'];
    }
    assert lines[..|lines|] == lines;
  }

  /** The file bookkeeping: the current file name and the modified flag. */
  class FileManager {
    var currentFileName: string
    var modified: bool

    constructor ()
      ensures currentFileName == "" && !modified
    {
      currentFileName := "";
      modified := false;
    }

    /** A load that opens the file replaces the lines, records the name and
        clears the modified flag; a load that cannot open it changes nothing. */
    method LoadFile(filename: string, content: Option<seq<char>>, lines: seq<Line>)
      returns (ok: bool, newLines: seq<Line>)
      modifies this
      ensures ok == content.Some?
      ensures ok ==> newLines == LoadText(content.value)
                     && currentFileName == filename && !modified
      ensures !ok ==> newLines == lines && unchanged(this)
    {
      if content.None? {
        return false, lines;
      }
      newLines := TextToChains(content.value);
      currentFileName := filename;
      modified := false;
      ok := true;
    }

    /** A save that opens the file writes every line with a newline after
        it, records the name and clears the modified flag. */
    method SaveFile(filename: string, lines: seq<Line>, writable: bool)
      returns (ok: bool, written: seq<char>)
      modifies this
      ensures ok == writable
      ensures ok ==> written == SaveText(lines) && currentFileName == filename && !modified
      ensures !ok ==> written == [] && unchanged(this)
    {
      if !writable {
        return false, [];
      }
      written := ChainsToText(lines);
      currentFileName := filename;
      modified := false;
      ok := true;
    }

    method MarkAsModified()
      modifies this
      ensures modified && currentFileName == old(currentFileName)
    {
      modified := true;
    }

    method HasUnsavedChanges() returns (r: bool)
      ensures r == modified
    {
      r := modified;
    }
  }
}
