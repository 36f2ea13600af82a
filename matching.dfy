/** The cell-by-cell matching the search engine performs on the document. */
module Matching {
  import opened Wrappers
  import opened Text

  /** The walk that starts at cell `c` and consumes `pat` while the cells agree
      reaches the end of the pattern: cell `c` exists and the |pat| cells from
      it spell `pat`. For an empty pattern this holds at every existing cell. */
  predicate MatchAt(line: Line, c: int, pat: string)
  {
    0 <= c < |line| && c + |pat| <= |line| && line[c..c + |pat|] == pat
  }

  /** The character findNext and findPrevious compare with a cell before they
      walk: the pattern's first character, or the NUL that ends an empty
      string. */
  function Lead(pat: string): char
  {
    if pat == [] then '\0' else pat[0]
  }

  /** A match as a scan reports it: search tests only the walk, findNext and
      findPrevious (`guarded`) first compare the cell with `Lead(pat)`. */
  predicate Hit(line: Line, c: int, pat: string, guarded: bool)
  {
    MatchAt(line, c, pat) && (guarded ==> line[c] == Lead(pat))
  }

  /** For a non-empty pattern the lead comparison changes nothing. */
  lemma GuardIrrelevant(line: Line, c: int, pat: string)
    requires pat != []
    ensures Hit(line, c, pat, true) <==> MatchAt(line, c, pat)
  {
  }

  /** The inner walk: how many pattern characters agree with the cells from `c`. */
  method MatchLength(line: Line, c: nat, pat: string) returns (j: nat)
    requires c < |line|
    ensures j <= |pat| && c + j <= |line| && line[c..c + j] == pat[..j]
    ensures j == |pat| <==> MatchAt(line, c, pat)
  {
    j := 0;
    while j < |pat| && c + j < |line| && line[c + j] == pat[j]
      invariant j <= |pat| && c + j <= |line|
      invariant line[c..c + j] == pat[..j]
    {
      j := j + 1;
    }
    if j < |pat| && c + |pat| <= |line| {
      assert line[c..c + |pat|][j] == line[c + j] != pat[j];
    }
  }

  /** The leftmost hit at or after cell `from`. */
  function FirstHit(line: Line, pat: string, guarded: bool, from: nat): (r: Option<nat>)
    ensures r.Some? ==> from <= r.value < |line| && Hit(line, r.value, pat, guarded)
    ensures r.Some? ==> forall c :: from <= c < r.value ==> !Hit(line, c, pat, guarded)
    ensures r.None? ==> forall c :: from <= c ==> !Hit(line, c, pat, guarded)
    decreases |line| - from
  {
    if from >= |line| then None
    else if Hit(line, from, pat, guarded) then Some(from)
    else FirstHit(line, pat, guarded, from + 1)
  }

  /** A line has a hit somewhere. */
  predicate HasHit(line: Line, pat: string, guarded: bool)
  {
    exists c :: 0 <= c < |line| && Hit(line, c, pat, guarded)
  }

  /** A reported hit: the line and the cell index within it. */
  datatype Position = Position(line: nat, cell: nat)

  /** The first hit of the lines from `from` on: earliest line, then leftmost cell. */
  function ForwardScan(lines: seq<Line>, pat: string, guarded: bool, from: nat): (r: Option<Position>)
    ensures r.Some? ==> from <= r.value.line < |lines|
                        && Hit(lines[r.value.line], r.value.cell, pat, guarded)
    ensures r.Some? ==> forall c :: 0 <= c < r.value.cell ==> !Hit(lines[r.value.line], c, pat, guarded)
    ensures r.Some? ==> forall i :: from <= i < r.value.line ==> !HasHit(lines[i], pat, guarded)
    ensures r.None? ==> forall i :: from <= i < |lines| ==> !HasHit(lines[i], pat, guarded)
    decreases |lines| - from
  {
    if from >= |lines| then None
    else
      match FirstHit(lines[from], pat, guarded, 0)
      case Some(c) => Some(Position(from, c))
      case None => ForwardScan(lines, pat, guarded, from + 1)
  }

  /** The hit on the nearest line before `below` that has one, leftmost cell. */
  function BackwardScan(lines: seq<Line>, pat: string, below: nat): (r: Option<Position>)
    requires below <= |lines|
    ensures r.Some? ==> r.value.line < below && Hit(lines[r.value.line], r.value.cell, pat, true)
    ensures r.Some? ==> forall c :: 0 <= c < r.value.cell ==> !Hit(lines[r.value.line], c, pat, true)
    ensures r.Some? ==> forall i :: r.value.line < i < below ==> !HasHit(lines[i], pat, true)
    ensures r.None? ==> forall i :: 0 <= i < below ==> !HasHit(lines[i], pat, true)
    decreases below
  {
    if below == 0 then None
    else
      match FirstHit(lines[below - 1], pat, true, 0)
      case Some(c) => Some(Position(below - 1, c))
      case None => BackwardScan(lines, pat, below - 1)
  }
}
