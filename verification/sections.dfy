/**
 The second stage: find the `.text` and `.data` markers among the kept
 lines and cut the program into its text and data sections. Every problem
 found here aborts the run.
 */
module Sections {
  import opened Types

  /** A line the scan takes for the `.text` marker: its text starts with
      `.text` (so `.textual` counts too). */
  predicate IsTextMarker(l: Line) {
    ".text" <= l.text
  }

  /** A line the scan takes for the `.data` marker; the `.text` test comes
      first. */
  predicate IsDataMarker(l: Line) {
    !IsTextMarker(l) && ".data" <= l.text
  }

  /** Lines `a` and `b` would both be taken for the same marker. */
  predicate SameMarker(a: Line, b: Line) {
    (IsTextMarker(a) && IsTextMarker(b)) || (IsDataMarker(a) && IsDataMarker(b))
  }

  /** No marker occurs twice among the first `n` lines. */
  predicate NoRepeat(lines: seq<Line>, n: nat)
    requires n <= |lines|
  {
    forall a, b :: 0 <= a < b < n ==> !SameMarker(lines[a], lines[b])
  }

  datatype Marker = TextMarker | DataMarker

  predicate IsMarker(l: Line, k: Marker) {
    match k
    case TextMarker => IsTextMarker(l)
    case DataMarker => IsDataMarker(l)
  }

  /** Where marker `k` sits among the first `n` lines: -1 when it is
      absent. */
  predicate LocatesIn(lines: seq<Line>, n: nat, at: int, k: Marker)
    requires n <= |lines|
  {
    && -1 <= at < n
    && (at >= 0 ==> IsMarker(lines[at], k))
    && (forall i :: 0 <= i < n && IsMarker(lines[i], k) ==> i == at)
  }

  /** Where marker `k` sits among `lines`: -1 when it is absent. */
  predicate Locates(lines: seq<Line>, at: int, k: Marker) {
    LocatesIn(lines, |lines|, at, k)
  }

  /** The marker scan, from line `i` on, with the positions found so far in
      `tb` and `db`: the first line that repeats a marker aborts the run. */
  function ScanMarkers(lines: seq<Line>, i: nat, tb: int, db: int): (r: Result<(int, int)>)
    requires i <= |lines| && NoRepeat(lines, i)
    requires LocatesIn(lines, i, tb, TextMarker) && LocatesIn(lines, i, db, DataMarker)
    ensures r.Ok? ==> NoRepeat(lines, |lines|)
    ensures r.Ok? ==> Locates(lines, r.value.0, TextMarker) && Locates(lines, r.value.1, DataMarker)
    ensures r.Crash? ==> exists j :: (
      && i <= j < |lines| && NoRepeat(lines, j) && !NoRepeat(lines, j + 1)
      && r.abort == (if IsTextMarker(lines[j]) then DuplicateText(lines[j].line) else DuplicateData(lines[j].line)))
    decreases |lines| - i
  {
    if i == |lines| then
      Ok((tb, db))
    else
      var l := lines[i];
      ScanStep(lines, i, tb, db);
      if IsTextMarker(l) then
        if tb == -1 then ScanMarkers(lines, i + 1, i, db)
        else Crash(DuplicateText(l.line))
      else if IsDataMarker(l) then
        if db == -1 then ScanMarkers(lines, i + 1, tb, i)
        else Crash(DuplicateData(l.line))
      else
        ScanMarkers(lines, i + 1, tb, db)
  }

  /** One step of the scan: line `i` either repeats a marker already seen,
      or the positions extend to the first `i + 1` lines. */
  lemma ScanStep(lines: seq<Line>, i: nat, tb: int, db: int)
    requires i < |lines| && NoRepeat(lines, i)
    requires LocatesIn(lines, i, tb, TextMarker) && LocatesIn(lines, i, db, DataMarker)
    ensures var l := lines[i];
      if (IsTextMarker(l) && tb != -1) || (IsDataMarker(l) && db != -1) then !NoRepeat(lines, i + 1)
      else
        && NoRepeat(lines, i + 1)
        && LocatesIn(lines, i + 1, if IsTextMarker(l) then i else tb, TextMarker)
        && LocatesIn(lines, i + 1, if IsDataMarker(l) then i else db, DataMarker)
  {
    var l := lines[i];
    if IsTextMarker(l) && tb != -1 {
      assert SameMarker(lines[tb], l);
    } else if IsDataMarker(l) && db != -1 {
      assert SameMarker(lines[db], l);
    }
  }

  /** The scan of the whole program. */
  function FindMarkers(lines: seq<Line>): (r: Result<(int, int)>)
    ensures r.Ok? <==> NoRepeat(lines, |lines|)
    ensures r.Ok? ==> Locates(lines, r.value.0, TextMarker) && Locates(lines, r.value.1, DataMarker)
    ensures r.Crash? ==> exists j :: (
      && 0 <= j < |lines| && NoRepeat(lines, j) && !NoRepeat(lines, j + 1)
      && r.abort == (if IsTextMarker(lines[j]) then DuplicateText(lines[j].line) else DuplicateData(lines[j].line)))
  {
    var r := ScanMarkers(lines, 0, -1, -1);
    assert r.Crash? ==> !NoRepeat(lines, |lines|) by {
      if r.Crash? {
        var j :| 0 <= j < |lines| && !NoRepeat(lines, j + 1);
        NoRepeatPrefix(lines, j + 1, |lines|);
      }
    }
    r
  }

  lemma NoRepeatPrefix(lines: seq<Line>, m: nat, n: nat)
    requires m <= n <= |lines|
    ensures NoRepeat(lines, n) ==> NoRepeat(lines, m)
  {
  }

  datatype Split = Split(text: seq<Line>, data: seq<Line>)

  /** The section split: both markers once each, one of them first; the
      section it opens runs to the other marker and the other section to the
      end. An empty text section aborts too. */
  function SplitSections(lines: seq<Line>): (r: Result<Split>)
  {
    var (tb, db) :- FindMarkers(lines);
    if db == -1 then Crash(NoDataSection)
    else if tb == -1 then Crash(NoTextSection)
    else
      var sp :-
        if tb == 0 then Ok(Split(lines[1..db], lines[db + 1..]))
        else if db == 0 then Ok(Split(lines[tb + 1..], lines[1..tb]))
        else Crash(MustBeginWithMarker(lines[0].line));
      if sp.text == [] then Crash(NoInstructionsFound) else Ok(sp)
  }

  /** A repeated marker aborts the run, naming the first line that repeats
      one. */
  lemma SplitRepeated(lines: seq<Line>)
    requires !NoRepeat(lines, |lines|)
    ensures SplitSections(lines).Crash?
    ensures exists j :: (
      && 0 <= j < |lines| && NoRepeat(lines, j) && !NoRepeat(lines, j + 1)
      && SplitSections(lines).abort ==
        (if IsTextMarker(lines[j]) then DuplicateText(lines[j].line) else DuplicateData(lines[j].line)))
  {
  }

  /** Without a `.data` line the run aborts; with one but no `.text` line it
      aborts for that. */
  lemma SplitMissing(lines: seq<Line>)
    requires NoRepeat(lines, |lines|)
    ensures (forall i :: 0 <= i < |lines| ==> !IsDataMarker(lines[i])) ==>
      SplitSections(lines) == Crash(NoDataSection)
    ensures ((exists i :: 0 <= i < |lines| && IsDataMarker(lines[i])) &&
      (forall i :: 0 <= i < |lines| ==> !IsTextMarker(lines[i]))) ==>
      SplitSections(lines) == Crash(NoTextSection)
  {
    var (tb, db) := FindMarkers(lines).value;
    assert db >= 0 ==> IsMarker(lines[db], DataMarker);
    assert tb >= 0 ==> IsMarker(lines[tb], TextMarker);
  }

  /** With each marker exactly once, at `t` and `d`: the one on the first
      line opens its section, which runs up to the other marker; the other
      section runs to the end. A first line that is neither marker, or an
      empty text section, aborts. */
  lemma SplitPlaced(lines: seq<Line>, t: nat, d: nat)
    requires t < |lines| && d < |lines| && NoRepeat(lines, |lines|)
    requires IsTextMarker(lines[t]) && IsDataMarker(lines[d])
    ensures t == 0 ==> (SplitSections(lines) ==
      if d == 1 then Crash(NoInstructionsFound) else Ok(Split(lines[1..d], lines[d + 1..])))
    ensures d == 0 ==> (SplitSections(lines) ==
      if t == |lines| - 1 then Crash(NoInstructionsFound) else Ok(Split(lines[t + 1..], lines[1..t])))
    ensures t != 0 && d != 0 ==> SplitSections(lines) == Crash(MustBeginWithMarker(lines[0].line))
  {
    var (tb, db) := FindMarkers(lines).value;
    assert IsMarker(lines[t], TextMarker) && IsMarker(lines[d], DataMarker);
    assert tb == t && db == d;
  }

  /** Both sections keep the input's strictly increasing line numbers. */
  lemma SplitIncreasing(lines: seq<Line>)
    requires Increasing(lines) && SplitSections(lines).Ok?
    ensures Increasing(SplitSections(lines).value.text)
    ensures Increasing(SplitSections(lines).value.data)
  {
    var (tb, db) := FindMarkers(lines).value;
    if tb == 0 {
      SliceIncreasing(lines, 1, db);
      SliceIncreasing(lines, db + 1, |lines|);
    } else {
      SliceIncreasing(lines, tb + 1, |lines|);
      SliceIncreasing(lines, 1, tb);
    }
  }

  /** A slice of strictly increasing lines is strictly increasing. */
  lemma SliceIncreasing(lines: seq<Line>, a: nat, b: nat)
    requires Increasing(lines) && a <= b <= |lines|
    ensures Increasing(lines[a..b])
  {
    forall j, k | 0 <= j < k < b - a
      ensures lines[a..b][j].line < lines[a..b][k].line
    {
      assert lines[a..b][j] == lines[a + j] && lines[a..b][k] == lines[a + k];
    }
  }

  /** A program that opens with `.data`. */
  lemma SplitExample()
    ensures SplitSections([Line(1, ".data", 0), Line(2, "x: .word 5", 0), Line(4, ".text", 0), Line(5, "nop", 0)])
      == Ok(Split([Line(5, "nop", 0)], [Line(2, "x: .word 5", 0)]))
  {
    var a := [Line(1, ".data", 0), Line(2, "x: .word 5", 0), Line(4, ".text", 0), Line(5, "nop", 0)];
    assert ".text"[1] != a[0].text[1] && ".data" == a[0].text;
    assert a[2].text == ".text";
    assert ".text"[0] != a[1].text[0] && ".data"[0] != a[1].text[0];
    assert ".text"[0] != a[3].text[0] && ".data"[0] != a[3].text[0];
    assert NoRepeat(a, 4);
    SplitPlaced(a, 2, 0);
    assert a[3..] == [Line(5, "nop", 0)] && a[1..2] == [Line(2, "x: .word 5", 0)];
  }
}
