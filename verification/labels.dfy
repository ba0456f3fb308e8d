/**
 The fourth stage and the label resolution. A text line that opens with
 `name:` defines label `name` at its source line number; the label is cut
 off and the rest of the line, trimmed, is the instruction. Lines left empty
 are dropped. After macro expansion each label is resolved to the
 instruction index of the first expanded line at or after its source line.
 */
module Labels {
  import opened Types
  import opened JavaText

  /** The label a line defines, and the line that remains. The code this
      models tries `([a-zA-Z0-9]+):.*` with `find`, so a match may start
      past the first character; the corrected reading, used here, accepts
      the label only at the start of the line (see `StripLabelAsWritten`). */
  function StripLabel(l: Line): (Option<string>, Line) {
    match LeadingLabel(l.text)
    case Some(n) => (Some(n), Line(l.line, Trim(l.text[|n| + 1..]), 0))
    case None => (None, Line(l.line, l.text, 0))
  }

  /** The label step exactly as the code writes it: the first match of the
      pattern anywhere in the line names the label, but the text kept is
      cut `|name| + 1` characters from the start of the line, not from the
      end of the match. */
  function StripLabelAsWritten(l: Line): (Option<string>, Line) {
    match FindLabel(l.text)
    case Some(f) => (Some(f.name), Line(l.line, Trim(l.text[|f.name| + 1..]), 0))
    case None => (None, Line(l.line, l.text, 0))
  }

  /** A label cut at the start of the line: the line was `name:` followed
      by the rest, the name is alphanumeric, and what remains is that rest,
      trimmed. Without a label, no prefix of the line is `name:`. */
  lemma StripLabelSpec(l: Line)
    ensures var (lab, r) := StripLabel(l);
      && r.line == l.line && r.instructionLine == 0
      && (lab.Some? ==>
        && lab.value != []
        && (forall k :: 0 <= k < |lab.value| ==> IsAlnum(lab.value[k]))
        && l.text == lab.value + ":" + l.text[|lab.value| + 1..]
        && r.text == Trim(l.text[|lab.value| + 1..]))
      && (lab.None? ==> r.text == l.text && forall n :: !LabelAt(l.text, 0, n))
  {
    match LeadingLabel(l.text)
    case Some(n) =>
      assert l.text == l.text[..|n|] + [l.text[|n|]] + l.text[|n| + 1..];
    case None =>
  }

  /** Where the pattern does match at the start of the line, the code as
      written and the corrected reading agree. */
  lemma AsWrittenAgreesAtStart(l: Line)
    requires FindLabel(l.text).Some? ==> FindLabel(l.text).value.start == 0
    ensures StripLabelAsWritten(l) == StripLabel(l)
  {
    LeadingLabelIsFindAtZero(l.text);
  }

  /** The discrepancy: on `_loop: nop` the pattern finds `loop` at position
      1, and cutting five characters from the start leaves `: nop`, so the
      label's colon is read as the mnemonic. */
  lemma StripOffsetCounterexample()
    ensures StripLabelAsWritten(Line(3, "_loop: nop", 0)) == (Some("loop"), Line(3, ": nop", 0))
    ensures StripLabel(Line(3, "_loop: nop", 0)) == (None, Line(3, "_loop: nop", 0))
  {
    FindsLoop();
    var s := "_loop: nop";
    assert s[5..] == ": nop";
    TrimUnchanged(": nop");
    assert RunEnd(s, 0, Alnum) == 0;
  }

  lemma FindsLoop()
    ensures FindLabel("_loop: nop") == Some(Found(1, "loop"))
  {
    var s := "_loop: nop";
    assert LabelAt(s, 1, 4);
    assert forall n :: !LabelAt(s, 0, n) by {
      assert !IsAlnum(s[0]);
    }
    var r := FindLabelFrom(s, 0);
    assert r.Some? && r.value.start == 1;
    assert |r.value.name| == 4;
    assert s[1..5] == "loop";
  }

  /** The labels of the text lines: each maps to the source line number of
      the last line that defines it. */
  function LabelMap(lines: seq<Line>): map<string, int>
    decreases |lines|
  {
    if lines == [] then map[]
    else
      var (lab, _) := StripLabel(lines[0]);
      (if lab.Some? then map[lab.value := lines[0].line] else map[]) + LabelMap(lines[1..])
  }

  /** Each of `lines` passed through `f`, the ones left empty dropped. */
  function KeepFilled(f: Line -> Line, lines: seq<Line>): seq<Line>
    decreases |lines|
  {
    if lines == [] then []
    else
      var r := f(lines[0]);
      (if r.text != [] then [r] else []) + KeepFilled(f, lines[1..])
  }

  /** The text lines with their labels cut off, the empty ones dropped. */
  function Unlabelled(lines: seq<Line>): seq<Line> {
    KeepFilled(l => StripLabel(l).1, lines)
  }

  /** A label is in the map exactly when some line defines it, and it maps
      to the line number of the last such line. */
  lemma {:induction false} LabelMapSpec(lines: seq<Line>, x: string)
    ensures x in LabelMap(lines) <==> exists i :: 0 <= i < |lines| && StripLabel(lines[i]).0 == Some(x)
    ensures x in LabelMap(lines) ==> exists i :: (
      && 0 <= i < |lines| && StripLabel(lines[i]).0 == Some(x)
      && LabelMap(lines)[x] == lines[i].line
      && forall j :: i < j < |lines| ==> StripLabel(lines[j]).0 != Some(x))
    decreases |lines|
  {
    if lines != [] {
      var rest := lines[1..];
      LabelMapSpec(rest, x);
      assert forall j :: 0 < j < |lines| ==> lines[j] == rest[j - 1];
      if x in LabelMap(rest) {
        var i :| (
          && 0 <= i < |rest| && StripLabel(rest[i]).0 == Some(x)
          && LabelMap(rest)[x] == rest[i].line
          && forall j :: i < j < |rest| ==> StripLabel(rest[j]).0 != Some(x));
        assert StripLabel(lines[i + 1]).0 == Some(x);
      } else if StripLabel(lines[0]).0 == Some(x) {
        assert forall j :: 0 < j < |lines| ==> StripLabel(lines[j]).0 != Some(x);
      }
    }
  }

  /** What remains are the lines `f` makes whose text is not empty. */
  lemma {:induction false} KeepFilledSpec(f: Line -> Line, lines: seq<Line>)
    ensures forall r: Line :: r in KeepFilled(f, lines) <==>
      r.text != [] && exists i :: 0 <= i < |lines| && f(lines[i]) == r
    decreases |lines|
  {
    if lines != [] {
      var rest := lines[1..];
      KeepFilledSpec(f, rest);
      assert forall j :: 0 < j < |lines| ==> lines[j] == rest[j - 1];
      forall r: Line | r.text != [] && (exists i :: 0 <= i < |lines| && f(lines[i]) == r)
        ensures r in KeepFilled(f, lines)
      {
        var i :| 0 <= i < |lines| && f(lines[i]) == r;
        if i > 0 {
          assert f(rest[i - 1]) == r;
        }
      }
    }
  }

  /** The lines that remain are the stripped lines whose text is not empty;
      each keeps its source line number. */
  lemma UnlabelledSpec(lines: seq<Line>)
    ensures forall r: Line :: r in Unlabelled(lines) <==>
      r.text != [] && exists i :: 0 <= i < |lines| && StripLabel(lines[i]).1 == r
    ensures forall r: Line :: r in Unlabelled(lines) ==> r.instructionLine == 0
  {
    var f := l => StripLabel(l).1;
    KeepFilledSpec(f, lines);
    assert forall i :: 0 <= i < |lines| ==> f(lines[i]) == StripLabel(lines[i]).1;
  }

  /** `f` keeps each line's number. */
  ghost predicate KeepsNumber(f: Line -> Line) {
    forall l :: f(l).line == l.line
  }

  /** Under a number-keeping `f`, a lower bound on the numbers of the lines
      bounds those that remain. */
  lemma {:induction false} KeepFilledAbove(f: Line -> Line, lines: seq<Line>, n: int)
    requires KeepsNumber(f)
    requires forall i :: 0 <= i < |lines| ==> lines[i].line >= n
    ensures forall k :: 0 <= k < |KeepFilled(f, lines)| ==> KeepFilled(f, lines)[k].line >= n
    decreases |lines|
  {
    if lines != [] {
      KeepFilledAbove(f, lines[1..], n);
    }
  }

  /** Under a number-keeping `f`, sorted lines stay sorted. */
  lemma {:induction false} KeepFilledSorted(f: Line -> Line, lines: seq<Line>)
    requires KeepsNumber(f)
    requires Sorted(lines)
    ensures Sorted(KeepFilled(f, lines))
    decreases |lines|
  {
    if lines != [] {
      var rest := lines[1..];
      assert Sorted(rest);
      KeepFilledSorted(f, rest);
      KeepFilledAbove(f, rest, lines[0].line);
      var r := f(lines[0]);
      var later := KeepFilled(f, rest);
      if r.text != [] {
        var u := [r] + later;
        forall a, b | 0 <= a < b < |u|
          ensures u[a].line <= u[b].line
        {
          assert u[b] == later[b - 1];
          if a > 0 {
            assert u[a] == later[a - 1];
          }
        }
      }
    }
  }

  /** Cutting labels keeps the order of the lines. */
  lemma UnlabelledSorted(lines: seq<Line>)
    requires Sorted(lines)
    ensures Sorted(Unlabelled(lines))
  {
    KeepFilledSorted(l => StripLabel(l).1, lines);
  }

  /** Under a number-keeping `f`, strictly increasing lines stay strictly
      increasing. */
  lemma {:induction false} KeepFilledIncreasing(f: Line -> Line, lines: seq<Line>)
    requires KeepsNumber(f)
    requires Increasing(lines)
    ensures Increasing(KeepFilled(f, lines))
    decreases |lines|
  {
    if lines != [] {
      var rest := lines[1..];
      assert Increasing(rest);
      KeepFilledIncreasing(f, rest);
      KeepFilledAbove(f, rest, lines[0].line + 1);
      var r := f(lines[0]);
      var later := KeepFilled(f, rest);
      if r.text != [] {
        var u := [r] + later;
        forall a, b | 0 <= a < b < |u|
          ensures u[a].line < u[b].line
        {
          assert u[b] == later[b - 1];
          if a > 0 {
            assert u[a] == later[a - 1];
          }
        }
      }
    }
  }

  /** Cutting labels keeps line numbers strictly increasing. */
  lemma UnlabelledIncreasing(lines: seq<Line>)
    requires Increasing(lines)
    ensures Increasing(Unlabelled(lines))
  {
    KeepFilledIncreasing(l => StripLabel(l).1, lines);
  }

  /** The index of the first line whose source line number is at least `n`. */
  function FirstAtOrAfter(ls: seq<Line>, n: int): (r: Option<nat>)
    ensures r.Some? ==> r.value < |ls| && ls[r.value].line >= n
    ensures r.Some? ==> forall j :: 0 <= j < r.value ==> ls[j].line < n
    ensures r.None? ==> forall j :: 0 <= j < |ls| ==> ls[j].line < n
    decreases |ls|
  {
    if ls == [] then None
    else if ls[0].line >= n then Some(0)
    else
      match FirstAtOrAfter(ls[1..], n)
      case Some(i) => Some(i + 1)
      case None => None
  }

  /** Each label's instruction index: that of the first expanded line at or
      after the label's source line. A label after the last instruction
      gets none. */
  function Resolve(labels: map<string, int>, expanded: seq<Line>): (r: map<string, int>)
    ensures forall x :: x in r <==> x in labels && FirstAtOrAfter(expanded, labels[x]).Some?
  {
    map x | x in labels && FirstAtOrAfter(expanded, labels[x]).Some? ::
      expanded[FirstAtOrAfter(expanded, labels[x]).value].instructionLine
  }

  /** A resolved label points at an expanded line from its own source line
      or later, and every earlier expanded line comes from before it; a label
      is dropped only when every expanded line comes from before it. */
  lemma ResolveSpec(labels: map<string, int>, expanded: seq<Line>, x: string)
    requires x in labels
    ensures x in Resolve(labels, expanded) ==> exists i :: (
      && 0 <= i < |expanded| && expanded[i].line >= labels[x]
      && (forall j :: 0 <= j < i ==> expanded[j].line < labels[x])
      && Resolve(labels, expanded)[x] == expanded[i].instructionLine)
    ensures x !in Resolve(labels, expanded) <==> forall j :: 0 <= j < |expanded| ==> expanded[j].line < labels[x]
  {
    var f := FirstAtOrAfter(expanded, labels[x]);
    if f.Some? {
      assert expanded[f.value].line >= labels[x];
    }
  }
}
