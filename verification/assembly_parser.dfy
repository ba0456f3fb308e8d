/**
 One run of the assembler: the input lines are cleaned, split into the data
 and text sections, the data section is laid out in data memory, labels are
 cut from the text section, pseudo-instructions are expanded, labels are
 resolved to instruction indices, and every instruction is encoded and
 rendered as 32 characters of `0` and `1`.
 */
module AssemblyParser {
  import opened Types
  import opened JavaText
  import opened JavaInt
  import Preprocess
  import opened Sections
  import opened DataSegment
  import opened Labels
  import opened Macros
  import opened Encoder
  import opened Binary

  /** Each word as `Integer.toBinaryString`, left-padded with `0` to 32
      characters; the data memory is shown the same way. */
  function RenderAll(words: seq<int>): (r: seq<string>)
    ensures |r| == |words|
    ensures forall i :: 0 <= i < |r| ==> r[i] == Render(words[i])
  {
    seq(|words|, i requires 0 <= i < |words| => Render(words[i]))
  }

  /** The text section after labels are cut and macros expanded, each line
      numbered with its instruction index, and the errors expansion
      recorded. */
  function Expanded(text: seq<Line>, isa: Isa, m: Matcher): Result<(seq<Line>, seq<Diagnostic>)> {
    var (expanded, errs) :- ExpandAll(Unlabelled(text), isa.macros, m);
    Ok((Number(expanded), errs))
  }

  /** The text section encoded against the data variables `symbols`: the
      instruction words and the errors of expansion and encoding, in that
      order. */
  function TextSection(text: seq<Line>, isa: Isa, m: Matcher, symbols: map<string, int>)
    : Result<(seq<Word>, seq<Diagnostic>)>
  {
    var (numbered, errs1) :- Expanded(text, isa, m);
    var labels := Resolve(LabelMap(text), numbered);
    var (words, errs2) :- EncodeAll(numbered, isa.instructions, m, symbols, labels);
    Ok((words, errs1 + errs2))
  }

  /** `process`: the whole run on the input lines `assembly`. */
  function Process(assembly: seq<string>, isa: Isa, m: Matcher): Outcome {
    var lines := Preprocess.Preprocess(assembly);
    if assembly == [] then Fatal(NoInstructionsProvided)
    else
      match SplitSections(lines)
      case Crash(a) => Fatal(a)
      case Ok(sp) =>
        match DataSection(sp.data)
        case Crash(a) => Fatal(a)
        case Ok(Halt(mem)) => Stopped(mem.errors, mem.words)
        case Ok(Next(mem)) =>
          match TextSection(sp.text, isa, m, mem.symbols)
          case Crash(a) => Fatal(a)
          case Ok((words, errs)) => Done(mem.errors + errs, RenderAll(words), mem.words)
  }

  /** The value `process` returns: true only when every stage ran and no
      error was recorded. A fatal outcome returns nothing. */
  function Succeeded(o: Outcome): (r: Option<bool>)
    ensures r == None <==> o.Fatal?
    ensures r == Some(true) <==> o.Done? && o.errors == []
  {
    match o
    case Fatal(_) => None
    case Stopped(_, _) => Some(false)
    case Done(errors, _, _) => Some(errors == [])
  }

  /** `getDataMemory`: the data memory rendered word by word. */
  function DataMemory(o: Outcome): (r: seq<string>)
    requires !o.Fatal?
  {
    RenderAll(o.data)
  }

  /** Every data memory word is shown as 32 binary digits whose value is
      the word as an unsigned 32-bit number, so the word reads back. */
  lemma DataMemorySpec(o: Outcome)
    requires !o.Fatal?
    ensures |DataMemory(o)| == |o.data|
    ensures forall i :: 0 <= i < |o.data| ==>
      && |DataMemory(o)[i]| == 32 && IsBitString(DataMemory(o)[i])
      && BinaryValue(DataMemory(o)[i]) == ToWord(o.data[i])
      && (IsInt32(o.data[i]) ==> ToInt32(BinaryValue(DataMemory(o)[i])) == o.data[i])
  {
    forall i | 0 <= i < |o.data|
      ensures BinaryValue(DataMemory(o)[i]) == ToWord(o.data[i])
      ensures |DataMemory(o)[i]| == 32 && IsBitString(DataMemory(o)[i])
      ensures IsInt32(o.data[i]) ==> ToInt32(BinaryValue(DataMemory(o)[i])) == o.data[i]
    {
      RenderSpec(o.data[i]);
    }
  }

  /** An empty input aborts the run. */
  lemma EmptyInputAborts(isa: Isa, m: Matcher)
    ensures Process([], isa, m) == Fatal(NoInstructionsProvided)
  {
  }

  /** A completed run: the data memory is the layout of the data section's
      declarations, the errors begin with those of the data lines, there is
      one instruction word per expanded line with a known mnemonic, and
      every word is shown as 32 binary digits spelling the encoded word. */
  lemma DoneSpec(assembly: seq<string>, isa: Isa, m: Matcher)
    requires Process(assembly, isa, m).Done?
    ensures var lines := Preprocess.Preprocess(assembly);
      SplitSections(lines).Ok? && Expanded(SplitSections(lines).value.text, isa, m).Ok?
    ensures var o := Process(assembly, isa, m);
      var sp := SplitSections(Preprocess.Preprocess(assembly)).value;
      var numbered := Expanded(sp.text, isa, m).value.0;
      && o.data == Layout(ReadAll(sp.data))
      && AllComplaints(ReadAll(sp.data)) <= o.errors
      && |o.binary| == KnownCount(numbered, isa.instructions)
      && (forall i :: 0 <= i < |o.binary| ==> |o.binary[i]| == 32 && IsBitString(o.binary[i]))
    ensures var o := Process(assembly, isa, m);
      var sp := SplitSections(Preprocess.Preprocess(assembly)).value;
      DataSection(sp.data).Ok? && DataSection(sp.data).value.Next? &&
      var words := TextSection(sp.text, isa, m, DataSection(sp.data).value.mem.symbols);
      && words.Ok? && |words.value.0| == |o.binary|
      && forall i :: 0 <= i < |o.binary| ==> BinaryValue(o.binary[i]) == words.value.0[i]
  {
    var lines := Preprocess.Preprocess(assembly);
    var sp := SplitSections(lines).value;
    var mem := DataSection(sp.data).value.mem;
    SectionLayout(sp.data);
    var (numbered, errs1) := Expanded(sp.text, isa, m).value;
    var labels := Resolve(LabelMap(sp.text), numbered);
    EncodeAllCount(numbered, isa.instructions, m, mem.symbols, labels);
    var o := Process(assembly, isa, m);
    forall i | 0 <= i < |o.binary|
      ensures |o.binary[i]| == 32 && IsBitString(o.binary[i])
    {
      RenderSpec(TextSection(sp.text, isa, m, mem.symbols).value.0[i]);
    }
    var words := TextSection(sp.text, isa, m, mem.symbols).value.0;
    forall i | 0 <= i < |o.binary|
      ensures BinaryValue(o.binary[i]) == words[i]
    {
      RenderSpec(words[i]);
    }
  }

  /** A run stops early only at a data line whose name token holds no
      variable name; it then returns false with that line's error last. */
  lemma StoppedSpec(assembly: seq<string>, isa: Isa, m: Matcher)
    requires Process(assembly, isa, m).Stopped?
    ensures Succeeded(Process(assembly, isa, m)) == Some(false)
    ensures var ds := ReadAll(SplitSections(Preprocess.Preprocess(assembly)).value.data);
      exists i :: BadNameLast(ds, i, Process(assembly, isa, m).errors)
  {
    var sp := SplitSections(Preprocess.Preprocess(assembly)).value;
    HaltAtBadName(Empty, ReadAll(sp.data));
  }

  /** The text section keeps the input order: its source line numbers
      strictly increase, so they are sorted and no two lines share one. */
  lemma TextOrdered(assembly: seq<string>)
    requires SplitSections(Preprocess.Preprocess(assembly)).Ok?
    ensures var text := SplitSections(Preprocess.Preprocess(assembly)).value.text;
      Increasing(text) && Sorted(text)
  {
    var lines := Preprocess.Preprocess(assembly);
    Preprocess.PreprocessSpec(assembly);
    SplitIncreasing(lines);
    IncreasingSorted(SplitSections(lines).value.text);
  }

  /** A label resolves to the first instruction its defining line expands
      to. Let text line `i` be the last to define `x` and keep an
      instruction after the label: that instruction expands without a
      crash, and when it yields any lines, `x` resolves to the instruction
      index of the first of them, and the lines from there on are exactly
      its expansion, carrying its source line number. */
  lemma LabelResolvesToFirstExpansion(assembly: seq<string>, isa: Isa, m: Matcher, i: int, x: string)
    requires SplitSections(Preprocess.Preprocess(assembly)).Ok?
    requires var text := SplitSections(Preprocess.Preprocess(assembly)).value.text;
      && 0 <= i < |text| && StripLabel(text[i]).0 == Some(x)
      && (forall j :: i < j < |text| ==> StripLabel(text[j]).0 != Some(x))
      && StripLabel(text[i]).1.text != []
      && Expanded(text, isa, m).Ok?
    ensures var text := SplitSections(Preprocess.Preprocess(assembly)).value.text;
      ExpandLine(StripLabel(text[i]).1, isa.macros, m).Ok?
    ensures var text := SplitSections(Preprocess.Preprocess(assembly)).value.text;
      var out := ExpandLine(StripLabel(text[i]).1, isa.macros, m).value.0;
      var numbered := Expanded(text, isa, m).value.0;
      var resolved := Resolve(LabelMap(text), numbered);
      out != [] ==> x in resolved && NumberedAt(numbered, resolved[x], out, text[i].line)
  {
    TextOrdered(assembly);
    LabelResolvesIn(SplitSections(Preprocess.Preprocess(assembly)).value.text, isa, m, i, x);
  }

  /** `LabelResolvesToFirstExpansion` for any text section whose line
      numbers strictly increase. */
  lemma LabelResolvesIn(text: seq<Line>, isa: Isa, m: Matcher, i: int, x: string)
    requires Increasing(text)
    requires 0 <= i < |text| && StripLabel(text[i]).0 == Some(x)
    requires forall j :: i < j < |text| ==> StripLabel(text[j]).0 != Some(x)
    requires StripLabel(text[i]).1.text != []
    requires Expanded(text, isa, m).Ok?
    ensures ExpandLine(StripLabel(text[i]).1, isa.macros, m).Ok?
    ensures var out := ExpandLine(StripLabel(text[i]).1, isa.macros, m).value.0;
      var numbered := Expanded(text, isa, m).value.0;
      var resolved := Resolve(LabelMap(text), numbered);
      out != [] ==> x in resolved && NumberedAt(numbered, resolved[x], out, text[i].line)
  {
    var u := Unlabelled(text);
    UnlabelledIncreasing(text);
    UnlabelledSpec(text);
    StripLabelSpec(text[i]);
    var r := StripLabel(text[i]).1;
    assert r in u;
    var k :| 0 <= k < |u| && u[k] == r;
    ExpansionAt(u, isa.macros, m, k);
    LastDefinition(text, i, x);
    var expanded := ExpandAll(u, isa.macros, m).value.0;
    var p := |ExpandAll(u[..k], isa.macros, m).value.0|;
    var numbered := Expanded(text, isa, m).value.0;
    var out := ExpandLine(r, isa.macros, m).value.0;
    assert numbered == Number(expanded);
    assert NumberedAt(numbered, p, out, text[i].line);
    if out != [] {
      ResolveAt(LabelMap(text), expanded, x, p);
    }
  }

  /** A label whose first line at or after it is at `p` resolves to `p`. */
  lemma ResolveAt(labels: map<string, int>, expanded: seq<Line>, x: string, p: nat)
    requires x in labels && FirstAtOrAfter(Number(expanded), labels[x]) == Some(p)
    ensures x in Resolve(labels, Number(expanded)) && Resolve(labels, Number(expanded))[x] == p
  {
  }

  /** Among strictly increasing lines, line `k` expands without a crash,
      and what it yields sits in the numbered expansion right after what
      the lines before it yield; the first of it is the first expanded
      line at or after its source line. */
  lemma ExpansionAt(u: seq<Line>, macros: map<string, MacroGrammar>, m: Matcher, k: nat)
    requires Increasing(u) && ExpandAll(u, macros, m).Ok? && k < |u|
    ensures ExpandLine(u[k], macros, m).Ok? && ExpandAll(u[..k], macros, m).Ok?
    ensures var out := ExpandLine(u[k], macros, m).value.0;
      var numbered := Number(ExpandAll(u, macros, m).value.0);
      var p := |ExpandAll(u[..k], macros, m).value.0|;
      NumberedAt(numbered, p, out, u[k].line)
  {
    var f := l => ExpandLine(l, macros, m);
    forall l | f(l).Ok?
      ensures forall q :: 0 <= q < |f(l).value.0| ==> f(l).value.0[q].line == l.line
    {
      ExpandLineLines(l, macros, m);
    }
    ConcatEachAt(f, u, k);
    NumberedBlock(ConcatEach(f, u).value.0, |ConcatEach(f, u[..k]).value.0|, f(u[k]).value.0, u[k].line);
  }

  /** The numbered lines hold `out` from index `p` on, with source line
      `n`, and the first line at or after `n` is at `p` when `out` has any
      line. */
  predicate NumberedAt(numbered: seq<Line>, p: int, out: seq<Line>, n: int) {
    && 0 <= p && p + |out| <= |numbered|
    && (forall j :: p <= j < p + |out| ==> numbered[j].line == n && numbered[j].text == out[j - p].text)
    && (out != [] ==> FirstAtOrAfter(numbered, n) == Some(p))
  }

  /** In the numbered lines, a block of lines from source line `n` whose
      predecessors all come from earlier lines starts at the first line at
      or after `n`. */
  lemma NumberedBlock(expanded: seq<Line>, p: nat, out: seq<Line>, n: int)
    requires BlockFrom(expanded, p, out, n)
    ensures NumberedAt(Number(expanded), p, out, n)
  {
    var numbered := Number(expanded);
    forall j | p <= j < p + |out|
      ensures numbered[j].line == n && numbered[j].text == out[j - p].text
    {
      assert expanded[p + (j - p)] == out[j - p];
    }
    if out != [] {
      assert expanded[p + 0] == out[0];
      FirstIsAt(numbered, p, n);
    }
  }

  /** The first line at or after `n` is the one at `p` when it is from `n`
      and every line before it is from earlier. */
  lemma FirstIsAt(ls: seq<Line>, p: nat, n: int)
    requires p < |ls| && ls[p].line == n
    requires forall q :: 0 <= q < p ==> ls[q].line < n
    ensures FirstAtOrAfter(ls, n) == Some(p)
  {
    var first := FirstAtOrAfter(ls, n);
    assert first.Some? && first.value <= p;
  }

  /** The last line to define `x` gives its line number in the label map. */
  lemma LastDefinition(text: seq<Line>, i: int, x: string)
    requires 0 <= i < |text| && StripLabel(text[i]).0 == Some(x)
    requires forall j :: i < j < |text| ==> StripLabel(text[j]).0 != Some(x)
    ensures x in LabelMap(text) && LabelMap(text)[x] == text[i].line
  {
    LabelMapSpec(text, x);
  }
}
