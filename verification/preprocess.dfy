/**
 The first stage: number the input lines from 1, cut each at its first `;`,
 trim it, and drop the lines left empty.
 */
module Preprocess {
  import opened Types
  import opened JavaText

  /** The text a source line keeps: what precedes its comment, trimmed. */
  function Clean(text: string): (r: string)
    ensures r == [] || (!IsBlank(r[0]) && !IsBlank(r[|r| - 1]))
    ensures ';' !in r
  {
    var code := StripComment(text);
    var r := Trim(code);
    assert forall i :: 0 <= i < |r| ==> r[i] in code;
    r
  }

  /** Every input line, numbered from 1, with its cleaned text. */
  function Numbered(assembly: seq<string>): (r: seq<Line>)
    ensures |r| == |assembly|
    ensures forall i :: 0 <= i < |r| ==> r[i] == Line(i + 1, Clean(assembly[i]), 0)
    ensures Increasing(r)
  {
    seq(|assembly|, i requires 0 <= i < |assembly| => Line(i + 1, Clean(assembly[i]), 0))
  }

  /** The lines whose text is not empty, in their original order. */
  function KeepNonEmpty(ls: seq<Line>): (r: seq<Line>)
    ensures forall l :: l in r <==> l in ls && l.text != []
    ensures Increasing(ls) ==> Increasing(r)
  {
    if ls == [] then []
    else
      var rest := KeepNonEmpty(ls[1..]);
      assert forall l :: l in ls[1..] ==> l.line > ls[0].line || !Increasing(ls);
      if ls[0].text != [] then
        var r := [ls[0]] + rest;
        assert forall k :: 0 < k < |r| ==> r[k] == rest[k - 1];
        r
      else
        rest
  }

  /** The kept lines of `assembly`, with their 1-based line numbers; every
      `instructionLine` is still 0. */
  function Preprocess(assembly: seq<string>): seq<Line> {
    KeepNonEmpty(Numbered(assembly))
  }

  /** A line is kept exactly when its cleaned text is non-empty, it carries
      its 1-based number and its cleaned text, and the kept lines stay in
      input order. */
  lemma PreprocessSpec(assembly: seq<string>)
    ensures var r := Preprocess(assembly);
      && (forall l :: l in r ==>
        && 1 <= l.line <= |assembly|
        && l.text == Clean(assembly[l.line - 1])
        && l.text != []
        && l.instructionLine == 0)
      && (forall i :: 0 <= i < |assembly| && Clean(assembly[i]) != [] ==>
        Line(i + 1, Clean(assembly[i]), 0) in r)
      && Increasing(r)
  {
    var numbered := Numbered(assembly);
    var r := KeepNonEmpty(numbered);
    forall l | l in r
      ensures 1 <= l.line <= |assembly| && l.text == Clean(assembly[l.line - 1])
    {
      var i :| 0 <= i < |numbered| && numbered[i] == l;
    }
    forall i | 0 <= i < |assembly| && Clean(assembly[i]) != []
      ensures Line(i + 1, Clean(assembly[i]), 0) in r
    {
      assert numbered[i] in numbered;
    }
  }
}
