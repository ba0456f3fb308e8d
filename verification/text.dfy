/**
 The few pieces of java.lang.String and java.util.regex behaviour the
 assembler relies on: `trim`, cutting at the first `;`, `split("\\s+")`,
 and finding the label pattern `([a-zA-Z0-9]+):`.
 */
module JavaText {
  import opened Types

  /** The characters `String.trim` removes: every code point up to U+0020. */
  predicate IsBlank(c: char) {
    c <= ' '
  }

  /** The characters of the regex class `\s`: space, tab, newline, vertical
      tab, form feed and carriage return. */
  predicate IsSpace(c: char) {
    c == ' ' || '\t' <= c <= '\r'
  }

  predicate IsAlnum(c: char) {
    'a' <= c <= 'z' || 'A' <= c <= 'Z' || '0' <= c <= '9'
  }

  /** The character classes the scanning functions below are used with. */
  datatype Class = Blank | Space | NonSpace | Alnum | NonSemicolon | Digit

  predicate In(c: char, k: Class) {
    match k
    case Blank => IsBlank(c)
    case Space => IsSpace(c)
    case NonSpace => !IsSpace(c)
    case Alnum => IsAlnum(c)
    case NonSemicolon => c != ';'
    case Digit => '0' <= c <= '9'
  }

  predicate SpaceFree(s: string) {
    forall i :: 0 <= i < |s| ==> !IsSpace(s[i])
  }

  /** The end of the longest run of characters of class `p` starting at `i`. */
  function RunEnd(s: string, i: nat, p: Class): (e: nat)
    requires i <= |s|
    ensures i <= e <= |s|
    decreases |s| - i
  {
    if i == |s| || !In(s[i], p) then i else RunEnd(s, i + 1, p)
  }

  /** Every character of the run is of class `p` and the one after it is not. */
  lemma {:induction false} RunEndSpec(s: string, i: nat, p: Class)
    requires i <= |s|
    ensures forall k :: i <= k < RunEnd(s, i, p) ==> In(s[k], p)
    ensures RunEnd(s, i, p) < |s| ==> !In(s[RunEnd(s, i, p)], p)
    decreases |s| - i
  {
    if i < |s| && In(s[i], p) {
      RunEndSpec(s, i + 1, p);
    }
  }

  /** The start of the longest run of characters of class `p` ending just
      before `j`, going no lower than `lo`. */
  function RunStart(s: string, lo: nat, j: nat, p: Class): (b: nat)
    requires lo <= j <= |s|
    ensures lo <= b <= j
    ensures forall k :: b <= k < j ==> In(s[k], p)
    ensures b > lo ==> !In(s[b - 1], p)
    decreases j
  {
    if j == lo || !In(s[j - 1], p) then j else RunStart(s, lo, j - 1, p)
  }

  /** `String.trim`: `s` without its leading and trailing blanks. */
  function Trim(s: string): (r: string)
    ensures r == [] <==> forall i :: 0 <= i < |s| ==> IsBlank(s[i])
    ensures r != [] ==> !IsBlank(r[0]) && !IsBlank(r[|r| - 1])
    ensures var st := RunEnd(s, 0, Blank);
      && st + |r| <= |s|
      && r == s[st..st + |r|]
      && (forall i :: 0 <= i < st ==> IsBlank(s[i]))
      && (forall i :: st + |r| <= i < |s| ==> IsBlank(s[i]))
  {
    var st := RunEnd(s, 0, Blank);
    RunEndSpec(s, 0, Blank);
    var len := RunStart(s, st, |s|, Blank);
    assert st < |s| ==> !IsBlank(s[st]) && st < len;
    s[st..len]
  }

  /** A text without blanks at either end is already trimmed. */
  lemma TrimUnchanged(s: string)
    requires s != [] && !IsBlank(s[0]) && !IsBlank(s[|s| - 1])
    ensures Trim(s) == s
  {
    var r := Trim(s);
    assert RunEnd(s, 0, Blank) == 0;
    assert r != [];
    assert |r| == |s|;
  }

  /** The text before the first `;` of `s` (all of `s` when it has none). */
  function StripComment(s: string): (r: string)
    ensures r <= s
    ensures ';' !in r
    ensures |r| < |s| ==> s[|r|] == ';'
  {
    var e := RunEnd(s, 0, NonSemicolon);
    RunEndSpec(s, 0, NonSemicolon);
    var r := s[..e];
    assert forall k :: 0 <= k < |r| ==> r[k] == s[k] && In(s[k], NonSemicolon);
    r
  }

  /** The maximal runs of non-`\s` characters of `s` from position `i` on. */
  function WordsFrom(s: string, i: nat): seq<string>
    requires i <= |s|
    decreases |s| - i
  {
    var a := RunEnd(s, i, Space);
    if a == |s| then [] else [s[a..RunEnd(s, a, NonSpace)]] + WordsFrom(s, RunEnd(s, a, NonSpace))
  }

  /** The words are non-empty and free of `\s`, and there are none exactly
      when only `\s` is left. */
  lemma {:induction false} WordsFromShape(s: string, i: nat)
    requires i <= |s|
    ensures var r := WordsFrom(s, i);
      && (forall k :: 0 <= k < |r| ==> r[k] != [] && SpaceFree(r[k]))
      && (r == [] <==> forall k :: i <= k < |s| ==> IsSpace(s[k]))
    decreases |s| - i
  {
    var a := RunEnd(s, i, Space);
    RunEndSpec(s, i, Space);
    if a < |s| {
      var b := RunEnd(s, a, NonSpace);
      RunEndSpec(s, a, NonSpace);
      var w := s[a..b];
      assert forall k :: 0 <= k < |w| ==> w[k] == s[a + k] && In(s[a + k], NonSpace);
      var tail := WordsFrom(s, b);
      WordsFromShape(s, b);
      assert forall k :: 0 < k < |[w] + tail| ==> ([w] + tail)[k] == tail[k - 1];
      assert !IsSpace(s[a]);
    }
  }

  /** The first word of `s`: its longest prefix without `\s`. */
  function Prefix(s: string): (r: string)
    ensures r <= s && SpaceFree(r)
    ensures |r| < |s| ==> IsSpace(s[|r|])
  {
    var e := RunEnd(s, 0, NonSpace);
    RunEndSpec(s, 0, NonSpace);
    var r := s[..e];
    assert forall k :: 0 <= k < |r| ==> r[k] == s[k] && In(s[k], NonSpace);
    r
  }

  /** `s.split("\\s+")`. With no `\s` in `s` the result is `[s]` (so `""`
      gives `[""]`). Otherwise it is the text before the first `\s`, possibly
      empty, followed by the words after it; Java drops that leading piece
      only when it is empty and nothing follows it. */
  function Split(s: string): seq<string>
  {
    if SpaceFree(s) then
      [s]
    else
      var first := Prefix(s);
      var rest := WordsFrom(s, |first|);
      if first == [] && rest == [] then [] else [first] + rest
  }

  /** The pieces of a split contain no `\s`, all but the first are non-empty,
      the first is the text before the first `\s`, and there are none exactly
      when `s` is non-empty and all `\s`. */
  lemma SplitShape(s: string)
    ensures var r := Split(s);
      && (forall i :: 0 <= i < |r| ==> SpaceFree(r[i]))
      && (forall i :: 0 < i < |r| ==> r[i] != [])
      && (|r| > 0 ==> r[0] == Prefix(s))
      && (|r| == 0 <==> s != [] && forall i :: 0 <= i < |s| ==> IsSpace(s[i]))
  {
    if !SpaceFree(s) {
      var first := Prefix(s);
      var rest := WordsFrom(s, |first|);
      WordsFromShape(s, |first|);
      assert forall i :: 0 < i < |[first] + rest| ==> ([first] + rest)[i] == rest[i - 1];
    }
  }

  /** The words of `ws` separated by one space each. */
  function Join(ws: seq<string>): string
  {
    if |ws| <= 1 then (if ws == [] then [] else ws[0]) else ws[0] + " " + Join(ws[1..])
  }

  /** `split("\\s+")` recovers the words joined by single spaces. */
  lemma SplitJoin(ws: seq<string>)
    requires |ws| >= 1
    requires forall i :: 0 <= i < |ws| ==> ws[i] != [] && SpaceFree(ws[i])
    ensures Split(Join(ws)) == ws
  {
    if |ws| == 1 {
      assert Join(ws) == ws[0];
    } else {
      var s := Join(ws);
      JoinHead(ws);
      assert !SpaceFree(s) by {
        assert IsSpace(s[|ws[0]|]);
      }
      SplitOfSpaced(s);
      WordsAfterFirst(ws);
      assert ws == [ws[0]] + ws[1..];
    }
  }

  /** A join of several words starts with the first word and a space. */
  lemma JoinHead(ws: seq<string>)
    requires |ws| >= 2
    requires ws[0] != [] && SpaceFree(ws[0])
    ensures |ws[0]| < |Join(ws)| && IsSpace(Join(ws)[|ws[0]|])
    ensures !IsSpace(Join(ws)[0])
    ensures Prefix(Join(ws)) == ws[0]
  {
    var s := Join(ws);
    var tail := Join(ws[1..]);
    assert s == ws[0] + (" " + tail);
    assert s[0] == ws[0][0];
    RunOverWord(ws[0], " " + tail, 0);
    assert s[..|ws[0]|] == ws[0];
  }

  /** A text that starts with a word and contains `\s` splits into that
      word and the words after it. */
  lemma SplitOfSpaced(s: string)
    requires s != [] && !IsSpace(s[0]) && !SpaceFree(s)
    ensures Split(s) == [Prefix(s)] + WordsFrom(s, |Prefix(s)|)
  {
    assert Prefix(s) != [] by {
      assert RunEnd(s, 0, NonSpace) > 0;
    }
  }

  /** The words of words joined by single spaces are those words. */
  lemma {:induction false} WordsJoin(ws: seq<string>)
    requires |ws| >= 1
    requires forall i :: 0 <= i < |ws| ==> ws[i] != [] && SpaceFree(ws[i])
    ensures WordsFrom(Join(ws), 0) == ws
    decreases |ws|, 1
  {
    var s := Join(ws);
    JoinStart(ws);
    assert RunEnd(s, 0, Space) == 0;
    if |ws| == 1 {
      assert s == ws[0];
      assert RunEnd(s, 0, NonSpace) == |s| by {
        RunOverWord(s, [], 0);
        assert s + [] == s;
      }
      assert s[0..|s|] == s;
      assert WordsFrom(s, |s|) == [];
    } else {
      var tail := Join(ws[1..]);
      assert s == ws[0] + (" " + tail);
      assert RunEnd(s, 0, NonSpace) == |ws[0]| by {
        RunOverWord(ws[0], " " + tail, 0);
      }
      assert s[0..|ws[0]|] == ws[0];
      WordsAfterFirst(ws);
      assert ws == [ws[0]] + ws[1..];
    }
  }

  /** After the first word and its space, the words of a join are the
      remaining words. */
  lemma {:induction false} WordsAfterFirst(ws: seq<string>)
    requires |ws| >= 2
    requires forall i :: 0 <= i < |ws| ==> ws[i] != [] && SpaceFree(ws[i])
    ensures WordsFrom(Join(ws), |ws[0]|) == ws[1..]
    decreases |ws|, 0
  {
    var s := Join(ws);
    var tail := Join(ws[1..]);
    assert s == ws[0] + (" " + tail);
    calc {
      WordsFrom(s, |ws[0]|);
      { WordsShift(ws[0], " " + tail, 0); }
      WordsFrom(" " + tail, 0);
      { WordsSkipSpace(" " + tail, 0); }
      WordsFrom(" " + tail, 1);
      { WordsShift(" ", tail, 0); }
      WordsFrom(tail, 0);
      { WordsJoin(ws[1..]); }
      ws[1..];
    }
  }

  lemma JoinStart(ws: seq<string>)
    requires |ws| >= 1 && ws[0] != [] && SpaceFree(ws[0])
    ensures Join(ws) != [] && !IsSpace(Join(ws)[0])
  {
    if |ws| > 1 {
      assert Join(ws) == ws[0] + " " + Join(ws[1..]);
      assert Join(ws)[0] == ws[0][0];
    }
  }

  /** Over a word followed by `\s` (or by nothing), the non-`\s` run from
      inside the word ends exactly at the end of the word. */
  lemma {:induction false} RunOverWord(w: string, rest: string, k: nat)
    requires SpaceFree(w) && k <= |w|
    requires rest == [] || IsSpace(rest[0])
    ensures RunEnd(w + rest, k, NonSpace) == |w|
    decreases |w| - k
  {
    if k < |w| {
      assert (w + rest)[k] == w[k];
      RunOverWord(w, rest, k + 1);
    } else if rest != [] {
      assert (w + rest)[k] == rest[0];
    }
  }

  /** Runs are unaffected by text placed before them. */
  lemma {:induction false} RunEndShift(p: string, s: string, i: nat, c: Class)
    requires i <= |s|
    ensures RunEnd(p + s, |p| + i, c) == |p| + RunEnd(s, i, c)
    decreases |s| - i
  {
    if i < |s| {
      assert (p + s)[|p| + i] == s[i];
      if In(s[i], c) {
        RunEndShift(p, s, i + 1, c);
      }
    }
  }

  /** Words are unaffected by text placed before them. */
  lemma {:induction false} WordsShift(p: string, s: string, i: nat)
    requires i <= |s|
    ensures WordsFrom(p + s, |p| + i) == WordsFrom(s, i)
    decreases |s| - i
  {
    var a := RunEnd(s, i, Space);
    assert RunEnd(p + s, |p| + i, Space) == |p| + a by {
      RunEndShift(p, s, i, Space);
    }
    if a < |s| {
      var b := RunEnd(s, a, NonSpace);
      assert RunEnd(p + s, |p| + a, NonSpace) == |p| + b by {
        RunEndShift(p, s, a, NonSpace);
      }
      assert (p + s)[|p| + a..|p| + b] == s[a..b] by {
        SliceAfter(p, s, a, b);
      }
      assert WordsFrom(p + s, |p| + b) == WordsFrom(s, b) by {
        WordsShift(p, s, b);
      }
    }
  }

  lemma SliceAfter(p: string, s: string, a: nat, b: nat)
    requires a <= b <= |s|
    ensures (p + s)[|p| + a..|p| + b] == s[a..b]
  {
    assert forall k :: a <= k < b ==> (p + s)[|p| + k] == s[k];
  }

  lemma WordsSkipSpace(s: string, i: nat)
    requires i < |s| && IsSpace(s[i])
    ensures WordsFrom(s, i) == WordsFrom(s, i + 1)
  {
    assert RunEnd(s, i, Space) == RunEnd(s, i + 1, Space);
  }

  /** The regex `([a-zA-Z0-9]+):` matches `s` at position `p` with a group
      of `n` characters. */
  predicate LabelAt(s: string, p: int, n: int) {
    && 0 <= p && 1 <= n && p + n < |s|
    && (forall k :: p <= k < p + n ==> IsAlnum(s[k]))
    && s[p + n] == ':'
  }

  /** A successful `Matcher.find`: where the match starts and its group 1. */
  datatype Found = Found(start: nat, name: string)

  /** `Matcher.find` of `([a-zA-Z0-9]+):` in `s`, trying start positions from
      `i` on: the leftmost match, whose group is then forced to be the whole
      alphanumeric run before the colon. */
  function FindLabelFrom(s: string, i: nat): (r: Option<Found>)
    requires i <= |s|
    ensures r.Some? ==> i <= r.value.start && LabelAt(s, r.value.start, |r.value.name|)
    ensures r.Some? ==> r.value.name == s[r.value.start..r.value.start + |r.value.name|]
    ensures r.Some? ==> forall q, n :: i <= q < r.value.start ==> !LabelAt(s, q, n)
    ensures r.None? ==> forall q, n :: i <= q ==> !LabelAt(s, q, n)
    decreases |s| - i
  {
    if i == |s| then
      None
    else if !IsAlnum(s[i]) then
      assert forall n :: !LabelAt(s, i, n);
      FindLabelFrom(s, i + 1)
    else
      var e := RunEnd(s, i, Alnum);
      RunEndSpec(s, i, Alnum);
      assert forall k :: i <= k < e ==> IsAlnum(s[k]) by {
        forall k | i <= k < e
          ensures IsAlnum(s[k])
        {
          assert In(s[k], Alnum);
        }
      }
      if e < |s| && s[e] == ':' then
        Some(Found(i, s[i..e]))
      else
        assert e < |s| ==> !In(s[e], Alnum);
        NoLabelInsideRun(s, i, e);
        FindLabelFrom(s, e)
  }

  lemma NoLabelInsideRun(s: string, i: nat, e: nat)
    requires i < e <= |s|
    requires forall k :: i <= k < e ==> IsAlnum(s[k])
    requires e < |s| ==> !IsAlnum(s[e]) && s[e] != ':'
    ensures forall q, n :: i <= q < e ==> !LabelAt(s, q, n)
  {
    forall q, n | i <= q < e
      ensures !LabelAt(s, q, n)
    {
      if 1 <= n && q + n < |s| {
        if q + n < e {
          assert IsAlnum(s[q + n]);
        } else if q + n > e {
          assert q <= e < q + n && !IsAlnum(s[e]);
        }
      }
    }
  }

  function FindLabel(s: string): Option<Found> {
    FindLabelFrom(s, 0)
  }

  /** The label pattern anchored at the start of `s`: the leading
      alphanumeric run, when a colon follows it. */
  function LeadingLabel(s: string): (r: Option<string>)
    ensures r.Some? ==> LabelAt(s, 0, |r.value|) && r.value == s[..|r.value|]
    ensures r.None? ==> forall n :: !LabelAt(s, 0, n)
  {
    var e := RunEnd(s, 0, Alnum);
    RunEndSpec(s, 0, Alnum);
    assert forall k :: 0 <= k < e ==> IsAlnum(s[k]) by {
      forall k | 0 <= k < e
        ensures IsAlnum(s[k])
      {
        assert In(s[k], Alnum);
      }
    }
    if e >= 1 && e < |s| && s[e] == ':' then
      Some(s[..e])
    else if e >= 1 then
      assert e < |s| ==> !In(s[e], Alnum);
      NoLabelInsideRun(s, 0, e);
      None
    else
      None
  }

  /** A run of class `p` from `i` that stops at `e` ends there. */
  lemma {:induction false} RunEndAt(s: string, i: nat, e: nat, p: Class)
    requires i <= e <= |s|
    requires forall k :: i <= k < e ==> In(s[k], p)
    requires e < |s| ==> !In(s[e], p)
    ensures RunEnd(s, i, p) == e
    decreases e - i
  {
    if i < e {
      RunEndAt(s, i + 1, e, p);
    }
  }

  /** A text that opens with an alphanumeric name and a colon carries that
      label, whatever follows. */
  lemma LabelOfDeclaration(name: string, rest: string)
    requires name != [] && forall k :: 0 <= k < |name| ==> IsAlnum(name[k])
    ensures LeadingLabel(name + ":" + rest) == Some(name)
    ensures FindLabel(name + ":" + rest) == Some(Found(0, name))
  {
    var s := name + ":" + rest;
    assert forall k :: 0 <= k < |name| ==> s[k] == name[k] && In(s[k], Alnum);
    assert s[|name|] == ':';
    RunEndAt(s, 0, |name|, Alnum);
    assert s[..|name|] == name;
    LeadingLabelIsFindAtZero(s);
  }

  /** The anchored label is exactly a `find` that happens to match at 0. */
  lemma LeadingLabelIsFindAtZero(s: string)
    ensures LeadingLabel(s).Some? <==> FindLabel(s).Some? && FindLabel(s).value.start == 0
    ensures LeadingLabel(s).Some? ==> FindLabel(s).value.name == LeadingLabel(s).value
  {
    var f := FindLabel(s);
    if f.Some? && f.value.start == 0 {
      assert LabelAt(s, 0, |f.value.name|);
    }
  }
}
