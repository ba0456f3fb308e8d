/**
 The fifth stage: pseudo-instruction expansion. A line whose first word is
 a macro's name is matched against the macro's pattern; each of the macro's
 result lines is then filled in, `%N` standing for capture group N, and the
 filled lines replace the macro line, all with its source line number. The
 expanded lines are then numbered densely from 0.
 */
module Macros {
  import opened Types
  import opened JavaText
  import opened Literals

  /** How many `%` characters `s` holds. */
  function Pct(s: string): nat {
    multiset(s)['%']
  }

  /** `%` followed by a decimal digit at position `p`. */
  predicate PlaceholderAt(s: string, p: int) {
    0 <= p && p + 1 < |s| && s[p] == '%' && '0' <= s[p + 1] <= '9'
  }

  /** The first placeholder at or after `i`. */
  function PlaceholderFrom(s: string, i: nat): (r: Option<nat>)
    requires i <= |s|
    ensures r.Some? ==> i <= r.value && PlaceholderAt(s, r.value)
    ensures r.Some? ==> forall q :: i <= q < r.value ==> !PlaceholderAt(s, q)
    ensures r.None? ==> forall q :: i <= q ==> !PlaceholderAt(s, q)
    decreases |s| - i
  {
    if i + 1 >= |s| then None
    else if s[i] == '%' && '0' <= s[i + 1] <= '9' then Some(i)
    else PlaceholderFrom(s, i + 1)
  }

  /** What `[^%]*%(\d+).*` finds in `s`: the first `%` that a digit follows,
      and group 1, the whole run of digits after it. */
  function Placeholder(s: string): Option<(nat, string)> {
    match PlaceholderFrom(s, 0)
    case None => None
    case Some(p) => Some((p, s[p + 1..RunEnd(s, p + 1, Digit)]))
  }

  /** There is a match exactly when some `%` is followed by a digit; it is
      the first such `%`, and the group is a non-empty run of digits. */
  lemma PlaceholderSpec(s: string)
    ensures Placeholder(s).None? <==> forall q :: !PlaceholderAt(s, q)
    ensures Placeholder(s).Some? ==> var (p, ds) := Placeholder(s).value;
      && PlaceholderAt(s, p)
      && (forall q :: 0 <= q < p ==> !PlaceholderAt(s, q))
      && ds != [] && AllDigits(ds, 10)
  {
    match PlaceholderFrom(s, 0)
    case None =>
    case Some(p) =>
      var e := RunEnd(s, p + 1, Digit);
      RunEndSpec(s, p + 1, Digit);
      var ds := s[p + 1..e];
      assert forall k :: 0 <= k < |ds| ==> ds[k] == s[p + 1 + k] && In(s[p + 1 + k], Digit);
  }

  /** `s.replace(pat, rep)`: every occurrence of `pat`, left to right and
      not overlapping, replaced by `rep`. */
  function Replace(s: string, pat: string, rep: string): string
    requires pat != []
    decreases |s|
  {
    if |s| < |pat| then s
    else if s[..|pat|] == pat then rep + Replace(s[|pat|..], pat, rep)
    else [s[0]] + Replace(s[1..], pat, rep)
  }

  /** Replacing a pattern with one `%` by a text with none never adds a
      `%`, and removes one for every occurrence: a replacement that changes
      anything lowers the count. */
  lemma {:induction false} ReplaceLowersPct(s: string, pat: string, rep: string)
    requires pat != [] && Pct(pat) == 1 && Pct(rep) == 0
    ensures Pct(Replace(s, pat, rep)) <= Pct(s)
    ensures Replace(s, pat, rep) != s ==> Pct(Replace(s, pat, rep)) < Pct(s)
    decreases |s|
  {
    if |s| >= |pat| {
      if s[..|pat|] == pat {
        var rest := s[|pat|..];
        ReplaceLowersPct(rest, pat, rep);
        assert s == pat + rest;
      } else {
        ReplaceLowersPct(s[1..], pat, rep);
        assert s == [s[0]] + s[1..];
      }
    }
  }

  /** One round of the loop that fills in a result line. */
  datatype Round = NoPlaceholder | Raises(cause: Exception) | Replaced(next: string)

  /** One round: find the first placeholder, read its number `n`, and
      replace every `%n` with capture `n`. A number too large for an `int`
      and a capture index out of range raise. */
  function FillRound(temp: string, subs: seq<string>): Round {
    match Placeholder(temp)
    case None => NoPlaceholder
    case Some((_, ds)) =>
      match ParseInt(ds)
      case None => Raises(NumberFormat)
      case Some(n) =>
        if n < 1 || n > |subs| then Raises(IndexOutOfBounds)
        else Replaced(Replace(temp, "%" + ShowInt(n), subs[n - 1]))
  }

  /** How a result line's filling ends: with the text, with an uncaught
      exception, by repeating itself forever, or past the round budget. */
  datatype Fill = Filled(text: string) | Failed(cause: Exception) | Loops | OutOfSteps

  /** The shape of the `while` loop: apply `round` until it finds nothing
      to fill or raises, for at most `steps` rounds. A round that changes
      nothing leaves the loop in the same state, so it never ends. */
  function Iterate(round: string -> Round, temp: string, steps: nat): Fill
    decreases steps
  {
    match round(temp)
    case NoPlaceholder => Filled(temp)
    case Raises(c) => Failed(c)
    case Replaced(next) =>
      if steps == 0 then OutOfSteps
      else if next == temp then Loops
      else Iterate(round, next, steps - 1)
  }

  /** The `while` loop that fills in one result line from the captures
      `subs`, for at most `steps` rounds. */
  function Substitute(temp: string, subs: seq<string>, steps: nat): Fill {
    Iterate(t => FillRound(t, subs), temp, steps)
  }

  /** A round measure: every replacing round starts from a line with a `%`
      and, when it changes the line, leaves fewer of them. */
  ghost predicate LowersPct(round: string -> Round) {
    forall t :: round(t).Replaced? ==> Pct(t) >= 1 && (round(t).next != t ==> Pct(round(t).next) < Pct(t))
  }

  /** Under a round that lowers the `%` count, a budget of as many rounds as
      the line has `%` characters is never exhausted. */
  lemma {:induction false} IterateEnds(round: string -> Round, temp: string, steps: nat)
    requires LowersPct(round)
    requires steps >= Pct(temp)
    ensures !Iterate(round, temp, steps).OutOfSteps?
    decreases steps
  {
    match round(temp)
    case NoPlaceholder =>
    case Raises(_) =>
    case Replaced(next) =>
      if next != temp {
        IterateEnds(round, next, steps - 1);
      }
  }

  /** The loop ends with `Filled` only at a line the round has nothing to
      fill in. */
  lemma {:induction false} IterateFilled(round: string -> Round, temp: string, steps: nat)
    requires Iterate(round, temp, steps).Filled?
    ensures round(Iterate(round, temp, steps).text).NoPlaceholder?
    decreases steps
  {
    match round(temp)
    case NoPlaceholder =>
    case Raises(_) =>
    case Replaced(next) =>
      if steps > 0 && next != temp {
        IterateFilled(round, next, steps - 1);
      }
  }

  /** Under a round that lowers the `%` count, started in a set of lines
      `inv` that no round raises on, that every replacing round changes and
      keeps, and whose only line without anything to fill is `final`, the
      loop ends with `final`. */
  lemma {:induction false} IterateToFinal(round: string -> Round, inv: string -> bool, final: string, temp: string, steps: nat)
    requires LowersPct(round)
    requires forall u :: inv(u) ==> !round(u).Raises?
    requires forall u :: inv(u) && round(u).NoPlaceholder? ==> u == final
    requires forall u :: inv(u) && round(u).Replaced? ==> round(u).next != u && inv(round(u).next)
    requires inv(temp) && steps >= Pct(temp)
    ensures Iterate(round, temp, steps) == Filled(final)
    decreases steps
  {
    if round(temp).Replaced? {
      IterateToFinal(round, inv, final, round(temp).next, steps - 1);
    }
  }

  lemma {:induction false} PctBound(s: string)
    ensures Pct(s) <= |s|
  {
    if s != [] {
      PctBound(s[1..]);
      assert s == [s[0]] + s[1..];
    }
  }

  lemma ShowNatHasNoPct(n: nat)
    ensures Pct("%" + ShowInt(n)) == 1
  {
    var d := ShowNat(n);
    assert forall k :: 0 <= k < |d| ==> d[k] != '%' by {
      forall k | 0 <= k < |d|
        ensures d[k] != '%'
      {
        assert DigitValue(d[k], 10).Some?;
      }
    }
    assert '%' !in multiset(d);
  }

  /** With `%`-free captures, a round that replaces something lowers the
      number of `%` characters, of which there was at least one. */
  lemma RoundLowersPct(temp: string, subs: seq<string>)
    requires forall i :: 0 <= i < |subs| ==> Pct(subs[i]) == 0
    requires FillRound(temp, subs).Replaced?
    ensures Pct(temp) >= 1
    ensures FillRound(temp, subs).next != temp ==> Pct(FillRound(temp, subs).next) < Pct(temp)
  {
    PlaceholderSpec(temp);
    var (p, ds) := Placeholder(temp).value;
    assert temp[p] in multiset(temp);
    var n := ParseInt(ds).value;
    ShowNatHasNoPct(n);
    ReplaceLowersPct(temp, "%" + ShowInt(n), subs[n - 1]);
  }

  /** When no capture holds a `%`, every round removes a `%`, so a budget
      of as many rounds as the line has `%` characters is never
      exhausted. */
  lemma EnoughSteps(temp: string, subs: seq<string>, steps: nat)
    requires forall i :: 0 <= i < |subs| ==> Pct(subs[i]) == 0
    requires steps >= Pct(temp)
    ensures !Substitute(temp, subs, steps).OutOfSteps?
  {
    var round := t => FillRound(t, subs);
    forall t | round(t).Replaced?
      ensures Pct(t) >= 1 && (round(t).next != t ==> Pct(round(t).next) < Pct(t))
    {
      RoundLowersPct(t, subs);
    }
    IterateEnds(round, temp, steps);
  }

  /** A filled line has no placeholder left. */
  lemma FilledIsFinal(temp: string, subs: seq<string>, steps: nat)
    requires Substitute(temp, subs, steps).Filled?
    ensures Placeholder(Substitute(temp, subs, steps).text).None?
  {
    IterateFilled(t => FillRound(t, subs), temp, steps);
  }

  /** A result line without placeholders is emitted as it is. */
  lemma PlainResult(temp: string, subs: seq<string>, steps: nat)
    requires forall q :: !PlaceholderAt(temp, q)
    ensures Substitute(temp, subs, steps) == Filled(temp)
  {
    PlaceholderSpec(temp);
  }

  /** `%0` reads capture index -1. */
  lemma ZeroPlaceholder(subs: seq<string>)
    ensures FillRound("%0", subs) == Raises(IndexOutOfBounds)
  {
    var t := "%0";
    assert PlaceholderFrom(t, 0) == Some(0);
    assert RunEnd(t, 1, Digit) == 2 by {
      RunEndAt(t, 1, 2, Digit);
    }
    assert t[1..2] == "0";
    assert Value("0", 10) == 0;
  }

  /** `%01` is number 1, but `%1` does not occur in it, so the round
      changes nothing and the loop never ends. */
  lemma LeadingZeroPlaceholder(subs: seq<string>, steps: nat)
    requires subs != [] && steps > 0
    ensures Substitute("%01", subs, steps) == Loops
  {
    Round01(subs);
  }

  lemma Round01(subs: seq<string>)
    requires subs != []
    ensures FillRound("%01", subs) == Replaced("%01")
  {
    PlaceholderOf01();
    ParseLeadingZero();
    assert "%" + ShowInt(1) == "%1";
    ReplaceAbsent(subs[0]);
  }

  lemma ParseLeadingZero()
    ensures ParseInt("01") == Some(1)
  {
    assert Value("01", 10) == 1 by {
      assert "01"[..1] == "0";
    }
  }

  lemma ReplaceAbsent(rep: string)
    ensures Replace("%01", "%1", rep) == "%01"
  {
    var t := "%01";
    assert t[..2] != "%1" && t[1..][..2] != "%1";
    assert Replace(t[2..], "%1", rep) == t[2..];
    assert [t[0]] + ([t[1..][0]] + t[2..]) == t;
  }

  lemma PlaceholderOf01()
    ensures Placeholder("%01") == Some((0, "01"))
  {
    var t := "%01";
    assert PlaceholderFrom(t, 0) == Some(0);
    assert RunEnd(t, 1, Digit) == 3 by {
      RunEndAt(t, 1, 3, Digit);
    }
    assert t[1..3] == "01";
  }

  /** `replace` is textual: filling in `%1` also rewrites the first two
      characters of `%10`, so group 10 is never used there. */
  lemma PrefixCollision(subs: seq<string>, steps: nat)
    requires subs != [] && subs[0] == "a" && steps > 0
    ensures Substitute("%1 %10", subs, steps) == Filled("a a0")
  {
    CollisionRound(subs);
    assert "a a0" != "%1 %10";
    NoPlaceholderLeft();
    assert Substitute("%1 %10", subs, steps) == Substitute("a a0", subs, steps - 1);
  }

  lemma CollisionRound(subs: seq<string>)
    requires subs != [] && subs[0] == "a"
    ensures FillRound("%1 %10", subs) == Replaced("a a0")
  {
    PlaceholderOfCollision();
    assert ParseInt("1") == Some(1);
    assert ShowInt(1) == "1";
    ReplaceCollision();
  }

  lemma PlaceholderOfCollision()
    ensures Placeholder("%1 %10") == Some((0, "1"))
  {
    var t := "%1 %10";
    assert PlaceholderFrom(t, 0) == Some(0);
    assert RunEnd(t, 1, Digit) == 2 by {
      RunEndAt(t, 1, 2, Digit);
    }
    assert t[1..2] == "1";
  }

  lemma ReplaceCollision()
    ensures Replace("%1 %10", "%1", "a") == "a a0"
  {
    var t := "%1 %10";
    assert t[..2] == "%1" && t[2..] == " %10";
    var u := " %10";
    assert u[..2] != "%1" && u[1..] == "%10";
    var v := "%10";
    assert v[..2] == "%1" && v[2..] == "0";
    assert Replace("0", "%1", "a") == "0";
  }

  lemma NoPlaceholderLeft()
    ensures Placeholder("a a0") == None
  {
    var t := "a a0";
    assert forall q :: 0 <= q < |t| ==> t[q] != '%';
  }

  /** A placeholder directly followed by `%` can fuse with the next one once
      it is filled: `%2%1%2` with captures `a`, `5` becomes `5%15`, and the
      second round asks for capture 15. */
  lemma PctAfterPlaceholder(subs: seq<string>, steps: nat)
    requires subs == ["a", "5"] && steps > 0
    ensures Substitute("%2%1%2", subs, steps) == Failed(IndexOutOfBounds)
  {
    FusingRound(subs);
    assert "5%15" != "%2%1%2";
    FusedRound(subs);
    assert Substitute("%2%1%2", subs, steps) == Substitute("5%15", subs, steps - 1);
  }

  lemma FusingRound(subs: seq<string>)
    requires subs == ["a", "5"]
    ensures FillRound("%2%1%2", subs) == Replaced("5%15")
  {
    var t := "%2%1%2";
    assert PlaceholderFrom(t, 0) == Some(0);
    assert RunEnd(t, 1, Digit) == 2 by {
      RunEndAt(t, 1, 2, Digit);
    }
    assert t[1..2] == "2";
    assert ParseInt("2") == Some(2);
    assert ShowInt(2) == "2";
    assert t[..2] == "%2" && t[2..] == "%1%2";
    var u := "%1%2";
    assert u[..2] != "%2" && u[1..] == "1%2";
    var v := "1%2";
    assert v[..2] != "%2" && v[1..] == "%2";
    var w := "%2";
    assert w[..2] == "%2" && w[2..] == [];
  }

  lemma FusedRound(subs: seq<string>)
    requires subs == ["a", "5"]
    ensures FillRound("5%15", subs) == Raises(IndexOutOfBounds)
  {
    var t := "5%15";
    assert PlaceholderFrom(t, 1) == Some(1);
    assert RunEnd(t, 2, Digit) == 4 by {
      RunEndAt(t, 2, 4, Digit);
    }
    assert t[2..4] == "15";
    assert Value("15", 10) == 15 by {
      assert "15"[..1] == "1";
    }
  }

  /** One result line filled in by the loop, with a budget of as many
      rounds as the line has characters. */
  function FillLine(temp: string, subs: seq<string>): Fill {
    Substitute(temp, subs, |temp|)
  }

  /** When no capture holds a `%`, the budget of one round per character is
      never exhausted: a line has no more `%` characters than characters. */
  lemma RoundBudgetSuffices(temp: string, subs: seq<string>)
    requires forall i :: 0 <= i < |subs| ==> Pct(subs[i]) == 0
    ensures !FillLine(temp, subs).OutOfSteps?
  {
    PctBound(temp);
    EnoughSteps(temp, subs, |temp|);
  }

  /** Every result line of a macro filled in, in order; the first that
      fails aborts the run with the macro line's number. The filling
      succeeds exactly when every line's loop ends with a text; otherwise
      the first line whose loop does not decides the abort: its exception,
      or a non-terminating expansion. */
  function FillAll(results: seq<string>, subs: seq<string>, line: int): (r: Result<seq<string>>)
    ensures r.Ok? <==> forall i :: 0 <= i < |results| ==> FillLine(results[i], subs).Filled?
    ensures r.Ok? ==> |r.value| == |results|
    ensures r.Ok? ==> forall i :: 0 <= i < |results| ==> FillLine(results[i], subs) == Filled(r.value[i])
    ensures r.Crash? ==> exists i :: (
      && 0 <= i < |results| && !FillLine(results[i], subs).Filled?
      && (forall j :: 0 <= j < i ==> FillLine(results[j], subs).Filled?)
      && r.abort == (if FillLine(results[i], subs).Failed? then Uncaught(line, FillLine(results[i], subs).cause) else Diverges(line)))
    decreases |results|
  {
    if results == [] then Ok([])
    else
      var t := match FillLine(results[0], subs)
        case Filled(s) => Ok(s)
        case Failed(c) => Crash(Uncaught(line, c))
        case _ => Crash(Diverges(line));
      var first :- t;
      var rest :- FillAll(results[1..], subs, line);
      assert forall i :: 1 <= i < |results| ==> results[i] == results[1..][i - 1];
      Ok([first] + rest)
  }

  /** With `%`-free captures, a macro's filling never aborts for lack of
      rounds: when it aborts as non-terminating, some line's loop really
      does repeat itself forever. */
  lemma FillAllInBudget(results: seq<string>, subs: seq<string>, line: int)
    requires forall i :: 0 <= i < |subs| ==> Pct(subs[i]) == 0
    ensures forall i :: 0 <= i < |results| ==> !FillLine(results[i], subs).OutOfSteps?
    ensures FillAll(results, subs, line) == Crash(Diverges(line)) ==>
      exists i :: 0 <= i < |results| && FillLine(results[i], subs) == Loops
  {
    forall i | 0 <= i < |results|
      ensures !FillLine(results[i], subs).OutOfSteps?
    {
      RoundBudgetSuffices(results[i], subs);
    }
  }

  /** The lines a text line expands to, and the errors it records. A line
      whose first word is no macro stays as it is. For a macro, the pattern
      is tried on the text after the name: no match records an error and
      emits nothing; a match emits one line per result line. */
  function ExpandLine(l: Line, macros: map<string, MacroGrammar>, m: Matcher): (r: Result<(seq<Line>, seq<Diagnostic>)>)
  {
    var arr := Split(l.text);
    if arr == [] then Crash(Uncaught(l.line, IndexOutOfBounds))
    else
      var name := arr[0];
      if name !in macros then Ok(([l], []))
      else
        SplitShape(l.text);
        var g := macros[name];
        match m(g.regex, l.text[|name|..])
        case None => Ok(([], [Diagnostic(l.line, ExpansionFailed)]))
        case Some(subs) =>
          var texts :- FillAll(g.results, subs, l.line);
          Ok((seq(|texts|, i requires 0 <= i < |texts| => Line(l.line, texts[i], 0)), []))
  }

  /** The lines `f` makes of each of `lines`, in order, with the errors
      collected; the first crash ends the run. */
  function ConcatEach(f: Line -> Result<(seq<Line>, seq<Diagnostic>)>, lines: seq<Line>): Result<(seq<Line>, seq<Diagnostic>)>
    decreases |lines|
  {
    if lines == [] then Ok(([], []))
    else
      var (here, errs) :- f(lines[0]);
      var (rest, errs2) :- ConcatEach(f, lines[1..]);
      Ok((here + rest, errs + errs2))
  }

  /** Every text line expanded, in order, with the errors collected. */
  function ExpandAll(lines: seq<Line>, macros: map<string, MacroGrammar>, m: Matcher): Result<(seq<Line>, seq<Diagnostic>)> {
    ConcatEach(l => ExpandLine(l, macros, m), lines)
  }

  /** Gives every line its position as the instruction index. */
  function Number(lines: seq<Line>): (r: seq<Line>)
    ensures |r| == |lines|
    ensures forall i :: 0 <= i < |r| ==> r[i].instructionLine == i
    ensures forall i :: 0 <= i < |r| ==> r[i].line == lines[i].line && r[i].text == lines[i].text
  {
    seq(|lines|, i requires 0 <= i < |lines| => lines[i].(instructionLine := i))
  }

  /** What expanding one line does: a non-macro line passes unchanged; a
      macro line whose pattern fails yields nothing and one error; a macro
      line whose pattern matches yields one line per result line, each with
      the macro line's number and no placeholder left. */
  lemma ExpandLineSpec(l: Line, macros: map<string, MacroGrammar>, m: Matcher)
    requires ExpandLine(l, macros, m).Ok?
    ensures var (out, errs) := ExpandLine(l, macros, m).value;
      var name := Split(l.text)[0];
      && (name !in macros ==> out == [l] && errs == [])
      && (name in macros ==>
        && (forall i :: 0 <= i < |out| ==> out[i].line == l.line && Placeholder(out[i].text).None?)
        && (m(macros[name].regex, l.text[|name|..]).None? <==> errs == [Diagnostic(l.line, ExpansionFailed)])
        && (m(macros[name].regex, l.text[|name|..]).None? ==> out == [])
        && (m(macros[name].regex, l.text[|name|..]).Some? ==>
          var texts := FillAll(macros[name].results, m(macros[name].regex, l.text[|name|..]).value, l.line);
          && texts.Ok? && |out| == |macros[name].results| && errs == []
          && forall i :: 0 <= i < |out| ==> out[i].text == texts.value[i] && out[i].instructionLine == 0))
  {
    SplitShape(l.text);
    var name := Split(l.text)[0];
    if name in macros {
      var subs := m(macros[name].regex, l.text[|name|..]);
      if subs.Some? {
        var results := macros[name].results;
        var texts := FillAll(results, subs.value, l.line).value;
        forall i | 0 <= i < |texts|
          ensures Placeholder(texts[i]).None?
        {
          FilledIsFinal(results[i], subs.value, |results[i]|);
        }
      }
    }
  }

  /** Every line a text line expands to carries that line's number. */
  lemma ExpandLineLines(l: Line, macros: map<string, MacroGrammar>, m: Matcher)
    requires ExpandLine(l, macros, m).Ok?
    ensures var out := ExpandLine(l, macros, m).value.0;
      forall k :: 0 <= k < |out| ==> out[k].line == l.line
  {
  }

  /** `f` keeps line numbers: every line it makes of `l` carries `l`'s
      number. */
  ghost predicate KeepsLine(f: Line -> Result<(seq<Line>, seq<Diagnostic>)>) {
    forall l :: f(l).Ok? ==> forall k :: 0 <= k < |f(l).value.0| ==> f(l).value.0[k].line == l.line
  }

  /** Under a line-keeping `f`, each line made carries the number of one of
      the input lines. */
  lemma {:induction false} ConcatEachFrom(f: Line -> Result<(seq<Line>, seq<Diagnostic>)>, lines: seq<Line>)
    requires KeepsLine(f)
    requires ConcatEach(f, lines).Ok?
    ensures var out := ConcatEach(f, lines).value.0;
      forall k :: 0 <= k < |out| ==> exists i :: 0 <= i < |lines| && out[k].line == lines[i].line
    decreases |lines|
  {
    if lines != [] {
      var rest := lines[1..];
      ConcatEachFrom(f, rest);
      var here := f(lines[0]).value.0;
      var later := ConcatEach(f, rest).value.0;
      var out := here + later;
      assert out == ConcatEach(f, lines).value.0;
      forall k | 0 <= k < |out|
        ensures exists i :: 0 <= i < |lines| && out[k].line == lines[i].line
      {
        if k < |here| {
          assert out[k].line == lines[0].line;
        } else {
          assert out[k] == later[k - |here|];
          var i :| 0 <= i < |rest| && later[k - |here|].line == rest[i].line;
          assert rest[i] == lines[i + 1];
        }
      }
    }
  }

  /** Under a line-keeping `f`, lines in non-decreasing line number order
      give lines in non-decreasing line number order. */
  lemma {:induction false} ConcatEachSorted(f: Line -> Result<(seq<Line>, seq<Diagnostic>)>, lines: seq<Line>)
    requires KeepsLine(f)
    requires ConcatEach(f, lines).Ok?
    requires Sorted(lines)
    ensures Sorted(ConcatEach(f, lines).value.0)
    decreases |lines|
  {
    if lines != [] {
      var rest := lines[1..];
      assert Sorted(rest);
      ConcatEachSorted(f, rest);
      ConcatEachFrom(f, rest);
      var here := f(lines[0]).value.0;
      var later := ConcatEach(f, rest).value.0;
      var out := here + later;
      assert out == ConcatEach(f, lines).value.0;
      forall k | |here| <= k < |out|
        ensures lines[0].line <= out[k].line
      {
        assert out[k] == later[k - |here|];
        var i :| 0 <= i < |rest| && later[k - |here|].line == rest[i].line;
        assert rest[i] == lines[i + 1];
      }
      forall a, b | 0 <= a < b < |out|
        ensures out[a].line <= out[b].line
      {
        if b < |here| {
          assert out[a].line == lines[0].line && out[b].line == lines[0].line;
        } else if a >= |here| {
          assert out[a] == later[a - |here|] && out[b] == later[b - |here|];
        }
      }
    }
  }

  /** The output around line `k`: what the lines before it make, then what
      `k` makes, then what the lines after it make. */
  lemma {:induction false} ConcatEachSplit(f: Line -> Result<(seq<Line>, seq<Diagnostic>)>, lines: seq<Line>, k: nat)
    requires ConcatEach(f, lines).Ok? && k < |lines|
    ensures f(lines[k]).Ok? && ConcatEach(f, lines[..k]).Ok? && ConcatEach(f, lines[k + 1..]).Ok?
    ensures ConcatEach(f, lines).value.0 ==
      ConcatEach(f, lines[..k]).value.0 + f(lines[k]).value.0 + ConcatEach(f, lines[k + 1..]).value.0
    decreases k
  {
    if k == 0 {
      assert lines[..0] == [];
    } else {
      var rest := lines[1..];
      ConcatEachSplit(f, rest, k - 1);
      assert rest[k - 1] == lines[k] && rest[k..] == lines[k + 1..];
      var pre := lines[..k];
      assert pre[0] == lines[0] && pre[1..] == rest[..k - 1];
    }
  }

  /** `all` holds `out` at position `p`, every line of `out` comes from
      source line `n`, and every line before `p` from an earlier one. */
  predicate BlockFrom(all: seq<Line>, p: nat, out: seq<Line>, n: int) {
    && p + |out| <= |all|
    && (forall q :: 0 <= q < |out| ==> all[p + q] == out[q] && out[q].line == n)
    && (forall q :: 0 <= q < p ==> all[q].line < n)
  }

  /** Under a line-keeping `f`, on strictly increasing lines, what line `k`
      makes follows what the lines before it make, which all come from
      earlier source lines. */
  lemma ConcatEachAt(f: Line -> Result<(seq<Line>, seq<Diagnostic>)>, lines: seq<Line>, k: nat)
    requires KeepsLine(f) && Increasing(lines)
    requires ConcatEach(f, lines).Ok? && k < |lines|
    ensures f(lines[k]).Ok? && ConcatEach(f, lines[..k]).Ok?
    ensures BlockFrom(ConcatEach(f, lines).value.0, |ConcatEach(f, lines[..k]).value.0|, f(lines[k]).value.0, lines[k].line)
  {
    ConcatEachSplit(f, lines, k);
    ConcatEachFrom(f, lines[..k]);
    var pre := ConcatEach(f, lines[..k]).value.0;
    var all := ConcatEach(f, lines).value.0;
    forall q | 0 <= q < |pre|
      ensures all[q].line < lines[k].line
    {
      assert all[q] == pre[q];
      var j :| 0 <= j < k && pre[q].line == lines[..k][j].line;
    }
  }

  /** Expansion keeps the source order and the line numbers: each expanded
      line carries the number of one of the input lines, and from lines in
      non-decreasing line number order come lines in non-decreasing line
      number order. */
  lemma ExpandAllOrder(lines: seq<Line>, macros: map<string, MacroGrammar>, m: Matcher)
    requires ExpandAll(lines, macros, m).Ok?
    ensures var out := ExpandAll(lines, macros, m).value.0;
      forall k :: 0 <= k < |out| ==> exists i :: 0 <= i < |lines| && out[k].line == lines[i].line
    ensures Sorted(lines) ==> Sorted(ExpandAll(lines, macros, m).value.0)
  {
    var f := l => ExpandLine(l, macros, m);
    forall l | f(l).Ok?
      ensures forall k :: 0 <= k < |f(l).value.0| ==> f(l).value.0[k].line == l.line
    {
      ExpandLineLines(l, macros, m);
    }
    ConcatEachFrom(f, lines);
    if Sorted(lines) {
      ConcatEachSorted(f, lines);
    }
  }
}
