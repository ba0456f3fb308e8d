/**
 What filling in a macro's result line means: one left-to-right pass that
 replaces each placeholder `%N` by capture N. The code gets there by a
 different road, repeating "find the first placeholder, replace every
 occurrence of its text" until none is left. The two agree on every result
 line whose placeholders are written plainly: every `%` starts one, numbers
 have no leading zero and name a capture, no placeholder is followed
 directly by another `%`, and no placeholder's digits begin another's. The
 captures must hold no `%`.
 */
module Substitution {
  import opened Types
  import opened JavaText
  import opened Literals
  import opened Macros

  /** The end of the first piece of `t`: a whole placeholder `%digits`, or
      one character. */
  function PieceEnd(t: string): (e: nat)
    requires t != []
    ensures 1 <= e <= |t|
    ensures PlaceholderAt(t, 0) ==> e >= 2
  {
    if PlaceholderAt(t, 0) then RunEnd(t, 1, Digit) else 1
  }

  /** The digits of the placeholder `t` opens with. */
  function Digits(t: string): string
    requires PlaceholderAt(t, 0)
  {
    t[1..PieceEnd(t)]
  }

  /** `t` opens with a placeholder whose number is in `fill` and names a
      capture. */
  predicate Fills(t: string, subs: seq<string>, fill: set<int>) {
    && PlaceholderAt(t, 0)
    && var n := ParseInt(Digits(t));
    n.Some? && n.value in fill && 1 <= n.value <= |subs|
  }

  /** What the first piece of `t` becomes: its capture when it is a
      placeholder to fill in, otherwise itself. */
  function Piece(t: string, subs: seq<string>, fill: set<int>): string
    requires t != []
  {
    if Fills(t, subs, fill) then subs[ParseInt(Digits(t)).value - 1] else t[..PieceEnd(t)]
  }

  /** One left-to-right pass over `t` that replaces each placeholder whose
      number is in `fill` by its capture and keeps everything else. */
  function FillIn(t: string, subs: seq<string>, fill: set<int>): string
    decreases |t|
  {
    if t == [] then [] else Piece(t, subs, fill) + FillIn(t[PieceEnd(t)..], subs, fill)
  }

  /** The capture numbers 1 to `count`. */
  function Captures(count: nat): (r: set<int>)
    ensures forall n :: n in r <==> 1 <= n <= count
  {
    if count == 0 then {} else Captures(count - 1) + {count}
  }

  /** Every placeholder `%N` of `t` replaced by capture N, in one pass. */
  function SubstOnce(t: string, subs: seq<string>): string {
    FillIn(t, subs, Captures(|subs|))
  }

  /** The digit strings of the placeholders of `t`. */
  function Runs(t: string): set<string>
    decreases |t|
  {
    if t == [] then {}
    else (if PlaceholderAt(t, 0) then {Digits(t)} else {}) + Runs(t[PieceEnd(t)..])
  }

  /** No string of `runs` is a proper prefix of another. */
  predicate NoPrefix(runs: set<string>) {
    forall a, b :: a in runs && b in runs && a <= b ==> a == b
  }

  /** Every `%` of `t` opens a placeholder whose digits have no leading
      zero and name one of `count` captures, and the character after the
      digits is not `%`. */
  predicate Template(t: string, count: nat)
    decreases |t|
  {
    t != [] ==>
      var e := PieceEnd(t);
      && (t[0] == '%' ==>
        && PlaceholderAt(t, 0) && t[1] != '0'
        && ParseInt(t[1..e]).Some? && 1 <= ParseInt(t[1..e]).value <= count
        && (e < |t| ==> t[e] != '%'))
      && Template(t[e..], count)
  }

  /** A result line the loop fills in as `SubstOnce` does. */
  predicate PlainTemplate(t: string, count: nat) {
    Template(t, count) && NoPrefix(Runs(t))
  }

  /** No capture holds a `%`. */
  predicate PlainCaptures(subs: seq<string>) {
    forall i :: 0 <= i < |subs| ==> Pct(subs[i]) == 0
  }

  /** The digits of the first placeholder of `t` not filled in by `fill`. */
  function FirstOpen(t: string, subs: seq<string>, fill: set<int>): Option<string>
    decreases |t|
  {
    if t == [] then None
    else if PlaceholderAt(t, 0) && !Fills(t, subs, fill) then Some(Digits(t))
    else FirstOpen(t[PieceEnd(t)..], subs, fill)
  }

  lemma NoPctChar(s: string)
    requires Pct(s) == 0
    ensures forall k :: 0 <= k < |s| ==> s[k] != '%'
  {
    forall k | 0 <= k < |s|
      ensures s[k] != '%'
    {
      assert s[k] in multiset(s);
    }
  }

  lemma DecimalDigits(s: string)
    requires AllDigits(s, 10)
    ensures forall k :: 0 <= k < |s| ==> In(s[k], Digit)
  {
    forall k | 0 <= k < |s|
      ensures In(s[k], Digit)
    {
      assert DigitValue(s[k], 10).Some?;
    }
  }

  lemma {:induction false} ValuePositive(s: string)
    requires s != [] && AllDigits(s, 10) && s[0] != '0'
    ensures Value(s, 10) >= 1
    decreases |s|
  {
    if |s| > 1 {
      ValuePositive(s[..|s| - 1]);
    }
  }

  /** Digits without a leading zero are the decimal text of their value. */
  lemma {:induction false} ShowNatOfValue(s: string)
    requires s != [] && AllDigits(s, 10) && s[0] != '0'
    ensures ShowNat(Value(s, 10)) == s
    decreases |s|
  {
    var init := s[..|s| - 1];
    var d := DigitValue(s[|s| - 1], 10).value;
    if |s| == 1 {
      assert Value(s, 10) == d;
    } else {
      ShowNatOfValue(init);
      ValuePositive(init);
      var n := Value(s, 10);
      assert n == Value(init, 10) * 10 + d;
      assert n / 10 == Value(init, 10) && n % 10 == d;
      assert s == init + [s[|s| - 1]];
    }
  }

  /** The shape of a placeholder piece of a template. */
  lemma PieceShape(t: string, count: nat)
    requires t != [] && Template(t, count) && t[0] == '%'
    ensures PlaceholderAt(t, 0)
    ensures var e := PieceEnd(t); var ds := Digits(t);
      && ds != [] && (forall k :: 0 <= k < |ds| ==> In(ds[k], Digit))
      && t[..e] == "%" + ds
      && (e < |t| ==> !In(t[e], Digit) && t[e] != '%')
      && ParseInt(ds).Some? && 1 <= ParseInt(ds).value <= count
      && ShowInt(ParseInt(ds).value) == ds
  {
    var e := PieceEnd(t);
    var ds := Digits(t);
    RunEndSpec(t, 1, Digit);
    assert forall k :: 0 <= k < |ds| ==> ds[k] == t[1 + k];
    assert AllDigits(ds, 10) by {
      forall k | 0 <= k < |ds|
        ensures DigitValue(ds[k], 10).Some?
      {
        assert In(t[1 + k], Digit);
      }
    }
    ShowNatOfValue(ds);
    assert t[..e] == [t[0]] + ds;
  }

  /** Text without `%` in front leaves the first placeholder where it was,
      shifted by its length. */
  lemma PlaceholderShift(a: string, x: string)
    requires forall k :: 0 <= k < |a| ==> a[k] != '%'
    ensures Placeholder(a + x).None? <==> Placeholder(x).None?
    ensures Placeholder(x).Some? ==> Placeholder(a + x).value.1 == Placeholder(x).value.1
  {
    var s := a + x;
    assert forall q :: 0 <= q < |a| ==> !PlaceholderAt(s, q);
    assert forall q :: |a| <= q ==> (PlaceholderAt(s, q) <==> PlaceholderAt(x, q - |a|));
    match PlaceholderFrom(x, 0)
    case None =>
    case Some(p) =>
      assert PlaceholderAt(s, |a| + p);
      assert PlaceholderFrom(s, 0) == Some(|a| + p);
      RunEndShift(a, x, p + 1, Digit);
      SliceAfter(a, x, p + 1, RunEnd(x, p + 1, Digit));
  }

  /** An unfilled placeholder followed by no digit is the first
      placeholder, with its own digits. */
  lemma PlaceholderAtFront(ds: string, x: string)
    requires ds != [] && forall k :: 0 <= k < |ds| ==> In(ds[k], Digit)
    requires x == [] || !In(x[0], Digit)
    ensures Placeholder("%" + ds + x) == Some((0, ds))
  {
    var s := "%" + ds + x;
    assert PlaceholderAt(s, 0);
    assert PlaceholderFrom(s, 0) == Some(0);
    assert forall k :: 1 <= k < 1 + |ds| ==> s[k] == ds[k - 1];
    RunEndAt(s, 1, 1 + |ds|, Digit);
    assert s[1..1 + |ds|] == ds;
  }

  /** A piece that does not start with `%` is copied as it is. */
  lemma FillInHead(t: string, subs: seq<string>, fill: set<int>)
    requires t != [] && t[0] != '%'
    ensures FillIn(t, subs, fill) == [t[0]] + FillIn(t[1..], subs, fill)
  {
    assert t[..1] == [t[0]];
  }

  /** `replace` passes over text without `%`. */
  lemma {:induction false} ReplaceSkip(a: string, x: string, pat: string, rep: string)
    requires pat != [] && pat[0] == '%'
    requires forall k :: 0 <= k < |a| ==> a[k] != '%'
    ensures Replace(a + x, pat, rep) == a + Replace(x, pat, rep)
    decreases |a|
  {
    if a != [] {
      var s := a + x;
      ReplaceSkip(a[1..], x, pat, rep);
      assert s[1..] == a[1..] + x && s[0] == a[0];
      if |s| >= |pat| {
        assert s[..|pat|][0] != pat[0];
        assert Replace(s, pat, rep) == [a[0]] + Replace(s[1..], pat, rep);
        assert [a[0]] + (a[1..] + Replace(x, pat, rep)) == a + Replace(x, pat, rep);
      } else {
        assert Replace(x, pat, rep) == x;
      }
    } else {
      assert a + x == x;
    }
  }

  /** `replace` of `%ds` rewrites an occurrence at the front. */
  lemma ReplaceSame(ds: string, x: string, rep: string)
    ensures Replace("%" + ds + x, "%" + ds, rep) == rep + Replace(x, "%" + ds, rep)
  {
    var s := "%" + ds + x;
    assert s[..|"%" + ds|] == "%" + ds && s[|"%" + ds|..] == x;
  }

  /** `replace` of `%ds` passes over a different placeholder `%dm` that
      `ds` does not extend, when no digit follows it. */
  lemma ReplaceOther(dm: string, x: string, ds: string, rep: string)
    requires dm != [] && forall k :: 0 <= k < |dm| ==> In(dm[k], Digit)
    requires ds != [] && forall k :: 0 <= k < |ds| ==> In(ds[k], Digit)
    requires !(ds <= dm)
    requires x == [] || !In(x[0], Digit)
    ensures Replace("%" + dm + x, "%" + ds, rep) == "%" + dm + Replace(x, "%" + ds, rep)
  {
    var pat := "%" + ds;
    var s := "%" + dm + x;
    if |s| < |pat| {
      assert |x| < |pat|;
    } else {
      NotAtFront(dm, x, ds);
      assert s[0] == '%' && s[1..] == dm + x;
      assert Replace(s, pat, rep) == [s[0]] + Replace(s[1..], pat, rep);
      ReplaceSkip(dm, x, pat, rep);
      assert [s[0]] + (dm + Replace(x, pat, rep)) == "%" + dm + Replace(x, pat, rep);
    }
  }

  /** `%ds` does not occur at the front of `%dm` followed by a non-digit
      when `ds` does not extend `dm`. */
  lemma NotAtFront(dm: string, x: string, ds: string)
    requires forall k :: 0 <= k < |ds| ==> In(ds[k], Digit)
    requires !(ds <= dm)
    requires x == [] || !In(x[0], Digit)
    requires |"%" + dm + x| >= |"%" + ds|
    ensures ("%" + dm + x)[..|"%" + ds|] != "%" + ds
  {
    var w := "%" + dm;
    var pat := "%" + ds;
    var s := w + x;
    if |pat| > |w| {
      assert s[..|pat|][|w|] == x[0] && pat[|w|] == ds[|dm|];
    } else {
      var k :| 0 <= k < |ds| && ds[k] != dm[k];
      assert s[..|pat|][k + 1] == dm[k] && pat[k + 1] == ds[k];
    }
  }

  /** Filling from nothing changes nothing. */
  lemma {:induction false} FillNone(t: string, subs: seq<string>)
    ensures FillIn(t, subs, {}) == t
    decreases |t|
  {
    if t != [] {
      FillNone(t[PieceEnd(t)..], subs);
      assert t == t[..PieceEnd(t)] + t[PieceEnd(t)..];
    }
  }

  /** The first unfilled placeholder of `t` names a capture outside
      `fill`, and its digits are those of one of `t`'s placeholders. */
  lemma {:induction false} FirstOpenRun(t: string, subs: seq<string>, fill: set<int>)
    requires Template(t, |subs|)
    ensures FirstOpen(t, subs, fill).Some? ==> var ds := FirstOpen(t, subs, fill).value;
      && ds in Runs(t) && ds != [] && (forall k :: 0 <= k < |ds| ==> In(ds[k], Digit))
      && ParseInt(ds).Some? && 1 <= ParseInt(ds).value <= |subs|
      && ParseInt(ds).value !in fill && ShowInt(ParseInt(ds).value) == ds
    decreases |t|
  {
    if t != [] {
      if PlaceholderAt(t, 0) && !Fills(t, subs, fill) {
        PieceShape(t, |subs|);
      } else {
        FirstOpenRun(t[PieceEnd(t)..], subs, fill);
      }
    }
  }

  /** With no placeholder left open, `fill` has done all of `SubstOnce`. */
  lemma {:induction false} ClosedIsFull(t: string, subs: seq<string>, fill: set<int>)
    requires Template(t, |subs|)
    requires FirstOpen(t, subs, fill).None?
    ensures FillIn(t, subs, fill) == SubstOnce(t, subs)
    decreases |t|
  {
    if t != [] {
      var all := Captures(|subs|);
      ClosedIsFull(t[PieceEnd(t)..], subs, fill);
      if t[0] == '%' {
        PieceShape(t, |subs|);
        assert Fills(t, subs, all);
      }
    }
  }

  /** The placeholder the code's loop finds first is the first one the
      partial pass has left open. */
  lemma {:induction false} OpenIsFirst(t: string, subs: seq<string>, fill: set<int>)
    requires Template(t, |subs|) && PlainCaptures(subs)
    ensures Placeholder(FillIn(t, subs, fill)).None? <==> FirstOpen(t, subs, fill).None?
    ensures FirstOpen(t, subs, fill).Some? ==>
      Placeholder(FillIn(t, subs, fill)).value.1 == FirstOpen(t, subs, fill).value
    decreases |t|
  {
    if t == [] {
      assert PlaceholderFrom([], 0).None?;
    } else {
      var e := PieceEnd(t);
      var rest := t[e..];
      var x := FillIn(rest, subs, fill);
      OpenIsFirst(rest, subs, fill);
      if t[0] != '%' {
        FillInHead(t, subs, fill);
        PlaceholderShift([t[0]], x);
      } else {
        PieceShape(t, |subs|);
        var n := ParseInt(Digits(t)).value;
        if Fills(t, subs, fill) {
          NoPctChar(subs[n - 1]);
          PlaceholderShift(subs[n - 1], x);
        } else {
          if rest != [] {
            FillInHead(rest, subs, fill);
          }
          PlaceholderAtFront(Digits(t), x);
        }
      }
    }
  }

  /** `replace` of `%ds` by capture `n` on one piece: a placeholder `%ds`
      becomes the capture, and anything else is passed over. */
  lemma ReplacePiece(t: string, subs: seq<string>, fill: set<int>, ds: string, n: int, x: string)
    requires t != [] && Template(t, |subs|) && PlainCaptures(subs)
    requires 1 <= n <= |subs| && ParseInt(ds) == Some(n) && ShowInt(n) == ds
    requires ds != [] && forall k :: 0 <= k < |ds| ==> In(ds[k], Digit)
    requires forall r :: r in Runs(t) && ds <= r ==> r == ds
    requires t[0] == '%' ==> x == [] || !In(x[0], Digit)
    ensures Replace(Piece(t, subs, fill) + x, "%" + ds, subs[n - 1])
      == Piece(t, subs, fill + {n}) + Replace(x, "%" + ds, subs[n - 1])
  {
    if t[0] != '%' {
      assert Piece(t, subs, fill) == [t[0]] == Piece(t, subs, fill + {n});
      ReplaceSkip([t[0]], x, "%" + ds, subs[n - 1]);
    } else {
      ReplacePlaceholder(t, subs, fill, ds, n, x);
    }
  }

  /** The digits of a leading placeholder are among the runs of `t`. */
  lemma RunsHead(t: string)
    requires t != [] && PlaceholderAt(t, 0)
    ensures Digits(t) in Runs(t)
  {
  }

  /** The piece a placeholder of a template becomes under `fill`. */
  lemma PlaceholderPiece(t: string, subs: seq<string>, fill: set<int>)
    requires t != [] && PlaceholderAt(t, 0) && t[..PieceEnd(t)] == "%" + Digits(t)
    requires ParseInt(Digits(t)).Some? && 1 <= ParseInt(Digits(t)).value <= |subs|
    ensures var m := ParseInt(Digits(t)).value;
      Piece(t, subs, fill) == if m in fill then subs[m - 1] else "%" + Digits(t)
  {
  }

  /** The placeholder case of `ReplacePiece`. */
  lemma ReplacePlaceholder(t: string, subs: seq<string>, fill: set<int>, ds: string, n: int, x: string)
    requires t != [] && t[0] == '%' && Template(t, |subs|) && PlainCaptures(subs)
    requires 1 <= n <= |subs| && ParseInt(ds) == Some(n) && ShowInt(n) == ds
    requires ds != [] && forall k :: 0 <= k < |ds| ==> In(ds[k], Digit)
    requires forall r :: r in Runs(t) && ds <= r ==> r == ds
    requires x == [] || !In(x[0], Digit)
    ensures Replace(Piece(t, subs, fill) + x, "%" + ds, subs[n - 1])
      == Piece(t, subs, fill + {n}) + Replace(x, "%" + ds, subs[n - 1])
  {
    PieceShape(t, |subs|);
    var dm := Digits(t);
    RunsHead(t);
    assert ds <= dm ==> dm == ds;
    var m := ParseInt(dm).value;
    assert dm == ds <==> m == n;
    PlaceholderPiece(t, subs, fill);
    PlaceholderPiece(t, subs, fill + {n});
    ReplaceCases(Piece(t, subs, fill), Piece(t, subs, fill + {n}), subs, fill, dm, m, ds, n, x);
  }

  /** `ReplacePlaceholder` once the pieces are known: a filled capture and
      a different placeholder are passed over, `%ds` itself is replaced. */
  lemma ReplaceCases(before: string, after: string, subs: seq<string>, fill: set<int>,
                     dm: string, m: int, ds: string, n: int, x: string)
    requires PlainCaptures(subs) && 1 <= m <= |subs| && 1 <= n <= |subs|
    requires dm != [] && forall k :: 0 <= k < |dm| ==> In(dm[k], Digit)
    requires ds != [] && forall k :: 0 <= k < |ds| ==> In(ds[k], Digit)
    requires (ds <= dm ==> dm == ds) && (dm == ds <==> m == n)
    requires before == (if m in fill then subs[m - 1] else "%" + dm)
    requires after == (if m in fill + {n} then subs[m - 1] else "%" + dm)
    requires x == [] || !In(x[0], Digit)
    ensures Replace(before + x, "%" + ds, subs[n - 1]) == after + Replace(x, "%" + ds, subs[n - 1])
  {
    if m in fill {
      NoPctChar(before);
      ReplaceSkip(before, x, "%" + ds, subs[n - 1]);
    } else if m == n {
      ReplaceSame(ds, x, subs[n - 1]);
    } else {
      ReplaceOther(dm, x, ds, subs[n - 1]);
    }
  }

  /** One round of the loop on the partial pass: replacing every `%ds` by
      capture `n` is the same as filling `n` in as well. */
  lemma {:induction false} ReplaceFill(t: string, subs: seq<string>, fill: set<int>, ds: string, n: int)
    requires Template(t, |subs|) && PlainCaptures(subs)
    requires 1 <= n <= |subs| && ParseInt(ds) == Some(n) && ShowInt(n) == ds
    requires ds != [] && forall k :: 0 <= k < |ds| ==> In(ds[k], Digit)
    requires forall r :: r in Runs(t) && ds <= r ==> r == ds
    ensures Replace(FillIn(t, subs, fill), "%" + ds, subs[n - 1]) == FillIn(t, subs, fill + {n})
    decreases |t|
  {
    if t != [] {
      var rest := t[PieceEnd(t)..];
      var x := FillIn(rest, subs, fill);
      assert Runs(rest) <= Runs(t);
      ReplaceFill(rest, subs, fill, ds, n);
      if t[0] == '%' {
        PieceShape(t, |subs|);
        if rest != [] {
          FillInHead(rest, subs, fill);
        }
      }
      ReplacePiece(t, subs, fill, ds, n, x);
    }
  }

  /** A round of the code's loop on a partial pass fills in the first open
      placeholder's number and so changes the line. */
  lemma RoundIsFill(t: string, subs: seq<string>, fill: set<int>)
    requires PlainTemplate(t, |subs|) && PlainCaptures(subs)
    requires FirstOpen(t, subs, fill).Some?
    ensures ParseInt(FirstOpen(t, subs, fill).value).Some?
    ensures var n := ParseInt(FirstOpen(t, subs, fill).value).value;
      && FillRound(FillIn(t, subs, fill), subs) == Replaced(FillIn(t, subs, fill + {n}))
      && FillIn(t, subs, fill + {n}) != FillIn(t, subs, fill)
  {
    var u := FillIn(t, subs, fill);
    var ds := FirstOpen(t, subs, fill).value;
    OpenIsFirst(t, subs, fill);
    FirstOpenRun(t, subs, fill);
    var n := ParseInt(ds).value;
    assert FillRound(u, subs) == Replaced(Replace(u, "%" + ShowInt(n), subs[n - 1]));
    ReplaceFill(t, subs, fill, ds, n);
    OpenIsFirst(t, subs, fill + {n});
    FirstOpenRun(t, subs, fill + {n});
  }

  /** A round of the code's loop on a partial pass with nothing left open
      finds nothing to fill, and the line is the one-pass substitution. */
  lemma RoundWhenClosed(t: string, subs: seq<string>, fill: set<int>)
    requires PlainTemplate(t, |subs|) && PlainCaptures(subs)
    requires FirstOpen(t, subs, fill).None?
    ensures FillRound(FillIn(t, subs, fill), subs) == NoPlaceholder
    ensures FillIn(t, subs, fill) == SubstOnce(t, subs)
  {
    OpenIsFirst(t, subs, fill);
    ClosedIsFull(t, subs, fill);
  }

  /** The code's `while` loop fills in a plainly written result line
      exactly as the one-pass substitution does, and never runs out of
      rounds doing so. */
  lemma SubstituteIsSubstOnce(t: string, subs: seq<string>)
    requires PlainTemplate(t, |subs|) && PlainCaptures(subs)
    ensures FillLine(t, subs) == Filled(SubstOnce(t, subs))
  {
    var round := u => FillRound(u, subs);
    var inv := u => exists fill: set<int> :: u == FillIn(t, subs, fill);
    forall u | round(u).Replaced?
      ensures Pct(u) >= 1 && (round(u).next != u ==> Pct(round(u).next) < Pct(u))
    {
      RoundLowersPct(u, subs);
    }
    forall u | inv(u)
      ensures !round(u).Raises?
      ensures round(u).NoPlaceholder? ==> u == SubstOnce(t, subs)
      ensures round(u).Replaced? ==> round(u).next != u && inv(round(u).next)
    {
      var fill :| u == FillIn(t, subs, fill);
      if FirstOpen(t, subs, fill).None? {
        RoundWhenClosed(t, subs, fill);
      } else {
        RoundIsFill(t, subs, fill);
        var n := ParseInt(FirstOpen(t, subs, fill).value).value;
        assert round(u).next == FillIn(t, subs, fill + {n});
      }
    }
    FillNone(t, subs);
    assert inv(t);
    PctBound(t);
    IterateToFinal(round, inv, SubstOnce(t, subs), t, |t|);
  }

  /** A macro whose result lines are all plainly written fills them in
      without aborting, each by the one-pass substitution. */
  lemma {:induction false} FillAllSpec(results: seq<string>, subs: seq<string>, line: int)
    requires PlainCaptures(subs)
    requires forall i :: 0 <= i < |results| ==> PlainTemplate(results[i], |subs|)
    ensures FillAll(results, subs, line) == Ok(seq(|results|, i requires 0 <= i < |results| => SubstOnce(results[i], subs)))
  {
    forall i | 0 <= i < |results|
      ensures FillLine(results[i], subs) == Filled(SubstOnce(results[i], subs))
    {
      SubstituteIsSubstOnce(results[i], subs);
    }
    var r := FillAll(results, subs, line);
    assert r.Ok?;
    assert r.value == seq(|results|, i requires 0 <= i < |results| => SubstOnce(results[i], subs));
  }

  /** A macro line whose pattern matches, with `%`-free captures and
      plainly written result lines, becomes one line per result line: the
      result line with every `%N` replaced by capture N, carrying the macro
      line's number. */
  lemma ExpandedText(l: Line, macros: map<string, MacroGrammar>, m: Matcher, subs: seq<string>)
    requires Split(l.text) != [] && Split(l.text)[0] in macros
    requires m(macros[Split(l.text)[0]].regex, l.text[|Split(l.text)[0]|..]) == Some(subs)
    requires PlainCaptures(subs)
    requires var results := macros[Split(l.text)[0]].results;
      forall i :: 0 <= i < |results| ==> PlainTemplate(results[i], |subs|)
    ensures var results := macros[Split(l.text)[0]].results;
      ExpandLine(l, macros, m) ==
        Ok((seq(|results|, i requires 0 <= i < |results| => Line(l.line, SubstOnce(results[i], subs), 0)), []))
  {
    SplitShape(l.text);
    var results := macros[Split(l.text)[0]].results;
    FillAllSpec(results, subs, l.line);
    var texts := FillAll(results, subs, l.line).value;
    assert seq(|texts|, i requires 0 <= i < |texts| => Line(l.line, texts[i], 0))
      == seq(|results|, i requires 0 <= i < |results| => Line(l.line, SubstOnce(results[i], subs), 0));
  }
}
