/**
 The third stage: read the data section. Each line declares a variable as
 `name: type value`; the variable gets the index of the next free data
 memory word and its value is stored from there on. `.word` reads the value
 with `Integer.decode`, `.int` with `Integer.parseInt`, `.char` stores the
 code of the value's first character, and `.string` one word per character.
 */
module DataSegment {
  import opened Types
  import opened JavaText
  import opened JavaInt
  import opened Literals

  /** The character codes of `s`, one word each. */
  function Codes(s: string): (r: seq<int>)
    ensures |r| == |s|
    ensures forall i :: 0 <= i < |s| ==> r[i] == s[i] as int
  {
    seq(|s|, i requires 0 <= i < |s| => s[i] as int)
  }

  /** What a data line means once its tokens are read: its name token does
      not hold a variable name, its type is unknown, or it defines `name` as
      the words `words`. */
  datatype Entry = BadName | UnknownType | Defines(name: string, words: seq<int>)

  /** The reading of one data line. The variable name is the first match of
      `([a-zA-Z0-9]+):` anywhere in the first token. A missing token, a
      malformed number and an empty `.char` value raise uncaught Java
      exceptions. */
  function ParseEntry(l: Line): Result<Entry> {
    var arr := Split(l.text);
    if arr == [] then Crash(Uncaught(l.line, IndexOutOfBounds))
    else
      match FindLabel(arr[0])
      case None => Ok(BadName)
      case Some(f) =>
        if |arr| < 2 then Crash(Uncaught(l.line, IndexOutOfBounds))
        else if arr[1] !in {".word", ".string", ".char", ".int"} then Ok(UnknownType)
        else if |arr| < 3 then Crash(Uncaught(l.line, IndexOutOfBounds))
        else
          var arg := arr[2];
          if arr[1] == ".word" then
            match Decode(arg)
            case Some(v) => Ok(Defines(f.name, [v]))
            case None => Crash(Uncaught(l.line, NumberFormat))
          else if arr[1] == ".int" then
            match ParseInt(arg)
            case Some(v) => Ok(Defines(f.name, [v]))
            case None => Crash(Uncaught(l.line, NumberFormat))
          else if arr[1] == ".char" then
            if arg == [] then Crash(Uncaught(l.line, IndexOutOfBounds))
            else Ok(Defines(f.name, [arg[0] as int]))
          else
            Ok(Defines(f.name, Codes(arg)))
  }

  /** A data line as the stage reads it: its number, how many tokens it
      splits into, and what it means. */
  datatype Decl = Decl(line: int, tokens: nat, entry: Result<Entry>)

  function Read(l: Line): Decl {
    Decl(l.line, |Split(l.text)|, ParseEntry(l))
  }

  /** The state of the data stage: the variable map, the data memory, the
      next free memory index, and the error list. */
  datatype Memory = Memory(symbols: map<string, int>, words: seq<int>, next: int, errors: seq<Diagnostic>)

  const Empty := Memory(map[], [], 0, [])

  /** After one line, the stage either goes on or returns `false`. */
  datatype Step = Next(mem: Memory) | Halt(mem: Memory)

  /** The errors a data line records: a token count other than three, then
      an invalid name or an unknown type. */
  function Complaints(d: Decl, e: Entry): seq<Diagnostic> {
    (if d.tokens != 3 then [Diagnostic(d.line, NotValidDataFormat)] else [])
    + match e
      case BadName => [Diagnostic(d.line, InvalidVarName)]
      case UnknownType => [Diagnostic(d.line, UnrecognizedDataType)]
      case Defines(_, _) => []
  }

  /** One data line applied to the state. */
  function DataLine(m: Memory, d: Decl): Result<Step> {
    var e :- d.entry;
    var m1 := m.(errors := m.errors + Complaints(d, e));
    match e
    case BadName => Ok(Halt(m1))
    case UnknownType => Ok(Next(m1))
    case Defines(x, ws) =>
      Ok(Next(m1.(symbols := m1.symbols[x := m1.next], words := m1.words + ws, next := m1.next + |ws|)))
  }

  /** The data lines in order, from state `m`; the first crash or invalid
      name ends the walk. */
  function Walk(m: Memory, ds: seq<Decl>): Result<Step>
    decreases |ds|
  {
    if ds == [] then Ok(Next(m))
    else
      var s :- DataLine(m, ds[0]);
      match s
      case Halt(m1) => Ok(Halt(m1))
      case Next(m1) => Walk(m1, ds[1..])
  }

  /** The whole data section, from an empty memory. */
  function DataSection(lines: seq<Line>): Result<Step> {
    Walk(Empty, ReadAll(lines))
  }

  function ReadAll(lines: seq<Line>): (ds: seq<Decl>)
    ensures |ds| == |lines|
    ensures forall i :: 0 <= i < |lines| ==> ds[i] == Read(lines[i])
  {
    seq(|lines|, i requires 0 <= i < |lines| => Read(lines[i]))
  }

  // ---------------------------------------------------------------------
  // Reference definitions: what the section lays out, line by line.

  /** The words a line stores. */
  function Stored(d: Decl): seq<int> {
    match d.entry
    case Ok(Defines(_, ws)) => ws
    case _ => []
  }

  /** The data memory the lines lay out: each defining line's words, in
      order. */
  function Layout(ds: seq<Decl>): seq<int>
    decreases |ds|
  {
    if ds == [] then [] else Stored(ds[0]) + Layout(ds[1..])
  }

  /** The address each variable ends up with when the memory starts at
      `base`: a later definition replaces an earlier one. */
  function Addresses(ds: seq<Decl>, base: int): map<string, int>
    decreases |ds|
  {
    if ds == [] then map[] else Here(ds[0], base) + Addresses(ds[1..], base + |Stored(ds[0])|)
  }

  /** The address a line gives its variable when it is stored at `base`. */
  function Here(d: Decl, base: int): map<string, int> {
    match d.entry
    case Ok(Defines(x, _)) => map[x := base]
    case _ => map[]
  }

  /** The errors the lines record. */
  function AllComplaints(ds: seq<Decl>): seq<Diagnostic>
    decreases |ds|
  {
    if ds == [] then []
    else
      var rest := AllComplaints(ds[1..]);
      match ds[0].entry
      case Ok(e) => Complaints(ds[0], e) + rest
      case Crash(_) => rest
  }

  /** A line that lets the walk go on: a definition or an unknown type. */
  predicate Passes(d: Decl) {
    d.entry.Ok? && !d.entry.value.BadName?
  }

  /** The walk stops at line `i`: every earlier line passes, and line `i`
      crashes or has an invalid name. */
  predicate StopsAt(ds: seq<Decl>, i: int) {
    && 0 <= i < |ds|
    && (forall j :: 0 <= j < i ==> Passes(ds[j]))
    && !Passes(ds[i])
  }

  predicate Readable(ds: seq<Decl>) {
    forall j :: 0 <= j < |ds| ==> Passes(ds[j])
  }

  /** Line `d` defines variable `x`. */
  predicate Names(d: Decl, x: string) {
    d.entry.Ok? && d.entry.value.Defines? && d.entry.value.name == x
  }

  // ---------------------------------------------------------------------
  // Properties.

  /** The walk goes through every line exactly when every line passes;
      otherwise it stops at the first line that does not, crashing with that
      line's exception or returning false for its invalid name. */
  lemma {:induction false} WalkOutcome(m: Memory, ds: seq<Decl>)
    ensures Walk(m, ds).Ok? && Walk(m, ds).value.Next? <==> Readable(ds)
    ensures !Readable(ds) ==> exists i :: (StopsAt(ds, i) && (
      if ds[i].entry.Crash? then Walk(m, ds) == Crash(ds[i].entry.abort)
      else Walk(m, ds).Ok? && Walk(m, ds).value.Halt?))
    decreases |ds|
  {
    if ds != [] {
      var rest := ds[1..];
      assert forall j :: 0 < j < |ds| ==> ds[j] == rest[j - 1];
      if Passes(ds[0]) {
        var m1 := DataLine(m, ds[0]).value.mem;
        assert Walk(m, ds) == Walk(m1, rest);
        WalkOutcome(m1, rest);
        if !Readable(ds) {
          assert !Readable(rest);
          var i :| StopsAt(rest, i) && (
            if rest[i].entry.Crash? then Walk(m1, rest) == Crash(rest[i].entry.abort)
            else Walk(m1, rest).Ok? && Walk(m1, rest).value.Halt?);
          assert StopsAt(ds, i + 1);
        }
      } else {
        assert StopsAt(ds, 0);
      }
    }
  }

  /** A walk that returns false has stopped at a line whose name token
      holds no variable name, and that line's error is the last one
      recorded. */
  lemma {:induction false} HaltAtBadName(m: Memory, ds: seq<Decl>)
    requires Walk(m, ds).Ok? && Walk(m, ds).value.Halt?
    ensures exists i :: BadNameLast(ds, i, Walk(m, ds).value.mem.errors)
    decreases |ds|
  {
    var rest := ds[1..];
    if Passes(ds[0]) {
      var m1 := DataLine(m, ds[0]).value.mem;
      assert Walk(m, ds) == Walk(m1, rest);
      HaltAtBadName(m1, rest);
      var i :| BadNameLast(rest, i, Walk(m1, rest).value.mem.errors);
      assert forall j :: 0 < j < |ds| ==> ds[j] == rest[j - 1];
      assert BadNameLast(ds, i + 1, Walk(m, ds).value.mem.errors);
    } else {
      assert BadNameLast(ds, 0, Walk(m, ds).value.mem.errors);
    }
  }

  /** Line `i` is where the walk stopped, for an invalid name, and its
      error closes the list `errors`. */
  predicate BadNameLast(ds: seq<Decl>, i: int, errors: seq<Diagnostic>) {
    && StopsAt(ds, i)
    && ds[i].entry == Ok(BadName)
    && errors != []
    && errors[|errors| - 1] == Diagnostic(ds[i].line, InvalidVarName)
  }

  /** A line that passes adds its complaints, and a definition stores its
      words at the next free index and points its variable there. */
  lemma StepEffect(m: Memory, d: Decl)
    requires Passes(d)
    ensures DataLine(m, d) == Ok(Next(After(m, d)))
  {
    match d.entry.value
    case Defines(x, ws) =>
      assert m.symbols[x := m.next] == m.symbols + map[x := m.next];
    case UnknownType =>
      assert m.symbols + map[] == m.symbols && m.words + [] == m.words;
  }

  /** The state after a line that passes, written with the reference
      definitions. */
  function After(m: Memory, d: Decl): Memory
    requires Passes(d)
  {
    Memory(m.symbols + Here(d, m.next), m.words + Stored(d), m.next + |Stored(d)|,
      m.errors + Complaints(d, d.entry.value))
  }

  /** A walk that gets through every line gets through the first one. */
  lemma WalkStep(m: Memory, ds: seq<Decl>)
    requires ds != [] && Walk(m, ds).Ok? && Walk(m, ds).value.Next?
    ensures Passes(ds[0]) && Walk(m, ds) == Walk(After(m, ds[0]), ds[1..])
  {
    if Passes(ds[0]) {
      StepEffect(m, ds[0]);
    }
  }

  lemma Assoc<T>(a: seq<T>, b: seq<T>, c: seq<T>)
    ensures (a + b) + c == a + (b + c)
  {
  }

  lemma MapUnionAssoc(a: map<string, int>, b: map<string, int>, c: map<string, int>)
    ensures (a + b) + c == a + (b + c)
  {
  }

  /** After a walk through every line, the memory holds the layout of the
      lines behind what it held before, the next free index is just past it,
      the variable map is the old one updated with the lines' addresses, and
      the error list has grown by the lines' complaints. */
  lemma {:induction false} WalkLayout(m: Memory, ds: seq<Decl>)
    requires Walk(m, ds).Ok? && Walk(m, ds).value.Next?
    ensures var r := Walk(m, ds).value.mem;
      && r.words == m.words + Layout(ds)
      && r.next == m.next + |Layout(ds)|
      && r.symbols == m.symbols + Addresses(ds, m.next)
      && r.errors == m.errors + AllComplaints(ds)
    decreases |ds|
  {
    if ds == [] {
      assert m.words + [] == m.words && m.errors + [] == m.errors;
      assert m.symbols + map[] == m.symbols;
    } else {
      WalkStep(m, ds);
      WalkLayout(After(m, ds[0]), ds[1..]);
      LayoutStep(m, ds, Walk(m, ds).value.mem);
    }
  }

  /** The induction step of `WalkLayout`: a memory that holds the layout
      of the later lines behind the state after the first line holds the
      layout of all the lines behind the state before it. */
  lemma LayoutStep(m: Memory, ds: seq<Decl>, r: Memory)
    requires ds != [] && Passes(ds[0])
    requires var m1 := After(m, ds[0]);
      && r.words == m1.words + Layout(ds[1..])
      && r.next == m1.next + |Layout(ds[1..])|
      && r.symbols == m1.symbols + Addresses(ds[1..], m1.next)
      && r.errors == m1.errors + AllComplaints(ds[1..])
    ensures r.words == m.words + Layout(ds)
    ensures r.next == m.next + |Layout(ds)|
    ensures r.symbols == m.symbols + Addresses(ds, m.next)
    ensures r.errors == m.errors + AllComplaints(ds)
  {
    var d := ds[0];
    var m1 := After(m, d);
    LayoutCons(ds);
    Assoc(m.words, Stored(d), Layout(ds[1..]));
    assert AllComplaints(ds) == Complaints(d, d.entry.value) + AllComplaints(ds[1..]);
    Assoc(m.errors, Complaints(d, d.entry.value), AllComplaints(ds[1..]));
    assert Addresses(ds, m.next) == Here(d, m.next) + Addresses(ds[1..], m1.next);
    MapUnionAssoc(m.symbols, Here(d, m.next), Addresses(ds[1..], m1.next));
  }

  /** When the whole section is read, memory index `next` counts the words
      stored, and the memory is the layout of the lines. */
  lemma SectionLayout(lines: seq<Line>)
    requires DataSection(lines).Ok? && DataSection(lines).value.Next?
    ensures var r := DataSection(lines).value.mem;
      && r.next == |r.words|
      && r.words == Layout(ReadAll(lines))
      && r.symbols == Addresses(ReadAll(lines), 0)
      && r.errors == AllComplaints(ReadAll(lines))
  {
    WalkLayout(Empty, ReadAll(lines));
    assert Empty.symbols + Addresses(ReadAll(lines), 0) == Addresses(ReadAll(lines), 0);
  }

  /** Line `i` is the last one to define `x`, with the words `ws`, and
      those words sit at `x`'s address. */
  predicate LastDefinition(ds: seq<Decl>, base: int, x: string, i: int, ws: seq<int>)
    requires x in Addresses(ds, base)
  {
    StoredAt(ds, Layout(ds), Addresses(ds, base)[x] - base, x, i, ws)
  }

  /** Line `i` is the last of `ds` to define `x`, with the words `ws`, and
      `lay` holds those words from offset `k`. */
  predicate StoredAt(ds: seq<Decl>, lay: seq<int>, k: int, x: string, i: int, ws: seq<int>) {
    && 0 <= i < |ds| && ds[i].entry == Ok(Defines(x, ws))
    && (forall j :: i < j < |ds| ==> !Names(ds[j], x))
    && 0 <= k <= |lay|
    && ws <= lay[k..]
  }

  /** Each variable's address points at the words of the last line that
      defines it: later definitions win, and what is stored there is the
      value that line gave. */
  lemma {:induction false} AddressContent(ds: seq<Decl>, base: int, x: string)
    requires x in Addresses(ds, base)
    ensures exists i, ws :: LastDefinition(ds, base, x, i, ws)
    decreases |ds|
  {
    var base1 := base + |Stored(ds[0])|;
    if x in Addresses(ds[1..], base1) {
      AddressContent(ds[1..], base1, x);
      var i, ws :| LastDefinition(ds[1..], base1, x, i, ws);
      LaterDefinition(ds, base, x, i, ws);
    } else {
      FirstDefinition(ds, base, x);
    }
  }

  /** A last definition among the later lines is the last one overall. */
  lemma {:induction false} LaterDefinition(ds: seq<Decl>, base: int, x: string, i: int, ws: seq<int>)
    requires ds != [] && x in Addresses(ds[1..], base + |Stored(ds[0])|)
    requires LastDefinition(ds[1..], base + |Stored(ds[0])|, x, i, ws)
    ensures x in Addresses(ds, base) && LastDefinition(ds, base, x, i + 1, ws)
  {
    var rest := ds[1..];
    var s := Stored(ds[0]);
    var base1 := base + |s|;
    var k := Addresses(rest, base1)[x] - base1;
    AddressInTail(ds, base, x);
    LayoutCons(ds);
    StoredAtCons(ds, s, Layout(rest), k, Layout(ds), Addresses(ds, base)[x] - base, x, i, ws);
  }

  /** One more line, and its words, in front keep a last definition last,
      one line and `|s|` words further on. */
  lemma {:induction false} StoredAtCons(ds: seq<Decl>, s: seq<int>, lay: seq<int>, k: int,
                                        lay': seq<int>, k': int, x: string, i: int, ws: seq<int>)
    requires ds != [] && StoredAt(ds[1..], lay, k, x, i, ws)
    requires lay' == s + lay && k' == |s| + k
    ensures StoredAt(ds, lay', k', x, i + 1, ws)
  {
    var rest := ds[1..];
    assert ds[i + 1] == rest[i];
    forall j | i + 1 < j < |ds|
      ensures !Names(ds[j], x)
    {
      assert ds[j] == rest[j - 1];
    }
    DropOfAppend(s, lay, k);
  }

  /** A variable the later lines address keeps that address. */
  lemma {:induction false} AddressInTail(ds: seq<Decl>, base: int, x: string)
    requires ds != [] && x in Addresses(ds[1..], base + |Stored(ds[0])|)
    ensures x in Addresses(ds, base)
    ensures Addresses(ds, base)[x] == Addresses(ds[1..], base + |Stored(ds[0])|)[x]
    ensures Addresses(ds, base)[x] - base ==
      |Stored(ds[0])| + (Addresses(ds[1..], base + |Stored(ds[0])|)[x] - (base + |Stored(ds[0])|))
  {
  }

  lemma LayoutCons(ds: seq<Decl>)
    requires ds != []
    ensures Layout(ds) == Stored(ds[0]) + Layout(ds[1..])
  {
  }

  /** A variable that no later line defines is addressed by the first. */
  lemma FirstDefinition(ds: seq<Decl>, base: int, x: string)
    requires x in Addresses(ds, base) && x !in Addresses(ds[1..], base + |Stored(ds[0])|)
    ensures Names(ds[0], x) && LastDefinition(ds, base, x, 0, ds[0].entry.value.words)
  {
    var s := Stored(ds[0]);
    var rest := ds[1..];
    forall j | 0 < j < |ds|
      ensures !Names(ds[j], x)
    {
      if Names(ds[j], x) {
        assert ds[j] == rest[j - 1];
        NamedIsAddressed(rest, base + |s|, j - 1, x);
      }
    }
    assert Layout(ds) == s + Layout(rest);
    assert Layout(ds)[0..] == s + Layout(rest);
  }

  lemma {:induction false} NamedIsAddressed(ds: seq<Decl>, base: int, j: nat, x: string)
    requires j < |ds| && Names(ds[j], x)
    ensures x in Addresses(ds, base)
    decreases |ds|
  {
    if j > 0 {
      NamedIsAddressed(ds[1..], base + |Stored(ds[0])|, j - 1, x);
    }
  }

  /** A variable gets the next free index at its last definition: the
      number of words the earlier lines laid out, past `base`. */
  lemma {:induction false} AddressIsOffset(ds: seq<Decl>, base: int, x: string, i: nat)
    requires i < |ds| && Names(ds[i], x) && forall j :: i < j < |ds| ==> !Names(ds[j], x)
    ensures x in Addresses(ds, base) && Addresses(ds, base)[x] == base + |Layout(ds[..i])|
    decreases |ds|
  {
    var rest := ds[1..];
    var base1 := base + |Stored(ds[0])|;
    if i == 0 {
      UnnamedIsUnaddressed(rest, base1, x);
      assert ds[..0] == [];
    } else {
      assert forall j :: i - 1 < j < |rest| ==> rest[j] == ds[j + 1];
      AddressIsOffset(rest, base1, x, i - 1);
      AddressInTail(ds, base, x);
      LayoutPrefixCons(ds, i);
    }
  }

  /** A variable no line defines has no address. */
  lemma {:induction false} UnnamedIsUnaddressed(ds: seq<Decl>, base: int, x: string)
    requires forall j :: 0 <= j < |ds| ==> !Names(ds[j], x)
    ensures x !in Addresses(ds, base)
    decreases |ds|
  {
    if ds != [] {
      UnnamedIsUnaddressed(ds[1..], base + |Stored(ds[0])|, x);
    }
  }

  /** The words the first `i` lines lay out are those of the first line and
      then those of the next `i - 1`. */
  lemma LayoutPrefixCons(ds: seq<Decl>, i: nat)
    requires 0 < i <= |ds|
    ensures |Layout(ds[..i])| == |Stored(ds[0])| + |Layout(ds[1..][..i - 1])|
  {
    var p := ds[..i];
    LayoutCons(p);
    assert p[0] == ds[0];
    assert p[1..] == ds[1..][..i - 1];
  }

  /** The layout of two runs of lines is the layout of the first, then that
      of the second. */
  lemma {:induction false} LayoutAppend(a: seq<Decl>, b: seq<Decl>)
    ensures Layout(a + b) == Layout(a) + Layout(b)
    decreases |a|
  {
    if a == [] {
      assert a + b == b;
    } else {
      LayoutAppend(a[1..], b);
      assert (a + b)[1..] == a[1..] + b;
      LayoutCons(a + b);
      LayoutCons(a);
    }
  }

  /** Variables are allocated in declaration order: one whose last
      definition comes earlier sits below one whose last definition comes
      later, with all its words in between. */
  lemma AddressesInOrder(ds: seq<Decl>, base: int, x: string, i: nat, y: string, j: nat)
    requires i < j < |ds|
    requires Names(ds[i], x) && forall k :: i < k < |ds| ==> !Names(ds[k], x)
    requires Names(ds[j], y) && forall k :: j < k < |ds| ==> !Names(ds[k], y)
    ensures x in Addresses(ds, base) && y in Addresses(ds, base)
    ensures Addresses(ds, base)[x] + |Stored(ds[i])| <= Addresses(ds, base)[y]
  {
    AddressIsOffset(ds, base, x, i);
    AddressIsOffset(ds, base, y, j);
    assert ds[..j] == ds[..i] + [ds[i]] + ds[i + 1..j];
    LayoutAppend(ds[..i] + [ds[i]], ds[i + 1..j]);
    LayoutAppend(ds[..i], [ds[i]]);
    LayoutCons([ds[i]]);
  }

  lemma DropOfAppend(p: seq<int>, q: seq<int>, k: int)
    requires 0 <= k <= |q|
    ensures (p + q)[|p| + k..] == q[k..]
  {
  }

  /** The tokens of a declaration `name: type value` written with single
      spaces, and the name the label pattern finds in the first. */
  lemma DeclarationTokens(name: string, ty: string, arg: string)
    requires name != [] && forall k :: 0 <= k < |name| ==> IsAlnum(name[k])
    requires ty != [] && SpaceFree(ty) && arg != [] && SpaceFree(arg)
    ensures Split(Join([name + ":", ty, arg])) == [name + ":", ty, arg]
    ensures FindLabel(name + ":") == Some(Found(0, name))
  {
    var head := name + ":";
    assert SpaceFree(head) by {
      assert forall k :: 0 <= k < |name| ==> head[k] == name[k];
    }
    LabelOfDeclaration(name, []);
    assert head + [] == head;
    SplitJoin([head, ty, arg]);
  }

  /** `name: .word v` and `name: .int v`, with `v` the decimal text of an
      `int`, define `name` as the one word `v`. */
  lemma NumberDeclaration(n: int, name: string, v: int, ty: string)
    requires name != [] && forall k :: 0 <= k < |name| ==> IsAlnum(name[k])
    requires IsInt32(v) && ty in {".word", ".int"}
    ensures ParseEntry(Line(n, Join([name + ":", ty, ShowInt(v)]), 0)) == Ok(Defines(name, [v]))
  {
    ShowIntSpaceFree(v);
    DeclarationTokens(name, ty, ShowInt(v));
    DecodeShowInt(v);
    ParseShowInt(v);
  }

  /** `name: .string s` defines `name` as the codes of `s`, one word per
      character; `name: .char s` as the code of its first character. */
  lemma TextDeclaration(n: int, name: string, s: string)
    requires name != [] && forall k :: 0 <= k < |name| ==> IsAlnum(name[k])
    requires s != [] && SpaceFree(s)
    ensures ParseEntry(Line(n, Join([name + ":", ".string", s]), 0)) == Ok(Defines(name, Codes(s)))
    ensures ParseEntry(Line(n, Join([name + ":", ".char", s]), 0)) == Ok(Defines(name, [s[0] as int]))
  {
    DeclarationTokens(name, ".string", s);
    DeclarationTokens(name, ".char", s);
  }

  lemma ShowIntSpaceFree(v: int)
    ensures ShowInt(v) != [] && SpaceFree(ShowInt(v))
  {
    var d := ShowNat(if v < 0 then -v else v);
    assert forall k :: 0 <= k < |d| ==> DigitValue(d[k], 10).Some?;
    assert SpaceFree(d);
    if v < 0 {
      assert forall k :: 0 < k < |ShowInt(v)| ==> ShowInt(v)[k] == d[k - 1];
    }
  }

  /** A line whose type is unknown stores nothing and records one error for
      it; a token count other than three is recorded and the line is still
      read. */
  lemma UnknownTypeIsRecorded(m: Memory, d: Decl)
    requires d.entry == Ok(UnknownType)
    ensures DataLine(m, d) == Ok(Next(m.(errors := m.errors + Complaints(d, UnknownType))))
    ensures Diagnostic(d.line, UnrecognizedDataType) in Complaints(d, UnknownType)
    ensures (Diagnostic(d.line, NotValidDataFormat) in Complaints(d, UnknownType)) <==> d.tokens != 3
  {
  }
}
