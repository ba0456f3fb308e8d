/**
 The last stage: every expanded line becomes one 32-bit instruction word.
 The mnemonic selects a grammar; capture group i+1 of the grammar's pattern
 is the text of operand field i, read as a number, else as a data variable,
 else as a label; each value is range-checked against its field's width,
 masked, shifted into place and added to the word together with the
 grammar's opcode bits.
 */
module Encoder {
  import opened Types
  import opened JavaText
  import opened JavaInt
  import opened Literals

  /** A branch operand is relative to the instruction after the one at
      `at`, computed in `int` arithmetic. */
  function Offset(target: int, at: int): int {
    Wrap32(target - at - 1)
  }

  /** The value of one operand text and the error recorded for it: a
      number as `Integer.decode` reads it, else a data variable's address,
      else a label's instruction index, else 0 with an error. */
  function OperandValue(s: string, v: SingleVar, at: int, data: map<string, int>, labels: map<string, int>)
    : (int, Option<ErrorKind>)
  {
    match Decode(s)
    case Some(n) => (n, None)
    case None =>
      if s in data then (if v.isBranch then Offset(data[s], at) else data[s], None)
      else if s in labels then (if v.isBranch then Offset(labels[s], at) else labels[s], None)
      else (0, Some(NotFoundInData(s)))
  }

  /** The width check. A field with `numBits >= 0` takes 0 up to
      `pow(2, numBits) - 1`; one with negative `numBits` takes the two's
      complement range of `|numBits|` bits. The bounds are computed as the
      code does: `Math.abs` and the `- 1` on the width in `int`, `pow` and
      the bounds in `long`. */
  function RangeError(v: int, numBits: int): Option<ErrorKind> {
    if numBits >= 0 then
      var max := ToLong(Pow(2, numBits) - 1);
      if v > max then Some(ExceedsMax(v, max))
      else if v < 0 then Some(NegativeUnsigned(v))
      else None
    else
      var w := Wrap32(Wrap32(Abs(numBits)) - 1);
      if v >= 0 then
        var max := ToLong(Pow(2, w) - 1);
        if v > max then Some(ExceedsMax(v, max)) else None
      else
        var min := ToLong(-Pow(2, w));
        if v < min then Some(BelowMin(v, min)) else None
  }

  /** `(int) (pow(2, numBits) - 1)`: the field mask. */
  function Mask(numBits: int): Word {
    ToWord(ToLong(Pow(2, numBits) - 1))
  }

  /** The bits one operand adds to the word: its value masked to the
      field and shifted to the field's index. */
  function Field(v: int, sv: SingleVar): Word {
    Shl(BitAnd(Mask(sv.numBits), ToWord(v)), sv.index)
  }

  /** The errors one operand records: an unknown name, then a value out of
      range (an unknown name counts as 0 for the range check). */
  function OperandErrors(line: int, value: (int, Option<ErrorKind>), numBits: int): seq<Diagnostic> {
    (if value.1.Some? then [Diagnostic(line, value.1.value)] else [])
    + (match RangeError(value.0, numBits)
       case Some(e) => [Diagnostic(line, e)]
       case None => [])
  }

  /** What one operand text `s` adds: the bits of its field and the errors
      it records. */
  function Contribution(s: string, sv: SingleVar, l: Line, data: map<string, int>, labels: map<string, int>)
    : (Word, seq<Diagnostic>)
  {
    var value := OperandValue(s, sv, l.instructionLine, data, labels);
    (Field(value.0, sv), OperandErrors(l.line, value, sv.numBits))
  }

  /** The loop over a grammar's fields, with `part` giving what the field
      and its capture group add: the bits summed in `int` arithmetic and
      the errors in order. A field without a capture group throws. */
  function Pack(part: (SingleVar, string) -> (Word, seq<Diagnostic>), vars: seq<SingleVar>, caps: seq<string>, line: int)
    : Result<(Word, seq<Diagnostic>)>
    decreases |vars|
  {
    if vars == [] then Ok((0, []))
    else if caps == [] then Crash(Uncaught(line, IndexOutOfBounds))
    else
      var (w, e) := part(vars[0], caps[0]);
      var (rest, errs) :- Pack(part, vars[1..], caps[1..], line);
      Ok((AddWord(w, rest), e + errs))
  }

  /** The operand fields of a line whose pattern matched, with the capture
      groups `caps`. */
  function EncodeFields(vars: seq<SingleVar>, caps: seq<string>, l: Line, data: map<string, int>, labels: map<string, int>)
    : Result<(Word, seq<Diagnostic>)>
  {
    Pack((sv, s) => Contribution(s, sv, l, data, labels), vars, caps, l.line)
  }

  /** The sum of `opCode << index` over the grammar's opcodes, in `int`
      arithmetic. */
  function OpBits(ops: seq<OpCode>): Word
    decreases |ops|
  {
    if ops == [] then 0
    else AddWord(Shl(ToWord(ops[0].opCode), ops[0].index), OpBits(ops[1..]))
  }

  /** The words one expanded line produces (none or one) and its errors. An
      unknown mnemonic records an error and produces no word; a pattern that
      does not match records an error and still produces the word 0. */
  function EncodeLine(l: Line, grammars: map<string, InstructionGrammar>, m: Matcher,
                      data: map<string, int>, labels: map<string, int>): Result<(seq<Word>, seq<Diagnostic>)>
  {
    var arr := Split(l.text);
    if arr == [] then Crash(Uncaught(l.line, IndexOutOfBounds))
    else
      var name := arr[0];
      SplitShape(l.text);
      if name !in grammars then Ok(([], [Diagnostic(l.line, UnknownInstruction(name))]))
      else
        var g := grammars[name];
        match m(g.regex, l.text[|name|..])
        case None => Ok(([0], [Diagnostic(l.line, RegexMismatch(name))]))
        case Some(caps) =>
          var (fields, errs) :- EncodeFields(g.vars, caps, l, data, labels);
          Ok(([AddWord(fields, OpBits(g.opCodes))], errs))
  }

  /** Every expanded line encoded, in order. */
  function EncodeAll(lines: seq<Line>, grammars: map<string, InstructionGrammar>, m: Matcher,
                     data: map<string, int>, labels: map<string, int>): Result<(seq<Word>, seq<Diagnostic>)>
    decreases |lines|
  {
    if lines == [] then Ok(([], []))
    else
      var (here, errs) :- EncodeLine(lines[0], grammars, m, data, labels);
      var (rest, errs2) :- EncodeAll(lines[1..], grammars, m, data, labels);
      Ok((here + rest, errs + errs2))
  }

  /** The mnemonic of a line: its first `\s`-separated piece. */
  function Mnemonic(l: Line): Option<string> {
    var arr := Split(l.text);
    if arr == [] then None else Some(arr[0])
  }

  /** How many of `lines` have a mnemonic that is in `grammars`. */
  function KnownCount(lines: seq<Line>, grammars: map<string, InstructionGrammar>): nat
    decreases |lines|
  {
    if lines == [] then 0
    else
      var here := if Mnemonic(lines[0]).Some? && Mnemonic(lines[0]).value in grammars then 1 else 0;
      here + KnownCount(lines[1..], grammars)
  }

  /** An operand is taken as a number when it decodes as one, whatever
      names are defined; otherwise data variables shadow labels; a branch
      operand is the distance from the next instruction; an operand that
      is none of these reads as 0 and is reported. */
  lemma OperandValueSpec(s: string, v: SingleVar, at: int, data: map<string, int>, labels: map<string, int>)
    ensures var (value, err) := OperandValue(s, v, at, data, labels);
      && (err.Some? <==> Decode(s).None? && s !in data && s !in labels)
      && (err.Some? ==> value == 0 && err == Some(NotFoundInData(s)))
      && (Decode(s).Some? ==> value == Decode(s).value)
      && (Decode(s).None? && s in data ==> value == (if v.isBranch then Offset(data[s], at) else data[s]))
      && (Decode(s).None? && s !in data && s in labels ==>
          value == (if v.isBranch then Offset(labels[s], at) else labels[s]))
      && ((Decode(s).Some? || v.isBranch || err.Some?) ==> IsInt32(value))
  {
  }

  /** A branch to a label lands on it: the instruction after the branch,
      moved by the operand's value, is the label's instruction, as long as
      the distance fits an `int`. A name starting with a letter is never
      read as a number. */
  lemma BranchLandsOnLabel(s: string, v: SingleVar, at: int, data: map<string, int>, labels: map<string, int>)
    requires s != [] && ('a' <= s[0] <= 'z' || 'A' <= s[0] <= 'Z')
    requires v.isBranch && s !in data && s in labels
    requires IsInt32(labels[s] - at - 1)
    ensures OperandValue(s, v, at, data, labels).1 == None
    ensures at + 1 + OperandValue(s, v, at, data, labels).0 == labels[s]
  {
    DecodeRejectsNames(s);
  }

  /** `2^62 < 2^63`, so `pow(2, n) - 1` and `-pow(2, n)` stay in `long`
      range for widths up to 62. */
  lemma SmallPow(n: nat)
    requires n <= 62
    ensures Pow(2, n) == Pow2(n) && Pow(2, -(n as int)) == Pow2(n)
    ensures ToLong(Pow2(n) - 1) == Pow2(n) - 1
    ensures ToLong(-(Pow2(n) as int)) == -(Pow2(n) as int)
  {
    PowTwo(n);
    Pow2Monotone(n, 62);
    Pow2Of63();
  }

  /** The range check accepts exactly the values of the field: 0 to
      `2^numBits - 1` for a non-negative width, the two's complement range
      of `|numBits|` bits for a negative one; and it names the bound that
      was crossed. */
  lemma RangeErrorSpec(v: int, numBits: int)
    requires -63 <= numBits <= 62
    ensures numBits >= 0 ==> (RangeError(v, numBits).None? <==> 0 <= v < Pow2(numBits))
    ensures numBits >= 0 && v >= Pow2(numBits) ==>
      RangeError(v, numBits) == Some(ExceedsMax(v, Pow2(numBits) - 1))
    ensures numBits >= 0 && v < 0 ==> RangeError(v, numBits) == Some(NegativeUnsigned(v))
    ensures numBits < 0 ==>
      (RangeError(v, numBits).None? <==> -(Pow2(-numBits - 1) as int) <= v < Pow2(-numBits - 1))
    ensures numBits < 0 && v >= Pow2(-numBits - 1) ==>
      RangeError(v, numBits) == Some(ExceedsMax(v, Pow2(-numBits - 1) - 1))
    ensures numBits < 0 && v < -(Pow2(-numBits - 1) as int) ==>
      RangeError(v, numBits) == Some(BelowMin(v, -(Pow2(-numBits - 1) as int)))
  {
    if numBits >= 0 {
      SmallPow(numBits);
    } else {
      var w := -numBits - 1;
      assert Wrap32(Wrap32(Abs(numBits)) - 1) == w;
      SmallPow(w);
    }
  }

  /** For a width of at most 32 bits the mask is `|numBits|` one bits. */
  lemma MaskOnes(numBits: int)
    requires Abs(numBits) <= 32
    ensures Mask(numBits) == Pow2(Abs(numBits)) - 1
  {
    var w := Abs(numBits);
    PowTwo(numBits);
    SmallPow(w);
    Pow2Monotone(w, 32);
    Pow2Of32();
  }

  /** A value that passes the range check reads back from the word's bits
      at the field's place: as itself for an unsigned field, as two's
      complement for a signed one. */
  lemma FieldReadBack(v: int, sv: SingleVar)
    requires 1 <= Abs(sv.numBits) && 0 <= sv.index && sv.index + Abs(sv.numBits) <= 32
    requires RangeError(v, sv.numBits).None?
    ensures sv.numBits > 0 ==> Bits(Field(v, sv), sv.index, sv.numBits) == v
    ensures sv.numBits < 0 ==> Signed(Bits(Field(v, sv), sv.index, -sv.numBits), -sv.numBits) == v
  {
    RangeErrorSpec(v, sv.numBits);
    FieldHoldsLowBits(v, sv);
    LowBitsReadBack(v, Abs(sv.numBits), sv.numBits < 0);
  }

  /** The field's bits in the word are the low `|numBits|` bits of the
      value, whatever the value. */
  lemma FieldHoldsLowBits(v: int, sv: SingleVar)
    requires 1 <= Abs(sv.numBits) && 0 <= sv.index && sv.index + Abs(sv.numBits) <= 32
    ensures Bits(Field(v, sv), sv.index, Abs(sv.numBits)) == ToWord(v) % Pow2(Abs(sv.numBits))
  {
    var w := Abs(sv.numBits);
    FieldIsShiftedLowBits(v, sv);
    ShiftReadBack(ToWord(v) % Pow2(w), sv.index, w);
  }

  /** The field is the value's low `|numBits|` bits shifted to the index. */
  lemma FieldIsShiftedLowBits(v: int, sv: SingleVar)
    requires 1 <= Abs(sv.numBits) && 0 <= sv.index && sv.index + Abs(sv.numBits) <= 32
    ensures ToWord(v) % Pow2(Abs(sv.numBits)) < TwoTo32
    ensures Field(v, sv) == ShiftLeft(ToWord(v) % Pow2(Abs(sv.numBits)), sv.index)
  {
    var w := Abs(sv.numBits);
    var low := ToWord(v) % Pow2(w);
    MaskOnes(sv.numBits);
    AndLowMask(w, ToWord(v));
    assert BitAnd(Mask(sv.numBits), ToWord(v)) == low;
    DivModUnique(sv.index, 32, 0, sv.index);
  }

  /** The plain sum of what `part` gives the fields, without wrap-around. */
  function PackTotal(part: (SingleVar, string) -> (Word, seq<Diagnostic>), vars: seq<SingleVar>, caps: seq<string>): nat
    requires |caps| >= |vars|
    decreases |vars|
  {
    if vars == [] then 0 else part(vars[0], caps[0]).0 + PackTotal(part, vars[1..], caps[1..])
  }

  /** The loop fails exactly when there are fewer capture groups than
      fields; otherwise its word is the plain sum of the fields' bits modulo
      2^32, it records nothing exactly when no field does, and every error
      it records is one a field recorded. */
  lemma {:induction false} PackSpec(part: (SingleVar, string) -> (Word, seq<Diagnostic>),
                                    vars: seq<SingleVar>, caps: seq<string>, line: int)
    ensures Pack(part, vars, caps, line).Ok? <==> |caps| >= |vars|
    ensures Pack(part, vars, caps, line).Crash? ==> Pack(part, vars, caps, line).abort == Uncaught(line, IndexOutOfBounds)
    ensures Pack(part, vars, caps, line).Ok? ==>
      Pack(part, vars, caps, line).value.0 == PackTotal(part, vars, caps) % TwoTo32
    ensures Pack(part, vars, caps, line).Ok? ==>
      (Pack(part, vars, caps, line).value.1 == [] <==> forall i :: 0 <= i < |vars| ==> part(vars[i], caps[i]).1 == [])
    ensures Pack(part, vars, caps, line).Ok? ==> forall d :: d in Pack(part, vars, caps, line).value.1 ==>
      exists i :: 0 <= i < |vars| && d in part(vars[i], caps[i]).1
    decreases |vars|
  {
    if vars != [] && caps != [] {
      PackSpec(part, vars[1..], caps[1..], line);
      var r := Pack(part, vars, caps, line);
      if r.Ok? {
        var (w, e) := part(vars[0], caps[0]);
        var (rest, errs) := Pack(part, vars[1..], caps[1..], line).value;
        assert r.value == (AddWord(w, rest), e + errs);
        AddMod(w, rest, PackTotal(part, vars[1..], caps[1..]));
        assert forall i :: 0 < i < |vars| ==> vars[i] == vars[1..][i - 1] && caps[i] == caps[1..][i - 1];
      }
    }
  }

  /** Adding a word to a number reduced modulo 2^32, as Java `int`
      addition does, is adding first and reducing after. */
  lemma AddMod(f: Word, w: Word, t: nat)
    requires w == t % TwoTo32
    ensures AddWord(f, w) == (f + t) % TwoTo32
  {
    DivModUnique(f + t, TwoTo32, (f + w) / TwoTo32 + t / TwoTo32, (f + w) % TwoTo32);
  }

  /** The errors one operand records are all about its line. */
  lemma OperandErrorsLine(line: int, value: (int, Option<ErrorKind>), numBits: int)
    ensures forall d :: d in OperandErrors(line, value, numBits) ==> d.line == line
  {
  }

  /** The fields of a matched line: they fail exactly when the pattern has
      fewer groups than the grammar has fields, and they are error-free
      exactly when every operand is known and within range; every error
      they record is about the line. */
  lemma EncodeFieldsSpec(vars: seq<SingleVar>, caps: seq<string>, l: Line,
                         data: map<string, int>, labels: map<string, int>)
    ensures EncodeFields(vars, caps, l, data, labels).Ok? <==> |caps| >= |vars|
    ensures EncodeFields(vars, caps, l, data, labels).Crash? ==>
      EncodeFields(vars, caps, l, data, labels).abort == Uncaught(l.line, IndexOutOfBounds)
    ensures EncodeFields(vars, caps, l, data, labels).Ok? ==>
      (EncodeFields(vars, caps, l, data, labels).value.1 == [] <==>
       forall i :: 0 <= i < |vars| ==>
         OperandErrors(l.line, OperandValue(caps[i], vars[i], l.instructionLine, data, labels), vars[i].numBits) == [])
    ensures EncodeFields(vars, caps, l, data, labels).Ok? ==>
      forall d :: d in EncodeFields(vars, caps, l, data, labels).value.1 ==> d.line == l.line
  {
    var part := (sv, s) => Contribution(s, sv, l, data, labels);
    PackSpec(part, vars, caps, l.line);
    forall i | 0 <= i < |vars| && i < |caps|
      ensures part(vars[i], caps[i]).1 ==
        OperandErrors(l.line, OperandValue(caps[i], vars[i], l.instructionLine, data, labels), vars[i].numBits)
      ensures forall d :: d in part(vars[i], caps[i]).1 ==> d.line == l.line
    {
      OperandErrorsLine(l.line, OperandValue(caps[i], vars[i], l.instructionLine, data, labels), vars[i].numBits);
    }
  }

  /** The plain sum of every field's bits, each operand's value masked to
      its field and shifted to its index. */
  function FieldTotal(vars: seq<SingleVar>, caps: seq<string>, l: Line, data: map<string, int>, labels: map<string, int>): nat
    requires |caps| >= |vars|
  {
    PackTotal((sv, s) => Contribution(s, sv, l, data, labels), vars, caps)
  }

  /** With a capture group for every field, the fields are packed in `int`
      arithmetic: the word is the plain sum of every field's bits modulo
      2^32, so overlapping fields add rather than combine bit by bit. */
  lemma EncodeFieldsSum(vars: seq<SingleVar>, caps: seq<string>, l: Line,
                        data: map<string, int>, labels: map<string, int>)
    requires |caps| >= |vars|
    ensures EncodeFields(vars, caps, l, data, labels).Ok?
    ensures EncodeFields(vars, caps, l, data, labels).value.0 == FieldTotal(vars, caps, l, data, labels) % TwoTo32
  {
    PackSpec((sv, s) => Contribution(s, sv, l, data, labels), vars, caps, l.line);
  }

  /** What encoding one line does: an unknown mnemonic produces no word and
      one error naming it; a known one produces exactly one word, the word
      0 with one error when the pattern does not match. */
  lemma EncodeLineSpec(l: Line, grammars: map<string, InstructionGrammar>, m: Matcher,
                       data: map<string, int>, labels: map<string, int>)
    requires EncodeLine(l, grammars, m, data, labels).Ok?
    ensures Mnemonic(l).Some?
    ensures var (words, errs) := EncodeLine(l, grammars, m, data, labels).value;
      var name := Mnemonic(l).value;
      && (name !in grammars ==> words == [] && errs == [Diagnostic(l.line, UnknownInstruction(name))])
      && (name in grammars ==> |words| == 1)
      && (name in grammars && m(grammars[name].regex, l.text[|name|..]).None? ==>
          words == [0] && errs == [Diagnostic(l.line, RegexMismatch(name))])
  {
    SplitShape(l.text);
  }

  /** One word per line with a known mnemonic, in order: the instruction
      memory has exactly as many words as such lines. */
  lemma {:induction false} EncodeAllCount(lines: seq<Line>, grammars: map<string, InstructionGrammar>, m: Matcher,
                                          data: map<string, int>, labels: map<string, int>)
    requires EncodeAll(lines, grammars, m, data, labels).Ok?
    ensures |EncodeAll(lines, grammars, m, data, labels).value.0| == KnownCount(lines, grammars)
    decreases |lines|
  {
    if lines != [] {
      EncodeLineSpec(lines[0], grammars, m, data, labels);
      EncodeAllCount(lines[1..], grammars, m, data, labels);
    }
  }

  /** The plain sum of `opCode << index` over the opcodes, without
      wrap-around. */
  function OpTotal(ops: seq<OpCode>): nat
    decreases |ops|
  {
    if ops == [] then 0 else Shl(ToWord(ops[0].opCode), ops[0].index) + OpTotal(ops[1..])
  }

  /** The opcode bits added in `int` arithmetic are their plain sum modulo
      2^32. */
  lemma {:induction false} OpBitsSum(ops: seq<OpCode>)
    ensures OpBits(ops) == OpTotal(ops) % TwoTo32
    decreases |ops|
  {
    if ops != [] {
      OpBitsSum(ops[1..]);
      AddMod(Shl(ToWord(ops[0].opCode), ops[0].index), OpBits(ops[1..]), OpTotal(ops[1..]));
    }
  }

  /** Two sums reduced modulo 2^32 and added as `int`s give their total
      reduced modulo 2^32. */
  lemma AddBothMod(a: nat, b: nat)
    ensures AddWord(a % TwoTo32, b % TwoTo32) == (a + b) % TwoTo32
  {
    var x, y := a % TwoTo32, b % TwoTo32;
    DivModUnique(a + b, TwoTo32, a / TwoTo32 + b / TwoTo32 + (x + y) / TwoTo32, (x + y) % TwoTo32);
  }

  /** The word of a line whose pattern matched with a group for every
      field: the plain sum of every field's bits and every `opCode <<
      index`, modulo 2^32, with the fields' errors. */
  lemma EncodedWord(l: Line, grammars: map<string, InstructionGrammar>, m: Matcher,
                    data: map<string, int>, labels: map<string, int>, caps: seq<string>)
    requires Mnemonic(l).Some? && Mnemonic(l).value in grammars
    requires var g := grammars[Mnemonic(l).value];
      m(g.regex, l.text[|Mnemonic(l).value|..]) == Some(caps) && |caps| >= |g.vars|
    ensures var g := grammars[Mnemonic(l).value];
      && EncodeFields(g.vars, caps, l, data, labels).Ok?
      && EncodeLine(l, grammars, m, data, labels) ==
        Ok(([(FieldTotal(g.vars, caps, l, data, labels) + OpTotal(g.opCodes)) % TwoTo32],
            EncodeFields(g.vars, caps, l, data, labels).value.1))
  {
    var g := grammars[Mnemonic(l).value];
    EncodeFieldsSum(g.vars, caps, l, data, labels);
    OpBitsSum(g.opCodes);
    AddBothMod(FieldTotal(g.vars, caps, l, data, labels), OpTotal(g.opCodes));
  }

  /** A numeric operand is packed into its field whether or not it fits:
      a value out of range only adds the range error, and one within range
      records nothing. */
  lemma NumericField(sv: SingleVar, s: string, l: Line, data: map<string, int>, labels: map<string, int>)
    requires Decode(s).Some?
    ensures var v := Decode(s).value;
      EncodeFields([sv], [s], l, data, labels) ==
        Ok((Field(v, sv), if RangeError(v, sv.numBits).None? then [] else [Diagnostic(l.line, RangeError(v, sv.numBits).value)]))
  {
    var value := OperandValue(s, sv, l.instructionLine, data, labels);
    assert value == (Decode(s).value, None);
    assert OperandErrors(l.line, value, sv.numBits) ==
      if RangeError(value.0, sv.numBits).None? then [] else [Diagnostic(l.line, RangeError(value.0, sv.numBits).value)];
    assert EncodeFields([sv][1..], [s][1..], l, data, labels) == Ok((0, []));
    assert AddWord(Field(value.0, sv), 0) == Field(value.0, sv);
    assert OperandErrors(l.line, value, sv.numBits) + [] == OperandErrors(l.line, value, sv.numBits);
  }

  /** A line with a single field and no opcodes, whose operand is a number
      that fits the field, encodes to one word whose field reads back that
      number, and records nothing. */
  lemma SingleFieldWord(l: Line, grammars: map<string, InstructionGrammar>,
                        m: Matcher, data: map<string, int>, labels: map<string, int>, s: string)
    requires Mnemonic(l).Some? && Mnemonic(l).value in grammars
    requires var g := grammars[Mnemonic(l).value];
      && |g.vars| == 1 && g.opCodes == []
      && m(g.regex, l.text[|Mnemonic(l).value|..]) == Some([s])
    requires Decode(s).Some?
    requires var sv := grammars[Mnemonic(l).value].vars[0];
      1 <= sv.numBits && 0 <= sv.index && sv.index + sv.numBits <= 32
    requires 0 <= Decode(s).value < Pow2(grammars[Mnemonic(l).value].vars[0].numBits)
    ensures EncodeLine(l, grammars, m, data, labels).Ok?
    ensures var r := EncodeLine(l, grammars, m, data, labels).value;
      var sv := grammars[Mnemonic(l).value].vars[0];
      && r.1 == []
      && |r.0| == 1
      && Bits(r.0[0], sv.index, sv.numBits) == Decode(s).value
  {
    SplitShape(l.text);
    var g := grammars[Mnemonic(l).value];
    var sv := g.vars[0];
    var v := Decode(s).value;
    RangeErrorSpec(v, sv.numBits);
    FieldReadBack(v, sv);
    NumericField(sv, s, l, data, labels);
    assert g.vars == [sv];
    assert EncodeLine(l, grammars, m, data, labels) == Ok(([AddWord(Field(v, sv), 0)], []));
  }
}
