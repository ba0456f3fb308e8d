/**
 The data model shared by every stage of the assembler: source lines, the
 instruction-set descriptor (instruction and macro grammars), diagnostics,
 the reasons a run aborts, and the result of one run.
 */
module Types {

  datatype Option<+T> = None | Some(value: T)

  /** A source line. `line` is the 1-based number in the original input,
      `text` the current text, and `instructionLine` the dense index the
      line receives after macro expansion (0 until then). */
  datatype Line = Line(line: int, text: string, instructionLine: int)

  /** Source line numbers that never decrease along `ls`. */
  predicate Sorted(ls: seq<Line>) {
    forall j, k :: 0 <= j < k < |ls| ==> ls[j].line <= ls[k].line
  }

  /** Source line numbers strictly increase along `ls`. */
  predicate Increasing(ls: seq<Line>) {
    forall j, k :: 0 <= j < k < |ls| ==> ls[j].line < ls[k].line
  }

  /** Strictly increasing line numbers are in order, and a line number
      occurs at most once. */
  lemma IncreasingSorted(ls: seq<Line>)
    requires Increasing(ls)
    ensures Sorted(ls)
    ensures forall j, k :: 0 <= j < |ls| && 0 <= k < |ls| && ls[j].line == ls[k].line ==> j == k
  {
  }

  /** One operand field. A non-negative `numBits` is an unsigned field of that
      width; a negative one is a signed (two's complement) field of width
      `-numBits`. `index` is the bit position of the field's least significant
      bit; `isBranch` makes a symbolic operand relative to the next instruction. */
  datatype SingleVar = SingleVar(numBits: int, index: int, isBranch: bool)

  /** A constant bit pattern placed at `index` in every word of a grammar. */
  datatype OpCode = OpCode(opCode: int, index: int)

  /** The grammar of a real instruction: capture group i+1 of `regex` is the
      text of operand field `vars[i]`. */
  datatype InstructionGrammar =
    InstructionGrammar(name: string, regex: string, vars: seq<SingleVar>, opCodes: seq<OpCode>)

  /** The grammar of a pseudo-instruction: each of `results` is one line of
      real instruction text with `%N` standing for capture group N. */
  datatype MacroGrammar = MacroGrammar(name: string, regex: string, results: seq<string>)

  /** The instruction set: grammars keyed by mnemonic. */
  datatype Isa = Isa(instructions: map<string, InstructionGrammar>, macros: map<string, MacroGrammar>)

  /** The regular-expression engine, left abstract: `m(regex, text)` is the
      list of capture groups of the first match of `regex` in `text`, or None
      when `regex` occurs nowhere in `text`. */
  type Matcher = (string, string) -> Option<seq<string>>

  /** The recoverable errors: each is appended to the error list and the run
      goes on. */
  datatype ErrorKind =
    | NotValidDataFormat
    | UnrecognizedDataType
    | InvalidVarName
    | ExpansionFailed
    | UnknownInstruction(name: string)
    | NotFoundInData(operand: string)
    | ExceedsMax(value: int, max: int)
    | NegativeUnsigned(value: int)
    | BelowMin(value: int, min: int)
    | RegexMismatch(name: string)

  /** An entry of the error list: the source line it is about and what went wrong. */
  datatype Diagnostic = Diagnostic(line: int, kind: ErrorKind)

  /** The Java exceptions that escape `process` uncaught. */
  datatype Exception = IndexOutOfBounds | NumberFormat

  /** Why a run aborted: the messages thrown through `report`, the
      exceptions the code does not catch (with the line being processed), and
      a placeholder substitution that never finishes. */
  datatype Abort =
    | NoInstructionsProvided
    | DuplicateText(line: int)
    | DuplicateData(line: int)
    | NoDataSection
    | NoTextSection
    | MustBeginWithMarker(line: int)
    | NoInstructionsFound
    | Uncaught(line: int, cause: Exception)
    | Diverges(line: int)

  /** The value of a stage that may abort the run; usable with `:-`. */
  datatype Result<+T> = Ok(value: T) | Crash(abort: Abort) {

    predicate IsFailure() {
      Crash?
    }

    function PropagateFailure<U>(): Result<U>
      requires Crash?
    {
      Crash(abort)
    }

    function Extract(): T
      requires Ok?
    {
      value
    }
  }

  /** The result of one run of the assembler.
      - Fatal: an exception left `process`, or it never returns; nothing
        else is observable.
      - Stopped: `process` returned false early (an invalid data variable
        name); no instruction was encoded.
      - Done: every stage ran; `binary` and `data` are the instruction and
        data memories, and the run succeeded iff `errors` is empty. */
  datatype Outcome =
    | Fatal(abort: Abort)
    | Stopped(errors: seq<Diagnostic>, data: seq<int>)
    | Done(errors: seq<Diagnostic>, binary: seq<string>, data: seq<int>)
}
