/**
 Number literals as `Integer.decode` and `Integer.parseInt` read them, and
 the decimal text of an `int` (Java's `Integer.toString`). A `None` result
 is a `NumberFormatException`.
 */
module Literals {
  import opened Types
  import opened JavaInt

  /** The value of `c` as a digit of `radix` (2..36), as
      `Character.digit` gives it for ASCII characters. */
  function DigitValue(c: char, radix: nat): (r: Option<nat>)
    ensures r.Some? ==> r.value < radix
  {
    var d :=
      if '0' <= c <= '9' then c as int - '0' as int
      else if 'a' <= c <= 'z' then c as int - 'a' as int + 10
      else if 'A' <= c <= 'Z' then c as int - 'A' as int + 10
      else -1;
    if 0 <= d < radix then Some(d) else None
  }

  predicate AllDigits(s: string, radix: nat) {
    forall i :: 0 <= i < |s| ==> DigitValue(s[i], radix).Some?
  }

  /** The number the digits `s` spell in `radix`, most significant first. */
  function Value(s: string, radix: nat): nat
    requires AllDigits(s, radix)
  {
    if s == [] then 0
    else Value(s[..|s| - 1], radix) * radix + DigitValue(s[|s| - 1], radix).value
  }

  /** Integer.parseInt(s, radix) without the range check: an optional sign
      and at least one digit. */
  function SignedValue(s: string, radix: nat): (r: Option<int>)
    ensures r.Some? ==> s != []
  {
    if s == [] then None
    else
      var neg := s[0] == '-';
      var body := if s[0] == '-' || s[0] == '+' then s[1..] else s;
      if body != [] && AllDigits(body, radix) then
        Some(if neg then -(Value(body, radix) as int) else Value(body, radix))
      else
        None
  }

  /** `Integer.parseInt(s)`: an optional `+` or `-` and decimal digits, in
      the range of a Java `int`. */
  function ParseInt(s: string): (r: Option<int>)
    ensures r.Some? ==> IsInt32(r.value)
  {
    match SignedValue(s, 10)
    case Some(v) => if IsInt32(v) then Some(v) else None
    case None => None
  }

  /** The radix `Integer.decode` picks from the text after the sign, and the
      digits that follow the prefix: `0x`, `0X` and `#` select hexadecimal,
      a `0` with more after it octal, anything else decimal. */
  function RadixAndDigits(rest: string): (nat, string) {
    if |rest| >= 2 && rest[0] == '0' && (rest[1] == 'x' || rest[1] == 'X') then (16, rest[2..])
    else if |rest| >= 1 && rest[0] == '#' then (16, rest[1..])
    else if |rest| > 1 && rest[0] == '0' then (8, rest[1..])
    else (10, rest)
  }

  /** `Integer.decode(s)`: an optional sign, the radix prefix, then digits;
      a sign after the prefix is rejected, and the signed value must fit a
      Java `int`. */
  function Decode(s: string): (r: Option<int>)
    ensures r.Some? ==> IsInt32(r.value)
    ensures s == [] ==> r.None?
  {
    if s == [] then None
    else
      var neg := s[0] == '-';
      var rest := if s[0] == '-' || s[0] == '+' then s[1..] else s;
      var (radix, digits) := RadixAndDigits(rest);
      if digits != [] && (digits[0] == '-' || digits[0] == '+') then None
      else if digits != [] && AllDigits(digits, radix) then
        var v := if neg then -(Value(digits, radix) as int) else Value(digits, radix);
        if IsInt32(v) then Some(v) else None
      else None
  }

  function DigitChar(d: nat): (c: char)
    requires d < 10
    ensures DigitValue(c, 10) == Some(d)
  {
    ('0' as int + d) as char
  }

  /** The decimal digits of `n`, without leading zeros. */
  function ShowNat(n: nat): (s: string)
    ensures s != [] && AllDigits(s, 10)
    ensures n > 0 ==> s[0] != '0'
    ensures s[0] != '-' && s[0] != '+'
  {
    if n < 10 then [DigitChar(n)]
    else
      var s := ShowNat(n / 10) + [DigitChar(n % 10)];
      assert forall i :: 0 <= i < |s| - 1 ==> s[i] == ShowNat(n / 10)[i];
      s
  }

  /** `Integer.toString(v)`. */
  function ShowInt(v: int): string {
    if v < 0 then "-" + ShowNat(-v) else ShowNat(v)
  }

  /** The digits of `n` spell `n`. */
  lemma {:induction false} ValueOfShowNat(n: nat)
    ensures Value(ShowNat(n), 10) == n
  {
    var s := ShowNat(n);
    if n >= 10 {
      ValueOfShowNat(n / 10);
      assert s[..|s| - 1] == ShowNat(n / 10);
    }
  }

  /** `Integer.parseInt` reads back the decimal text of every `int`. */
  lemma ParseShowInt(v: int)
    requires IsInt32(v)
    ensures ParseInt(ShowInt(v)) == Some(v)
  {
    var s := ShowInt(v);
    if v < 0 {
      ValueOfShowNat(-v);
      assert s[1..] == ShowNat(-v);
    } else {
      ValueOfShowNat(v);
    }
  }

  /** `Integer.decode` reads back the decimal text of every `int`: a
      canonical decimal numeral never has the leading zero that would make
      it octal. */
  lemma DecodeShowInt(v: int)
    requires IsInt32(v)
    ensures Decode(ShowInt(v)) == Some(v)
  {
    var s := ShowInt(v);
    var n := if v < 0 then -v else v;
    ValueOfShowNat(n);
    var rest := if v < 0 then s[1..] else s;
    assert rest == ShowNat(n);
    assert RadixAndDigits(rest) == (10, rest) by {
      if n == 0 {
        assert rest == "0";
      } else {
        assert rest[0] != '0' && rest[0] != '#';
      }
    }
  }

  /** An operand that starts with a letter is never a number, so the encoder
      goes on to look it up as a symbol. */
  lemma DecodeRejectsNames(s: string)
    requires s != [] && ('a' <= s[0] <= 'z' || 'A' <= s[0] <= 'Z')
    ensures Decode(s) == None
  {
    assert RadixAndDigits(s) == (10, s);
    assert DigitValue(s[0], 10).None?;
  }

  /** A hexadecimal literal denotes the value of its digits, with either
      sign. */
  lemma DecodeHex(s: string, neg: bool)
    requires s != [] && AllDigits(s, 16)
    requires Value(s, 16) < TwoTo31
    ensures Decode((if neg then "-0x" else "0x") + s)
      == Some(if neg then -(Value(s, 16) as int) else Value(s, 16))
  {
    var rest := "0x" + s;
    assert rest[2..] == s;
    assert RadixAndDigits(rest) == (16, s);
    assert DigitValue(s[0], 16).Some?;
    if neg {
      assert ("-0x" + s) == "-" + rest;
      assert ("-" + rest)[1..] == rest;
    }
  }

  /** Octal: `010` is eight. */
  lemma DecodeOctalExample()
    ensures Decode("010") == Some(8)
    ensures Decode("08") == None
    ensures Decode("0x") == None
    ensures Decode("+-1") == None
  {
    assert RadixAndDigits("010") == (8, "10");
    assert Value("10", 8) == 8 by {
      assert "10"[..1] == "1";
    }
    assert RadixAndDigits("08") == (8, "8");
    assert DigitValue('8', 8).None?;
    assert RadixAndDigits("-1") == (10, "-1");
  }
}
