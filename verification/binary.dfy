/**
 The text form of a memory word: `Integer.toBinaryString`, left-padded with
 spaces to 32 characters by `String.format("%32s", …)`, after which every
 space is replaced by `0`.
 */
module Binary {
  import opened JavaInt

  predicate IsBitString(s: string) {
    forall i :: 0 <= i < |s| ==> s[i] == '0' || s[i] == '1'
  }

  function BitChar(b: nat): char
    requires b < 2
  {
    if b == 0 then '0' else '1'
  }

  /** The binary digits of `n`, without leading zeros (`"0"` for zero). */
  function BinaryDigits(n: nat): (s: string)
    ensures s != [] && IsBitString(s)
    ensures n > 0 ==> s[0] == '1'
  {
    if n < 2 then [BitChar(n)]
    else
      var s := BinaryDigits(n / 2) + [BitChar(n % 2)];
      assert forall i :: 0 <= i < |s| - 1 ==> s[i] == BinaryDigits(n / 2)[i];
      s
  }

  /** `Integer.toBinaryString(i)`: the digits of the unsigned 32-bit view. */
  function ToBinaryString(w: Word): string {
    BinaryDigits(w)
  }

  function Repeat(c: char, n: nat): (s: string)
    ensures |s| == n && forall i :: 0 <= i < n ==> s[i] == c
  {
    if n == 0 then [] else [c] + Repeat(c, n - 1)
  }

  /** `String.format("%" + width + "s", s)`: right-justified in `width`
      columns, never cut. */
  function FormatWidth(s: string, width: nat): string {
    if |s| < width then Repeat(' ', width - |s|) + s else s
  }

  /** `s.replaceAll(" ", "0")`. */
  function SpacesToZeros(s: string): (r: string)
    ensures |r| == |s|
    ensures forall i :: 0 <= i < |s| ==> r[i] == (if s[i] == ' ' then '0' else s[i])
  {
    if s == [] then [] else [if s[0] == ' ' then '0' else s[0]] + SpacesToZeros(s[1..])
  }

  /** The 32-character rendering of a Java `int`, as both the instruction
      and the data memory are printed. */
  function Render(v: int): string {
    SpacesToZeros(FormatWidth(ToBinaryString(ToWord(v)), 32))
  }

  /** The number a string of binary digits spells, most significant first. */
  function BinaryValue(s: string): nat
    requires IsBitString(s)
  {
    if s == [] then 0
    else 2 * BinaryValue(s[..|s| - 1]) + (if s[|s| - 1] == '1' then 1 else 0)
  }

  lemma {:induction false} BinaryDigitsValue(n: nat)
    ensures BinaryValue(BinaryDigits(n)) == n
  {
    if n >= 2 {
      var s := BinaryDigits(n);
      BinaryDigitsValue(n / 2);
      assert s[..|s| - 1] == BinaryDigits(n / 2);
    }
  }

  /** A number below 2^k has at most `k` binary digits. */
  lemma {:induction false} BinaryDigitsLength(n: nat, k: nat)
    requires n < Pow2(k)
    ensures |BinaryDigits(n)| <= k || (n == 0 && k == 0)
  {
    if n >= 2 {
      BinaryDigitsLength(n / 2, k - 1);
    }
  }

  /** Leading zeros do not change the value. */
  lemma {:induction false} LeadingZeros(z: nat, s: string)
    requires IsBitString(s)
    ensures IsBitString(Repeat('0', z) + s)
    ensures BinaryValue(Repeat('0', z) + s) == BinaryValue(s)
    decreases |s|
  {
    var t := Repeat('0', z) + s;
    if s == [] {
      assert t == Repeat('0', z);
      AllZeros(z);
    } else {
      LeadingZeros(z, s[..|s| - 1]);
      assert t[..|t| - 1] == Repeat('0', z) + s[..|s| - 1];
    }
  }

  lemma {:induction false} AllZeros(z: nat)
    ensures BinaryValue(Repeat('0', z)) == 0
  {
    if z > 0 {
      AllZeros(z - 1);
      assert Repeat('0', z)[..z - 1] == Repeat('0', z - 1);
    }
  }

  /** The rendering is the binary digits behind enough zeros to make 32
      characters. */
  lemma RenderShape(v: int)
    ensures var d := ToBinaryString(ToWord(v));
      |d| <= 32 && Render(v) == Repeat('0', 32 - |d|) + d
  {
    var w := ToWord(v);
    var d := ToBinaryString(w);
    assert |d| <= 32 by {
      Pow2Of32();
      BinaryDigitsLength(w, 32);
    }
    var z := 32 - |d|;
    assert FormatWidth(d, 32) == Repeat(' ', z) + d;
    ZerosForSpaces(z, d);
  }

  lemma ZerosForSpaces(z: nat, d: string)
    requires IsBitString(d)
    ensures SpacesToZeros(Repeat(' ', z) + d) == Repeat('0', z) + d
  {
    var r := SpacesToZeros(Repeat(' ', z) + d);
    assert forall i :: 0 <= i < |r| ==> r[i] == (Repeat('0', z) + d)[i];
  }

  /** Every rendered word is 32 characters over `0` and `1`, and it spells
      the word's unsigned value; read as two's complement it gives back the
      Java `int`. */
  lemma RenderSpec(v: int)
    ensures |Render(v)| == 32 && IsBitString(Render(v))
    ensures BinaryValue(Render(v)) == ToWord(v)
    ensures IsInt32(v) ==> ToInt32(BinaryValue(Render(v))) == v
  {
    var d := ToBinaryString(ToWord(v));
    RenderShape(v);
    BinaryDigitsValue(ToWord(v));
    LeadingZeros(32 - |d|, d);
  }

  /** Two `int`s render alike only when they are equal. */
  lemma RenderInjective(a: int, b: int)
    requires IsInt32(a) && IsInt32(b)
    requires Render(a) == Render(b)
    ensures a == b
  {
    RenderSpec(a);
    RenderSpec(b);
  }

  /** Zero is 32 zeros and minus one is 32 ones. */
  lemma RenderExamples()
    ensures Render(0) == Repeat('0', 32)
    ensures Render(-1) == Repeat('1', 32)
  {
    RenderShape(0);
    assert ToBinaryString(ToWord(0)) == "0";
    RepeatSnoc('0', 31);
    RenderShape(-1);
    Pow2Of32();
    OnesDigits(32);
    assert ToWord(-1) == Pow2(32) - 1;
  }

  lemma {:induction false} OnesDigits(k: nat)
    requires k >= 1
    ensures BinaryDigits(Pow2(k) - 1) == Repeat('1', k)
  {
    if k > 1 {
      OnesDigits(k - 1);
      var n := Pow2(k) - 1;
      assert n / 2 == Pow2(k - 1) - 1 && n % 2 == 1;
      assert Repeat('1', k) == Repeat('1', k - 1) + ['1'] by {
        RepeatSnoc('1', k - 1);
      }
    }
  }

  lemma {:induction false} RepeatSnoc(c: char, n: nat)
    ensures Repeat(c, n + 1) == Repeat(c, n) + [c]
  {
    if n > 0 {
      RepeatSnoc(c, n - 1);
    }
  }
}
