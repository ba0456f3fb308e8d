/**
 Java integer arithmetic as the encoder uses it: 32-bit words seen as
 unsigned values, truncating division, the recursive `pow` helper, bitwise
 AND, left shift and wrap-around addition.
 */
module JavaInt {

  const TwoTo31: int := 0x8000_0000
  const TwoTo32: int := 0x1_0000_0000
  const TwoTo63: int := 0x8000_0000_0000_0000
  const TwoTo64: int := 0x1_0000_0000_0000_0000

  /** The values of a Java `int`. */
  predicate IsInt32(v: int) {
    -TwoTo31 <= v < TwoTo31
  }

  /** The values of a Java `long`. */
  predicate IsInt64(v: int) {
    -TwoTo63 <= v < TwoTo63
  }

  /** The 32 bits of a Java `int`, read as an unsigned number. */
  type Word = x: int | 0 <= x < TwoTo32

  function Pow2(n: nat): (r: nat)
    ensures r >= 1
  {
    if n == 0 then 1 else 2 * Pow2(n - 1)
  }

  function Abs(x: int): nat {
    if x < 0 then -x else x
  }

  /** Java's `/` for a positive divisor: the quotient rounded toward zero. */
  function JavaDiv(a: int, b: int): int
    requires b > 0
  {
    if a >= 0 then a / b else -((-a) / b)
  }

  /** Java's `%` for a positive divisor: the remainder has the sign of `a`. */
  function JavaRem(a: int, b: int): int
    requires b > 0
  {
    a - b * JavaDiv(a, b)
  }

  /** A Java `long` result: the value modulo 2^64, read as two's
      complement. */
  function ToLong(v: int): (r: int)
    ensures IsInt64(r)
    ensures IsInt64(v) ==> r == v
  {
    var u := v % TwoTo64;
    if u < TwoTo63 then u else u - TwoTo64
  }

  /** The source's `pow(long a, int b)`: square-and-multiply on `b / 2`,
      written with Java's truncating `/` and `%`, every product wrapping as
      a `long` does. */
  function Pow(a: int, b: int): int
    decreases Abs(b)
  {
    if b == 0 then 1
    else if b == 1 then a
    else if JavaRem(b, 2) == 0 then Pow(ToLong(a * a), JavaDiv(b, 2))
    else ToLong(a * Pow(ToLong(a * a), JavaDiv(b, 2)))
  }

  /** `pow(2^k, b)` is 2^(k|b|) while that stays below 2^63: a negative
      exponent behaves like its absolute value, because `b % 2` and `b / 2`
      truncate toward zero, and no product overflows. */
  lemma {:induction false} PowOfPow2(k: nat, b: int, n: nat)
    requires n == k * Abs(b) && n <= 62
    ensures Pow(Pow2(k), b) == Pow2(n)
    decreases Abs(b)
  {
    if b != 0 && b != 1 {
      var h := JavaDiv(b, 2);
      var m := Abs(h);
      var odd := JavaRem(b, 2) != 0;
      HalveExponent(b);
      if m == 0 {
        assert b == -1 && n == k;
        assert Pow(Pow2(k), b) == ToLong(Pow2(k) * Pow(ToLong(Pow2(k) * Pow2(k)), 0));
        assert ToLong(Pow2(k)) == Pow2(k) by {
          Pow2Monotone(k, 62);
          Pow2Of63();
        }
      } else {
        var n2 := 2 * (k * m);
        HalveProduct(k, m, odd, n);
        assert ToLong(Pow2(k) * Pow2(k)) == Pow2(2 * k) by {
          Pow2Times(k, k);
        }
        PowOfPow2(2 * k, h, n2);
        if odd {
          Pow2Times(k, n2);
        }
      }
    }
  }

  /** Halving an exponent with Java's `/` and `%` loses only its low bit. */
  lemma HalveExponent(b: int)
    ensures Abs(b) == 2 * Abs(JavaDiv(b, 2)) + (if JavaRem(b, 2) != 0 then 1 else 0)
  {
  }

  lemma HalveProduct(k: nat, m: nat, odd: bool, n: nat)
    requires m >= 1
    requires n == k * (2 * m + (if odd then 1 else 0))
    ensures (2 * k) * m == 2 * (k * m)
    ensures n == 2 * (k * m) + (if odd then k else 0)
    ensures 2 * k <= 2 * (k * m)
  {
    MulSign(m, k);
  }

  /** A product of two powers of two that stays below 2^63 does not wrap. */
  lemma Pow2Times(i: nat, j: nat)
    requires i + j <= 62
    ensures ToLong(Pow2(i) * Pow2(j)) == Pow2(i + j)
  {
    Pow2Add(i, j);
    Pow2Monotone(i + j, 62);
    Pow2Of63();
  }

  /** `pow(2, b) == pow(2, -b) == 2^|b|` for every exponent up to 62. */
  lemma PowTwo(b: int)
    requires Abs(b) <= 62
    ensures Pow(2, b) == Pow2(Abs(b))
    ensures Pow(2, -b) == Pow(2, b)
  {
    PowOfPow2(1, b, Abs(b));
    PowOfPow2(1, -b, Abs(b));
  }

  lemma {:induction false} Pow2Add(a: nat, b: nat)
    ensures Pow2(a + b) == Pow2(a) * Pow2(b)
  {
    if a > 0 {
      Pow2Add(a - 1, b);
    }
  }

  lemma {:induction false} Pow2Monotone(a: nat, b: nat)
    requires a <= b
    ensures Pow2(a) <= Pow2(b)
  {
    if a < b {
      Pow2Monotone(a, b - 1);
    }
  }

  lemma Pow2Of63()
    ensures Pow2(63) == TwoTo63
  {
    Pow2Of32();
    Pow2Add(32, 31);
  }

  lemma Pow2Of32()
    ensures Pow2(32) == TwoTo32
    ensures Pow2(31) == TwoTo31
  {
    assert Pow2(8) == 256;
    assert Pow2(16) == 65536 by {
      Pow2Add(8, 8);
    }
    assert Pow2(31) == TwoTo31 by {
      Pow2Add(16, 15);
      Pow2Add(8, 7);
    }
  }

  /** The bits of a Java `int`: the value modulo 2^32. */
  function ToWord(v: int): (w: Word)
    ensures IsInt32(v) ==> ToInt32(w) == v
    ensures 0 <= v < TwoTo32 ==> w == v
  {
    v % TwoTo32
  }

  /** The Java `int` whose bits are `w`. */
  function ToInt32(w: Word): (v: int)
    ensures IsInt32(v)
  {
    if w < TwoTo31 then w else w - TwoTo32
  }

  /** `a & b` on non-negative numbers, bit by bit. */
  function BitAnd(a: nat, b: nat): (r: nat)
    ensures r <= a && r <= b
  {
    if a == 0 || b == 0 then 0
    else 2 * BitAnd(a / 2, b / 2) + (if a % 2 == 1 && b % 2 == 1 then 1 else 0)
  }

  /** The sign of a product with a positive factor, in steps of `m`. */
  lemma {:induction false} MulSign(m: int, d: int)
    requires m > 0
    ensures d >= 1 ==> m * d >= m
    ensures d <= -1 ==> m * d <= -m
    ensures d == 0 ==> m * d == 0
    decreases Abs(d)
  {
    if d > 1 {
      MulSign(m, d - 1);
      assert m * d == m * (d - 1) + m;
    } else if d < -1 {
      MulSign(m, d + 1);
      assert m * d == m * (d + 1) - m;
    }
  }

  /** Quotient and remainder are the unique pair with `x == m * q + r`. */
  lemma DivModUnique(x: int, m: int, q: int, r: int)
    requires m > 0 && 0 <= r < m && x == m * q + r
    ensures x / m == q && x % m == r
  {
    var q0, r0 := x / m, x % m;
    assert x == m * q0 + r0;
    MulSign(m, q - q0);
    assert m * (q - q0) == r0 - r;
  }

  lemma DivModTwo(x: nat, m: nat)
    requires m >= 1
    ensures 2 * ((x / 2) % m) + x % 2 == x % (2 * m)
  {
    var a, b := x / 2, x % 2;
    var q, r := a / m, a % m;
    assert a == m * q + r;
    assert x == 2 * a + b;
    assert 2 * (m * q) == (2 * m) * q;
    DivModUnique(x, 2 * m, q, 2 * r + b);
  }

  /** ANDing with a mask of `w` one bits keeps the low `w` bits. */
  lemma {:induction false} AndLowMask(w: nat, x: nat)
    ensures BitAnd(Pow2(w) - 1, x) == x % Pow2(w)
  {
    if w > 0 && x > 0 {
      var h := Pow2(w - 1);
      var m := Pow2(w) - 1;
      assert m / 2 == h - 1 && m % 2 == 1 by {
        DivModUnique(m, 2, h - 1, 1);
      }
      assert BitAnd(m, x) == 2 * BitAnd(h - 1, x / 2) + x % 2;
      assert BitAnd(h - 1, x / 2) == (x / 2) % h by {
        AndLowMask(w - 1, x / 2);
      }
      DivModTwo(x, h);
    } else if w == 0 {
      DivModUnique(x, 1, x, 0);
    } else {
      DivModUnique(0, Pow2(w), 0, 0);
    }
  }

  /** `x << i` on a Java `int`, for a shift count below 32. */
  function ShiftLeft(x: Word, i: nat): Word
    requires i < 32
  {
    (x * Pow2(i)) % TwoTo32
  }

  /** `x << n` for any `int` count: Java uses only the count's low five
      bits, which is `n` modulo 32 for negative counts too. */
  function Shl(x: Word, n: int): Word {
    ShiftLeft(x, n % 32)
  }

  /** The `int` result of Java `int` arithmetic on `v`. */
  function Wrap32(v: int): (r: int)
    ensures IsInt32(r)
    ensures IsInt32(v) ==> r == v
  {
    ToInt32(ToWord(v))
  }

  /** Java `int` addition: the sum wraps around modulo 2^32. */
  function AddWord(a: Word, b: Word): (r: Word)
    ensures r == (a + b) % TwoTo32
  {
    if a + b < TwoTo32 then a + b else a + b - TwoTo32
  }

  /** The `w` bits of `x` starting at bit `lo`. */
  function Bits(x: int, lo: nat, w: nat): int {
    (x / Pow2(lo)) % Pow2(w)
  }

  /** A `w`-bit field read as two's complement. */
  function Signed(f: int, w: nat): int
    requires w >= 1
  {
    if f < Pow2(w - 1) then f else f - Pow2(w)
  }

  /** A value below 2^w shifted left by `i` reads back from bits
      [i, i + w) when the field fits the word. */
  lemma ShiftReadBack(f: nat, i: nat, w: nat)
    requires i < 32 && i + w <= 32
    requires f < Pow2(w)
    requires f < TwoTo32
    ensures Bits(ShiftLeft(f, i), i, w) == f
  {
    assert Pow2(w) * Pow2(i) <= TwoTo32 by {
      Pow2Add(w, i);
      Pow2Monotone(w + i, 32);
      Pow2Of32();
    }
    ScaleBack(f, Pow2(i), Pow2(w), TwoTo32);
  }

  lemma ScaleBack(f: nat, p: nat, q: nat, n: nat)
    requires 1 <= p && f < q && q * p <= n
    ensures (((f * p) % n) / p) % q == f
  {
    var y := f * p;
    assert y < n by {
      MulSign(p, q - f);
      assert p * (q - f) == q * p - y;
    }
    DivModUnique(y, n, 0, y);
    DivModUnique(y, p, f, 0);
    DivModUnique(f, q, 0, f);
  }

  /** Reducing modulo 2^32 first does not change the low `w <= 32` bits. */
  lemma LowBitsOfWord(v: int, w: nat)
    requires w <= 32
    ensures ToWord(v) % Pow2(w) == v % Pow2(w)
  {
    assert TwoTo32 == Pow2(w) * Pow2(32 - w) by {
      Pow2Add(w, 32 - w);
      Pow2Of32();
    }
    ModOfMod(v, Pow2(w), Pow2(32 - w));
  }

  lemma ModOfMod(v: int, p: nat, k: nat)
    requires p >= 1 && k >= 1
    ensures (v % (p * k)) % p == v % p
  {
    MulSign(p, k);
    var n := p * k;
    var u := v % n;
    var bigQ := v / n;
    assert v == n * bigQ + u;
    var q1, r1 := u / p, u % p;
    assert u == p * q1 + r1;
    assert n * bigQ == p * (k * bigQ);
    assert v == p * (k * bigQ + q1) + r1;
    DivModUnique(v, p, k * bigQ + q1, r1);
  }

  /** Within its range, a value reads back from its low `w` bits: as itself
      when unsigned, as two's complement when signed. */
  lemma LowBitsReadBack(v: int, w: nat, signed: bool)
    requires 1 <= w <= 32
    requires !signed ==> 0 <= v < Pow2(w)
    requires signed ==> 0 <= v + Pow2(w - 1) && v < Pow2(w - 1)
    ensures !signed ==> ToWord(v) % Pow2(w) == v
    ensures signed ==> Signed(ToWord(v) % Pow2(w), w) == v
  {
    var p := Pow2(w);
    LowBitsOfWord(v, w);
    assert p == 2 * Pow2(w - 1);
    if v < 0 {
      DivModUnique(v, p, -1, v + p);
    } else {
      DivModUnique(v, p, 0, v);
    }
  }
}
