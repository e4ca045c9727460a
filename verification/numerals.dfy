/**
 * Java's integer-to-text conversions used when naming storage objects:
 * `%d` of an `int` (decimal, with a leading '-' for negatives) and
 * `Integer.toHexString` (lower-case hexadecimal, no leading zeros).
 */
module Numerals {

  /** The character of digit `d` in bases up to 16, lower-case as Java prints it. */
  function DigitChar(d: nat): (c: char)
    requires d < 16
    ensures IsDigitOf(c, 16)
    ensures d < 10 <==> IsDigitOf(c, 10)
  {
    "0123456789abcdef"[d]
  }

  predicate IsDigitOf(c: char, base: nat)
  {
    ('0' <= c <= '9' && (c as int) - ('0' as int) < base) || ('a' <= c <= 'f' && (c as int) - ('a' as int) + 10 < base)
  }

  /** The numeral of `n` in `base`, most significant digit first, no leading zeros. */
  function Numeral(n: nat, base: nat): (s: string)
    requires 2 <= base <= 16
    ensures 1 <= |s|
    ensures forall i :: 0 <= i < |s| ==> IsDigitOf(s[i], base)
    ensures n < base <==> |s| == 1
  {
    if n < base then [DigitChar(n)]
    else
      DivStep(n, base);
      Numeral(n / base, base) + [DigitChar(n % base)]
  }

  lemma DivStep(n: nat, base: nat)
    requires 2 <= base <= n
    ensures 1 <= n / base < n && n % base < base
  {
  }

  /** Java's `String.format("%d", c)` in a locale whose digits are the ASCII ones. */
  function Decimal(c: int): (s: string)
    ensures 1 <= |s|
    ensures s[0] == '-' <==> c < 0
    ensures forall i :: 0 < i < |s| ==> IsDigitOf(s[i], 10)
  {
    if c < 0 then "-" + Numeral(-c, 10) else Numeral(c, 10)
  }

  /** Java's `Integer.toHexString` of an int, given as its unsigned 32-bit value. */
  function Hex(u: nat): (s: string)
    requires u < 0x1_0000_0000
    ensures 1 <= |s| && forall i :: 0 <= i < |s| ==> IsDigitOf(s[i], 16)
  {
    Numeral(u, 16)
  }

  lemma DigitCharInjective(a: nat, b: nat)
    requires a < 16 && b < 16 && DigitChar(a) == DigitChar(b)
    ensures a == b
  {
  }

  /** Distinct naturals have distinct decimal numerals. */
  lemma {:induction false} DigitsInjective(a: nat, b: nat)
    requires Numeral(a, 10) == Numeral(b, 10)
    ensures a == b
  {
    if a < 10 && b < 10 {
      DigitCharInjective(a, b);
    } else if a >= 10 && b >= 10 {
      SnocInjective(Numeral(a / 10, 10), Numeral(b / 10, 10), DigitChar(a % 10), DigitChar(b % 10));
      DigitCharInjective(a % 10, b % 10);
      DigitsInjective(a / 10, b / 10);
    }
  }

  lemma SnocInjective(p: string, q: string, x: char, y: char)
    requires p + [x] == q + [y]
    ensures p == q && x == y
  {
    assert p == (p + [x])[..|p|];
    assert q == (q + [y])[..|q|];
  }

  /** Distinct ints print differently under `%d`. */
  lemma DecimalInjective(a: int, b: int)
    requires Decimal(a) == Decimal(b)
    ensures a == b
  {
    if a < 0 && b < 0 {
      var u, v := Numeral(-a, 10), Numeral(-b, 10);
      assert Decimal(a) == "-" + u && Decimal(b) == "-" + v;
      assert u == ("-" + u)[1..] && v == ("-" + v)[1..];
      DigitsInjective(-a, -b);
    } else if a >= 0 && b >= 0 {
      assert Decimal(a) == Numeral(a, 10) && Decimal(b) == Numeral(b, 10);
      DigitsInjective(a, b);
    }
  }
}
