/**
 * The `f"{delta:.2f}"` rendering of the idle time passed to `active`
 * listeners, on exact reals, with a parser for the rendered text.
 */
module FixedPoint {
  import opened Base

  predicate IsDigit(c: char) {
    '0' <= c <= '9'
  }

  predicate AllDigits(s: string) {
    forall i :: 0 <= i < |s| ==> IsDigit(s[i])
  }

  function DigitChar(d: nat): (c: char)
    requires d < 10
    ensures IsDigit(c)
  {
    ('0' as int + d) as char
  }

  function DigitValue(c: char): (d: nat)
    requires IsDigit(c)
    ensures d < 10
  {
    c as int - '0' as int
  }

  /** The decimal numeral of `n`, without leading zeros. */
  function Numeral(n: nat): (s: string)
    ensures |s| > 0 && AllDigits(s)
    ensures s[0] == '0' <==> n == 0
    ensures n == 0 ==> s == "0"
    decreases n
  {
    if n < 10 then [DigitChar(n)] else Numeral(n / 10) + [DigitChar(n % 10)]
  }

  /** The value of a string of decimal digits. */
  function NumeralValue(s: string): nat
    requires AllDigits(s)
    decreases |s|
  {
    if |s| == 0 then 0
    else NumeralValue(s[..|s| - 1]) * 10 + DigitValue(s[|s| - 1])
  }

  lemma {:induction false} NumeralRoundTrip(n: nat)
    ensures NumeralValue(Numeral(n)) == n
    decreases n
  {
    if n >= 10 {
      NumeralRoundTrip(n / 10);
      var s := Numeral(n);
      assert s[..|s| - 1] == Numeral(n / 10);
    }
  }

  /**
   * The integer nearest to `x`, ties going to the even neighbour: the rule
   * Python's fixed-precision formatting applies to the exact value.
   */
  function RoundHalfEven(x: real): (n: int)
    ensures -0.5 <= x - n as real <= 0.5
    ensures (x - n as real == 0.5 || x - n as real == -0.5) ==> n % 2 == 0
    ensures x >= 0.0 ==> n >= 0
  {
    var f := x.Floor;
    var frac := x - f as real;
    if frac < 0.5 then f
    else if frac > 0.5 then f + 1
    else if f % 2 == 0 then f
    else f + 1
  }

  function Abs(x: real): real {
    if x < 0.0 then -x else x
  }

  /** The digits before the point in text shaped `[-]digits.dd`. */
  function WholePart(s: string): string
    requires |s| >= 4
  {
    if s[0] == '-' then s[1..|s| - 3] else s[..|s| - 3]
  }

  /**
   * `format(x, ".2f")`: a `-` for negative values (kept even when the
   * magnitude rounds to zero), the whole part without leading zeros, a point
   * and two decimals.
   */
  function Fixed2(x: real): (s: string)
    ensures |s| >= 4 && s[|s| - 3] == '.' && IsDigit(s[|s| - 2]) && IsDigit(s[|s| - 1])
    ensures s[0] == '-' <==> x < 0.0
    ensures x < 0.0 ==> AllDigits(s[1..|s| - 3])
    ensures x >= 0.0 ==> AllDigits(s[..|s| - 3])
    ensures |WholePart(s)| > 0 && (WholePart(s)[0] == '0' ==> WholePart(s) == "0")
  {
    var h: nat := RoundHalfEven(Abs(x) * 100.0);
    var cents := h % 100;
    var whole := Numeral(h / 100);
    var s := (if x < 0.0 then "-" else "") + whole + "." + [DigitChar(cents / 10), DigitChar(cents % 10)];
    assert IsDigit(whole[0]);
    assert x < 0.0 ==> s[1..|s| - 3] == whole;
    assert x >= 0.0 ==> s[..|s| - 3] == whole;
    assert WholePart(s) == whole;
    s
  }

  /** The unsigned value of text shaped `digits.dd`, if it is so shaped. */
  function ParseUnsigned(s: string): Option<real> {
    if |s| >= 4 && s[|s| - 3] == '.' && AllDigits(s[..|s| - 3]) && IsDigit(s[|s| - 2]) && IsDigit(s[|s| - 1]) then
      Some(NumeralValue(s[..|s| - 3]) as real + (DigitValue(s[|s| - 2]) * 10 + DigitValue(s[|s| - 1])) as real / 100.0)
    else None
  }

  /** The value of text shaped `[-]digits.dd`, if it is so shaped. */
  function ParseFixed2(s: string): Option<real> {
    if |s| > 0 && s[0] == '-' then
      match ParseUnsigned(s[1..])
      case None => None
      case Some(v) => Some(-v)
    else ParseUnsigned(s)
  }

  lemma UnsignedRoundTrip(h: nat)
    ensures ParseUnsigned(Numeral(h / 100) + "." + [DigitChar(h % 100 / 10), DigitChar(h % 100 % 10)]) == Some(h as real / 100.0)
  {
    var whole := Numeral(h / 100);
    var cents := h % 100;
    var s := whole + "." + [DigitChar(cents / 10), DigitChar(cents % 10)];
    assert s[..|s| - 3] == whole;
    NumeralRoundTrip(h / 100);
    assert DigitValue(s[|s| - 2]) * 10 + DigitValue(s[|s| - 1]) == cents;
    assert h == (h / 100) * 100 + cents;
  }

  /**
   * The rendered text always parses, to the magnitude rounded half-to-even
   * to hundredths with the sign of `x`, which is within half a hundredth of
   * `x`.
   */
  lemma Fixed2Denotes(x: real)
    ensures ParseFixed2(Fixed2(x)).Some?
    ensures ParseFixed2(Fixed2(x)).value ==
              (if x < 0.0 then -1.0 else 1.0) * RoundHalfEven(Abs(x) * 100.0) as real / 100.0
    ensures -0.005 <= ParseFixed2(Fixed2(x)).value - x <= 0.005
  {
    var h: nat := RoundHalfEven(Abs(x) * 100.0);
    var cents := h % 100;
    var body := Numeral(h / 100) + "." + [DigitChar(cents / 10), DigitChar(cents % 10)];
    UnsignedRoundTrip(h);
    if x < 0.0 {
      assert Fixed2(x) == "-" + body;
      assert ("-" + body)[1..] == body;
      assert IsDigit(body[0]);
    } else {
      assert Fixed2(x) == body;
      assert IsDigit(body[0]);
    }
  }
}
