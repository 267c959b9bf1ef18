/**
 * The two ways the storefront turns text into numbers: JavaScript's `Number(s)`,
 * restricted to plain decimal literals, and `parseInt(s, 10)`, which reads the
 * longest signed digit prefix. `None` stands for JavaScript's `NaN`.
 */
module Numeric {
  import opened Wrappers
  import Text

  predicate IsDigit(c: char)
  {
    '0' <= c <= '9'
  }

  predicate AllDigits(s: string)
  {
    forall i :: 0 <= i < |s| ==> IsDigit(s[i])
  }

  function DigitValue(c: char): int
    requires IsDigit(c)
  {
    c as int - '0' as int
  }

  function Pow10(k: nat): (r: nat)
    ensures r >= 1
  {
    if k == 0 then 1 else 10 * Pow10(k - 1)
  }

  /** The value of a string of decimal digits, most significant digit first. */
  function DigitsValue(s: string): (n: nat)
    requires AllDigits(s)
    ensures n < Pow10(|s|)
  {
    if s == [] then 0 else DigitsValue(s[..|s| - 1]) * 10 + DigitValue(s[|s| - 1])
  }

  /** The length of the longest prefix of `s` made of digits. */
  function DigitRun(s: string): (k: nat)
    ensures k <= |s| && AllDigits(s[..k]) && (k == |s| || !IsDigit(s[k]))
  {
    if s != [] && IsDigit(s[0]) then
      var k := 1 + DigitRun(s[1..]);
      assert s[..k] == [s[0]] + s[1..][..k - 1];
      k
    else
      0
  }

  lemma DigitRunOf(d: string, rest: string)
    requires AllDigits(d)
    requires rest == [] || !IsDigit(rest[0])
    ensures DigitRun(d + rest) == |d| && (d + rest)[..|d|] == d
  {
  }

  lemma TwoDigits(c: char, d: char)
    requires IsDigit(c) && IsDigit(d)
    ensures DigitsValue([c, d]) == 10 * DigitValue(c) + DigitValue(d) && Pow10(2) == 100
  {
    assert [c, d][..1] == [c] && [c][..0] == [];
  }

  /** The digits after a decimal point, as a fraction: never negative and less than 1. */
  function Fraction(f: string): (r: real)
    requires AllDigits(f)
    ensures 0.0 <= r < 1.0
  {
    var n, d := DigitsValue(f) as real, Pow10(|f|) as real;
    BelowOne(n, d);
    n / d
  }

  lemma BelowOne(n: real, d: real)
    requires 0.0 <= n < d
    ensures 0.0 <= n / d < 1.0
  {
    assert n / d * d == n;
  }

  /**
   * An unsigned decimal literal: digits, optionally followed by a point and more
   * digits, with at least one digit in all ("12", "12.", "12.50", ".5").
   */
  function UnsignedDecimal(u: string): Option<real>
  {
    var k := DigitRun(u);
    if k == |u| then
      if k == 0 then None else Some(DigitsValue(u) as real)
    else if u[k] == '.' && AllDigits(u[k + 1..]) && (k > 0 || k + 1 < |u|) then
      Some(DigitsValue(u[..k]) as real + Fraction(u[k + 1..]))
    else
      None
  }

  function Negate(x: Option<real>): Option<real>
  {
    match x
    case None => None
    case Some(v) => Some(-v)
  }

  /**
   * `Number(s)`: white space around the literal is ignored, the empty string is 0,
   * an optional sign precedes an unsigned decimal literal, anything else is NaN.
   */
  function NumberOf(s: string): Option<real>
  {
    var t := Text.Trim(s);
    if t == [] then Some(0.0)
    else if t[0] == '-' then Negate(UnsignedDecimal(t[1..]))
    else if t[0] == '+' then UnsignedDecimal(t[1..])
    else UnsignedDecimal(t)
  }

  lemma DigitsNotSpace(d: string)
    requires AllDigits(d)
    ensures d == [] || (!Text.IsSpace(d[0]) && !Text.IsSpace(d[|d| - 1]))
  {
  }

  lemma TrimOfDigits(d: string)
    requires AllDigits(d)
    ensures Text.Trim(d) == d
  {
    DigitsNotSpace(d);
    Text.TrimOfPadded([], d, []);
    assert [] + d + [] == d;
  }

  /** A string of digits reads as its decimal value. */
  lemma NumberOfDigits(d: string)
    requires d != [] && AllDigits(d)
    ensures NumberOf(d) == Some(DigitsValue(d) as real)
  {
    DigitsNotSpace(d);
    NumberOfUnsigned(d);
    UnsignedDigits(d);
  }

  lemma {:induction false} UnsignedPointed(a: string, b: string)
    requires AllDigits(a) && AllDigits(b) && |a| + |b| > 0
    ensures UnsignedDecimal(a + "." + b) == Some(DigitsValue(a) as real + Fraction(b))
  {
    var s := a + "." + b;
    assert s == a + ("." + b);
    DigitRunOf(a, "." + b);
    assert s[|a|] == '.' && s[..|a|] == a && s[|a| + 1..] == b;
  }

  lemma NumberOfUnsigned(s: string)
    requires s != [] && s[0] != '-' && s[0] != '+'
    requires !Text.IsSpace(s[0]) && !Text.IsSpace(s[|s| - 1])
    ensures NumberOf(s) == UnsignedDecimal(s)
  {
    Text.TrimOfPadded([], s, []);
    assert [] + s + [] == s;
  }

  /** Digits, a point and digits read as the whole part plus the fraction. */
  lemma NumberOfPointed(a: string, b: string)
    requires AllDigits(a) && AllDigits(b) && |a| + |b| > 0
    ensures NumberOf(a + "." + b) == Some(DigitsValue(a) as real + Fraction(b))
  {
    PointedEnds(a, b);
    NumberOfUnsigned(a + "." + b);
    UnsignedPointed(a, b);
  }

  lemma PointedEnds(a: string, b: string)
    requires AllDigits(a) && AllDigits(b)
    ensures var s := a + "." + b;
      s != [] && s[0] != '-' && s[0] != '+' && !Text.IsSpace(s[0]) && !Text.IsSpace(s[|s| - 1])
  {
    var s := a + "." + b;
    var first, last := s[0], s[|s| - 1];
    assert first == '.' || IsDigit(first) by {
      if a != [] { assert first == a[0]; }
    }
    assert last == '.' || IsDigit(last) by {
      if b != [] { assert last == b[|b| - 1]; }
    }
  }

  lemma UnsignedDigits(d: string)
    requires d != [] && AllDigits(d)
    ensures UnsignedDecimal(d) == Some(DigitsValue(d) as real)
  {
    DigitRunOf(d, []);
    assert d + [] == d;
  }

  lemma TrimOfNegative(d: string)
    requires d != [] && AllDigits(d)
    ensures Text.Trim("-" + d) == "-" + d
  {
    var s := "-" + d;
    DigitsNotSpace(d);
    assert s[|s| - 1] == d[|d| - 1];
    Text.TrimOfPadded([], s, []);
    assert [] + s + [] == s;
  }

  /** A minus sign followed by digits reads as the negated value. */
  lemma NumberOfNegativeDigits(d: string)
    requires d != [] && AllDigits(d)
    ensures NumberOf("-" + d) == Some(-(DigitsValue(d) as real))
  {
    TrimOfNegative(d);
    NumberOfMinus(d);
    UnsignedDigits(d);
  }

  lemma NumberOfMinus(u: string)
    requires Text.Trim("-" + u) == "-" + u
    ensures NumberOf("-" + u) == Negate(UnsignedDecimal(u))
  {
    var s := "-" + u;
    assert s[0] == '-' && s[1..] == u;
  }

  /** Text that starts with anything but white space, a sign, a point or a digit is NaN. */
  lemma NumberOfNonNumeric(s: string)
    requires s != [] && !Text.IsSpace(s[0]) && !IsDigit(s[0])
    requires s[0] != '+' && s[0] != '-' && s[0] != '.'
    ensures NumberOf(s) == None
  {
    var t := Text.Trim(s);
    assert Text.TrimStart(s) == s;
    assert t != [] && t[0] == s[0];
  }

  /**
   * `parseInt(s, 10)`: leading white space is skipped, an optional sign is read,
   * then the longest run of digits; no digit at all is NaN.
   */
  function ParseIntPrefix(s: string): Option<int>
  {
    var t := Text.TrimStart(s);
    var negative := t != [] && t[0] == '-';
    var u := if t != [] && (t[0] == '-' || t[0] == '+') then t[1..] else t;
    var k := DigitRun(u);
    if k == 0 then None
    else
      var v: int := DigitsValue(u[..k]);
      if negative then Some(-v) else Some(v)
  }

  /** `parseInt` reads the digits in front and ignores whatever follows them. */
  lemma ParseIntOfDigitPrefix(d: string, rest: string)
    requires d != [] && AllDigits(d)
    requires rest == [] || !IsDigit(rest[0])
    ensures ParseIntPrefix(d + rest) == Some(DigitsValue(d))
  {
    DigitRunOf(d, rest);
    ParseIntOfRun(d + rest, d);
  }

  lemma ParseIntOfRun(u: string, d: string)
    requires d != [] && AllDigits(d) && DigitRun(u) == |d| && u[..|d|] == d
    ensures ParseIntPrefix(u) == Some(DigitsValue(d))
  {
    assert u[0] == d[0];
    assert Text.TrimStart(u) == u;
  }

  /** `parseInt` of a minus sign and digits is negative (so `handleChange` clamps it to 0). */
  lemma ParseIntOfNegative(d: string, rest: string)
    requires d != [] && AllDigits(d)
    requires rest == [] || !IsDigit(rest[0])
    ensures ParseIntPrefix("-" + (d + rest)) == Some(0 - DigitsValue(d))
  {
    DigitRunOf(d, rest);
    ParseIntOfMinus(d + rest, d);
  }

  lemma ParseIntOfMinus(u: string, d: string)
    requires d != [] && AllDigits(d) && DigitRun(u) == |d| && u[..|d|] == d
    ensures ParseIntPrefix("-" + u) == Some(0 - DigitsValue(d))
  {
    var s := "-" + u;
    assert s[0] == '-' && s[1..] == u;
    assert Text.TrimStart(s) == s;
  }

  /** `parseInt` of text with no digit in front is NaN. */
  lemma ParseIntOfNonNumeric(s: string)
    requires s != [] && !Text.IsSpace(s[0]) && !IsDigit(s[0]) && s[0] != '+' && s[0] != '-'
    ensures ParseIntPrefix(s) == None
  {
    assert Text.TrimStart(s) == s;
  }
}
