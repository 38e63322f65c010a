/**
 * Ruby's `String#to_i` in base 10, and `nil.to_i`.
 *
 * `to_i` never fails: it skips leading white space, reads an optional `+`
 * or `-`, then an optional `0d`/`0D` radix prefix, then as many decimal
 * digits as follow; anything after the digits is ignored, and a string with
 * no digits there gives 0.
 */
module RubyInteger {

  import opened Wrappers

  /** The characters C's `isspace` accepts: space, tab, line feed,
      vertical tab, form feed and carriage return. */
  predicate IsSpace(c: char)
  {
    c == ' ' || 9 <= c as int <= 13
  }

  predicate IsDigit(c: char)
  {
    '0' <= c <= '9'
  }

  function DigitValue(c: char): (d: nat)
    requires IsDigit(c)
    ensures d < 10
  {
    c as int - '0' as int
  }

  function DigitChar(d: nat): (c: char)
    requires d < 10
    ensures IsDigit(c) && DigitValue(c) == d
  {
    ('0' as int + d) as char
  }

  predicate AllDigits(s: string)
  {
    forall i :: 0 <= i < |s| ==> IsDigit(s[i])
  }

  /** The value of a run of decimal digits, most significant first. */
  function DigitsValue(d: string): nat
    requires AllDigits(d)
  {
    if |d| == 0 then 0 else DigitsValue(d[..|d| - 1]) * 10 + DigitValue(d[|d| - 1])
  }

  /** What is left of `s` once its leading white space is skipped. */
  function SkipSpace(s: string): (r: string)
    ensures |r| <= |s| && r == s[|s| - |r|..]
    ensures forall i :: 0 <= i < |s| - |r| ==> IsSpace(s[i])
    ensures |r| > 0 ==> !IsSpace(r[0])
  {
    if |s| > 0 && IsSpace(s[0]) then SkipSpace(s[1..]) else s
  }

  /** The longest prefix of `s` made of decimal digits. */
  function LeadingDigits(s: string): (r: string)
    ensures r <= s && AllDigits(r)
    ensures |r| < |s| ==> !IsDigit(s[|r|])
  {
    if |s| > 0 && IsDigit(s[0]) then [s[0]] + LeadingDigits(s[1..]) else []
  }

  /** The `0d` or `0D` radix prefix Ruby accepts in base 10, if present, is skipped. */
  function SkipDecimalPrefix(s: string): string
  {
    if |s| >= 2 && s[0] == '0' && (s[1] == 'd' || s[1] == 'D') then s[2..] else s
  }

  /** The digits of an unsigned number, after an optional radix prefix. */
  function UnsignedValue(u: string): nat
  {
    DigitsValue(LeadingDigits(SkipDecimalPrefix(u)))
  }

  /** A number with an optional leading sign. */
  function SignedValue(t: string): int
  {
    if |t| > 0 && t[0] == '-' then -(UnsignedValue(t[1..]) as int)
    else if |t| > 0 && t[0] == '+' then UnsignedValue(t[1..])
    else UnsignedValue(t)
  }

  /** `String#to_i` with the default base 10. */
  function ToI(s: string): int
  {
    SignedValue(SkipSpace(s))
  }

  /** `to_i` on a value that may be `nil`: `nil.to_i` is 0. */
  function OptionToI(s: Option<string>): int
  {
    match s
    case None => 0
    case Some(t) => ToI(t)
  }

  /** The decimal spelling of `n`, without leading zeros. */
  function Decimal(n: nat): (r: string)
    ensures AllDigits(r) && |r| > 0
    ensures r == "0" <==> n == 0
    ensures n > 0 ==> r[0] != '0'
  {
    if n < 10 then [DigitChar(n)] else Decimal(n / 10) + [DigitChar(n % 10)]
  }

  lemma {:induction false} DecimalValue(n: nat)
    ensures DigitsValue(Decimal(n)) == n
  {
    if n >= 10 {
      DecimalValue(n / 10);
      var r := Decimal(n);
      assert r[..|r| - 1] == Decimal(n / 10);
    }
  }

  /** A run of digits followed by something that is not a digit reads as the
      value of the digits, unless the run is a lone `0` that `d` or `D`
      turns into a radix prefix. */
  lemma {:induction false} ToIOfDigits(d: string, rest: string)
    requires |d| > 0 && AllDigits(d)
    requires |rest| == 0 || !IsDigit(rest[0])
    requires !(|d| == 1 && d[0] == '0' && |rest| > 0 && (rest[0] == 'd' || rest[0] == 'D'))
    ensures ToI(d + rest) == DigitsValue(d)
  {
    var s := d + rest;
    assert s[0] == d[0];
    ToIUnsigned(s);
    NoDecimalPrefix(d, rest);
    LeadingDigitsOfRun(d, rest);
  }

  lemma {:induction false} NoDecimalPrefix(d: string, rest: string)
    requires |d| > 0 && AllDigits(d)
    requires !(|d| == 1 && d[0] == '0' && |rest| > 0 && (rest[0] == 'd' || rest[0] == 'D'))
    ensures SkipDecimalPrefix(d + rest) == d + rest
  {
    var s := d + rest;
    if |d| >= 2 {
      assert s[1] == d[1];
    } else if |rest| > 0 {
      assert s[1] == rest[0];
    }
  }

  lemma {:induction false} LeadingDigitsOfRun(d: string, rest: string)
    requires AllDigits(d)
    requires |rest| == 0 || !IsDigit(rest[0])
    ensures LeadingDigits(d + rest) == d
  {
    if |d| > 0 {
      assert (d + rest)[0] == d[0];
      assert (d + rest)[1..] == d[1..] + rest;
      LeadingDigitsOfRun(d[1..], rest);
      assert d == [d[0]] + d[1..];
    } else {
      assert d + rest == rest;
    }
  }

  /** What `to_i` reads from `Decimal(n)` once the sign is behind it. */
  lemma {:induction false} DecimalDigitsRead(n: nat)
    ensures SkipDecimalPrefix(Decimal(n)) == Decimal(n)
    ensures DigitsValue(LeadingDigits(Decimal(n))) == n
  {
    DecimalValue(n);
    LeadingDigitsOfRun(Decimal(n), "");
    assert Decimal(n) + "" == Decimal(n);
  }

  /** An unsigned reading starts right at the first character. */
  lemma {:induction false} ToIUnsigned(t: string)
    requires |t| > 0 && IsDigit(t[0])
    ensures ToI(t) == UnsignedValue(t)
  {
    assert !IsSpace(t[0]);
    assert SkipSpace(t) == t;
    assert t[0] != '-' && t[0] != '+';
  }

  /** A sign directly in front of the digits applies to their value. */
  lemma {:induction false} ToISigned(sign: char, t: string)
    requires sign == '+' || sign == '-'
    ensures ToI([sign] + t) == if sign == '-' then -(UnsignedValue(t) as int) else UnsignedValue(t)
  {
    var s := [sign] + t;
    assert s[0] == sign && !IsSpace(sign);
    assert SkipSpace(s) == s;
    assert s[1..] == t;
    assert ToI(s) == SignedValue(s);
  }

  /** `to_i` reads back what `Decimal` spells, with or without a sign. */
  lemma {:induction false} DecimalRoundTrip(n: nat)
    ensures ToI(Decimal(n)) == n
    ensures ToI("+" + Decimal(n)) == n
    ensures ToI("-" + Decimal(n)) == -(n as int)
  {
    DecimalDigitsRead(n);
    ToIUnsigned(Decimal(n));
    ToISigned('+', Decimal(n));
    ToISigned('-', Decimal(n));
  }

  /** Leading white space does not change the value. */
  lemma {:induction false} ToISkipsSpace(c: char, s: string)
    requires IsSpace(c)
    ensures ToI([c] + s) == ToI(s)
  {
    assert ([c] + s)[1..] == s;
    assert SkipSpace([c] + s) == SkipSpace(s);
  }

  /** Anything that cannot start a number reads as 0. */
  lemma {:induction false} ToINoNumber(s: string)
    requires |s| == 0 || !(IsDigit(s[0]) || IsSpace(s[0]) || s[0] == '+' || s[0] == '-')
    ensures ToI(s) == 0
  {
  }
}
