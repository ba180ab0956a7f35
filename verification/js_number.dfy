/** The two integer conversions the bridge performs on window ids: `parseInt`
    of the text a creation script prints, and the decimal rendering of a number
    inside a template literal. */
module JsNumber {
  import opened Wrappers
  import opened JsText

  /** True when `c` is a digit of base `radix` (10 or 16); hexadecimal
      digits may be written in either case. */
  predicate IsDigitIn(c: char, radix: nat) {
    if radix == 16 then '0' <= c <= '9' || 'a' <= c <= 'f' || 'A' <= c <= 'F'
    else '0' <= c <= '9'
  }

  /** The value of a decimal or hexadecimal digit. */
  function DigitOf(c: char): nat {
    if '0' <= c <= '9' then c as int - '0' as int
    else if 'a' <= c <= 'f' then c as int - 'a' as int + 10
    else if 'A' <= c <= 'F' then c as int - 'A' as int + 10
    else 0
  }

  /** The decimal digit character of `d`. */
  function DigitChar(d: nat): (c: char)
    requires d < 10
    ensures IsDigitIn(c, 10) && DigitOf(c) == d
  {
    ('0' as int + d) as char
  }

  /** Length of the run of `radix` digits at the start of `s`. */
  function LeadingDigits(s: string, radix: nat): (n: nat)
    ensures n <= |s|
    ensures forall i :: 0 <= i < n ==> IsDigitIn(s[i], radix)
    ensures n == |s| || !IsDigitIn(s[n], radix)
    decreases |s|
  {
    if |s| > 0 && IsDigitIn(s[0], radix) then
      var n := 1 + LeadingDigits(s[1..], radix);
      assert forall i :: 1 <= i < n ==> s[i] == s[1..][i - 1];
      n
    else 0
  }

  /** The value of a digit string in base `radix`, most significant first. */
  function DigitsValue(d: string, radix: nat): nat
    decreases |d|
  {
    if |d| == 0 then 0 else DigitsValue(d[..|d| - 1], radix) * radix + DigitOf(d[|d| - 1])
  }

  /** The unsigned part of `parseInt`: a `0x`/`0X` prefix selects base 16,
      and the longest run of digits that follows is read; `None` when there is
      no digit at all. */
  function ParseMagnitude(u: string): Option<nat> {
    var hex := |u| >= 2 && u[0] == '0' && (u[1] == 'x' || u[1] == 'X');
    var radix := if hex then 16 else 10;
    var body := if hex then u[2..] else u;
    var n := LeadingDigits(body, radix);
    if n == 0 then None else Some(DigitsValue(body[..n], radix))
  }

  /** `parseInt(s)` with no radix: leading whitespace is skipped, one sign is
      accepted and the magnitude is read as above; `None` stands for `NaN`.
      Whatever follows the digits is ignored. */
  function ParseInt(s: string): Option<int> {
    var t := TrimStart(s);
    var negative := |t| > 0 && t[0] == '-';
    var u := if |t| > 0 && (t[0] == '-' || t[0] == '+') then t[1..] else t;
    match ParseMagnitude(u)
    case None => None
    case Some(m) => Some(if negative then 0 - m else m)
  }

  /** The decimal rendering of a natural number: digits only, no leading zero,
      and reading the digits back gives the number. */
  function NatToString(n: nat): (r: string)
    ensures |r| >= 1
    ensures forall i :: 0 <= i < |r| ==> IsDigitIn(r[i], 10)
    ensures r[0] == '0' ==> r == "0"
    ensures DigitsValue(r, 10) == n
    decreases n
  {
    if n < 10 then [DigitChar(n)]
    else
      var r := NatToString(n / 10) + [DigitChar(n % 10)];
      assert r[..|r| - 1] == NatToString(n / 10);
      r
  }

  /** The decimal rendering of an integer, as `${n}` prints it. */
  function IntToString(n: int): (r: string)
    ensures |r| >= 1 && (r[0] == '-' <==> n < 0)
  {
    if n < 0 then "-" + NatToString(-n) else NatToString(n)
  }

  /** A run of digits followed by a non-digit is read up to that non-digit. */
  lemma {:induction false} LeadingDigitsOfRun(d: string, rest: string, radix: nat)
    requires forall i :: 0 <= i < |d| ==> IsDigitIn(d[i], radix)
    requires rest == [] || !IsDigitIn(rest[0], radix)
    ensures LeadingDigits(d + rest, radix) == |d|
    decreases |d|
  {
    if |d| > 0 {
      assert (d + rest)[1..] == d[1..] + rest;
      LeadingDigitsOfRun(d[1..], rest, radix);
    } else {
      assert d + rest == rest;
    }
  }

  /** The digits of a natural number are read back, whatever non-digit text
      follows them (other than an `x` right after a lone `0`). */
  lemma ParseMagnitudeOfPrinted(m: nat, rest: string)
    requires rest == [] || (!IsDigitIn(rest[0], 10) && (m == 0 ==> rest[0] != 'x' && rest[0] != 'X'))
    ensures ParseMagnitude(NatToString(m) + rest) == Some(m)
  {
    var d := NatToString(m);
    var u := d + rest;
    assert !(|u| >= 2 && u[0] == '0' && (u[1] == 'x' || u[1] == 'X')) by {
      if |u| >= 2 && u[0] == '0' {
        assert m == 0 && |d| == 1;
        assert u[1] == rest[0];
      }
    }
    LeadingDigitsOfRun(d, rest, 10);
    assert u[..|d|] == d;
  }

  /** `parseInt` reads back what `${n}` printed, whatever non-digit text
      follows it (other than an `x` right after a lone `0`, which would make
      `0x` a hexadecimal prefix). */
  lemma ParseIntOfPrinted(n: int, rest: string)
    requires rest == [] || (!IsDigitIn(rest[0], 10) && (n == 0 ==> rest[0] != 'x' && rest[0] != 'X'))
    ensures ParseInt(IntToString(n) + rest) == Some(n)
  {
    if n < 0 {
      ParseIntOfPrintedNegative(n, rest);
    } else {
      ParseIntOfPrintedNatural(n, rest);
    }
  }

  lemma ParseIntOfPrintedNatural(m: nat, rest: string)
    requires rest == [] || (!IsDigitIn(rest[0], 10) && (m == 0 ==> rest[0] != 'x' && rest[0] != 'X'))
    ensures ParseInt(IntToString(m) + rest) == Some(m)
  {
    ParseMagnitudeOfPrinted(m, rest);
    ParseIntUnsigned(NatToString(m) + rest);
  }

  lemma ParseIntOfPrintedNegative(n: int, rest: string)
    requires n < 0
    requires rest == [] || !IsDigitIn(rest[0], 10)
    ensures ParseInt(IntToString(n) + rest) == Some(n)
  {
    var u := NatToString(-n) + rest;
    assert IntToString(n) + rest == ['-'] + u;
    ParseMagnitudeOfPrinted(-n, rest);
    ParseIntSigned(u);
  }

  /** Text starting with a digit is read as its magnitude. */
  lemma ParseIntUnsigned(u: string)
    requires |u| > 0 && IsDigitIn(u[0], 10)
    ensures ParseInt(u) == match ParseMagnitude(u) case None => None case Some(m) => Some(m)
  {
    assert TrimStart(u) == u;
  }

  /** A minus sign followed by a digit negates the magnitude. */
  lemma ParseIntSigned(u: string)
    requires |u| > 0 && IsDigitIn(u[0], 10)
    ensures ParseInt(['-'] + u) == match ParseMagnitude(u) case None => None case Some(m) => Some(0 - m)
  {
    var s := ['-'] + u;
    assert TrimStart(s) == s;
    assert s[1..] == u;
  }

  /** Text that starts with neither whitespace, a sign nor a digit (the
      empty text included) is `NaN`. */
  lemma ParseIntNoDigits(s: string)
    requires s == [] || (!IsJsWhitespace(s[0]) && !IsDigitIn(s[0], 10) && s[0] != '-' && s[0] != '+')
    ensures ParseInt(s) == None
  {
    assert TrimStart(s) == s;
    assert LeadingDigits(s, 10) == 0;
  }

  /** Reading stops at the first non-digit: a run of decimal digits followed
      by text that cannot extend it (no digit, and no `x` that would make a
      lone `0` a hexadecimal prefix) reads as the run's value. */
  lemma {:induction false} ParseIntStopsAtNonDigit(d: string, rest: string)
    requires |d| > 0 && forall i :: 0 <= i < |d| ==> IsDigitIn(d[i], 10)
    requires rest == [] || (!IsDigitIn(rest[0], 10) && (d == "0" ==> rest[0] != 'x' && rest[0] != 'X'))
    ensures ParseInt(d + rest) == Some(DigitsValue(d, 10) as int)
  {
    ParseMagnitudeOfRun(d, rest);
    ParseIntUnsigned(d + rest);
  }

  /** With a minus sign in front, such a run reads as its negated value. */
  lemma {:induction false} ParseIntNegatesRun(d: string, rest: string)
    requires |d| > 0 && forall i :: 0 <= i < |d| ==> IsDigitIn(d[i], 10)
    requires rest == [] || (!IsDigitIn(rest[0], 10) && (d == "0" ==> rest[0] != 'x' && rest[0] != 'X'))
    ensures ParseInt(['-'] + (d + rest)) == Some(-(DigitsValue(d, 10) as int))
  {
    ParseMagnitudeOfRun(d, rest);
    ParseIntSigned(d + rest);
  }

  /** The magnitude of a decimal run followed by text that cannot extend it
      (no digit, and no `x` right after a lone `0`) is the run's value. */
  lemma ParseMagnitudeOfRun(d: string, rest: string)
    requires |d| > 0 && forall i :: 0 <= i < |d| ==> IsDigitIn(d[i], 10)
    requires rest == [] || (!IsDigitIn(rest[0], 10) && (d == "0" ==> rest[0] != 'x' && rest[0] != 'X'))
    ensures ParseMagnitude(d + rest) == Some(DigitsValue(d, 10))
  {
    var u := d + rest;
    assert !(|u| >= 2 && u[0] == '0' && (u[1] == 'x' || u[1] == 'X')) by {
      if |u| >= 2 {
        if |d| >= 2 {
          assert u[1] == d[1];
        } else if u[0] == '0' {
          assert d == "0";
          assert u[1] == rest[0];
        }
      }
    }
    LeadingDigitsOfRun(d, rest, 10);
    assert u[..|d|] == d;
  }
}
