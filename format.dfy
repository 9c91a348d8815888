/** Decimal formatting as Python's f-strings do it: `f"{n}"` for an int and
    `f"{n:03d}"` for a non-negative one, with the parsing that shows both are
    injective. */
module Format {

  predicate IsDigit(c: char) {
    '0' <= c <= '9'
  }

  predicate AllDigits(s: string) {
    forall i :: 0 <= i < |s| ==> IsDigit(s[i])
  }

  function DigitChar(d: nat): (c: char)
    requires d < 10
    ensures IsDigit(c) && c as int - '0' as int == d
  {
    ('0' as int + d) as char
  }

  /** `f"{n}"` for `n >= 0`: at least one digit and nothing else. */
  function NatToString(n: nat): (r: string)
    ensures |r| >= 1 && AllDigits(r)
  {
    if n < 10 then [DigitChar(n)] else NatToString(n / 10) + [DigitChar(n % 10)]
  }

  /** The value of a string of decimal digits, as `int(s)` reads it. */
  function ParseNat(s: string): nat
    requires AllDigits(s)
  {
    if s == [] then 0 else ParseNat(s[..|s| - 1]) * 10 + (s[|s| - 1] as int - '0' as int)
  }

  /** Reading back what `NatToString` wrote gives the number. */
  lemma {:induction false} ParseNatToString(n: nat)
    ensures ParseNat(NatToString(n)) == n
  {
    if n >= 10 {
      ParseNatToString(n / 10);
      var s := NatToString(n);
      assert s[..|s| - 1] == NatToString(n / 10);
    }
  }

  /** Leading zeros do not change the value read. */
  lemma {:induction false} ParseNatLeadingZero(s: string)
    requires AllDigits(s)
    ensures ParseNat("0" + s) == ParseNat(s)
  {
    if s != [] {
      ParseNatLeadingZero(s[..|s| - 1]);
      assert ("0" + s)[..|s|] == "0" + s[..|s| - 1];
    }
  }

  /** `f"{i}"` for any int: a minus sign before the digits of a negative one. */
  function IntToString(i: int): (r: string)
    ensures r != []
  {
    if i < 0 then "-" + NatToString(-i) else NatToString(i)
  }

  /** Different integers print differently. */
  lemma IntToStringInjective(a: int, b: int)
    requires IntToString(a) == IntToString(b)
    ensures a == b
  {
    NegativeSign(a);
    NegativeSign(b);
    if a < 0 {
      assert b < 0;
      assert IntToString(a)[1..] == NatToString(-a);
      assert IntToString(b)[1..] == NatToString(-b);
      NatToStringInjective(-a, -b);
    } else {
      assert b >= 0;
      NatToStringInjective(a, b);
    }
  }

  lemma NatToStringInjective(a: nat, b: nat)
    requires NatToString(a) == NatToString(b)
    ensures a == b
  {
    ParseNatToString(a);
    ParseNatToString(b);
  }

  /** The printed form starts with a minus sign exactly for negative numbers. */
  lemma NegativeSign(i: int)
    ensures IntToString(i)[0] == '-' <==> i < 0
  {
    if i >= 0 {
      assert IsDigit(NatToString(i)[0]);
    }
  }

  /** Left-pads a string with zeros up to `width` characters. */
  function ZeroPad(s: string, width: nat): (r: string)
    requires AllDigits(s)
    ensures AllDigits(r) && |r| >= |s| && |r| >= width
    ensures ParseNat(r) == ParseNat(s)
    decreases width - |s|
  {
    if |s| >= width then s
    else
      ParseNatLeadingZero(s);
      ZeroPad("0" + s, width)
  }

  /** `f"{n:03d}"` for `n >= 0`. */
  function Pad3(n: nat): (r: string)
    ensures AllDigits(r) && |r| >= 3
  {
    ZeroPad(NatToString(n), 3)
  }

  /** Different numbers get different three-digit labels. */
  lemma Pad3Injective(a: nat, b: nat)
    requires Pad3(a) == Pad3(b)
    ensures a == b
  {
    ParseNatToString(a);
    ParseNatToString(b);
  }

  /** A run of digits followed by a non-digit separator can be read off the
      front of a string unambiguously. */
  lemma DigitsBeforeSeparator(x: string, y: string, sep: char, s: string, t: string)
    requires AllDigits(x) && AllDigits(y) && !IsDigit(sep)
    requires x + [sep] + s == y + [sep] + t
    ensures x == y
  {
    var u := x + [sep] + s;
    DigitRunBeforeSeparator(x, sep, s);
    DigitRunBeforeSeparator(y, sep, t);
    assert x == u[..|x|] == y;
  }

  /** The length of the run of digits at the front of `u`. */
  function DigitRun(u: string): nat {
    if u == [] || !IsDigit(u[0]) then 0 else 1 + DigitRun(u[1..])
  }

  lemma {:induction false} DigitRunBeforeSeparator(x: string, sep: char, s: string)
    requires AllDigits(x) && !IsDigit(sep)
    ensures DigitRun(x + [sep] + s) == |x|
  {
    if x != [] {
      assert (x + [sep] + s)[1..] == x[1..] + [sep] + s;
      DigitRunBeforeSeparator(x[1..], sep, s);
    }
  }
}
