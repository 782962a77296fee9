/**
 Decimal integers as text: Python's `str(n)` for integers and `int(s)` on ASCII text,
 with the `ValueError` of `int` turned into `None`.
 */
module Numerals {
  import opened Options
  import opened Text

  function DigitValue(c: char): (d: nat)
    requires IsDigit(c)
    ensures d < 10
  {
    c as int - '0' as int
  }

  function DigitChar(d: nat): (c: char)
    requires d < 10
    ensures IsDigit(c) && DigitValue(c) == d
  {
    ('0' as int + d) as char
  }

  /** The value of a string of decimal digits, most significant digit first. */
  function DigitsValue(s: string): (r: nat)
    requires AllDigits(s)
  {
    if s == [] then 0 else DigitsValue(s[..|s| - 1]) * 10 + DigitValue(s[|s| - 1])
  }

  /** `str(n)` for a non-negative `n`: digits only, no leading zero. */
  function NatString(n: nat): (r: string)
    ensures |r| > 0 && AllDigits(r)
    ensures |r| > 1 ==> r[0] != '0'
  {
    if n < 10 then [DigitChar(n)] else NatString(n / 10) + [DigitChar(n % 10)]
  }

  /** `str(n)` for any integer `n`. */
  function IntString(n: int): (r: string) {
    if n < 0 then "-" + NatString(-n) else NatString(n)
  }

  /** The text `int()` accepts once surrounding whitespace is gone: an optional sign, then one or
      more ASCII digits. */
  predicate IsIntLiteral(s: string) {
    || (|s| > 0 && AllDigits(s))
    || (|s| > 1 && IsSign(s[0]) && AllDigits(s[1..]))
  }

  /** Python's `int(s)` on ASCII text that has already been stripped; `None` where Python raises
      `ValueError`. */
  function ParseInt(s: string): (r: Option<int>)
    ensures r.Some? <==> IsIntLiteral(s)
    ensures r.Some? && |s| > 0 && s[0] == '-' ==> r.value <= 0
    ensures r.Some? && |s| > 0 && s[0] != '-' ==> r.value >= 0
  {
    var body := if |s| > 0 && IsSign(s[0]) then s[1..] else s;
    if body == [] || !AllDigits(body) then None
    else
      var magnitude: int := DigitsValue(body);
      Some(if s[0] == '-' then -magnitude else magnitude)
  }

  /** Reading back the decimal text of a natural number gives the number. */
  lemma {:induction false} DigitsValueOfNatString(n: nat)
    ensures DigitsValue(NatString(n)) == n
    decreases n
  {
    if n >= 10 {
      var r := NatString(n);
      assert r[..|r| - 1] == NatString(n / 10);
      DigitsValueOfNatString(n / 10);
    }
  }

  /** `int()` of a digit string is its value. */
  lemma {:induction false} ParseIntDigits(u: string)
    requires |u| > 0 && AllDigits(u)
    ensures ParseInt(u) == Some(DigitsValue(u))
  {
    assert IsDigit(u[0]);
  }

  /** `int()` of a minus sign and a digit string is the negated value. */
  lemma {:induction false} ParseIntNegative(u: string)
    requires |u| > 0 && AllDigits(u)
    ensures ParseInt("-" + u) == Some(-(DigitsValue(u) as int))
  {
    var s := "-" + u;
    assert s[0] == '-' && s[1..] == u;
  }

  /** `int(str(n)) == n` for every integer `n`. */
  lemma {:induction false} ParseIntString(n: int)
    ensures ParseInt(IntString(n)) == Some(n)
  {
    if n < 0 {
      DigitsValueOfNatString(-n);
      ParseIntNegative(NatString(-n));
    } else {
      DigitsValueOfNatString(n);
      ParseIntDigits(NatString(n));
    }
  }

  /** `int()` reads a plus sign as nothing and a minus sign as negation, whatever digits
      follow: `int("+" + u) == int(u)` and `int("-" + u) == -int(u)`. */
  lemma {:induction false} ParseIntSigned(u: string)
    requires |u| > 0 && AllDigits(u)
    ensures ParseInt("+" + u) == ParseInt(u)
    ensures ParseInt("-" + u) == Some(-ParseInt(u).value)
  {
    assert ("+" + u)[1..] == u;
    assert ("-" + u)[1..] == u;
    assert IsDigit(u[0]);
  }

  /** A leading zero digit does not change the value of a digit string. */
  lemma {:induction false} DigitsValueLeadingZero(u: string)
    requires AllDigits(u)
    ensures DigitsValue("0" + u) == DigitsValue(u)
    decreases |u|
  {
    if u != [] {
      var v := u[..|u| - 1];
      assert ("0" + u)[..|u|] == "0" + v;
      DigitsValueLeadingZero(v);
    }
  }

  /** `int()` ignores leading zeros: `int("0" + u) == int(u)` for a digit string `u`. */
  lemma {:induction false} ParseIntLeadingZero(u: string)
    requires |u| > 0 && AllDigits(u)
    ensures ParseInt("0" + u) == ParseInt(u)
  {
    DigitsValueLeadingZero(u);
  }
}
