/** Decimal text of arbitrary-precision integers: the `BigInt(string)`
    conversion (which throws on malformed text, modelled as `None`) and
    `BigInt.prototype.toString()`. */
module Decimal {
  import opened Wrappers

  predicate IsDigit(c: char) {
    '0' <= c <= '9'
  }

  predicate AllDigits(s: string) {
    forall i | 0 <= i < |s| :: IsDigit(s[i])
  }

  function DigitValue(c: char): nat
    requires IsDigit(c)
  {
    c as int - '0' as int
  }

  function DigitChar(d: nat): (c: char)
    requires d < 10
    ensures IsDigit(c) && DigitValue(c) == d
  {
    ('0' as int + d) as char
  }

  /** The number a string of decimal digits denotes, most significant first. */
  function DigitsValue(s: string): nat
    requires AllDigits(s)
  {
    if s == [] then 0 else 10 * DigitsValue(s[..|s| - 1]) + DigitValue(s[|s| - 1])
  }

  /** `BigInt(s)` for decimal text: an optional sign followed by at least one
      digit; anything else throws, which is `None` here. */
  function Parse(s: string): Option<int> {
    if |s| > 1 && (s[0] == '-' || s[0] == '+') && AllDigits(s[1..]) then
      var magnitude: int := DigitsValue(s[1..]);
      Some(if s[0] == '-' then -magnitude else magnitude)
    else if |s| > 0 && AllDigits(s) then
      Some(DigitsValue(s))
    else
      None
  }

  /** The shortest decimal digits of `n`: no leading zero unless `n` is 0. */
  function NatToDigits(n: nat): (s: string)
    ensures |s| > 0 && AllDigits(s) && DigitsValue(s) == n
    ensures |s| > 1 ==> s[0] != '0'
    decreases n
  {
    if n < 10 then
      [DigitChar(n)]
    else
      var high := NatToDigits(n / 10);
      var s := high + [DigitChar(n % 10)];
      assert s[..|s| - 1] == high;
      s
  }

  /** `n.toString()`: the text `BigInt` reads back as `n`. */
  function ToDecimal(n: int): (s: string)
    ensures |s| > 0
    ensures Parse(s) == Some(n)
  {
    if n < 0 then
      var s := "-" + NatToDigits(-n);
      assert s[1..] == NatToDigits(-n);
      s
    else
      NatToDigits(n)
  }

  /** Text as `toString()` writes it: no '+', no leading zero, no "-0". */
  predicate Canonical(s: string) {
    if |s| > 0 && s[0] == '-' then
      |s| > 1 && AllDigits(s[1..]) && s[1] != '0'
    else
      |s| > 0 && AllDigits(s) && (|s| > 1 ==> s[0] != '0')
  }

  function Pow10(k: nat): (r: nat)
    ensures r >= 1
  {
    if k == 0 then 1 else 10 * Pow10(k - 1)
  }

  /** A digit string with a non-zero first digit is at least 10^(length-1). */
  lemma {:induction false} DigitsValueLowerBound(s: string)
    requires |s| > 0 && AllDigits(s) && s[0] != '0'
    ensures DigitsValue(s) >= Pow10(|s| - 1)
  {
    if |s| > 1 {
      var p := s[..|s| - 1];
      assert p[0] == s[0];
      DigitsValueLowerBound(p);
    }
  }

  /** A digit string of length k is below 10^k. */
  lemma {:induction false} DigitsValueUpperBound(s: string)
    requires AllDigits(s)
    ensures DigitsValue(s) < Pow10(|s|)
  {
    if s != [] {
      DigitsValueUpperBound(s[..|s| - 1]);
    }
  }

  /** Canonical digit strings are exactly the ones `NatToDigits` produces. */
  lemma {:induction false} NatToDigitsOfCanonical(s: string)
    requires |s| > 0 && AllDigits(s) && (|s| > 1 ==> s[0] != '0')
    ensures NatToDigits(DigitsValue(s)) == s
  {
    var n := DigitsValue(s);
    if |s| == 1 {
      DigitsValueUpperBound(s);
    } else {
      var p := s[..|s| - 1];
      assert p[0] == s[0];
      DigitsValueLowerBound(s);
      assert n >= 10;
      assert n / 10 == DigitsValue(p) && n % 10 == DigitValue(s[|s| - 1]);
      NatToDigitsOfCanonical(p);
      assert NatToDigits(n) == p + [s[|s| - 1]];
    }
  }

  /** The other half of the round trip: canonical text survives
      `BigInt(s).toString()` unchanged. */
  lemma CanonicalRoundTrip(s: string)
    requires Canonical(s)
    ensures Parse(s).Some? && ToDecimal(Parse(s).value) == s
  {
    if s[0] == '-' {
      var body := s[1..];
      NatToDigitsOfCanonical(body);
      DigitsValueLowerBound(body);
      assert s == "-" + body;
    } else {
      NatToDigitsOfCanonical(s);
    }
  }

  /** `toString()` writes canonical text: no '+', no leading zero, no "-0". */
  lemma ToDecimalCanonical(n: int)
    ensures Canonical(ToDecimal(n))
  {
    if n < 0 {
      assert ToDecimal(n)[1..] == NatToDigits(-n);
    }
  }

  /** Distinct integers have distinct decimal text. */
  lemma ToDecimalInjective(a: int, b: int)
    requires ToDecimal(a) == ToDecimal(b)
    ensures a == b
  {
    assert Parse(ToDecimal(a)) == Some(a);
  }
}
