/** The edge labels: `ethers.formatEther` (wei, the smallest unit, rendered
    as a fixed-point decimal number of ether, 1 ether = 10^18 wei) and
    `formatEtherValue`, which keeps the first six characters of that text,
    appends " ETH" and falls back to "0.0000 ETH" when the value is not an
    integer. */
module EtherFormat {
  import opened Wrappers
  import opened Decimal

  const EtherDecimals: nat := 18
  const WeiPerEther: nat := 1_000_000_000_000_000_000
  const ParseErrorLabel: string := "0.0000 ETH"
  const Unit: string := " ETH"

  lemma WeiPerEtherIsPow10()
    ensures Pow10(EtherDecimals) == WeiPerEther
  {
    assert Pow10(3) == 1000;
    assert Pow10(6) == 1000 * 1000;
    assert Pow10(9) == 1000 * 1000 * 1000;
    assert Pow10(12) == 1000 * 1000 * 1000 * 1000;
    assert Pow10(15) == 1000 * 1000 * 1000 * 1000 * 1000;
  }

  lemma Pow10Of5()
    ensures Pow10(5) == 100000
  {
    assert Pow10(2) == 100;
  }

  /** Prepending a zero does not change the number a digit string denotes. */
  lemma {:induction false} LeadingZero(s: string)
    requires AllDigits(s)
    ensures AllDigits("0" + s) && DigitsValue("0" + s) == DigitsValue(s)
  {
    var z := "0" + s;
    if s != [] {
      assert z[..|z| - 1] == "0" + s[..|s| - 1];
      LeadingZero(s[..|s| - 1]);
    }
  }

  /** Left-pads digit text with zeros up to `width` characters. */
  function PadZeros(s: string, width: nat): (r: string)
    requires AllDigits(s)
    ensures AllDigits(r) && DigitsValue(r) == DigitsValue(s)
    ensures |r| == if |s| < width then width else |s|
    decreases width - |s|
  {
    if |s| >= width then s
    else
      LeadingZero(s);
      PadZeros("0" + s, width)
  }

  /** Drops trailing zeros of digit text, keeping at least one digit. */
  function TrimTrailingZeros(s: string): (r: string)
    requires AllDigits(s) && |s| > 0
    ensures 0 < |r| <= |s| && r == s[..|r|] && AllDigits(r)
    ensures |r| == 1 || r[|r| - 1] != '0'
    ensures DigitsValue(r) * Pow10(|s| - |r|) == DigitsValue(s)
  {
    if |s| > 1 && s[|s| - 1] == '0' then
      var p := s[..|s| - 1];
      var r := TrimTrailingZeros(p);
      assert p[..|r|] == s[..|r|];
      assert DigitsValue(s) == 10 * DigitsValue(p);
      ShiftOnce(DigitsValue(r), |p| - |r|);
      r
    else
      s
  }

  lemma ShiftOnce(a: nat, k: nat)
    ensures a * Pow10(k + 1) == 10 * (a * Pow10(k))
  {
    assert Pow10(k + 1) == 10 * Pow10(k);
  }

  /** The digits after the point for a remainder below one ether: the
      18-digit zero-padded remainder without its trailing zeros, and it
      denotes exactly that remainder. */
  function Fraction(rem: nat): (f: string)
    requires rem < WeiPerEther
    ensures 0 < |f| <= EtherDecimals && AllDigits(f)
    ensures |f| == 1 || f[|f| - 1] != '0'
    ensures DigitsValue(f) * Pow10(EtherDecimals - |f|) == rem
  {
    RemainderDigitsFit(rem);
    TrimTrailingZeros(PadZeros(NatToDigits(rem), EtherDecimals))
  }

  /** A remainder below one ether has at most 18 digits. */
  lemma RemainderDigitsFit(rem: nat)
    requires rem < WeiPerEther
    ensures |NatToDigits(rem)| <= EtherDecimals
  {
    var digits := NatToDigits(rem);
    if |digits| > EtherDecimals {
      PowMonotone(EtherDecimals, |digits| - 1);
      DigitsValueLowerBound(digits);
      WeiPerEtherIsPow10();
      assert false;
    }
  }

  lemma {:induction false} PowMonotone(a: nat, b: nat)
    requires a <= b
    ensures Pow10(a) <= Pow10(b)
  {
    if a < b {
      PowMonotone(a, b - 1);
    }
  }

  /** `ethers.formatEther(wei)`: sign, whole ethers without leading zeros,
      a point, then the fraction; "0.0" for zero. */
  function FormatEther(wei: int): string {
    var magnitude: nat := if wei < 0 then -wei else wei;
    (if wei < 0 then "-" else "")
      + NatToDigits(magnitude / WeiPerEther) + "." + Fraction(magnitude % WeiPerEther)
  }

  function IndexOfPoint(s: string): (i: nat)
    ensures i <= |s|
    ensures i < |s| ==> s[i] == '.'
    ensures forall j | 0 <= j < i :: s[j] != '.'
  {
    if s == [] then 0
    else if s[0] == '.' then 0
    else 1 + IndexOfPoint(s[1..])
  }

  /** The inverse reading of unsigned fixed-point ether text ("whole.fraction"
      with one to 18 fraction digits), as wei. */
  function ParseEtherMagnitude(body: string): Option<nat> {
    var p := IndexOfPoint(body);
    var whole := body[..p];
    if p == |body| || whole == [] || !AllDigits(whole) then None
    else
      var frac := body[p + 1..];
      if frac == [] || |frac| > EtherDecimals || !AllDigits(frac) then None
      else Some(FixedValue(whole, frac))
  }

  /** The wei denoted by the whole and fraction digits of "whole.frac". */
  function FixedValue(whole: string, frac: string): nat
    requires AllDigits(whole) && AllDigits(frac) && |frac| <= EtherDecimals
  {
    DigitsValue(whole) * WeiPerEther + DigitsValue(frac) * Pow10(EtherDecimals - |frac|)
  }

  /** The inverse reading of `formatEther`'s text, with an optional '-'. */
  function ParseEther(s: string): Option<int> {
    if |s| > 0 && s[0] == '-' then
      match ParseEtherMagnitude(s[1..])
      case None => None
      case Some(m) => Some(-(m as int))
    else
      match ParseEtherMagnitude(s)
      case None => None
      case Some(m) => Some(m)
  }

  lemma {:induction false} PointAfterDigits(whole: string, frac: string)
    requires AllDigits(whole)
    ensures IndexOfPoint(whole + "." + frac) == |whole|
  {
    if whole != [] {
      assert (whole + "." + frac)[1..] == whole[1..] + "." + frac;
      PointAfterDigits(whole[1..], frac);
    }
  }

  lemma ParseEtherMagnitudeOfParts(whole: string, frac: string)
    requires 0 < |whole| && AllDigits(whole)
    requires 0 < |frac| <= EtherDecimals && AllDigits(frac)
    ensures ParseEtherMagnitude(whole + "." + frac) == Some(FixedValue(whole, frac))
  {
    var body := whole + "." + frac;
    PointAfterDigits(whole, frac);
    assert body[..|whole|] == whole;
    assert body[|whole| + 1..] == frac;
  }

  /** The whole ethers and the fraction digits together denote the amount. */
  lemma WholeAndFraction(magnitude: nat)
    ensures FixedValue(NatToDigits(magnitude / WeiPerEther), Fraction(magnitude % WeiPerEther)) == magnitude
  {
    var frac := Fraction(magnitude % WeiPerEther);
    assert DigitsValue(frac) * Pow10(EtherDecimals - |frac|) == magnitude % WeiPerEther;
  }

  lemma {:induction false} ParseEtherSigned(negative: bool, body: string, magnitude: nat)
    requires |body| > 0 && body[0] != '-'
    requires ParseEtherMagnitude(body) == Some(magnitude)
    ensures ParseEther((if negative then "-" else "") + body)
      == Some(if negative then -(magnitude as int) else magnitude as int)
  {
    if negative {
      assert ("-" + body)[1..] == body;
    } else {
      assert "" + body == body;
    }
  }

  /** `formatEther` loses nothing: reading its text back gives the same wei. */
  lemma FormatEtherExact(wei: int)
    ensures ParseEther(FormatEther(wei)) == Some(wei)
  {
    var magnitude: nat := if wei < 0 then -wei else wei;
    var whole := NatToDigits(magnitude / WeiPerEther);
    var frac := Fraction(magnitude % WeiPerEther);
    var body := whole + "." + frac;
    assert ParseEtherMagnitude(body) == Some(magnitude) by {
      ParseEtherMagnitudeOfParts(whole, frac);
      WholeAndFraction(magnitude);
    }
    assert body[0] != '-' by {
      assert body[0] == whole[0] && IsDigit(whole[0]);
    }
    assert FormatEther(wei) == (if wei < 0 then "-" else "") + body;
    ParseEtherSigned(wei < 0, body, magnitude);
  }

  /** `value.slice(0, end)`. */
  function Slice(s: string, end: nat): string {
    if |s| <= end then s else s[..end]
  }

  /** `formatEtherValue`: the first six characters of the formatted amount
      followed by " ETH", or "0.0000 ETH" when the value is not an integer. */
  function FormatEtherValue(value: string): string {
    match Parse(value)
    case None => ParseErrorLabel
    case Some(wei) => Slice(FormatEther(wei), 6) + Unit
  }

  /** `formatEtherValue` never fails; the label is at most six characters of
      the formatted amount followed by " ETH", and "0.0000 ETH" when the
      value is not an integer. */
  lemma EtherLabelShape(value: string)
    ensures var text := FormatEtherValue(value);
      && 4 < |text| <= 10 && text[|text| - 4..] == Unit
      && (Parse(value).None? ==> text == ParseErrorLabel)
      && (Parse(value).Some? ==>
            var full := FormatEther(Parse(value).value);
            var shown := text[..|text| - 4];
            |shown| <= 6 && shown <= full && (|shown| == 6 || shown == full))
  {
    if Parse(value).Some? {
      var shown := Slice(FormatEther(Parse(value).value), 6);
      var text := shown + Unit;
      assert text[..|text| - 4] == shown;
    }
  }

  /** Amounts below 100000 ether keep their whole part: the label starts
      with the exact number of whole ethers and the point. */
  lemma LabelShowsWholeEther(wei: nat)
    requires wei < 100000 * WeiPerEther
    ensures NatToDigits(wei / WeiPerEther) + "." <= FormatEtherValue(ToDecimal(wei))
  {
    var whole := NatToDigits(wei / WeiPerEther);
    if |whole| > 5 {
      PowMonotone(5, |whole| - 1);
      DigitsValueLowerBound(whole);
      Pow10Of5();
      assert false;
    }
    var full := FormatEther(wei);
    assert full == whole + "." + Fraction(wei % WeiPerEther);
    assert whole + "." <= full;
  }

  /** From 100000 ether up the label is the first six digits of the whole
      amount without a point: the order of magnitude of larger amounts is
      not visible in the label (1234567 ether reads "123456 ETH"). */
  lemma LabelOfLargeAmount(wei: nat)
    requires wei >= 100000 * WeiPerEther
    ensures var whole := NatToDigits(wei / WeiPerEther);
      |whole| >= 6 && FormatEtherValue(ToDecimal(wei)) == whole[..6] + Unit
  {
    var whole := NatToDigits(wei / WeiPerEther);
    if |whole| < 6 {
      PowMonotone(|whole|, 5);
      DigitsValueUpperBound(whole);
      Pow10Of5();
      assert false;
    }
    var full := FormatEther(wei);
    assert full == whole + "." + Fraction(wei % WeiPerEther);
    assert full[..6] == whole[..6];
  }

  lemma FormatOneAndAHalfEther(wei: int)
    requires wei == 1_500_000_000_000_000_000
    ensures FormatEther(wei) == "1.5"
  {
    var d, k := 5, 17;
    assert Shifted(d, k) == wei % WeiPerEther by {
      WeiPerEtherIsPow10();
      ShiftedIsProduct(d, k);
      assert Pow10(18) == 10 * Pow10(k);
    }
    FractionOfSingleDigit(d, k);
    assert Fraction(wei % WeiPerEther) == "5";
    assert NatToDigits(wei / WeiPerEther) == "1" by {
      assert wei / WeiPerEther == 1;
    }
    assert FormatEther(wei) == "" + "1" + "." + "5";
  }

  /** 1.5 ether is labelled "1.5 ETH": the label keeps up to six characters
      of the trimmed text rather than padding to four decimals. */
  lemma OneAndAHalfEtherLabel(wei: int)
    requires wei == 1_500_000_000_000_000_000
    ensures FormatEtherValue(ToDecimal(wei)) == "1.5" + Unit
  {
    FormatOneAndAHalfEther(wei);
    LabelOfAmount(ToDecimal(wei), wei);
  }

  /** The label of a value that parses to `wei`. */
  lemma LabelOfAmount(value: string, wei: int)
    requires Parse(value) == Some(wei)
    ensures FormatEtherValue(value) == Slice(FormatEther(wei), 6) + Unit
  {
  }

  function Zeros(n: nat): (z: string)
    ensures |z| == n && AllDigits(z) && DigitsValue(z) == 0
    ensures forall i | 0 <= i < n :: z[i] == '0'
  {
    if n == 0 then [] else
      var z := Zeros(n - 1) + "0";
      assert z[..|z| - 1] == Zeros(n - 1);
      z
  }

  lemma AppendZero(p: string, k: nat)
    requires k > 0
    ensures p + Zeros(k - 1) + "0" == p + Zeros(k)
  {
    assert Zeros(k) == Zeros(k - 1) + "0";
  }

  /** The digit d followed by k zeros, as a number. */
  function Shifted(d: nat, k: nat): nat {
    if k == 0 then d else Shifted(d, k - 1) * 10
  }

  lemma {:induction false} ShiftedIsProduct(d: nat, k: nat)
    ensures Shifted(d, k) == d * Pow10(k)
  {
    if k > 0 {
      ShiftedIsProduct(d, k - 1);
      assert d * Pow10(k) == d * Pow10(k - 1) * 10;
    }
  }

  lemma DigitsTimesTen(m: nat)
    requires m > 0
    ensures NatToDigits(m * 10) == NatToDigits(m) + "0"
  {
    var n := m * 10;
    assert n / 10 == m && n % 10 == 0;
  }

  lemma {:induction false} DigitsOfShifted(d: nat, k: nat)
    requires 0 < d < 10
    ensures Shifted(d, k) > 0
    ensures NatToDigits(Shifted(d, k)) == [DigitChar(d)] + Zeros(k)
  {
    if k > 0 {
      DigitsOfShifted(d, k - 1);
      ShiftedStep(d, k, Shifted(d, k - 1));
    }
  }

  /** One more zero: the step of `DigitsOfShifted`. */
  lemma ShiftedStep(d: nat, k: nat, m: nat)
    requires 0 < d < 10 && k > 0 && m == Shifted(d, k - 1) > 0
    requires NatToDigits(m) == [DigitChar(d)] + Zeros(k - 1)
    ensures Shifted(d, k) > 0
    ensures NatToDigits(Shifted(d, k)) == [DigitChar(d)] + Zeros(k)
  {
    DigitsTimesTen(m);
    AppendZero([DigitChar(d)], k);
  }

  lemma {:induction false} TrimDigitThenZeros(d: nat, k: nat)
    requires 0 < d < 10
    ensures TrimTrailingZeros([DigitChar(d)] + Zeros(k)) == [DigitChar(d)]
  {
    if k > 0 {
      var s := [DigitChar(d)] + Zeros(k);
      assert s[..|s| - 1] == [DigitChar(d)] + Zeros(k - 1);
      TrimDigitThenZeros(d, k - 1);
    }
  }

  /** The fraction of d * 10^17 wei (a single non-zero digit in the first
      decimal place) is that digit. */
  lemma FractionOfSingleDigit(d: nat, k: nat)
    requires 0 < d < 10 && k + 1 == EtherDecimals
    ensures Shifted(d, k) < WeiPerEther
    ensures Fraction(Shifted(d, k)) == [DigitChar(d)]
  {
    WeiPerEtherIsPow10();
    ShiftedIsProduct(d, k);
    DigitsOfShifted(d, k);
    TrimDigitThenZeros(d, k);
  }
}
