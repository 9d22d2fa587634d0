/** Plain decimal literals: reading and writing them, and the exact number a text denotes. */
module DecimalText {
  import opened NumberText
  import opened Wrappers
  import Text

  function P(exponent: nat): nat { Pow(10, exponent) }

  // n followed by `places` zeros
  function Scaled(n: int, places: nat): int { n * P(places) }

  predicate IsNumber(s: string) { IsNumeral(s, 10) }

  function Number(s: string): nat
    requires IsNumber(s)
  {
    Value(s, 10)
  }

  // -?\d+(\.\d+)? with the parts it matches; the fraction is empty without a point.
  datatype Decimal = Decimal(negative: bool, whole: string, fraction: string)

  predicate WellFormed(d: Decimal) { d.whole != "" && IsNumber(d.whole) && IsNumber(d.fraction) }

  function Parse(s: string): Option<Decimal> {
    var negative := Text.StartsWith(s, "-");
    var body := if negative then s[1..] else s;
    var d := Decimal(negative, Text.Before(body, '.'), if '.' in body then Text.After(body, '.') else "");
    if WellFormed(d) && ('.' in body ==> d.fraction != "") then Some(d) else None
  }

  function Sign(negative: bool): string { if negative then "-" else "" }

  function Body(whole: string, fraction: string): string {
    if fraction == "" then whole else whole + "." + fraction
  }

  function Show(d: Decimal): string { Sign(d.negative) + Body(d.whole, d.fraction) }

  function Signed(negative: bool, magnitude: nat): int { if negative then 0 - magnitude else magnitude }

  // The digits without the point; the number is Units / 10^|fraction|.
  function Units(d: Decimal): int
    requires WellFormed(d)
  {
    ValueOfConcat(d.whole, d.fraction, 10);
    Signed(d.negative, Number(d.whole + d.fraction))
  }

  // The text is a decimal literal for units / 10^scale.
  ghost predicate Denotes(text: string, units: int, scale: nat) {
    && Parse(text).Some?
    && WellFormed(Parse(text).value)
    && Scaled(Units(Parse(text).value), scale) == Scaled(units, |Parse(text).value.fraction|)
  }

  // No superfluous zero before the whole part or after the fraction.
  predicate IsShortest(text: string) {
    && Parse(text).Some?
    && IsCanonical(Parse(text).value.whole, 10)
    && var fraction := Parse(text).value.fraction;
       fraction != "" ==> fraction[|fraction| - 1] != '0'
  }

  function Abs(x: int): nat { if x < 0 then -x else x }

  // t is numerator / denominator truncated toward zero.
  ghost predicate Truncates(t: int, numerator: int, denominator: nat) {
    && Abs(t) * denominator <= Abs(numerator) < (Abs(t) + 1) * denominator
    && (0 < t ==> 0 < numerator)
    && (t < 0 ==> numerator < 0)
  }

  // JavaScript's bigint division.
  function Quot(numerator: int, denominator: nat): int
    requires 0 < denominator
  {
    Signed(numerator < 0, Abs(numerator) / denominator)
  }

  lemma FloorBounds(n: nat, d: nat)
    requires 0 < d
    ensures 0 <= n / d && n / d * d <= n < (n / d + 1) * d
  {
  }

  lemma QuotTruncates(numerator: int, denominator: nat)
    requires 0 < denominator
    ensures Truncates(Quot(numerator, denominator), numerator, denominator)
  {
    FloorBounds(Abs(numerator), denominator);
    if numerator == 0 {
      assert 0 / denominator == 0;
    }
  }

  /** Truncation is determined by its bounds. */
  lemma TruncationIsUnique(s: int, t: int, numerator: int, denominator: nat)
    requires Truncates(s, numerator, denominator) && Truncates(t, numerator, denominator)
    ensures s == t
  {
    if Abs(s) < Abs(t) {
      MulStrict(Abs(s), Abs(t), denominator);
    } else if Abs(t) < Abs(s) {
      MulStrict(Abs(t), Abs(s), denominator);
    }
  }

  lemma BodySplits(whole: string, fraction: string)
    requires whole != "" && IsNumber(whole) && IsNumber(fraction)
    ensures var body := Body(whole, fraction);
            && !Text.StartsWith(body, "-")
            && Text.Before(body, '.') == whole
            && ('.' in body <==> fraction != "")
            && ('.' in body ==> Text.After(body, '.') == fraction)
  {
    if fraction == "" {
      Text.BeforeNothing(whole, '.');
    } else {
      Text.BeforeSeparator(whole, '.', fraction);
      assert Body(whole, fraction) == whole + ['.'] + fraction;
    }
    assert Body(whole, fraction)[0] == whole[0];
    assert whole[0] in whole;
  }

  /** Reading what was shown gives the literal back. */
  lemma ShowParses(d: Decimal)
    requires WellFormed(d)
    ensures Parse(Show(d)) == Some(d)
  {
    BodySplits(d.whole, d.fraction);
    var s := Show(d);
    if d.negative {
      assert s[0] == '-' && s[1..] == Body(d.whole, d.fraction);
    } else {
      assert s == Body(d.whole, d.fraction);
    }
  }

  lemma BodyRebuilds(body: string)
    ensures '.' !in body ==> Text.Before(body, '.') == body
    ensures '.' in body ==> Text.Before(body, '.') + "." + Text.After(body, '.') == body
  {
    var i := Text.IndexOf(body, '.');
    if '.' in body {
      assert body == body[..i] + ['.'] + body[i + 1..];
    }
  }

  /** A literal that was read is shown as the text it came from. */
  lemma ParseShows(s: string)
    requires Parse(s).Some?
    ensures WellFormed(Parse(s).value) && Show(Parse(s).value) == s
  {
    hide Text.Before, Text.After, IsNumber;
    var negative := Text.StartsWith(s, "-");
    var body := if negative then s[1..] else s;
    BodyRebuilds(body);
    assert s == Sign(negative) + body;
  }

  // ----- Leading and trailing zeros -----

  // replace(/^0+(?=\d)/, "")
  function StripLeading(s: string): string {
    if |s| > 1 && s[0] == '0' && IsDigit(s[1], 10) then StripLeading(s[1..]) else s
  }

  // replace(/0+$/, "")
  function StripTrailing(s: string): string {
    if s != "" && s[|s| - 1] == '0' then StripTrailing(s[..|s| - 1]) else s
  }

  lemma {:induction false} StripLeadingEffect(s: string)
    requires s != "" && IsNumber(s)
    ensures var t := StripLeading(s);
            t != "" && IsNumber(t) && Number(t) == Number(s) && IsCanonical(t, 10)
  {
    if |s| > 1 && s[0] == '0' {
      StripLeadingEffect(s[1..]);
      assert Zeros(1) == Zeros(0) + "0" == "0";
      LeadingZeros(1, s[1..], 10);
      assert s == "0" + s[1..];
    }
  }

  lemma {:induction false} StripTrailingEffect(s: string)
    requires IsNumber(s)
    ensures var t := StripTrailing(s);
            && IsNumber(t) && |t| <= |s| && s == t + Zeros(|s| - |t|)
            && (t != "" ==> t[|t| - 1] != '0')
  {
    if s != "" && s[|s| - 1] == '0' {
      StripTrailingEffect(s[..|s| - 1]);
    }
  }

  lemma PadStartEffect(s: string, width: nat)
    requires IsNumber(s)
    ensures var t := PadStart(s, width);
            && IsNumber(t) && Number(t) == Number(s)
            && |t| == if |s| < width then width else |s|
  {
    hide Value, Zeros;
    if |s| < width {
      ZerosShape(width - |s|);
      LeadingZeros(width - |s|, s, 10);
    }
  }

  lemma PadEndEffect(s: string, width: nat)
    requires IsNumber(s) && |s| <= width
    ensures var t := PadEnd(s, width);
            IsNumber(t) && |t| == width && Number(t) == Scaled(Number(s), width - |s|)
  {
    hide Zeros, IsNumeral, Value;
    ZerosShape(width - |s|);
    TrailingZeros(s, width - |s|, 10);
    if |s| == width {
      assert P(0) == 1;
    }
  }

  lemma ScaledAdds(n: int, a: nat, b: nat)
    ensures Scaled(n, a + b) == Scaled(Scaled(n, a), b) == Scaled(Scaled(n, b), a)
  {
    PowAdds(10, a, b);
    assert n * (P(a) * P(b)) == (n * P(a)) * P(b) == (n * P(b)) * P(a);
  }

  lemma ScaledNat(n: nat, places: nat)
    ensures 0 <= Scaled(n, places)
  {
  }

  lemma ScaledSigned(negative: bool, n: nat, places: nat)
    ensures 0 <= Scaled(n, places) && Scaled(Signed(negative, n), places) == Signed(negative, Scaled(n, places))
  {
  }

  /**
   * A literal denotes the number of any whole and fraction digits that differ from its own only by zeros
   * before the whole part and after the fraction.
   */
  lemma ShownDenotes(d: Decimal, whole: string, fraction: string)
    requires WellFormed(d) && IsNumber(whole) && IsNumber(fraction)
    requires d.whole == whole || (whole != "" && d.whole == StripLeading(whole))
    requires |d.fraction| <= |fraction| && fraction == d.fraction + Zeros(|fraction| - |d.fraction|)
    ensures IsNumber(whole + fraction)
    ensures Denotes(Show(d), Signed(d.negative, Number(whole + fraction)), |fraction|)
  {
    hide Parse, Show, WellFormed, Number, IsNumber, Units, Signed, Scaled, Zeros;
    ShowParses(d);
    DigitsScale(d, whole, fraction);
    UnitsAreDigits(d);
    var zeros, units := |fraction| - |d.fraction|, Number(d.whole + d.fraction);
    ScaledSigned(d.negative, units, zeros);
    ScaledAdds(Signed(d.negative, units), zeros, |d.fraction|);
  }

  lemma UnitsAreDigits(d: Decimal)
    requires WellFormed(d)
    ensures IsNumber(d.whole + d.fraction) && Units(d) == Signed(d.negative, Number(d.whole + d.fraction))
  {
    ValueOfConcat(d.whole, d.fraction, 10);
  }

  lemma DigitsScale(d: Decimal, whole: string, fraction: string)
    requires WellFormed(d) && IsNumber(whole) && IsNumber(fraction)
    requires d.whole == whole || (whole != "" && d.whole == StripLeading(whole))
    requires |d.fraction| <= |fraction| && fraction == d.fraction + Zeros(|fraction| - |d.fraction|)
    ensures IsNumber(whole + fraction) && IsNumber(d.whole + d.fraction)
    ensures Number(whole + fraction) == Scaled(Number(d.whole + d.fraction), |fraction| - |d.fraction|)
  {
    hide Value, Pow, Zeros, IsNumeral, StripLeading, IsCanonical;
    var zeros := |fraction| - |d.fraction|;
    if d.whole != whole {
      StripLeadingEffect(whole);
    }
    ValueOfConcat(d.whole, d.fraction, 10);
    ValueOfConcat(whole, d.fraction, 10);
    var digits := whole + d.fraction;
    assert Number(digits) == Number(d.whole + d.fraction);
    TrailingZeros(digits, zeros, 10);
    assert whole + fraction == digits + Zeros(zeros);
  }

  /** Two readings of one text are the same number. */
  lemma DenotesIsUnique(text: string, a: int, m: nat, b: int, n: nat)
    requires Denotes(text, a, m) && Denotes(text, b, n)
    ensures Scaled(a, n) == Scaled(b, m)
  {
    var d := Parse(text).value;
    var u, k := Units(d), |d.fraction|;
    hide Scaled, Parse, Units;
    ScaledAdds(a, n, k);
    ScaledAdds(b, m, k);
    ScaledAdds(u, m, n);
    Cancel(Scaled(a, n), Scaled(b, m), k);
  }

  lemma Cancel(x: int, y: int, places: nat)
    requires Scaled(x, places) == Scaled(y, places)
    ensures x == y
  {
    PowPositive(10, places);
    assert (x - y) * P(places) == 0;
  }
}
