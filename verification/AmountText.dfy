/** Amounts as text: base units to decimals and back, truncation, and scientific notation. */
module AmountText {
  import opened DecimalText
  import opened NumberText
  import opened Wrappers
  import Text

  datatype AmountError = BadDecimals | NotADecimal | TooManyPlaces | ExponentOutOfRange

  const MAX_DECIMALS: nat := 77
  const MAX_EXPONENT: nat := 1000

  // -?\d+
  predicate IsInteger(s: string) {
    var digits := if Text.StartsWith(s, "-") then s[1..] else s;
    digits != "" && IsNumber(digits)
  }

  function IntegerDigits(s: string): (digits: string)
    requires IsInteger(s)
    ensures digits != "" && IsNumber(digits)
  {
    if Text.StartsWith(s, "-") then s[1..] else s
  }

  function IntegerValue(s: string): int
    requires IsInteger(s)
  {
    Signed(Text.StartsWith(s, "-"), Number(IntegerDigits(s)))
  }

  // Text that is not an integer passes through.
  function FromBaseUnits(raw: string, decimals: int): Result<string, AmountError> {
    if !(0 <= decimals <= MAX_DECIMALS) then Err(BadDecimals)
    else if !IsInteger(raw) then Ok(raw)
    else
      var digits := PadStart(IntegerDigits(raw), decimals + 1);
      var cut: nat := if |digits| < decimals then 0 else |digits| - decimals;
      Ok(Sign(Text.StartsWith(raw, "-")) + Body(StripLeading(digits[..cut]), StripTrailing(digits[cut..])))
  }

  // Decimals with more places than the unit has are refused.
  function ToBaseUnits(value: string, decimals: int): Result<string, AmountError> {
    if !(0 <= decimals <= MAX_DECIMALS) then Err(BadDecimals)
    else
      match Parse(Text.Trim(value))
      case None => Err(NotADecimal)
      case Some(d) =>
        if d.negative then Err(NotADecimal)
        else if decimals < |d.fraction| then Err(TooManyPlaces)
        else
          var digits := StripLeading(d.whole + PadEnd(d.fraction, decimals));
          Ok(if digits == "" then "0" else digits)
  }

  predicate IsZeros(s: string) { s != "" && forall i :: 0 <= i < |s| ==> s[i] == '0' }

  // Text that is not a decimal literal passes through trimmed.
  function ToBaseUnitsTruncating(value: string, decimals: int): Result<string, AmountError> {
    var raw := Text.Trim(value);
    if !(0 <= decimals <= MAX_DECIMALS) then Err(BadDecimals)
    else
      match Parse(raw)
      case None => Ok(raw)
      case Some(d) =>
        var digits := StripLeading(d.whole + PadEnd(Text.Take(d.fraction, decimals), decimals));
        Ok(if IsZeros(digits) then "0" else Sign(d.negative) + digits)
  }

  // ----- Base units -----

  lemma DigitsSplit(digits: string, cut: nat)
    requires IsNumber(digits) && cut <= |digits|
    ensures IsNumber(digits[..cut]) && IsNumber(digits[cut..]) && digits[..cut] + digits[cut..] == digits
  {
  }

  /** The decimal text denotes exactly the base units, with no superfluous zero at either end. */
  lemma FromBaseUnitsIsExact(raw: string, decimals: nat)
    requires IsInteger(raw) && decimals <= 77
    ensures FromBaseUnits(raw, decimals).Ok?
    ensures var text := FromBaseUnits(raw, decimals).value;
            && Denotes(text, IntegerValue(raw), decimals)
            && var d := Parse(text).value;
               && d.negative == Text.StartsWith(raw, "-")
               && IsCanonical(d.whole, 10)
               && |d.fraction| <= decimals
               && (d.fraction != "" ==> d.fraction[|d.fraction| - 1] != '0')
  {
    hide Zeros, IsNumber, Number, IsCanonical, StripLeading, StripTrailing, Denotes, Parse, PadStart, WellFormed;
    var body := IntegerDigits(raw);
    PadStartEffect(body, decimals + 1);
    var digits := PadStart(body, decimals + 1);
    var cut := |digits| - decimals;
    DigitsSplit(digits, cut);
    StripLeadingEffect(digits[..cut]);
    StripTrailingEffect(digits[cut..]);
    var d := Decimal(Text.StartsWith(raw, "-"), StripLeading(digits[..cut]), StripTrailing(digits[cut..]));
    IsWellFormed(d);
    ShowParses(d);
    ShownDenotes(d, digits[..cut], digits[cut..]);
  }

  lemma IsWellFormed(d: Decimal)
    requires d.whole != "" && IsNumber(d.whole) && IsNumber(d.fraction)
    ensures WellFormed(d)
  {
  }

  lemma PaddedDigits(d: Decimal, places: nat)
    requires WellFormed(d) && |d.fraction| <= places
    ensures IsNumber(d.whole + PadEnd(d.fraction, places)) && IsNumber(d.whole + d.fraction)
    ensures Number(d.whole + PadEnd(d.fraction, places))
            == Scaled(Number(d.whole + d.fraction), places - |d.fraction|)
  {
    PadEndEffect(d.fraction, places);
    assert Zeros(0) == "";
    DigitsScale(d, d.whole, PadEnd(d.fraction, places));
  }

  lemma NonNegativeUnits(d: Decimal)
    requires WellFormed(d) && !d.negative
    ensures IsNumber(d.whole + d.fraction) && Units(d) == Number(d.whole + d.fraction)
  {
    UnitsAreDigits(d);
  }

  /** An amount is accepted exactly when it is an unsigned decimal that fits, and is then converted exactly. */
  lemma ToBaseUnitsIsExact(value: string, decimals: nat)
    requires decimals <= 77
    ensures var literal := Parse(Text.Trim(value));
            ToBaseUnits(value, decimals).Ok? <==>
            literal.Some? && !literal.value.negative && |literal.value.fraction| <= decimals
    ensures ToBaseUnits(value, decimals).Ok? ==>
              var units := ToBaseUnits(value, decimals).value;
              && IsNumber(units) && IsCanonical(units, 10)
              && Denotes(Text.Trim(value), Number(units), decimals)
  {
    hide Text.Trim, Parse, PadEnd, IsNumber, Number, Scaled, StripLeading, Units, IsCanonical, WellFormed;
    var text := Text.Trim(value);
    if ToBaseUnits(value, decimals).Ok? {
      var d := Parse(text).value;
      ParseShows(text);
      PaddedDigits(d, decimals);
      WholeIsSomething(d, PadEnd(d.fraction, decimals));
      var padded := d.whole + PadEnd(d.fraction, decimals);
      StripLeadingEffect(padded);
      NonNegativeUnits(d);
      ScaledAdds(Units(d), decimals - |d.fraction|, |d.fraction|);
      assert ToBaseUnits(value, decimals).value == StripLeading(padded);
    }
  }

  lemma WholeIsSomething(d: Decimal, rest: string)
    requires WellFormed(d)
    ensures d.whole + rest != ""
  {
  }

  lemma ShownIsTrimmed(text: string)
    requires Parse(text).Some?
    ensures Text.Trim(text) == text
  {
    ParseShows(text);
    var d := Parse(text).value;
    hide Parse, WellFormed;
    assert text == Show(d);
    ShownEnds(d);
    Text.TrimOfTrimmed(text);
  }

  lemma ShownEnds(d: Decimal)
    requires WellFormed(d)
    ensures Show(d) != "" && !Text.IsSpace(Show(d)[0]) && !Text.IsSpace(Show(d)[|Show(d)| - 1])
  {
    var s := Show(d);
    assert s[0] == if d.negative then '-' else d.whole[0];
    assert IsDigit(d.whole[0], 10) && IsDigit(d.whole[|d.whole| - 1], 10);
    if d.fraction == "" {
      assert s[|s| - 1] == d.whole[|d.whole| - 1];
    } else {
      assert s[|s| - 1] == d.fraction[|d.fraction| - 1];
      assert IsDigit(d.fraction[|d.fraction| - 1], 10);
    }
  }

  lemma CanonicalWithValue(a: string, b: string)
    requires IsCanonical(a, 10) && IsCanonical(b, 10) && IsNumber(a) && IsNumber(b) && Number(a) == Number(b)
    ensures a == b
  {
    CanonicalPrints(a, 10);
    CanonicalPrints(b, 10);
  }

  /** Base units written as a decimal and read again are the same base units, without leading zeros. */
  lemma BaseUnitsRoundTrip(raw: string, decimals: nat)
    requires raw != "" && IsNumber(raw) && decimals <= 77
    ensures IsInteger(raw) && FromBaseUnits(raw, decimals).Ok?
    ensures ToBaseUnits(FromBaseUnits(raw, decimals).value, decimals) == Ok(StripLeading(raw))
    ensures IsCanonical(raw, 10) ==> StripLeading(raw) == raw
  {
    hide FromBaseUnits, ToBaseUnits, Parse, Number, StripLeading, IsNumber, IsCanonical, Denotes, Scaled, Text.Trim;
    NumbersAreIntegers(raw);
    FromBaseUnitsIsExact(raw, decimals);
    var text := FromBaseUnits(raw, decimals).value;
    DenotesParses(text, IntegerValue(raw), decimals);
    ShownIsTrimmed(text);
    ToBaseUnitsIsExact(text, decimals);
    var units := ToBaseUnits(text, decimals).value;
    DenotesIsUnique(text, Number(raw), decimals, Number(units), decimals);
    Cancel(Number(raw), Number(units), decimals);
    StripLeadingEffect(raw);
    CanonicalWithValue(StripLeading(raw), units);
    if IsCanonical(raw, 10) {
      CanonicalWithValue(StripLeading(raw), raw);
    }
  }

  lemma NumbersAreIntegers(raw: string)
    requires raw != "" && IsNumber(raw)
    ensures IsInteger(raw) && !Text.StartsWith(raw, "-") && IntegerValue(raw) == Number(raw)
  {
    assert IsDigit(raw[0], 10);
  }

  lemma DenotesParses(text: string, units: int, scale: nat)
    requires Denotes(text, units, scale)
    ensures Parse(text).Some?
  {
  }

  /** A decimal amount converted to base units and back is the same number. */
  lemma DecimalRoundTrip(value: string, decimals: nat)
    requires decimals <= 77 && ToBaseUnits(value, decimals).Ok?
    ensures var units := ToBaseUnits(value, decimals).value;
            && FromBaseUnits(units, decimals).Ok?
            && IsNumber(units)
            && Denotes(Text.Trim(value), Number(units), decimals)
            && Denotes(FromBaseUnits(units, decimals).value, Number(units), decimals)
  {
    hide FromBaseUnits, Number, IsNumber, IsCanonical, Denotes, Text.Trim;
    ToBaseUnitsIsExact(value, decimals);
    var units := ToBaseUnits(value, decimals).value;
    NumbersAreIntegers(units);
    FromBaseUnitsIsExact(units, decimals);
  }

  /** Decimals are checked first, and text that is not a number of the kind asked for is refused or passed on. */
  lemma OtherInputs(text: string, decimals: int)
    ensures FromBaseUnits(text, decimals) == Err(BadDecimals) <==> !(0 <= decimals <= 77)
    ensures ToBaseUnits(text, decimals) == Err(BadDecimals) <==> !(0 <= decimals <= 77)
    ensures ToBaseUnitsTruncating(text, decimals) == Err(BadDecimals) <==> !(0 <= decimals <= 77)
    ensures 0 <= decimals <= 77 ==>
              && (!IsInteger(text) ==> FromBaseUnits(text, decimals) == Ok(text))
              && (Parse(Text.Trim(text)).None? ==>
                    && ToBaseUnits(text, decimals) == Err(NotADecimal)
                    && ToBaseUnitsTruncating(text, decimals) == Ok(Text.Trim(text)))
              && (Parse(Text.Trim(text)).Some? && Parse(Text.Trim(text)).value.negative ==>
                    ToBaseUnits(text, decimals) == Err(NotADecimal))
              && (Parse(Text.Trim(text)).Some? && !Parse(Text.Trim(text)).value.negative
                  && decimals < |Parse(Text.Trim(text)).value.fraction| ==>
                    ToBaseUnits(text, decimals) == Err(TooManyPlaces))
  {
    hide Parse, Text.Trim, IsInteger, PadEnd, StripLeading, StripTrailing;
  }

  // ----- Truncation -----

  // The digits kept of a fraction that is longer than the places.
  lemma KeptDigits(d: Decimal, places: nat)
    requires WellFormed(d) && places < |d.fraction|
    ensures IsNumber(d.whole + d.fraction[..places]) && IsNumber(d.whole + d.fraction)
    ensures var kept := Number(d.whole + d.fraction[..places]);
            var all := Number(d.whole + d.fraction);
            Scaled(kept, |d.fraction| - places) <= all < Scaled(kept + 1, |d.fraction| - places)
  {
    var head, tail := d.whole + d.fraction[..places], d.fraction[places..];
    DigitsSplit(d.fraction, places);
    ValueOfConcat(d.whole, d.fraction, 10);
    ValueOfConcat(d.whole, d.fraction[..places], 10);
    assert d.whole + d.fraction == head + tail;
    hide Value, IsNumeral, Pow;
    ValueOfConcat(head, tail, 10);
    ValueBound(tail, 10);
    Distribute(Number(head), 1, P(|tail|));
  }

  lemma ScaledGrows(a: int, b: int, places: nat)
    ensures a < b ==> Scaled(a, places) < Scaled(b, places)
    ensures a <= b ==> Scaled(a, places) <= Scaled(b, places)
  {
    hide Pow;
    PowPositive(10, places);
    if a < b {
      ProductGrows(b - a, P(places));
      assert Scaled(b, places) - Scaled(a, places) == (b - a) * P(places);
    }
  }

  lemma ProductGrows(n: nat, p: nat)
    requires 0 < n && 0 < p
    ensures p <= n * p
  {
  }

  // |t| * 10^scale <= n * 10^places < (|t| + 1) * 10^scale, with a common sign.
  lemma TruncatesWithSign(negative: bool, t: nat, n: nat, places: nat, scale: nat)
    requires Scaled(t, scale) <= Scaled(n, places) < Scaled(t + 1, scale)
    ensures Truncates(Signed(negative, t), Scaled(Signed(negative, n), places), P(scale))
  {
    ScaledSigned(negative, n, places);
    PowPositive(10, scale);
    if t != 0 {
      assert 1 * P(scale) <= t * P(scale);
    }
  }

  lemma DigitsTruncate(d: Decimal, places: nat)
    requires WellFormed(d)
    ensures var digits := d.whole + PadEnd(Text.Take(d.fraction, places), places);
            && IsNumber(digits) && IsNumber(d.whole + d.fraction)
            && var t, n := Number(digits), Number(d.whole + d.fraction);
               Scaled(t, |d.fraction|) <= Scaled(n, places) < Scaled(t + 1, |d.fraction|)
  {
    hide Number, IsNumber, WellFormed, Scaled;
    var scale := |d.fraction|;
    if scale <= places {
      PaddedDigits(d, places);
      TakeAll(d.fraction, places);
      var n := Number(d.whole + d.fraction);
      var t := Number(d.whole + PadEnd(d.fraction, places));
      ScaledAdds(n, places - scale, scale);
      ScaledGrows(t, t + 1, scale);
    } else {
      KeptDigits(d, places);
      PadNothing(d.fraction[..places], places);
      var n, kept := Number(d.whole + d.fraction), Number(d.whole + d.fraction[..places]);
      ScaledAdds(kept, scale - places, places);
      ScaledAdds(kept + 1, scale - places, places);
      ScaledGrows(Scaled(kept, scale - places), n, places);
      ScaledGrows(n, Scaled(kept + 1, scale - places), places);
    }
  }

  lemma TakeAll(s: string, places: nat)
    requires |s| <= places
    ensures Text.Take(s, places) == s
  {
  }

  lemma PadNothing(s: string, places: nat)
    requires |s| == places
    ensures PadEnd(s, places) == s
  {
  }

  /** On a decimal literal the base units are the exact amount truncated toward zero. */
  lemma ToBaseUnitsTruncates(value: string, decimals: nat)
    requires decimals <= 77 && Parse(Text.Trim(value)).Some?
    ensures ToBaseUnitsTruncating(value, decimals).Ok?
    ensures var text := ToBaseUnitsTruncating(value, decimals).value;
            var d := Parse(Text.Trim(value)).value;
            && WellFormed(d) && IsInteger(text)
            && Truncates(IntegerValue(text), Scaled(Units(d), decimals), P(|d.fraction|))
            && (IntegerValue(text) == 0 ==> text == "0")
  {
    hide Text.Trim, Parse, PadEnd, IsNumber, Number, Scaled, StripLeading, WellFormed, Truncates, IsCanonical, P;
    var d := Parse(Text.Trim(value)).value;
    ParseShows(Text.Trim(value));
    UnitsAreDigits(d);
    DigitsTruncate(d, decimals);
    var padding := PadEnd(Text.Take(d.fraction, decimals), decimals);
    WholeIsSomething(d, padding);
    var digits := d.whole + padding;
    StripLeadingEffect(digits);
    TruncatesWithSign(d.negative, Number(digits), Number(d.whole + d.fraction), decimals, |d.fraction|);
    SignedText(d.negative, StripLeading(digits));
  }

  lemma SignedText(negative: bool, digits: string)
    requires IsNumber(digits) && IsCanonical(digits, 10)
    ensures var text := if IsZeros(digits) then "0" else Sign(negative) + digits;
            && IsInteger(text) && IntegerValue(text) == Signed(negative, Number(digits))
            && (IntegerValue(text) == 0 ==> text == "0")
  {
    hide Value;
    if digits[0] == '0' {
      assert digits == "0";
      OneZero();
      ZerosValue(1, 10);
      NumbersAreIntegers("0");
    } else {
      CanonicalIsPositive(digits, 10);
      assert IsDigit(digits[0], 10);
      NonZeroText(negative, digits);
    }
  }

  lemma NonZeroText(negative: bool, digits: string)
    requires IsNumber(digits) && digits != "" && digits[0] != '-'
    ensures var text := Sign(negative) + digits;
            IsInteger(text) && IntegerValue(text) == Signed(negative, Number(digits))
  {
    hide Number, IsNumber;
    var text := Sign(negative) + digits;
    if negative {
      assert text[1..] == digits;
    } else {
      assert text == digits;
    }
  }

  // ----- Scientific notation -----

  // ^(-?)(\d+)(?:\.(\d+))?[eE]([+-]?\d+)$
  datatype Scientific = Scientific(mantissa: Decimal, power: int)

  function ExponentMark(s: string): (i: nat)
    ensures i <= |s|
  {
    if s == "" || s[0] == 'e' || s[0] == 'E' then 0 else 1 + ExponentMark(s[1..])
  }

  function ParseExponent(s: string): Option<int> {
    var digits := if Text.StartsWith(s, "+") || Text.StartsWith(s, "-") then s[1..] else s;
    if digits != "" && IsNumber(digits) then Some(Signed(Text.StartsWith(s, "-"), Number(digits))) else None
  }

  function ParseScientific(s: string): Option<Scientific> {
    var mark := ExponentMark(s);
    if mark == |s| then None
    else
      var mantissa, power := Parse(s[..mark]), ParseExponent(s[mark + 1..]);
      if mantissa.None? || power.None? then None else Some(Scientific(mantissa.value, power.value))
  }

  // The text before the zeros are stripped.
  function MovePoint(digits: string, point: int): string {
    if point <= 0 then "0." + Zeros(-point) + digits
    else if |digits| <= point then PadEnd(digits, point)
    else digits[..point] + "." + digits[point..]
  }

  function DropPoint(s: string): string {
    if s != "" && s[|s| - 1] == '.' then s[..|s| - 1] else s
  }

  function ExpandScientificNotation(value: string): Result<string, AmountError> {
    match ParseScientific(Text.Trim(value))
    case None => Ok(value)
    case Some(number) =>
      if MAX_EXPONENT < Abs(number.power) then Err(ExponentOutOfRange)
      else
        var m := number.mantissa;
        var moved := StripLeading(MovePoint(m.whole + m.fraction, |m.whole| + number.power));
        var out := if '.' in moved then DropPoint(StripTrailing(moved)) else moved;
        Ok(if out == "" || IsZeros(out) then "0" else Sign(m.negative) + out)
  }

  // Where the point goes: the whole and fraction digits of the moved text.
  function MovedWhole(digits: string, point: int): string {
    if point <= 0 then "0" else if |digits| <= point then PadEnd(digits, point) else digits[..point]
  }

  function MovedFraction(digits: string, point: int): string {
    if point <= 0 then Zeros(-point) + digits else if |digits| <= point then "" else digits[point..]
  }

  lemma MovedParts(digits: string, point: int)
    requires digits != "" && IsNumber(digits)
    ensures var whole, fraction := MovedWhole(digits, point), MovedFraction(digits, point);
            && MovePoint(digits, point) == Body(whole, fraction)
            && whole != "" && IsNumber(whole) && IsNumber(fraction)
  {
    hide PadEnd, Number, Zeros;
    if point <= 0 {
      LeadingZeros(-point, digits, 10);
      OneZero();
      assert IsDigit('0', 10);
      assert "0." + Zeros(-point) + digits == "0" + "." + (Zeros(-point) + digits);
    } else if |digits| <= point {
      PadEndEffect(digits, point);
    } else {
      DigitsSplit(digits, point);
    }
  }

  // Stripping the moved text strips the whole part on the left and the fraction on the right.
  lemma {:induction false} StripLeadingOfBody(whole: string, fraction: string)
    requires whole != "" && IsNumber(whole) && IsNumber(fraction)
    ensures StripLeading(Body(whole, fraction)) == Body(StripLeading(whole), fraction)
    ensures StripLeading(whole) != "" && IsNumber(StripLeading(whole))
    decreases |whole|
  {
    var body := Body(whole, fraction);
    assert body[0] == whole[0];
    if |whole| > 1 {
      assert body[1] == whole[1] && body[1..] == Body(whole[1..], fraction);
      assert IsDigit(whole[1], 10);
      if whole[0] == '0' {
        StripLeadingOfBody(whole[1..], fraction);
      }
    } else if fraction != "" {
      assert body[1] == '.';
    }
  }

  lemma {:induction false} StripTrailingOfBody(whole: string, fraction: string)
    requires IsNumber(fraction)
    ensures StripTrailing(whole + "." + fraction) == whole + "." + StripTrailing(fraction)
    decreases |fraction|
  {
    var s := whole + "." + fraction;
    if fraction != "" {
      assert s[|s| - 1] == fraction[|fraction| - 1];
      if fraction[|fraction| - 1] == '0' {
        assert s[..|s| - 1] == whole + "." + fraction[..|fraction| - 1];
        StripTrailingOfBody(whole, fraction[..|fraction| - 1]);
      }
    } else {
      assert s[|s| - 1] == '.';
    }
  }

  lemma CleanedBody(whole: string, fraction: string)
    requires whole != "" && IsNumber(whole) && IsNumber(fraction)
    ensures var moved := StripLeading(Body(whole, fraction));
            (if '.' in moved then DropPoint(StripTrailing(moved)) else moved)
            == Body(StripLeading(whole), StripTrailing(fraction))
  {
    hide StripLeading, StripTrailing, DropPoint, IsNumber;
    StripLeadingOfBody(whole, fraction);
    var stripped := StripLeading(whole);
    BodySplits(stripped, fraction);
    if fraction != "" {
      StripTrailingOfBody(stripped, fraction);
      StripTrailingEffect(fraction);
      DroppedPoint(stripped, StripTrailing(fraction));
    } else {
      NothingToStrip();
    }
  }

  lemma NothingToStrip()
    ensures StripTrailing("") == ""
  {
  }

  lemma DroppedPoint(whole: string, fraction: string)
    requires IsNumber(fraction)
    ensures DropPoint(whole + "." + fraction) == Body(whole, fraction)
  {
    var s := whole + "." + fraction;
    if fraction == "" {
      assert s == whole + ".";
      assert s[..|s| - 1] == whole;
    } else {
      assert s[|s| - 1] == fraction[|fraction| - 1] && IsDigit(fraction[|fraction| - 1], 10);
    }
  }

  // What the moved digits denote, over the scale of the mantissa.
  lemma MovedNumber(m: Decimal, power: int)
    requires WellFormed(m)
    ensures var digits, point := m.whole + m.fraction, |m.whole| + power;
            var whole, fraction := MovedWhole(digits, point), MovedFraction(digits, point);
            && IsNumber(digits) && IsNumber(whole + fraction)
            && if |m.fraction| <= power then
                 fraction == "" && Number(whole + fraction) == Scaled(Number(digits), power - |m.fraction|)
               else |fraction| == |m.fraction| - power && Number(whole + fraction) == Number(digits)
  {
    var digits, point := m.whole + m.fraction, |m.whole| + power;
    UnitsAreDigits(m);
    if point <= 0 {
      MovedBelowOne(digits, -point);
    } else if |digits| <= point {
      PadEndEffect(digits, point);
      assert PadEnd(digits, point) + "" == PadEnd(digits, point);
    } else {
      DigitsSplit(digits, point);
    }
  }

  lemma MovedBelowOne(digits: string, zeros: nat)
    requires IsNumber(digits)
    ensures IsNumber("0" + (Zeros(zeros) + digits)) && Number("0" + (Zeros(zeros) + digits)) == Number(digits)
    ensures |Zeros(zeros) + digits| == zeros + |digits|
  {
    hide Value, IsNumeral;
    ZerosShape(zeros);
    LeadingZeros(zeros, digits, 10);
    OneZero();
    LeadingZeros(1, Zeros(zeros) + digits, 10);
  }

  lemma Rescale(text: string, units: int, scale: nat, places: nat)
    requires Denotes(text, units, scale)
    ensures Denotes(text, Scaled(units, places), scale + places)
  {
    hide Scaled, Parse, Units, WellFormed;
    var d := Parse(text).value;
    ScaledAdds(Units(d), scale, places);
    ScaledAdds(units, places, |d.fraction|);
  }

  function Positive(n: int): nat { if n < 0 then 0 else n }

  lemma ScaledByNothing(n: int)
    ensures Scaled(n, 0) == n
  {
  }

  lemma SignedBody(negative: bool, whole: string, fraction: string, text: string)
    requires whole != "" && IsNumber(whole) && IsNumber(fraction)
    requires var out := Body(StripLeading(whole), StripTrailing(fraction));
             text == if out == "" || IsZeros(out) then "0" else Sign(negative) + out
    ensures IsNumber(whole + fraction)
    ensures Denotes(text, Signed(negative, Number(whole + fraction)), |fraction|)
  {
    hide StripLeading, StripTrailing, Denotes, Number, IsNumber, Zeros, IsCanonical;
    StripLeadingEffect(whole);
    StripTrailingEffect(fraction);
    var left, right := StripLeading(whole), StripTrailing(fraction);
    ZeroBody(left, right);
    var zero := IsZeros(Body(left, right));
    var d := Decimal(negative && !zero, left, right);
    IsWellFormed(d);
    ShownDenotes(d, whole, fraction);
    if zero {
      ZeroDigits(whole, fraction);
      assert Show(d) == "0";
    } else {
      assert Show(d) == text;
    }
  }

  lemma ZeroBody(left: string, right: string)
    requires left != "" && IsNumber(left) && IsNumber(right) && IsCanonical(left, 10)
    ensures Body(left, right) != ""
    ensures IsZeros(Body(left, right)) ==> left == "0" && right == ""
  {
    var body := Body(left, right);
    assert body[0] == left[0];
    assert right != "" ==> body[|left|] == '.';
  }

  lemma ZeroDigits(whole: string, fraction: string)
    requires whole != "" && IsNumber(whole) && IsNumber(fraction)
    requires StripLeading(whole) == "0" && StripTrailing(fraction) == ""
    ensures IsNumber(whole + fraction) && Number(whole + fraction) == 0
  {
    hide StripLeading, StripTrailing, Zeros, Value, IsNumeral, IsCanonical, Pow;
    StripLeadingEffect(whole);
    StripTrailingEffect(fraction);
    OneZero();
    ZerosValue(1, 10);
    assert fraction == "" + Zeros(|fraction|) == Zeros(|fraction|);
    TrailingZeros(whole, |fraction|, 10);
  }

  lemma ExpansionDenotes(m: Decimal, power: int, text: string)
    requires WellFormed(m)
    requires var moved := StripLeading(MovePoint(m.whole + m.fraction, |m.whole| + power));
             var out := if '.' in moved then DropPoint(StripTrailing(moved)) else moved;
             text == if out == "" || IsZeros(out) then "0" else Sign(m.negative) + out
    ensures Denotes(text, Scaled(Units(m), Positive(power)), |m.fraction| + Positive(-power))
  {
    hide StripLeading, StripTrailing, MovePoint, DropPoint, Units, Denotes, Scaled, IsNumber, Number,
         MovedWhole, MovedFraction, IsCanonical, Zeros;
    var digits, point := m.whole + m.fraction, |m.whole| + power;
    UnitsAreDigits(m);
    WholeIsSomething(m, m.fraction);
    MovedParts(digits, point);
    var whole, fraction := MovedWhole(digits, point), MovedFraction(digits, point);
    CleanedBody(whole, fraction);
    StripLeadingEffect(whole);
    StripTrailingEffect(fraction);
    MovedNumber(m, power);
    SignedBody(m.negative, whole, fraction, text);
    var n := Number(whole + fraction);
    if |m.fraction| <= power {
      ScaledSigned(m.negative, Number(digits), power - |m.fraction|);
      ScaledAdds(Units(m), power - |m.fraction|, |m.fraction|);
      Rescale(text, Signed(m.negative, n), 0, |m.fraction|);
    } else if 0 <= power {
      Rescale(text, Units(m), |m.fraction| - power, power);
    } else {
      ScaledByNothing(Units(m));
    }
  }

  lemma {:induction false} MarkIsFirst(s: string, mark: char, tail: string)
    requires mark == 'e' || mark == 'E'
    requires forall i :: 0 <= i < |s| ==> s[i] != 'e' && s[i] != 'E'
    ensures ExponentMark(s + [mark] + tail) == |s|
  {
    if s != "" {
      assert (s + [mark] + tail)[1..] == s[1..] + [mark] + tail;
      MarkIsFirst(s[1..], mark, tail);
    } else {
      assert (s + [mark] + tail)[0] == mark;
    }
  }

  lemma {:induction false} MarkIsMark(s: string)
    ensures ExponentMark(s) < |s| ==> s[ExponentMark(s)] == 'e' || s[ExponentMark(s)] == 'E'
  {
    if s != "" {
      MarkIsMark(s[1..]);
    }
  }

  lemma ShownHasNoMark(d: Decimal)
    requires WellFormed(d)
    ensures forall i :: 0 <= i < |Show(d)| ==> Show(d)[i] != 'e' && Show(d)[i] != 'E'
  {
    forall i | 0 <= i < |Show(d)|
      ensures Show(d)[i] == '-' || Show(d)[i] == '.' || IsDigit(Show(d)[i], 10)
    {
    }
  }

  // The exponent in digits, with a sign or without.
  predicate IsExponent(text: string, power: int) {
    exists sign :: sign in {"", "+", "-"} && IsSignedNumber(text, sign, power)
  }

  predicate IsSignedNumber(text: string, sign: string, power: int) {
    && sign <= text && text[|sign|..] != "" && IsNumber(text[|sign|..])
    && power == if sign == "-" then 0 - Number(text[|sign|..]) else Number(text[|sign|..])
  }

  lemma ExponentIs(text: string, power: int)
    ensures ParseExponent(text) == Some(power) <==> IsExponent(text, power)
  {
    if ParseExponent(text) == Some(power) {
      var sign := if Text.StartsWith(text, "+") then "+" else if Text.StartsWith(text, "-") then "-" else "";
      assert sign in {"", "+", "-"} && IsSignedNumber(text, sign, power);
    }
    if IsExponent(text, power) {
      var sign :| sign in {"", "+", "-"} && IsSignedNumber(text, sign, power);
      if sign == "" {
        assert IsDigit(text[0], 10);
        assert text[0..] == text;
      }
    }
  }

  /** Scientific notation is a plain decimal, an e in either case, and a whole exponent with or without a sign. */
  lemma ScientificIff(s: string, m: Decimal, power: int)
    ensures ParseScientific(s) == Some(Scientific(m, power)) <==>
            && WellFormed(m)
            && exists mark, exponent ::
                 mark in {'e', 'E'} && IsExponent(exponent, power) && s == Show(m) + [mark] + exponent
  {
    hide Parse, ParseExponent, IsExponent, WellFormed, Show;
    if ParseScientific(s) == Some(Scientific(m, power)) {
      var at := ExponentMark(s);
      MarkIsMark(s);
      ParseShows(s[..at]);
      ExponentIs(s[at + 1..], power);
      assert s == s[..at] + [s[at]] + s[at + 1..];
    }
    if WellFormed(m) {
      forall mark, exponent | mark in {'e', 'E'} && IsExponent(exponent, power) && s == Show(m) + [mark] + exponent
        ensures ParseScientific(s) == Some(Scientific(m, power))
      {
        ShowParses(m);
        ShownHasNoMark(m);
        MarkIsFirst(Show(m), mark, exponent);
        ExponentIs(exponent, power);
        assert s[..|Show(m)|] == Show(m) && s[|Show(m)| + 1..] == exponent;
      }
    }
  }

  lemma SignedBodyIsShortest(negative: bool, whole: string, fraction: string, text: string)
    requires whole != "" && IsNumber(whole) && IsNumber(fraction)
    requires var out := Body(StripLeading(whole), StripTrailing(fraction));
             text == if out == "" || IsZeros(out) then "0" else Sign(negative) + out
    ensures IsShortest(text)
  {
    hide StripLeading, StripTrailing, Number, IsNumber, Zeros, Parse;
    StripLeadingEffect(whole);
    StripTrailingEffect(fraction);
    var left, right := StripLeading(whole), StripTrailing(fraction);
    ZeroBody(left, right);
    if IsZeros(Body(left, right)) {
      ZeroIsShortest();
    } else {
      var d := Decimal(negative, left, right);
      IsWellFormed(d);
      ShowParses(d);
      assert Show(d) == text;
    }
  }

  lemma ZeroIsShortest()
    ensures IsShortest("0")
  {
    var d := Decimal(false, "0", "");
    assert Show(d) == "0";
    ShowParses(d);
  }

  lemma ExpansionIsShortest(m: Decimal, power: int, text: string)
    requires WellFormed(m)
    requires var moved := StripLeading(MovePoint(m.whole + m.fraction, |m.whole| + power));
             var out := if '.' in moved then DropPoint(StripTrailing(moved)) else moved;
             text == if out == "" || IsZeros(out) then "0" else Sign(m.negative) + out
    ensures IsShortest(text)
  {
    hide StripLeading, StripTrailing, MovePoint, DropPoint, IsNumber, MovedWhole, MovedFraction, Zeros, IsShortest;
    var digits, point := m.whole + m.fraction, |m.whole| + power;
    UnitsAreDigits(m);
    WholeIsSomething(m, m.fraction);
    MovedParts(digits, point);
    CleanedBody(MovedWhole(digits, point), MovedFraction(digits, point));
    SignedBodyIsShortest(m.negative, MovedWhole(digits, point), MovedFraction(digits, point), text);
  }

  /**
   * The expansion is a plain decimal for exactly the number written: mantissa times ten to the power.
   */
  lemma ExpansionIsExact(value: string)
    requires ParseScientific(Text.Trim(value)).Some?
    ensures var number := ParseScientific(Text.Trim(value)).value;
            var m, power := number.mantissa, number.power;
            && WellFormed(m)
            && (ExpandScientificNotation(value).Ok? <==> Abs(power) <= 1000)
            && (ExpandScientificNotation(value).Ok? ==>
                && Denotes(ExpandScientificNotation(value).value, Scaled(Units(m), Positive(power)),
                           |m.fraction| + Positive(-power))
                && IsShortest(ExpandScientificNotation(value).value))
  {
    hide Parse, ParseExponent, ExponentMark, Text.Trim, StripLeading, StripTrailing, MovePoint, DropPoint, Units,
         Denotes, Scaled, IsZeros, Body, Abs, WellFormed, IsShortest;
    var number := ParseScientific(Text.Trim(value)).value;
    var m, power := number.mantissa, number.power;
    ParseShows(Text.Trim(value)[..ExponentMark(Text.Trim(value))]);
    if ExpandScientificNotation(value).Ok? {
      ExpansionDenotes(m, power, ExpandScientificNotation(value).value);
      ExpansionIsShortest(m, power, ExpandScientificNotation(value).value);
    }
  }

  /** Any other text is passed on unchanged. */
  lemma OtherTextIsNotExpanded(value: string)
    requires ParseScientific(Text.Trim(value)).None?
    ensures ExpandScientificNotation(value) == Ok(value)
  {
  }
}
