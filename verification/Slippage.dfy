/** Slippage tolerances: decimal fractions read as whole basis points, and written back. */
module Slippage {
  import opened DecimalText
  import opened NumberText
  import opened Wrappers
  import AmountText
  import Liquidity
  import Text

  datatype SlippageError = NotAFraction | TooFine | OutOfRange

  const MIN_BIPS: nat := 1
  const MAX_BIPS: nat := 5000
  const PLACES: nat := 4

  datatype Fraction = Fraction(whole: string, digits: string)

  // \d*\.?\d+ with the parts it matches; digits are those after the point, empty without one.
  function ParseFraction(s: string): Option<Fraction> {
    var f := Fraction(Text.Before(s, '.'), if '.' in s then Text.After(s, '.') else "");
    if IsNumber(f.whole) && IsNumber(f.digits) && (if '.' in s then f.digits != "" else f.whole != "") then Some(f)
    else None
  }

  function OrZero(whole: string): string { if whole == "" then "0" else whole }

  function Bips(f: Fraction): nat
    requires IsNumber(f.whole) && IsNumber(f.digits) && |f.digits| <= PLACES
  {
    PaddedIsNumber(f);
    Number(OrZero(f.whole) + PadEnd(f.digits, PLACES))
  }

  function SlippageToBips(value: string): Result<nat, SlippageError> {
    match ParseFraction(Text.Trim(value))
    case None => Err(NotAFraction)
    case Some(f) =>
      if PLACES < |f.digits| then Err(TooFine)
      else if Bips(f) < MIN_BIPS || MAX_BIPS < Bips(f) then Err(OutOfRange)
      else Ok(Bips(f))
  }

  // The basis points in at least five digits, one of them before the point.
  function FiveDigits(bips: nat): (text: string)
    ensures text != ""
  {
    PrintShape(bips, 10);
    PadStartEffect(Print(bips, 10), PLACES + 1);
    PadStart(Print(bips, 10), PLACES + 1)
  }

  function BipsToSlippage(bips: nat): string {
    var text := FiveDigits(bips);
    var stripped := StripTrailing(text[..1] + "." + text[1..]);
    if stripped != "" && stripped[|stripped| - 1] == '.' then stripped + "0" else stripped
  }

  lemma PaddedIsNumber(f: Fraction)
    requires IsNumber(f.whole) && IsNumber(f.digits) && |f.digits| <= PLACES
    ensures IsNumber(OrZero(f.whole)) && IsNumber(PadEnd(f.digits, PLACES))
    ensures IsNumber(OrZero(f.whole) + PadEnd(f.digits, PLACES))
  {
    PadEndEffect(f.digits, PLACES);
  }

  // ----- Reading -----

  // The decimal literal behind the text; a missing whole part is zero.
  function Literal(s: string): string { if Text.StartsWith(s, ".") then "0" + s else s }

  lemma LiteralParts(s: string)
    requires ParseFraction(s).Some?
    ensures var f := ParseFraction(s).value;
            var d := Decimal(false, OrZero(f.whole), f.digits);
            WellFormed(d) && Literal(s) == Show(d)
  {
    var f := ParseFraction(s).value;
    BodyRebuilds(s);
    assert IsNumber("0");
    if Text.StartsWith(s, ".") {
      assert s[0] == '.' && f.whole == "";
    }
  }

  /**
   * A tolerance is accepted exactly when it is a decimal fraction with at most four places between 0.0001
   * and 0.5, and the basis points are then exactly that number over ten thousand.
   */
  lemma SlippageIsExact(value: string, bips: nat)
    ensures var text := Text.Trim(value);
            SlippageToBips(value) == Ok(bips) <==>
            && ParseFraction(text).Some? && |ParseFraction(text).value.digits| <= 4
            && 1 <= bips <= 5000 && Denotes(Literal(text), bips, 4)
  {
    hide Denotes, Literal, ParseFraction, Number, Zeros;
    var text := Text.Trim(value);
    if ParseFraction(text).Some? && |ParseFraction(text).value.digits| <= PLACES {
      FractionDenotes(text);
      if Denotes(Literal(text), bips, PLACES) {
        SameScale(Literal(text), bips, Bips(ParseFraction(text).value));
      }
    }
  }

  lemma FractionDenotes(text: string)
    requires ParseFraction(text).Some? && |ParseFraction(text).value.digits| <= PLACES
    ensures var f := ParseFraction(text).value;
            IsNumber(f.whole) && IsNumber(f.digits) && Denotes(Literal(text), Bips(f), PLACES)
  {
    hide Denotes, Literal, Number, Show, Parse;
    var f := ParseFraction(text).value;
    LiteralParts(text);
    PaddedIsNumber(f);
    PadEndEffect(f.digits, PLACES);
    NoZeros();
    ShownDenotes(Decimal(false, OrZero(f.whole), f.digits), OrZero(f.whole), PadEnd(f.digits, PLACES));
  }

  lemma SameScale(text: string, a: nat, b: nat)
    requires Denotes(text, a, PLACES) && Denotes(text, b, PLACES)
    ensures a == b
  {
    hide Denotes;
    DenotesIsUnique(text, a, PLACES, b, PLACES);
    Cancel(a, b, PLACES);
  }

  // ----- Writing -----

  lemma FiveDigitsShape(bips: nat)
    ensures var text := FiveDigits(bips);
            && PLACES + 1 <= |text| && IsNumber(text) && Number(text) == bips
            && (|text| == PLACES + 1 <==> bips < Pow(10, PLACES + 1))
            && (Pow(10, PLACES + 1) <= bips ==> text[0] != '0')
  {
    hide Pow, Value;
    PrintShape(bips, 10);
    PrintReadsBack(bips, 10);
    PadStartEffect(Print(bips, 10), PLACES + 1);
    PowPositive(10, PLACES + 1);
    if 0 < bips {
      PrintLength(bips, 10);
      var length := |Print(bips, 10)|;
      if PLACES + 1 < length {
        PowGrows(10, PLACES + 1, length - 1);
      } else {
        PowGrows(10, length, PLACES + 1);
      }
    }
  }

  // What is written after the point: the other digits without trailing zeros, at least one.
  function Shortened(digits: string): string {
    if StripTrailing(digits) == "" then "0" else StripTrailing(digits)
  }

  lemma ShortenedEffect(digits: string)
    requires IsNumber(digits) && digits != ""
    ensures var short := Shortened(digits);
            && short != "" && IsNumber(short) && |short| <= |digits|
            && digits == short + Zeros(|digits| - |short|)
  {
    StripTrailingEffect(digits);
    if StripTrailing(digits) == "" {
      ZerosShape(|digits|);
      ZerosShape(|digits| - 1);
      assert digits == "0" + Zeros(|digits| - 1);
    }
  }

  lemma WrittenParts(bips: nat)
    ensures var text := FiveDigits(bips);
            && PLACES + 1 <= |text| && IsNumber(text) && IsNumber(text[..1]) && IsNumber(text[1..])
            && BipsToSlippage(bips) == text[..1] + "." + Shortened(text[1..])
  {
    hide Pow, Value, Number, Print;
    FiveDigitsShape(bips);
    var text := FiveDigits(bips);
    var whole, digits := text[..1], text[1..];
    StripTrailingEffect(digits);
    AmountText.StripTrailingOfBody(whole, digits);
    var stripped := whole + "." + StripTrailing(digits);
    if StripTrailing(digits) == "" {
      assert stripped[|stripped| - 1] == '.';
      assert stripped + "0" == whole + "." + "0";
    } else {
      assert stripped[|stripped| - 1] == StripTrailing(digits)[|StripTrailing(digits)| - 1];
    }
  }

  lemma WrittenIsRead(whole: string, digits: string)
    requires IsNumber(whole) && whole != "" && IsNumber(digits) && digits != ""
    ensures var s := whole + "." + digits;
            Text.Trim(s) == s && Literal(s) == s && ParseFraction(s) == Some(Fraction(whole, digits))
  {
    var s := whole + "." + digits;
    assert s == whole + ['.'] + digits;
    assert s[0] == whole[0] && IsDigit(whole[0], 10);
    assert s[|s| - 1] == digits[|digits| - 1] && IsDigit(digits[|digits| - 1], 10);
    Text.TrimOfTrimmed(s);
    Text.BeforeSeparator(whole, '.', digits);
  }

  // A digit other than zero before the point makes at least 10000 basis points.
  lemma WholeIsTooMuch(f: Fraction)
    requires IsNumber(f.whole) && IsNumber(f.digits) && |f.digits| <= PLACES && |f.whole| == 1 && f.whole[0] != '0'
    ensures MAX_BIPS < Bips(f)
  {
    hide Zeros;
    PadEndEffect(f.digits, PLACES);
    ValueOfConcat(f.whole, PadEnd(f.digits, PLACES), 10);
    assert IsDigit(f.whole[0], 10) && f.whole == [f.whole[0]];
    ValueOfDigit(f.whole, 10);
    assert Pow(10, PLACES) == 10_000;
  }

  /** Writing basis points and reading them gives them back exactly when they are within the accepted bounds. */
  lemma BipsRoundTrip(bips: nat)
    ensures SlippageToBips(BipsToSlippage(bips)) == Ok(bips) <==> MIN_BIPS <= bips <= MAX_BIPS
    ensures !(MIN_BIPS <= bips <= MAX_BIPS) ==> SlippageToBips(BipsToSlippage(bips)).Err?
  {
    hide FiveDigits, Shortened, BipsToSlippage, ParseFraction, Literal, Number, Zeros, Pow;
    var text := FiveDigits(bips);
    FiveDigitsShape(bips);
    WrittenParts(bips);
    var whole, digits := text[..1], text[1..];
    ShortenedEffect(digits);
    var f := Fraction(whole, Shortened(digits));
    WrittenIsRead(f.whole, f.digits);
    if |text| == PLACES + 1 {
      NoZeros();
      assert PadEnd(f.digits, PLACES) == digits && whole + digits == text;
    } else if |f.digits| <= PLACES {
      WholeIsTooMuch(f);
    }
    FiveDigitBound();
  }

  lemma FiveDigitBound()
    ensures MAX_BIPS < Pow(10, PLACES + 1)
  {
    assert Pow(10, 3) == 1000;
  }

  // ----- The bounds of an accepted tolerance -----

  /** An accepted tolerance is at most half: the lowered amount keeps at least half of the expected one. */
  lemma AcceptedToleranceKeepsHalf(value: string, amount: nat)
    requires SlippageToBips(value).Ok?
    ensures var lowered := Liquidity.LowerBySlippage(amount, SlippageToBips(value).value);
            0 <= lowered <= amount && amount <= 2 * lowered + 1
  {
    hide ParseFraction, Bips, Liquidity.Floor;
    var bips := SlippageToBips(value).value;
    var lowered := Liquidity.LowerBySlippage(amount, bips);
    Liquidity.SlippageBounds(amount, bips);
    Liquidity.FloorIs(amount * (Liquidity.BASIS_POINTS - bips), Liquidity.BASIS_POINTS, lowered);
    Liquidity.Product(MAX_BIPS, Liquidity.BASIS_POINTS - bips, amount);
  }
}
