/**
 * Exact arithmetic on decimal text: comparison, truncated products, pair prices and their reciprocals, and
 * the initial price of a pool to eight significant digits.
 */
module PriceText {
  import opened AmountText
  import opened DecimalText
  import opened NumberText
  import opened Wrappers
  import Text

  // ----- Comparison -----

  // Callers pass plain decimal text; white space around it is ignored.
  predicate IsDecimal(s: string) { Parse(Text.Trim(s)).Some? }

  function Literal(s: string): (d: Decimal)
    requires IsDecimal(s)
    ensures WellFormed(d)
  {
    ParseShows(Text.Trim(s));
    Parse(Text.Trim(s)).value
  }

  // BigInt of the digits after padding; an empty padded fraction becomes "0" on both sides.
  function Padded(d: Decimal, width: nat): int
    requires WellFormed(d) && |d.fraction| <= width
  {
    var fraction := PadEnd(d.fraction, width);
    PadEndEffect(d.fraction, width);
    assert IsDigit('0', 10);
    var digits := d.whole + if fraction == "" then "0" else fraction;
    assert IsNumber(digits);
    Signed(d.negative, Number(digits))
  }

  function CompareDecimal(left: string, right: string): int
    requires IsDecimal(left) && IsDecimal(right)
  {
    var l, r := Literal(left), Literal(right);
    var width := if |l.fraction| < |r.fraction| then |r.fraction| else |l.fraction|;
    var a, b := Padded(l, width), Padded(r, width);
    if a == b then 0 else if a < b then -1 else 1
  }

  lemma PaddedIsScaled(d: Decimal, width: nat)
    requires WellFormed(d) && |d.fraction| <= width
    ensures Padded(d, width) == Scaled(Units(d), if width == 0 then 1 else width - |d.fraction|)
  {
    hide Number, Scaled, Zeros, Units;
    UnitsAreDigits(d);
    PadEndEffect(d.fraction, width);
    if width == 0 {
      OneZero();
      assert d.fraction == "" && d.whole + "" == d.whole;
      AppendZero(d.whole);
      ScaledSigned(d.negative, Number(d.whole), 1);
    } else {
      PaddedDigits(d, width);
      ScaledSigned(d.negative, Number(d.whole + d.fraction), width - |d.fraction|);
    }
  }

  lemma AppendZero(s: string)
    requires IsNumber(s)
    ensures IsNumber(s + "0") && Number(s + "0") == Scaled(Number(s), 1)
  {
    hide Value, IsNumeral;
    OneZero();
    TrailingZeros(s, 1, 10);
  }

  // Scaling keeps and reflects the order.
  lemma ScaledOrder(a: int, b: int, places: nat)
    ensures a < b <==> Scaled(a, places) < Scaled(b, places)
    ensures a == b <==> Scaled(a, places) == Scaled(b, places)
  {
    hide Scaled;
    ScaledGrows(a, b, places);
    ScaledGrows(b, a, places);
  }

  /** The comparison is that of the exact rational numbers. */
  lemma ComparisonIsExact(left: string, right: string)
    requires IsDecimal(left) && IsDecimal(right)
    ensures var l, r := Literal(left), Literal(right);
            var a, b := Scaled(Units(l), |r.fraction|), Scaled(Units(r), |l.fraction|);
            CompareDecimal(left, right) == if a == b then 0 else if a < b then -1 else 1
  {
    hide Literal, Units, Scaled, Padded, IsDecimal, WellFormed;
    var l, r := Literal(left), Literal(right);
    var m, n := |l.fraction|, |r.fraction|;
    var width := if m < n then n else m;
    PaddedIsScaled(l, width);
    PaddedIsScaled(r, width);
    var a, b := Units(l), Units(r);
    if width == 0 {
      ScaledOrder(a, b, 1);
      ScaledOrder(a, b, 0);
    } else {
      ScaledAdds(a, width - m, m);
      ScaledAdds(b, width - n, n);
      if m < n {
        ScaledAdds(a, n - m, m);
        ScaledByNothing(b);
        ScaledOrder(Scaled(a, n - m), b, m);
      } else {
        ScaledAdds(b, m - n, n);
        ScaledByNothing(a);
        ScaledOrder(a, Scaled(b, m - n), n);
      }
    }
  }

  /** So it is a total order: sorting by it is meaningful. */
  lemma ComparisonIsTransitive(x: string, y: string, z: string)
    requires IsDecimal(x) && IsDecimal(y) && IsDecimal(z)
    requires CompareDecimal(x, y) <= 0 && CompareDecimal(y, z) <= 0
    ensures CompareDecimal(x, z) <= 0
    ensures CompareDecimal(x, z) == 0 <==> CompareDecimal(x, y) == 0 && CompareDecimal(y, z) == 0
    ensures CompareDecimal(y, x) == -CompareDecimal(x, y)
  {
    hide Literal, Units, Scaled, IsDecimal, CompareDecimal, WellFormed;
    ComparisonIsExact(x, y);
    ComparisonIsExact(y, x);
    ComparisonIsExact(y, z);
    ComparisonIsExact(x, z);
    CrossMultiplied(Units(Literal(x)), |Literal(x).fraction|, Units(Literal(y)), |Literal(y).fraction|,
                    Units(Literal(z)), |Literal(z).fraction|);
  }

  lemma CrossMultiplied(a: int, k: nat, b: int, m: nat, c: int, n: nat)
    requires Scaled(a, m) <= Scaled(b, k) && Scaled(b, n) <= Scaled(c, m)
    ensures Scaled(a, n) <= Scaled(c, k)
    ensures Scaled(a, n) == Scaled(c, k) <==> Scaled(a, m) == Scaled(b, k) && Scaled(b, n) == Scaled(c, m)
  {
    hide Scaled;
    ScaledOrder(Scaled(b, k), Scaled(a, m), n);
    ScaledOrder(Scaled(c, m), Scaled(b, n), k);
    ScaledOrder(Scaled(c, k), Scaled(a, n), m);
    ScaledAdds(a, m, n);
    ScaledAdds(b, k, n);
    ScaledAdds(c, m, k);
  }

  // ----- Scaled integers as text -----

  // The digits of |n| with at least one digit before the point.
  function ScaledDigits(n: int, places: nat): (digits: string)
    ensures places < |digits| && IsNumber(digits) && Number(digits) == Abs(n)
  {
    PrintReadsBack(Abs(n), 10);
    PadStartEffect(Print(Abs(n), 10), places + 1);
    PadStart(Print(Abs(n), 10), places + 1)
  }

  // format
  function Format(n: int, places: nat): string {
    var digits := ScaledDigits(n, places);
    var cut := |digits| - places;
    Sign(n < 0) + if places == 0 then digits else digits[..cut] + "." + digits[cut..]
  }

  lemma WholeAndFraction(n: int, places: nat)
    ensures var digits := ScaledDigits(n, places);
            var cut := |digits| - places;
            && digits[..cut] != "" && IsNumber(digits[..cut]) && IsNumber(digits[cut..])
            && |digits[cut..]| == places
            && digits[..cut] + digits[cut..] == digits
            && (places == 0 ==> digits[cut..] == "" && digits[..cut] == digits)
  {
    hide ScaledDigits, Number;
    var digits := ScaledDigits(n, places);
    DigitsSplit(digits, |digits| - places);
  }

  lemma FormatDenotes(n: int, places: nat)
    ensures Denotes(Format(n, places), n, places)
    ensures |Parse(Format(n, places)).value.fraction| == places
  {
    hide ScaledDigits, Number, IsNumber, Denotes, WellFormed, Parse, Zeros;
    var digits := ScaledDigits(n, places);
    var cut := |digits| - places;
    WholeAndFraction(n, places);
    var d := Decimal(n < 0, digits[..cut], digits[cut..]);
    IsWellFormed(d);
    NoZeros();
    assert digits[cut..] == digits[cut..] + "";
    ShownDenotes(d, digits[..cut], digits[cut..]);
    ShowParses(d);
    assert Format(n, places) == Show(d);
  }

  // ----- Multiplication -----

  // multiplyDecimalTruncating; other text gives the empty string.
  function MultiplyTruncating(a: string, b: string, places: nat): string {
    if !IsDecimal(a) || !IsDecimal(b) then "" else ProductText(ProductUnits(Literal(a), Literal(b), places), places)
  }

  function ProductUnits(left: Decimal, right: Decimal, places: nat): int
    requires WellFormed(left) && WellFormed(right)
  {
    var scale := |left.fraction| + |right.fraction|;
    var product := Units(left) * Units(right);
    if places < scale then Divided(product, scale - places) else Scaled(product, places - scale)
  }

  // Division by a power of ten.
  function Divided(n: int, places: nat): int {
    PowPositive(10, places);
    Quot(n, P(places))
  }

  // /^0(\.0*)?$/
  predicate IsZeroText(s: string) {
    s != "" && s[0] == '0' && (|s| == 1 || (s[1] == '.' && forall i :: 2 <= i < |s| ==> s[i] == '0'))
  }

  function ProductText(scaled: int, places: nat): string {
    var text := ScaledDigits(scaled, places);
    var whole := text[..|text| - places];
    var fraction := if places == 0 then "" else StripTrailing(text[|text| - places..]);
    var out := if fraction == "" then whole else whole + "." + fraction;
    if scaled < 0 && !IsZeroText(out) then "-" + out else out
  }

  lemma LastOfBody(whole: string, fraction: string)
    ensures fraction != "" ==>
              var body := Body(whole, fraction);
              |whole| + 1 < |body| && body[|body| - 1] == fraction[|fraction| - 1]
  {
  }

  lemma ZeroTextIsZero(whole: string, fraction: string)
    requires whole != "" && IsNumber(whole) && IsNumber(fraction)
    requires IsZeroText(Body(whole, StripTrailing(fraction)))
    ensures whole == "0" && StripTrailing(fraction) == ""
  {
    hide StripTrailing, IsNumber, Zeros;
    StripTrailingEffect(fraction);
    var right := StripTrailing(fraction);
    var out := Body(whole, right);
    assert out[0] == whole[0];
    LastOfBody(whole, right);
    if |whole| > 1 {
      assert out[1] == whole[1];
      DigitIsNoPoint(whole, 1);
    }
  }

  lemma DigitIsNoPoint(s: string, i: nat)
    requires IsNumber(s) && i < |s|
    ensures s[i] != '.'
  {
  }

  lemma ProductTextDenotes(scaled: int, places: nat)
    ensures Denotes(ProductText(scaled, places), scaled, places)
    ensures scaled == 0 ==> !Text.StartsWith(ProductText(scaled, places), "-")
  {
    hide ScaledDigits, Number, IsNumber, Denotes, WellFormed, Parse, Zeros, StripTrailing, IsZeroText;
    var digits := ScaledDigits(scaled, places);
    var cut := |digits| - places;
    WholeAndFraction(scaled, places);
    var whole, fraction := digits[..cut], digits[cut..];
    NothingToStrip();
    StripTrailingEffect(fraction);
    var d := Decimal(scaled < 0, whole, StripTrailing(fraction));
    IsWellFormed(d);
    ShownDenotes(d, whole, fraction);
    if scaled < 0 && IsZeroText(Body(whole, d.fraction)) {
      ZeroTextIsZero(whole, fraction);
      ZeroDigitsText(whole, fraction);
      assert false;
    }
    BodySplits(whole, d.fraction);
    assert ProductText(scaled, places) == Show(d);
  }

  lemma ZeroDigitsText(whole: string, fraction: string)
    requires whole == "0" && IsNumber(whole) && IsNumber(fraction) && StripTrailing(fraction) == ""
    ensures IsNumber(whole + fraction) && Number(whole + fraction) == 0
  {
    hide StripTrailing, Number;
    assert StripLeading("0") == "0";
    ZeroDigits(whole, fraction);
  }

  lemma TruncatesScaled(t: int, n: int, places: nat, more: nat)
    requires Truncates(t, n, P(places))
    ensures Truncates(t, Scaled(n, more), P(places + more))
  {
    var a := Abs(t);
    assert Scaled(a, places) <= Abs(n) < Scaled(a + 1, places);
    ScaledAdds(a, places, more);
    ScaledAdds(a + 1, places, more);
    ScaledGrows(Scaled(a, places), Abs(n), more);
    ScaledGrows(Abs(n), Scaled(a + 1, places), more);
    ScaledSigned(n < 0, Abs(n), more);
    ScaledGrows(0, Abs(n), more);
    AbsScaled(n, more);
    hide P, Pow;
  }

  lemma AbsScaled(n: int, places: nat)
    ensures Abs(Scaled(n, places)) == Scaled(Abs(n), places)
    ensures 0 < n <==> 0 < Scaled(n, places)
    ensures n < 0 <==> Scaled(n, places) < 0
  {
    hide Scaled;
    NothingScaled(places);
    ScaledOrder(0, n, places);
    ScaledOrder(n, 0, places);
    ScaledOpposite(n, places);
  }

  lemma NothingScaled(places: nat)
    ensures Scaled(0, places) == 0
  {
  }

  lemma ScaledOpposite(n: int, places: nat)
    ensures Scaled(-n, places) == -Scaled(n, places)
  {
  }

  lemma TruncatesExactly(n: int, a: nat, scale: nat)
    ensures Truncates(Scaled(n, a), Scaled(n, a + scale), P(scale))
  {
    ScaledAdds(n, a, scale);
    var t := Scaled(n, a);
    AbsScaled(t, scale);
    ScaledGrows(Abs(t), Abs(t) + 1, scale);
  }

  lemma DividedTruncates(n: int, places: nat)
    ensures Truncates(Divided(n, places), n, P(places))
  {
    PowPositive(10, places);
    QuotTruncates(n, P(places));
  }

  lemma ProductUnitsTruncate(l: Decimal, r: Decimal, places: nat)
    requires WellFormed(l) && WellFormed(r)
    ensures Truncates(ProductUnits(l, r, places), Scaled(Units(l) * Units(r), places), P(|l.fraction| + |r.fraction|))
  {
    hide Units, WellFormed, Truncates, Divided, Scaled, P;
    var scale, product := |l.fraction| + |r.fraction|, Units(l) * Units(r);
    if places < scale {
      DividedTruncates(product, scale - places);
      TruncatesScaled(Divided(product, scale - places), product, scale - places, places);
    } else {
      TruncatesExactly(product, places - scale, scale);
    }
  }

  /** The product text is the exact product truncated toward zero at the given places. */
  lemma ProductIsTruncated(a: string, b: string, places: nat)
    requires IsDecimal(a) && IsDecimal(b)
    ensures var l, r := Literal(a), Literal(b);
            var text, t := MultiplyTruncating(a, b, places), ProductUnits(l, r, places);
            && Denotes(text, t, places)
            && Truncates(t, Scaled(Units(l) * Units(r), places), P(|l.fraction| + |r.fraction|))
            && (t == 0 ==> !Text.StartsWith(text, "-"))
  {
    hide IsDecimal, Literal, Units, WellFormed, Denotes, Truncates, ProductUnits, Scaled, ProductText, P;
    ProductTextDenotes(ProductUnits(Literal(a), Literal(b), places), places);
    ProductUnitsTruncate(Literal(a), Literal(b), places);
  }

  // ----- Pair prices -----

  const PRICE_PLACES: nat := 18

  // The units of `truncate`: the literal's digits at the given places.
  function TruncatedUnits(d: Decimal, places: nat): int
    requires WellFormed(d)
  {
    UnitsAreDigits(d);
    var digits, scale := Number(d.whole + d.fraction), |d.fraction|;
    var t := if scale <= places then Scaled(digits, places - scale) else Divided(digits, scale - places);
    Signed(d.negative, Abs(t))
  }

  function ReciprocalUnits(d: Decimal, places: nat): int
    requires WellFormed(d) && Units(d) != 0
  {
    P(|d.fraction| + places) / Abs(Units(d))
  }

  // Text that is not a decimal literal passes through.
  function TruncatePrice(value: string, places: nat): string {
    if IsDecimal(value) then Format(TruncatedUnits(Literal(value), places), places) else value
  }

  function Reciprocal(value: string, places: nat): string {
    if !IsDecimal(value) || Units(Literal(value)) == 0 then "0"
    else Format(ReciprocalUnits(Literal(value), places), places)
  }

  datatype PairPrice = PairPrice(base: string, quote: string, price: string)

  function PairPrices(tokens: seq<string>, rates: seq<string>, quote: string): seq<PairPrice> {
    if |tokens| != 2 || |rates| != 1 then []
    else if quote == tokens[0] then [PairPrice(tokens[1], tokens[0], TruncatePrice(rates[0], PRICE_PLACES))]
    else if quote == tokens[1] then [PairPrice(tokens[0], tokens[1], Reciprocal(rates[0], PRICE_PLACES))]
    else []
  }

  lemma TruncatedUnitsTruncate(d: Decimal, places: nat)
    requires WellFormed(d)
    ensures Truncates(TruncatedUnits(d, places), Scaled(Units(d), places), P(|d.fraction|))
  {
    hide Units, Number, Truncates, Divided, Scaled, P, WellFormed;
    UnitsAreDigits(d);
    var digits, scale := Number(d.whole + d.fraction), |d.fraction|;
    var t := TruncatedUnits(d, places);
    if scale <= places {
      ScaledSigned(d.negative, digits, places - scale);
      TruncatesExactly(Units(d), places - scale, scale);
    } else {
      DividedTruncates(digits, scale - places);
      SignedTruncates(d.negative, Divided(digits, scale - places), digits, scale - places);
      TruncatesScaled(t, Units(d), scale - places, places);
    }
  }

  lemma SignedTruncates(negative: bool, t: int, n: nat, places: nat)
    requires Truncates(t, n, P(places))
    ensures Truncates(Signed(negative, Abs(t)), Signed(negative, n), P(places))
  {
  }

  /** A price quoted in token0 is the rate truncated at 18 places, written with exactly 18 places. */
  lemma TruncatedPriceIsExact(value: string, places: nat)
    requires IsDecimal(value)
    ensures var d := Literal(value);
            && Denotes(TruncatePrice(value, places), TruncatedUnits(d, places), places)
            && Truncates(TruncatedUnits(d, places), Scaled(Units(d), places), P(|d.fraction|))
            && |Parse(TruncatePrice(value, places)).value.fraction| == places
  {
    hide IsDecimal, Literal, Units, Denotes, Truncates, TruncatedUnits, Scaled, Format, Parse, P, WellFormed;
    TruncatedUnitsTruncate(Literal(value), places);
    FormatDenotes(TruncatedUnits(Literal(value), places), places);
  }

  /** A price quoted in token1 is one over the rate's magnitude, truncated at 18 places. */
  lemma ReciprocalIsExact(value: string, places: nat)
    requires IsDecimal(value) && Units(Literal(value)) != 0
    ensures var d := Literal(value);
            && Denotes(Reciprocal(value, places), ReciprocalUnits(d, places), places)
            && Truncates(ReciprocalUnits(d, places), P(|d.fraction| + places), Abs(Units(d)))
  {
    hide IsDecimal, Literal, Units, Denotes, Format, Pow, WellFormed;
    var d := Literal(value);
    FormatDenotes(ReciprocalUnits(d, places), places);
    PowPositive(10, |d.fraction| + places);
    FloorBounds(P(|d.fraction| + places), Abs(Units(d)));
  }

  lemma PricesMultiplyToAtMostOne(d: Decimal, places: nat)
    requires WellFormed(d) && Units(d) != 0
    ensures Abs(TruncatedUnits(d, places)) * ReciprocalUnits(d, places) <= P(places) * P(places)
  {
    hide Units, TruncatedUnits, Pow, WellFormed;
    var u, scale := Abs(Units(d)), |d.fraction|;
    var t, r := Abs(TruncatedUnits(d, places)), ReciprocalUnits(d, places);
    TruncatedUnitsTruncate(d, places);
    AbsScaled(Units(d), places);
    PowPositive(10, scale);
    PowPositive(10, scale + places);
    FloorBounds(P(scale + places), u);
    PowAdds(10, scale, places);
    RoundTripBound(t, r, u, P(scale), P(places));
  }

  lemma RoundTripBound(t: nat, r: nat, u: nat, s: nat, p: nat)
    requires 0 < u && 0 < s && t * s <= u * p && r * u <= s * p
    ensures t * r <= p * p
  {
    ProductMonotone(t * s, u * p, r * u, s * p);
    assert (t * s) * (r * u) == (t * r) * (s * u);
    assert (u * p) * (s * p) == (p * p) * (s * u);
    if p * p < t * r {
      MulStrict(p * p, t * r, s * u);
    }
  }

  lemma ProductMonotone(a: nat, b: nat, c: nat, d: nat)
    requires a <= b && c <= d
    ensures a * c <= b * d
  {
    assert a * c <= a * d <= b * d;
  }

  /**
   * The two quotes of a pool swap base and quote, and rounding never favours the trader: their prices
   * multiply to at most one, so converting there and back gives at most the original amount.
   */
  lemma QuotesNeverGain(tokens: seq<string>, rate: string)
    requires |tokens| == 2 && tokens[0] != tokens[1] && IsDecimal(rate) && Units(Literal(rate)) != 0
    ensures |PairPrices(tokens, [rate], tokens[0])| == 1 && |PairPrices(tokens, [rate], tokens[1])| == 1
    ensures var p, q := PairPrices(tokens, [rate], tokens[0])[0], PairPrices(tokens, [rate], tokens[1])[0];
            var d := Literal(rate);
            var t, u := TruncatedUnits(d, 18), ReciprocalUnits(d, 18);
            && p.base == q.quote == tokens[1] && p.quote == q.base == tokens[0]
            && Denotes(p.price, t, 18) && Truncates(t, Scaled(Units(d), 18), P(|d.fraction|))
            && Denotes(q.price, u, 18) && Truncates(u, P(|d.fraction| + 18), Abs(Units(d)))
            && Abs(t) * u <= P(18) * P(18)
  {
    hide IsDecimal, Literal, Units, Denotes, TruncatePrice, Reciprocal, TruncatedUnits, ReciprocalUnits, P, Pow, Parse,
         Truncates, Scaled;
    TruncatedPriceIsExact(rate, 18);
    ReciprocalIsExact(rate, 18);
    PricesMultiplyToAtMostOne(Literal(rate), 18);
  }

  /**
   * There is one price for a pool of two tokens with one rate, quoted in either of them, and none otherwise.
   * A rate that is not a decimal is passed on as it is, and it or a rate of zero has the reciprocal "0".
   */
  lemma PricesAreQuotedIff(tokens: seq<string>, rates: seq<string>, quote: string)
    ensures PairPrices(tokens, rates, quote) != [] <==> |tokens| == 2 && |rates| == 1 && quote in tokens
    ensures |tokens| == 2 && |rates| == 1 && quote == tokens[0] && Parse(Text.Trim(rates[0])).None? ==>
              PairPrices(tokens, rates, quote) == [PairPrice(tokens[1], quote, rates[0])]
    ensures |tokens| == 2 && |rates| == 1 && quote == tokens[1] != tokens[0]
            && (Parse(Text.Trim(rates[0])).None? || Units(Literal(rates[0])) == 0) ==>
              PairPrices(tokens, rates, quote) == [PairPrice(tokens[0], quote, "0")]
  {
    hide Parse, Format, TruncatedUnits, ReciprocalUnits, Units, Text.Trim;
  }

  /** A product has no text exactly when a factor is not a decimal. */
  lemma ProductIsEmptyIff(a: string, b: string, places: nat)
    ensures MultiplyTruncating(a, b, places) == "" <==>
            Parse(Text.Trim(a)).None? || Parse(Text.Trim(b)).None?
  {
    hide Parse, Literal, ProductUnits, Text.Trim, Denotes, ProductText;
    if IsDecimal(a) && IsDecimal(b) {
      ProductTextDenotes(ProductUnits(Literal(a), Literal(b), places), places);
      NothingDenotes(ProductUnits(Literal(a), Literal(b), places), places);
    }
  }

  lemma NothingDenotes(units: int, scale: nat)
    ensures !Denotes("", units, scale)
  {
  }

  // ----- The initial price of a pool -----

  const SQRT_PRICE_SHIFT: nat := 192
  const SIGNIFICANT_DIGITS: nat := 8

  // n / d >= 10^e
  predicate AtLeast(n: nat, d: nat, e: int) { Scaled(d, Positive(e)) <= Scaled(n, Positive(-e)) }

  // The decimal exponent of n / d, estimated from the lengths and corrected once.
  function Exponent(n: nat, d: nat): int {
    var estimate := |Print(n, 10)| - |Print(d, 10)|;
    if AtLeast(n, d, estimate) then estimate else estimate - 1
  }

  function LeadingDigits(n: nat, d: nat, e: int): nat
    requires 0 < d
  {
    var shift := SIGNIFICANT_DIGITS - 1 - e;
    DenominatorIsPositive(d, Positive(-shift));
    ScaledNat(n, Positive(shift));
    Scaled(n, Positive(shift)) / Scaled(d, Positive(-shift))
  }

  lemma DenominatorIsPositive(d: nat, places: nat)
    requires 0 < d
    ensures 0 < Scaled(d, places)
  {
    hide Scaled;
    NothingScaled(places);
    ScaledOrder(0, d, places);
  }

  function PriceNumerator(sqrtPrice: nat, decimals0: nat): nat {
    ScaledNat(sqrtPrice * sqrtPrice, decimals0);
    Scaled(sqrtPrice * sqrtPrice, decimals0)
  }

  function PriceDenominator(decimals1: nat): (d: nat)
    ensures 0 < d
  {
    PowPositive(2, SQRT_PRICE_SHIFT);
    DenominatorIsPositive(Pow(2, SQRT_PRICE_SHIFT), decimals1);
    Scaled(Pow(2, SQRT_PRICE_SHIFT), decimals1)
  }

  function InitialPrice(sqrtPrice: nat, decimals0: int, decimals1: int): Result<string, AmountError> {
    if !(0 <= decimals0 <= MAX_DECIMALS) || !(0 <= decimals1 <= MAX_DECIMALS) then Err(BadDecimals)
    else
      var n, d := PriceNumerator(sqrtPrice, decimals0), PriceDenominator(decimals1);
      if n == 0 then Ok("0")
      else
        var exponent := Exponent(n, d);
        Ok(PriceDigits(PadStart(Print(LeadingDigits(n, d, exponent), 10), SIGNIFICANT_DIGITS), exponent + 1))
  }

  function PriceDigits(digits: string, point: int): string {
    if |digits| <= point then digits + Zeros(point - |digits|)
    else DropPoint(StripTrailing(MovePoint(digits, point)))
  }

  // Comparing n * 10^k with d * 10^(e + k) does not depend on k.
  lemma SameComparison(n: nat, d: nat, e: int, k: nat, m: nat)
    requires 0 <= e + k && k <= m
    ensures Scaled(d, e + k) <= Scaled(n, k) <==> Scaled(d, e + m) <= Scaled(n, m)
  {
    hide Scaled;
    ScaledAdds(d, e + k, m - k);
    ScaledAdds(n, k, m - k);
    ScaledOrder(Scaled(n, k), Scaled(d, e + k), m - k);
  }

  lemma AtLeastBy(n: nat, d: nat, e: int, k: nat)
    requires 0 <= e + k
    ensures AtLeast(n, d, e) <==> Scaled(d, e + k) <= Scaled(n, k)
  {
    hide Scaled;
    SameComparison(n, d, e, Positive(-e), k);
  }

  lemma PowersScale(a: nat, b: nat)
    ensures Scaled(P(a), b) == P(a + b)
  {
    PowAdds(10, a, b);
  }

  /** The estimate from the lengths is right or one too large, so the exponent is the exact one. */
  lemma ExponentIsExact(n: nat, d: nat)
    requires 0 < n && 0 < d
    ensures AtLeast(n, d, Exponent(n, d)) && !AtLeast(n, d, Exponent(n, d) + 1)
  {
    hide Scaled, AtLeast, P, Pow, Print;
    PrintLength(n, 10);
    PrintLength(d, 10);
    var a, b := |Print(n, 10)|, |Print(d, 10)|;
    PowerIsP(a - 1);
    PowerIsP(a);
    PowerIsP(b - 1);
    PowerIsP(b);
    BelowByLength(n, d, a, b);
    AboveByLength(n, d, a, b);
  }

  lemma PowerIsP(k: nat)
    ensures P(k) == Pow(10, k)
  {
  }

  lemma BelowByLength(n: nat, d: nat, a: nat, b: nat)
    requires n < P(a) && 0 < b && P(b - 1) <= d
    ensures !AtLeast(n, d, a - b + 1)
  {
    hide Scaled, AtLeast, P;
    var e := a - b + 1;
    AtLeastBy(n, d, e, b);
    ScaledGrows(n, P(a), b);
    PowersScale(a, b);
    PowersScale(b - 1, a + 1);
    ScaledGrows(P(b - 1), d, a + 1);
  }

  lemma AboveByLength(n: nat, d: nat, a: nat, b: nat)
    requires 0 < a && P(a - 1) <= n && d < P(b)
    ensures AtLeast(n, d, a - b - 1)
  {
    hide Scaled, AtLeast, P;
    var e := a - b - 1;
    AtLeastBy(n, d, e, b + 1);
    ScaledGrows(P(a - 1), n, b + 1);
    PowersScale(a - 1, b + 1);
    PowersScale(b, a);
    ScaledGrows(d, P(b), a);
  }

  // The eight digits as a quotient of n * 10^i by d * 10^j.
  lemma LeadingDigitsBound(n: nat, d: nat, e: int)
    requires 0 < d && AtLeast(n, d, e) && !AtLeast(n, d, e + 1)
    ensures P(SIGNIFICANT_DIGITS - 1) <= LeadingDigits(n, d, e) < P(SIGNIFICANT_DIGITS)
    ensures var digits, shift := LeadingDigits(n, d, e), SIGNIFICANT_DIGITS - 1 - e;
            var numerator, denominator := Scaled(n, Positive(shift)), Scaled(d, Positive(-shift));
            digits * denominator <= numerator < (digits + 1) * denominator
  {
    hide Scaled, AtLeast, P;
    var shift := SIGNIFICANT_DIGITS - 1 - e;
    var i, j := Positive(shift), Positive(-shift);
    DenominatorIsPositive(d, j);
    ScaledNat(n, i);
    var numerator, denominator := Scaled(n, i), Scaled(d, j);
    FloorBounds(numerator, denominator);
    AtLeastBy(n, d, e, i);
    AtLeastBy(n, d, e + 1, i);
    ScaledAdds(d, j, SIGNIFICANT_DIGITS - 1);
    ScaledAdds(d, j, SIGNIFICANT_DIGITS);
    QuotientBetween(numerator, denominator, SIGNIFICANT_DIGITS - 1, LeadingDigits(n, d, e));
  }

  lemma QuotientBetween(n: nat, d: nat, places: nat, q: nat)
    requires q * d <= n < (q + 1) * d
    requires Scaled(d, places) <= n < Scaled(d, places + 1)
    ensures P(places) <= q < P(places + 1)
  {
    hide P;
    if q < P(places) {
      ProductMonotone(q + 1, P(places), d, d);
    }
    if P(places + 1) <= q {
      ProductMonotone(P(places + 1), q, d, d);
    }
  }

  lemma EightDigits(digits: nat)
    requires P(SIGNIFICANT_DIGITS - 1) <= digits < P(SIGNIFICANT_DIGITS)
    ensures |Print(digits, 10)| == SIGNIFICANT_DIGITS
    ensures PadStart(Print(digits, 10), SIGNIFICANT_DIGITS) == Print(digits, 10)
    ensures IsNumber(Print(digits, 10)) && Number(Print(digits, 10)) == digits
  {
    hide Pow, Print, Value;
    PowPositive(10, SIGNIFICANT_DIGITS - 1);
    PrintLength(digits, 10);
    PrintReadsBack(digits, 10);
    var length := |Print(digits, 10)|;
    if length < SIGNIFICANT_DIGITS {
      PowGrows(10, length, SIGNIFICANT_DIGITS - 1);
    } else if SIGNIFICANT_DIGITS < length {
      PowGrows(10, SIGNIFICANT_DIGITS, length - 1);
    }
  }

  // Moving the point of an integer's digits multiplies it by a power of ten.
  lemma PriceDigitsDenote(digits: string, power: int)
    requires digits != "" && IsNumber(digits)
    ensures Denotes(PriceDigits(digits, |digits| + power), Scaled(Number(digits), Positive(power)), Positive(-power))
  {
    hide StripTrailing, StripLeading, MovePoint, DropPoint, Denotes, Scaled, IsNumber, Number, Zeros, MovedWhole,
         MovedFraction, Parse;
    var point := |digits| + power;
    var m := Decimal(false, digits, "");
    EmptyIsNumber();
    IsWellFormed(m);
    assert digits + "" == digits;
    MovedParts(digits, point);
    MovedNumber(m, power);
    var whole, fraction := MovedWhole(digits, point), MovedFraction(digits, point);
    StripTrailingEffect(fraction);
    var d := Decimal(false, whole, StripTrailing(fraction));
    IsWellFormed(d);
    ShownDenotes(d, whole, fraction);
    ShownPrice(digits, point);
    ScaledByNothing(Number(digits));
  }

  lemma EmptyIsNumber()
    ensures IsNumber("")
  {
  }

  lemma ShownPrice(digits: string, point: int)
    requires digits != "" && IsNumber(digits)
    ensures PriceDigits(digits, point)
            == Show(Decimal(false, MovedWhole(digits, point), StripTrailing(MovedFraction(digits, point))))
  {
    hide StripTrailing, DropPoint, IsNumber, Zeros;
    MovedParts(digits, point);
    var whole, fraction := MovedWhole(digits, point), MovedFraction(digits, point);
    if |digits| <= point {
      NothingToStrip();
      NoZeros();
      assert digits + "" == digits;
    } else {
      StripTrailingOfBody(whole, fraction);
      StripTrailingEffect(fraction);
      DroppedPoint(whole, StripTrailing(fraction));
    }
  }

  // The lengths estimate, the eight digits and the text they are written as.
  lemma PriceParts(sqrtPrice: nat, decimals0: nat, decimals1: nat)
    requires 0 < sqrtPrice && decimals0 <= MAX_DECIMALS && decimals1 <= MAX_DECIMALS
    ensures InitialPrice(sqrtPrice, decimals0, decimals1).Ok?
    ensures var n, d := PriceNumerator(sqrtPrice, decimals0), PriceDenominator(decimals1);
            var e := Exponent(n, d);
            var digits, shift := LeadingDigits(n, d, e), SIGNIFICANT_DIGITS - 1 - e;
            && AtLeast(n, d, e) && !AtLeast(n, d, e + 1)
            && P(SIGNIFICANT_DIGITS - 1) <= digits < P(SIGNIFICANT_DIGITS)
            && digits * Scaled(d, Positive(-shift)) <= Scaled(n, Positive(shift))
                 < (digits + 1) * Scaled(d, Positive(-shift))
            && Denotes(InitialPrice(sqrtPrice, decimals0, decimals1).value,
                       Scaled(digits, Positive(-shift)), Positive(shift))
            && IsShortest(InitialPrice(sqrtPrice, decimals0, decimals1).value)
  {
    hide PriceNumerator, PriceDenominator, Exponent, LeadingDigits, AtLeast, Scaled, P, Denotes, PriceDigits, Print,
         Number, IsNumber, PadStart, IsShortest;
    var n, d := PriceNumerator(sqrtPrice, decimals0), PriceDenominator(decimals1);
    NumeratorIsPositive(sqrtPrice, decimals0);
    var e := Exponent(n, d);
    ExponentIsExact(n, d);
    LeadingDigitsBound(n, d, e);
    var digits := LeadingDigits(n, d, e);
    EightDigits(digits);
    PriceDigitsDenote(Print(digits, 10), e - (SIGNIFICANT_DIGITS - 1));
    PrintShape(digits, 10);
    PriceIsShortest(Print(digits, 10), e + 1);
  }

  lemma PriceIsShortest(digits: string, point: int)
    requires |digits| == SIGNIFICANT_DIGITS && IsCanonical(digits, 10) && IsNumber(digits)
    ensures IsShortest(PriceDigits(digits, point))
  {
    hide Parse, PriceDigits, MovePoint, StripTrailing, Zeros;
    MovedParts(digits, point);
    var whole, fraction := MovedWhole(digits, point), MovedFraction(digits, point);
    StripTrailingEffect(fraction);
    var d := Decimal(false, whole, StripTrailing(fraction));
    IsWellFormed(d);
    ShownPrice(digits, point);
    ShowParses(d);
    CanonicalWhole(digits, point);
  }

  lemma CanonicalWhole(digits: string, point: int)
    requires |digits| == SIGNIFICANT_DIGITS && IsCanonical(digits, 10) && IsNumber(digits)
    ensures IsCanonical(MovedWhole(digits, point), 10)
  {
    hide Zeros;
    assert digits[0] != '0';
    if |digits| <= point {
      ZerosShape(point - |digits|);
    }
  }

  // Powers of ten that a negative or a positive exponent leaves on one side of a ratio.
  function Up(e: int): nat { if e < 7 then Pow(10, 7 - e) else 1 }

  function Down(e: int): nat { if e > 7 then Pow(10, e - 7) else 1 }

  lemma ScaledIsProduct(n: nat, places: nat)
    ensures Scaled(n, places) == n * Pow(10, places)
  {
  }

  /**
   * The price is the exact ratio rounded down to eight significant digits: with
   * x = sqrtPrice^2 * 10^decimals0 / (2^192 * 10^decimals1) the text denotes digits * 10^(e - 7), where digits
   * has eight digits and digits * 10^(e - 7) <= x < (digits + 1) * 10^(e - 7). It has no superfluous zeros.
   */
  lemma InitialPriceIsTruncated(sqrtPrice: nat, decimals0: nat, decimals1: nat) returns (digits: nat, e: int)
    requires 0 < sqrtPrice && decimals0 <= 77 && decimals1 <= 77
    ensures 10_000_000 <= digits < 100_000_000
    ensures digits * Down(e) * (Pow(2, 192) * Pow(10, decimals1)) <= sqrtPrice * sqrtPrice * Pow(10, decimals0) * Up(e)
    ensures sqrtPrice * sqrtPrice * Pow(10, decimals0) * Up(e)
            < (digits + 1) * Down(e) * (Pow(2, 192) * Pow(10, decimals1))
    ensures var price := InitialPrice(sqrtPrice, decimals0, decimals1);
            price.Ok? && Denotes(price.value, digits * Down(e), if e < 7 then 7 - e else 0) && IsShortest(price.value)
  {
    hide Exponent, LeadingDigits, AtLeast, Scaled, Denotes, IsShortest, InitialPrice, Pow;
    var n, d := PriceNumerator(sqrtPrice, decimals0), PriceDenominator(decimals1);
    PriceParts(sqrtPrice, decimals0, decimals1);
    e := Exponent(n, d);
    digits := LeadingDigits(n, d, e);
    ScaledIsProduct(sqrtPrice * sqrtPrice, decimals0);
    ScaledIsProduct(Pow(2, 192), decimals1);
    EightDigitPowers();
    WrittenOut(n, d, digits, e);
  }

  lemma EightDigitPowers()
    ensures P(7) == 10_000_000 && P(8) == 100_000_000
  {
    assert P(4) == 10_000;
  }

  lemma WrittenOut(n: nat, d: nat, digits: nat, e: int)
    ensures Scaled(n, Positive(7 - e)) == n * Up(e)
    ensures Scaled(digits, Positive(e - 7)) == digits * Down(e)
    ensures digits * Scaled(d, Positive(e - 7)) == digits * Down(e) * d
    ensures (digits + 1) * Scaled(d, Positive(e - 7)) == (digits + 1) * Down(e) * d
  {
    hide Scaled, Pow;
    ScaledIsProduct(n, Positive(7 - e));
    ScaledIsProduct(digits, Positive(e - 7));
    ScaledIsProduct(d, Positive(e - 7));
    NoPower();
    Regrouped(digits, d, Down(e));
    Regrouped(digits + 1, d, Down(e));
  }

  lemma NoPower()
    ensures Pow(10, 0) == 1
  {
  }

  lemma Regrouped(a: nat, b: nat, c: nat)
    ensures a * (b * c) == a * c * b
  {
  }

  /** Prices are refused exactly for more than 77 decimals, and nothing costs zero. */
  lemma InitialPriceIsRefusedIff(sqrtPrice: nat, decimals0: int, decimals1: int)
    ensures InitialPrice(sqrtPrice, decimals0, decimals1).Ok? <==> 0 <= decimals0 <= 77 && 0 <= decimals1 <= 77
    ensures 0 <= decimals0 <= 77 && 0 <= decimals1 <= 77 && sqrtPrice == 0 ==>
              InitialPrice(sqrtPrice, decimals0, decimals1) == Ok("0")
  {
    if 0 <= decimals0 <= 77 {
      NumeratorIsPositive(sqrtPrice, decimals0);
    }
  }

  lemma TwoPowers()
    ensures Pow(2, 96) * Pow(2, 96) == Pow(2, 192)
  {
    PowAdds(2, 96, 96);
  }

  // Eight digits bound the exponent: x = 10^k has the digits 10000000 and the exponent k.
  lemma PowerOfTen(digits: nat, e: int, a: nat, b: nat)
    requires 10_000_000 <= digits < 100_000_000
    requires digits * Down(e) * P(b) <= P(a) * Up(e) < (digits + 1) * Down(e) * P(b)
    ensures digits == 10_000_000 && e == a - b
  {
    hide Pow, P;
    EightDigitPowers();
    PowerIsUp(e);
    var up, down := Positive(7 - e), Positive(e - 7);
    PowersMultiply(a, up);
    PowersMultiply(down, b);
    Associate(digits, P(down), P(b));
    Associate(digits + 1, P(down), P(b));
    // digits * 10^(down + b) <= 10^(a + up) < (digits + 1) * 10^(down + b)
    BetweenPowers(digits, a + up, down + b);
  }

  lemma PowerIsUp(e: int)
    ensures Up(e) == P(Positive(7 - e)) && Down(e) == P(Positive(e - 7))
  {
  }

  lemma PowersMultiply(a: nat, b: nat)
    ensures P(a) * P(b) == P(a + b)
  {
    PowAdds(10, a, b);
  }

  lemma Associate(a: nat, b: nat, c: nat)
    ensures a * b * c == a * (b * c)
  {
  }

  lemma BetweenPowers(digits: nat, x: nat, y: nat)
    requires P(7) <= digits < P(8) && P(7) == 10_000_000 && P(8) == 100_000_000
    requires digits * P(y) <= P(x) < (digits + 1) * P(y)
    ensures x == y + 7 && digits == P(7)
  {
    hide P;
    PowersMultiply(7, y);
    PowersMultiply(8, y);
    PowerIsP(x);
    PowerIsP(y);
    PowerIsP(y + 7);
    PowerIsP(y + 8);
    PowPositive(10, y);
    if x < y + 7 {
      PowGrows(10, x + 1, y + 7);
      TenfoldIsMore(x);
      ProductMonotone(P(7), digits, P(y), P(y));
    } else if y + 7 < x {
      PowGrows(10, y + 8, x);
      ProductMonotone(digits + 1, P(8), P(y), P(y));
    } else if P(7) < digits {
      MulStrict(P(7), digits, P(y));
    }
  }

  lemma TenfoldIsMore(x: nat)
    ensures 0 < P(x) < P(x + 1) && P(x + 1) == Pow(10, x + 1)
  {
    PowPositive(10, x);
  }

  lemma CancelFactor(c: nat, a: nat, b: nat)
    requires 0 < c
    ensures a * c <= b * c <==> a <= b
    ensures a * c < b * c <==> a < b
  {
    if a < b {
      MulStrict(a, b, c);
    } else if b < a {
      MulStrict(b, a, c);
    }
  }

  /**
   * A square root of exactly 2^96 stands for equal amounts in base units, so the price is
   * 10^(decimals0 - decimals1).
   */
  lemma UnitPriceIsAPowerOfTen(decimals0: nat, decimals1: nat)
    requires decimals0 <= 77 && decimals1 <= 77
    ensures var price, k := InitialPrice(Pow(2, 96), decimals0, decimals1), decimals0 - decimals1;
            price.Ok? && Denotes(price.value, if 0 <= k then Pow(10, k) else 1, if 0 <= k then 0 else -k)
  {
    hide Pow, Denotes, InitialPrice, IsShortest, P;
    PowPositive(2, 96);
    PowPositive(2, 192);
    var digits, e := InitialPriceIsTruncated(Pow(2, 96), decimals0, decimals1);
    TwoPowers();
    var c, a, b := Pow(2, 192), Pow(10, decimals0), Pow(10, decimals1);
    PowerIsP(decimals0);
    PowerIsP(decimals1);
    CommonFactor(c, digits * Down(e), b, a * Up(e));
    CommonFactor(c, (digits + 1) * Down(e), b, a * Up(e));
    FactorFirst(c, a, Up(e));
    PowerOfTen(digits, e, decimals0, decimals1);
    TenMillionths(InitialPrice(Pow(2, 96), decimals0, decimals1).value, e);
  }

  lemma CommonFactor(c: nat, x: nat, b: nat, y: nat)
    requires 0 < c
    ensures x * (c * b) <= y * c <==> x * b <= y
    ensures y * c < x * (c * b) <==> y < x * b
  {
    assert x * (c * b) == x * b * c;
    CancelFactor(c, x * b, y);
    CancelFactor(c, y, x * b);
  }

  lemma FactorFirst(c: nat, a: nat, u: nat)
    ensures c * a * u == a * u * c
  {
  }

  lemma TenMillionths(text: string, e: int)
    requires Denotes(text, 10_000_000 * Down(e), if e < 7 then 7 - e else 0)
    ensures Denotes(text, if 0 <= e then Pow(10, e) else 1, if 0 <= e then 0 else -e)
  {
    hide P, Pow;
    EightDigitPowers();
    PowerIsUp(e);
    NoPower();
    PowerIsP(0);
    if 7 <= e {
      PowersMultiply(7, e - 7);
      PowerIsP(e);
    } else if 0 <= e {
      PowersMultiply(e, 7 - e);
      PowerIsP(e);
      SameNumber(text, P(7), 7 - e, P(e), 0);
    } else {
      PowersMultiply(7, -e);
      SameNumber(text, P(7), 7 - e, 1, -e);
    }
  }

  // One number over two scales: u / 10^s == v / 10^t.
  lemma SameNumber(text: string, u: nat, s: nat, v: nat, t: nat)
    requires Denotes(text, u, s) && u * P(t) == v * P(s)
    ensures Denotes(text, v, t)
  {
    hide Parse, Units, WellFormed, P;
    var d := Parse(text).value;
    var w, k := Units(d), |d.fraction|;
    // w * 10^s == u * 10^k, so w * 10^t * 10^s == v * 10^k * 10^s
    assert w * P(t) * P(s) == v * P(k) * P(s) by {
      ThreeFactors(w, P(t), P(s));
      ThreeFactors(u, P(k), P(t));
      ThreeFactors(v, P(k), P(s));
      assert w * P(s) == u * P(k);
    }
    Cancel(Scaled(w, t), Scaled(v, k), s);
  }

  lemma ThreeFactors(a: int, b: int, c: int)
    ensures a * b * c == a * c * b
  {
  }

  lemma NumeratorIsPositive(sqrtPrice: nat, decimals0: nat)
    ensures 0 < PriceNumerator(sqrtPrice, decimals0) <==> 0 < sqrtPrice
  {
    hide Scaled;
    NothingScaled(decimals0);
    if 0 < sqrtPrice {
      DenominatorIsPositive(sqrtPrice * sqrtPrice, decimals0);
    }
  }
}
