/** The packed info word of a V4 position: subscriber byte, two signed 24-bit ticks, 200 bits of pool id. */
module V4Position {
  import opened NumberText
  import opened Words
  import opened Wrappers
  import Text

  datatype PositionInfo = PositionInfo(tickLower: int, tickUpper: int, hasSubscriber: bool, poolIdPrefix: string)

  datatype PositionError = NotANumber | TooLarge | NotHex | PoolMismatch

  const PREFIX_DIGITS: nat := 50

  // The low 24 bits as a signed number.
  function SignedTick(value: nat): int { Signed(value, TWO_24) }

  function Prefix(id: nat): string { PadStart(Print(id / TWO_56, 16), PREFIX_DIGITS) }

  // 0x[0-9a-fA-F]+|\d+
  function ParseNumber(text: string): Option<nat> {
    if Text.StartsWith(text, "0x") then
      if |text| > 2 && IsNumeral(text[2..], 16) then Some(Value(text[2..], 16)) else None
    else if text != "" && IsNumeral(text, 10) then Some(Value(text, 10))
    else None
  }

  function Unpack(packed: nat): PositionInfo {
    PositionInfo(SignedTick(packed / TWO_8), SignedTick(packed / TWO_32), packed % TWO_8 != 0, Prefix(packed))
  }

  function DecodeInfo(info: string): Result<PositionInfo, PositionError> {
    match ParseNumber(Text.Trim(info))
    case None => Err(NotANumber)
    case Some(packed) => if TWO_256 <= packed then Err(TooLarge) else Ok(Unpack(packed))
  }

  // A pool id is hex text with or without the prefix.
  function PoolNumber(poolId: string): Option<nat> {
    var text := Text.Trim(poolId);
    ParseNumber(if Text.StartsWith(text, "0x") then text else "0x" + text)
  }

  function AssertPositionPool(info: PositionInfo, poolId: string): Result<bool, PositionError> {
    match PoolNumber(poolId)
    case None => Err(NotHex)
    case Some(id) => if Prefix(id) == info.poolIdPrefix then Ok(true) else Err(PoolMismatch)
  }

  // ----- The documented layout -----

  datatype Fields = Fields(subscriber: nat, tickLower: int, tickUpper: int, pool: nat)

  predicate InRange(f: Fields) {
    && f.subscriber < TWO_8
    && Fits(f.tickLower, TWO_24) && Fits(f.tickUpper, TWO_24)
    && f.pool < TWO_200
  }

  // Bits 0-7, 8-31, 32-55 and 56-255.
  function Pack(f: Fields): nat
    requires InRange(f)
  {
    f.subscriber + Unsigned(f.tickLower, TWO_24) * TWO_8 + Unsigned(f.tickUpper, TWO_24) * TWO_32 + f.pool * TWO_56
  }

  function FieldsOf(packed: nat): Fields {
    Fields(packed % TWO_8, SignedTick(packed / TWO_8), SignedTick(packed / TWO_32), packed / TWO_56)
  }

  lemma SignedOfUnsigned(tick: int, above: nat)
    requires Fits(tick, TWO_24)
    ensures Unsigned(tick, TWO_24) < TWO_24 && SignedTick(Unsigned(tick, TWO_24) + above * TWO_24) == tick
  {
  }

  lemma UnsignedOfSigned(value: nat)
    ensures Fits(SignedTick(value), TWO_24)
    ensures Unsigned(SignedTick(value), TWO_24) == value % TWO_24
  {
  }

  /** Unpacking undoes packing for all fields in range. */
  lemma PackedFieldsReadBack(f: Fields)
    requires InRange(f)
    ensures Pack(f) < TWO_256 && FieldsOf(Pack(f)) == f
  {
    hide SignedTick, Unsigned;
    SignedOfUnsigned(f.tickUpper, f.pool);
    var upper := Unsigned(f.tickUpper, TWO_24) + f.pool * TWO_24;
    SignedOfUnsigned(f.tickLower, upper);
    Layers(f.subscriber, Unsigned(f.tickLower, TWO_24), Unsigned(f.tickUpper, TWO_24), f.pool);
  }

  lemma Layers(subscriber: nat, lower: nat, upper: nat, pool: nat)
    requires subscriber < TWO_8 && lower < TWO_24 && upper < TWO_24 && pool < TWO_200
    ensures var packed := subscriber + lower * TWO_8 + upper * TWO_32 + pool * TWO_56;
            && packed < TWO_256
            && packed % TWO_8 == subscriber
            && packed / TWO_8 == lower + (upper + pool * TWO_24) * TWO_24
            && packed / TWO_32 == upper + pool * TWO_24
            && packed / TWO_56 == pool
  {
    var packed := subscriber + lower * TWO_8 + upper * TWO_32 + pool * TWO_56;
    LowByte(subscriber, lower + (upper + pool * TWO_24) * TWO_24, packed);
  }

  lemma LowByte(low: nat, high: nat, packed: nat)
    requires low < TWO_8 && packed == low + high * TWO_8
    ensures packed % TWO_8 == low && packed / TWO_8 == high
  {
  }

  /** Packing undoes unpacking for every word, so no two words have the same fields. */
  lemma UnpackedWordPacksBack(packed: nat)
    requires packed < TWO_256
    ensures InRange(FieldsOf(packed)) && Pack(FieldsOf(packed)) == packed
  {
    hide SignedTick, Unsigned, Fits;
    UnsignedOfSigned(packed / TWO_8);
    UnsignedOfSigned(packed / TWO_32);
    Reassembled(packed);
  }

  lemma Reassembled(packed: nat)
    requires packed < TWO_256
    ensures packed / TWO_56 < TWO_200
    ensures packed == packed % TWO_8 + packed / TWO_8 % TWO_24 * TWO_8 + packed / TWO_32 % TWO_24 * TWO_32
                      + packed / TWO_56 * TWO_56
  {
    Nested(packed, TWO_8, TWO_24, TWO_32);
    Nested(packed, TWO_32, TWO_24, TWO_56);
  }

  lemma Nested(n: nat, a: nat, b: nat, ab: nat)
    requires ab == a * b && (a == TWO_8 || a == TWO_32) && b == TWO_24
    ensures n / a == n / ab * b + n / a % b
  {
  }

  // ----- Decoding the text -----

  lemma HexReadsBack(n: nat)
    ensures ParseNumber("0x" + Print(n, 16)) == Some(n)
  {
    PrintReadsBack(n, 16);
    assert ("0x" + Print(n, 16))[2..] == Print(n, 16);
  }

  lemma DecimalReadsBack(n: nat)
    ensures ParseNumber(Print(n, 10)) == Some(n)
  {
    PrintReadsBack(n, 10);
    var s := Print(n, 10);
    if 1 < |s| {
      assert IsDigit(s[1], 10);
    }
  }

  lemma PrintedIsTrimmed(n: nat)
    ensures Text.Trim(Print(n, 10)) == Print(n, 10)
    ensures Text.Trim("0x" + Print(n, 16)) == "0x" + Print(n, 16)
  {
    hide Print, IsCanonical, Text.Trim;
    DigitsAtTheEnds(n, 10);
    DigitsAtTheEnds(n, 16);
    var hex := "0x" + Print(n, 16);
    assert hex[|hex| - 1] == Print(n, 16)[|Print(n, 16)| - 1];
    Text.TrimOfTrimmed(Print(n, 10));
    Text.TrimOfTrimmed(hex);
  }

  lemma DigitsAtTheEnds(n: nat, base: Radix)
    ensures var s := Print(n, base); s != "" && !Text.IsSpace(s[0]) && !Text.IsSpace(s[|s| - 1])
  {
    hide Print;
    PrintShape(n, base);
    var s := Print(n, base);
    assert IsDigit(s[0], base) && IsDigit(s[|s| - 1], base);
  }

  /** A packed word given in decimal or in hex decodes to the fields that were packed. */
  lemma DecodeInvertsPacking(f: Fields)
    requires InRange(f)
    ensures var info := PositionInfo(f.tickLower, f.tickUpper, f.subscriber != 0, Prefix(f.pool * TWO_56));
            && DecodeInfo(Print(Pack(f), 10)) == Ok(info)
            && DecodeInfo("0x" + Print(Pack(f), 16)) == Ok(info)
  {
    hide Print, Pack, ParseNumber, Text.Trim, SignedTick, PadStart, InRange;
    PackedFieldsReadBack(f);
    var packed := Pack(f);
    HexReadsBack(packed);
    DecimalReadsBack(packed);
    PrintedIsTrimmed(packed);
    PrefixOfFields(packed, f.pool);
  }

  lemma PrefixOfFields(packed: nat, pool: nat)
    requires FieldsOf(packed).pool == pool
    ensures Prefix(packed) == Prefix(pool * TWO_56)
  {
    hide Print, PadStart;
    assert pool * TWO_56 / TWO_56 == pool;
  }

  // ----- The pool check -----

  lemma PaddedIsInjective(a: nat, b: nat)
    requires PadStart(Print(a, 16), PREFIX_DIGITS) == PadStart(Print(b, 16), PREFIX_DIGITS)
    ensures a == b
  {
    hide PadStart, Print, Value;
    PaddedValue(a);
    PaddedValue(b);
  }

  lemma PaddedValue(n: nat)
    ensures var s := PadStart(Print(n, 16), PREFIX_DIGITS); IsNumeral(s, 16) && Value(s, 16) == n
  {
    hide Print, Value;
    PrintReadsBack(n, 16);
    var digits := Print(n, 16);
    if |digits| < PREFIX_DIGITS {
      LeadingZeros(PREFIX_DIGITS - |digits|, digits, 16);
    }
  }

  predicate IsHexText(s: string) {
    s != "" && forall i :: 0 <= i < |s| ==> s[i] in "0123456789" || s[i] in "abcdef" || s[i] in "ABCDEF"
  }

  predicate IsDecimalText(s: string) { s != "" && forall i :: 0 <= i < |s| ==> s[i] in "0123456789" }

  lemma NumeralsAre(s: string)
    ensures s != "" && IsNumeral(s, 16) <==> IsHexText(s)
    ensures s != "" && IsNumeral(s, 10) <==> IsDecimalText(s)
  {
    forall i | 0 <= i < |s|
      ensures IsDigit(s[i], 16) <==> s[i] in "0123456789" || s[i] in "abcdef" || s[i] in "ABCDEF"
      ensures IsDigit(s[i], 10) <==> s[i] in "0123456789"
    {
      DigitsAre(s[i], 10);
      DigitsAre(s[i], 16);
      assert "0123456789abcdef" == "0123456789" + "abcdef";
    }
  }

  /**
   * A packed word is read exactly when the trimmed text is a decimal or a prefixed hex number below 2^256.
   * The pool prefix is then the number above its low 56 bits, in exactly fifty hex digits.
   */
  lemma PositionIsDecodedIff(info: string)
    ensures var text := Text.Trim(info);
            var hex := |text| > 2 && text[0] == '0' && text[1] == 'x' && IsHexText(text[2..]);
            var decoded := DecodeInfo(info);
            && (decoded == Err(NotANumber) <==> !hex && !IsDecimalText(text))
            && ((hex || IsDecimalText(text)) ==>
               && (hex ==> IsNumeral(text[2..], 16)) && (!hex ==> IsNumeral(text, 10))
               && var packed := if hex then Value(text[2..], 16) else Value(text, 10);
                  && (decoded == Err(TooLarge) <==>
                     packed >= 0x1_00000000_00000000_00000000_00000000_00000000_00000000_00000000_00000000)
                  && (decoded.Ok? ==>
                     var prefix := decoded.value.poolIdPrefix;
                     |prefix| == 50 && IsNumeral(prefix, 16) && Value(prefix, 16) == packed / 0x1_00000000_000000))
            && (decoded.Ok? || decoded.error in {NotANumber, TooLarge})
  {
    hide Value, Text.Trim, SignedTick, IsNumeral, IsHexText, IsDecimalText, Prefix;
    var text := Text.Trim(info);
    NumeralsAre(text);
    if |text| > 2 {
      NumeralsAre(text[2..]);
      if text[1] == 'x' {
        NoDecimal(text);
      }
    } else if Text.StartsWith(text, "0x") {
      NoDecimal(text);
    }
    if DecodeInfo(info).Ok? {
      PrefixIs(ParseNumber(text).value);
    }
  }

  lemma NoDecimal(text: string)
    requires 2 <= |text| && text[1] == 'x'
    ensures !IsDecimalText(text)
  {
    assert text[1] !in "0123456789";
  }

  lemma PrefixIs(packed: nat)
    requires packed < TWO_256
    ensures |Prefix(packed)| == 50 && IsNumeral(Prefix(packed), 16) && Value(Prefix(packed), 16) == packed / TWO_56
  {
    hide Print, Value, IsNumeral;
    PaddedValue(packed / TWO_56);
    PrefixLength(packed / TWO_56);
    ZerosShape(50 - |Print(packed / TWO_56, 16)|);
  }

  lemma PrefixLength(pool: nat)
    requires pool < TWO_200
    ensures |Print(pool, 16)| <= 50
  {
    if 50 < |Print(pool, 16)| {
      hide Print, Pow;
      PrintLength(pool, 16);
      FiftyDigits();
      PowGrows(16, 50, |Print(pool, 16)| - 1);
    }
  }

  lemma FiftyDigits()
    ensures Pow(16, 50) == TWO_200
  {
    hide Pow;
    PowOne();
    PowAdds(16, 1, 1);
    PowAdds(16, 2, 1);
    PowAdds(16, 3, 3);
    PowAdds(16, 6, 6);
    PowAdds(16, 12, 12);
    PowAdds(16, 24, 1);
    PowAdds(16, 25, 25);
  }

  lemma PowOne()
    ensures Pow(16, 1) == 16
  {
    assert Pow(16, 0) == 1;
  }

  /** A pool id is read exactly when it is hex, with or without the prefix, as the same number. */
  lemma PoolIdIsReadIff(poolId: string)
    ensures var text := Text.Trim(poolId);
            var digits := text[if 2 <= |text| && text[0] == '0' && text[1] == 'x' then 2 else 0..];
            && (PoolNumber(poolId).Some? <==> IsHexText(digits))
            && (IsHexText(digits) ==> IsNumeral(digits, 16) && PoolNumber(poolId) == Some(Value(digits, 16)))
  {
    hide Value, Text.Trim, IsNumeral, IsHexText;
    var text := Text.Trim(poolId);
    NumeralsAre(text);
    assert ("0x" + text)[2..] == text;
    if Text.StartsWith(text, "0x") {
      NumeralsAre(text[2..]);
    }
  }

  /**
   * A decoded position is accepted for a pool exactly when the pool's id is hex and its bits above the low
   * 56 are those of the packed word.
   */
  lemma PoolAcceptedIffTopBitsAgree(info: string, poolId: string)
    requires DecodeInfo(info).Ok?
    ensures var check := AssertPositionPool(DecodeInfo(info).value, poolId);
            && (check.Ok? <==>
               && PoolNumber(poolId).Some?
               && PoolNumber(poolId).value / TWO_56 == ParseNumber(Text.Trim(info)).value / TWO_56)
            && (PoolNumber(poolId).None? ==> check == Err(NotHex))
            && (PoolNumber(poolId).Some? && check.Err? ==> check == Err(PoolMismatch))
  {
    hide Print, PadStart, ParseNumber, Text.Trim, SignedTick;
    if PoolNumber(poolId).Some? && AssertPositionPool(DecodeInfo(info).value, poolId).Ok? {
      PaddedIsInjective(PoolNumber(poolId).value / TWO_56, ParseNumber(Text.Trim(info)).value / TWO_56);
    }
  }
}
