/** x402 network ids (CAIP-2): a namespace per family and the chain id in the family's radix. */
module X402NetworkId {
  import opened Addresses
  import opened NumberText
  import opened Wrappers
  import Text

  // The chain id is decimal text.
  datatype Identity = Identity(family: Family, chainId: string)

  datatype NetworkError = UnsupportedNetwork

  const MAX_HEX_DIGITS: nat := 64
  const MAX_DECIMAL_DIGITS: nat := 78

  function Namespace(family: Family): string {
    match family
    case Tron => "tron"
    case Evm => "eip155"
  }

  function FamilyOf(namespace: string): Option<Family> {
    if namespace == "tron" then Some(Tron) else if namespace == "eip155" then Some(Evm) else None
  }

  predicate IsChainId(s: string) { s != "" && IsNumeral(s, 10) }

  function ChainNumber(network: Identity): nat
    requires IsChainId(network.chainId)
  {
    Value(network.chainId, 10)
  }

  // The number as the family writes it.
  function Reference(family: Family, n: nat): string {
    match family
    case Tron => "0x" + Print(n, 16)
    case Evm => Print(n, 10)
  }

  function ToX402Network(network: Identity): string
    requires IsChainId(network.chainId)
  {
    Namespace(network.family) + ":" + Reference(network.family, ChainNumber(network))
  }

  predicate IsLowerHex(s: string) {
    IsNumeral(s, 16) && forall i :: 0 <= i < |s| ==> !('A' <= s[i] <= 'F')
  }

  // 0x[0-9a-f]{1,64}|[0-9]{1,78}, and the number it writes.
  function ParseReference(s: string): Option<nat> {
    if Text.StartsWith(s, "0x") then
      var digits := s[2..];
      if 1 <= |digits| <= MAX_HEX_DIGITS && IsLowerHex(digits) then Some(Value(digits, 16)) else None
    else if 1 <= |s| <= MAX_DECIMAL_DIGITS && IsNumeral(s, 10) then Some(Value(s, 10))
    else None
  }

  function FromX402Network(id: string): Result<Identity, NetworkError> {
    var text := Text.Lower(Text.Trim(id));
    var family := FamilyOf(Text.Before(text, ':'));
    if ':' !in text || family.None? then Err(UnsupportedNetwork)
    else
      match ParseReference(Text.After(text, ':'))
      case None => Err(UnsupportedNetwork)
      case Some(n) => Ok(Identity(family.value, Print(n, 10)))
  }

  function SameX402Network(left: string, right: string): bool {
    var a, b := FromX402Network(left), FromX402Network(right);
    a.Ok? && b.Ok? && a.value == b.value
  }

  // ----- The grammar -----

  predicate IsOf(s: string, chars: string) { forall i :: 0 <= i < |s| ==> s[i] in chars }

  // The number of a reference: up to 64 small hex digits after "0x", or up to 78 decimal digits.
  predicate IsReferenceTo(s: string, n: nat) {
    || (3 <= |s| <= 66 && s[0] == '0' && s[1] == 'x' && IsOf(s[2..], "0123456789abcdef")
        && IsNumeral(s[2..], 16) && n == Value(s[2..], 16))
    || (1 <= |s| <= 78 && IsOf(s, "0123456789") && IsNumeral(s, 10) && n == Value(s, 10))
  }

  lemma NumeralsAre(s: string)
    ensures IsNumeral(s, 10) <==> IsOf(s, "0123456789")
    ensures IsLowerHex(s) <==> IsOf(s, "0123456789abcdef")
    ensures IsOf(s, "0123456789abcdef") ==> IsNumeral(s, 16)
  {
    forall i | 0 <= i < |s|
      ensures IsDigit(s[i], 10) <==> s[i] in "0123456789"
      ensures IsDigit(s[i], 16) && !('A' <= s[i] <= 'F') <==> s[i] in "0123456789abcdef"
    {
      DigitsAre(s[i], 10);
      DigitsAre(s[i], 16);
      SmallDigits(s[i]);
    }
  }

  lemma SmallDigits(c: char)
    ensures c in "ABCDEF" <==> 'A' <= c <= 'F'
    ensures c in "0123456789abcdef" ==> !('A' <= c <= 'F')
  {
  }

  lemma ReferenceIs(s: string, n: nat)
    ensures ParseReference(s) == Some(n) <==> IsReferenceTo(s, n)
  {
    hide Value, IsNumeral, IsLowerHex, IsOf;
    NumeralsAre(s);
    if 2 <= |s| {
      NumeralsAre(s[2..]);
      if s[1] == 'x' {
        NoDecimal(s);
      }
    }
  }

  lemma NoDecimal(s: string)
    requires 2 <= |s| && s[1] == 'x'
    ensures !IsOf(s, "0123456789")
  {
    assert s[1] !in "0123456789";
  }

  /**
   * An id is accepted exactly when, trimmed and in small letters, it is one of the two namespaces, a colon
   * and a reference; the identity is that family with the number in decimal.
   */
  lemma IdIsAcceptedIff(id: string, family: Family, chainId: string)
    ensures FromX402Network(id) == Ok(Identity(family, chainId)) <==>
            exists reference, n: nat ::
              && Text.Lower(Text.Trim(id)) == (if family == Tron then "tron:" else "eip155:") + reference
              && IsReferenceTo(reference, n) && chainId == Print(n, 10)
    ensures FromX402Network(id).Err? ==> FromX402Network(id) == Err(UnsupportedNetwork)
  {
    hide Text.Lower, Text.Trim, IsReferenceTo, ParseReference, Print, Text.Before, Text.After;
    var text := Text.Lower(Text.Trim(id));
    if FromX402Network(id) == Ok(Identity(family, chainId)) {
      var reference := Text.After(text, ':');
      ReferenceIs(reference, ParseReference(reference).value);
      TakenApart(text);
    }
    forall reference, n: nat | text == (if family == Tron then "tron:" else "eip155:") + reference
                               && IsReferenceTo(reference, n) && chainId == Print(n, 10)
      ensures FromX402Network(id) == Ok(Identity(family, chainId))
    {
      ReferenceIs(reference, n);
      var name := if family == Tron then "tron" else "eip155";
      assert text == name + [':'] + reference;
      assert text[|name|] == ':';
      Text.BeforeSeparator(name, ':', reference);
    }
  }

  lemma TakenApart(text: string)
    requires ':' in text
    ensures text == Text.Before(text, ':') + ":" + Text.After(text, ':')
  {
  }

  // ----- Round trips -----

  // The bound of what the grammar can write: 64 hex digits or 78 decimal digits.
  predicate Fits(family: Family, n: nat) {
    match family
    case Tron => n < Pow(16, 64)
    case Evm => n < Pow(10, 78)
  }

  lemma LengthIff(n: nat, base: Radix, digits: nat)
    requires 0 < digits
    ensures 1 <= |Print(n, base)|
    ensures |Print(n, base)| <= digits <==> n < Pow(base, digits)
  {
    hide Pow, Print;
    PrintShape(n, base);
    PowPositive(base, digits);
    if n == 0 {
      ZeroIsShort(base);
    } else {
      PrintLength(n, base);
      if |Print(n, base)| <= digits {
        PowGrows(base, |Print(n, base)|, digits);
      } else {
        PowGrows(base, digits, |Print(n, base)| - 1);
      }
    }
  }

  lemma ZeroIsShort(base: Radix)
    ensures |Print(0, base)| == 1
  {
  }

  lemma ReferenceReadsBackIff(family: Family, n: nat)
    ensures ParseReference(Reference(family, n)) == if Fits(family, n) then Some(n) else None
  {
    hide Pow, Print, Value;
    match family
    case Tron =>
      PrintReadsBack(n, 16);
      LengthIff(n, 16, MAX_HEX_DIGITS);
      assert ("0x" + Print(n, 16))[2..] == Print(n, 16);
    case Evm =>
      PrintReadsBack(n, 10);
      LengthIff(n, 10, MAX_DECIMAL_DIGITS);
      DecimalHasNoPrefix(Print(n, 10));
  }

  lemma DecimalHasNoPrefix(s: string)
    requires IsNumeral(s, 10)
    ensures !Text.StartsWith(s, "0x")
  {
    if 1 < |s| {
      assert IsDigit(s[1], 10);
    }
  }

  predicate IsLowerText(s: string) { forall i :: 0 <= i < |s| ==> !('A' <= s[i] <= 'Z') }

  lemma LowerOfLower(s: string)
    requires IsLowerText(s)
    ensures Text.Lower(s) == s
  {
  }

  lemma ReferenceShape(family: Family, n: nat)
    ensures var s := Reference(family, n);
            s != "" && IsLowerText(s) && ':' !in s && !Text.IsSpace(s[|s| - 1])
  {
    hide Print, Pow;
    var base: Radix := if family == Tron then 16 else 10;
    PrintShape(n, base);
    var digits := Print(n, base);
    forall i | 0 <= i < |digits|
      ensures digits[i] != ':' && !('A' <= digits[i] <= 'Z') && !Text.IsSpace(digits[i])
    {
      assert IsDigit(digits[i], base);
    }
  }

  lemma IdShape(family: Family, n: nat)
    ensures var id := Namespace(family) + ":" + Reference(family, n);
            && Text.Lower(Text.Trim(id)) == id
            && ':' in id
            && Text.Before(id, ':') == Namespace(family)
            && Text.After(id, ':') == Reference(family, n)
  {
    hide Reference, Text.Lower, Text.Trim, Text.Before, Text.After;
    ReferenceShape(family, n);
    PlainId(Namespace(family), Reference(family, n));
  }

  // An id in lower case without white space is taken apart as it was put together.
  lemma PlainId(name: string, reference: string)
    requires name in {"tron", "eip155"}
    requires reference != "" && IsLowerText(reference) && !Text.IsSpace(reference[|reference| - 1])
    ensures var id := name + ":" + reference;
            && Text.Lower(Text.Trim(id)) == id
            && ':' in id && Text.Before(id, ':') == name && Text.After(id, ':') == reference
  {
    hide Text.Lower, Text.Trim, Text.Before, Text.After;
    var id := name + ":" + reference;
    assert id[0] == name[0] && id[|id| - 1] == reference[|reference| - 1];
    Text.TrimOfTrimmed(id);
    LowerOfLower(id);
    assert id == name + [':'] + reference;
    Text.BeforeSeparator(name, ':', reference);
    assert id[|name|] == ':';
  }

  /** An identity is read back from its id, in canonical decimal, exactly when the grammar can hold its number. */
  lemma IdentityRoundTripIff(network: Identity)
    requires IsChainId(network.chainId)
    ensures FromX402Network(ToX402Network(network)) ==
            if Fits(network.family, ChainNumber(network)) then
              Ok(Identity(network.family, Print(ChainNumber(network), 10)))
            else Err(UnsupportedNetwork)
    ensures IsCanonical(network.chainId, 10) ==> Print(ChainNumber(network), 10) == network.chainId
  {
    hide Text.Lower, Text.Trim, Text.Before, Text.After, ParseReference, Reference, Fits, Print;
    IdShape(network.family, ChainNumber(network));
    ReferenceReadsBackIff(network.family, ChainNumber(network));
    if IsCanonical(network.chainId, 10) {
      CanonicalPrints(network.chainId, 10);
    }
  }

  lemma ReferenceBound(s: string)
    requires ParseReference(s).Some?
    ensures ParseReference(s).value < Pow(16, 64) || ParseReference(s).value < Pow(10, 78)
  {
    hide Pow, Value;
    if Text.StartsWith(s, "0x") {
      ValueBound(s[2..], 16);
      PowGrows(16, |s| - 2, MAX_HEX_DIGITS);
    } else {
      ValueBound(s, 10);
      PowGrows(10, |s|, MAX_DECIMAL_DIGITS);
    }
  }

  // 16^64 = 2^256 < 10^78
  lemma HexFitsInDecimal()
    ensures Pow(16, 64) < Pow(10, 78)
  {
    HexPower();
    DecimalPower();
  }

  lemma HexPower()
    ensures Pow(16, 64) == 0x1_0000000000000000_0000000000000000_0000000000000000_0000000000000000
  {
    assert Pow(16, 4) == 0x10000 by {
      assert Pow(16, 1) == 16;
      assert Pow(16, 2) == 256;
    }
    PowAdds(16, 4, 4);
    PowAdds(16, 8, 8);
    PowAdds(16, 16, 16);
    PowAdds(16, 32, 32);
  }

  lemma DecimalPowers()
    ensures Pow(10, 6) == 1_000000 && Pow(10, 24) == 1_000000_000000_000000_000000
  {
    assert Pow(10, 3) == 1000 by {
      assert Pow(10, 1) == 10;
    }
    PowAdds(10, 3, 3);
    PowAdds(10, 6, 6);
    PowAdds(10, 12, 12);
  }

  lemma DecimalPower()
    ensures Pow(10, 78) == 1_000000000000000000000000000000_000000000000000000000000000000_000000000000000000
  {
    hide Pow;
    DecimalPowers();
    PowAdds(10, 24, 24);
    PowAdds(10, 48, 24);
    PowAdds(10, 72, 6);
  }

  /**
   * Writing an accepted id in the family's own form names the same network, except that a TRON id may give
   * in decimal a number that 64 hex digits cannot hold.
   */
  lemma AcceptedIdRewritesIff(id: string)
    requires FromX402Network(id).Ok?
    ensures var network := FromX402Network(id).value;
            && IsChainId(network.chainId) && IsCanonical(network.chainId, 10)
            && (SameX402Network(id, ToX402Network(network)) <==>
                network.family == Evm || ChainNumber(network) < Pow(16, 64))
  {
    hide Text.Lower, Text.Trim, Text.Before, Text.After, ParseReference, Pow, Print, Value, ToX402Network;
    var text := Text.Lower(Text.Trim(id));
    var n := ParseReference(Text.After(text, ':')).value;
    ReferenceBound(Text.After(text, ':'));
    HexFitsInDecimal();
    PrintReadsBack(n, 10);
    IdentityRoundTripIff(FromX402Network(id).value);
  }

  /** Such ids exist: the number 2^256 itself is one, and its decimal TRON id is accepted. */
  lemma LongTronIdHasNoOwnForm(n: nat)
    requires Pow(16, 64) <= n < Pow(10, 78)
    ensures Pow(16, 64) < Pow(10, 78)
    ensures FromX402Network("tron:" + Print(n, 10)) == Ok(Identity(Tron, Print(n, 10)))
    ensures IsChainId(Print(n, 10))
    ensures FromX402Network(ToX402Network(Identity(Tron, Print(n, 10)))).Err?
  {
    hide Print, Value, Pow, FromX402Network, ToX402Network;
    HexFitsInDecimal();
    LengthIff(n, 10, MAX_DECIMAL_DIGITS);
    PrintReadsBack(n, 10);
    DecimalTronId(n);
    IdentityRoundTripIff(Identity(Tron, Print(n, 10)));
  }

  lemma DecimalTronId(n: nat)
    requires |Print(n, 10)| <= MAX_DECIMAL_DIGITS
    ensures FromX402Network("tron:" + Print(n, 10)) == Ok(Identity(Tron, Print(n, 10)))
  {
    hide Print, Value, Pow, Text.Lower, Text.Trim, Text.Before, Text.After, IsNumeral;
    ReferenceShape(Evm, n);
    PrintReadsBack(n, 10);
    PlainId("tron", Print(n, 10));
    assert "tron" + ":" + Print(n, 10) == "tron:" + Print(n, 10);
    DecimalHasNoPrefix(Print(n, 10));
  }

  // ----- Comparison -----

  // The number an accepted id writes, in either radix.
  function NumberOf(id: string): nat
    requires FromX402Network(id).Ok?
  {
    ParseReference(Text.After(Text.Lower(Text.Trim(id)), ':')).value
  }

  /** Two ids are the same network exactly when the family and the number agree, whatever radix each uses. */
  lemma SameNetworkIff(left: string, right: string)
    ensures SameX402Network(left, right) <==>
            && FromX402Network(left).Ok? && FromX402Network(right).Ok?
            && FromX402Network(left).value.family == FromX402Network(right).value.family
            && NumberOf(left) == NumberOf(right)
  {
    hide Print, Text.Lower, Text.Trim, Text.Before, Text.After, ParseReference;
    if FromX402Network(left).Ok? && FromX402Network(right).Ok? && SameX402Network(left, right) {
      PrintIsInjective(NumberOf(left), NumberOf(right), 10);
    }
  }
}
