/** The two chain families and the spellings of their addresses. */
module Addresses {
  import Text

  datatype Family = Tron | Evm

  // Base58Check and keccak: `tronValid` is the Base58 address check, `high(body, i)` tells whether the
  // i-th hex digit of the hash of a lower-case address body is 8 or more.
  datatype Codec = Codec(tronValid: string -> bool, high: (string, nat) -> bool)

  predicate IsHex(c: char) { '0' <= c <= '9' || 'a' <= c <= 'f' || 'A' <= c <= 'F' }

  function UpperChar(c: char): char {
    if 'a' <= c <= 'z' then 'A' + (c - 'a') else c
  }

  function Upper(s: string): string { seq(|s|, i requires 0 <= i < |s| => UpperChar(s[i])) }

  // evmChecksumAddress without its prefix: the EIP-55 spelling of a lower-case body.
  function Checksummed(codec: Codec, body: string): string {
    seq(|body|, i requires 0 <= i < |body| =>
      if 'a' <= body[i] <= 'f' && codec.high(body, i) then UpperChar(body[i]) else body[i])
  }

  predicate IsEvmAddress(codec: Codec, s: string) {
    && |s| == 42 && s[0] == '0' && s[1] in {'x', 'X'}
    && (forall i :: 2 <= i < 42 ==> IsHex(s[i]))
    && var body := s[2..];
       body == Text.Lower(body) || body == Upper(body) || body == Checksummed(codec, Text.Lower(body))
  }

  predicate IsAddress(codec: Codec, family: Family, s: string) {
    match family
    case Tron => codec.tronValid(s)
    case Evm => IsEvmAddress(codec, s)
  }

  // Base58Check has only one spelling per address; an EVM address is checksummed, other text passes through.
  function Canonical(codec: Codec, family: Family, s: string): string {
    match family
    case Tron => s
    case Evm => if IsEvmAddress(codec, s) then "0x" + Checksummed(codec, Text.Lower(s[2..])) else s
  }

  lemma LowerUndoesUpper(c: char)
    requires IsHex(c)
    ensures var low := Text.LowerChar(c);
            Text.LowerChar(low) == low && Text.LowerChar(UpperChar(low)) == low
  {
  }

  lemma LowerUndoesChecksum(codec: Codec, s: string)
    requires IsEvmAddress(codec, s)
    ensures Text.Lower(Checksummed(codec, Text.Lower(s[2..]))) == Text.Lower(s[2..])
  {
    var body := Text.Lower(s[2..]);
    forall i | 0 <= i < 40
      ensures Text.LowerChar(Checksummed(codec, body)[i]) == body[i]
    {
      LowerUndoesUpper(s[i + 2]);
    }
  }

  /** A canonical spelling of an address is an address and its own canonical spelling. */
  lemma CanonicalIsStable(codec: Codec, family: Family, s: string)
    ensures Canonical(codec, family, Canonical(codec, family, s)) == Canonical(codec, family, s)
    ensures IsAddress(codec, family, s) ==> IsAddress(codec, family, Canonical(codec, family, s))
  {
    if family == Evm && IsEvmAddress(codec, s) {
      var canonical := Canonical(codec, family, s);
      LowerUndoesChecksum(codec, s);
      assert canonical[2..] == Checksummed(codec, Text.Lower(s[2..]));
      forall i | 2 <= i < 42
        ensures IsHex(canonical[i])
      {
        assert IsHex(s[i]);
      }
    }
  }

  /** Two addresses have one canonical spelling exactly when they differ in letter case at most, on TRON not at all. */
  lemma SameCanonicalIff(codec: Codec, family: Family, a: string, b: string)
    requires IsAddress(codec, family, a) && IsAddress(codec, family, b)
    ensures Canonical(codec, family, a) == Canonical(codec, family, b) <==>
            if family == Evm then Text.Lower(a[2..]) == Text.Lower(b[2..]) else a == b
  {
    if family == Evm {
      LowerUndoesChecksum(codec, a);
      LowerUndoesChecksum(codec, b);
      assert Canonical(codec, family, a)[2..] == Checksummed(codec, Text.Lower(a[2..]));
      assert Canonical(codec, family, b)[2..] == Checksummed(codec, Text.Lower(b[2..]));
    }
  }

  // ----- Which texts are EVM addresses -----

  predicate IsLowerLetter(c: char) { c in "abcdef" }

  predicate IsUpperLetter(c: char) { c in "ABCDEF" }

  predicate IsHexDigit(c: char) { c in "0123456789" || IsLowerLetter(c) || IsUpperLetter(c) }

  lemma HexIs(c: char)
    ensures IsHex(c) <==> IsHexDigit(c)
    ensures IsHexDigit(c) ==> (Text.LowerChar(c) == c <==> !IsUpperLetter(c))
    ensures IsHexDigit(c) ==> (UpperChar(c) == c <==> !IsLowerLetter(c))
    ensures IsHexDigit(c) ==> ('a' <= Text.LowerChar(c) <= 'f' <==> IsLowerLetter(c) || IsUpperLetter(c))
    ensures IsUpperLetter(c) ==> UpperChar(Text.LowerChar(c)) == c
    ensures IsLowerLetter(c) ==> UpperChar(c) != c
  {
  }

  // Letters of one case only, or each in upper case exactly where the hash has a digit from 8 on.
  predicate IsWellCased(codec: Codec, body: string) {
    || (forall i :: 0 <= i < |body| ==> !IsUpperLetter(body[i]))
    || (forall i :: 0 <= i < |body| ==> !IsLowerLetter(body[i]))
    || (forall i :: 0 <= i < |body| ==>
          && (IsUpperLetter(body[i]) ==> codec.high(Text.Lower(body), i))
          && (IsLowerLetter(body[i]) ==> !codec.high(Text.Lower(body), i)))
  }

  /**
   * A TRON address is what Base58Check accepts; an EVM address is 0x, in either case, and 40 hex digits whose
   * letters are in one case or checksummed.
   */
  lemma EvmAddressIff(codec: Codec, s: string)
    ensures IsAddress(codec, Evm, s) <==>
            && |s| == 42 && (s[..2] == "0x" || s[..2] == "0X")
            && (forall i :: 2 <= i < 42 ==> IsHexDigit(s[i])) && IsWellCased(codec, s[2..])
    ensures IsAddress(codec, Tron, s) <==> codec.tronValid(s)
  {
    hide IsHex, IsHexDigit, IsLowerLetter, IsUpperLetter, UpperChar, Text.LowerChar;
    forall c
      ensures IsHex(c) <==> IsHexDigit(c)
    {
      HexIs(c);
    }
    if |s| == 42 && forall i :: 2 <= i < 42 ==> IsHexDigit(s[i]) {
      BodyIsWellCased(codec, s[2..]);
      assert s[..2] == [s[0], s[1]];
    }
  }

  lemma BodyIsWellCased(codec: Codec, body: string)
    requires forall i :: 0 <= i < |body| ==> IsHexDigit(body[i])
    ensures IsWellCased(codec, body) <==>
            body == Text.Lower(body) || body == Upper(body) || body == Checksummed(codec, Text.Lower(body))
  {
    hide IsHexDigit, IsLowerLetter, IsUpperLetter, UpperChar, Text.LowerChar;
    var lower := Text.Lower(body);
    forall i | 0 <= i < |body|
      ensures lower[i] == body[i] <==> !IsUpperLetter(body[i])
      ensures Upper(body)[i] == body[i] <==> !IsLowerLetter(body[i])
      ensures Checksummed(codec, lower)[i] == body[i] <==>
              && (IsUpperLetter(body[i]) ==> codec.high(lower, i))
              && (IsLowerLetter(body[i]) ==> !codec.high(lower, i))
    {
      CaseOf(body[i]);
    }
    assert body == lower <==> forall i :: 0 <= i < |body| ==> lower[i] == body[i];
    assert body == Upper(body) <==> forall i :: 0 <= i < |body| ==> Upper(body)[i] == body[i];
    assert body == Checksummed(codec, lower) <==>
           forall i :: 0 <= i < |body| ==> Checksummed(codec, lower)[i] == body[i];
  }

  lemma CaseOf(c: char)
    requires IsHexDigit(c)
    ensures Text.LowerChar(c) == c <==> !IsUpperLetter(c)
    ensures UpperChar(c) == c <==> !IsLowerLetter(c)
    ensures IsLowerLetter(c) || IsUpperLetter(c) <==> 'a' <= Text.LowerChar(c) <= 'f'
    ensures IsUpperLetter(c) ==> UpperChar(Text.LowerChar(c)) == c && !IsLowerLetter(c)
    ensures IsLowerLetter(c) ==> UpperChar(Text.LowerChar(c)) != c && Text.LowerChar(c) == c
  {
    HexIs(c);
  }

  /** The canonical spelling has every letter in upper case exactly where the hash has a digit from 8 on. */
  lemma CanonicalIsChecksummed(codec: Codec, s: string, i: nat)
    requires IsAddress(codec, Evm, s) && i < 40
    ensures var c := Canonical(codec, Evm, s);
            && |c| == 42 && c[..2] == "0x" && Text.LowerChar(c[i + 2]) == Text.LowerChar(s[i + 2])
            && (IsUpperLetter(c[i + 2]) ==> codec.high(Text.Lower(s[2..]), i))
            && (IsLowerLetter(c[i + 2]) ==> !codec.high(Text.Lower(s[2..]), i))
  {
    LowerUndoesUpper(s[i + 2]);
    HexIs(s[i + 2]);
    HexIs(Text.LowerChar(s[i + 2]));
    HexIs(UpperChar(Text.LowerChar(s[i + 2])));
  }
}
