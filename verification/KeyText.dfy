/** A private key given as text: 32 bytes of hex, with or without a prefix, in the range of the curve. */
module KeyText {
  import opened Wrappers
  import opened NumberText
  import Text

  const KEY_DIGITS: nat := 64

  // The order of secp256k1.
  const CURVE_ORDER: nat := 0xFFFFFFFF_FFFFFFFF_FFFFFFFF_FFFFFFFE_BAAEDCE6_AF48A03B_BFD25E8C_D0364141

  function KeyDigits(text: string): string {
    var trimmed := Text.Trim(text);
    if Text.StartsWith(trimmed, "0x") then trimmed[2..] else trimmed
  }

  // The bytes of the key in lower-case hex.
  function ParseKey(text: string): Option<string> {
    var digits := KeyDigits(text);
    if |digits| == KEY_DIGITS && IsNumeral(digits, 16) && 1 <= Value(digits, 16) < CURVE_ORDER then
      Some(Text.Lower(digits))
    else None
  }

  lemma LowerDigit(c: char)
    requires IsDigit(c, 16)
    ensures DigitValue(Text.LowerChar(c)) == DigitValue(c)
    ensures Text.LowerChar(Text.LowerChar(c)) == Text.LowerChar(c)
    ensures Text.LowerChar(c) != 'x' && !Text.IsSpace(Text.LowerChar(c))
  {
  }

  lemma {:induction false} LowerKeepsValue(s: string)
    requires IsNumeral(s, 16)
    ensures IsNumeral(Text.Lower(s), 16) && Value(Text.Lower(s), 16) == Value(s, 16)
    ensures Text.Lower(Text.Lower(s)) == Text.Lower(s)
    ensures forall i :: 0 <= i < |s| ==> Text.Lower(s)[i] != 'x' && !Text.IsSpace(Text.Lower(s)[i])
    decreases |s|
  {
    forall i | 0 <= i < |s|
      ensures var c := Text.Lower(s)[i];
              DigitValue(c) == DigitValue(s[i]) && Text.LowerChar(c) == c && c != 'x' && !Text.IsSpace(c)
    {
      LowerDigit(s[i]);
    }
    if s != "" {
      LowerKeepsValue(s[..|s| - 1]);
      assert Text.Lower(s)[..|s| - 1] == Text.Lower(s[..|s| - 1]);
    }
  }

  // Hex digits are taken as they are, with or without the prefix.
  lemma DigitsAreFound(key: string)
    requires |key| == KEY_DIGITS && forall i :: 0 <= i < |key| ==> key[i] != 'x' && !Text.IsSpace(key[i])
    ensures KeyDigits(key) == key && KeyDigits("0x" + key) == key
  {
    hide Text.Trim, Text.IsSpace;
    var prefixed := "0x" + key;
    assert prefixed[|prefixed| - 1] == key[|key| - 1] && prefixed[2..] == key;
    SpaceIsNot(prefixed[0]);
    assert key[1] != 'x';
    Text.TrimOfTrimmed(key);
    Text.TrimOfTrimmed(prefixed);
  }

  /** The bytes of an accepted key, written with or without the prefix, are accepted as the same key. */
  lemma KeyReadsBack(text: string)
    requires ParseKey(text).Some?
    ensures var key := ParseKey(text).value; ParseKey(key) == Some(key) && ParseKey("0x" + key) == Some(key)
  {
    hide IsNumeral, Value, Text.Lower, Text.Trim, Text.IsSpace, KeyDigits;
    LowerKeepsValue(KeyDigits(text));
    LowerLength(KeyDigits(text));
    DigitsAreFound(ParseKey(text).value);
  }

  /**
   * A text is accepted exactly when, trimmed, it is 64 hex digits, perhaps after 0x, for a number from 1 to
   * below the order of the curve; the key is these digits in lower case.
   */
  lemma KeyIsAcceptedIff(text: string, key: string)
    ensures ParseKey(text) == Some(key) <==>
            exists digits ::
              && (Text.Trim(text) == digits || Text.Trim(text) == "0x" + digits)
              && |digits| == 64 && IsNumeral(digits, 16) && key == Text.Lower(digits)
              && 1 <= Value(digits, 16)
                   < 0xFFFFFFFF_FFFFFFFF_FFFFFFFF_FFFFFFFE_BAAEDCE6_AF48A03B_BFD25E8C_D0364141
  {
    hide Value, Text.Lower, Text.Trim;
    var trimmed := Text.Trim(text);
    forall digits | |digits| == 64 && IsNumeral(digits, 16) && (trimmed == digits || trimmed == "0x" + digits)
      ensures KeyDigits(text) == digits
    {
      assert IsDigit(digits[1], 16);
      assert ("0x" + digits)[2..] == digits;
    }
    if ParseKey(text) == Some(key) {
      var digits := KeyDigits(text);
      assert trimmed == digits || trimmed == "0x" + digits;
    }
  }

  lemma LowerLength(s: string)
    ensures |Text.Lower(s)| == |s|
  {
  }

  lemma SpaceIsNot(c: char)
    requires '0' <= c <= '9'
    ensures !Text.IsSpace(c)
  {
  }

  predicate IsLowerHex(s: string) { IsNumeral(s, 16) && forall i :: 0 <= i < |s| ==> Text.LowerChar(s[i]) == s[i] }

  lemma SameDigit(c: char, d: char)
    requires IsDigit(c, 16) && IsDigit(d, 16) && Text.LowerChar(c) == c && Text.LowerChar(d) == d
    requires DigitValue(c) == DigitValue(d)
    ensures c == d
  {
  }

  lemma {:induction false} SameNumeral(s: string, t: string)
    requires IsLowerHex(s) && IsLowerHex(t) && |s| == |t| && Value(s, 16) == Value(t, 16)
    ensures s == t
    decreases |s|
  {
    hide DigitValue, Text.LowerChar;
    if s != "" {
      var last := |s| - 1;
      assert IsDigit(s[last], 16) && IsDigit(t[last], 16);
      ShiftSplits(Value(s[..last], 16), 16, DigitValue(s[last]));
      ShiftSplits(Value(t[..last], 16), 16, DigitValue(t[last]));
      SameDigit(s[last], t[last]);
      SameNumeral(s[..last], t[..last]);
      assert s[..last] + [s[last]] == s && t[..last] + [t[last]] == t;
    }
  }

  lemma LowerIsLower(s: string)
    requires IsNumeral(s, 16)
    ensures IsLowerHex(Text.Lower(s)) && |Text.Lower(s)| == |s| && Value(Text.Lower(s), 16) == Value(s, 16)
  {
    hide IsNumeral, Value;
    LowerKeepsValue(s);
    assert forall i :: 0 <= i < |s| ==> Text.Lower(Text.Lower(s))[i] == Text.LowerChar(Text.Lower(s)[i]);
  }

  /** Two accepted texts are one key exactly when they write the same number, however they spell it. */
  lemma SameKeyIff(a: string, b: string)
    requires ParseKey(a).Some? && ParseKey(b).Some?
    ensures ParseKey(a) == ParseKey(b) <==> Value(KeyDigits(a), 16) == Value(KeyDigits(b), 16)
  {
    hide IsLowerHex, IsNumeral, Value, Text.Lower, KeyDigits;
    LowerIsLower(KeyDigits(a));
    LowerIsLower(KeyDigits(b));
    if Value(KeyDigits(a), 16) == Value(KeyDigits(b), 16) {
      SameNumeral(Text.Lower(KeyDigits(a)), Text.Lower(KeyDigits(b)));
    }
  }
}
