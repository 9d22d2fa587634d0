/** The string operations of JavaScript that the wallet's text handling uses. */
module Text {
  // White space and line terminators, as trim() removes them.
  predicate IsSpace(c: char) {
    || '\t' <= c <= '\r'
    || c in {' ', '\U{00A0}', '\U{1680}', '\U{2028}', '\U{2029}', '\U{202F}', '\U{205F}', '\U{3000}', '\U{FEFF}'}
    || '\U{2000}' <= c <= '\U{200A}'
  }

  function TrimStart(s: string): string {
    if s != "" && IsSpace(s[0]) then TrimStart(s[1..]) else s
  }

  function TrimEnd(s: string): string {
    if s != "" && IsSpace(s[|s| - 1]) then TrimEnd(s[..|s| - 1]) else s
  }

  function Trim(s: string): string { TrimEnd(TrimStart(s)) }

  // Case folding of the ASCII letters.
  function LowerChar(c: char): char {
    if 'A' <= c <= 'Z' then 'a' + (c - 'A') else c
  }

  function Lower(s: string): string { seq(|s|, i requires 0 <= i < |s| => LowerChar(s[i])) }

  const UPPER_CASE: string := "ABCDEFGHIJKLMNOPQRSTUVWXYZ"
  const LOWER_CASE: string := "abcdefghijklmnopqrstuvwxyz"

  lemma CapitalsAre(c: char)
    ensures c in UPPER_CASE <==> 'A' <= c <= 'Z'
  {
    assert forall k :: 0 <= k < 26 ==> UPPER_CASE[k] == 'A' + k as char;
    if 'A' <= c <= 'Z' {
      assert UPPER_CASE[(c - 'A') as int] == c;
    }
  }

  lemma SmallLettersAre(c: char)
    ensures c in LOWER_CASE <==> 'a' <= c <= 'z'
  {
    assert forall k :: 0 <= k < 26 ==> LOWER_CASE[k] == 'a' + k as char;
    if 'a' <= c <= 'z' {
      assert LOWER_CASE[(c - 'a') as int] == c;
    }
  }

  /** Folding replaces the capital letters by the small ones, position by position, and nothing else. */
  lemma LoweredIs(s: string, i: nat)
    requires i < |s|
    ensures |Lower(s)| == |s|
    ensures s[i] !in UPPER_CASE ==> Lower(s)[i] == s[i]
    ensures forall k :: 0 <= k < 26 && UPPER_CASE[k] == s[i] ==> Lower(s)[i] == LOWER_CASE[k]
  {
    assert forall k :: 0 <= k < 26 ==> UPPER_CASE[k] == 'A' + k as char && LOWER_CASE[k] == 'a' + k as char;
    CapitalsAre(s[i]);
  }

  predicate StartsWith(s: string, prefix: string) { prefix <= s }

  // s.slice(0, n) for n >= 0.
  function Take(s: string, n: nat): string { if n < |s| then s[..n] else s }

  // The position of the first c, or |s| when there is none.
  function IndexOf(s: string, c: char): (i: nat)
    ensures i <= |s|
    ensures i < |s| ==> s[i] == c
    ensures forall k :: 0 <= k < i ==> s[k] != c
  {
    if s == "" || s[0] == c then 0 else 1 + IndexOf(s[1..], c)
  }

  // s.split(c)[0], and what follows the separator.
  function Before(s: string, c: char): string { s[..IndexOf(s, c)] }

  function After(s: string, c: char): string
    requires c in s
  {
    s[IndexOf(s, c) + 1..]
  }

  predicate IsBlank(s: string) { forall c :: c in s ==> IsSpace(c) }

  /** White space and line terminators, code point by code point. */
  lemma SpacesAre(c: char)
    ensures IsSpace(c) <==>
            c as int in {0x09, 0x0A, 0x0B, 0x0C, 0x0D, 0x20, 0xA0, 0x1680, 0x2028, 0x2029, 0x202F, 0x205F, 0x3000,
                         0xFEFF, 0x2000, 0x2001, 0x2002, 0x2003, 0x2004, 0x2005, 0x2006, 0x2007, 0x2008, 0x2009,
                         0x200A}
  {
    if '\t' <= c <= '\r' || '\U{2000}' <= c <= '\U{200A}' {
      assert 0x09 <= c as int <= 0x0D || 0x2000 <= c as int <= 0x200A;
    } else if IsSpace(c) {
      assert c as int in {0x20, 0xA0, 0x1680, 0x2028, 0x2029, 0x202F, 0x205F, 0x3000, 0xFEFF};
    }
  }

  lemma {:induction false} TrimStartEffect(s: string)
    ensures |TrimStart(s)| <= |s| && TrimStart(s) == s[|s| - |TrimStart(s)|..]
    ensures TrimStart(s) != "" ==> !IsSpace(TrimStart(s)[0])
    ensures IsBlank(s[..|s| - |TrimStart(s)|])
  {
    if s != "" && IsSpace(s[0]) {
      TrimStartEffect(s[1..]);
    }
  }

  lemma {:induction false} TrimEndEffect(s: string)
    ensures TrimEnd(s) <= s && IsBlank(s[|TrimEnd(s)|..])
    ensures TrimEnd(s) != "" ==> !IsSpace(TrimEnd(s)[|TrimEnd(s)| - 1])
  {
    if s != "" && IsSpace(s[|s| - 1]) {
      TrimEndEffect(s[..|s| - 1]);
    }
  }

  /** Trimming leaves no white space at either end. */
  lemma TrimmedEnds(s: string)
    ensures Trim(s) != "" ==> !IsSpace(Trim(s)[0]) && !IsSpace(Trim(s)[|Trim(s)| - 1])
    ensures |Trim(s)| <= |s|
  {
    TrimStartEffect(s);
    TrimEndEffect(TrimStart(s));
  }

  /** What trimming takes away is white space at the two ends. */
  lemma TrimTakesSpaceOnly(s: string) returns (before: string, after: string)
    ensures s == before + Trim(s) + after && IsBlank(before) && IsBlank(after)
  {
    TrimStartEffect(s);
    TrimEndEffect(TrimStart(s));
    before, after := s[..|s| - |TrimStart(s)|], TrimStart(s)[|Trim(s)|..];
  }

  /** Text that ends in something else than white space is not blank. */
  lemma TrimKeepsLast(s: string)
    requires s != "" && !IsSpace(s[|s| - 1])
    ensures Trim(s) != ""
  {
    TrimStartKeepsLast(s);
  }

  lemma {:induction false} TrimStartKeepsLast(s: string)
    requires s != "" && !IsSpace(s[|s| - 1])
    ensures TrimStart(s) != "" && TrimStart(s)[|TrimStart(s)| - 1] == s[|s| - 1]
  {
    if IsSpace(s[0]) {
      TrimStartKeepsLast(s[1..]);
    }
  }

  lemma TrimOfTrimmed(s: string)
    requires s != "" ==> !IsSpace(s[0]) && !IsSpace(s[|s| - 1])
    ensures Trim(s) == s
  {
  }

  lemma TrimIsIdempotent(s: string)
    ensures Trim(Trim(s)) == Trim(s)
  {
    TrimmedEnds(s);
    TrimOfTrimmed(Trim(s));
  }

  lemma BeforeSeparator(head: string, c: char, tail: string)
    requires c !in head
    ensures Before(head + [c] + tail, c) == head
    ensures c in head + [c] + tail && After(head + [c] + tail, c) == tail
  {
    var s := head + [c] + tail;
    assert s[|head|] == c;
    assert forall k :: 0 <= k < |head| ==> s[k] == head[k];
  }

  lemma BeforeNothing(s: string, c: char)
    requires c !in s
    ensures Before(s, c) == s
  {
  }
}
