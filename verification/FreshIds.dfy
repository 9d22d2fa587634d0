/**
 * New ids for wallets and secrets: a prefix and five random bytes in base 32, drawn until the text is
 * neither a wallet id nor a secret id of the index.
 */
module FreshIds {
  import opened Addresses
  import opened Wrappers
  import opened WalletIndex
  import opened WalletIndexRuns

  // Crockford's alphabet in lower case: the digits, and the letters without i, l, o and u.
  function Letter(i: nat): char
    requires i < 32
  {
    if i < 10 then '0' + i as char
    else if i < 18 then 'a' + (i - 10) as char
    else if i < 20 then 'j' + (i - 18) as char
    else if i < 22 then 'm' + (i - 20) as char
    else if i < 27 then 'p' + (i - 22) as char
    else 'v' + (i - 27) as char
  }

  // Five random bytes, read as a number.
  type Draw = n: nat | n < 0x100_0000_0000

  // The low 5 * width bits of n, the highest first.
  function Base32(n: nat, width: nat): string {
    if width == 0 then "" else Base32(n / 32, width - 1) + [Letter(n % 32)]
  }

  function Id(prefix: string, draw: Draw): string { prefix + "_" + Base32(draw, 8) }

  // Empty for sources without a local secret.
  function SecretIdOrEmpty(s: Source): string { if HasSecret(s) then SecretId(s) else "" }

  function TakenIds(wallets: seq<Wallet>): set<string> {
    (set w | w in wallets :: w.id) + (set w | w in wallets :: SecretIdOrEmpty(w.source))
  }

  // The first free id; None when the draws end before there is one.
  function FreshId(prefix: string, taken: set<string>, draws: seq<Draw>): Option<string> {
    if draws == [] then None
    else if Id(prefix, draws[0]) !in taken then Some(Id(prefix, draws[0]))
    else FreshId(prefix, taken, draws[1..])
  }

  method DrawFreshId(prefix: string, wallets: seq<Wallet>, draws: seq<Draw>) returns (id: Option<string>)
    ensures id == FreshId(prefix, TakenIds(wallets), draws)
  {
    var taken := TakenIds(wallets);
    var i := 0;
    assert draws[0..] == draws;
    while i < |draws|
      invariant 0 <= i <= |draws|
      invariant FreshId(prefix, taken, draws) == FreshId(prefix, taken, draws[i..])
    {
      var drawn := Id(prefix, draws[i]);
      if drawn !in taken { return Some(drawn); }
      assert draws[i..][1..] == draws[i + 1..];
      i := i + 1;
    }
    id := None;
  }

  // ----- What an id looks like -----

  lemma {:induction false} Base32Shape(n: nat, width: nat)
    ensures |Base32(n, width)| == width
    ensures forall i :: 0 <= i < width ==> IsIdChar(Base32(n, width)[i])
  {
    if width > 0 {
      Base32Shape(n / 32, width - 1);
      LettersAreIdChars(n % 32);
    }
  }

  lemma LettersAreIdChars(i: nat)
    requires i < 32
    ensures IsIdChar(Letter(i))
  {
  }

  lemma LettersDiffer(i: nat, j: nat)
    requires i < 32 && j < 32 && Letter(i) == Letter(j)
    ensures i == j
  {
  }

  function Pow32(width: nat): nat { if width == 0 then 1 else 32 * Pow32(width - 1) }

  lemma LetterIs(i: nat)
    requires i < 32
    ensures Letter(i) == "0123456789abcdefghjkmnpqrstvwxyz"[i]
  {
  }

  // The number a text writes, the highest digit first.
  predicate Writes(text: string, n: nat)
    decreases |text|
  {
    if text == "" then n == 0
    else text[|text| - 1] == "0123456789abcdefghjkmnpqrstvwxyz"[n % 32] && Writes(text[..|text| - 1], n / 32)
  }

  lemma {:induction false} Base32Writes(n: nat, width: nat)
    requires n < Pow32(width)
    ensures Writes(Base32(n, width), n)
  {
    if width > 0 {
      Base32Writes(n / 32, width - 1);
      LetterIs(n % 32);
      var text := Base32(n, width);
      assert text[..|text| - 1] == Base32(n / 32, width - 1);
    }
  }

  /** An id is its prefix and the five bytes as eight digits in base 32, written without i, l, o and u. */
  lemma IdIsBase32(prefix: string, draw: Draw)
    ensures var id := Id(prefix, draw);
            |id| == |prefix| + 9 && id[..|prefix| + 1] == prefix + "_" && Writes(id[|prefix| + 1..], draw)
  {
    hide Base32, Writes;
    assert Pow32(8) == 0x100_0000_0000;
    Base32Shape(draw, 8);
    Base32Writes(draw, 8);
    assert Id(prefix, draw)[|prefix| + 1..] == Base32(draw, 8);
  }

  lemma {:induction false} Base32IsInjective(m: nat, n: nat, width: nat)
    requires m < Pow32(width) && n < Pow32(width) && Base32(m, width) == Base32(n, width)
    ensures m == n
  {
    if width > 0 {
      var a, b := Base32(m, width), Base32(n, width);
      Base32Shape(m / 32, width - 1);
      Base32Shape(n / 32, width - 1);
      assert a[..width - 1] == Base32(m / 32, width - 1) && b[..width - 1] == Base32(n / 32, width - 1);
      assert a[width - 1] == Letter(m % 32) && b[width - 1] == Letter(n % 32);
      LettersDiffer(m % 32, n % 32);
      Base32IsInjective(m / 32, n / 32, width - 1);
    }
  }

  lemma IdsDiffer(prefix: string, a: Draw, b: Draw)
    requires a != b
    ensures Id(prefix, a) != Id(prefix, b)
  {
    if Id(prefix, a) == Id(prefix, b) {
      assert Id(prefix, a)[|prefix| + 1..] == Base32(a, 8);
      assert Id(prefix, b)[|prefix| + 1..] == Base32(b, 8);
      assert Pow32(8) == 0x100_0000_0000;
      Base32IsInjective(a, b, 8);
    }
  }

  // ----- What the loop promises -----

  predicate IsPrefix(prefix: string) { prefix in {"wlt", "vlt", "key"} }

  /** The id has the form the index is loaded with, and is no wallet's id and no wallet's secret. */
  lemma {:induction false} FreshIdIsFree(prefix: string, wallets: seq<Wallet>, draws: seq<Draw>)
    requires IsPrefix(prefix) && FreshId(prefix, TakenIds(wallets), draws).Some?
    ensures var id := FreshId(prefix, TakenIds(wallets), draws).value;
            && IsBlobId(id) && (prefix == "wlt" ==> IsWalletId(id))
            && forall w :: w in wallets ==> w.id != id && (HasSecret(w.source) ==> SecretId(w.source) != id)
    decreases |draws|
  {
    hide Base32;
    if Id(prefix, draws[0]) in TakenIds(wallets) {
      FreshIdIsFree(prefix, wallets, draws[1..]);
    } else {
      IdShape(prefix, draws[0]);
      forall w | w in wallets
        ensures w.id in TakenIds(wallets) && SecretIdOrEmpty(w.source) in TakenIds(wallets)
      {
      }
    }
  }

  lemma IdShape(prefix: string, draw: Draw)
    requires IsPrefix(prefix)
    ensures IsBlobId(Id(prefix, draw)) && (prefix == "wlt" ==> IsWalletId(Id(prefix, draw)))
  {
    hide Base32;
    var id := Id(prefix, draw);
    Base32Shape(draw, 8);
    assert forall i :: 0 <= i < 3 ==> IsIdChar(prefix[i]);
    forall i | 0 <= i < |id|
      ensures IsIdChar(id[i])
    {
      assert id[i] == if i < 3 then prefix[i] else if i == 3 then '_' else Base32(draw, 8)[i - 4];
    }
    if prefix == "wlt" {
      assert id[..4] == RESERVED_PREFIX;
    }
  }

  /** The loop ends: of more different draws than there are ids taken, one is free. */
  lemma {:induction false} FreshIdIsFound(prefix: string, taken: set<string>, draws: seq<Draw>)
    requires forall i, j :: 0 <= i < j < |draws| ==> draws[i] != draws[j]
    requires |taken| < |draws|
    ensures FreshId(prefix, taken, draws).Some?
    decreases |draws|
  {
    var first := Id(prefix, draws[0]);
    if first in taken {
      var others := taken - {first};
      FreshIdIsFound(prefix, others, draws[1..]);
      forall i | 0 <= i < |draws| - 1
        ensures Id(prefix, draws[1..][i]) != first
      {
        IdsDiffer(prefix, draws[1..][i], draws[0]);
      }
      SameChoice(prefix, taken, others, first, draws[1..]);
    }
  }

  lemma {:induction false} SameChoice(
    prefix: string, taken: set<string>, others: set<string>, first: string, draws: seq<Draw>)
    requires others == taken - {first}
    requires forall i :: 0 <= i < |draws| ==> Id(prefix, draws[i]) != first
    ensures FreshId(prefix, taken, draws) == FreshId(prefix, others, draws)
    decreases |draws|
  {
    if draws != [] {
      SameChoice(prefix, taken, others, first, draws[1..]);
    }
  }
}
