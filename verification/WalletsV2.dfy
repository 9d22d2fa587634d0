/**
 * Finding the derivation path behind a cached address, and the wallets.json migration that relies on
 * it. Keys and hashes are functions of the seed and the path; nothing more is known about them.
 */
module WalletsV2 {
  import opened Addresses
  import opened Wrappers
  import opened WalletIndex
  import NumberText

  // seedAddress: the address of the key that a seed has at a path.
  datatype Scheme<!S, !K> = Scheme(
    codec: Codec,
    seedAddress: (S, Family, string) -> string,
    keyAddresses: K -> ChainAddresses
  )

  datatype Template = Current | Legacy

  datatype Resolved = Resolved(path: string, template: Template)

  function CoinType(family: Family): nat { if family == Tron then 195 else 60 }

  function CurrentPath(family: Family, index: nat): string {
    "m/44'/" + NumberText.Print(CoinType(family), 10) + "'/0'/0/" + NumberText.Print(index, 10)
  }

  function LegacyPaths(family: Family, index: nat): seq<string> {
    if family != Tron || index == 0 then [] else ["m/44'/195'/" + NumberText.Print(index, 10) + "'/0/0"]
  }

  predicate PathMatches<S, K>(scheme: Scheme<S, K>, seed: S, family: Family, path: string, cached: string) {
    Canonical(scheme.codec, family, scheme.seedAddress(seed, family, path)) == Canonical(scheme.codec, family, cached)
  }

  function Candidates(family: Family, index: nat): seq<Resolved> {
    [Resolved(CurrentPath(family, index), Current)]
    + (if LegacyPaths(family, index) == [] then [] else [Resolved(LegacyPaths(family, index)[0], Legacy)])
  }

  // The first candidate whose key has the cached address.
  function FirstMatch<S, K>(scheme: Scheme<S, K>, seed: S, family: Family, candidates: seq<Resolved>, cached: string)
    : Option<Resolved>
  {
    if candidates == [] then None
    else if PathMatches(scheme, seed, family, candidates[0].path, cached) then Some(candidates[0])
    else FirstMatch(scheme, seed, family, candidates[1..], cached)
  }

  function ResolveDerivation<S, K>(scheme: Scheme<S, K>, seed: S, family: Family, index: nat, cached: string)
    : Option<Resolved>
  {
    FirstMatch(scheme, seed, family, Candidates(family, index), cached)
  }

  method FindDerivation<S, K>(scheme: Scheme<S, K>, seed: S, family: Family, index: nat, cached: string)
    returns (found: Option<Resolved>)
    ensures found == ResolveDerivation(scheme, seed, family, index, cached)
    ensures found.Some? ==> found.value in Candidates(family, index)
                            && PathMatches(scheme, seed, family, found.value.path, cached)
    ensures found.None? ==>
              forall c :: c in Candidates(family, index) ==> !PathMatches(scheme, seed, family, c.path, cached)
  {
    var candidates := Candidates(family, index);
    var i := 0;
    assert candidates[0..] == candidates;
    while i < |candidates|
      invariant 0 <= i <= |candidates|
      invariant forall k :: 0 <= k < i ==> !PathMatches(scheme, seed, family, candidates[k].path, cached)
      invariant FirstMatch(scheme, seed, family, candidates, cached)
                == FirstMatch(scheme, seed, family, candidates[i..], cached)
    {
      if PathMatches(scheme, seed, family, candidates[i].path, cached) {
        return Some(candidates[i]);
      }
      assert candidates[i..][1..] == candidates[i + 1..];
      i := i + 1;
    }
    found := None;
  }

  // ----- The addresses a seed has for an account -----

  // BIP44 with the account index last, for either family; "m/44'/195'/0'/0/2" for TRON account 2.
  function CurrentAddress<S, K>(scheme: Scheme<S, K>, seed: S, family: Family, n: nat): string {
    scheme.seedAddress(seed, family, "m/44'/" + (if family == Tron then "195" else "60") + "'/0'/0/" + Digits(n))
  }

  // The other TRON path, with the index as the account; account 0 has none.
  function LegacyAddress<S, K>(scheme: Scheme<S, K>, seed: S, n: nat): string {
    scheme.seedAddress(seed, Tron, "m/44'/195'/" + Digits(n) + "'/0/0")
  }

  function Digits(n: nat): string { NumberText.Print(n, 10) }

  /** A TRON address is current, legacy or neither; an EVM address, in any spelling, is current or not the seed's. */
  lemma ResolvedIff<S, K>(scheme: Scheme<S, K>, seed: S, n: nat, cached: string)
    ensures var found := ResolveDerivation(scheme, seed, Tron, n, cached);
            && (found.Some? && found.value.template == Current <==> cached == CurrentAddress(scheme, seed, Tron, n))
            && (found.Some? <==> cached == CurrentAddress(scheme, seed, Tron, n)
                                 || (n != 0 && cached == LegacyAddress(scheme, seed, n)))
    ensures ResolveDerivation(scheme, seed, Evm, n, cached).Some? <==>
            Canonical(scheme.codec, Evm, cached) == Canonical(scheme.codec, Evm, CurrentAddress(scheme, seed, Evm, n))
  {
    hide NumberText.Print, Checksummed;
    PathTexts(n);
    var current := Resolved(CurrentPath(Tron, n), Current);
    FirstOf(scheme, seed, Tron, current, Candidates(Tron, n)[1..], cached);
    assert Candidates(Tron, n) == [current] + Candidates(Tron, n)[1..];
    var evm := Resolved(CurrentPath(Evm, n), Current);
    assert Candidates(Evm, n) == [evm] + [];
    FirstOf(scheme, seed, Evm, evm, [], cached);
    if n != 0 {
      var legacy := Resolved(LegacyPaths(Tron, n)[0], Legacy);
      assert Candidates(Tron, n)[1..] == [legacy] + [];
      FirstOf(scheme, seed, Tron, legacy, [], cached);
    }
  }

  lemma PathTexts(n: nat)
    ensures CurrentPath(Tron, n) == "m/44'/" + "195" + "'/0'/0/" + Digits(n)
    ensures CurrentPath(Evm, n) == "m/44'/" + "60" + "'/0'/0/" + Digits(n)
    ensures n != 0 ==> LegacyPaths(Tron, n) == ["m/44'/195'/" + Digits(n) + "'/0/0"]
    ensures n == 0 ==> LegacyPaths(Tron, n) == []
  {
    assert NumberText.Print(195, 10) == "195" by {
      assert NumberText.Print(19, 10) == "19" by {
        assert NumberText.Print(1, 10) == "1";
      }
    }
    assert NumberText.Print(60, 10) == "60" by {
      assert NumberText.Print(6, 10) == "6";
    }
  }

  lemma FirstOf<S, K>(
    scheme: Scheme<S, K>, seed: S, family: Family, first: Resolved, rest: seq<Resolved>, cached: string)
    ensures FirstMatch(scheme, seed, family, [first] + rest, cached) ==
            if PathMatches(scheme, seed, family, first.path, cached) then Some(first)
            else FirstMatch(scheme, seed, family, rest, cached)
  {
    assert ([first] + rest)[1..] == rest;
  }

  // ----- The stored index, before and after -----

  // Version 1 maps can lack an address of a family.
  datatype Cached = Cached(tron: Option<string>, evm: Option<string>)

  datatype StoredSource =
    | StoredSeed(vaultId: string, slots: map<nat, Cached>)
    | StoredKey(keyId: string, addresses: Cached)
    | StoredOther(text: string)

  datatype StoredWallet = StoredWallet(id: string, source: StoredSource)

  // rest stands for the members that are carried over as they are.
  datatype StoredIndex = StoredIndex(version: int, wallets: seq<StoredWallet>, rest: string)

  // A secret that cannot be read makes the migration throw.
  datatype Secrets<!S, !K> = Secrets(seedFor: string -> Option<S>, keyFor: string -> Option<K>)

  const WALLETS_VERSION: int := 2

  function Complete(a: ChainAddresses): Cached { Cached(Some(a.tron), Some(a.evm)) }

  function SeedAddresses<S, K>(scheme: Scheme<S, K>, seed: S, index: nat): ChainAddresses {
    ChainAddresses(scheme.seedAddress(seed, Tron, CurrentPath(Tron, index)),
                   scheme.seedAddress(seed, Evm, CurrentPath(Evm, index)))
  }

  predicate SlotMismatch<S, K>(scheme: Scheme<S, K>, seed: S, index: nat, cached: Cached) {
    cached.tron.Some? && ResolveDerivation(scheme, seed, Tron, index, cached.tron.value).None?
  }

  // A matching legacy TRON address is kept: replacing it would change the account key.
  function MigrateSlot<S, K>(scheme: Scheme<S, K>, seed: S, index: nat, cached: Cached): Cached {
    var derived := Complete(SeedAddresses(scheme, seed, index));
    if cached.tron.Some? && ResolveDerivation(scheme, seed, Tron, index, cached.tron.value).Some?
       && ResolveDerivation(scheme, seed, Tron, index, cached.tron.value).value.template == Legacy
    then derived.(tron := cached.tron)
    else derived
  }

  function MigrateSlots<S, K>(scheme: Scheme<S, K>, seed: S, slots: map<nat, Cached>): map<nat, Cached> {
    map n | n in slots :: MigrateSlot(scheme, seed, n, slots[n])
  }

  function MigrateWallet<S, K>(scheme: Scheme<S, K>, secrets: Secrets<S, K>, w: StoredWallet): Option<StoredWallet> {
    match w.source
    case StoredSeed(vaultId, slots) =>
      var seed := secrets.seedFor(vaultId);
      if seed.None? || exists n :: n in slots && SlotMismatch(scheme, seed.value, n, slots[n]) then None
      else Some(w.(source := StoredSeed(vaultId, MigrateSlots(scheme, seed.value, slots))))
    case StoredKey(keyId, _) =>
      var key := secrets.keyFor(keyId);
      if key.None? then None else Some(w.(source := StoredKey(keyId, Complete(scheme.keyAddresses(key.value)))))
    case StoredOther(_) => Some(w)
  }

  function MigrateWallets<S, K>(scheme: Scheme<S, K>, secrets: Secrets<S, K>, wallets: seq<StoredWallet>)
    : Option<seq<StoredWallet>>
  {
    if wallets == [] then Some([])
    else
      var first := MigrateWallet(scheme, secrets, wallets[0]);
      var rest := MigrateWallets(scheme, secrets, wallets[1..]);
      if first.None? || rest.None? then None else Some([first.value] + rest.value)
  }

  function MigrateToV2<S, K>(scheme: Scheme<S, K>, secrets: Secrets<S, K>, doc: StoredIndex): Option<StoredIndex> {
    var wallets := MigrateWallets(scheme, secrets, doc.wallets);
    if wallets.None? then None else Some(doc.(version := WALLETS_VERSION, wallets := wallets.value))
  }

  // ----- What the migration keeps -----

  /** The cached TRON address survives exactly, and afterwards each address belongs to a known path. */
  lemma SlotKeepsTheTronAddress<S, K>(scheme: Scheme<S, K>, seed: S, index: nat, cached: Cached)
    requires !SlotMismatch(scheme, seed, index, cached)
    ensures var after := MigrateSlot(scheme, seed, index, cached);
            && after.evm == Some(CurrentAddress(scheme, seed, Evm, index))
            && after.tron
               == Some(if cached.tron.Some? then cached.tron.value else CurrentAddress(scheme, seed, Tron, index))
            && (after.tron == Some(CurrentAddress(scheme, seed, Tron, index))
                || (index != 0 && after.tron == Some(LegacyAddress(scheme, seed, index))))
  {
    hide NumberText.Print, ResolveDerivation;
    PathTexts(index);
    if cached.tron.Some? {
      ResolvedIff(scheme, seed, index, cached.tron.value);
    }
  }

  // The same wallet with the same secret; the same slots, each keeping its TRON address.
  ghost predicate SameIdentity(before: StoredWallet, after: StoredWallet) {
    && after.id == before.id
    && match before.source
       case StoredSeed(vaultId, slots) =>
         && after.source.StoredSeed? && after.source.vaultId == vaultId && after.source.slots.Keys == slots.Keys
         && forall n :: n in slots && slots[n].tron.Some? ==> after.source.slots[n].tron == slots[n].tron
       case StoredKey(keyId, _) => after.source.StoredKey? && after.source.keyId == keyId
       case StoredOther(_) => after == before
  }

  lemma WalletKeepsIdentity<S, K>(scheme: Scheme<S, K>, secrets: Secrets<S, K>, w: StoredWallet)
    requires MigrateWallet(scheme, secrets, w).Some?
    ensures SameIdentity(w, MigrateWallet(scheme, secrets, w).value)
  {
    if w.source.StoredSeed? {
      var seed := secrets.seedFor(w.source.vaultId).value;
      forall n | n in w.source.slots
        ensures w.source.slots[n].tron.Some? ==>
                  MigrateSlot(scheme, seed, n, w.source.slots[n]).tron == w.source.slots[n].tron
      {
        SlotKeepsTheTronAddress(scheme, seed, n, w.source.slots[n]);
      }
    }
  }

  lemma {:induction false} MigratedWalletAt<S, K>(
    scheme: Scheme<S, K>, secrets: Secrets<S, K>, wallets: seq<StoredWallet>)
    requires MigrateWallets(scheme, secrets, wallets).Some?
    ensures var after := MigrateWallets(scheme, secrets, wallets).value;
            && |after| == |wallets|
            && forall i :: 0 <= i < |wallets| ==> MigrateWallet(scheme, secrets, wallets[i]) == Some(after[i])
  {
    if wallets != [] {
      MigratedWalletAt(scheme, secrets, wallets[1..]);
    }
  }

  /**
   * A successful migration keeps the wallets in order with their ids and secrets, each HD wallet's
   * set of account indices, and every cached HD TRON address, whichever path it was derived at.
   */
  lemma MigrationKeepsEveryAccount<S, K>(scheme: Scheme<S, K>, secrets: Secrets<S, K>, doc: StoredIndex)
    requires MigrateToV2(scheme, secrets, doc).Some?
    ensures var after := MigrateToV2(scheme, secrets, doc).value;
            && after.version == 2 && after.rest == doc.rest && |after.wallets| == |doc.wallets|
            && forall i :: 0 <= i < |doc.wallets| ==> SameIdentity(doc.wallets[i], after.wallets[i])
  {
    MigratedWalletAt(scheme, secrets, doc.wallets);
    var after := MigrateToV2(scheme, secrets, doc).value;
    forall i | 0 <= i < |doc.wallets|
      ensures SameIdentity(doc.wallets[i], after.wallets[i])
    {
      WalletKeepsIdentity(scheme, secrets, doc.wallets[i]);
    }
  }

  // A cached TRON address that neither path of its slot produces.
  ghost predicate HasStrayAddress<S, K>(scheme: Scheme<S, K>, secrets: Secrets<S, K>, w: StoredWallet) {
    && w.source.StoredSeed? && secrets.seedFor(w.source.vaultId).Some?
    && exists n ::
         && n in w.source.slots && w.source.slots[n].tron.Some?
         && IsStray(scheme, secrets.seedFor(w.source.vaultId).value, n, w.source.slots[n].tron.value)
  }

  predicate IsStray<S, K>(scheme: Scheme<S, K>, seed: S, n: nat, address: string) {
    address != CurrentAddress(scheme, seed, Tron, n) && (n != 0 ==> address != LegacyAddress(scheme, seed, n))
  }

  predicate MissingSecret<S, K>(secrets: Secrets<S, K>, w: StoredWallet) {
    || (w.source.StoredSeed? && secrets.seedFor(w.source.vaultId).None?)
    || (w.source.StoredKey? && secrets.keyFor(w.source.keyId).None?)
  }

  /** The migration fails exactly when a secret is missing or a cached TRON address matches neither path. */
  lemma MigrationFailsIff<S, K>(scheme: Scheme<S, K>, secrets: Secrets<S, K>, doc: StoredIndex)
    ensures MigrateToV2(scheme, secrets, doc).None? <==>
            exists w :: w in doc.wallets && (MissingSecret(secrets, w) || HasStrayAddress(scheme, secrets, w))
  {
    WalletsFailIff(scheme, secrets, doc.wallets);
  }

  lemma {:induction false} WalletsFailIff<S, K>(
    scheme: Scheme<S, K>, secrets: Secrets<S, K>, wallets: seq<StoredWallet>)
    ensures MigrateWallets(scheme, secrets, wallets).None? <==>
            exists w :: w in wallets && (MissingSecret(secrets, w) || HasStrayAddress(scheme, secrets, w))
  {
    if wallets != [] {
      WalletsFailIff(scheme, secrets, wallets[1..]);
      WalletFailsIff(scheme, secrets, wallets[0]);
      assert forall w :: w in wallets <==> w == wallets[0] || w in wallets[1..];
    }
  }

  lemma WalletFailsIff<S, K>(scheme: Scheme<S, K>, secrets: Secrets<S, K>, w: StoredWallet)
    ensures MigrateWallet(scheme, secrets, w).None?
            <==> MissingSecret(secrets, w) || HasStrayAddress(scheme, secrets, w)
  {
    if w.source.StoredSeed? && secrets.seedFor(w.source.vaultId).Some? {
      var seed := secrets.seedFor(w.source.vaultId).value;
      forall n | n in w.source.slots && w.source.slots[n].tron.Some?
        ensures SlotMismatch(scheme, seed, n, w.source.slots[n]) <==>
                IsStray(scheme, seed, n, w.source.slots[n].tron.value)
      {
        ResolvedIff(scheme, seed, n, w.source.slots[n].tron.value);
      }
      hide ResolveDerivation, CurrentAddress, LegacyAddress;
    }
  }

  lemma SlotTwice<S, K>(scheme: Scheme<S, K>, seed: S, index: nat, cached: Cached)
    requires !SlotMismatch(scheme, seed, index, cached)
    ensures var after := MigrateSlot(scheme, seed, index, cached);
            !SlotMismatch(scheme, seed, index, after) && MigrateSlot(scheme, seed, index, after) == after
  {
    hide NumberText.Print;
    SlotKeepsTheTronAddress(scheme, seed, index, cached);
    PathTexts(index);
    ResolvedIff(scheme, seed, index, CurrentAddress(scheme, seed, Tron, index));
  }

  lemma SlotsTwice<S, K>(scheme: Scheme<S, K>, seed: S, slots: map<nat, Cached>)
    requires forall n :: n in slots ==> !SlotMismatch(scheme, seed, n, slots[n])
    ensures var after := MigrateSlots(scheme, seed, slots);
            && (forall n :: n in after ==> !SlotMismatch(scheme, seed, n, after[n]))
            && MigrateSlots(scheme, seed, after) == after
  {
    forall n | n in slots
      ensures var after := MigrateSlot(scheme, seed, n, slots[n]);
              !SlotMismatch(scheme, seed, n, after) && MigrateSlot(scheme, seed, n, after) == after
    {
      SlotTwice(scheme, seed, n, slots[n]);
    }
    hide MigrateSlot, SlotMismatch;
  }

  lemma WalletTwice<S, K>(scheme: Scheme<S, K>, secrets: Secrets<S, K>, w: StoredWallet)
    requires MigrateWallet(scheme, secrets, w).Some?
    ensures var after := MigrateWallet(scheme, secrets, w).value; MigrateWallet(scheme, secrets, after) == Some(after)
  {
    if w.source.StoredSeed? {
      SlotsTwice(scheme, secrets.seedFor(w.source.vaultId).value, w.source.slots);
      hide MigrateSlot, SlotMismatch, MigrateSlots;
    }
  }

  lemma {:induction false} FixedWallets<S, K>(scheme: Scheme<S, K>, secrets: Secrets<S, K>, wallets: seq<StoredWallet>)
    requires forall i :: 0 <= i < |wallets| ==> MigrateWallet(scheme, secrets, wallets[i]) == Some(wallets[i])
    ensures MigrateWallets(scheme, secrets, wallets) == Some(wallets)
  {
    if wallets != [] {
      FixedWallets(scheme, secrets, wallets[1..]);
      assert [wallets[0]] + wallets[1..] == wallets;
    }
  }

  /** Migrating a migrated index again succeeds and changes nothing. */
  lemma SecondMigrationChangesNothing<S, K>(scheme: Scheme<S, K>, secrets: Secrets<S, K>, doc: StoredIndex)
    requires MigrateToV2(scheme, secrets, doc).Some?
    ensures var after := MigrateToV2(scheme, secrets, doc).value;
            MigrateToV2(scheme, secrets, after) == Some(after)
  {
    var after := MigrateToV2(scheme, secrets, doc).value;
    MigratedWalletAt(scheme, secrets, doc.wallets);
    forall i | 0 <= i < |after.wallets|
      ensures MigrateWallet(scheme, secrets, after.wallets[i]) == Some(after.wallets[i])
    {
      WalletTwice(scheme, secrets, doc.wallets[i]);
    }
    FixedWallets(scheme, secrets, after.wallets);
  }
}
