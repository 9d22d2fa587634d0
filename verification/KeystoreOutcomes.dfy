/**
 * What each command of the keystore leaves behind when it is not cut off: exactly when it goes through, and
 * the index and files after it.
 */
module KeystoreOutcomes {
  import opened Addresses
  import opened Wrappers
  import opened WalletIndex
  import opened WalletIndexRuns
  import opened WalletChanges
  import opened FreshIds
  import opened WalletsV2
  import opened Keystore
  import opened KeystoreSafety
  import Text

  function Finished(chains: Chains, d: Disk, op: Command): Disk { DoAll(d, LockedEffects(chains, d, op)) }

  // The index is f, and the files are those given.
  predicate Leaves(d: Disk, f: Index, files: map<Path, Content>) { Read(d) == f && d.files == files }

  lemma FinishedIs(chains: Chains, d: Disk, op: Command)
    requires !RefusedAtOnce(chains, op)
    ensures Finished(chains, d, op) == DoAll(Recovered(d), OpEffects(chains, Recovered(d), op))
  {
    hide OpEffects, RecoverEffects;
    DoAppend(d, RecoverEffects(d), OpEffects(chains, Recovered(d), op));
  }

  lemma DoNone(d: Disk)
    ensures DoAll(d, []) == d
  {
  }

  lemma DoOne(d: Disk, e: Effect)
    ensures DoAll(d, [e]) == Do(d, e)
  {
    DoNone(Do(d, e));
    assert [e][1..] == [];
  }

  lemma DoTwo(d: Disk, a: Effect, b: Effect)
    ensures DoAll(d, [a, b]) == Do(Do(d, a), b)
  {
    DoOne(Do(d, a), b);
    assert [a, b][1..] == [b];
  }

  lemma DoThree(d: Disk, a: Effect, b: Effect, c: Effect)
    ensures DoAll(d, [a, b, c]) == Do(Do(Do(d, a), b), c)
  {
    DoTwo(Do(d, a), b, c);
    assert [a, b, c][1..] == [b, c];
  }

  // ----- Labels and the active account -----

  /** A rename changes the label and nothing else, or nothing when it is not acceptable. */
  lemma RenameOutcome(chains: Chains, d: Disk, ref: string, name: string)
    ensures var r, after := Recovered(d), Finished(chains, d, Command.Rename(ref, name));
            Leaves(after, Apply(chains.codec, Read(r), Op.Rename(ref, name)), r.files)
  {
    hide Recovered, LabelRefused, Relabelled, DoAll;
    var r := Recovered(d);
    FinishedIs(chains, d, Command.Rename(ref, name));
    DoNone(r);
    if !LabelRefused(Read(r), ref, name) {
      DoOne(r, PutIndex(Relabelled(Read(r), ref, name)));
    }
  }

  /** Activation changes the active account and nothing else. */
  lemma ActivateOutcome(chains: Chains, d: Disk, ref: string)
    ensures var r, after := Recovered(d), Finished(chains, d, Command.Activate(ref));
            Leaves(after, Read(r).(active := Some(ref)), r.files)
  {
    hide Recovered, DoAll;
    FinishedIs(chains, d, Command.Activate(ref));
    DoOne(Recovered(d), PutIndex(Read(Recovered(d)).(active := Some(ref))));
  }

  // ----- New ids -----

  // The first number drawn whose id no wallet and no secret has.
  predicate IsFirstFree(prefix: string, wallets: seq<Wallet>, draws: seq<Draw>, id: string) {
    exists i ::
      && 0 <= i < |draws| && id == Id(prefix, draws[i]) && IsFree(wallets, Id(prefix, draws[i]))
      && forall j :: 0 <= j < i ==> !IsFree(wallets, Id(prefix, draws[j]))
  }

  predicate IsFree(wallets: seq<Wallet>, id: string) {
    && id != ""
    && forall w :: w in wallets ==> w.id != id && (HasSecret(w.source) ==> SecretId(w.source) != id)
  }

  lemma FreeIff(prefix: string, wallets: seq<Wallet>, draw: Draw)
    ensures IsFree(wallets, Id(prefix, draw)) <==> Id(prefix, draw) !in TakenIds(wallets)
  {
    hide Base32;
    Base32Shape(draw, 8);
    var id := Id(prefix, draw);
    forall w | w in wallets
      ensures w.id in TakenIds(wallets) && SecretIdOrEmpty(w.source) in TakenIds(wallets)
    {
    }
    if id in TakenIds(wallets) {
      var w :| w in wallets && (w.id == id || SecretIdOrEmpty(w.source) == id);
    }
  }

  lemma {:induction false} FreshIdIsFirst(prefix: string, wallets: seq<Wallet>, draws: seq<Draw>)
    ensures var id := FreshId(prefix, TakenIds(wallets), draws);
            && (id.Some? ==> IsFirstFree(prefix, wallets, draws, id.value))
            && (id.None? ==> forall i :: 0 <= i < |draws| ==> !IsFree(wallets, Id(prefix, draws[i])))
    decreases |draws|
  {
    hide IsFree, TakenIds, Id;
    if draws != [] {
      FreeIff(prefix, wallets, draws[0]);
      var rest := draws[1..];
      FreshIdIsFirst(prefix, wallets, rest);
      var id := FreshId(prefix, TakenIds(wallets), draws);
      if id.Some? && Id(prefix, draws[0]) in TakenIds(wallets) {
        var i :| && 0 <= i < |rest| && id.value == Id(prefix, rest[i]) && IsFree(wallets, Id(prefix, rest[i]))
                 && forall j :: 0 <= j < i ==> !IsFree(wallets, Id(prefix, rest[j]));
        forall j | 0 <= j < i + 1
          ensures !IsFree(wallets, Id(prefix, draws[j]))
        {
          assert j == 0 || draws[j] == rest[j - 1];
        }
        assert draws[i + 1] == rest[i];
      }
      assert forall i :: 1 <= i < |draws| ==> draws[i] == rest[i - 1];
    }
  }

  predicate AnyFree(prefix: string, wallets: seq<Wallet>, draws: seq<Draw>) {
    exists i :: 0 <= i < |draws| && IsFree(wallets, Id(prefix, draws[i]))
  }

  lemma FreshIdIff(prefix: string, wallets: seq<Wallet>, draws: seq<Draw>)
    ensures FreshId(prefix, TakenIds(wallets), draws).Some? <==> AnyFree(prefix, wallets, draws)
    ensures FreshId(prefix, TakenIds(wallets), draws).Some? ==>
              IsFirstFree(prefix, wallets, draws, FreshId(prefix, TakenIds(wallets), draws).value)
  {
    hide IsFree, TakenIds, Id;
    FreshIdIsFirst(prefix, wallets, draws);
  }

  // ----- Ledger and watch accounts -----

  // The command's account as a source.
  function LinkedSource(op: Command): Source
    requires op.RegisterLedger? || op.RegisterWatch?
  {
    if op.RegisterLedger? then Ledger(op.family, op.path, op.address) else Watch(op.family, op.address)
  }

  /**
   * A Ledger or watch account with a valid address is registered under the first free id drawn, without
   * touching a file. A malformed address is refused before anything happens.
   */
  lemma RegisterOutcome(chains: Chains, d: Disk, op: Command) returns (id: string)
    requires op.RegisterLedger? || op.RegisterWatch?
    ensures var r, after := Recovered(d), Finished(chains, d, op);
            if !IsAddress(chains.codec, op.family, op.address) then after == d
            else if !AnyFree("wlt", Read(r).wallets, op.draws) then after == r
            else
              && IsFirstFree("wlt", Read(r).wallets, op.draws, id)
              && Leaves(after, Apply(chains.codec, Read(r), Op.Register(Wallet(id, LinkedSource(op)), op.name)),
                        r.files)
  {
    hide Recovered, DoAll, FreshId, TakenIds, RegisterStep, IsFirstFree, AnyFree, IsAddress, RecoverEffects;
    var r := Recovered(d);
    id := "";
    DoNone(d);
    DoNone(r);
    FreshIdIff("wlt", Read(r).wallets, op.draws);
    if IsAddress(chains.codec, op.family, op.address) {
      FinishedIs(chains, d, op);
      if AnyFree("wlt", Read(r).wallets, op.draws) {
        id := FreshId("wlt", TakenIds(Read(r).wallets), op.draws).value;
        var w := Wallet(id, LinkedSource(op));
        UnchangedOrWritten(chains, r, w, op.name);
        if RegisterStep(chains.codec, Read(r), w, op.name).Some? {
          DoOne(r, PutIndex(RegisterStep(chains.codec, Read(r), w, op.name).value));
        }
      }
    }
  }

  // A registration that needs no write changes nothing.
  lemma UnchangedOrWritten(chains: Chains, d: Disk, w: Wallet, name: Option<string>)
    ensures var step := RegisterStep(chains.codec, Read(d), w, name);
            step.Some? && !RegisterResult(chains.codec, Read(d), w).changed ==> step.value == Read(d)
  {
    hide DuplicateOf;
  }

  // ----- Deletion -----

  predicate IsGone(wallets: seq<Wallet>, id: string) { forall x :: x in wallets ==> x.id != id }

  /**
   * A deletion that goes through leaves the index without the account or wallet, and no secret file of a
   * wallet that is gone: it is dropped with the wallet and only then. Otherwise nothing happens.
   */
  lemma DeleteOutcome(chains: Chains, d: Disk, ref: string)
    ensures var r, after := Recovered(d), Finished(chains, d, Command.Delete(ref));
            var f := Read(r);
            if RemoveStep(f, ref).Err? then after == r
            else
              var w := f.wallets[Find(f.wallets, WalletOf(ref))];
              && w.id == WalletOf(ref)
              && Leaves(after, Apply(chains.codec, f, Remove(ref)),
                        if HasSecret(w.source) && IsGone(RemoveStep(f, ref).value.wallets, w.id) then
                          r.files - {SecretPath(w.source)}
                        else r.files)
  {
    hide Recovered, DoAll, WalletOf, RemoveSlotStep, RemoveWalletStep, NamesSlot, HasSlot, RemovedWallet, IsGone;
    var r := Recovered(d);
    FinishedIs(chains, d, Command.Delete(ref));
    DoNone(r);
    if RemoveStep(Read(r), ref).Ok? {
      var after := RemoveStep(Read(r), ref).value;
      RemovedIff(Read(r), ref);
      DoOne(r, PutIndex(after));
      var removed := RemovedWallet(Read(r), ref);
      if removed.Some? && HasSecret(removed.value.source) {
        var drop := DropFile(SecretPath(removed.value.source));
        DoTwo(r, PutIndex(after), drop);
        assert [PutIndex(after)] + [drop] == [PutIndex(after), drop];
      } else {
        assert [PutIndex(after)] + [] == [PutIndex(after)];
      }
    }
  }

  lemma RemovedIff(f: Index, ref: string)
    requires RemoveStep(f, ref).Ok?
    ensures var at := Find(f.wallets, WalletOf(ref));
            && at < |f.wallets| && f.wallets[at].id == WalletOf(ref)
            && var w := f.wallets[at];
               var removed := RemovedWallet(f, ref);
               (removed.Some? && HasSecret(removed.value.source) <==>
                HasSecret(w.source) && IsGone(RemoveStep(f, ref).value.wallets, w.id))
               && (removed.Some? ==> SameSecretFile(removed.value, w))
  {
    hide WalletOf, SlotText, HasSlot, IsInherited, FirstAccount, ActiveIn, OtherLabels, OtherWallets, WithoutSlots;
    var at := Find(f.wallets, WalletOf(ref));
    var w := f.wallets[at];
    OtherWalletsEffect(f.wallets, w.id);
    if NamesSlot(f, ref) {
      var smaller := w.(source := w.source.(addresses := WithoutSlots(w.source.addresses, SlotText(ref).value)));
      OtherWalletsEffect(f.wallets[at := smaller], w.id);
      assert f.wallets[at := smaller][at] == smaller;
    }
  }

  // ----- Adding an account -----

  // Every other TRON address is at the seed's current path; account 0 has only one.
  predicate HasCurrentAccounts(chains: Chains, seed: string, addresses: map<nat, ChainAddresses>) {
    forall n :: n in addresses && n != 0 ==>
      n < 0x8000_0000 && addresses[n].tron == CurrentAddress(chains, seed, Tron, n)
  }

  // Both addresses of the account are the seed's, TRON at either path.
  predicate IsSeedAccount(chains: Chains, seed: string, n: nat, a: ChainAddresses) {
    && (a.tron == CurrentAddress(chains, seed, Tron, n) || (n != 0 && a.tron == LegacyAddress(chains, seed, n)))
    && Canonical(chains.codec, Evm, a.evm) == Canonical(chains.codec, Evm, CurrentAddress(chains, seed, Evm, n))
  }

  // The account after the highest, or the one asked for.
  predicate IsRequestedIndex(op: Command, addresses: map<nat, ChainAddresses>, n: nat)
    requires op.AddAccount?
  {
    if op.index.Some? then n == op.index.value
    else (forall m :: m in addresses ==> m < n) && (n == 0 || n - 1 in addresses)
  }

  lemma ChecksAre(chains: Chains, seed: string, n: nat, addresses: map<nat, ChainAddresses>)
    ensures Derivable(chains, seed, addresses) <==> HasCurrentAccounts(chains, seed, addresses)
    ensures forall a :: AccountMatches(chains, seed, n, a) <==> IsSeedAccount(chains, seed, n, a)
  {
    hide ResolveDerivation, CurrentAddress, LegacyAddress, Canonical;
    forall m | m in addresses
      ensures AtCurrentPath(chains, seed, m, addresses[m]) <==>
              m < 0x8000_0000 && addresses[m].tron == CurrentAddress(chains, seed, Tron, m)
    {
      ResolvedIff(chains, seed, m, addresses[m].tron);
    }
    forall a
      ensures AccountMatches(chains, seed, n, a) <==> IsSeedAccount(chains, seed, n, a)
    {
      ResolvedIff(chains, seed, n, a.tron);
      ResolvedIff(chains, seed, n, a.evm);
    }
  }

  lemma SeedAddressesAre(chains: Chains, seed: string, n: nat)
    ensures SeedAddresses(chains, seed, n) ==
            ChainAddresses(CurrentAddress(chains, seed, Tron, n), CurrentAddress(chains, seed, Evm, n))
  {
    PathTexts(n);
  }

  // The wallet is an HD wallet whose vault the password opens, and the verifier too if there is one.
  predicate OpensVault(d: Disk, walletId: string, password: Password) {
    var f := Read(d);
    var at := Find(f.wallets, walletId);
    && at < |f.wallets| && f.wallets[at].source.Seed?
    && Opens(d.files, BlobFile(true, f.wallets[at].source.vaultId), password)
    && (VerifierFile in d.files ==> Opens(d.files, VerifierFile, password))
  }

  // The account asked for is new and the stored ones are current, or it is stored and the seed's.
  predicate Agrees(chains: Chains, seed: string, n: nat, addresses: map<nat, ChainAddresses>) {
    if n in addresses then IsSeedAccount(chains, seed, n, addresses[n]) else HasCurrentAccounts(chains, seed, addresses)
  }

  lemma NextIsRequested(op: Command, addresses: map<nat, ChainAddresses>, n: nat)
    requires op.AddAccount? && n < 0x8000_0000
    requires forall m :: m in addresses ==> m < 0x8000_0000
    ensures RequestedIndex(op, addresses) == n <==> IsRequestedIndex(op, addresses, n)
  {
    if op.index.None? {
      var top := GreatestKey(addresses.Keys);
      assert forall m :: m in addresses ==> m in addresses.Keys;
      if IsRequestedIndex(op, addresses, n) {
        assert n == 0 || n - 1 in addresses.Keys;
        assert top == n - 1;
      }
    }
  }

  /**
   * An account is added or selected exactly when the password opens the vault, the stored addresses agree
   * with the seed, and the label is acceptable; a new account gets the addresses at the seed's current paths.
   * No file is touched.
   */
  lemma AddAccountOutcome(chains: Chains, d: Disk, op: Command, n: nat)
    requires op.AddAccount? && n < 0x8000_0000
    requires OpensVault(Recovered(d), op.walletId, op.password)
    requires var f := Read(Recovered(d));
             var addresses := f.wallets[Find(f.wallets, op.walletId)].source.addresses;
             (forall m :: m in addresses ==> m < 0x8000_0000) && IsRequestedIndex(op, addresses, n)
    ensures var r, after := Recovered(d), Finished(chains, d, op);
            var f := Read(r);
            var s := f.wallets[Find(f.wallets, op.walletId)].source;
            var seed := r.files[SecretPath(s)].blob.plaintext;
            var derived := ChainAddresses(CurrentAddress(chains, seed, Tron, n), CurrentAddress(chains, seed, Evm, n));
            if Agrees(chains, seed, n, s.addresses) then
              var select := Select(op.walletId, n, if n in s.addresses then None else Some(derived), op.name);
              Leaves(after, Apply(chains.codec, f, select), r.files)
            else after == r
  {
    hide Recovered, DoAll, SelectStep, Derivable, AccountMatches, CurrentAddress, LegacyAddress, IsSeedAccount,
         HasCurrentAccounts, SeedAddresses, NextAccountIndex, IsRequestedIndex;
    var r := Recovered(d);
    var f := Read(r);
    var at := Find(f.wallets, op.walletId);
    var s := f.wallets[at].source;
    var seed := r.files[SecretPath(s)].blob.plaintext;
    FinishedIs(chains, d, op);
    NextIsRequested(op, s.addresses, n);
    ChecksAre(chains, seed, n, s.addresses);
    SeedAddressesAre(chains, seed, n);
    DoNone(r);
    var step := SelectStep(f, at, n, NewAddresses(chains, seed, n, s.addresses), op.name);
    if step.Some? {
      DoOne(r, PutIndex(step.value));
    }
  }

  /** Otherwise nothing happens: without the vault's password, or for an index that has no path. */
  lemma AddAccountRefused(chains: Chains, d: Disk, op: Command)
    requires op.AddAccount?
    requires var r := Recovered(d);
             OpensVault(r, op.walletId, op.password) ==>
               var addresses := Read(r).wallets[Find(Read(r).wallets, op.walletId)].source.addresses;
               if op.index.Some? then 0x8000_0000 <= op.index.value
               else 0x7FFF_FFFF in addresses && forall m :: m in addresses ==> m < 0x8000_0000
    ensures Finished(chains, d, op) == Recovered(d)
  {
    hide Recovered, DoAll, SelectStep, Derivable, AccountMatches;
    FinishedIs(chains, d, op);
    DoNone(Recovered(d));
    if OpensVault(Recovered(d), op.walletId, op.password) && op.index.None? {
      var f := Read(Recovered(d));
      NextIndexIsNewIff(f.wallets[Find(f.wallets, op.walletId)].source.addresses);
    }
  }

  // ----- Import -----

  // The wallet of an import: its drawn ids, and the addresses of the secret at the current paths.
  ghost predicate IsImported(chains: Chains, wallets: seq<Wallet>, op: Command, w: Wallet)
    requires op.Import? && Plaintext(op.secret).Some?
  {
    var plaintext := Plaintext(op.secret).value;
    && IsFirstFree("wlt", wallets, op.walletDraws, w.id)
    && if op.secret.Mnemonic? then
         && w.source.Seed? && IsFirstFree("vlt", wallets, op.secretDraws, w.source.vaultId)
         && w.source.addresses == map[0 := ChainAddresses(CurrentAddress(chains, plaintext, Tron, 0),
                                                          CurrentAddress(chains, plaintext, Evm, 0))]
       else
         && w.source.PrivateKey? && IsFirstFree("key", wallets, op.secretDraws, w.source.keyId)
         && w.source.keyAddresses == chains.keyAddresses(plaintext)
  }

  // The secret is accepted, and a free id is drawn for the wallet and for the secret.
  predicate CanImport(wallets: seq<Wallet>, op: Command)
    requires op.Import?
  {
    && Plaintext(op.secret).Some? && AnyFree("wlt", wallets, op.walletDraws)
    && AnyFree(if op.secret.Mnemonic? then "vlt" else "key", wallets, op.secretDraws)
  }

  lemma ImportedIs(chains: Chains, wallets: seq<Wallet>, op: Command)
    requires op.Import?
    ensures ImportedWallet(chains, wallets, op).Some? <==> CanImport(wallets, op)
    ensures ImportedWallet(chains, wallets, op).Some? ==>
              IsImported(chains, wallets, op, ImportedWallet(chains, wallets, op).value)
  {
    hide FreshId, TakenIds, IsFirstFree, AnyFree, Plaintext, SeedAddresses, CurrentAddress;
    FreshIdIff("wlt", wallets, op.walletDraws);
    FreshIdIff(if op.secret.Mnemonic? then "vlt" else "key", wallets, op.secretDraws);
    if Plaintext(op.secret).Some? {
      SeedAddressesAre(chains, Plaintext(op.secret).value, 0);
    }
  }

  // The verifier accepts the password, or there is none yet and the password satisfies the policy.
  predicate AcceptsPassword(d: Disk, op: Command)
    requires op.Import?
  {
    if VerifierFile in d.files then Opens(d.files, VerifierFile, op.password) else op.policyOk
  }

  // The files with the new secret, and with a verifier for the password when there was none.
  function WithSecret(files: map<Path, Content>, op: Command, p: Path): map<Path, Content>
    requires op.Import? && Plaintext(op.secret).Some? && p.BlobFile?
  {
    var verified :=
      if VerifierFile in files then files else files[VerifierFile := Whole(Blob(op.password, op.random, "verifier"))];
    verified[p := Whole(Blob(op.password, Plaintext(op.secret).value, p.id))]
  }

  /**
   * An import of a secret whose account is not held goes through exactly when the secret is accepted, ids are
   * drawn, the label is acceptable and the password is right: then the wallet is in the index under its
   * label, its file holds the secret, and a verifier exists. An import of a held account only selects it.
   */
  lemma ImportOutcome(chains: Chains, d: Disk, op: Command) returns (w: Wallet, text: string)
    requires op.Import? && CanImport(Read(Recovered(d)).wallets, op)
    ensures IsImported(chains, Read(Recovered(d)).wallets, op, w) && HasSecret(w.source)
    ensures var r, after := Recovered(d), Finished(chains, d, op);
            var f := Read(r);
            if IsHeld(chains.codec, f.wallets, w.source) then
              Leaves(after, Apply(chains.codec, f, Op.Register(w, op.name)), r.files)
            else
              && IsRequested(f.labels, |f.wallets| + 1, op.name, text)
              && if IsNewLabel(f.labels, FirstRef(w), text) && AcceptsPassword(r, op) then
                   Leaves(after, Apply(chains.codec, f, Op.Register(w, op.name)),
                          WithSecret(r.files, op, SecretPath(w.source)))
                 else after == r
  {
    hide Recovered, DoAll, ImportedWallet, IsImported, Plaintext, RegisterStep, DuplicateOf, IsHeld, IsRequested,
         IsNewLabel, Opens, CanImport, FirstRef;
    var r := Recovered(d);
    var f := Read(r);
    FinishedIs(chains, d, op);
    ImportedIs(chains, f.wallets, op);
    w := ImportedWallet(chains, f.wallets, op).value;
    ImportedHasSecret(chains, f.wallets, op);
    text := "";
    DoNone(r);
    StepIs(chains, f, w, op.name);
    if IsHeld(chains.codec, f.wallets, w.source) {
      DoOne(r, PutIndex(RegisterStep(chains.codec, f, w, op.name).value));
    } else {
      text := RegisteringAnew(chains.codec, f, w, op.name);
      AddedOrNot(chains, f, w, op.name, text);
      if RegisterStep(chains.codec, f, w, op.name).Some? {
        ImportWritesOutcome(r, op, w, RegisterStep(chains.codec, f, w, op.name).value);
      }
    }
  }

  lemma ImportedHasSecret(chains: Chains, wallets: seq<Wallet>, op: Command)
    requires op.Import? && ImportedWallet(chains, wallets, op).Some?
    ensures HasSecret(ImportedWallet(chains, wallets, op).value.source) && Plaintext(op.secret).Some?
  {
    hide FreshId, TakenIds, Plaintext, SeedAddresses;
  }

  lemma StepIs(chains: Chains, f: Index, w: Wallet, name: Option<string>)
    ensures DuplicateOf(chains.codec, f.wallets, w.source).Some? <==> IsHeld(chains.codec, f.wallets, w.source)
    ensures RegisterStep(chains.codec, f, w, name).Some? ==>
              Apply(chains.codec, f, Op.Register(w, name)) == RegisterStep(chains.codec, f, w, name).value
    ensures RegisterStep(chains.codec, f, w, name).None? ==> Apply(chains.codec, f, Op.Register(w, name)) == f
    ensures IsHeld(chains.codec, f.wallets, w.source) ==> RegisterStep(chains.codec, f, w, name).Some?
  {
    hide DuplicateOf, IsHeld;
    DuplicateIs(chains.codec, f.wallets, w.source);
  }

  lemma AddedOrNot(chains: Chains, f: Index, w: Wallet, name: Option<string>, text: string)
    requires !IsHeld(chains.codec, f.wallets, w.source) && HasSecret(w.source)
    requires Apply(chains.codec, f, Op.Register(w, name)) ==
             if IsNewLabel(f.labels, FirstRef(w), text) then
               Index(f.version, if w.source.Watch? then f.active else Some(FirstRef(w)), f.wallets + [w],
                     f.labels[FirstRef(w) := Text.Trim(text)])
             else f
    ensures RegisterStep(chains.codec, f, w, name).Some? <==> IsNewLabel(f.labels, FirstRef(w), text)
  {
    hide RegisterStep, IsHeld, IsNewLabel, FirstRef;
    StepIs(chains, f, w, name);
    RegisteredGrows(chains, f, w, name);
  }

  lemma RegisteredGrows(chains: Chains, f: Index, w: Wallet, name: Option<string>)
    requires !IsHeld(chains.codec, f.wallets, w.source)
    ensures RegisterStep(chains.codec, f, w, name).Some? ==>
              |RegisterStep(chains.codec, f, w, name).value.wallets| == |f.wallets| + 1
  {
    hide DuplicateOf, IsHeld, LabelRefused, NewRef, WalletLabel;
    StepIs(chains, f, w, name);
    if RegisterStep(chains.codec, f, w, name).Some? {
      RegisteredWallets(chains.codec, f, w, name);
    }
  }

  lemma ImportWritesOutcome(d: Disk, op: Command, w: Wallet, f: Index)
    requires op.Import? && Plaintext(op.secret).Some? && HasSecret(w.source)
    ensures var after := DoAll(d, ImportWrites(d, op, w, f));
            if AcceptsPassword(d, op) then Leaves(after, f, WithSecret(d.files, op, SecretPath(w.source)))
            else after == d
  {
    hide DoAll, Plaintext, Opens;
    var path := SecretPath(w.source);
    var put := PutFile(path, Sealed(op.password, Plaintext(op.secret).value, path.id));
    var verifier := PutFile(VerifierFile, VerifierBlob(op.password, op.random));
    DoNone(d);
    DoTwo(d, put, PutIndex(f));
    DoThree(d, verifier, put, PutIndex(f));
    assert [verifier] + [put, PutIndex(f)] == [verifier, put, PutIndex(f)];
  }

  /** A secret that is refused, or for which no free id is drawn, is not imported. */
  lemma ImportRefused(chains: Chains, d: Disk, op: Command)
    requires op.Import? && !CanImport(Read(Recovered(d)).wallets, op)
    ensures Finished(chains, d, op) == Recovered(d)
  {
    hide Recovered, DoAll, ImportedWallet, CanImport;
    FinishedIs(chains, d, op);
    ImportedIs(chains, Read(Recovered(d)).wallets, op);
    DoNone(Recovered(d));
  }

  // ----- The active account -----

  /** An imported or added account is the active one afterwards; the one imported again is, too. */
  lemma ImportActivates(chains: Chains, d: Disk, op: Command)
    requires op.Import? && CanImport(Read(Recovered(d)).wallets, op)
    ensures exists w ::
              && IsImported(chains, Read(Recovered(d)).wallets, op, w)
              && var before, after := Read(Recovered(d)), Read(Finished(chains, d, op));
                 || after == before
                 || (after.wallets == before.wallets && after.active.Some?
                     && IsStoredAs(chains.codec, before.wallets, after.active.value, w.source))
                 || (after.wallets == before.wallets + [w] && after.active == Some(FirstRef(w)))
  {
    hide Recovered, CanImport, IsImported, IsHeld, IsStoredAs, IsNewLabel, FirstRef, Apply, IsRequested, Finished;
    hide WithSecret;
    var w, text := ImportOutcome(chains, d, op);
    var f := Read(Recovered(d));
    if IsHeld(chains.codec, f.wallets, w.source) {
      RegisteringAgain(chains.codec, f, w, op.name);
    } else {
      var again := RegisteringAnew(chains.codec, f, w, op.name);
    }
  }
}
