/**
 * What the keystore keeps over histories. A history is any sequence of commands, each cut off after any
 * number of its effects; the next command first recovers.
 */
module KeystoreHistories {
  import opened Addresses
  import opened Wrappers
  import opened Text
  import opened WalletIndex
  import opened WalletIndexRuns
  import opened WalletHoldings
  import opened FreshIds
  import opened WalletsV2
  import opened Keystore
  import opened KeystoreSafety
  import WalletsFileParser

  // ----- The index a command writes -----

  // Ledger paths come from the derivation settings and are never empty.
  predicate WellFormed(op: Command) { op.RegisterLedger? ==> op.path != "" }

  // Derived addresses are valid and in their canonical spelling.
  ghost predicate Lawful(chains: Chains) {
    && (forall seed: string, n: nat :: WellSpelled(chains.codec, SeedAddresses(chains, seed, n)))
    && (forall key: string :: WellSpelled(chains.codec, chains.keyAddresses(key)))
  }

  predicate WellSpelled(codec: Codec, a: ChainAddresses) { ValidAddresses(codec, a) && IsCanonical(codec, a) }

  // The text names an account the index holds, and a deletion does not run on past the slot.
  ghost predicate CommandNamesPrecisely(f: Index, op: Command) {
    match op
    case Rename(ref, _) => Stored(f.wallets, ref)
    case Activate(ref) => Stored(f.wallets, ref)
    case Delete(ref) => !ExtraSegment(ref)
    case _ => true
  }

  // The watch command gives addresses in their canonical spelling.
  predicate CommandSpellsItsOwn(chains: Chains, op: Command) {
    op.RegisterWatch? ==> Canonical(chains.codec, op.family, op.address) == op.address
  }

  /** The wallet an import builds with its two drawn ids is new to the index, and valid. */
  lemma ImportedWalletIsFresh(chains: Chains, f: Index, op: Command)
    requires Lawful(chains) && op.Import? && ImportedWallet(chains, f.wallets, op).Some?
    ensures FreshWallet(chains.codec, f, ImportedWallet(chains, f.wallets, op).value)
    ensures InOwnSpelling(chains.codec, ImportedWallet(chains, f.wallets, op).value.source)
  {
    hide FreshId, TakenIds, SeedAddresses, IsBlobId, IsWalletId, ValidAddresses, IsCanonical, Plaintext;
    ImportedSecretIsNew(chains, f.wallets, op);
    var s := ImportedWallet(chains, f.wallets, op).value.source;
    if op.secret.Mnemonic? {
      assert s.addresses == map[0 := SeedAddresses(chains, Plaintext(op.secret).value, 0)];
      assert WellSpelled(chains.codec, s.addresses[0]);
    }
  }

  lemma ImportChange(chains: Chains, d: Disk, op: Command, e: Effect) returns (change: Op)
    requires Lawful(chains) && op.Import? && e in ImportEffects(chains, d, op) && e.PutIndex?
    ensures change.Register? && Permitted(chains.codec, Read(d), change) && SpellsItsOwn(chains.codec, change)
    ensures e.index == Apply(chains.codec, Read(d), change)
  {
    hide RegisterStep, DuplicateOf, ImportedWallet, FreshWallet, Lawful, InOwnSpelling;
    var w := ImportedWallet(chains, Read(d).wallets, op).value;
    ImportedWalletIsFresh(chains, Read(d), op);
    change := Op.Register(w, op.name);
  }

  lemma RegisterChange(
    chains: Chains, d: Disk, source: Source, draws: seq<Draw>, name: Option<string>, e: Effect)
    returns (change: Op)
    requires !HasSecret(source) && ValidSource(chains.codec, source)
    requires e in RegisterEffects(chains, d, source, draws, name) && e.PutIndex?
    ensures change.Register? && Permitted(chains.codec, Read(d), change) && change.wallet.source == source
    ensures e.index == Apply(chains.codec, Read(d), change)
  {
    hide RegisterStep, DuplicateOf, FreshId, TakenIds, ValidSource, IsWalletId;
    FreshIdIsFree("wlt", Read(d).wallets, draws);
    change := Op.Register(Wallet(FreshId("wlt", TakenIds(Read(d).wallets), draws).value, source), name);
  }

  lemma AddAccountChange(chains: Chains, d: Disk, op: Command, e: Effect) returns (change: Op)
    requires Lawful(chains) && op.AddAccount? && e in AddAccountEffects(chains, d, op) && e.PutIndex?
    ensures change.Select? && Permitted(chains.codec, Read(d), change)
    ensures e.index == Apply(chains.codec, Read(d), change)
  {
    hide SelectStep, Derivable, AccountMatches, SeedAddresses, ValidAddresses, NextAccountIndex, VaultOpens;
    var f := Read(d);
    var s := f.wallets[Find(f.wallets, op.walletId)].source;
    VaultIsWhole(d, s, op.password);
    var seed, n := d.files[SecretPath(s)].blob.plaintext, RequestedIndex(op, s.addresses);
    change := Select(op.walletId, n, NewAddresses(chains, seed, n, s.addresses), op.name);
  }

  /** The index a command writes is that of one permitted change; a password change writes none. */
  lemma CommandChange(chains: Chains, d: Disk, op: Command, e: Effect) returns (change: Op)
    requires Lawful(chains) && WellFormed(op) && !RefusedAtOnce(chains, op)
    requires e in OpEffects(chains, d, op) && e.PutIndex?
    ensures Permitted(chains.codec, Read(d), change) && e.index == Apply(chains.codec, Read(d), change)
    ensures CommandNamesPrecisely(Read(d), op) ==> NamesPrecisely(Read(d), change)
    ensures CommandSpellsItsOwn(chains, op) ==> SpellsItsOwn(chains.codec, change)
  {
    hide ImportEffects, RegisterEffects, AddAccountEffects, RegisterStep, SelectStep, RemoveStep, LabelRefused,
         WalletLabel, Stored, ExtraSegment, RemovedWallet, ChangePasswordEffects, Lawful, FreshWallet, Canonical;
    match op
    case Import(_, _, _, _, _, _, _) => change := ImportChange(chains, d, op, e);
    case RegisterLedger(family, path, address, draws, name) =>
      change := RegisterChange(chains, d, Ledger(family, path, address), draws, name, e);
    case RegisterWatch(family, address, draws, name) =>
      change := RegisterChange(chains, d, Watch(family, address), draws, name, e);
    case AddAccount(_, _, _, _) => change := AddAccountChange(chains, d, op, e);
    case Rename(ref, name) => change := Op.Rename(ref, name);
    case Activate(ref) => change := Op.Activate(ref);
    case Delete(ref) => change := Remove(ref);
    case ChangePassword(_, _, _) => PasswordChangeWritesNoIndex(d, op);
  }

  lemma {:induction false} StagingWritesNoIndex(entries: seq<Entry>)
    ensures WritesNoIndex(StageEffects(entries))
  {
    if entries != [] {
      StagingWritesNoIndex(entries[1..]);
    }
  }

  lemma RecoveryWritesNoIndex(d: Disk)
    ensures WritesNoIndex(RecoverEffects(d))
  {
    if d.journal.Some? {
      EachWritesNoIndex(d.journal.value.files, d.journal.value.state.Committed?);
    }
  }

  lemma PasswordChangeWritesNoIndex(d: Disk, op: Command)
    requires op.ChangePassword?
    ensures WritesNoIndex(ChangePasswordEffects(d, op))
  {
    if ChangePasswordEffects(d, op) != [] {
      var entries := Resealed(Read(d).wallets, d.files, op).value
                     + [Entry(VerifierFile, VerifierBlob(op.newPassword, op.random))];
      StagingWritesNoIndex(entries);
      EachWritesNoIndex(Paths(entries), true);
    }
  }

  lemma {:induction false} IndexHolds(holds: Index -> bool, d: Disk, es: seq<Effect>)
    requires holds(Read(d)) && forall e :: e in es && e.PutIndex? ==> holds(e.index)
    ensures holds(Read(DoAll(d, es)))
    decreases |es|
  {
    if es != [] {
      assert es[0] in es && forall e :: e in es[1..] ==> e in es;
      IndexHolds(holds, Do(d, es[0]), es[1..]);
    }
  }

  lemma RecoveryKeepsTheIndex(d: Disk)
    ensures Read(Recovered(d)) == Read(d)
  {
    RecoveryWritesNoIndex(d);
    IndexHolds(f => f == Read(d), d, RecoverEffects(d));
  }

  ghost predicate Deduplicated(codec: Codec, f: Index) { HasFirstAccounts(f) && HeldOnce(codec, f) }

  lemma WrittenIndex(chains: Chains, d: Disk, op: Command, e: Effect)
    requires Lawful(chains) && WellFormed(op) && Sound(chains.codec, Read(d))
    requires e in LockedEffects(chains, d, op) && e.PutIndex?
    ensures Sound(chains.codec, e.index)
    ensures Inv(chains.codec, Read(d)) && CommandNamesPrecisely(Read(d), op) ==> Inv(chains.codec, e.index)
    ensures Deduplicated(chains.codec, Read(d)) && CommandSpellsItsOwn(chains, op) ==>
              Deduplicated(chains.codec, e.index)
  {
    hide Sound, Inv, OpEffects, RecoverEffects, Recovered, Apply, Permitted, NamesPrecisely, Lawful, HeldOnce,
         HasFirstAccounts, CommandSpellsItsOwn, SpellsItsOwn;
    RecoveryWritesNoIndex(d);
    RecoveryKeepsTheIndex(d);
    var change := CommandChange(chains, Recovered(d), op, e);
    SoundApply(chains.codec, Read(d), change);
    if Inv(chains.codec, Read(d)) && CommandNamesPrecisely(Read(d), op) {
      InvApply(chains.codec, Read(d), change);
    }
    if Deduplicated(chains.codec, Read(d)) && CommandSpellsItsOwn(chains, op) {
      FirstAccountsApply(chains.codec, Read(d), change);
      HeldOnceApply(chains.codec, Read(d), change);
    }
  }

  // ----- Histories -----

  lemma CommandSafe(chains: Chains, current: bool, d: Disk, truth: Truth, op: Command)
    requires Safe(OwnAddresses(chains, current), d, truth) && d.journal.None? && Distinct(Read(d).wallets)
    ensures SafeAll(OwnAddresses(chains, current), d, truth, OpEffects(chains, d, op))
  {
    hide Safe, SafeAll, Distinct, OwnAddresses;
    match op
    case Import(_, _, _, _, _, _, _) => ImportSafe(chains, current, d, truth, op);
    case RegisterLedger(family, path, address, draws, name) =>
      RegisterSafe(OwnAddresses(chains, current), chains, d, truth, Ledger(family, path, address), draws, name);
    case RegisterWatch(family, address, draws, name) =>
      RegisterSafe(OwnAddresses(chains, current), chains, d, truth, Watch(family, address), draws, name);
    case AddAccount(_, _, _, _) => AddAccountSafe(chains, current, d, truth, op);
    case Rename(_, _) => RelabellingSafe(OwnAddresses(chains, current), chains, d, truth, op);
    case Activate(_) => RelabellingSafe(OwnAddresses(chains, current), chains, d, truth, op);
    case Delete(ref) => DeleteSafe(chains, current, d, truth, ref);
    case ChangePassword(_, _, _) => ChangePasswordSafe(OwnAddresses(chains, current), d, truth, op);
  }

  lemma RelabellingSafe(fit: Fit, chains: Chains, d: Disk, truth: Truth, op: Command)
    requires Safe(fit, d, truth) && d.journal.None? && (op.Rename? || op.Activate?)
    ensures SafeAll(fit, d, truth, OpEffects(chains, d, op))
  {
    hide LabelRefused, WalletLabel, GoodView, View;
    GoodWallets(fit, d, truth);
    if OpEffects(chains, d, op) != [] {
      var after := OpEffects(chains, d, op)[0].index;
      PutIndexSafe(fit, d, truth, after);
    }
  }

  lemma LockedSafe(chains: Chains, current: bool, d: Disk, truth: Truth, op: Command)
    requires Safe(OwnAddresses(chains, current), d, truth) && Distinct(Read(d).wallets)
    ensures SafeAll(OwnAddresses(chains, current), d, truth, LockedEffects(chains, d, op))
  {
    hide Safe, Distinct, OwnAddresses, OpEffects, RecoverEffects, Recovered;
    if !RefusedAtOnce(chains, op) {
      RecoverySafe(OwnAddresses(chains, current), d, truth);
      RecoveryKeepsTheIndex(d);
      CommandSafe(chains, current, Recovered(d), truth, op);
      RecoveredIs(d);
      SafeAppend(OwnAddresses(chains, current), d, truth, RecoverEffects(d), OpEffects(chains, Recovered(d), op));
    }
  }

  lemma RecoveredIs(d: Disk)
    ensures Recovered(d) == DoAll(d, RecoverEffects(d))
  {
  }

  // A command and the number of its effects that reached the disk; the rest were lost in a crash.
  datatype Attempt = Attempt(command: Command, cut: nat)

  function Made(chains: Chains, d: Disk, a: Attempt): seq<Effect> {
    var es := LockedEffects(chains, d, a.command);
    if a.cut < |es| then es[..a.cut] else es
  }

  predicate IsHistory(attempts: seq<Attempt>) {
    forall a :: a in attempts ==> WellFormed(a.command)
  }

  function AfterHistory(chains: Chains, d: Disk, attempts: seq<Attempt>): Disk
    decreases |attempts|
  {
    if attempts == [] then d
    else AfterHistory(chains, DoAll(d, Made(chains, d, attempts[0])), attempts[1..])
  }

  function TruthOf(chains: Chains, d: Disk, truth: Truth, attempts: seq<Attempt>): Truth
    decreases |attempts|
  {
    if attempts == [] then truth
    else
      var made := Made(chains, d, attempts[0]);
      TruthOf(chains, DoAll(d, made), TruthAll(truth, made), attempts[1..])
  }

  predicate SpellOwn(chains: Chains, attempts: seq<Attempt>) {
    forall a :: a in attempts ==> CommandSpellsItsOwn(chains, a.command)
  }

  ghost predicate IsPreciseHistory(chains: Chains, d: Disk, attempts: seq<Attempt>)
    decreases |attempts|
  {
    attempts == [] ||
    (&& CommandNamesPrecisely(Read(d), attempts[0].command)
     && IsPreciseHistory(chains, DoAll(d, Made(chains, d, attempts[0])), attempts[1..]))
  }

  const EMPTY_DISK: Disk := Disk(None, map[], map[], None)

  lemma AttemptSafe(chains: Chains, current: bool, d: Disk, truth: Truth, a: Attempt)
    requires Safe(OwnAddresses(chains, current), d, truth) && Distinct(Read(d).wallets)
    ensures var made := Made(chains, d, a); Safe(OwnAddresses(chains, current), DoAll(d, made), TruthAll(truth, made))
  {
    hide Safe, SafeAll, LockedEffects, DoAll, TruthAll, OwnAddresses;
    LockedSafe(chains, current, d, truth, a.command);
    var es := LockedEffects(chains, d, a.command);
    SafePrefix(OwnAddresses(chains, current), d, truth, es, if a.cut < |es| then a.cut else |es|);
    assert es[..|es|] == es;
  }

  lemma AttemptKeepsTheIndex(chains: Chains, d: Disk, a: Attempt)
    requires Lawful(chains) && WellFormed(a.command) && Sound(chains.codec, Read(d))
    ensures var after := Read(DoAll(d, Made(chains, d, a)));
            && Sound(chains.codec, after)
            && (Inv(chains.codec, Read(d)) && CommandNamesPrecisely(Read(d), a.command) ==> Inv(chains.codec, after))
            && (Deduplicated(chains.codec, Read(d)) && CommandSpellsItsOwn(chains, a.command) ==>
                  Deduplicated(chains.codec, after))
  {
    hide Sound, Inv, Deduplicated, LockedEffects, DoAll, CommandNamesPrecisely, CommandSpellsItsOwn, Lawful, WellFormed;
    var made := Made(chains, d, a);
    forall e | e in made && e.PutIndex?
      ensures Sound(chains.codec, e.index)
      ensures Inv(chains.codec, Read(d)) && CommandNamesPrecisely(Read(d), a.command) ==> Inv(chains.codec, e.index)
      ensures Deduplicated(chains.codec, Read(d)) && CommandSpellsItsOwn(chains, a.command) ==>
                Deduplicated(chains.codec, e.index)
    {
      WrittenIndex(chains, d, a.command, e);
    }
    IndexHolds(f => Sound(chains.codec, f), d, made);
    if Inv(chains.codec, Read(d)) && CommandNamesPrecisely(Read(d), a.command) {
      IndexHolds(f => Inv(chains.codec, f), d, made);
    }
    if Deduplicated(chains.codec, Read(d)) && CommandSpellsItsOwn(chains, a.command) {
      IndexHolds(f => Deduplicated(chains.codec, f), d, made);
    }
  }

  lemma {:induction false} HistoryKeepsTheFiles(
    chains: Chains, current: bool, d: Disk, truth: Truth, attempts: seq<Attempt>)
    requires Lawful(chains) && IsHistory(attempts)
    requires Safe(OwnAddresses(chains, current), d, truth) && Sound(chains.codec, Read(d))
    ensures Safe(OwnAddresses(chains, current), AfterHistory(chains, d, attempts), TruthOf(chains, d, truth, attempts))
    decreases |attempts|
  {
    hide Safe, Made, DoAll, TruthAll, Distinct, WalletsValid, LabelsDistinct, LabelsClean, Lawful, OwnAddresses,
         WellFormed, Inv, Deduplicated;
    if attempts != [] {
      AttemptSafe(chains, current, d, truth, attempts[0]);
      AttemptKeepsTheIndex(chains, d, attempts[0]);
      var made := Made(chains, d, attempts[0]);
      HistoryKeepsTheFiles(chains, current, DoAll(d, made), TruthAll(truth, made), attempts[1..]);
    }
  }

  lemma {:induction false} HistoryKeepsTheIndex(chains: Chains, d: Disk, attempts: seq<Attempt>)
    requires Lawful(chains) && IsHistory(attempts) && Sound(chains.codec, Read(d))
    ensures var after := Read(AfterHistory(chains, d, attempts));
            && Sound(chains.codec, after)
            && (Inv(chains.codec, Read(d)) && IsPreciseHistory(chains, d, attempts) ==> Inv(chains.codec, after))
            && (Deduplicated(chains.codec, Read(d)) && SpellOwn(chains, attempts) ==> Deduplicated(chains.codec, after))
    decreases |attempts|
  {
    hide Made, DoAll, Inv, Sound, Deduplicated, Lawful, CommandNamesPrecisely, CommandSpellsItsOwn, WellFormed;
    if attempts != [] {
      assert attempts[0] in attempts && forall a :: a in attempts[1..] ==> a in attempts;
      AttemptKeepsTheIndex(chains, d, attempts[0]);
      HistoryKeepsTheIndex(chains, DoAll(d, Made(chains, d, attempts[0])), attempts[1..]);
    }
  }

  // ----- What every history keeps -----

  // Files and index a history may start from: as this version makes them, or as an upgrade leaves them.
  ghost predicate Healthy(chains: Chains, current: bool, d: Disk, truth: Truth) {
    Safe(OwnAddresses(chains, current), d, truth) && Sound(chains.codec, Read(d))
  }

  /** An empty keystore is one. */
  lemma EmptyDiskIsHealthy(chains: Chains)
    ensures Healthy(chains, true, EMPTY_DISK, map[])
    ensures Inv(chains.codec, Read(EMPTY_DISK)) && Deduplicated(chains.codec, Read(EMPTY_DISK))
  {
    hide OwnAddresses;
  }

  /**
   * Whatever the commands and however often they are cut off, at every point every software wallet named
   * by the index has its own whole secret file, and the verifier exists.
   */
  lemma EveryIndexedSecretIsOnDisk(
    chains: Chains, current: bool, start: Disk, truth: Truth, attempts: seq<Attempt>)
    requires Lawful(chains) && IsHistory(attempts) && Healthy(chains, current, start, truth)
    ensures var d := AfterHistory(chains, start, attempts);
            && (forall w :: w in Read(d).wallets && HasSecret(w.source) ==>
                  && SecretPath(w.source) in d.files && d.files[SecretPath(w.source)].Whole?
                  && VerifierFile in d.files && d.files[VerifierFile].Whole?)
            && (forall i, j :: 0 <= i < j < |Read(d).wallets| ==>
                  !SameSecretFile(Read(d).wallets[i], Read(d).wallets[j]))
  {
    hide Lawful, IsHistory, AfterHistory, TruthOf, OwnAddresses;
    HistoryKeepsTheFiles(chains, current, start, truth, attempts);
    HistoryKeepsTheIndex(chains, start, attempts);
    var d, later := AfterHistory(chains, start, attempts), TruthOf(chains, start, truth, attempts);
    forall w | w in Read(d).wallets && HasSecret(w.source)
      ensures SecretGood(OwnAddresses(chains, current), w.source, View(d), later)
    {
    }
  }

  /**
   * After any history, including password changes cut off anywhere, the recovery that every later
   * mutation and secret read performs leaves one password that opens the verifier and every indexed
   * secret. Each secret holds the plaintext that was stored, and the index gives addresses that the
   * plaintext derives.
   */
  lemma OnePasswordOpensEverything(
    chains: Chains, current: bool, start: Disk, truth: Truth, attempts: seq<Attempt>)
    returns (password: Password)
    requires Lawful(chains) && IsHistory(attempts) && Healthy(chains, current, start, truth)
    ensures var d, later := AfterHistory(chains, start, attempts), TruthOf(chains, start, truth, attempts);
            var r := Recovered(d);
            && r.index == d.index && r.journal.None?
            && (VerifierFile in r.files ==> Opens(r.files, VerifierFile, password))
            && forall w :: w in Read(r).wallets && HasSecret(w.source) ==>
                 var p := SecretPath(w.source);
                 && Opens(r.files, VerifierFile, password) && Opens(r.files, p, password)
                 && p in later && r.files[p].blob.plaintext == later[p]
                 && DerivedFrom(chains, current, w.source, later[p])
  {
    hide Lawful, IsHistory, AfterHistory, TruthOf, DerivedFrom, Recovered, Sound, JournalOk, View;
    HistoryKeepsTheFiles(chains, current, start, truth, attempts);
    var d, later := AfterHistory(chains, start, attempts), TruthOf(chains, start, truth, attempts);
    RecoverySafe(OwnAddresses(chains, current), d, later);
    var files := Recovered(d).files;
    password := if VerifierFile in files then files[VerifierFile].blob.sealedBy else "";
    forall w | w in Read(d).wallets && HasSecret(w.source)
      ensures SecretGood(OwnAddresses(chains, current), w.source, files, later)
    {
    }
  }

  /** No history leaves an index that loading refuses or changes. */
  lemma EveryCrashLeavesALoadableIndex(chains: Chains, start: Disk, attempts: seq<Attempt>)
    requires Lawful(chains) && IsHistory(attempts) && Sound(chains.codec, Read(start))
    ensures var written := WalletsFileParser.ToJson(Read(AfterHistory(chains, start, attempts)));
            WalletsFileParser.Accepts(chains.codec, written) && WalletsFileParser.WithDefaults(written) == written
  {
    hide Lawful, IsHistory, AfterHistory, Sound;
    HistoryKeepsTheIndex(chains, start, attempts);
    WalletsFileParser.SoundIndexLoads(chains.codec, Read(AfterHistory(chains, start, attempts)));
  }

  /**
   * While the commands name stored accounts and no deletion runs on past a slot, labels name exactly the
   * stored accounts at every crash point, and the active account is none or a stored one.
   */
  lemma PreciseHistoriesKeepTheIndex(chains: Chains, start: Disk, attempts: seq<Attempt>)
    requires Lawful(chains) && IsHistory(attempts) && IsPreciseHistory(chains, start, attempts)
    requires Inv(chains.codec, Read(start))
    ensures Inv(chains.codec, Read(AfterHistory(chains, start, attempts)))
  {
    hide Lawful, IsHistory, IsPreciseHistory, AfterHistory;
    HistoryKeepsTheIndex(chains, start, attempts);
  }

  /**
   * From an empty keystore no history, cut off anywhere, makes two HD wallets with the same account 0 or two
   * wallets for one private key, device path or watched address.
   */
  lemma NoHistoryHoldsAnAccountTwice(chains: Chains, attempts: seq<Attempt>, i: nat, j: nat)
    requires Lawful(chains) && IsHistory(attempts) && SpellOwn(chains, attempts)
    requires i < j < |Read(AfterHistory(chains, EMPTY_DISK, attempts)).wallets|
    ensures var wallets := Read(AfterHistory(chains, EMPTY_DISK, attempts)).wallets;
            !SameHolding(chains.codec, wallets[i].source, wallets[j].source)
  {
    hide Lawful, IsHistory, SpellOwn, AfterHistory, HeldOnce, SameHolding, Safe;
    EmptyDiskIsHealthy(chains);
    HistoryKeepsTheIndex(chains, EMPTY_DISK, attempts);
    HeldOnceApart(chains.codec, Read(AfterHistory(chains, EMPTY_DISK, attempts)), i, j);
  }

  /** The checks before an account is added refuse no wallet whose addresses are all at the current paths. */
  lemma OwnWalletsPassTheChecks(
    chains: Chains, start: Disk, truth: Truth, attempts: seq<Attempt>, w: Wallet, n: nat)
    requires Lawful(chains) && IsHistory(attempts) && Healthy(chains, true, start, truth) && n < PATH_LIMIT
    requires w in Read(AfterHistory(chains, start, attempts)).wallets && w.source.Seed?
    ensures var files, p := Recovered(AfterHistory(chains, start, attempts)).files, SecretPath(w.source);
            && p in files && files[p].Whole?
            && MayAdd(chains, files[p].blob.plaintext, n, w.source.addresses)
  {
    hide Lawful, IsHistory, AfterHistory, TruthOf, Recovered, AtCurrentPath, AccountMatches, SeedAddresses, Healthy;
    var password := OnePasswordOpensEverything(chains, true, start, truth, attempts);
    var seed := TruthOf(chains, start, truth, attempts)[SecretPath(w.source)];
    forall m | m in w.source.addresses
      ensures AtCurrentPath(chains, seed, m, w.source.addresses[m])
      ensures AccountMatches(chains, seed, m, w.source.addresses[m])
    {
      OwnAccountIsCurrent(chains, seed, m);
    }
  }

  /** A deletion drops only its own secret on every index a history has written. */
  lemma DeleteDropsOnlyItsOwnSecret(chains: Chains, start: Disk, attempts: seq<Attempt>, ref: string, i: nat)
    requires Lawful(chains) && IsHistory(attempts) && Sound(chains.codec, Read(start))
    requires var d := AfterHistory(chains, start, attempts);
             i < |DeleteEffects(d, ref)| && DeleteEffects(d, ref)[i].DropFile?
    ensures var d := AfterHistory(chains, start, attempts);
            && RemoveStep(Read(d), ref).Ok?
            && !IsNamed(RemoveStep(Read(d), ref).value.wallets, DeleteEffects(d, ref)[i].path)
  {
    hide Lawful, IsHistory, AfterHistory, WalletOf, RemoveSlotStep, RemoveWalletStep, NamesSlot, HasSlot,
         DeleteEffects, SecretIsShared, IsNamed, Sound;
    HistoryKeepsTheIndex(chains, start, attempts);
    var d := AfterHistory(chains, start, attempts);
    DeletedSecretIsStillNamedIff(d, ref, i);
    OwnSecrets(chains.codec, Read(d));
  }

  lemma OwnSecrets(codec: Codec, f: Index)
    requires Sound(codec, f)
    ensures forall w :: w in f.wallets ==> !SecretIsShared(f.wallets, w)
  {
    forall w, x | w in f.wallets && x in f.wallets && x.id != w.id
      ensures !SameSecretFile(x, w)
    {
      OtherSecretFile(f.wallets, x, w);
    }
  }

  // ----- Importing again -----

  lemma {:induction false} DuplicateIsFound(codec: Codec, wallets: seq<Wallet>, w: Wallet, source: Source)
    requires w in wallets && DuplicateIn(codec, w, source).Some?
    ensures DuplicateOf(codec, wallets, source).Some?
  {
    if wallets[0] != w {
      DuplicateIsFound(codec, wallets[1..], w, source);
    }
  }

  lemma HoldingIsDuplicate(codec: Codec, w: Wallet, source: Source)
    requires HasSecret(source) && InOwnSpelling(codec, source) && SameHolding(codec, w.source, source)
    ensures DuplicateIn(codec, w, source).Some?
  {
    hide Ref, Canonical;
    if source.Seed? {
      assert 0 in MatchingSlots(codec, w.source.addresses, source.addresses[0]);
    }
  }

  /** Importing a secret whose account a wallet already holds writes no file and adds no wallet. */
  lemma ImportingAgainAddsNothing(chains: Chains, d: Disk, op: Command, w: Wallet, e: Effect)
    requires Lawful(chains) && op.Import? && Plaintext(op.secret).Some? && w in Read(d).wallets
    requires SameHolding(chains.codec, w.source, NewSource(chains, op.secret.Mnemonic?, Plaintext(op.secret).value, ""))
    requires e in ImportEffects(chains, d, op)
    ensures e.PutIndex? && e.index.wallets == Read(d).wallets
  {
    hide DuplicateIn, RegisterStep, FreshId, TakenIds, SeedAddresses, SharesAddress, IsCanonical, Plaintext,
         FreshWallet;
    var x := ImportedWallet(chains, Read(d).wallets, op).value;
    ImportedWalletIsFresh(chains, Read(d), op);
    assert SameHolding(chains.codec, w.source, x.source);
    HoldingIsDuplicate(chains.codec, w, x.source);
    DuplicateIsFound(chains.codec, Read(d).wallets, w, x.source);
    DuplicateKeepsWallets(chains.codec, Read(d), x, op.name);
  }

  // ----- Upgraded wallets -----

  // A migrated slot has both addresses.
  function Loaded(cached: Cached): ChainAddresses
    requires cached.tron.Some? && cached.evm.Some?
  {
    ChainAddresses(cached.tron.value, cached.evm.value)
  }

  predicate IsComplete(slots: map<nat, Cached>) {
    forall n :: n in slots ==> slots[n].tron.Some? && slots[n].evm.Some?
  }

  lemma MigratedSlotMatches(chains: Chains, seed: string, n: nat, cached: Cached)
    requires !SlotMismatch(chains, seed, n, cached)
    ensures var after := MigrateSlot(chains, seed, n, cached);
            after.tron.Some? && after.evm.Some? && AccountMatches(chains, seed, n, Loaded(after))
  {
    hide CurrentPath, LegacyPaths, Canonical;
    SlotKeepsTheTronAddress(chains, seed, n, cached);
    OwnAccountIsCurrent(chains, seed, n);
  }

  /**
   * The upgrade to version 2 leaves every software wallet with addresses of its own secret, so a history may
   * start from there.
   */
  lemma UpgradedWalletFits(chains: Chains, secrets: Secrets<string, string>, w: StoredWallet)
    requires MigrateWallet(chains, secrets, w).Some? && !w.source.StoredOther?
    ensures var after := MigrateWallet(chains, secrets, w).value.source;
            match after
            case StoredSeed(vaultId, slots) =>
              && secrets.seedFor(vaultId).Some? && IsComplete(slots)
              && DerivedFrom(chains, false, Seed(vaultId, map n | n in slots :: Loaded(slots[n])),
                             secrets.seedFor(vaultId).value)
            case StoredKey(keyId, addresses) =>
              && secrets.keyFor(keyId).Some? && addresses.tron.Some? && addresses.evm.Some?
              && DerivedFrom(chains, false, PrivateKey(keyId, Loaded(addresses)), secrets.keyFor(keyId).value)
            case StoredOther(_) => false
  {
    hide AccountMatches, MigrateSlot, SlotMismatch, Canonical;
    if w.source.StoredSeed? {
      var seed := secrets.seedFor(w.source.vaultId).value;
      forall n | n in w.source.slots
        ensures var after := MigrateSlot(chains, seed, n, w.source.slots[n]);
                after.tron.Some? && after.evm.Some? && AccountMatches(chains, seed, n, Loaded(after))
      {
        MigratedSlotMatches(chains, seed, n, w.source.slots[n]);
      }
    }
  }
}
