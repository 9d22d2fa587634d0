/**
 * The keystore's files and the order in which its operations change them. Every operation is a list
 * of atomic file effects, applied under the lock after the effects that finish an interrupted
 * password change; a crash leaves any prefix of that list. Class `Keystore` performs the effects.
 *
 * Encryption is symbolic: a blob records the password it was sealed with, and opens with that one only.
 */
module Keystore {
  import opened Addresses
  import opened Wrappers
  import opened WalletIndex
  import opened WalletIndexRuns
  import opened FreshIds
  import opened KeyText
  import opened WalletsV2

  type Password = string

  datatype Blob = Blob(sealedBy: Password, plaintext: string, id: string)

  // Contents of a file that is not written atomically may be torn by a crash.
  datatype Content = Torn | Whole(blob: Blob)

  datatype Path = BlobFile(vault: bool, id: string) | VerifierFile

  datatype JournalState = Staged | Committed

  datatype Journal = Journal(state: JournalState, files: seq<Path>)

  // staged holds the <path>.next copies of a journaled write.
  datatype Disk = Disk(
    index: Option<Index>,
    files: map<Path, Content>,
    staged: map<Path, Content>,
    journal: Option<Journal>
  )

  datatype Effect =
    | PutIndex(index: Index)
    | PutFile(path: Path, blob: Blob)
    | DropFile(path: Path)
    | PutJournal(journal: Journal)
    | DropJournal
    | StageBegin(path: Path)
    | StageEnd(path: Path, blob: Blob)
    | Install(path: Path)
    | Unstage(path: Path)

  function Do(d: Disk, e: Effect): Disk {
    match e
    case PutIndex(f) => d.(index := Some(f))
    case PutFile(p, b) => d.(files := d.files[p := Whole(b)])
    case DropFile(p) => d.(files := d.files - {p})
    case PutJournal(j) => d.(journal := Some(j))
    case DropJournal => d.(journal := None)
    case StageBegin(p) => d.(staged := d.staged[p := Torn])
    case StageEnd(p, b) => d.(staged := d.staged[p := Whole(b)])
    case Install(p) => if p in d.staged then d.(files := d.files[p := d.staged[p]], staged := d.staged - {p}) else d
    case Unstage(p) => d.(staged := d.staged - {p})
  }

  function DoAll(d: Disk, es: seq<Effect>): Disk
    decreases |es|
  {
    if es == [] then d else DoAll(Do(d, es[0]), es[1..])
  }

  function Read(d: Disk): Index { if d.index.Some? then d.index.value else EMPTY }

  function SecretPath(s: Source): Path
    requires HasSecret(s)
  {
    BlobFile(s.Seed?, SecretId(s))
  }

  // Decryption succeeds with the sealing password only.
  predicate Opens(files: map<Path, Content>, p: Path, password: Password) {
    p in files && files[p].Whole? && files[p].blob.sealedBy == password
  }

  // ----- Effects of the operations -----

  function Each(paths: seq<Path>, install: bool): seq<Effect> {
    if paths == [] then []
    else [if install then Install(paths[0]) else Unstage(paths[0])] + Each(paths[1..], install)
  }

  // recoverJournal: roll a committed journal forward, roll a staged one back.
  function RecoverEffects(d: Disk): seq<Effect> {
    if d.journal.None? then []
    else Each(d.journal.value.files, d.journal.value.state.Committed?) + [DropJournal]
  }

  function Recovered(d: Disk): Disk { DoAll(d, RecoverEffects(d)) }

  datatype Entry = Entry(path: Path, blob: Blob)

  function Paths(entries: seq<Entry>): seq<Path> {
    if entries == [] then [] else [entries[0].path] + Paths(entries[1..])
  }

  function StageEffects(entries: seq<Entry>): seq<Effect> {
    if entries == [] then []
    else [StageBegin(entries[0].path), StageEnd(entries[0].path, entries[0].blob)] + StageEffects(entries[1..])
  }

  // writeJsonJournaled: stage every file, commit with one journal write, then install.
  function JournaledEffects(entries: seq<Entry>): seq<Effect> {
    [PutJournal(Journal(Staged, Paths(entries)))] + StageEffects(entries)
    + [PutJournal(Journal(Committed, Paths(entries)))] + (Each(Paths(entries), true) + [DropJournal])
  }

  // Addresses as functions of plaintext secrets.
  type Chains = Scheme<string, string>

  // vault is the plaintext that a mnemonic and its passphrase encode to, None when BIP39 refuses the words.
  datatype Secret = Mnemonic(vault: Option<string>) | PrivateKeyText(text: string)

  // The plaintext to be sealed, or None when the secret is refused.
  function Plaintext(secret: Secret): Option<string> {
    match secret
    case Mnemonic(vault) => vault
    case PrivateKeyText(text) => ParseKey(text)
  }

  // draws are the random numbers behind new ids; random is what the verifier seals.
  datatype Command =
    | Import(
        secret: Secret, walletDraws: seq<Draw>, secretDraws: seq<Draw>,
        password: Password, policyOk: bool, random: string, name: Option<string>)
    | RegisterLedger(family: Family, path: string, address: string, draws: seq<Draw>, name: Option<string>)
    | RegisterWatch(family: Family, address: string, draws: seq<Draw>, name: Option<string>)
    | AddAccount(walletId: string, index: Option<nat>, password: Password, name: Option<string>)
    | Rename(ref: string, newName: string)
    | Activate(ref: string)
    | Delete(ref: string)
    | ChangePassword(oldPassword: Password, newPassword: Password, random: string)

  function Sealed(password: Password, plaintext: string, id: string): Blob { Blob(password, plaintext, id) }

  function VerifierBlob(password: Password, random: string): Blob { Sealed(password, random, "verifier") }

  function NewSource(chains: Chains, seed: bool, plaintext: string, secretId: string): Source {
    if seed then Seed(secretId, map[0 := SeedAddresses(chains, plaintext, 0)])
    else PrivateKey(secretId, chains.keyAddresses(plaintext))
  }

  // The wallet an import builds; None when the secret is refused or no free id was drawn.
  function ImportedWallet(chains: Chains, wallets: seq<Wallet>, op: Command): Option<Wallet>
    requires op.Import?
  {
    var walletId := FreshId("wlt", TakenIds(wallets), op.walletDraws);
    var secretId := FreshId(if op.secret.Mnemonic? then "vlt" else "key", TakenIds(wallets), op.secretDraws);
    var plaintext := Plaintext(op.secret);
    if walletId.None? || plaintext.None? || secretId.None? then None
    else Some(Wallet(walletId.value, NewSource(chains, op.secret.Mnemonic?, plaintext.value, secretId.value)))
  }

  // Once the wallet is registered: the verifier if there is none, the secret, the index that names it.
  function ImportWrites(d: Disk, op: Command, w: Wallet, after: Index): seq<Effect>
    requires op.Import? && Plaintext(op.secret).Some? && HasSecret(w.source)
  {
    var path := SecretPath(w.source);
    var secret := [PutFile(path, Sealed(op.password, Plaintext(op.secret).value, path.id)), PutIndex(after)];
    if VerifierFile in d.files then
      if Opens(d.files, VerifierFile, op.password) then secret else []
    else if op.policyOk then [PutFile(VerifierFile, VerifierBlob(op.password, op.random))] + secret
    else []
  }

  function ImportEffects(chains: Chains, d: Disk, op: Command): seq<Effect>
    requires op.Import?
  {
    var f := Read(d);
    var w := ImportedWallet(chains, f.wallets, op);
    if w.None? then []
    else
      var step := RegisterStep(chains.codec, f, w.value, op.name);
      if step.None? then []
      else if DuplicateOf(chains.codec, f.wallets, w.value.source).Some? then [PutIndex(step.value)]
      else ImportWrites(d, op, w.value, step.value)
  }

  // A watch account registered again needs no write.
  function RegisterEffects(chains: Chains, d: Disk, source: Source, draws: seq<Draw>, name: Option<string>)
    : seq<Effect>
  {
    var f := Read(d);
    var id := FreshId("wlt", TakenIds(f.wallets), draws);
    if id.None? then []
    else
      var w := Wallet(id.value, source);
      var step := RegisterStep(chains.codec, f, w, name);
      if step.None? || !RegisterResult(chains.codec, f, w).changed then [] else [PutIndex(step.value)]
  }

  // The vault opens with the password, and the verifier too if there is one.
  predicate VaultOpens(d: Disk, s: Source, password: Password)
    requires s.Seed?
  {
    (VerifierFile in d.files ==> Opens(d.files, VerifierFile, password)) && Opens(d.files, SecretPath(s), password)
  }

  // Hardened and plain path components are below 2^31.
  const PATH_LIMIT: nat := 0x8000_0000

  predicate AtCurrentPath(chains: Chains, seed: string, n: nat, addresses: ChainAddresses) {
    && n < PATH_LIMIT
    && var found := ResolveDerivation(chains, seed, Tron, n, addresses.tron);
       found.Some? && found.value.template == Current
  }

  // Account 0 has one path under both templates.
  predicate Derivable(chains: Chains, seed: string, addresses: map<nat, ChainAddresses>) {
    forall n :: n in addresses && n != 0 ==> AtCurrentPath(chains, seed, n, addresses[n])
  }

  predicate AccountMatches(chains: Chains, seed: string, n: nat, addresses: ChainAddresses) {
    && ResolveDerivation(chains, seed, Tron, n, addresses.tron).Some?
    && ResolveDerivation(chains, seed, Evm, n, addresses.evm).Some?
  }

  function RequestedIndex(op: Command, addresses: map<nat, ChainAddresses>): int
    requires op.AddAccount?
  {
    if op.index.Some? then op.index.value else NextAccountIndex(addresses)
  }

  // The addresses of a new slot, None for a stored one.
  function NewAddresses(chains: Chains, seed: string, n: nat, addresses: map<nat, ChainAddresses>)
    : Option<ChainAddresses>
  {
    if n in addresses then None else Some(SeedAddresses(chains, seed, n))
  }

  // The new slot has a path and the stored slots are on the current template, or the stored slot is the seed's.
  predicate MayAdd(chains: Chains, seed: string, n: int, addresses: map<nat, ChainAddresses>) {
    && 0 <= n < PATH_LIMIT
    && if n in addresses then AccountMatches(chains, seed, n, addresses[n]) else Derivable(chains, seed, addresses)
  }

  function AddAccountEffects(chains: Chains, d: Disk, op: Command): seq<Effect>
    requires op.AddAccount?
  {
    var f := Read(d);
    var at := Find(f.wallets, op.walletId);
    if at == |f.wallets| || !f.wallets[at].source.Seed? then []
    else
      var s := f.wallets[at].source;
      if !VaultOpens(d, s, op.password) then []
      else
        var seed, n := d.files[SecretPath(s)].blob.plaintext, RequestedIndex(op, s.addresses);
        if !MayAdd(chains, seed, n, s.addresses) then []
        else
          var step := SelectStep(f, at, n, NewAddresses(chains, seed, n, s.addresses), op.name);
          if step.None? then [] else [PutIndex(step.value)]
  }

  // Publish the index without the reference before deleting the secret it names.
  function DeleteEffects(d: Disk, ref: string): seq<Effect> {
    var f := Read(d);
    if RemoveStep(f, ref).Err? then []
    else
      var removed := RemovedWallet(f, ref);
      [PutIndex(RemoveStep(f, ref).value)] +
      (if removed.Some? && HasSecret(removed.value.source) then [DropFile(SecretPath(removed.value.source))] else [])
  }

  // The re-encrypted blobs of the software wallets; None when one is missing or does not open.
  function Resealed(wallets: seq<Wallet>, files: map<Path, Content>, op: Command): Option<seq<Entry>>
    requires op.ChangePassword?
  {
    if wallets == [] then Some([])
    else
      var rest := Resealed(wallets[1..], files, op);
      if !HasSecret(wallets[0].source) || rest.None? then rest
      else
        var path := SecretPath(wallets[0].source);
        if !Opens(files, path, op.oldPassword) then None
        else Some([Entry(path, Sealed(op.newPassword, files[path].blob.plaintext, path.id))] + rest.value)
  }

  function ChangePasswordEffects(d: Disk, op: Command): seq<Effect>
    requires op.ChangePassword?
  {
    var entries := Resealed(Read(d).wallets, d.files, op);
    if !Opens(d.files, VerifierFile, op.oldPassword) || entries.None? || entries.value == [] then []
    else JournaledEffects(entries.value + [Entry(VerifierFile, VerifierBlob(op.newPassword, op.random))])
  }

  // registerLedger and registerWatch refuse a malformed address before anything else.
  predicate RefusedAtOnce(chains: Chains, op: Command) {
    (op.RegisterLedger? || op.RegisterWatch?) && !IsAddress(chains.codec, op.family, op.address)
  }

  function OpEffects(chains: Chains, d: Disk, op: Command): seq<Effect> {
    match op
    case Import(_, _, _, _, _, _, _) => ImportEffects(chains, d, op)
    case RegisterLedger(family, path, address, draws, name) =>
      RegisterEffects(chains, d, Ledger(family, path, address), draws, name)
    case RegisterWatch(family, address, draws, name) => RegisterEffects(chains, d, Watch(family, address), draws, name)
    case AddAccount(_, _, _, _) => AddAccountEffects(chains, d, op)
    case Rename(ref, name) =>
      if LabelRefused(Read(d), ref, name) then [] else [PutIndex(Relabelled(Read(d), ref, name))]
    case Activate(ref) => [PutIndex(Read(d).(active := Some(ref)))]
    case Delete(ref) => DeleteEffects(d, ref)
    case ChangePassword(_, _, _) => ChangePasswordEffects(d, op)
  }

  // Every mutation first finishes an interrupted password change.
  function LockedEffects(chains: Chains, d: Disk, op: Command): seq<Effect> {
    if RefusedAtOnce(chains, op) then [] else RecoverEffects(d) + OpEffects(chains, Recovered(d), op)
  }

  /**
   * The keystore over its files. `log` records the effects in the order they were made, starting
   * from `origin`; a crash leaves the disk at some prefix of it.
   */
  class Keystore {
    var disk: Disk
    ghost const origin: Disk
    ghost var log: seq<Effect>

    ghost predicate Valid()
      reads this
    {
      disk == DoAll(origin, log)
    }

    constructor (disk: Disk)
      ensures Valid() && this.disk == disk && log == []
    {
      this.disk := disk;
      origin := disk;
      log := [];
    }

    method Write(e: Effect)
      requires Valid()
      modifies this
      ensures Valid() && disk == Do(old(disk), e) && log == old(log) + [e]
    {
      DoSnoc(origin, log, e);
      disk := Do(disk, e);
      log := log + [e];
    }

    method RecoverJournal()
      requires Valid()
      modifies this
      ensures Valid() && disk == Recovered(old(disk)) && log == old(log) + RecoverEffects(old(disk))
    {
      if disk.journal.None? { return; }
      var journal := disk.journal.value;
      var i := 0;
      var install := journal.state.Committed?;
      ghost var all := Each(journal.files, install);
      EachLength(journal.files, install);
      while i < |journal.files|
        invariant 0 <= i <= |journal.files| == |all|
        invariant Valid() && log == old(log) + all[..i]
      {
        EachAt(journal.files, install, i);
        assert all[..i + 1] == all[..i] + [all[i]];
        if install {
          Write(Install(journal.files[i]));
        } else {
          Write(Unstage(journal.files[i]));
        }
        i := i + 1;
      }
      assert all[..i] == all;
      Write(DropJournal);
      assert log == old(log) + RecoverEffects(old(disk));
      DoAppend(origin, old(log), RecoverEffects(old(disk)));
    }

    method Import(chains: Chains, op: Command)
      requires Valid() && op.Import?
      modifies this
      ensures Valid() && log == old(log) + LockedEffects(chains, old(disk), op)
    {
      hide DoAll, Valid, Do, RegisterStep, DuplicateOf, Opens, RecoverEffects, Recovered, FreshId, TakenIds,
           SecretPath, SeedAddresses;
      RecoverJournal();
      var f := Read(disk);
      var walletId := DrawFreshId("wlt", f.wallets, op.walletDraws);
      var plaintext := Plaintext(op.secret);
      if walletId.None? || plaintext.None? { return; }
      var secretId := DrawFreshId(if op.secret.Mnemonic? then "vlt" else "key", f.wallets, op.secretDraws);
      if secretId.None? { return; }
      var w := Wallet(walletId.value, NewSource(chains, op.secret.Mnemonic?, plaintext.value, secretId.value));
      var step := RegisterStep(chains.codec, f, w, op.name);
      if step.None? { return; }
      if DuplicateOf(chains.codec, f.wallets, w.source).Some? {
        Write(PutIndex(step.value));
        return;
      }
      WriteSecret(op, w, step.value);
    }

    method WriteSecret(op: Command, w: Wallet, after: Index)
      requires Valid() && op.Import? && Plaintext(op.secret).Some? && HasSecret(w.source)
      modifies this
      ensures Valid() && log == old(log) + ImportWrites(old(disk), op, w, after)
    {
      hide DoAll, Valid, Do, Opens;
      if VerifierFile in disk.files {
        if !Opens(disk.files, VerifierFile, op.password) { return; }
      } else {
        if !op.policyOk { return; }
        Write(PutFile(VerifierFile, VerifierBlob(op.password, op.random)));
      }
      var path := SecretPath(w.source);
      Write(PutFile(path, Sealed(op.password, Plaintext(op.secret).value, path.id)));
      Write(PutIndex(after));
    }

    method Register(chains: Chains, op: Command)
      requires Valid() && (op.RegisterLedger? || op.RegisterWatch?)
      modifies this
      ensures Valid() && log == old(log) + LockedEffects(chains, old(disk), op)
    {
      hide DoAll, Valid, Do, RegisterStep, DuplicateOf, RecoverEffects, Recovered, FreshId, TakenIds;
      if !IsAddress(chains.codec, op.family, op.address) { return; }
      RecoverJournal();
      var f := Read(disk);
      var id := DrawFreshId("wlt", f.wallets, op.draws);
      if id.None? { return; }
      var w := Wallet(id.value, if op.RegisterLedger? then Ledger(op.family, op.path, op.address)
                                else Watch(op.family, op.address));
      var step := RegisterStep(chains.codec, f, w, op.name);
      if step.None? || !RegisterResult(chains.codec, f, w).changed { return; }
      Write(PutIndex(step.value));
    }

    method AddAccount(chains: Chains, op: Command)
      requires Valid() && op.AddAccount?
      modifies this
      ensures Valid() && log == old(log) + LockedEffects(chains, old(disk), op)
    {
      hide DoAll, Valid, Do, RecoverEffects, Recovered, SelectStep, Derivable, AccountMatches, VaultOpens,
           NextAccountIndex;
      RecoverJournal();
      var f := Read(disk);
      var at := Find(f.wallets, op.walletId);
      if at == |f.wallets| || !f.wallets[at].source.Seed? { return; }
      var s := f.wallets[at].source;
      if !VaultOpens(disk, s, op.password) { return; }
      VaultIsWhole(disk, s, op.password);
      var seed, n := disk.files[SecretPath(s)].blob.plaintext, RequestedIndex(op, s.addresses);
      if n < 0 || PATH_LIMIT <= n { return; }
      var ok;
      if n in s.addresses {
        ok := CheckAccount(chains, seed, n, s.addresses[n]);
      } else {
        ok := CheckDerivable(chains, seed, s.addresses);
      }
      if !ok { return; }
      var step := SelectStep(f, at, n, NewAddresses(chains, seed, n, s.addresses), op.name);
      if step.None? { return; }
      Write(PutIndex(step.value));
    }

    method Rename(chains: Chains, ref: string, name: string)
      requires Valid()
      modifies this
      ensures Valid() && log == old(log) + LockedEffects(chains, old(disk), Command.Rename(ref, name))
    {
      RecoverJournal();
      if LabelRefused(Read(disk), ref, name) { return; }
      Write(PutIndex(Relabelled(Read(disk), ref, name)));
    }

    method SetActive(chains: Chains, ref: string)
      requires Valid()
      modifies this
      ensures Valid() && log == old(log) + LockedEffects(chains, old(disk), Command.Activate(ref))
    {
      RecoverJournal();
      Write(PutIndex(Read(disk).(active := Some(ref))));
    }

    method Delete(chains: Chains, ref: string)
      requires Valid()
      modifies this
      ensures Valid() && log == old(log) + LockedEffects(chains, old(disk), Command.Delete(ref))
    {
      hide DoAll, Valid, Do, RecoverEffects, Recovered, NamesSlot, WithoutSlots, RemoveSlotStep, RemoveWalletStep;
      RecoverJournal();
      var f := Read(disk);
      var step := RemoveStep(f, ref);
      if step.Err? { return; }
      var removed := RemovedWallet(f, ref);
      Write(PutIndex(step.value));
      if removed.Some? && HasSecret(removed.value.source) {
        Write(DropFile(SecretPath(removed.value.source)));
      }
    }

    method StageAll(entries: seq<Entry>)
      requires Valid()
      modifies this
      ensures Valid() && log == old(log) + StageEffects(entries)
    {
      hide DoAll, Valid;
      ghost var begun := log;
      var i := 0;
      while i < |entries|
        invariant 0 <= i <= |entries| && Valid()
        invariant log + StageEffects(entries[i..]) == begun + StageEffects(entries)
      {
        assert entries[i..][1..] == entries[i + 1..];
        Write(StageBegin(entries[i].path));
        Write(StageEnd(entries[i].path, entries[i].blob));
        i := i + 1;
      }
      assert entries[i..] == [];
    }

    method WriteJournaled(entries: seq<Entry>)
      requires Valid()
      modifies this
      ensures Valid() && log == old(log) + JournaledEffects(entries)
    {
      hide DoAll, Valid, StageEffects, Each, Paths;
      var paths := Paths(entries);
      Write(PutJournal(Journal(Staged, paths)));
      StageAll(entries);
      Write(PutJournal(Journal(Committed, paths)));
      RecoverJournal();
      ghost var stage, install := StageEffects(entries), Each(paths, true) + [DropJournal];
      assert log == old(log) + [PutJournal(Journal(Staged, paths))] + stage
                    + [PutJournal(Journal(Committed, paths))] + install;
    }

    method ChangePassword(chains: Chains, op: Command)
      requires Valid() && op.ChangePassword?
      modifies this
      ensures Valid() && log == old(log) + LockedEffects(chains, old(disk), op)
    {
      hide DoAll, Valid, Do, RecoverEffects, Recovered, Resealed, JournaledEffects;
      RecoverJournal();
      if !Opens(disk.files, VerifierFile, op.oldPassword) { return; }
      var entries := Reseal(Read(disk).wallets, op);
      if entries.None? || entries.value == [] { return; }
      WriteJournaled(entries.value + [Entry(VerifierFile, VerifierBlob(op.newPassword, op.random))]);
    }

    method Reseal(wallets: seq<Wallet>, op: Command) returns (resealed: Option<seq<Entry>>)
      requires op.ChangePassword?
      ensures resealed == Resealed(wallets, disk.files, op)
    {
      var entries: seq<Entry> := [];
      var i := 0;
      assert wallets[0..] == wallets;
      PrependNothing(Resealed(wallets, disk.files, op));
      while i < |wallets|
        invariant 0 <= i <= |wallets|
        invariant Resealed(wallets, disk.files, op) == Prepend(entries, Resealed(wallets[i..], disk.files, op))
      {
        var s := wallets[i].source;
        assert wallets[i..][1..] == wallets[i + 1..];
        if HasSecret(s) {
          var path := SecretPath(s);
          if !Opens(disk.files, path, op.oldPassword) { return None; }
          var entry := Entry(path, Sealed(op.newPassword, disk.files[path].blob.plaintext, path.id));
          PrependTwice(entries, entry, Resealed(wallets[i + 1..], disk.files, op));
          entries := entries + [entry];
        }
        i := i + 1;
      }
      assert entries + [] == entries;
      resealed := Some(entries);
    }
  }

  // ----- Checks of the stored addresses against the seed -----

  lemma VaultIsWhole(d: Disk, s: Source, password: Password)
    requires s.Seed? && VaultOpens(d, s, password)
    ensures SecretPath(s) in d.files && d.files[SecretPath(s)].Whole?
  {
  }

  // No new account while a stored one is on the legacy template or on none.
  method CheckDerivable(chains: Chains, seed: string, addresses: map<nat, ChainAddresses>) returns (ok: bool)
    ensures ok <==> Derivable(chains, seed, addresses)
  {
    hide ResolveDerivation;
    var left := addresses.Keys;
    while left != {}
      invariant left <= addresses.Keys
      invariant forall n :: n in addresses && n != 0 && n !in left ==> AtCurrentPath(chains, seed, n, addresses[n])
      decreases |left|
    {
      var n :| n in left;
      left := left - {n};
      if n != 0 {
        if n >= PATH_LIMIT { return false; }
        var found := FindDerivation(chains, seed, Tron, n, addresses[n].tron);
        if found.None? || found.value.template == Legacy { return false; }
      }
    }
    ok := true;
  }

  // Either template is accepted for a stored account.
  method CheckAccount(chains: Chains, seed: string, n: nat, addresses: ChainAddresses) returns (ok: bool)
    ensures ok <==> AccountMatches(chains, seed, n, addresses)
  {
    hide ResolveDerivation;
    var found := FindDerivation(chains, seed, Tron, n, addresses.tron);
    if found.None? { return false; }
    found := FindDerivation(chains, seed, Evm, n, addresses.evm);
    ok := found.Some?;
  }

  // ----- Lists of effects -----

  lemma {:induction false} DoAppend(d: Disk, a: seq<Effect>, b: seq<Effect>)
    ensures DoAll(d, a + b) == DoAll(DoAll(d, a), b)
    decreases |a|
  {
    if a == [] {
      assert a + b == b;
    } else {
      DoAppend(Do(d, a[0]), a[1..], b);
      assert (a + b)[1..] == a[1..] + b;
    }
  }

  lemma DoSnoc(d: Disk, a: seq<Effect>, e: Effect)
    ensures DoAll(d, a + [e]) == Do(DoAll(d, a), e)
  {
    DoAppend(d, a, [e]);
    assert DoAll(DoAll(d, a), [e]) == DoAll(Do(DoAll(d, a), e), [e][1..]);
  }

  lemma {:induction false} EachLength(paths: seq<Path>, install: bool)
    ensures |Each(paths, install)| == |paths|
  {
    if paths != [] {
      EachLength(paths[1..], install);
    }
  }

  lemma {:induction false} EachAt(paths: seq<Path>, install: bool, i: nat)
    requires i < |paths| == |Each(paths, install)|
    ensures Each(paths, install)[i] == if install then Install(paths[i]) else Unstage(paths[i])
  {
    if 0 < i {
      EachLength(paths[1..], install);
      EachAt(paths[1..], install, i - 1);
    }
  }

  function Prepend(entries: seq<Entry>, rest: Option<seq<Entry>>): Option<seq<Entry>> {
    if rest.None? then None else Some(entries + rest.value)
  }

  lemma PrependNothing(rest: Option<seq<Entry>>)
    ensures Prepend([], rest) == rest
  {
    if rest.Some? {
      assert [] + rest.value == rest.value;
    }
  }

  lemma PrependTwice(entries: seq<Entry>, entry: Entry, rest: Option<seq<Entry>>)
    ensures Prepend(entries, Prepend([entry], rest)) == Prepend(entries + [entry], rest)
  {
    if rest.Some? {
      assert entries + ([entry] + rest.value) == entries + [entry] + rest.value;
    }
  }
}
