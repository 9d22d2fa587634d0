/**
 * What the keystore's files keep at every crash point of one command. `truth` records the plaintext that
 * was stored under each secret file.
 */
module KeystoreSafety {
  import opened Addresses
  import opened Wrappers
  import opened Text
  import opened WalletIndex
  import opened WalletIndexRuns
  import opened FreshIds
  import opened WalletsV2
  import opened Keystore
  import WalletsFileParser

  type Truth = map<Path, string>

  // What a source must have to do with its secret.
  type Fit = (Source, string) -> bool

  // The files as recovery will leave them: a committed journal already counts as installed.
  function View(d: Disk): map<Path, Content> {
    if d.journal.Some? && d.journal.value.state.Committed? then
      d.files + (map p | p in d.staged && p in d.journal.value.files :: d.staged[p])
    else d.files
  }

  ghost predicate JournalOk(d: Disk) {
    d.journal.Some? ==>
      forall p :: p in d.journal.value.files ==>
        && p in d.files && d.files[p].Whole?
        && (d.journal.value.state.Committed? && p in d.staged ==> d.staged[p].Whole?)
  }

  // The wallet's secret file opens with the verifier's password and holds the stored plaintext.
  ghost predicate SecretGood(fit: Fit, s: Source, view: map<Path, Content>, truth: Truth)
    requires HasSecret(s)
  {
    var p := SecretPath(s);
    && VerifierFile in view && view[VerifierFile].Whole?
    && Opens(view, p, view[VerifierFile].blob.sealedBy)
    && p in truth && view[p].blob.plaintext == truth[p] && fit(s, truth[p])
  }

  ghost predicate GoodView(fit: Fit, wallets: seq<Wallet>, view: map<Path, Content>, truth: Truth) {
    && (VerifierFile in view ==> view[VerifierFile].Whole?)
    && forall w :: w in wallets && HasSecret(w.source) ==> SecretGood(fit, w.source, view, truth)
  }

  ghost predicate Safe(fit: Fit, d: Disk, truth: Truth) {
    JournalOk(d) && GoodView(fit, Read(d).wallets, View(d), truth)
  }

  function TruthStep(truth: Truth, e: Effect): Truth {
    if e.PutFile? && e.path.BlobFile? then truth[e.path := e.blob.plaintext] else truth
  }

  function TruthAll(truth: Truth, es: seq<Effect>): Truth
    decreases |es|
  {
    if es == [] then truth else TruthAll(TruthStep(truth, es[0]), es[1..])
  }

  // Safe before, between and after the effects.
  ghost predicate SafeAll(fit: Fit, d: Disk, truth: Truth, es: seq<Effect>)
    decreases |es|
  {
    Safe(fit, d, truth) && (es == [] || SafeAll(fit, Do(d, es[0]), TruthStep(truth, es[0]), es[1..]))
  }

  lemma {:induction false} SafePrefix(fit: Fit, d: Disk, truth: Truth, es: seq<Effect>, cut: nat)
    requires SafeAll(fit, d, truth, es) && cut <= |es|
    ensures Safe(fit, DoAll(d, es[..cut]), TruthAll(truth, es[..cut]))
    decreases |es|
  {
    hide Safe, Do;
    if 0 < cut {
      SafePrefix(fit, Do(d, es[0]), TruthStep(truth, es[0]), es[1..], cut - 1);
      assert es[..cut][1..] == es[1..][..cut - 1];
    }
  }

  lemma {:induction false} SafeAppend(fit: Fit, d: Disk, truth: Truth, a: seq<Effect>, b: seq<Effect>)
    requires SafeAll(fit, d, truth, a)
    requires SafeAll(fit, DoAll(d, a), TruthAll(truth, a), b)
    ensures SafeAll(fit, d, truth, a + b)
    decreases |a|
  {
    hide Safe, Do;
    if a == [] {
      assert a + b == b;
    } else {
      SafeAppend(fit, Do(d, a[0]), TruthStep(truth, a[0]), a[1..], b);
      assert (a + b)[1..] == a[1..] + b;
    }
  }

  lemma SafeOne(fit: Fit, d: Disk, truth: Truth, e: Effect)
    requires Safe(fit, d, truth) && Safe(fit, Do(d, e), TruthStep(truth, e))
    ensures SafeAll(fit, d, truth, [e])
  {
    hide Safe, Do, TruthStep;
    assert [e][1..] == [];
    assert SafeAll(fit, Do(d, e), TruthStep(truth, e), []);
  }

  // ----- Recovery -----

  // The effects that finish a journaled write leave the view alone.
  lemma RecoveryStep(fit: Fit, d: Disk, truth: Truth, p: Path)
    requires Safe(fit, d, truth) && d.journal.Some? && p in d.journal.value.files
    ensures var install := d.journal.value.state.Committed?;
            var after := Do(d, if install then Install(p) else Unstage(p));
            && Safe(fit, after, truth) && View(after) == View(d)
            && after.journal == d.journal && after.index == d.index && after.staged == d.staged - {p}
  {
    hide GoodView;
    var after := Do(d, if d.journal.value.state.Committed? then Install(p) else Unstage(p));
    assert after.staged == d.staged - {p};
    assert View(after) == View(d);
  }

  lemma DroppedJournal(fit: Fit, d: Disk, truth: Truth)
    requires Safe(fit, d, truth) && d.journal.Some?
    requires forall p :: p in d.journal.value.files ==> p !in d.staged
    ensures SafeAll(fit, d, truth, [DropJournal]) && TruthAll(truth, [DropJournal]) == truth
    ensures var r := DoAll(d, [DropJournal]);
            r.journal.None? && r.index == d.index && r.files == View(d)
  {
    hide GoodView;
    var after := Do(d, DropJournal);
    assert View(after) == View(d);
    SafeOne(fit, d, truth, DropJournal);
    assert DoAll(d, [DropJournal]) == DoAll(after, [DropJournal][1..]);
  }

  lemma {:induction false} RecoveryIsSafe(fit: Fit, d: Disk, truth: Truth, paths: seq<Path>)
    requires Safe(fit, d, truth) && d.journal.Some?
    requires forall p :: p in paths ==> p in d.journal.value.files
    requires forall p :: p in d.journal.value.files && p in d.staged ==> p in paths
    ensures var es := Each(paths, d.journal.value.state.Committed?) + [DropJournal];
            && SafeAll(fit, d, truth, es) && TruthAll(truth, es) == truth
            && var r := DoAll(d, es);
               r.journal.None? && r.index == d.index && r.files == View(d)
    decreases |paths|
  {
    hide Safe, View;
    var install := d.journal.value.state.Committed?;
    if paths == [] {
      assert Each(paths, install) + [DropJournal] == [DropJournal];
      DroppedJournal(fit, d, truth);
    } else {
      RecoveryStep(fit, d, truth, paths[0]);
      var e := if install then Install(paths[0]) else Unstage(paths[0]);
      var after := Do(d, e);
      RecoveryIsSafe(fit, after, truth, paths[1..]);
      var es := Each(paths, install) + [DropJournal];
      assert es[1..] == Each(paths[1..], install) + [DropJournal];
    }
  }

  lemma RecoverySafe(fit: Fit, d: Disk, truth: Truth)
    requires Safe(fit, d, truth)
    ensures SafeAll(fit, d, truth, RecoverEffects(d)) && TruthAll(truth, RecoverEffects(d)) == truth
    ensures var r := Recovered(d);
            Safe(fit, r, truth) && r.journal.None? && r.index == d.index && r.files == View(d)
  {
    if d.journal.None? {
      assert SafeAll(fit, d, truth, []);
    } else {
      RecoveryIsSafe(fit, d, truth, d.journal.value.files);
      SafePrefix(fit, d, truth, RecoverEffects(d), |RecoverEffects(d)|);
      assert RecoverEffects(d)[..|RecoverEffects(d)|] == RecoverEffects(d);
    }
  }

  // ----- The index -----

  // The stored addresses are those of the secret, in any spelling: `current` asks for the exact addresses of
  // the current paths, as this version makes them; an upgraded wallet may keep a TRON address of a legacy path.
  predicate DerivedFrom(chains: Chains, current: bool, s: Source, plaintext: string)
    requires HasSecret(s)
  {
    match s
    case Seed(_, addresses) =>
      forall n :: n in addresses ==>
        if current then n < PATH_LIMIT && addresses[n] == SeedAddresses(chains, plaintext, n)
        else AccountMatches(chains, plaintext, n, addresses[n])
    case PrivateKey(_, addresses) =>
      if current then addresses == chains.keyAddresses(plaintext)
      else SameAccounts(chains.codec, addresses, chains.keyAddresses(plaintext))
  }

  predicate SameAccounts(codec: Codec, a: ChainAddresses, b: ChainAddresses) {
    Canonical(codec, Tron, a.tron) == Canonical(codec, Tron, b.tron)
    && Canonical(codec, Evm, a.evm) == Canonical(codec, Evm, b.evm)
  }

  function OwnAddresses(chains: Chains, current: bool): Fit {
    (s, plaintext) => HasSecret(s) ==> DerivedFrom(chains, current, s, plaintext)
  }

  predicate SameSecretFile(x: Wallet, w: Wallet) {
    HasSecret(x.source) && HasSecret(w.source) && SecretPath(x.source) == SecretPath(w.source)
  }

  // The same secret file, and no account that x does not have.
  predicate Within(w: Wallet, x: Wallet) {
    && SameSecretFile(x, w)
    && if w.source.Seed? then w.source.addresses.Items <= x.source.addresses.Items
       else w.source.keyAddresses == x.source.keyAddresses
  }

  // Every software wallet of the new list is one of the old list, perhaps with fewer accounts.
  ghost predicate SecretsFrom(before: seq<Wallet>, after: seq<Wallet>) {
    forall w :: w in after && HasSecret(w.source) ==> exists x :: x in before && Within(w, x)
  }

  lemma FewerAccountsFit(chains: Chains, current: bool, w: Wallet, x: Wallet, plaintext: string)
    requires Within(w, x) && OwnAddresses(chains, current)(x.source, plaintext)
    ensures OwnAddresses(chains, current)(w.source, plaintext)
  {
    if w.source.Seed? {
      forall n | n in w.source.addresses
        ensures n in x.source.addresses && w.source.addresses[n] == x.source.addresses[n]
      {
        assert (n, w.source.addresses[n]) in w.source.addresses.Items;
      }
    }
  }

  lemma RemainingSecretsAreGood(
    chains: Chains, current: bool, before: seq<Wallet>, after: seq<Wallet>, view: map<Path, Content>, truth: Truth)
    requires GoodView(OwnAddresses(chains, current), before, view, truth) && SecretsFrom(before, after)
    ensures GoodView(OwnAddresses(chains, current), after, view, truth)
  {
    hide OwnAddresses;
    forall w | w in after && HasSecret(w.source)
      ensures SecretGood(OwnAddresses(chains, current), w.source, view, truth)
    {
      var x :| x in before && Within(w, x);
      assert SecretGood(OwnAddresses(chains, current), x.source, view, truth);
      FewerAccountsFit(chains, current, w, x, truth[SecretPath(x.source)]);
    }
  }

  lemma PutIndexSafe(fit: Fit, d: Disk, truth: Truth, f: Index)
    requires Safe(fit, d, truth) && d.journal.None? && GoodView(fit, f.wallets, d.files, truth)
    ensures Safe(fit, Do(d, PutIndex(f)), truth) && SafeAll(fit, d, truth, [PutIndex(f)])
  {
    hide GoodView;
    SafeOne(fit, d, truth, PutIndex(f));
  }

  lemma OwnAccountIsCurrent(chains: Chains, seed: string, n: nat)
    ensures n < PATH_LIMIT ==> AtCurrentPath(chains, seed, n, SeedAddresses(chains, seed, n))
    ensures AccountMatches(chains, seed, n, SeedAddresses(chains, seed, n))
  {
    hide CurrentPath, LegacyPaths;
  }

  // New addresses are those of the secret, by either reading.
  lemma NewSourceFits(chains: Chains, current: bool, seed: bool, plaintext: string, secretId: string)
    ensures OwnAddresses(chains, current)(NewSource(chains, seed, plaintext, secretId), plaintext)
  {
    hide AccountMatches, SeedAddresses;
    OwnAccountIsCurrent(chains, plaintext, 0);
  }

  lemma NewSlotFits(chains: Chains, current: bool, s: Source, n: nat, seed: string)
    requires s.Seed? && n < PATH_LIMIT && OwnAddresses(chains, current)(s, seed)
    ensures OwnAddresses(chains, current)(s.(addresses := s.addresses[n := SeedAddresses(chains, seed, n)]), seed)
  {
    hide AccountMatches, SeedAddresses, ValidAddresses;
    OwnAccountIsCurrent(chains, seed, n);
    assert DerivedFrom(chains, current, s, seed);
    var addresses := s.addresses[n := SeedAddresses(chains, seed, n)];
    forall m | m in addresses
      ensures current ==> m < PATH_LIMIT && addresses[m] == SeedAddresses(chains, seed, m)
      ensures !current ==> AccountMatches(chains, seed, m, addresses[m])
    {
      assert m == n || (m in s.addresses && addresses[m] == s.addresses[m]);
    }
    assert DerivedFrom(chains, current, s.(addresses := addresses), seed);
  }

  lemma NewSlotIsGood(
    chains: Chains, current: bool, f: Index, at: nat, n: nat, seed: string, view: map<Path, Content>, truth: Truth)
    requires GoodView(OwnAddresses(chains, current), f.wallets, view, truth)
    requires at < |f.wallets| && f.wallets[at].source.Seed? && n < PATH_LIMIT
    requires var p := SecretPath(f.wallets[at].source); p in view && view[p].Whole? && view[p].blob.plaintext == seed
    ensures var stored := WithSlot(f, at, n, SeedAddresses(chains, seed, n));
            GoodView(OwnAddresses(chains, current), stored.wallets, view, truth)
  {
    hide SeedAddresses, OwnAddresses;
    var wallets := WithSlot(f, at, n, SeedAddresses(chains, seed, n)).wallets;
    assert f.wallets[at] in f.wallets && SecretGood(OwnAddresses(chains, current), f.wallets[at].source, view, truth);
    NewSlotFits(chains, current, f.wallets[at].source, n, seed);
    forall w | w in wallets && HasSecret(w.source)
      ensures SecretGood(OwnAddresses(chains, current), w.source, view, truth)
    {
      var i :| 0 <= i < |wallets| && wallets[i] == w;
      if i != at {
        assert w in f.wallets;
      }
    }
  }

  lemma SelectWallets(f: Index, at: nat, n: nat, derived: Option<ChainAddresses>, name: Option<string>)
    requires at < |f.wallets| && f.wallets[at].source.Seed? && SelectStep(f, at, n, derived, name).Some?
    ensures SelectStep(f, at, n, derived, name).value.wallets ==
            if derived.Some? then WithSlot(f, at, n, derived.value).wallets else f.wallets
  {
    hide WithSlot, LabelRefused, SlotLabel, RelabelsStored, WalletLabel;
  }

  // Removal keeps the other wallets, and a smaller version of the named one unless that is removed.
  lemma RemainingWallets(f: Index, ref: string, x: Wallet)
    requires RemoveStep(f, ref).Ok?
    ensures var w := f.wallets[Find(f.wallets, WalletOf(ref))];
            && w in f.wallets && w.id == WalletOf(ref)
            && (RemovedWallet(f, ref).Some? ==>
                  && SameSecretFile(RemovedWallet(f, ref).value, w)
                  && (x in RemoveStep(f, ref).value.wallets <==> x in f.wallets && x.id != w.id))
            && (RemovedWallet(f, ref).None? && x in RemoveStep(f, ref).value.wallets && HasSecret(x.source) ==>
                  x in f.wallets || Within(x, w))
  {
    hide OtherWallets, OtherLabels, FirstAccount, ActiveIn, WalletOf, SlotText, HasSlot, IsInherited;
    var at := Find(f.wallets, WalletOf(ref));
    var w := f.wallets[at];
    if NamesSlot(f, ref) {
      var smaller := w.(source := w.source.(addresses := WithoutSlots(w.source.addresses, SlotText(ref).value)));
      OtherWalletsEffect(f.wallets[at := smaller], w.id);
      ReplacedWallet(f.wallets, at, smaller, x);
    } else {
      OtherWalletsEffect(f.wallets, WalletOf(ref));
    }
  }

  lemma ReplacedWallet(wallets: seq<Wallet>, at: nat, w: Wallet, x: Wallet)
    requires at < |wallets| && w.id == wallets[at].id
    ensures x in wallets[at := w] ==> x == w || x in wallets
    ensures x.id != w.id ==> (x in wallets[at := w] <==> x in wallets)
  {
    if x in wallets && x.id != w.id {
      var i :| 0 <= i < |wallets| && wallets[i] == x;
      assert wallets[at := w][i] == x;
    }
  }

  lemma RemovalSecrets(f: Index, ref: string)
    requires RemoveStep(f, ref).Ok?
    ensures SecretsFrom(f.wallets, RemoveStep(f, ref).value.wallets)
  {
    hide RemoveStep, WalletOf, RemovedWallet;
    var after := RemoveStep(f, ref).value.wallets;
    forall x | x in after && HasSecret(x.source)
      ensures exists y :: y in f.wallets && Within(x, y)
    {
      RemainingWallets(f, ref, x);
      assert Within(x, x);
    }
  }

  // ----- Operations -----

  // Writing a secret no indexed wallet names: its path is new to the index.
  lemma PutSecretSafe(fit: Fit, d: Disk, truth: Truth, p: Path, blob: Blob)
    requires Safe(fit, d, truth) && d.journal.None? && p.BlobFile?
    requires forall w :: w in Read(d).wallets && HasSecret(w.source) ==> SecretPath(w.source) != p
    ensures Safe(fit, Do(d, PutFile(p, blob)), TruthStep(truth, PutFile(p, blob)))
  {
    forall w | w in Read(d).wallets && HasSecret(w.source)
      ensures SecretGood(fit, w.source, d.files[p := Whole(blob)], truth[p := blob.plaintext])
    {
      assert SecretGood(fit, w.source, d.files, truth);
    }
  }

  // The verifier is only created while there is none, and then there is no software wallet.
  lemma PutVerifierSafe(fit: Fit, d: Disk, truth: Truth, blob: Blob)
    requires Safe(fit, d, truth) && d.journal.None? && VerifierFile !in d.files
    ensures Safe(fit, Do(d, PutFile(VerifierFile, blob)), truth)
    ensures forall w :: w in Read(d).wallets ==> !HasSecret(w.source)
  {
    assert forall w :: w in Read(d).wallets && HasSecret(w.source) ==> SecretGood(fit, w.source, d.files, truth);
  }

  // The ids an import draws are free, so its secret file belongs to no indexed wallet.
  lemma ImportedSecretIsNew(chains: Chains, wallets: seq<Wallet>, op: Command)
    requires op.Import? && ImportedWallet(chains, wallets, op).Some?
    ensures var w := ImportedWallet(chains, wallets, op).value;
            && IsWalletId(w.id) && HasSecret(w.source) && IsBlobId(SecretId(w.source))
            && forall x :: x in wallets ==>
                 && x.id != w.id
                 && (HasSecret(x.source) ==>
                       SecretId(x.source) != SecretId(w.source) && SecretPath(x.source) != SecretPath(w.source))
  {
    hide FreshId, TakenIds, IsBlobId, IsWalletId;
    FreshIdIsFree("wlt", wallets, op.walletDraws);
    FreshIdIsFree(if op.secret.Mnemonic? then "vlt" else "key", wallets, op.secretDraws);
  }

  // The last two effects of a successful import, once the verifier accepts the password.
  lemma ImportEndsSafe(chains: Chains, current: bool, d: Disk, truth: Truth, op: Command, w: Wallet, after: Index)
    requires Safe(OwnAddresses(chains, current), d, truth) && d.journal.None? && op.Import?
    requires Opens(d.files, VerifierFile, op.password)
    requires ImportedWallet(chains, Read(d).wallets, op) == Some(w) && after.wallets == Read(d).wallets + [w]
    ensures var path := SecretPath(w.source);
            SafeAll(OwnAddresses(chains, current), d, truth,
                    [PutFile(path, Sealed(op.password, Plaintext(op.secret).value, path.id)), PutIndex(after)])
  {
    hide Safe, SafeAll, Opens, FreshId, TakenIds, SeedAddresses, OwnAddresses, GoodView;
    ImportedSecretIsNew(chains, Read(d).wallets, op);
    var path := SecretPath(w.source);
    var put := PutFile(path, Sealed(op.password, Plaintext(op.secret).value, path.id));
    PutSecretSafe(OwnAddresses(chains, current), d, truth, path, put.blob);
    NewWalletIsGood(chains, current, d, truth, op, w);
    PutIndexSafe(OwnAddresses(chains, current), Do(d, put), TruthStep(truth, put), after);
    TwoSteps(OwnAddresses(chains, current), d, truth, put, PutIndex(after));
  }

  lemma TwoSteps(fit: Fit, d: Disk, truth: Truth, first: Effect, second: Effect)
    requires Safe(fit, d, truth) && SafeAll(fit, Do(d, first), TruthStep(truth, first), [second])
    ensures SafeAll(fit, d, truth, [first, second])
  {
    hide Safe, Do, TruthStep;
    assert [first, second][1..] == [second];
  }

  // After the new secret is written, the index that names it may be.
  lemma NewWalletIsGood(chains: Chains, current: bool, d: Disk, truth: Truth, op: Command, w: Wallet)
    requires op.Import? && ImportedWallet(chains, Read(d).wallets, op) == Some(w)
    requires Opens(d.files, VerifierFile, op.password) && d.journal.None?
    requires var path := SecretPath(w.source);
             var put := PutFile(path, Sealed(op.password, Plaintext(op.secret).value, path.id));
             Safe(OwnAddresses(chains, current), Do(d, put), TruthStep(truth, put))
    ensures var path := SecretPath(w.source);
            var put := PutFile(path, Sealed(op.password, Plaintext(op.secret).value, path.id));
            GoodView(OwnAddresses(chains, current), Read(d).wallets + [w], Do(d, put).files, TruthStep(truth, put))
  {
    hide FreshId, TakenIds, SeedAddresses, OwnAddresses;
    NewSourceFits(chains, current, op.secret.Mnemonic?, Plaintext(op.secret).value, SecretId(w.source));
    var path := SecretPath(w.source);
    var put := PutFile(path, Sealed(op.password, Plaintext(op.secret).value, path.id));
    var d1, truth1 := Do(d, put), TruthStep(truth, put);
    forall x | x in Read(d).wallets + [w] && HasSecret(x.source)
      ensures SecretGood(OwnAddresses(chains, current), x.source, d1.files, truth1)
    {
      if x in Read(d).wallets {
        assert SecretGood(OwnAddresses(chains, current), x.source, View(d1), truth1);
      }
    }
  }

  lemma DuplicateKeepsWallets(codec: Codec, f: Index, w: Wallet, name: Option<string>)
    requires RegisterStep(codec, f, w, name).Some? && DuplicateOf(codec, f.wallets, w.source).Some?
    ensures RegisterStep(codec, f, w, name).value.wallets == f.wallets
  {
    hide DuplicateOf;
  }

  lemma RegisteredWallets(codec: Codec, f: Index, w: Wallet, name: Option<string>)
    requires RegisterStep(codec, f, w, name).Some? && DuplicateOf(codec, f.wallets, w.source).None?
    ensures RegisterStep(codec, f, w, name).value.wallets == f.wallets + [w]
  {
    hide DuplicateOf, LabelRefused, NewRef, WalletLabel;
  }

  lemma ImportSafe(chains: Chains, current: bool, d: Disk, truth: Truth, op: Command)
    requires Safe(OwnAddresses(chains, current), d, truth) && d.journal.None? && op.Import?
    ensures SafeAll(OwnAddresses(chains, current), d, truth, ImportEffects(chains, d, op))
  {
    hide RegisterStep, DuplicateOf, JournalOk, GoodView, ImportedWallet, ImportWrites, OwnAddresses, View;
    var f := Read(d);
    var w := ImportedWallet(chains, f.wallets, op);
    if w.Some? && RegisterStep(chains.codec, f, w.value, op.name).Some? {
      var after := RegisterStep(chains.codec, f, w.value, op.name).value;
      if DuplicateOf(chains.codec, f.wallets, w.value.source).Some? {
        DuplicateKeepsWallets(chains.codec, f, w.value, op.name);
        GoodWallets(OwnAddresses(chains, current), d, truth);
        PutIndexSafe(OwnAddresses(chains, current), d, truth, after);
      } else {
        RegisteredWallets(chains.codec, f, w.value, op.name);
        ImportWritesSafe(chains, current, d, truth, op, w.value, after);
      }
    }
  }

  lemma GoodWallets(fit: Fit, d: Disk, truth: Truth)
    requires Safe(fit, d, truth) && d.journal.None?
    ensures GoodView(fit, Read(d).wallets, d.files, truth)
  {
  }

  lemma ImportWritesSafe(chains: Chains, current: bool, d: Disk, truth: Truth, op: Command, w: Wallet, after: Index)
    requires Safe(OwnAddresses(chains, current), d, truth) && d.journal.None? && op.Import?
    requires ImportedWallet(chains, Read(d).wallets, op) == Some(w) && after.wallets == Read(d).wallets + [w]
    ensures SafeAll(OwnAddresses(chains, current), d, truth, ImportWrites(d, op, w, after))
  {
    hide Safe, FreshId, TakenIds, SeedAddresses, OwnAddresses;
    var es := ImportWrites(d, op, w, after);
    if VerifierFile !in d.files && op.policyOk {
      var first := PutFile(VerifierFile, VerifierBlob(op.password, op.random));
      PutVerifierSafe(OwnAddresses(chains, current), d, truth, first.blob);
      ImportEndsSafe(chains, current, Do(d, first), truth, op, w, after);
      var path := SecretPath(w.source);
      assert es[1..] == [PutFile(path, Sealed(op.password, Plaintext(op.secret).value, path.id)), PutIndex(after)];
    } else if es != [] {
      ImportEndsSafe(chains, current, d, truth, op, w, after);
    }
  }

  lemma RegisterSafe(fit: Fit, chains: Chains, d: Disk, truth: Truth, source: Source, draws: seq<Draw>,
                     name: Option<string>)
    requires Safe(fit, d, truth) && d.journal.None? && !HasSecret(source)
    ensures SafeAll(fit, d, truth, RegisterEffects(chains, d, source, draws, name))
  {
    hide RegisterStep, DuplicateOf, JournalOk, View, FreshId, TakenIds;
    var f := Read(d);
    if RegisterEffects(chains, d, source, draws, name) != [] {
      var w := Wallet(FreshId("wlt", TakenIds(f.wallets), draws).value, source);
      var after := RegisterStep(chains.codec, f, w, name).value;
      GoodWallets(fit, d, truth);
      if DuplicateOf(chains.codec, f.wallets, source).Some? {
        DuplicateKeepsWallets(chains.codec, f, w, name);
      } else {
        RegisteredWallets(chains.codec, f, w, name);
      }
      PutIndexSafe(fit, d, truth, after);
    }
  }

  lemma AddAccountSafe(chains: Chains, current: bool, d: Disk, truth: Truth, op: Command)
    requires Safe(OwnAddresses(chains, current), d, truth) && d.journal.None? && op.AddAccount?
    ensures SafeAll(OwnAddresses(chains, current), d, truth, AddAccountEffects(chains, d, op))
  {
    hide JournalOk, GoodView, OwnAddresses, View, SelectStep, Derivable, AccountMatches, NextAccountIndex,
         SeedAddresses, WithSlot;
    if AddAccountEffects(chains, d, op) != [] {
      var f := Read(d);
      var at := Find(f.wallets, op.walletId);
      var s := f.wallets[at].source;
      var seed, n := d.files[SecretPath(s)].blob.plaintext, RequestedIndex(op, s.addresses);
      var derived := NewAddresses(chains, seed, n, s.addresses);
      SelectWallets(f, at, n, derived, op.name);
      GoodWallets(OwnAddresses(chains, current), d, truth);
      if derived.Some? {
        NewSlotIsGood(chains, current, f, at, n, seed, d.files, truth);
      }
      PutIndexSafe(OwnAddresses(chains, current), d, truth, SelectStep(f, at, n, derived, op.name).value);
    }
  }

  lemma DeleteSafe(chains: Chains, current: bool, d: Disk, truth: Truth, ref: string)
    requires Safe(OwnAddresses(chains, current), d, truth) && d.journal.None? && Distinct(Read(d).wallets)
    ensures SafeAll(OwnAddresses(chains, current), d, truth, DeleteEffects(d, ref))
  {
    hide RemoveStep, RemovedWallet, Safe, OwnAddresses, GoodView, Distinct, DoAll;
    var f := Read(d);
    if RemoveStep(f, ref).Ok? {
      var after := RemoveStep(f, ref).value;
      RemovalSecrets(f, ref);
      GoodWallets(OwnAddresses(chains, current), d, truth);
      RemainingSecretsAreGood(chains, current, f.wallets, after.wallets, d.files, truth);
      PutIndexSafe(OwnAddresses(chains, current), d, truth, after);
      var removed := RemovedWallet(f, ref);
      if removed.Some? && HasSecret(removed.value.source) {
        var d1 := Do(d, PutIndex(after));
        var p := SecretPath(removed.value.source);
        RemovedSecretIsUnnamed(f, ref);
        DropSecretSafe(OwnAddresses(chains, current), d1, truth, p);
        TwoSteps(OwnAddresses(chains, current), d, truth, PutIndex(after), DropFile(p));
        assert DeleteEffects(d, ref) == [PutIndex(after), DropFile(p)];
      } else {
        assert DeleteEffects(d, ref) == [PutIndex(after)];
      }
    } else {
      assert SafeAll(OwnAddresses(chains, current), d, truth, []);
    }
  }

  lemma RemovedSecretIsUnnamed(f: Index, ref: string)
    requires Distinct(f.wallets) && RemoveStep(f, ref).Ok? && RemovedWallet(f, ref).Some?
    ensures forall x :: x in RemoveStep(f, ref).value.wallets ==> !SameSecretFile(x, RemovedWallet(f, ref).value)
  {
    hide RemovedWallet, WalletOf, RemoveSlotStep, RemoveWalletStep, NamesSlot, HasSlot, Distinct;
    var w := f.wallets[Find(f.wallets, WalletOf(ref))];
    forall x | x in RemoveStep(f, ref).value.wallets
      ensures !SameSecretFile(x, RemovedWallet(f, ref).value)
    {
      RemainingWallets(f, ref, x);
      OtherSecretFile(f.wallets, x, w);
    }
  }

  lemma OtherSecretFile(wallets: seq<Wallet>, x: Wallet, w: Wallet)
    requires Distinct(wallets) && x in wallets && w in wallets && x.id != w.id
    ensures !SameSecretFile(x, w)
  {
  }

  lemma DropSecretSafe(fit: Fit, d: Disk, truth: Truth, p: Path)
    requires Safe(fit, d, truth) && d.journal.None? && p.BlobFile?
    requires forall w :: w in Read(d).wallets && HasSecret(w.source) ==> SecretPath(w.source) != p
    ensures SafeAll(fit, d, truth, [DropFile(p)])
  {
    forall w | w in Read(d).wallets && HasSecret(w.source)
      ensures SecretGood(fit, w.source, d.files - {p}, truth)
    {
      assert SecretGood(fit, w.source, d.files, truth);
    }
    SafeOne(fit, d, truth, DropFile(p));
  }

  // ----- Password change -----

  // Entries for the same path carry the same blob.
  ghost predicate Consistent(entries: seq<Entry>) {
    forall a, b :: a in entries && b in entries && a.path == b.path ==> a.blob == b.blob
  }

  lemma {:induction false} ResealedEffect(wallets: seq<Wallet>, files: map<Path, Content>, op: Command)
    requires op.ChangePassword? && Resealed(wallets, files, op).Some?
    ensures var entries := Resealed(wallets, files, op).value;
            && (forall w :: w in wallets && HasSecret(w.source) ==>
                  exists e :: e in entries && e.path == SecretPath(w.source))
            && (forall e :: e in entries ==>
                  && e.path.BlobFile? && Opens(files, e.path, op.oldPassword)
                  && e.blob == Sealed(op.newPassword, files[e.path].blob.plaintext, e.path.id))
  {
    if wallets != [] {
      var rest := wallets[1..];
      ResealedEffect(rest, files, op);
      var entries := Resealed(wallets, files, op).value;
      forall w | w in wallets && HasSecret(w.source)
        ensures exists e :: e in entries && e.path == SecretPath(w.source)
      {
        if w == wallets[0] {
          assert entries[0].path == SecretPath(w.source);
        } else {
          assert w in rest;
          var e :| e in Resealed(rest, files, op).value && e.path == SecretPath(w.source);
          assert e in entries;
        }
      }
    }
  }

  lemma {:induction false} PathsOf(entries: seq<Entry>)
    ensures forall p :: p in Paths(entries) <==> exists e :: e in entries && e.path == p
  {
    if entries != [] {
      PathsOf(entries[1..]);
      forall p
        ensures p in Paths(entries) <==> exists e :: e in entries && e.path == p
      {
        if p in Paths(entries[1..]) {
          var e :| e in entries[1..] && e.path == p;
          assert e in entries;
        }
        if e :| e in entries && e.path == p {
          assert e == entries[0] || e in entries[1..];
        }
        assert entries[0] in entries;
      }
    }
  }

  // Staging files under a staged journal changes nothing that counts.
  lemma StageStep(fit: Fit, d: Disk, truth: Truth, e: Effect)
    requires Safe(fit, d, truth) && d.journal.Some? && d.journal.value.state.Staged?
    requires e.StageBegin? || e.StageEnd?
    ensures Safe(fit, Do(d, e), truth) && View(Do(d, e)) == View(d) && TruthStep(truth, e) == truth
  {
    hide GoodView;
  }

  lemma {:induction false} StagingIsSafe(fit: Fit, d: Disk, truth: Truth, all: seq<Entry>, entries: seq<Entry>)
    requires Safe(fit, d, truth) && d.journal.Some? && d.journal.value.state.Staged?
    requires Consistent(all) && (forall e :: e in entries ==> e in all)
    requires forall e :: e in all ==> e in entries || (e.path in d.staged && d.staged[e.path] == Whole(e.blob))
    ensures SafeAll(fit, d, truth, StageEffects(entries)) && TruthAll(truth, StageEffects(entries)) == truth
    ensures var after := DoAll(d, StageEffects(entries));
            && after.journal == d.journal && after.index == d.index && after.files == d.files
            && forall e :: e in all ==> e.path in after.staged && after.staged[e.path] == Whole(e.blob)
    decreases |entries|
  {
    hide Safe;
    if entries != [] {
      var begin, end := StageBegin(entries[0].path), StageEnd(entries[0].path, entries[0].blob);
      StageStep(fit, d, truth, begin);
      StageStep(fit, Do(d, begin), truth, end);
      var after := Do(Do(d, begin), end);
      forall e | e in all
        ensures e in entries[1..] || (e.path in after.staged && after.staged[e.path] == Whole(e.blob))
      {
        assert e in entries && e != entries[0] ==> e in entries[1..];
      }
      StagingIsSafe(fit, after, truth, all, entries[1..]);
      assert StageEffects(entries)[1..] == [end] + StageEffects(entries[1..]);
      assert StageEffects(entries)[1..][1..] == StageEffects(entries[1..]);
    }
  }

  function Reencrypted(files: map<Path, Content>, entries: seq<Entry>): map<Path, Content>
    decreases |entries|
  {
    if entries == [] then files
    else Reencrypted(files, entries[..|entries| - 1])[entries[|entries| - 1].path := Whole(entries[|entries| - 1].blob)]
  }

  lemma {:induction false} ReencryptedEffect(files: map<Path, Content>, entries: seq<Entry>)
    requires Consistent(entries)
    ensures var sealed := Reencrypted(files, entries);
            forall e :: e in entries ==> e.path in sealed && sealed[e.path] == Whole(e.blob)
    ensures forall p :: p !in Paths(entries) ==>
              (p in Reencrypted(files, entries) <==> p in files)
              && (p in files ==> Reencrypted(files, entries)[p] == files[p])
    ensures forall p :: p in Paths(entries) ==> p in Reencrypted(files, entries)
    decreases |entries|
  {
    if entries != [] {
      var front := entries[..|entries| - 1];
      ReencryptedEffect(files, front);
      PathsOf(entries);
      PathsOf(front);
      assert forall e :: e in entries <==> e in front || e == entries[|entries| - 1];
    }
  }

  lemma CommittedView(d: Disk, entries: seq<Entry>)
    requires Consistent(entries)
    requires d.journal == Some(Journal(Committed, Paths(entries)))
    requires forall e :: e in entries ==> e.path in d.staged && d.staged[e.path] == Whole(e.blob)
    ensures View(d) == Reencrypted(d.files, entries)
  {
    PathsOf(entries);
    ReencryptedEffect(d.files, entries);
  }

  // The commit point turns the whole view from the old password to the new one.
  lemma CommitIsGood(fit: Fit, d: Disk, truth: Truth, op: Command, entries: seq<Entry>)
    requires Safe(fit, d, truth) && op.ChangePassword? && d.journal.None?
    requires Resealed(Read(d).wallets, d.files, op).Some? && Opens(d.files, VerifierFile, op.oldPassword)
    requires entries == Resealed(Read(d).wallets, d.files, op).value
                          + [Entry(VerifierFile, VerifierBlob(op.newPassword, op.random))]
    ensures Consistent(entries)
    ensures forall e :: e in entries ==> e.path in d.files && d.files[e.path].Whole?
    ensures GoodView(fit, Read(d).wallets, Reencrypted(d.files, entries), truth)
    ensures forall w :: w in Read(d).wallets && HasSecret(w.source) ==>
              Opens(Reencrypted(d.files, entries), SecretPath(w.source), op.newPassword)
    ensures Opens(Reencrypted(d.files, entries), VerifierFile, op.newPassword)
  {
    ResealedEffect(Read(d).wallets, d.files, op);
    assert forall e :: e in entries <==>
                         e in Resealed(Read(d).wallets, d.files, op).value || e == entries[|entries| - 1];
    ReencryptedEffect(d.files, entries);
    var view := Reencrypted(d.files, entries);
    assert entries[|entries| - 1] in entries;
    forall w | w in Read(d).wallets && HasSecret(w.source)
      ensures SecretGood(fit, w.source, view, truth) && Opens(view, SecretPath(w.source), op.newPassword)
    {
      var e :| e in Resealed(Read(d).wallets, d.files, op).value && e.path == SecretPath(w.source);
      assert e in entries && SecretGood(fit, w.source, d.files, truth);
    }
  }

  lemma ChangePasswordSafe(fit: Fit, d: Disk, truth: Truth, op: Command)
    requires Safe(fit, d, truth) && d.journal.None? && op.ChangePassword?
    ensures SafeAll(fit, d, truth, ChangePasswordEffects(d, op))
  {
    if ChangePasswordEffects(d, op) != [] {
      var entries := Resealed(Read(d).wallets, d.files, op).value
                     + [Entry(VerifierFile, VerifierBlob(op.newPassword, op.random))];
      CommitIsGood(fit, d, truth, op, entries);
      JournaledWriteSafe(fit, d, truth, entries);
    }
  }

  lemma BeginSafe(fit: Fit, d: Disk, truth: Truth, entries: seq<Entry>)
    requires Safe(fit, d, truth) && d.journal.None?
    requires forall e :: e in entries ==> e.path in d.files && d.files[e.path].Whole?
    ensures Safe(fit, Do(d, PutJournal(Journal(Staged, Paths(entries)))), truth)
  {
    PathsOf(entries);
    hide GoodView;
  }

  lemma CommitSafe(fit: Fit, d: Disk, truth: Truth, entries: seq<Entry>)
    requires Safe(fit, d, truth) && d.journal == Some(Journal(Staged, Paths(entries))) && Consistent(entries)
    requires forall e :: e in entries ==> e.path in d.staged && d.staged[e.path] == Whole(e.blob)
    requires GoodView(fit, Read(d).wallets, Reencrypted(d.files, entries), truth)
    ensures var after := Do(d, PutJournal(Journal(Committed, Paths(entries))));
            Safe(fit, after, truth) && View(after) == Reencrypted(d.files, entries)
  {
    PathsOf(entries);
    CommittedView(Do(d, PutJournal(Journal(Committed, Paths(entries)))), entries);
    hide GoodView, Reencrypted, View, Consistent;
  }

  // A journaled write of existing files keeps everything safe at every cut.
  lemma JournaledWriteSafe(fit: Fit, d: Disk, truth: Truth, entries: seq<Entry>)
    requires Safe(fit, d, truth) && d.journal.None? && Consistent(entries)
    requires forall e :: e in entries ==> e.path in d.files && d.files[e.path].Whole?
    requires GoodView(fit, Read(d).wallets, Reencrypted(d.files, entries), truth)
    ensures SafeAll(fit, d, truth, JournaledEffects(entries))
  {
    var begin := PutJournal(Journal(Staged, Paths(entries)));
    var commit := PutJournal(Journal(Committed, Paths(entries)));
    var stage, install := StageEffects(entries), Each(Paths(entries), true) + [DropJournal];
    hide Safe, View, Paths, StageEffects, Each, GoodView, Consistent, Reencrypted, TruthAll, DoAll;
    BeginSafe(fit, d, truth, entries);
    var d1 := Do(d, begin);
    StagingIsSafe(fit, d1, truth, entries, entries);
    var d2 := DoAll(d1, stage);
    assert stage[..|stage|] == stage;
    SafePrefix(fit, d1, truth, stage, |stage|);
    CommitSafe(fit, d2, truth, entries);
    var d3 := Do(d2, commit);
    RecoveryIsSafe(fit, d3, truth, Paths(entries));
    hide Do;
    assert ([commit] + install)[1..] == install;
    assert SafeAll(fit, d2, truth, [commit] + install);
    SafeAppend(fit, d1, truth, stage, [commit] + install);
    var rest := stage + ([commit] + install);
    assert ([begin] + rest)[1..] == rest;
    assert SafeAll(fit, d, truth, [begin] + rest);
    assert JournaledEffects(entries) == [begin] + rest;
  }

  // ----- Atomicity of a password change -----

  predicate WritesNoIndex(es: seq<Effect>) { forall e :: e in es ==> !e.PutIndex? }

  lemma {:induction false} EachWritesNoIndex(paths: seq<Path>, install: bool)
    ensures WritesNoIndex(Each(paths, install))
  {
    if paths != [] {
      EachWritesNoIndex(paths[1..], install);
    }
  }

  // The position of the effect that commits a journaled write.
  function CommitPoint(entries: seq<Entry>): nat { 1 + |StageEffects(entries)| }

  lemma {:induction false} StagingKeepsFiles(d: Disk, entries: seq<Entry>, cut: nat)
    requires d.journal.Some? && d.journal.value.state.Staged? && cut <= |StageEffects(entries)|
    ensures var after := DoAll(d, StageEffects(entries)[..cut]);
            after.journal == d.journal && after.files == d.files && after.index == d.index
    decreases |entries|
  {
    var es := StageEffects(entries);
    if 0 < cut {
      var d1 := Do(d, es[0]);
      assert es[..cut][1..] == es[1..cut];
      if 1 < cut {
        var d2 := Do(d1, es[1]);
        assert es[1..cut][1..] == StageEffects(entries[1..])[..cut - 2];
        StagingKeepsFiles(d2, entries[1..], cut - 2);
      } else {
        assert es[1..cut] == [];
      }
    }
  }

  lemma JournalIsDropped(d: Disk)
    ensures View(DoAll(d, [DropJournal])) == DoAll(d, [DropJournal]).files
  {
    assert DoAll(d, [DropJournal]) == DoAll(Do(d, DropJournal), [DropJournal][1..]);
  }

  lemma {:induction false} InstallingKeepsTheView(fit: Fit, d: Disk, truth: Truth, paths: seq<Path>, cut: nat)
    requires Safe(fit, d, truth) && d.journal.Some? && d.journal.value.state.Committed?
    requires forall p :: p in paths ==> p in d.journal.value.files
    requires forall p :: p in d.journal.value.files && p in d.staged ==> p in paths
    requires cut <= |Each(paths, true) + [DropJournal]|
    ensures View(DoAll(d, (Each(paths, true) + [DropJournal])[..cut])) == View(d)
    decreases |paths|
  {
    hide Safe, View;
    var es := Each(paths, true) + [DropJournal];
    if 0 < cut {
      if paths == [] {
        assert es[..cut] == [DropJournal] && es[..cut][1..] == [];
        DroppedJournal(fit, d, truth);
        JournalIsDropped(d);
      } else {
        RecoveryStep(fit, d, truth, paths[0]);
        var after := Do(d, Install(paths[0]));
        assert es[1..] == Each(paths[1..], true) + [DropJournal];
        assert es[..cut][1..] == es[1..][..cut - 1];
        InstallingKeepsTheView(fit, after, truth, paths[1..], cut - 1);
      }
    }
  }

  function Plaintexts(files: map<Path, Content>): Truth {
    map p | p in files && files[p].Whole? :: files[p].blob.plaintext
  }

  // A password change starts writing only once the old password has opened everything.
  lemma OpenedFilesAreSafe(d: Disk, op: Command)
    requires d.journal.None? && op.ChangePassword? && ChangePasswordEffects(d, op) != []
    ensures Safe((s, plaintext) => true, d, Plaintexts(d.files))
  {
    var entries := Resealed(Read(d).wallets, d.files, op).value;
    ResealedEffect(Read(d).wallets, d.files, op);
    forall w | w in Read(d).wallets && HasSecret(w.source)
      ensures SecretGood((s, plaintext) => true, w.source, d.files, Plaintexts(d.files))
    {
      var e :| e in entries && e.path == SecretPath(w.source);
    }
  }

  /**
   * Whatever the files and the index hold, a password change cut off after any number of effects leaves,
   * once recovered, either exactly the files from before it or exactly the re-encrypted ones, and which of
   * the two is decided by the single effect that commits the journal.
   */
  lemma PasswordChangeIsAtomic(d: Disk, op: Command, cut: nat)
    requires d.journal.None? && op.ChangePassword?
    requires cut <= |ChangePasswordEffects(d, op)| && ChangePasswordEffects(d, op) != []
    ensures var entries := Resealed(Read(d).wallets, d.files, op).value
                           + [Entry(VerifierFile, VerifierBlob(op.newPassword, op.random))];
            var after := Recovered(DoAll(d, ChangePasswordEffects(d, op)[..cut]));
            && after.index == d.index && after.journal.None?
            && after.files == (if cut <= CommitPoint(entries) then d.files else Reencrypted(d.files, entries))
            && (forall w :: w in Read(d).wallets && HasSecret(w.source) ==>
                  Opens(after.files, SecretPath(w.source),
                        if cut <= CommitPoint(entries) then op.oldPassword else op.newPassword))
            && Opens(after.files, VerifierFile, if cut <= CommitPoint(entries) then op.oldPassword else op.newPassword)
  {
    OpenedFilesAreSafe(d, op);
    var fit: Fit, truth := (s, plaintext) => true, Plaintexts(d.files);
    var entries := Resealed(Read(d).wallets, d.files, op).value
                   + [Entry(VerifierFile, VerifierBlob(op.newPassword, op.random))];
    var es := JournaledEffects(entries);
    CommitIsGood(fit, d, truth, op, entries);
    ChangePasswordSafe(fit, d, truth, op);
    SafePrefix(fit, d, truth, es, cut);
    var stopped := DoAll(d, es[..cut]);
    RecoverySafe(fit, stopped, TruthAll(truth, es[..cut]));
    JournaledView(fit, d, truth, entries, cut);
    if cut <= CommitPoint(entries) {
      OldPasswordOpens(fit, d, truth, op);
    }
  }

  lemma OldPasswordOpens(fit: Fit, d: Disk, truth: Truth, op: Command)
    requires Safe(fit, d, truth) && d.journal.None? && op.ChangePassword?
    requires Opens(d.files, VerifierFile, op.oldPassword)
    ensures forall w :: w in Read(d).wallets && HasSecret(w.source) ==>
              Opens(d.files, SecretPath(w.source), op.oldPassword)
  {
    forall w | w in Read(d).wallets && HasSecret(w.source)
      ensures Opens(d.files, SecretPath(w.source), op.oldPassword)
    {
      assert SecretGood(fit, w.source, d.files, truth);
    }
  }

  lemma StagedCut(d: Disk, entries: seq<Entry>, cut: nat)
    requires d.journal.None? && cut <= CommitPoint(entries) && cut <= |JournaledEffects(entries)|
    ensures var after := DoAll(d, JournaledEffects(entries)[..cut]);
            after.index == d.index && View(after) == d.files
  {
    hide StageEffects, Each, Paths;
    if cut == 0 {
      assert JournaledEffects(entries)[..0] == [];
    } else {
      var d1 := Do(d, PutJournal(Journal(Staged, Paths(entries))));
      StagingKeepsFiles(d1, entries, cut - 1);
      assert JournaledEffects(entries)[..cut][1..] == StageEffects(entries)[..cut - 1];
    }
  }

  lemma JournaledView(fit: Fit, d: Disk, truth: Truth, entries: seq<Entry>, cut: nat)
    requires Safe(fit, d, truth) && d.journal.None? && Consistent(entries)
    requires forall e :: e in entries ==> e.path in d.files && d.files[e.path].Whole?
    requires GoodView(fit, Read(d).wallets, Reencrypted(d.files, entries), truth)
    requires cut <= |JournaledEffects(entries)|
    ensures var after := DoAll(d, JournaledEffects(entries)[..cut]);
            && after.index == d.index
            && View(after) == if cut <= CommitPoint(entries) then d.files else Reencrypted(d.files, entries)
  {
    hide JournaledEffects, DoAll, View, Safe, StageEffects, Reencrypted, GoodView, Consistent;
    if cut <= CommitPoint(entries) {
      StagedCut(d, entries, cut);
    } else {
      CutAfterCommit(entries, cut);
      CommittedCut(fit, d, truth, entries, cut - 2 - |StageEffects(entries)|);
    }
  }

  function InstallEffects(entries: seq<Entry>): seq<Effect> { Each(Paths(entries), true) + [DropJournal] }

  lemma CutAfterCommit(entries: seq<Entry>, cut: nat)
    requires CommitPoint(entries) < cut <= |JournaledEffects(entries)|
    ensures var rest := cut - 2 - |StageEffects(entries)|;
            && rest <= |InstallEffects(entries)|
            && JournaledEffects(entries)[..cut] ==
               [PutJournal(Journal(Staged, Paths(entries)))]
               + (StageEffects(entries)
                  + ([PutJournal(Journal(Committed, Paths(entries)))] + InstallEffects(entries)[..rest]))
  {
    var begin := [PutJournal(Journal(Staged, Paths(entries)))];
    var commit := [PutJournal(Journal(Committed, Paths(entries)))];
    var stage, install := StageEffects(entries), InstallEffects(entries);
    assert JournaledEffects(entries) == begin + stage + commit + install;
    hide JournaledEffects, StageEffects, InstallEffects, Paths;
    var rest := cut - 2 - |stage|;
    assert (begin + stage + commit + install)[..cut] == begin + (stage + (commit + install[..rest]));
  }

  function CommittedDisk(d: Disk, entries: seq<Entry>): Disk {
    Do(DoAll(Do(d, PutJournal(Journal(Staged, Paths(entries)))), StageEffects(entries)),
       PutJournal(Journal(Committed, Paths(entries))))
  }

  lemma CommittedDiskIsSafe(fit: Fit, d: Disk, truth: Truth, entries: seq<Entry>)
    requires Safe(fit, d, truth) && d.journal.None? && Consistent(entries)
    requires forall e :: e in entries ==> e.path in d.files && d.files[e.path].Whole?
    requires GoodView(fit, Read(d).wallets, Reencrypted(d.files, entries), truth)
    ensures var committed := CommittedDisk(d, entries);
            && Safe(fit, committed, truth) && View(committed) == Reencrypted(d.files, entries)
            && committed.journal == Some(Journal(Committed, Paths(entries))) && committed.index == d.index
  {
    hide Safe, View, StageEffects, Paths, GoodView, Consistent, Reencrypted, DoAll;
    var stage := StageEffects(entries);
    BeginSafe(fit, d, truth, entries);
    var d1 := Do(d, PutJournal(Journal(Staged, Paths(entries))));
    StagingIsSafe(fit, d1, truth, entries, entries);
    assert stage[..|stage|] == stage;
    SafePrefix(fit, d1, truth, stage, |stage|);
    CommitSafe(fit, DoAll(d1, stage), truth, entries);
  }

  lemma CommittedCut(fit: Fit, d: Disk, truth: Truth, entries: seq<Entry>, rest: nat)
    requires Safe(fit, d, truth) && d.journal.None? && Consistent(entries)
    requires forall e :: e in entries ==> e.path in d.files && d.files[e.path].Whole?
    requires GoodView(fit, Read(d).wallets, Reencrypted(d.files, entries), truth)
    requires rest <= |InstallEffects(entries)|
    ensures var es := [PutJournal(Journal(Staged, Paths(entries)))]
               + (StageEffects(entries)
                  + ([PutJournal(Journal(Committed, Paths(entries)))] + InstallEffects(entries)[..rest]));
            View(DoAll(d, es)) == Reencrypted(d.files, entries) && DoAll(d, es).index == d.index
  {
    hide Safe, View, StageEffects, Each, Paths, GoodView, Consistent, Reencrypted, DoAll, Do;
    var begin := PutJournal(Journal(Staged, Paths(entries)));
    var commit := PutJournal(Journal(Committed, Paths(entries)));
    var stage, tail := StageEffects(entries), InstallEffects(entries)[..rest];
    CommittedDiskIsSafe(fit, d, truth, entries);
    InstallingKeepsTheView(fit, CommittedDisk(d, entries), truth, Paths(entries), rest);
    EachWritesNoIndex(Paths(entries), true);
    InstallKeepsIndex(CommittedDisk(d, entries), tail);
    DoCons(d, begin, stage + ([commit] + tail));
    DoAppend(Do(d, begin), stage, [commit] + tail);
    DoCons(DoAll(Do(d, begin), stage), commit, tail);
  }

  lemma DoCons(d: Disk, e: Effect, es: seq<Effect>)
    ensures DoAll(d, [e] + es) == DoAll(Do(d, e), es)
  {
    assert ([e] + es)[1..] == es;
  }

  lemma {:induction false} InstallKeepsIndex(d: Disk, es: seq<Effect>)
    requires WritesNoIndex(es)
    ensures DoAll(d, es).index == d.index
    decreases |es|
  {
    if es != [] {
      assert es[0] in es && forall e :: e in es[1..] ==> e in es;
      InstallKeepsIndex(Do(d, es[0]), es[1..]);
    }
  }

  // ----- A password change that happens -----

  predicate HoldsSecret(w: Wallet) { HasSecret(w.source) }

  // The password opens the verifier and the secret of every software wallet, of which there is one.
  predicate OpensAll(d: Disk, password: Password) {
    && Opens(d.files, VerifierFile, password)
    && (forall w :: w in Read(d).wallets && HasSecret(w.source) ==> Opens(d.files, SecretPath(w.source), password))
    && (exists w :: w in Read(d).wallets && HoldsSecret(w))
  }

  lemma {:induction false} ResealedIff(wallets: seq<Wallet>, files: map<Path, Content>, op: Command)
    requires op.ChangePassword?
    ensures Resealed(wallets, files, op).Some? <==>
            forall w :: w in wallets && HasSecret(w.source) ==> Opens(files, SecretPath(w.source), op.oldPassword)
    ensures Resealed(wallets, files, op) == Some([]) <==> forall w :: w in wallets ==> !HasSecret(w.source)
  {
    if wallets != [] {
      ResealedIff(wallets[1..], files, op);
      assert wallets[0] in wallets && forall w :: w in wallets <==> w == wallets[0] || w in wallets[1..];
    }
  }

  lemma RecoveryDropsTheJournal(d: Disk)
    ensures Recovered(d).journal.None?
  {
    if d.journal.Some? {
      DoSnoc(d, Each(d.journal.value.files, d.journal.value.state.Committed?), DropJournal);
    }
  }

  /**
   * A password change is made exactly when the old password opens the verifier and the secret of every
   * software wallet, and there is such a wallet. Otherwise nothing but the recovery happens.
   */
  lemma PasswordChangeHappensIff(chains: Chains, d: Disk, op: Command)
    requires op.ChangePassword?
    ensures LockedEffects(chains, d, op) != RecoverEffects(d) <==> OpensAll(Recovered(d), op.oldPassword)
  {
    hide Opens, Recovered, RecoverEffects, Resealed, StageEffects, Each;
    var r := Recovered(d);
    ResealedIff(Read(r).wallets, r.files, op);
    assert OpEffects(chains, r, op) != [] <==> OpensAll(r, op.oldPassword);
    assert RecoverEffects(d) + [] == RecoverEffects(d);
  }

  lemma {:induction false} ReencryptedKeeps(files: map<Path, Content>, wallets: seq<Wallet>, op: Command, p: Path)
    requires op.ChangePassword? && Resealed(wallets, files, op).Some?
    requires p in Paths(Resealed(wallets, files, op).value)
    ensures exists w :: w in wallets && HasSecret(w.source) && SecretPath(w.source) == p
  {
    var w := wallets[0];
    if HasSecret(w.source) && SecretPath(w.source) == p {
      assert w in wallets;
    } else {
      ReencryptedKeeps(files, wallets[1..], op, p);
      var x :| x in wallets[1..] && HasSecret(x.source) && SecretPath(x.source) == p;
      assert x in wallets;
    }
  }

  // Only the files of the software wallets and the verifier are written.
  predicate IsOtherFile(d: Disk, p: Path) {
    p != VerifierFile && forall w :: w in Read(d).wallets && HasSecret(w.source) ==> SecretPath(w.source) != p
  }

  lemma ResealedPaths(d: Disk, op: Command, p: Path)
    requires op.ChangePassword? && Resealed(Read(d).wallets, d.files, op).Some? && IsOtherFile(d, p)
    ensures p !in Paths(Resealed(Read(d).wallets, d.files, op).value
                        + [Entry(VerifierFile, VerifierBlob(op.newPassword, op.random))])
  {
    var entries := Resealed(Read(d).wallets, d.files, op).value;
    var all := entries + [Entry(VerifierFile, VerifierBlob(op.newPassword, op.random))];
    PathsOf(all);
    PathsOf(entries);
    if p in Paths(all) {
      var e :| e in all && e.path == p;
      assert e in entries;
      ReencryptedKeeps(d.files, Read(d).wallets, op, p);
    }
  }

  /**
   * Once all its effects are made, the new password opens the verifier and every secret, each with the
   * plaintext and the id it had; every other file and the index are as before, and no journal is left.
   */
  lemma ChangedPasswordOpensEverything(chains: Chains, d: Disk, op: Command)
    requires op.ChangePassword? && OpensAll(Recovered(d), op.oldPassword)
    ensures var before, after := Recovered(d), DoAll(d, LockedEffects(chains, d, op));
            && after.index == before.index && after.journal.None?
            && Opens(after.files, VerifierFile, op.newPassword)
            && (forall w :: w in Read(before).wallets && HasSecret(w.source) ==>
                  var p := SecretPath(w.source);
                  && p in before.files && before.files[p].Whole?
                  && p in after.files
                  && after.files[p] == Whole(Blob(op.newPassword, before.files[p].blob.plaintext, SecretId(w.source))))
            && (forall p :: IsOtherFile(before, p) ==>
                  && (p in after.files <==> p in before.files)
                  && (p in before.files ==> after.files[p] == before.files[p]))
  {
    hide Recovered, RecoverEffects, Resealed, StageEffects, Each, DoAll, View, CommitPoint, Paths, OpensAll;
    hide Reencrypted;
    var r := Recovered(d);
    RecoveryDropsTheJournal(d);
    OpenedIsResealed(r, op);
    var es := ChangePasswordEffects(r, op);
    FullChange(r, op);
    DoAppend(d, RecoverEffects(d), es);
    RecoveredIsAll(d);
    ReencryptedSecrets(r, op);
  }

  lemma RecoveredIsAll(d: Disk)
    ensures Recovered(d) == DoAll(d, RecoverEffects(d))
  {
  }

  lemma OpenedIsResealed(d: Disk, op: Command)
    requires op.ChangePassword? && OpensAll(d, op.oldPassword)
    ensures Resealed(Read(d).wallets, d.files, op).Some? && ChangePasswordEffects(d, op) != []
    ensures Opens(d.files, VerifierFile, op.oldPassword)
  {
    hide Opens, Resealed, JournaledEffects;
    ResealedIff(Read(d).wallets, d.files, op);
    JournalComesFirst(Resealed(Read(d).wallets, d.files, op).value
                      + [Entry(VerifierFile, VerifierBlob(op.newPassword, op.random))]);
  }

  lemma JournalComesFirst(entries: seq<Entry>)
    ensures JournaledEffects(entries) != [] && CommitPoint(entries) < |JournaledEffects(entries)|
  {
  }

  // Made to the end, the change leaves no journal and exactly the re-encrypted files.
  lemma FullChange(d: Disk, op: Command)
    requires d.journal.None? && op.ChangePassword?
    requires Resealed(Read(d).wallets, d.files, op).Some? && ChangePasswordEffects(d, op) != []
    ensures var entries := Resealed(Read(d).wallets, d.files, op).value
                           + [Entry(VerifierFile, VerifierBlob(op.newPassword, op.random))];
            var after := DoAll(d, ChangePasswordEffects(d, op));
            after.journal.None? && after.index == d.index && after.files == Reencrypted(d.files, entries)
  {
    hide Resealed, StageEffects, Each, DoAll, View, Paths, Reencrypted, Opens, CommitPoint;
    var entries := Resealed(Read(d).wallets, d.files, op).value
                   + [Entry(VerifierFile, VerifierBlob(op.newPassword, op.random))];
    var es := ChangePasswordEffects(d, op);
    JournalComesFirst(entries);
    PasswordChangeIsAtomic(d, op, |es|);
    assert es[..|es|] == es;
    EndsWithoutJournal(d, entries);
    assert RecoverEffects(DoAll(d, es)) == [];
    DoNothing(DoAll(d, es));
  }

  lemma DoNothing(d: Disk)
    ensures DoAll(d, []) == d
  {
  }

  lemma EndsWithoutJournal(d: Disk, entries: seq<Entry>)
    ensures DoAll(d, JournaledEffects(entries)).journal.None?
  {
    hide StageEffects, Each, Paths;
    var es := JournaledEffects(entries);
    var front := es[..|es| - 1];
    assert es == front + [DropJournal];
    DoSnoc(d, front, DropJournal);
  }

  lemma ReencryptedSecrets(d: Disk, op: Command)
    requires op.ChangePassword? && Resealed(Read(d).wallets, d.files, op).Some?
    requires Opens(d.files, VerifierFile, op.oldPassword)
    ensures var entries := Resealed(Read(d).wallets, d.files, op).value
                           + [Entry(VerifierFile, VerifierBlob(op.newPassword, op.random))];
            var files := Reencrypted(d.files, entries);
            && Opens(files, VerifierFile, op.newPassword)
            && (forall w :: w in Read(d).wallets && HasSecret(w.source) ==>
                  var p := SecretPath(w.source);
                  && p in d.files && d.files[p].Whole? && p in files
                  && files[p] == Whole(Blob(op.newPassword, d.files[p].blob.plaintext, SecretId(w.source))))
            && (forall p :: IsOtherFile(d, p) ==>
                  (p in files <==> p in d.files) && (p in d.files ==> files[p] == d.files[p]))
  {
    hide Resealed, Paths, Reencrypted;
    var resealed := Resealed(Read(d).wallets, d.files, op).value;
    var verifier := Entry(VerifierFile, VerifierBlob(op.newPassword, op.random));
    var entries := resealed + [verifier];
    ResealedEffect(Read(d).wallets, d.files, op);
    assert verifier in entries && forall e :: e in entries <==> e in resealed || e == verifier;
    ReencryptedEffect(d.files, entries);
    forall w | w in Read(d).wallets && HasSecret(w.source)
      ensures exists e :: e in entries && e.path == SecretPath(w.source) && e in resealed
    {
      var e :| e in resealed && e.path == SecretPath(w.source);
      assert e in entries;
    }
    forall p | IsOtherFile(d, p)
      ensures p !in Paths(entries)
    {
      ResealedPaths(d, op, p);
    }
  }

  // ----- Other wallets' files -----

  /**
   * An import writes no secret file that an indexed wallet names, because the ids are drawn until they are
   * free, and it creates the verifier only if there is none.
   */
  lemma ImportOverwritesNothing(chains: Chains, d: Disk, op: Command, e: Effect)
    requires op.Import? && e in ImportEffects(chains, d, op) && e.PutFile?
    ensures e.path == VerifierFile ==> VerifierFile !in d.files
    ensures forall w :: w in Read(d).wallets && HasSecret(w.source) ==> SecretPath(w.source) != e.path
  {
    hide ImportedWallet, RegisterStep, DuplicateOf, Opens;
    ImportedSecretIsNew(chains, Read(d).wallets, op);
  }

  ghost predicate SecretIsShared(wallets: seq<Wallet>, w: Wallet) {
    exists x :: x in wallets && x.id != w.id && SameSecretFile(x, w)
  }

  ghost predicate IsNamed(wallets: seq<Wallet>, p: Path) {
    exists x :: x in wallets && HasSecret(x.source) && SecretPath(x.source) == p
  }

  /**
   * On every index, loaded or written: a deletion drops one file, after writing the new index, and the new
   * index still names that file exactly when another wallet of the old one shared the deleted secret.
   */
  lemma DeletedSecretIsStillNamedIff(d: Disk, ref: string, i: nat)
    requires i < |DeleteEffects(d, ref)| && DeleteEffects(d, ref)[i].DropFile?
    ensures RemoveStep(Read(d), ref).Ok?
    ensures var f, after := Read(d), RemoveStep(Read(d), ref).value;
            && DeleteEffects(d, ref)[..i] == [PutIndex(after)] && i + 1 == |DeleteEffects(d, ref)|
            && (IsNamed(after.wallets, DeleteEffects(d, ref)[i].path) <==>
                SecretIsShared(f.wallets, f.wallets[Find(f.wallets, WalletOf(ref))]))
  {
    hide WalletOf, RemoveSlotStep, RemoveWalletStep, NamesSlot, HasSlot, RemovedWallet;
    var f := Read(d);
    var after := RemoveStep(f, ref).value;
    var w := f.wallets[Find(f.wallets, WalletOf(ref))];
    forall x
      ensures x in after.wallets <==> x in f.wallets && x.id != w.id
      ensures SameSecretFile(RemovedWallet(f, ref).value, w)
    {
      RemainingWallets(f, ref, x);
    }
    if SecretIsShared(f.wallets, w) {
      var x :| x in f.wallets && x.id != w.id && SameSecretFile(x, w);
      assert x in after.wallets;
    }
  }

  /** The document that loading accepts with one secret for two wallets: deleting one drops the other's secret. */
  lemma SharedSecretIsLost(d: Disk, keyId: string, a: ChainAddresses, b: ChainAddresses)
    requires d.index == Some(WalletsFileParser.SharedKey(keyId, a, b))
    ensures var es := DeleteEffects(d, "wlt_a");
            && |es| == 2 && es[0].PutIndex? && es[1].DropFile?
            && es[0].index.wallets == [Wallet("wlt_b", PrivateKey(keyId, b))]
            && IsNamed(es[0].index.wallets, es[1].path)
  {
    var f := Read(d);
    BeforeNothing("wlt_a", '.');
    assert f.wallets[0].id == "wlt_a" && WalletOf("wlt_a") == "wlt_a";
    assert "wlt_b"[4] != "wlt_a"[4];
    assert f.wallets[1..] == [f.wallets[1]] && f.wallets[1..][1..] == [];
    assert OtherWallets(f.wallets[1..], "wlt_a") == [f.wallets[1]];
    assert OtherWallets(f.wallets, "wlt_a") == [f.wallets[1]];
    var after := DeleteEffects(d, "wlt_a")[0].index;
    assert after.wallets[0] in after.wallets;
  }
}
