/**
 * What every run of registrations, derivations, relabellings, selections and removals keeps of the
 * wallet index, starting from the empty index. `Sound` holds whatever texts name the accounts; `Inv`
 * also relates the labels and the active account to the wallets.
 */
module WalletIndexRuns {
  import opened Addresses
  import opened Wrappers
  import opened Text
  import NumberText
  import opened WalletIndex

  predicate IsIdChar(c: char) {
    'A' <= c <= 'Z' || 'a' <= c <= 'z' || '0' <= c <= '9' || c == '_' || c == '-'
  }

  predicate IsBlobId(id: string) {
    id != "" && forall i :: 0 <= i < |id| ==> IsIdChar(id[i])
  }

  predicate IsWalletId(id: string) {
    StartsWith(id, RESERVED_PREFIX) && |id| > 4 && IsBlobId(id)
  }

  /** A wallet id is the prefix and at least one more letter, digit, underscore or hyphen. */
  lemma WalletIdIff(id: string)
    ensures IsWalletId(id) <==>
            && 5 <= |id| && id[..4] == "wlt_"
            && forall i :: 4 <= i < |id| ==> id[i] in UPPER_CASE || id[i] in LOWER_CASE || id[i] in "0123456789_-"
    ensures IsBlobId(id) <==>
            id != "" && forall i :: 0 <= i < |id| ==>
                          id[i] in UPPER_CASE || id[i] in LOWER_CASE || id[i] in "0123456789_-"
  {
    hide IsIdChar;
    forall i | 0 <= i < |id|
      ensures IsIdChar(id[i]) <==> id[i] in UPPER_CASE || id[i] in LOWER_CASE || id[i] in "0123456789_-"
    {
      IdCharsAre(id[i]);
    }
    if 5 <= |id| && id[..4] == "wlt_" {
      PrefixIsIdText(id);
    }
  }

  lemma PrefixIsIdText(id: string)
    requires 4 <= |id| && id[..4] == "wlt_"
    ensures forall i :: 0 <= i < 4 ==> IsIdChar(id[i])
  {
    assert id[0] == id[..4][0] && id[1] == id[..4][1] && id[2] == id[..4][2] && id[3] == id[..4][3];
  }

  lemma IdCharsAre(c: char)
    ensures IsIdChar(c) <==> c in UPPER_CASE || c in LOWER_CASE || c in "0123456789_-"
  {
    hide UPPER_CASE, LOWER_CASE;
    CapitalsAre(c);
    SmallLettersAre(c);
    OtherIdChars(c);
  }

  lemma OtherIdChars(c: char)
    ensures c in "0123456789_-" <==> '0' <= c <= '9' || c == '_' || c == '-'
  {
  }

  predicate ValidAddresses(codec: Codec, a: ChainAddresses) {
    IsAddress(codec, Tron, a.tron) && IsAddress(codec, Evm, a.evm)
  }

  predicate ValidSource(codec: Codec, s: Source) {
    match s
    case Seed(vaultId, addresses) =>
      IsBlobId(vaultId) && addresses.Keys != {} && forall n :: n in addresses ==> ValidAddresses(codec, addresses[n])
    case PrivateKey(keyId, addresses) => IsBlobId(keyId) && ValidAddresses(codec, addresses)
    case Ledger(family, path, address) => path != "" && IsAddress(codec, family, address)
    case Watch(family, address) => IsAddress(codec, family, address)
  }

  predicate ValidWallet(codec: Codec, w: Wallet) { IsWalletId(w.id) && ValidSource(codec, w.source) }

  function SecretId(s: Source): string
    requires HasSecret(s)
  {
    if s.Seed? then s.vaultId else s.keyId
  }

  predicate SameSecret(a: Source, b: Source) {
    HasSecret(a) && HasSecret(b) && SecretId(a) == SecretId(b)
  }

  ghost predicate Distinct(wallets: seq<Wallet>) {
    forall i, j :: 0 <= i < j < |wallets| ==>
      wallets[i].id != wallets[j].id && !SameSecret(wallets[i].source, wallets[j].source)
  }

  ghost predicate WalletsValid(codec: Codec, wallets: seq<Wallet>) {
    forall w :: w in wallets ==> ValidWallet(codec, w)
  }

  predicate NamesAccount(w: Wallet, ref: string) {
    if w.source.Seed? then exists n :: n in w.source.addresses && ref == Ref(w.id, Some(n)) else ref == w.id
  }

  ghost predicate Stored(wallets: seq<Wallet>, ref: string) {
    exists w :: w in wallets && NamesAccount(w, ref)
  }

  ghost predicate LabelsMatch(f: Index) {
    forall ref :: ref in f.labels <==> Stored(f.wallets, ref)
  }

  ghost predicate LabelsDistinct(labels: map<string, string>) {
    forall a, b :: a in labels && b in labels && a != b ==> LabelKey(labels[a]) != LabelKey(labels[b])
  }

  predicate CleanLabel(l: string) {
    WalletLabel(l) == Ok(l)
  }

  ghost predicate LabelsClean(labels: map<string, string>) {
    forall ref :: ref in labels ==> CleanLabel(labels[ref])
  }

  ghost predicate ActiveStored(f: Index) {
    f.active.Some? ==> Stored(f.wallets, f.active.value)
  }

  // No wallet id, secret or label twice, and everything in the form the write paths give it.
  ghost predicate Sound(codec: Codec, f: Index) {
    && Distinct(f.wallets) && WalletsValid(codec, f.wallets)
    && LabelsDistinct(f.labels) && LabelsClean(f.labels)
  }

  ghost predicate Inv(codec: Codec, f: Index) {
    Sound(codec, f) && LabelsMatch(f) && ActiveStored(f)
  }

  // ----- References -----

  lemma PrintedHasNoDot(n: nat)
    ensures '.' !in NumberText.Print(n, 10)
  {
    NumberText.PrintShape(n, 10);
  }

  lemma RefSplits(id: string, n: nat)
    requires '.' !in id
    ensures WalletOf(id) == id && WalletOf(Ref(id, Some(n))) == id
    ensures SlotText(Ref(id, Some(n))) == Some(NumberText.Print(n, 10))
    ensures Ref(id, Some(n)) != id
  {
    var text := NumberText.Print(n, 10);
    assert Ref(id, Some(n)) == id + ['.'] + text;
    BeforeSeparator(id, '.', text);
    BeforeNothing(id, '.');
    PrintedHasNoDot(n);
    BeforeNothing(text, '.');
  }

  lemma AccountBelongs(w: Wallet, ref: string)
    requires IsWalletId(w.id) && NamesAccount(w, ref)
    ensures WalletOf(ref) == w.id && BelongsTo(ref, w.id)
  {
    if w.source.Seed? {
      var n :| n in w.source.addresses && ref == Ref(w.id, Some(n));
      RefSplits(w.id, n);
      assert ref[..|w.id| + 1] == w.id + ".";
    } else {
      BeforeNothing(ref, '.');
    }
  }

  // A label that belongs to a wallet without a dot in its id names that wallet.
  lemma BelongingNames(ref: string, walletId: string)
    requires '.' !in walletId && BelongsTo(ref, walletId)
    ensures WalletOf(ref) == walletId
  {
    if ref == walletId {
      BeforeNothing(ref, '.');
    } else {
      var tail := ref[|walletId| + 1..];
      assert ref == walletId + ['.'] + tail;
      BeforeSeparator(walletId, '.', tail);
    }
  }

  lemma SameIdSameWallet(wallets: seq<Wallet>, a: Wallet, b: Wallet)
    requires Distinct(wallets) && a in wallets && b in wallets && a.id == b.id
    ensures a == b
  {
  }

  lemma {:induction false} OtherWalletsEffect(wallets: seq<Wallet>, id: string)
    ensures forall w :: w in OtherWallets(wallets, id) <==> w in wallets && w.id != id
    ensures Distinct(wallets) ==> Distinct(OtherWallets(wallets, id))
  {
    if wallets != [] {
      var rest := wallets[1..];
      OtherWalletsEffect(rest, id);
      assert forall w :: w in wallets <==> w == wallets[0] || w in rest;
      if Distinct(wallets) {
        assert Distinct(rest);
        forall w | w in OtherWallets(rest, id)
          ensures w.id != wallets[0].id && !SameSecret(wallets[0].source, w.source)
        {
          assert w in rest;
        }
      }
    }
  }

  lemma UpdateEffect(wallets: seq<Wallet>, at: nat, w: Wallet)
    requires Distinct(wallets) && at < |wallets| && w.id == wallets[at].id
    ensures forall x :: x in wallets[at := w] <==> x == w || (x in wallets && x.id != w.id)
  {
    var updated := wallets[at := w];
    forall x
      ensures x in updated <==> x == w || (x in wallets && x.id != w.id)
    {
      if x in updated && x != w {
        var i :| 0 <= i < |updated| && updated[i] == x;
        assert i != at && wallets[i] == x;
      }
      if x == w {
        assert updated[at] == x;
      } else if x in wallets && x.id != w.id {
        var i :| 0 <= i < |wallets| && wallets[i] == x;
        assert updated[i] == x;
      }
    }
  }

  lemma UpdateKeepsDistinct(wallets: seq<Wallet>, at: nat, w: Wallet)
    requires Distinct(wallets) && at < |wallets| && w.id == wallets[at].id
    requires HasSecret(w.source) <==> HasSecret(wallets[at].source)
    requires HasSecret(w.source) ==> SecretId(w.source) == SecretId(wallets[at].source)
    ensures Distinct(wallets[at := w])
  {
  }

  // ----- Labels -----

  lemma RelabelKeepsLabels(f: Index, ref: string, name: string)
    requires LabelsDistinct(f.labels) && LabelsClean(f.labels) && !LabelRefused(f, ref, name)
    ensures LabelsDistinct(Relabelled(f, ref, name).labels) && LabelsClean(Relabelled(f, ref, name).labels)
  {
    TrimIsIdempotent(name);
  }

  lemma FewerLabels(labels: map<string, string>, kept: map<string, string>)
    requires LabelsDistinct(labels) && LabelsClean(labels)
    requires forall k :: k in kept ==> k in labels && kept[k] == labels[k]
    ensures LabelsDistinct(kept) && LabelsClean(kept)
  {
  }

  // ----- Runs -----

  datatype Op =
    | Register(wallet: Wallet, name: Option<string>)
    | Select(walletId: string, index: nat, derived: Option<ChainAddresses>, name: Option<string>)
    | Rename(ref: string, newName: string)
    | Activate(ref: string)
    | Remove(ref: string)

  // Text after a second dot, which removal ignores when it looks for the account.
  predicate ExtraSegment(ref: string) { '.' in ref && '.' in After(ref, '.') }

  ghost predicate FreshWallet(codec: Codec, f: Index, w: Wallet) {
    && ValidWallet(codec, w)
    && (w.source.Seed? ==> w.source.addresses.Keys == {0})
    && forall x :: x in f.wallets ==> x.id != w.id && !SameSecret(x.source, w.source)
  }

  // What the keystore establishes before it calls each transition.
  ghost predicate Permitted(codec: Codec, f: Index, op: Op) {
    match op
    case Register(w, _) => FreshWallet(codec, f, w)
    case Select(id, index, derived, _) =>
      var at := Find(f.wallets, id);
      && at < |f.wallets| && f.wallets[at].source.Seed?
      && (derived.Some? <==> index !in f.wallets[at].source.addresses)
      && (derived.Some? ==> ValidAddresses(codec, derived.value))
    case _ => true
  }

  // The text names an account the index holds, and a removal does not run on past the slot.
  ghost predicate NamesPrecisely(f: Index, op: Op) {
    match op
    case Rename(ref, _) => Stored(f.wallets, ref)
    case Activate(ref) => Stored(f.wallets, ref)
    case Remove(ref) => !ExtraSegment(ref)
    case _ => true
  }

  // The index after the operation; one that throws writes nothing.
  function Apply(codec: Codec, f: Index, op: Op): Index {
    match op
    case Register(w, name) =>
      var step := RegisterStep(codec, f, w, name);
      if step.Some? then step.value else f
    case Select(id, index, derived, name) =>
      var at := Find(f.wallets, id);
      if at < |f.wallets| && f.wallets[at].source.Seed? && SelectStep(f, at, index, derived, name).Some? then
        SelectStep(f, at, index, derived, name).value
      else f
    case Rename(ref, name) => if LabelRefused(f, ref, name) then f else Relabelled(f, ref, name)
    case Activate(ref) => f.(active := Some(ref))
    case Remove(ref) => if RemoveStep(f, ref).Ok? then RemoveStep(f, ref).value else f
  }

  ghost predicate IsRun(codec: Codec, f: Index, ops: seq<Op>)
    decreases |ops|
  {
    ops == [] || (Permitted(codec, f, ops[0]) && IsRun(codec, Apply(codec, f, ops[0]), ops[1..]))
  }

  ghost predicate IsPreciseRun(codec: Codec, f: Index, ops: seq<Op>)
    decreases |ops|
  {
    ops == [] ||
    (&& Permitted(codec, f, ops[0]) && NamesPrecisely(f, ops[0])
     && IsPreciseRun(codec, Apply(codec, f, ops[0]), ops[1..]))
  }

  function Final(codec: Codec, f: Index, ops: seq<Op>): Index
    decreases |ops|
  {
    if ops == [] then f else Final(codec, Apply(codec, f, ops[0]), ops[1..])
  }

  // ----- Registration -----

  lemma {:induction false} DuplicateIsStored(codec: Codec, wallets: seq<Wallet>, source: Source)
    requires DuplicateOf(codec, wallets, source).Some?
    ensures Stored(wallets, DuplicateOf(codec, wallets, source).value)
  {
    var ref := DuplicateOf(codec, wallets, source).value;
    if DuplicateIn(codec, wallets[0], source).Some? {
      assert NamesAccount(wallets[0], ref);
    } else {
      DuplicateIsStored(codec, wallets[1..], source);
      var w :| w in wallets[1..] && NamesAccount(w, ref);
      assert w in wallets;
    }
  }

  lemma NewAccount(codec: Codec, f: Index, w: Wallet)
    requires FreshWallet(codec, f, w)
    ensures forall ref :: NamesAccount(w, ref) <==> ref == NewRef(w)
    ensures forall ref :: Stored(WithWallet(f, w).wallets, ref) <==> Stored(f.wallets, ref) || ref == NewRef(w)
  {
    forall ref
      ensures Stored(WithWallet(f, w).wallets, ref) <==> Stored(f.wallets, ref) || NamesAccount(w, ref)
    {
      if Stored(f.wallets, ref) {
        var x :| x in f.wallets && NamesAccount(x, ref);
        assert x in WithWallet(f, w).wallets;
      }
      assert w in WithWallet(f, w).wallets;
    }
    if w.source.Seed? {
      assert 0 in w.source.addresses;
    }
  }

  lemma SoundRegister(codec: Codec, f: Index, w: Wallet, name: Option<string>)
    requires Sound(codec, f) && FreshWallet(codec, f, w)
    ensures Sound(codec, Apply(codec, f, Register(w, name)))
  {
    hide ValidWallet, LabelRefused, DefaultLabel, DuplicateOf, FreshWallet, LabelsDistinct, LabelsClean, Distinct,
         WalletsValid, NewRef, WalletLabel;
    NewWalletIsValid(codec, f, w);
    var text := LabelToStore(WithWallet(f, w), name);
    if !LabelRefused(WithWallet(f, w), NewRef(w), text) {
      RelabelKeepsLabels(WithWallet(f, w), NewRef(w), text);
    }
  }

  lemma InvNewWallet(codec: Codec, f: Index, w: Wallet, name: string)
    requires Inv(codec, f) && FreshWallet(codec, f, w) && !LabelRefused(WithWallet(f, w), NewRef(w), name)
    ensures var labelled := Relabelled(WithWallet(f, w), NewRef(w), name);
            Inv(codec, labelled) && Inv(codec, labelled.(active := Some(NewRef(w))))
  {
    hide NamesAccount, ValidWallet, LabelRefused, NewRef, LabelsDistinct, LabelsClean, Stored, Distinct, WalletsValid;
    NewAccount(codec, f, w);
    NewWalletIsValid(codec, f, w);
    RelabelKeepsLabels(WithWallet(f, w), NewRef(w), name);
  }

  lemma NewWalletIsValid(codec: Codec, f: Index, w: Wallet)
    requires Distinct(f.wallets) && WalletsValid(codec, f.wallets) && FreshWallet(codec, f, w)
    ensures Distinct(WithWallet(f, w).wallets) && WalletsValid(codec, WithWallet(f, w).wallets)
  {
    hide ValidWallet;
  }

  lemma InvActivate(codec: Codec, f: Index, ref: string)
    requires Inv(codec, f) && Stored(f.wallets, ref)
    ensures Inv(codec, f.(active := Some(ref)))
  {
  }

  lemma InvRegister(codec: Codec, f: Index, w: Wallet, name: Option<string>)
    requires Inv(codec, f) && FreshWallet(codec, f, w)
    ensures Inv(codec, Apply(codec, f, Register(w, name)))
  {
    hide Inv, Stored, LabelRefused, DefaultLabel, DuplicateOf, FreshWallet, NewRef;
    if DuplicateOf(codec, f.wallets, w.source).Some? {
      DuplicateIsStored(codec, f.wallets, w.source);
      InvActivate(codec, f, DuplicateOf(codec, f.wallets, w.source).value);
    } else {
      var text := LabelToStore(WithWallet(f, w), name);
      if !LabelRefused(WithWallet(f, w), NewRef(w), text) {
        InvNewWallet(codec, f, w, text);
      }
    }
  }

  // ----- HD accounts -----

  lemma SlotAccount(codec: Codec, f: Index, at: nat, index: nat, derived: ChainAddresses)
    requires Distinct(f.wallets) && WalletsValid(codec, f.wallets)
    requires at < |f.wallets| && f.wallets[at].source.Seed? && ValidAddresses(codec, derived)
    ensures var stored := WithSlot(f, at, index, derived);
            && Distinct(stored.wallets) && WalletsValid(codec, stored.wallets)
            && forall ref :: Stored(stored.wallets, ref) <==>
                             Stored(f.wallets, ref) || ref == Ref(f.wallets[at].id, Some(index))
  {
    var stored := WithSlot(f, at, index, derived);
    var before, after := f.wallets[at], stored.wallets[at];
    UpdateEffect(f.wallets, at, after);
    UpdateKeepsDistinct(f.wallets, at, after);
    assert before in f.wallets;
    assert ValidWallet(codec, after);
    forall ref
      ensures Stored(stored.wallets, ref) <==> Stored(f.wallets, ref) || ref == Ref(before.id, Some(index))
    {
      assert NamesAccount(after, ref) <==> NamesAccount(before, ref) || ref == Ref(before.id, Some(index)) by {
        assert forall n :: n in after.source.addresses <==> n in before.source.addresses || n == index;
      }
      assert after in stored.wallets;
      if Stored(f.wallets, ref) {
        var w :| w in f.wallets && NamesAccount(w, ref);
        if w.id == before.id {
          SameIdSameWallet(f.wallets, w, before);
        } else {
          assert w in stored.wallets;
        }
      }
    }
  }

  lemma SoundSelect(codec: Codec, f: Index, op: Op)
    requires Sound(codec, f) && op.Select? && Permitted(codec, f, op)
    ensures Sound(codec, Apply(codec, f, op))
  {
    hide ValidWallet, LabelRefused, LabelsDistinct, LabelsClean, Distinct, WalletsValid, WalletLabel, SlotLabel,
         RelabelsStored, Stored, WithSlot;
    var at := Find(f.wallets, op.walletId);
    if op.derived.Some? {
      SlotAccount(codec, f, at, op.index, op.derived.value);
      var stored := WithSlot(f, at, op.index, op.derived.value);
      assert stored.labels == f.labels by { SlotKeepsLabels(f, at, op.index, op.derived.value); }
      var ref, text := Ref(f.wallets[at].id, Some(op.index)), SlotLabel(f, f.wallets[at].id, op.index, op.name);
      if !LabelRefused(stored, ref, text) {
        RelabelKeepsLabels(stored, ref, text);
      }
    }
  }

  lemma SlotKeepsLabels(f: Index, at: nat, index: nat, derived: ChainAddresses)
    requires at < |f.wallets| && f.wallets[at].source.Seed?
    ensures WithSlot(f, at, index, derived).labels == f.labels
  {
  }

  lemma InvSelect(codec: Codec, f: Index, op: Op)
    requires Inv(codec, f) && op.Select? && Permitted(codec, f, op)
    ensures Inv(codec, Apply(codec, f, op))
  {
    var at := Find(f.wallets, op.walletId);
    var w := f.wallets[at];
    var ref := Ref(w.id, Some(op.index));
    if op.derived.None? {
      assert w in f.wallets && NamesAccount(w, ref);
    } else {
      SlotAccount(codec, f, at, op.index, op.derived.value);
      var stored := WithSlot(f, at, op.index, op.derived.value);
      var text := SlotLabel(f, w.id, op.index, op.name);
      if !LabelRefused(stored, ref, text) {
        RelabelKeepsLabels(stored, ref, text);
        hide NamesAccount, ValidWallet, LabelRefused, SlotLabel, WithSlot;
        var after := Apply(codec, f, op);
        assert after.wallets == stored.wallets && after.labels == Relabelled(stored, ref, text).labels;
      }
    }
  }

  lemma InvRename(codec: Codec, f: Index, ref: string, name: string)
    requires Inv(codec, f) && Stored(f.wallets, ref)
    ensures Inv(codec, Apply(codec, f, Rename(ref, name)))
  {
    if !LabelRefused(f, ref, name) {
      RelabelKeepsLabels(f, ref, name);
    }
  }

  // ----- Removal -----

  lemma FirstAccountStored(codec: Codec, f: Index)
    requires WalletsValid(codec, f.wallets)
    ensures FirstAccount(f).Some? ==> Stored(f.wallets, FirstAccount(f).value)
    ensures FirstAccount(f).None? <==> f.wallets == []
  {
    if f.wallets != [] {
      var w := f.wallets[0];
      assert w in f.wallets && ValidWallet(codec, w);
      assert NamesAccount(w, FirstAccount(f).value);
    }
  }

  lemma RemovedWalletAccounts(codec: Codec, f: Index, walletId: string)
    requires Distinct(f.wallets) && WalletsValid(codec, f.wallets)
    ensures forall ref :: Stored(OtherWallets(f.wallets, walletId), ref) <==>
                          Stored(f.wallets, ref) && WalletOf(ref) != walletId
  {
    OtherWalletsEffect(f.wallets, walletId);
    forall ref
      ensures Stored(OtherWallets(f.wallets, walletId), ref) <==> Stored(f.wallets, ref) && WalletOf(ref) != walletId
    {
      if Stored(OtherWallets(f.wallets, walletId), ref) {
        var w :| w in OtherWallets(f.wallets, walletId) && NamesAccount(w, ref);
        AccountBelongs(w, ref);
        assert w in f.wallets;
      }
      if Stored(f.wallets, ref) && WalletOf(ref) != walletId {
        var w :| w in f.wallets && NamesAccount(w, ref);
        AccountBelongs(w, ref);
        assert w in OtherWallets(f.wallets, walletId);
      }
    }
  }

  lemma BelongingAccounts(codec: Codec, f: Index, walletId: string)
    requires WalletsValid(codec, f.wallets) && IsWalletId(walletId)
    ensures forall ref :: Stored(f.wallets, ref) ==> (BelongsTo(ref, walletId) <==> WalletOf(ref) == walletId)
  {
    forall ref | Stored(f.wallets, ref)
      ensures BelongsTo(ref, walletId) <==> WalletOf(ref) == walletId
    {
      var w :| w in f.wallets && NamesAccount(w, ref);
      AccountBelongs(w, ref);
      if BelongsTo(ref, walletId) {
        BelongingNames(ref, walletId);
      }
    }
  }

  lemma InvRemoveWallet(codec: Codec, f: Index, walletId: string)
    requires Inv(codec, f) && IsWalletId(walletId)
    ensures Inv(codec, RemoveWalletStep(f, walletId))
  {
    hide Stored, NamesAccount, ValidWallet, OtherWallets, BelongsTo, FirstAccount, LabelsDistinct, LabelsClean,
         Distinct;
    var rest := f.(wallets := OtherWallets(f.wallets, walletId), labels := OtherLabels(f.labels, walletId));
    OtherWalletsEffect(f.wallets, walletId);
    RemovedWalletAccounts(codec, f, walletId);
    BelongingAccounts(codec, f, walletId);
    FewerLabels(f.labels, rest.labels);
    FirstAccountStored(codec, rest);
  }

  // The wallet list after a slot is removed.
  function WithoutSlot(f: Index, at: nat, slot: string): seq<Wallet>
    requires at < |f.wallets| && f.wallets[at].source.Seed?
  {
    var w := f.wallets[at];
    var addresses := WithoutSlots(w.source.addresses, slot);
    var kept := f.wallets[at := w.(source := w.source.(addresses := addresses))];
    if addresses.Keys == {} then OtherWallets(kept, w.id) else kept
  }

  lemma WithoutSlotEffect(codec: Codec, f: Index, at: nat, slot: string)
    requires Distinct(f.wallets) && WalletsValid(codec, f.wallets)
    requires at < |f.wallets| && f.wallets[at].source.Seed?
    ensures var w := f.wallets[at];
            var wallets := WithoutSlot(f, at, slot);
            var smaller := w.(source := w.source.(addresses := WithoutSlots(w.source.addresses, slot)));
            && Distinct(wallets) && WalletsValid(codec, wallets)
            && forall x :: x in wallets <==>
                           (x == smaller && x.source.addresses.Keys != {}) || (x in f.wallets && x.id != w.id)
  {
    var w := f.wallets[at];
    var smaller := w.(source := w.source.(addresses := WithoutSlots(w.source.addresses, slot)));
    assert w in f.wallets && ValidWallet(codec, w);
    UpdateEffect(f.wallets, at, smaller);
    UpdateKeepsDistinct(f.wallets, at, smaller);
    OtherWalletsEffect(f.wallets[at := smaller], w.id);
  }

  lemma SlotNames(w: Wallet, slot: string, ref: string)
    requires w.source.Seed?
    ensures var smaller := w.(source := w.source.(addresses := WithoutSlots(w.source.addresses, slot)));
            NamesAccount(smaller, ref) <==> NamesAccount(w, ref) && ref != w.id + "." + slot
  {
    forall n: nat
      ensures Ref(w.id, Some(n)) == w.id + "." + slot <==> NumberText.Print(n, 10) == slot
    {
      assert Ref(w.id, Some(n))[|w.id| + 1..] == NumberText.Print(n, 10);
      assert (w.id + "." + slot)[|w.id| + 1..] == slot;
    }
  }

  lemma OnlyOwnerNames(codec: Codec, wallets: seq<Wallet>, w: Wallet, ref: string)
    requires Distinct(wallets) && WalletsValid(codec, wallets) && w in wallets
    requires Stored(wallets, ref) && WalletOf(ref) == w.id
    ensures NamesAccount(w, ref)
  {
    var x :| x in wallets && NamesAccount(x, ref);
    AccountBelongs(x, ref);
    SameIdSameWallet(wallets, x, w);
  }

  lemma WithoutSlotAccounts(codec: Codec, f: Index, at: nat, slot: string)
    requires Distinct(f.wallets) && WalletsValid(codec, f.wallets)
    requires at < |f.wallets| && f.wallets[at].source.Seed?
    ensures forall ref :: Stored(WithoutSlot(f, at, slot), ref) <==>
                          Stored(f.wallets, ref) && ref != f.wallets[at].id + "." + slot
  {
    var w, after := f.wallets[at], WithoutSlot(f, at, slot);
    var smaller := w.(source := w.source.(addresses := WithoutSlots(w.source.addresses, slot)));
    WithoutSlotEffect(codec, f, at, slot);
    assert w in f.wallets && ValidWallet(codec, w);
    hide WithoutSlot, Distinct, WithoutSlots;
    forall ref
      ensures Stored(after, ref) <==> Stored(f.wallets, ref) && ref != w.id + "." + slot
    {
      SlotNames(w, slot, ref);
      if Stored(f.wallets, ref) && ref != w.id + "." + slot {
        var x :| x in f.wallets && NamesAccount(x, ref);
        if x.id == w.id {
          SameIdSameWallet(f.wallets, x, w);
          assert smaller in after;
        } else {
          assert x in after;
        }
      }
      if Stored(after, ref) {
        var x :| x in after && NamesAccount(x, ref);
        if x == smaller {
          assert NamesAccount(w, ref);
        } else if ref == w.id + "." + slot {
          assert ref == w.id + ['.'] + slot;
          BeforeSeparator(w.id, '.', slot);
          AccountBelongs(x, ref);
        }
      }
    }
  }

  lemma SlotRef(ref: string)
    requires SlotText(ref).Some? && !ExtraSegment(ref)
    ensures ref == WalletOf(ref) + "." + SlotText(ref).value
  {
    BeforeNothing(After(ref, '.'), '.');
  }

  // What is left of the index after removing a slot, whichever text named it.
  lemma RemoveSlotEffect(codec: Codec, f: Index, at: nat, ref: string, slot: string)
    requires Inv(codec, f) && at < |f.wallets| && f.wallets[at].source.Seed?
    ensures var after := RemoveSlotStep(f, at, ref, slot);
            && after.wallets == WithoutSlot(f, at, slot)
            && after.labels == f.labels - {ref}
  {
    hide Inv, OtherWallets, WithoutSlots, FirstAccount, ActiveIn;
    RefIsNotAnAccount(codec, f, at);
  }

  lemma RefIsNotAnAccount(codec: Codec, f: Index, at: nat)
    requires Inv(codec, f) && at < |f.wallets| && f.wallets[at].source.Seed?
    ensures f.wallets[at].id !in f.labels
  {
    var w := f.wallets[at];
    assert w in f.wallets && ValidWallet(codec, w);
    if w.id in f.labels {
      BeforeNothing(w.id, '.');
      OnlyOwnerNames(codec, f.wallets, w, w.id);
      var n :| n in w.source.addresses && w.id == Ref(w.id, Some(n));
      RefSplits(w.id, n);
    }
  }

  lemma InvRemoveSlot(codec: Codec, f: Index, at: nat, ref: string, slot: string)
    requires Inv(codec, f) && at < |f.wallets| && f.wallets[at].source.Seed?
    requires ref == f.wallets[at].id + "." + slot
    ensures Inv(codec, RemoveSlotStep(f, at, ref, slot))
  {
    hide ActiveStored, WithoutSlot, Distinct, WalletsValid, LabelsDistinct, LabelsClean, Stored, RemoveSlotStep;
    RemoveSlotEffect(codec, f, at, ref, slot);
    WithoutSlotAccounts(codec, f, at, slot);
    WithoutSlotEffect(codec, f, at, slot);
    FewerLabels(f.labels, f.labels - {ref});
    ActiveAfterSlot(codec, f, at, ref, slot);
  }

  lemma ActiveAfterSlot(codec: Codec, f: Index, at: nat, ref: string, slot: string)
    requires Inv(codec, f) && at < |f.wallets| && f.wallets[at].source.Seed?
    requires ref == f.wallets[at].id + "." + slot
    ensures ActiveStored(RemoveSlotStep(f, at, ref, slot))
  {
    hide WithoutSlot, Distinct, WalletsValid, LabelsMatch, LabelsDistinct, LabelsClean, Stored, ActiveIn;
    RemoveSlotEffect(codec, f, at, ref, slot);
    WithoutSlotAccounts(codec, f, at, slot);
    WithoutSlotEffect(codec, f, at, slot);
    FirstAccountStored(codec, RemoveSlotStep(f, at, ref, slot));
  }

  lemma StoredWalletId(codec: Codec, f: Index, at: nat)
    requires Inv(codec, f) && at < |f.wallets|
    ensures IsWalletId(f.wallets[at].id)
  {
    assert f.wallets[at] in f.wallets && ValidWallet(codec, f.wallets[at]);
  }

  lemma InvRemove(codec: Codec, f: Index, ref: string)
    requires Inv(codec, f) && !ExtraSegment(ref)
    ensures Inv(codec, Apply(codec, f, Remove(ref)))
  {
    hide Inv, HasSlot, WalletOf, SlotText, ExtraSegment, RemoveSlotStep, RemoveWalletStep;
    var at := Find(f.wallets, WalletOf(ref));
    if at < |f.wallets| {
      var w := f.wallets[at];
      StoredWalletId(codec, f, at);
      if NamesSlot(f, ref) {
        SlotRef(ref);
        InvRemoveSlot(codec, f, at, ref, SlotText(ref).value);
      } else {
        InvRemoveWallet(codec, f, w.id);
      }
    }
  }

  lemma SoundRemove(codec: Codec, f: Index, ref: string)
    requires Sound(codec, f)
    ensures Sound(codec, Apply(codec, f, Remove(ref)))
  {
    hide ValidWallet, LabelsDistinct, LabelsClean, Distinct, WalletsValid, OtherWallets, WithoutSlots, FirstAccount,
         ActiveIn, WalletOf, SlotText, HasSlot, BelongsTo;
    var after := Apply(codec, f, Remove(ref));
    var at := Find(f.wallets, WalletOf(ref));
    if at < |f.wallets| {
      FewerLabels(f.labels, after.labels);
      if NamesSlot(f, ref) {
        WithoutSlotEffect(codec, f, at, SlotText(ref).value);
      } else {
        OtherWalletsEffect(f.wallets, WalletOf(ref));
        OtherWalletsValid(codec, f.wallets, WalletOf(ref));
      }
    }
  }

  lemma OtherWalletsValid(codec: Codec, wallets: seq<Wallet>, id: string)
    requires WalletsValid(codec, wallets)
    ensures WalletsValid(codec, OtherWallets(wallets, id))
  {
    OtherWalletsEffect(wallets, id);
  }

  lemma SoundRename(codec: Codec, f: Index, ref: string, name: string)
    requires Sound(codec, f)
    ensures Sound(codec, Apply(codec, f, Rename(ref, name)))
  {
    if !LabelRefused(f, ref, name) {
      RelabelKeepsLabels(f, ref, name);
    }
    hide LabelsDistinct, LabelsClean, Distinct, WalletsValid, LabelRefused, WalletLabel;
  }

  lemma SoundApply(codec: Codec, f: Index, op: Op)
    requires Sound(codec, f) && Permitted(codec, f, op)
    ensures Sound(codec, Apply(codec, f, op))
  {
    hide Distinct, WalletsValid, LabelsDistinct, LabelsClean;
    match op
    case Register(w, name) => SoundRegister(codec, f, w, name);
    case Select(_, _, _, _) => SoundSelect(codec, f, op);
    case Rename(ref, name) => SoundRename(codec, f, ref, name);
    case Activate(_) =>
    case Remove(ref) => SoundRemove(codec, f, ref);
  }

  lemma {:induction false} SoundFinal(codec: Codec, f: Index, ops: seq<Op>)
    requires Sound(codec, f) && IsRun(codec, f, ops)
    ensures Sound(codec, Final(codec, f, ops))
    decreases |ops|
  {
    hide Sound, Permitted, Apply;
    if ops != [] {
      SoundApply(codec, f, ops[0]);
      SoundFinal(codec, Apply(codec, f, ops[0]), ops[1..]);
    }
  }

  lemma InvApply(codec: Codec, f: Index, op: Op)
    requires Inv(codec, f) && Permitted(codec, f, op) && NamesPrecisely(f, op)
    ensures Inv(codec, Apply(codec, f, op))
  {
    hide Inv;
    match op
    case Register(w, name) => InvRegister(codec, f, w, name);
    case Select(_, _, _, _) => InvSelect(codec, f, op);
    case Rename(ref, name) => InvRename(codec, f, ref, name);
    case Activate(ref) => InvActivate(codec, f, ref);
    case Remove(ref) => InvRemove(codec, f, ref);
  }

  lemma {:induction false} InvFinal(codec: Codec, f: Index, ops: seq<Op>)
    requires Inv(codec, f) && IsPreciseRun(codec, f, ops)
    ensures Inv(codec, Final(codec, f, ops))
    decreases |ops|
  {
    hide Inv, Permitted, NamesPrecisely, Apply;
    if ops != [] {
      InvApply(codec, f, ops[0]);
      InvFinal(codec, Apply(codec, f, ops[0]), ops[1..]);
    }
  }

  /**
   * After every run from the empty index, whatever texts name the accounts: wallet ids and secret ids
   * are distinct, every HD wallet has an account, and labels differ from one another ignoring case.
   * When the texts name stored accounts and removals do not run on past a slot, labels name exactly the
   * stored accounts, and the active account is none or a stored one.
   */
  lemma EveryRunKeepsTheIndex(codec: Codec, ops: seq<Op>)
    ensures IsRun(codec, EMPTY, ops) ==> Sound(codec, Final(codec, EMPTY, ops))
    ensures IsPreciseRun(codec, EMPTY, ops) ==> Inv(codec, Final(codec, EMPTY, ops))
  {
    if IsRun(codec, EMPTY, ops) {
      SoundFinal(codec, EMPTY, ops);
    }
    if IsPreciseRun(codec, EMPTY, ops) {
      InvFinal(codec, EMPTY, ops);
    }
  }

  /**
   * Removal takes any text that begins with a wallet id. It keeps the index whole exactly when the
   * text does not run on past the slot it names: with a further segment the account goes but its
   * label stays, because the label is looked up under the whole text.
   */
  lemma RemovalKeepsTheIndexIff(codec: Codec, f: Index, ref: string)
    requires Inv(codec, f) && RemoveStep(f, ref).Ok?
    ensures Inv(codec, RemoveStep(f, ref).value) <==>
            !(ExtraSegment(ref) && NamesSlot(f, ref)
              && HasSlot(f.wallets[Find(f.wallets, WalletOf(ref))].source.addresses, SlotText(ref).value))
  {
    if !ExtraSegment(ref) {
      InvRemove(codec, f, ref);
    } else {
      var at := Find(f.wallets, WalletOf(ref));
      var w := f.wallets[at];
      assert w in f.wallets && ValidWallet(codec, w);
      if !NamesSlot(f, ref) {
        InvRemoveWallet(codec, f, w.id);
      } else {
        assert !Stored(f.wallets, ref) by {
          if Stored(f.wallets, ref) {
            StoredEndsAtItsSlot(codec, f, ref);
          }
        }
        var slot := SlotText(ref).value;
        if HasSlot(w.source.addresses, slot) {
          RunOnRemovalLeavesTheLabel(codec, f, at, ref, slot);
        } else {
          InheritedNameRemovesNothing(codec, f, at, ref, slot);
        }
      }
    }
  }

  lemma AccountEndsAtItsSlot(w: Wallet, ref: string)
    requires IsWalletId(w.id) && NamesAccount(w, ref)
    ensures !ExtraSegment(ref)
  {
    if w.source.Seed? {
      var n :| n in w.source.addresses && ref == Ref(w.id, Some(n));
      assert ref == w.id + ['.'] + NumberText.Print(n, 10);
      BeforeSeparator(w.id, '.', NumberText.Print(n, 10));
      PrintedHasNoDot(n);
    }
  }

  lemma StoredEndsAtItsSlot(codec: Codec, f: Index, ref: string)
    requires WalletsValid(codec, f.wallets) && Stored(f.wallets, ref)
    ensures !ExtraSegment(ref)
  {
    var w :| w in f.wallets && NamesAccount(w, ref);
    AccountEndsAtItsSlot(w, ref);
  }

  /** The account is gone, its label is not. */
  lemma RunOnRemovalLeavesTheLabel(codec: Codec, f: Index, at: nat, ref: string, slot: string)
    requires Inv(codec, f) && at < |f.wallets| && f.wallets[at].source.Seed?
    requires HasSlot(f.wallets[at].source.addresses, slot) && !Stored(f.wallets, ref)
    ensures var account := f.wallets[at].id + "." + slot;
            var after := RemoveSlotStep(f, at, ref, slot);
            account in after.labels && !Stored(after.wallets, account) && !Inv(codec, after)
  {
    hide Distinct, WalletsValid, LabelsDistinct, LabelsClean, WithoutSlot, RemoveSlotStep, ActiveStored;
    var w := f.wallets[at];
    var n :| n in w.source.addresses && NumberText.Print(n, 10) == slot;
    assert w in f.wallets && NamesAccount(w, Ref(w.id, Some(n)));
    RemoveSlotEffect(codec, f, at, ref, slot);
    WithoutSlotAccounts(codec, f, at, slot);
  }

  /** A name every object inherits passes the membership test but names no slot: nothing changes. */
  lemma InheritedNameRemovesNothing(codec: Codec, f: Index, at: nat, ref: string, slot: string)
    requires Inv(codec, f) && at < |f.wallets| && f.wallets[at].source.Seed?
    requires !HasSlot(f.wallets[at].source.addresses, slot) && !Stored(f.wallets, ref)
    ensures RemoveSlotStep(f, at, ref, slot) == f
  {
    var w := f.wallets[at];
    assert w in f.wallets && ValidWallet(codec, w);
    RemoveSlotEffect(codec, f, at, ref, slot);
    assert WithoutSlots(w.source.addresses, slot) == w.source.addresses;
    assert f.wallets[at := w] == f.wallets;
    assert f.labels - {ref} == f.labels;
  }

  // ----- The first HD account -----

  ghost predicate HasFirstAccounts(f: Index) {
    forall w :: w in f.wallets && w.source.Seed? ==> 0 in w.source.addresses
  }

  lemma FirstAccountsSelect(codec: Codec, f: Index, op: Op)
    requires Sound(codec, f) && HasFirstAccounts(f) && Permitted(codec, f, op) && op.Select?
    ensures HasFirstAccounts(Apply(codec, f, op))
  {
    var at := Find(f.wallets, op.walletId);
    var w := f.wallets[at];
    assert w in f.wallets;
    if op.derived.Some? {
      var after := WithSlot(f, at, op.index, op.derived.value).wallets[at];
      UpdateEffect(f.wallets, at, after);
    }
  }

  lemma FirstAccountsRemove(codec: Codec, f: Index, op: Op)
    requires Sound(codec, f) && HasFirstAccounts(f) && Permitted(codec, f, op) && op.Remove?
    ensures HasFirstAccounts(Apply(codec, f, op))
  {
    hide Distinct, WalletOf, SlotText, HasSlot, FirstAccount, ActiveIn, OtherLabels;
    var at := Find(f.wallets, WalletOf(op.ref));
    if at < |f.wallets| {
      assert f.wallets[at] in f.wallets;
      if NamesSlot(f, op.ref) {
        WithoutSlotEffect(codec, f, at, SlotText(op.ref).value);
      } else {
        OtherWalletsEffect(f.wallets, WalletOf(op.ref));
      }
    }
  }

  lemma FirstAccountsApply(codec: Codec, f: Index, op: Op)
    requires Sound(codec, f) && HasFirstAccounts(f) && Permitted(codec, f, op)
    ensures HasFirstAccounts(Apply(codec, f, op))
  {
    if op.Select? {
      FirstAccountsSelect(codec, f, op);
    } else if op.Remove? {
      FirstAccountsRemove(codec, f, op);
    } else {
      hide Sound;
    }
  }

  lemma {:induction false} FirstAccountsFinal(codec: Codec, f: Index, ops: seq<Op>)
    requires Sound(codec, f) && HasFirstAccounts(f) && IsRun(codec, f, ops)
    ensures HasFirstAccounts(Final(codec, f, ops))
    decreases |ops|
  {
    hide Sound, Permitted, Apply, HasFirstAccounts;
    if ops != [] {
      SoundApply(codec, f, ops[0]);
      FirstAccountsApply(codec, f, ops[0]);
      FirstAccountsFinal(codec, Apply(codec, f, ops[0]), ops[1..]);
    }
  }

  /**
   * In every index a run can reach, an HD wallet still has its account 0, so removing another of its
   * accounts never removes the wallet, and so never its secret.
   */
  lemma RemovingAnAccountKeepsTheWallet(codec: Codec, ops: seq<Op>, ref: string)
    requires IsRun(codec, EMPTY, ops)
    requires var f := Final(codec, EMPTY, ops); NamesSlot(f, ref) && RemoveStep(f, ref).Ok?
    ensures var f := Final(codec, EMPTY, ops);
            && RemovedWallet(f, ref).None?
            && (exists w :: w in RemoveStep(f, ref).value.wallets && w.id == WalletOf(ref))
  {
    hide Sound, Final, IsRun, NamesSlot, RemoveStep, RemovedWallet, WalletOf, HasFirstAccounts;
    FinalFromEmpty(codec, ops);
    OtherAccountsRemain(codec, Final(codec, EMPTY, ops), ref);
  }

  lemma FinalFromEmpty(codec: Codec, ops: seq<Op>)
    requires IsRun(codec, EMPTY, ops)
    ensures Sound(codec, Final(codec, EMPTY, ops)) && HasFirstAccounts(Final(codec, EMPTY, ops))
  {
    hide Final, IsRun;
    SoundFinal(codec, EMPTY, ops);
    FirstAccountsFinal(codec, EMPTY, ops);
  }

  lemma OtherAccountsRemain(codec: Codec, f: Index, ref: string)
    requires Sound(codec, f) && HasFirstAccounts(f) && NamesSlot(f, ref) && RemoveStep(f, ref).Ok?
    ensures RemovedWallet(f, ref).None?
    ensures exists w :: w in RemoveStep(f, ref).value.wallets && w.id == WalletOf(ref)
  {
    hide Sound, WalletOf, SlotText, HasSlot, FirstAccount, ActiveIn, OtherWallets, OtherLabels;
    var at := Find(f.wallets, WalletOf(ref));
    var w := f.wallets[at];
    assert w in f.wallets;
    var addresses := WithoutSlots(w.source.addresses, SlotText(ref).value);
    assert 0 in addresses;
    var smaller := w.(source := w.source.(addresses := addresses));
    assert RemoveStep(f, ref).value.wallets == f.wallets[at := smaller];
    assert f.wallets[at := smaller][at] == smaller;
  }

  // ----- Default labels -----

  lemma {:induction false} FreeNumberEffect(used: set<string>, n: nat)
    ensures n <= FreeNumber(used, n) <= n + |used|
    ensures NumberedLabel(FreeNumber(used, n)) !in used
    ensures forall m :: n <= m < FreeNumber(used, n) ==> NumberedLabel(m) in used
    decreases |used|
  {
    if NumberedLabel(n) in used {
      var rest := used - {NumberedLabel(n)};
      FreeNumberEffect(rest, n + 1);
      NumberedLabelsDiffer(FreeNumber(rest, n + 1), n);
    }
  }

  lemma NumberedLabelShape(n: nat)
    requires n < NumberText.Pow(10, 57)
    ensures WalletLabel(NumberedLabel(n)) == Ok(NumberedLabel(n))
    ensures LabelKey(NumberedLabel(n)) == NumberedLabel(n)
  {
    hide NumberText.Pow, NumberText.Print;
    var digits := NumberText.Print(n, 10);
    NumberText.PrintShape(n, 10);
    PrintFits(n, 57);
    var name := NumberedLabel(n);
    assert name[7..] == digits && !IsSpace(name[|name| - 1]) && !IsSpace(name[0]);
    assert name[3] == 'l';
    TrimOfTrimmed(name);
    assert forall i :: 0 <= i < |name| ==> LowerChar(name[i]) == name[i];
    assert Lower(name) == name;
  }

  lemma PrintFits(n: nat, width: nat)
    requires n < NumberText.Pow(10, width) && 0 < width
    ensures |NumberText.Print(n, 10)| <= width
  {
    if 0 < n {
      NumberText.PrintLength(n, 10);
      var length := |NumberText.Print(n, 10)|;
      if width < length {
        NumberText.PowGrows(10, width, length - 1);
      }
    }
  }

  lemma UsedLabelsCount(labels: map<string, string>)
    ensures |set l | l in labels.Values :: Lower(l)| <= |labels|
  {
    ImageSize(labels.Keys, labels);
    assert (set l | l in labels.Values :: Lower(l)) == set k | k in labels.Keys :: Lower(labels[k]);
  }

  lemma {:induction false} ImageSize(keys: set<string>, labels: map<string, string>)
    requires keys <= labels.Keys
    ensures |set k | k in keys :: Lower(labels[k])| <= |keys|
    decreases |keys|
  {
    if keys != {} {
      var k :| k in keys;
      var rest := keys - {k};
      ImageSize(rest, labels);
      assert (set x | x in keys :: Lower(labels[x])) == (set x | x in rest :: Lower(labels[x])) + {Lower(labels[k])};
    }
  }

  // The label on k is the default label but for white space around it, which the search overlooks.
  predicate HidesDefault(f: Index, k: string) {
    k in f.labels && Trim(f.labels[k]) != f.labels[k] && LabelKey(f.labels[k]) == DefaultLabel(f)
  }

  /**
   * An omitted label is refused exactly when another account has a label with outer white space that is,
   * trimmed and in lower case, the very default the search stops at. The number of wallets and labels
   * must only leave the text within 64 characters.
   */
  lemma DefaultLabelIsRefusedIff(f: Index, ref: string)
    requires |f.wallets| + |f.labels| < NumberText.Pow(10, 57)
    ensures LabelRefused(f, ref, DefaultLabel(f)) <==> exists k :: k != ref && HidesDefault(f, k)
  {
    var n := FreeNumber(UsedLabels(f), |f.wallets|);
    FreeNumberEffect(UsedLabels(f), |f.wallets|);
    UsedLabelsCount(f.labels);
    NumberedLabelShape(n);
    forall k | k in f.labels && LabelKey(f.labels[k]) == NumberedLabel(n)
      ensures HidesDefault(f, k)
    {
      assert f.labels[k] in f.labels.Values;
      assert Lower(f.labels[k]) in UsedLabels(f);
    }
  }

  /** So it is never refused while the stored labels are trimmed, as every label written by the wallet is. */
  lemma OmittedLabelIsAccepted(f: Index, ref: string)
    requires LabelsClean(f.labels) && |f.wallets| + |f.labels| < NumberText.Pow(10, 57)
    ensures !LabelRefused(f, ref, DefaultLabel(f))
  {
    DefaultLabelIsRefusedIff(f, ref);
  }

  /** Such a label exists: the default itself with a space before it, which loading accepts. */
  lemma UntrimmedLabelBlocksTheDefault(f: Index, ref: string, other: string)
    requires |f.wallets| + 1 < NumberText.Pow(10, 57) && other != ref
    requires f.labels == map[other := " " + NumberedLabel(|f.wallets|)]
    ensures LabelRefused(f, ref, DefaultLabel(f))
  {
    var n := |f.wallets|;
    var stored := " " + NumberedLabel(n);
    NumberedLabelShape(n);
    assert stored[1..] == NumberedLabel(n);
    assert LabelKey(stored) == NumberedLabel(n);
    assert Lower(stored)[0] == ' ' && NumberedLabel(n)[0] == 'w';
    assert forall text :: text in f.labels.Values ==> text == stored;
    DefaultLabelIsRefusedIff(f, ref);
    assert HidesDefault(f, other);
  }

  // ----- The next account index -----

  /**
   * With indices below 2^31, as derivation paths have them, an omitted index gives a new slot exactly
   * until the last index is in use; from then on the 32-bit arithmetic wraps to a negative number.
   */
  lemma NextIndexIsNewIff(addresses: map<nat, ChainAddresses>)
    requires forall n :: n in addresses ==> n < 0x8000_0000
    ensures var next := NextAccountIndex(addresses);
            && (0 <= next <==> 0x7FFF_FFFF !in addresses)
            && (0 <= next ==> next !in addresses && forall n :: n in addresses ==> n < next)
            && (next < 0 ==> next == -0x8000_0000)
  {
    var top := GreatestKey(addresses.Keys);
    if top >= 0 {
      assert top in addresses;
    }
  }
}
