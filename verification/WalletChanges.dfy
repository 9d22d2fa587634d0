/**
 * What each operation makes of the index: its wallets, labels and active account after the change, in terms
 * of those before it.
 */
module WalletChanges {
  import opened Addresses
  import opened Wrappers
  import opened Text
  import NumberText
  import opened WalletIndex
  import opened WalletIndexRuns

  // ----- Labels -----

  // 1 to 64 characters, without the prefix of ids, and no other account's label ignoring case.
  predicate IsNewLabel(labels: map<string, string>, ref: string, text: string) {
    && 1 <= |Trim(text)| <= 64 && !("wlt_" <= Trim(text))
    && forall k :: k in labels && k != ref ==> Lower(Trim(labels[k])) != Lower(Trim(text))
  }

  // wallet-<n> for the first n from `count` on that no label uses, ignoring case.
  ghost predicate IsDefaultLabel(labels: map<string, string>, count: nat, text: string) {
    exists n: nat ::
      && count <= n && text == "wallet-" + NumberText.Print(n, 10) && IsUnused(labels, n)
      && forall m: nat :: count <= m < n ==> !IsUnused(labels, m)
  }

  predicate IsUnused(labels: map<string, string>, n: nat) {
    forall k :: k in labels ==> Lower(labels[k]) != "wallet-" + NumberText.Print(n, 10)
  }

  // The label asked for, or the default.
  ghost predicate IsRequested(labels: map<string, string>, count: nat, name: Option<string>, text: string) {
    if name.Some? then text == name.value else IsDefaultLabel(labels, count, text)
  }

  lemma RefusedIffNotNew(f: Index, ref: string, text: string)
    ensures LabelRefused(f, ref, text) <==> !IsNewLabel(f.labels, ref, text)
    ensures !LabelRefused(f, ref, text) ==> Relabelled(f, ref, text) == f.(labels := f.labels[ref := Trim(text)])
  {
    TrimIsIdempotent(text);
    hide Lower, Trim;
  }

  lemma DefaultIsDefault(f: Index)
    ensures IsDefaultLabel(f.labels, |f.wallets|, DefaultLabel(f))
  {
    hide NumberText.Print, Lower, FreeNumber;
    var n := FreeNumber(UsedLabels(f), |f.wallets|);
    FreeNumberEffect(UsedLabels(f), |f.wallets|);
    forall m: nat
      ensures IsUnused(f.labels, m) <==> NumberedLabel(m) !in UsedLabels(f)
    {
      UnusedIff(f, m);
    }
  }

  lemma UnusedIff(f: Index, m: nat)
    ensures IsUnused(f.labels, m) <==> NumberedLabel(m) !in UsedLabels(f)
  {
    hide NumberText.Print, Lower;
    if NumberedLabel(m) in UsedLabels(f) {
      var l :| l in f.labels.Values && Lower(l) == NumberedLabel(m);
      var k :| k in f.labels && f.labels[k] == l;
    }
    forall k | k in f.labels && Lower(f.labels[k]) == NumberedLabel(m)
      ensures NumberedLabel(m) in UsedLabels(f)
    {
      assert f.labels[k] in f.labels.Values;
    }
  }

  // ----- Registration -----

  predicate Shares(codec: Codec, cached: ChainAddresses, derived: ChainAddresses) {
    Canonical(codec, Tron, cached.tron) == derived.tron || Canonical(codec, Evm, cached.evm) == derived.evm
  }

  // The reference names the account of x that the new source stands for.
  ghost predicate IsSameAccount(codec: Codec, x: Wallet, ref: string, source: Source) {
    match source
    case Seed(_, a) =>
      && 0 in a && x.source.Seed?
      && exists n :: n in x.source.addresses && ref == Ref(x.id, Some(n)) && Shares(codec, x.source.addresses[n], a[0])
    case PrivateKey(_, a) => ref == x.id && x.source.PrivateKey? && Shares(codec, x.source.keyAddresses, a)
    case Ledger(family, path, _) =>
      ref == x.id && x.source.Ledger? && x.source.family == family && x.source.path == path
    case Watch(family, address) =>
      ref == x.id && x.source.Watch? && x.source.family == family && x.source.address == address
  }

  ghost predicate IsStoredAs(codec: Codec, wallets: seq<Wallet>, ref: string, source: Source) {
    exists x :: x in wallets && IsSameAccount(codec, x, ref, source)
  }

  ghost predicate IsHeld(codec: Codec, wallets: seq<Wallet>, source: Source) {
    exists ref :: IsStoredAs(codec, wallets, ref, source)
  }

  lemma DuplicateInIs(codec: Codec, x: Wallet, source: Source)
    ensures DuplicateIn(codec, x, source).Some? ==>
              IsSameAccount(codec, x, DuplicateIn(codec, x, source).value, source)
    ensures DuplicateIn(codec, x, source).None? ==> forall ref :: !IsSameAccount(codec, x, ref, source)
  {
    hide Ref, Canonical;
    if source.Seed? && 0 in source.addresses && x.source.Seed? {
      var slots := MatchingSlots(codec, x.source.addresses, source.addresses[0]);
      assert forall n :: n in slots <==>
                           n in x.source.addresses && Shares(codec, x.source.addresses[n], source.addresses[0]);
    }
  }

  lemma {:induction false} DuplicateIs(codec: Codec, wallets: seq<Wallet>, source: Source)
    ensures DuplicateOf(codec, wallets, source).Some? ==>
              IsStoredAs(codec, wallets, DuplicateOf(codec, wallets, source).value, source)
    ensures DuplicateOf(codec, wallets, source).Some? <==> IsHeld(codec, wallets, source)
  {
    hide IsSameAccount, DuplicateIn;
    if wallets != [] {
      DuplicateInIs(codec, wallets[0], source);
      DuplicateIs(codec, wallets[1..], source);
      forall ref
        ensures IsStoredAs(codec, wallets, ref, source) <==>
                IsSameAccount(codec, wallets[0], ref, source) || IsStoredAs(codec, wallets[1..], ref, source)
      {
        assert forall x :: x in wallets <==> x == wallets[0] || x in wallets[1..];
      }
      hide IsStoredAs;
      assert IsHeld(codec, wallets[1..], source) ==> IsHeld(codec, wallets, source);
    }
  }

  // The account a new wallet begins with.
  function FirstRef(w: Wallet): string { if w.source.Seed? then w.id + ".0" else w.id }

  lemma NewRefIsFirst(w: Wallet)
    ensures NewRef(w) == FirstRef(w)
  {
    assert NumberText.Print(0, 10) == "0";
  }

  /**
   * A registration of an account the index holds changes nothing but the active account: it becomes a stored
   * account that the new source stands for, except that a watch account is never selected.
   */
  lemma RegisteringAgain(codec: Codec, f: Index, w: Wallet, name: Option<string>)
    requires IsHeld(codec, f.wallets, w.source)
    ensures var after := Apply(codec, f, Register(w, name));
            && after == f.(active := after.active)
            && (if w.source.Watch? then after.active == f.active
                else after.active.Some? && IsStoredAs(codec, f.wallets, after.active.value, w.source))
            && var result := RegisterResult(codec, f, w);
               && IsStoredAs(codec, f.wallets, result.account, w.source)
               && !result.created && (result.changed <==> !w.source.Watch?)
               && (result.changed ==> after.active == Some(result.account))
  {
    hide IsStoredAs, DuplicateOf;
    DuplicateIs(codec, f.wallets, w.source);
  }

  /**
   * Otherwise the wallet is added at the end with its label, the one asked for or the default, and becomes
   * the active account unless it is a watch account; or, if the label is not acceptable, nothing happens.
   */
  lemma RegisteringAnew(codec: Codec, f: Index, w: Wallet, name: Option<string>) returns (text: string)
    requires !IsHeld(codec, f.wallets, w.source)
    ensures IsRequested(f.labels, |f.wallets| + 1, name, text)
    ensures Apply(codec, f, Register(w, name)) ==
            if IsNewLabel(f.labels, FirstRef(w), text) then
              Index(f.version, if w.source.Watch? then f.active else Some(FirstRef(w)), f.wallets + [w],
                    f.labels[FirstRef(w) := Trim(text)])
            else f
    ensures RegisterResult(codec, f, w) == Mutation(FirstRef(w), true, true)
  {
    hide IsStoredAs, DuplicateOf, Trim, IsNewLabel, FirstRef, LabelRefused, Relabelled, DefaultLabel, IsDefaultLabel,
         NewRef;
    DuplicateIs(codec, f.wallets, w.source);
    NewRefIsFirst(w);
    var pushed := WithWallet(f, w);
    DefaultIsDefault(pushed);
    text := LabelToStore(pushed, name);
    RefusedIffNotNew(pushed, FirstRef(w), text);
  }

  // ----- HD accounts -----

  // The label of account 0, or "hd", cut to leave room for the index within 64 characters.
  predicate IsAccountLabel(base: string, n: nat, text: string) {
    var suffix := "-" + NumberText.Print(n, 10);
    && |suffix| <= |text| && text[|text| - |suffix|..] == suffix
    && text[..|text| - |suffix|] <= base
    && (|text| <= 64 || text == suffix)
    && (text == base + suffix || |text| == 64 || text == suffix)
    && (|suffix| < 64 && base != "" ==> text != suffix)
  }

  lemma AccountLabelIs(base: Option<string>, n: nat)
    ensures IsAccountLabel(if base.Some? then base.value else "hd", n, DerivedAccountLabel(base, n))
  {
    hide NumberText.Print;
    var suffix := "-" + NumberText.Print(n, 10);
    var whole := if base.Some? then base.value else "hd";
    var room := if |suffix| <= 64 then 64 - |suffix| else 0;
    var text := DerivedAccountLabel(base, n);
    assert text == Take(whole, room) + suffix;
    assert text[|text| - |suffix|..] == suffix && text[..|text| - |suffix|] == Take(whole, room);
  }

  // The given name, or the label of account 0 with the index.
  ghost predicate IsSlotLabel(f: Index, walletId: string, n: nat, name: Option<string>, text: string) {
    if name.Some? then text == name.value
    else IsAccountLabel(if walletId + ".0" in f.labels then f.labels[walletId + ".0"] else "hd", n, text)
  }

  lemma SlotLabelIs(f: Index, walletId: string, n: nat, name: Option<string>)
    ensures IsSlotLabel(f, walletId, n, name, SlotLabel(f, walletId, n, name))
  {
    hide IsAccountLabel, DerivedAccountLabel;
    assert Ref(walletId, Some(0)) == walletId + ".0" by {
      assert NumberText.Print(0, 10) == "0";
    }
    var first := walletId + ".0";
    AccountLabelIs(if first in f.labels then Some(f.labels[first]) else None, n);
  }

  /**
   * Selecting a stored account makes it the active one and changes nothing else, unless a name is given that
   * is not the account's label ignoring case: then nothing happens.
   */
  lemma SelectingAStoredAccount(codec: Codec, f: Index, walletId: string, n: nat, name: Option<string>)
    requires Permitted(codec, f, Select(walletId, n, None, name))
    ensures var ref := walletId + "." + NumberText.Print(n, 10);
            Apply(codec, f, Select(walletId, n, None, name)) ==
            if name.Some? && (ref in f.labels ==> Lower(Trim(f.labels[ref])) != Lower(Trim(name.value))) then f
            else f.(active := Some(ref))
  {
    hide Lower, Trim, NumberText.Print;
  }

  /**
   * A new account is added to its wallet with the derived addresses and a label, and becomes the active one;
   * or, if the label is not acceptable, nothing happens. The other wallets, accounts and labels stay.
   */
  lemma SelectingANewAccount(
    codec: Codec, f: Index, walletId: string, n: nat, derived: ChainAddresses, name: Option<string>)
    returns (text: string)
    requires Permitted(codec, f, Select(walletId, n, Some(derived), name))
    ensures IsSlotLabel(f, walletId, n, name, text)
    ensures var at, ref := Find(f.wallets, walletId), walletId + "." + NumberText.Print(n, 10);
            var source := f.wallets[at].source;
            Apply(codec, f, Select(walletId, n, Some(derived), name)) ==
            if IsNewLabel(f.labels, ref, text) then
              Index(f.version, Some(ref),
                    f.wallets[at := Wallet(walletId, Seed(source.vaultId, source.addresses[n := derived]))],
                    f.labels[ref := Trim(text)])
            else f
  {
    hide Trim, IsNewLabel, LabelRefused, Relabelled, SlotLabel, IsSlotLabel, NumberText.Print;
    var at := Find(f.wallets, walletId);
    text := SlotLabel(f, walletId, n, name);
    SlotLabelIs(f, walletId, n, name);
    RefusedIffNotNew(WithSlot(f, at, n, derived), walletId + "." + NumberText.Print(n, 10), text);
  }

  // ----- Renaming and activating -----

  /** A rename stores the trimmed label under the reference, or nothing when it is not acceptable. */
  lemma Renaming(codec: Codec, f: Index, ref: string, name: string)
    ensures Apply(codec, f, Rename(ref, name)) ==
            if IsNewLabel(f.labels, ref, name) then f.(labels := f.labels[ref := Trim(name)]) else f
  {
    hide Trim, IsNewLabel, LabelRefused, Relabelled;
    RefusedIffNotNew(f, ref, name);
  }

  // ----- Removal -----

  // The text names a slot other than 0 of an HD wallet; any other text stands for the whole wallet.
  predicate IsSlot(w: Wallet, ref: string) {
    w.source.Seed? && SlotText(ref).Some? && SlotText(ref).value != "0"
  }

  // The lowest account of the first wallet; account 0 of an HD wallet that has none.
  ghost predicate IsLowest(wallets: seq<Wallet>, active: Option<string>) {
    if wallets == [] then active.None?
    else if wallets[0].source.Seed? && wallets[0].source.addresses == map[] then active == Some(wallets[0].id + ".0")
    else if wallets[0].source.Seed? then
      exists n :: && n in wallets[0].source.addresses && active == Some(Ref(wallets[0].id, Some(n)))
                  && forall m :: m in wallets[0].source.addresses ==> n <= m
    else active == Some(wallets[0].id)
  }

  // The active account stays while it is stored, and passes to the first wallet otherwise.
  ghost predicate KeepsActive(f: Index, after: Index) {
    if f.active.None? || Stored(after.wallets, f.active.value) then after.active == f.active
    else IsLowest(after.wallets, after.active)
  }

  /** What the code takes as the first account is the lowest one of the first wallet. */
  lemma LowestIsFirst(f: Index)
    ensures IsLowest(f.wallets, FirstAccount(f))
  {
    assert NumberText.Print(0, 10) == "0";
    if f.wallets != [] && f.wallets[0].source.Seed? {
      var w := f.wallets[0];
      assert w.source.addresses.Keys == {} <==> w.source.addresses == map[];
      assert Ref(w.id, Some(0)) == w.id + ".0";
    }
  }

  /** A removal fails exactly when no wallet has the id, or the slot it names is neither stored nor inherited. */
  lemma RemovalFailsIff(f: Index, ref: string)
    ensures RemoveStep(f, ref).Err? <==>
            forall w, at :: 0 <= at < |f.wallets| && w == f.wallets[at] && IsFirstWith(f.wallets, at, WalletOf(ref)) ==>
              && IsSlot(w, ref)
              && SlotText(ref).value !in {
                   "constructor", "toString", "toLocaleString", "valueOf", "hasOwnProperty", "isPrototypeOf",
                   "propertyIsEnumerable", "__proto__", "__defineGetter__", "__defineSetter__", "__lookupGetter__",
                   "__lookupSetter__"
                 }
              && forall n :: n in w.source.addresses ==> NumberText.Print(n, 10) != SlotText(ref).value
  {
    hide NumberText.Print, WalletOf, SlotText;
    var at := Find(f.wallets, WalletOf(ref));
    if at < |f.wallets| {
      assert IsFirstWith(f.wallets, at, WalletOf(ref));
    }
  }

  predicate IsFirstWith(wallets: seq<Wallet>, at: nat, id: string) {
    at < |wallets| && wallets[at].id == id && forall k :: 0 <= k < at ==> wallets[k].id != id
  }

  /**
   * Removing an account takes out that account and no other; removing a wallet takes out all its accounts.
   * What is left keeps its addresses and labels, and the active account stays while it is stored; otherwise
   * the lowest account of the first remaining wallet becomes active.
   */
  lemma Removing(codec: Codec, f: Index, ref: string)
    requires Inv(codec, f) && !ExtraSegment(ref) && RemoveStep(f, ref).Ok?
    ensures var after := Apply(codec, f, Remove(ref));
            var w := f.wallets[Find(f.wallets, WalletOf(ref))];
            && (forall r :: Stored(after.wallets, r) <==>
                  Stored(f.wallets, r) && if IsSlot(w, ref) then r != ref else WalletOf(r) != w.id)
            && (forall r :: r in after.labels <==> Stored(after.wallets, r))
            && (forall r :: r in after.labels ==> r in f.labels && after.labels[r] == f.labels[r])
            && after.version == f.version && KeepsActive(f, after)
  {
    hide Inv, Stored, IsLowest;
    InvIsSound(codec, f);
    var at := Find(f.wallets, WalletOf(ref));
    var w := f.wallets[at];
    InvRemove(codec, f, ref);
    InvMatches(codec, Apply(codec, f, Remove(ref)));
    if IsSlot(w, ref) {
      SlotRef(ref);
      RemovingASlot(codec, f, at, ref, SlotText(ref).value);
    } else {
      RemovingAWallet(codec, f, w.id);
    }
  }

  /**
   * What a removal does to labels and active account of any index, whatever the text: a slot takes the label
   * under the whole text with it, and a wallet that is gone all its labels; who was active by that very text
   * or in a wallet that is gone gives way to the lowest account of the first wallet.
   */
  lemma RemovalLeaves(codec: Codec, f: Index, ref: string)
    requires Sound(codec, f) && RemoveStep(f, ref).Ok?
    ensures var after := RemoveStep(f, ref).value;
            var w := f.wallets[Find(f.wallets, WalletOf(ref))];
            var gone := forall x :: x in after.wallets ==> x.id != w.id;
            && (forall k :: k in after.labels <==>
                  k in f.labels && if IsSlot(w, ref) then k != ref && (gone ==> k != w.id)
                                   else k != w.id && !(w.id + "." <= k))
            && (forall k :: k in after.labels ==> after.labels[k] == f.labels[k])
            && if || (IsSlot(w, ref) && f.active == Some(ref))
                  || (gone && f.active.Some? && WalletOf(f.active.value) == w.id)
               then IsLowest(after.wallets, after.active)
               else after.active == f.active
  {
    hide Distinct, WalletsValid, LabelsDistinct, LabelsClean, SlotText, HasSlot, FirstIndex, Ref, WithoutSlots,
         IsInherited, IsLowest, OtherWallets;
    var at := Find(f.wallets, WalletOf(ref));
    var w := f.wallets[at];
    LowestIsFirst(RemoveStep(f, ref).value);
    if NamesSlot(f, ref) {
      var smaller := w.(source := w.source.(addresses := WithoutSlots(w.source.addresses, SlotText(ref).value)));
      OtherWalletsEffect(f.wallets[at := smaller], w.id);
      assert f.wallets[at := smaller][at] == smaller;
    } else {
      OtherWalletsEffect(f.wallets, w.id);
    }
  }

  /** The report of a removal: what was named, whether its wallet is gone, and the account active afterwards. */
  lemma RemovalIsReported(codec: Codec, f: Index, ref: string)
    requires Sound(codec, f) && RemoveStep(f, ref).Ok?
    ensures var result, after := RemovalResult(f, ref), RemoveStep(f, ref).value;
            var w := f.wallets[Find(f.wallets, WalletOf(ref))];
            && result.account == (if IsSlot(w, ref) then ref else w.id) && result.newActive == after.active
            && (result.wholeWallet <==> forall x :: x in after.wallets ==> x.id != w.id)
            && (result.removedWallet.Some? <==> result.wholeWallet && HasSecret(w.source))
            && (result.removedWallet.Some? ==>
               result.removedWallet.value == if IsSlot(w, ref) then w.(source := w.source.(addresses := map[])) else w)
  {
    hide Distinct, WalletsValid, LabelsDistinct, LabelsClean, SlotText, HasSlot, FirstAccount, ActiveIn, OtherLabels,
         WithoutSlots, IsInherited;
    var at := Find(f.wallets, WalletOf(ref));
    var w := f.wallets[at];
    if NamesSlot(f, ref) {
      var smaller := w.(source := w.source.(addresses := WithoutSlots(w.source.addresses, SlotText(ref).value)));
      OtherWalletsEffect(f.wallets[at := smaller], w.id);
      assert f.wallets[at := smaller][at] == smaller;
    } else {
      OtherWalletsEffect(f.wallets, w.id);
    }
  }

  lemma InvIsSound(codec: Codec, f: Index)
    requires Inv(codec, f)
    ensures Distinct(f.wallets) && WalletsValid(codec, f.wallets) && LabelsMatch(f) && ActiveStored(f)
  {
  }

  lemma InvMatches(codec: Codec, f: Index)
    requires Inv(codec, f)
    ensures forall r :: r in f.labels <==> Stored(f.wallets, r)
  {
  }

  lemma RemovingASlot(codec: Codec, f: Index, at: nat, ref: string, slot: string)
    requires Inv(codec, f) && at < |f.wallets| && f.wallets[at].source.Seed?
    requires ref == f.wallets[at].id + "." + slot
    ensures var after := RemoveSlotStep(f, at, ref, slot);
            && (forall r :: Stored(after.wallets, r) <==> Stored(f.wallets, r) && r != ref)
            && after.labels == f.labels - {ref} && after.version == f.version && KeepsActive(f, after)
  {
    hide Inv, Stored, WithoutSlot, IsLowest, FirstAccount, Distinct, WalletsValid, LabelsMatch, WithoutSlots;
    hide OtherWallets, RemoveSlotStep, ActiveIn;
    InvIsSound(codec, f);
    RemoveSlotEffect(codec, f, at, ref, slot);
    WithoutSlotAccounts(codec, f, at, slot);
    WithoutSlotEffect(codec, f, at, slot);
    LowestIsFirst(RemoveSlotStep(f, at, ref, slot));
    SlotActive(codec, f, at, ref, slot);
  }

  // Who is active after a slot is gone.
  lemma SlotActive(codec: Codec, f: Index, at: nat, ref: string, slot: string)
    requires Inv(codec, f) && at < |f.wallets| && f.wallets[at].source.Seed?
    requires ref == f.wallets[at].id + "." + slot
    ensures var after := RemoveSlotStep(f, at, ref, slot);
            && after.version == f.version
            && (f.active == Some(ref) ==> after.active == FirstAccount(after))
            && (f.active.Some? && f.active != Some(ref) ==> after.active == f.active)
            && (f.active.None? ==> after.active.None?)
  {
    hide Inv, FirstAccount, Stored;
    InvIsSound(codec, f);
    var w := f.wallets[at];
    var after := RemoveSlotStep(f, at, ref, slot);
    if WithoutSlots(w.source.addresses, slot).Keys == {} && f.active.Some? && ActiveIn(f, w.id) {
      OnlyAccount(codec, f, at, slot, f.active.value);
      assert f.active == Some(ref);
    }
    EmptiedFirst(f, at, ref, slot);
  }

  lemma EmptiedFirst(f: Index, at: nat, ref: string, slot: string)
    requires at < |f.wallets| && f.wallets[at].source.Seed?
    ensures var after := RemoveSlotStep(f, at, ref, slot);
            var emptied := WithoutSlots(f.wallets[at].source.addresses, slot).Keys == {};
            after.active ==
            if f.active == Some(ref) || (emptied && ActiveIn(f, f.wallets[at].id)) then FirstAccount(after)
            else f.active
  {
    hide WithoutSlots, OtherWallets, ActiveIn;
  }

  // A stored account of a wallet whose other slots are gone is the slot itself.
  lemma OnlyAccount(codec: Codec, f: Index, at: nat, slot: string, r: string)
    requires Distinct(f.wallets) && WalletsValid(codec, f.wallets)
    requires at < |f.wallets| && f.wallets[at].source.Seed? && Stored(f.wallets, r) && WalletOf(r) == f.wallets[at].id
    requires WithoutSlots(f.wallets[at].source.addresses, slot).Keys == {}
    ensures r == f.wallets[at].id + "." + slot
  {
    var w := f.wallets[at];
    assert w in f.wallets;
    OnlyOwnerNames(codec, f.wallets, w, r);
    hide Distinct, WalletsValid;
    var n :| n in w.source.addresses && r == Ref(w.id, Some(n));
    assert n !in WithoutSlots(w.source.addresses, slot);
  }

  lemma RemovingAWallet(codec: Codec, f: Index, walletId: string)
    requires Inv(codec, f)
    ensures var after := RemoveWalletStep(f, walletId);
            && (forall r :: Stored(after.wallets, r) <==> Stored(f.wallets, r) && WalletOf(r) != walletId)
            && (forall r :: r in after.labels ==> r in f.labels && after.labels[r] == f.labels[r])
            && after.version == f.version && KeepsActive(f, after)
  {
    hide Inv, Stored, IsLowest, FirstAccount, WalletOf, BelongsTo, OtherWallets;
    InvIsSound(codec, f);
    RemovedWalletAccounts(codec, f, walletId);
    var rest := f.(wallets := OtherWallets(f.wallets, walletId), labels := OtherLabels(f.labels, walletId));
    OtherWalletsValid(codec, f.wallets, walletId);
    LowestIsFirst(rest);
  }

  // What is left of each wallet: the same secret, and accounts with the addresses they had.
  predicate IsPartOf(x: Wallet, y: Wallet) {
    && x.id == y.id
    && if x.source.Seed? then
         && y.source.Seed? && x.source.vaultId == y.source.vaultId
         && forall n :: n in x.source.addresses ==>
              n in y.source.addresses && x.source.addresses[n] == y.source.addresses[n]
       else x == y
  }

  /** Removal changes no address, secret or id of what it leaves. */
  lemma RemovalKeepsTheRest(codec: Codec, f: Index, ref: string, x: Wallet)
    requires Sound(codec, f) && RemoveStep(f, ref).Ok? && x in RemoveStep(f, ref).value.wallets
    ensures exists y :: y in f.wallets && IsPartOf(x, y)
  {
    hide Distinct, WalletsValid, LabelsDistinct, LabelsClean, WalletOf, SlotText, HasSlot, FirstAccount, ActiveIn,
         OtherLabels;
    var at := Find(f.wallets, WalletOf(ref));
    if NamesSlot(f, ref) {
      WithoutSlotEffect(codec, f, at, SlotText(ref).value);
      assert f.wallets[at] in f.wallets;
      if x !in f.wallets {
        assert IsPartOf(x, f.wallets[at]);
      } else {
        assert IsPartOf(x, x);
      }
    } else {
      OtherWalletsEffect(f.wallets, WalletOf(ref));
      assert IsPartOf(x, x);
    }
  }
}
