/**
 * What deduplication achieves over a run: no two wallets of the index hold the same account, where an HD
 * wallet is known by its account 0.
 */
module WalletHoldings {
  import opened Addresses
  import opened Wrappers
  import opened WalletIndex
  import opened WalletIndexRuns

  predicate SameAddress(codec: Codec, family: Family, a: string, b: string) {
    Canonical(codec, family, a) == Canonical(codec, family, b)
  }

  predicate SharesAddress(codec: Codec, a: ChainAddresses, b: ChainAddresses) {
    SameAddress(codec, Tron, a.tron, b.tron) || SameAddress(codec, Evm, a.evm, b.evm)
  }

  // The same account 0, private key, path on the device or watched address.
  predicate SameHolding(codec: Codec, a: Source, b: Source) {
    match a
    case Seed(_, x) => b.Seed? && 0 in x && 0 in b.addresses && SharesAddress(codec, x[0], b.addresses[0])
    case PrivateKey(_, x) => b.PrivateKey? && SharesAddress(codec, x, b.keyAddresses)
    case Ledger(family, path, _) => b.Ledger? && b.family == family && b.path == path
    case Watch(family, address) => b.Watch? && b.family == family && SameAddress(codec, family, address, b.address)
  }

  predicate IsCanonical(codec: Codec, a: ChainAddresses) {
    Canonical(codec, Tron, a.tron) == a.tron && Canonical(codec, Evm, a.evm) == a.evm
  }

  // Addresses as derivation and the watch command spell them.
  predicate InOwnSpelling(codec: Codec, s: Source) {
    match s
    case Seed(_, x) => 0 in x && IsCanonical(codec, x[0])
    case PrivateKey(_, x) => IsCanonical(codec, x)
    case Ledger(_, _, _) => true
    case Watch(family, address) => Canonical(codec, family, address) == address
  }

  ghost predicate HeldOnce(codec: Codec, f: Index) {
    && (forall w :: w in f.wallets ==> InOwnSpelling(codec, w.source))
    && forall a, b :: a in f.wallets && b in f.wallets && SameHolding(codec, a.source, b.source) ==> a.id == b.id
  }

  // Registration spells its addresses so; the other changes keep what is stored.
  predicate SpellsItsOwn(codec: Codec, op: Op) { op.Register? ==> InOwnSpelling(codec, op.wallet.source) }

  lemma {:induction false} NoDuplicateAnywhere(codec: Codec, wallets: seq<Wallet>, source: Source)
    requires DuplicateOf(codec, wallets, source).None?
    ensures forall w :: w in wallets ==> DuplicateIn(codec, w, source).None?
  {
    if wallets != [] {
      NoDuplicateAnywhere(codec, wallets[1..], source);
      assert forall w :: w in wallets ==> w == wallets[0] || w in wallets[1..];
    }
  }

  lemma NotDuplicated(codec: Codec, w: Wallet, source: Source)
    requires InOwnSpelling(codec, source) && InOwnSpelling(codec, w.source) && DuplicateIn(codec, w, source).None?
    ensures !SameHolding(codec, w.source, source) && !SameHolding(codec, source, w.source)
  {
    hide Ref, Canonical;
    if source.Seed? && w.source.Seed? && 0 in w.source.addresses {
      assert 0 !in MatchingSlots(codec, w.source.addresses, source.addresses[0]);
    }
  }

  lemma HeldOnceRegister(codec: Codec, f: Index, w: Wallet, name: Option<string>)
    requires HeldOnce(codec, f) && InOwnSpelling(codec, w.source)
    ensures HeldOnce(codec, Apply(codec, f, Register(w, name)))
  {
    hide LabelRefused, DefaultLabel, NewRef, WalletLabel, DuplicateOf, SameHolding, InOwnSpelling;
    if DuplicateOf(codec, f.wallets, w.source).None? {
      NoDuplicateAnywhere(codec, f.wallets, w.source);
      forall x | x in f.wallets
        ensures !SameHolding(codec, x.source, w.source) && !SameHolding(codec, w.source, x.source)
      {
        NotDuplicated(codec, x, w.source);
      }
    }
  }

  // The same wallet, perhaps with other accounts than account 0.
  predicate SameBase(w: Wallet, x: Wallet) {
    || w == x
    || (&& w.id == x.id && w.source.Seed? && x.source.Seed?
        && 0 in w.source.addresses && 0 in x.source.addresses && w.source.addresses[0] == x.source.addresses[0])
  }

  lemma SlotKeepsBase(f: Index, at: nat, index: nat, derived: ChainAddresses)
    requires at < |f.wallets| && f.wallets[at].source.Seed?
    requires 0 in f.wallets[at].source.addresses && index !in f.wallets[at].source.addresses
    ensures forall w :: w in WithSlot(f, at, index, derived).wallets ==> exists x :: x in f.wallets && SameBase(w, x)
  {
    var wallets := WithSlot(f, at, index, derived).wallets;
    assert f.wallets[at] in f.wallets && SameBase(wallets[at], f.wallets[at]);
    forall w | w in wallets
      ensures exists x :: x in f.wallets && SameBase(w, x)
    {
      var i :| 0 <= i < |wallets| && wallets[i] == w;
      assert f.wallets[i] in f.wallets;
      if i != at {
        assert SameBase(w, f.wallets[i]);
      }
    }
  }

  lemma RemovalKeepsBase(codec: Codec, f: Index, ref: string, w: Wallet) returns (x: Wallet)
    requires Sound(codec, f) && HasFirstAccounts(f) && RemoveStep(f, ref).Ok? && w in RemoveStep(f, ref).value.wallets
    ensures x in f.wallets && SameBase(w, x)
  {
    hide Distinct, WalletsValid, LabelsDistinct, LabelsClean, WalletOf, SlotText, HasSlot, FirstAccount, ActiveIn;
    var at := Find(f.wallets, WalletOf(ref));
    x := w;
    if NamesSlot(f, ref) {
      WithoutSlotEffect(codec, f, at, SlotText(ref).value);
      if w !in f.wallets {
        x := f.wallets[at];
        assert x in f.wallets;
      }
    } else {
      OtherWalletsEffect(f.wallets, WalletOf(ref));
    }
  }

  // Every wallet of the new list was in the old one.
  lemma OtherChangesKeepBases(codec: Codec, f: Index, op: Op, w: Wallet) returns (x: Wallet)
    requires Sound(codec, f) && HasFirstAccounts(f) && Permitted(codec, f, op) && !op.Register?
    requires w in Apply(codec, f, op).wallets
    ensures x in f.wallets && SameBase(w, x)
  {
    hide Sound, LabelRefused, SlotLabel, RelabelsStored, WalletLabel, Ref, ValidAddresses, RemoveStep, SameBase,
         WithSlot;
    x := w;
    assert SameBase(w, w) by { BaseOfItself(w); }
    if op.Select? && op.derived.Some? {
      var at := Find(f.wallets, op.walletId);
      assert f.wallets[at] in f.wallets;
      SlotKeepsBase(f, at, op.index, op.derived.value);
      if w !in f.wallets {
        x :| x in f.wallets && SameBase(w, x);
      }
    } else if op.Remove? && RemoveStep(f, op.ref).Ok? {
      x := RemovalKeepsBase(codec, f, op.ref, w);
    }
  }

  lemma BaseOfItself(w: Wallet)
    ensures SameBase(w, w)
  {
  }

  lemma SameBaseSameHolding(codec: Codec, a: Wallet, x: Wallet, b: Wallet, y: Wallet)
    requires SameBase(a, x) && SameBase(b, y)
    ensures a.id == x.id && b.id == y.id
    ensures SameHolding(codec, a.source, b.source) <==> SameHolding(codec, x.source, y.source)
    ensures InOwnSpelling(codec, a.source) <==> InOwnSpelling(codec, x.source)
  {
    hide SharesAddress, IsCanonical;
  }

  lemma HeldOnceApply(codec: Codec, f: Index, op: Op)
    requires Sound(codec, f) && HasFirstAccounts(f) && HeldOnce(codec, f)
    requires Permitted(codec, f, op) && SpellsItsOwn(codec, op)
    ensures HeldOnce(codec, Apply(codec, f, op))
  {
    hide Sound, HasFirstAccounts, Permitted, Apply, SameHolding, InOwnSpelling;
    if op.Register? {
      HeldOnceRegister(codec, f, op.wallet, op.name);
    } else {
      var after := Apply(codec, f, op).wallets;
      forall a, b | a in after && b in after
        ensures InOwnSpelling(codec, a.source)
        ensures SameHolding(codec, a.source, b.source) ==> a.id == b.id
      {
        var x := OtherChangesKeepBases(codec, f, op, a);
        var y := OtherChangesKeepBases(codec, f, op, b);
        SameBaseSameHolding(codec, a, x, b, y);
      }
    }
  }

  lemma {:induction false} HeldOnceFinal(codec: Codec, f: Index, ops: seq<Op>)
    requires Sound(codec, f) && HasFirstAccounts(f) && HeldOnce(codec, f) && IsRun(codec, f, ops)
    requires forall op :: op in ops ==> SpellsItsOwn(codec, op)
    ensures HeldOnce(codec, Final(codec, f, ops))
    decreases |ops|
  {
    hide Sound, HasFirstAccounts, Permitted, Apply, HeldOnce, SpellsItsOwn;
    if ops != [] {
      assert ops[0] in ops && forall op :: op in ops[1..] ==> op in ops;
      SoundApply(codec, f, ops[0]);
      FirstAccountsApply(codec, f, ops[0]);
      HeldOnceApply(codec, f, ops[0]);
      HeldOnceFinal(codec, Apply(codec, f, ops[0]), ops[1..]);
    }
  }

  lemma HeldOnceApart(codec: Codec, f: Index, i: nat, j: nat)
    requires Sound(codec, f) && HeldOnce(codec, f) && i < j < |f.wallets|
    ensures !SameHolding(codec, f.wallets[i].source, f.wallets[j].source)
  {
    hide SameHolding, InOwnSpelling;
    assert f.wallets[i] in f.wallets && f.wallets[j] in f.wallets;
  }

  /**
   * After every run no two HD wallets have the same account 0, and no two wallets are the same private key,
   * the same path on the device or the same watched address, however the stored addresses are spelled. New
   * addresses come in the spelling that derivation and the watch command give them.
   */
  lemma NoAccountIsHeldTwice(codec: Codec, ops: seq<Op>, i: nat, j: nat)
    requires IsRun(codec, EMPTY, ops) && forall op :: op in ops ==> SpellsItsOwn(codec, op)
    requires i < j < |Final(codec, EMPTY, ops).wallets|
    ensures var wallets := Final(codec, EMPTY, ops).wallets;
            !SameHolding(codec, wallets[i].source, wallets[j].source)
  {
    hide Final, IsRun, SameHolding;
    FinalFromEmpty(codec, ops);
    HeldOnceFinal(codec, EMPTY, ops);
    HeldOnceApart(codec, Final(codec, EMPTY, ops), i, j);
  }
}
