/**
 * The wallet index (wallets.json) and the changes the keystore makes to it. The functions give each
 * change as a step on a value; class `WalletsFile` makes it in place, the way the index object is
 * mutated before it is written back. A change that throws is never written.
 */
module WalletIndex {
  import opened Addresses
  import opened Wrappers
  import opened Text
  import NumberText

  datatype ChainAddresses = ChainAddresses(tron: string, evm: string)

  // A seed's cached addresses by account index; an index prints as its key in the file.
  datatype Source =
    | Seed(vaultId: string, addresses: map<nat, ChainAddresses>)
    | PrivateKey(keyId: string, keyAddresses: ChainAddresses)
    | Ledger(family: Family, path: string, address: string)
    | Watch(family: Family, address: string)

  datatype Wallet = Wallet(id: string, source: Source)

  datatype Index = Index(
    version: int,
    active: Option<string>,
    wallets: seq<Wallet>,
    labels: map<string, string>
  )

  datatype IndexError =
    | LabelLength
    | LabelReserved
    | LabelInUse(holder: string)
    | AccountExists(name: string)
    | UnknownWallet
    | UnknownAccount

  const EMPTY: Index := Index(2, None, [], map[])

  // ----- Account references -----

  function Ref(walletId: string, index: Option<nat>): string {
    match index
    case None => walletId
    case Some(n) => walletId + "." + NumberText.Print(n, 10)
  }

  function WalletOf(ref: string): string { Before(ref, '.') }

  // ref.split(".")[1]; text after a further dot is ignored.
  function SlotText(ref: string): Option<string> {
    if '.' in ref then Some(Before(After(ref, '.'), '.')) else None
  }

  // ----- Labels -----

  const MAX_LABEL_LENGTH: nat := 64
  const RESERVED_PREFIX: string := "wlt_"

  function LabelKey(name: string): string { Lower(Trim(name)) }

  predicate IsStoredLabel(name: string) {
    Trim(name) != "" && !StartsWith(Trim(name), RESERVED_PREFIX)
  }

  function WalletLabel(input: string): Result<string, IndexError> {
    var value := Trim(input);
    if |value| < 1 || |value| > MAX_LABEL_LENGTH then Err(LabelLength)
    else if StartsWith(value, RESERVED_PREFIX) then Err(LabelReserved)
    else Ok(value)
  }

  function DerivedAccountLabel(base: Option<string>, index: nat): string {
    var suffix := "-" + NumberText.Print(index, 10);
    var room := if |suffix| <= MAX_LABEL_LENGTH then MAX_LABEL_LENGTH - |suffix| else 0;
    Take(if base.Some? then base.value else "hd", room) + suffix
  }

  function NumberedLabel(n: nat): string { "wallet-" + NumberText.Print(n, 10) }

  function UsedLabels(f: Index): set<string> { set l | l in f.labels.Values :: Lower(l) }

  // The first number from n on whose label is free.
  function FreeNumber(used: set<string>, n: nat): nat
    decreases |used|
  {
    if NumberedLabel(n) in used then FreeNumber(used - {NumberedLabel(n)}, n + 1) else n
  }

  function DefaultLabel(f: Index): string {
    NumberedLabel(FreeNumber(UsedLabels(f), |f.wallets|))
  }

  predicate LabelTaken(f: Index, ref: string, name: string) {
    exists k :: k in f.labels && k != ref && LabelKey(f.labels[k]) == LabelKey(name)
  }

  predicate LabelRefused(f: Index, ref: string, name: string) {
    WalletLabel(name).Err? || LabelTaken(f, ref, WalletLabel(name).value)
  }

  function Relabelled(f: Index, ref: string, name: string): Index
    requires !LabelRefused(f, ref, name)
  {
    f.(labels := f.labels[ref := WalletLabel(name).value])
  }

  // ----- Accounts -----

  predicate IsLeast(keys: set<nat>, n: nat) {
    n in keys && forall k :: k in keys ==> n <= k
  }

  function LeastKey(keys: set<nat>): (n: nat)
    requires keys != {}
    ensures IsLeast(keys, n)
  {
    LeastExists(keys);
    var n :| n in keys && IsLeast(keys, n);
    n
  }

  lemma {:induction false} LeastExists(keys: set<nat>)
    requires keys != {}
    ensures exists n :: n in keys && IsLeast(keys, n)
    decreases |keys|
  {
    var n :| n in keys;
    var rest := keys - {n};
    if rest == {} {
      assert keys == {n} && IsLeast(keys, n);
    } else {
      LeastExists(rest);
      var m :| m in rest && IsLeast(rest, m);
      assert keys == rest + {n};
      assert IsLeast(keys, if n <= m then n else m);
    }
  }

  // Lowest cached seed index (zero if there is none); None for other sources.
  function FirstIndex(w: Wallet): Option<nat> {
    if w.source.Seed? then Some(if w.source.addresses.Keys == {} then 0 else LeastKey(w.source.addresses.Keys))
    else None
  }

  function FirstAccount(f: Index): Option<string> {
    if f.wallets == [] then None else Some(Ref(f.wallets[0].id, FirstIndex(f.wallets[0])))
  }

  // The position of the wallet with this id, or |wallets|.
  function Find(wallets: seq<Wallet>, id: string): (i: nat)
    ensures i <= |wallets|
    ensures i < |wallets| ==> wallets[i].id == id
    ensures forall k :: 0 <= k < i ==> wallets[k].id != id
  {
    if wallets == [] || wallets[0].id == id then 0 else 1 + Find(wallets[1..], id)
  }

  function OtherWallets(wallets: seq<Wallet>, id: string): seq<Wallet> {
    if wallets == [] then []
    else (if wallets[0].id == id then [] else [wallets[0]]) + OtherWallets(wallets[1..], id)
  }

  // ----- Registration -----

  // Cached addresses are compared in canonical spelling; the new ones are fresh from the codec.
  predicate SameAccount(codec: Codec, cached: ChainAddresses, derived: ChainAddresses) {
    Canonical(codec, Tron, cached.tron) == derived.tron || Canonical(codec, Evm, cached.evm) == derived.evm
  }

  function MatchingSlots(codec: Codec, addresses: map<nat, ChainAddresses>, derived: ChainAddresses): set<nat> {
    set n | n in addresses && SameAccount(codec, addresses[n], derived)
  }

  // The account of w that the new source re-registers, if any.
  function DuplicateIn(codec: Codec, w: Wallet, source: Source): Option<string> {
    match source
    case Seed(_, addresses) =>
      if 0 in addresses && w.source.Seed? && MatchingSlots(codec, w.source.addresses, addresses[0]) != {} then
        Some(Ref(w.id, Some(LeastKey(MatchingSlots(codec, w.source.addresses, addresses[0])))))
      else None
    case PrivateKey(_, addresses) =>
      if w.source.PrivateKey? && SameAccount(codec, w.source.keyAddresses, addresses) then Some(w.id) else None
    case Ledger(family, path, _) =>
      if w.source.Ledger? && w.source.family == family && w.source.path == path then Some(w.id) else None
    case Watch(family, address) =>
      if w.source.Watch? && w.source.family == family && w.source.address == address then Some(w.id) else None
  }

  function DuplicateOf(codec: Codec, wallets: seq<Wallet>, source: Source): Option<string> {
    if wallets == [] then None
    else if DuplicateIn(codec, wallets[0], source).Some? then DuplicateIn(codec, wallets[0], source)
    else DuplicateOf(codec, wallets[1..], source)
  }

  datatype Mutation = Mutation(account: string, created: bool, changed: bool)

  predicate Selects(w: Wallet) { !w.source.Watch? }

  function NewRef(w: Wallet): string { Ref(w.id, if w.source.Seed? then Some(0) else None) }

  function WithWallet(f: Index, w: Wallet): Index { f.(wallets := f.wallets + [w]) }

  // The label to store: the given one, or the next free wallet-<n> counting the new wallet.
  function LabelToStore(f: Index, name: Option<string>): string {
    if name.Some? then name.value else DefaultLabel(f)
  }

  // What registerWallet makes of the index; None when it throws because of the label.
  function RegisterStep(codec: Codec, f: Index, w: Wallet, name: Option<string>): Option<Index> {
    var duplicate := DuplicateOf(codec, f.wallets, w.source);
    if duplicate.Some? then Some(if Selects(w) then f.(active := duplicate) else f)
    else
      var pushed := WithWallet(f, w);
      var text := LabelToStore(pushed, name);
      if LabelRefused(pushed, NewRef(w), text) then None
      else
        var labelled := Relabelled(pushed, NewRef(w), text);
        Some(if Selects(w) then labelled.(active := Some(NewRef(w))) else labelled)
  }

  function RegisterResult(codec: Codec, f: Index, w: Wallet): Mutation {
    var duplicate := DuplicateOf(codec, f.wallets, w.source);
    if duplicate.Some? then Mutation(duplicate.value, false, Selects(w)) else Mutation(NewRef(w), true, true)
  }

  // ----- HD accounts -----

  // Number arithmetic wraps at 32 bits: (max + 1) | 0.
  function ToInt32(n: int): int {
    var low := n % 0x1_0000_0000;
    if low >= 0x8000_0000 then low - 0x1_0000_0000 else low
  }

  function GreatestKey(keys: set<nat>): (n: int)
    ensures forall k :: k in keys ==> k <= n
    ensures if keys == {} then n == -1 else n in keys
    decreases |keys|
  {
    if keys == {} then -1
    else
      var least := LeastKey(keys);
      var rest := keys - {least};
      assert keys == rest + {least};
      if rest == {} then least else GreatestKey(rest)
  }

  function NextAccountIndex(addresses: map<nat, ChainAddresses>): int {
    ToInt32(GreatestKey(addresses.Keys) + 1)
  }

  function WithSlot(f: Index, at: nat, index: nat, derived: ChainAddresses): Index
    requires at < |f.wallets| && f.wallets[at].source.Seed?
  {
    var source := f.wallets[at].source;
    f.(wallets := f.wallets[at := f.wallets[at].(source := source.(addresses := source.addresses[index := derived]))])
  }

  function SlotLabel(f: Index, walletId: string, index: nat, name: Option<string>): string {
    if name.Some? then name.value
    else
      var first := Ref(walletId, Some(0));
      DerivedAccountLabel(if first in f.labels then Some(f.labels[first]) else None, index)
  }

  // A stored account is only relabelled by a rename; the same label, ignoring case, is accepted.
  predicate RelabelsStored(f: Index, ref: string, name: Option<string>) {
    && name.Some?
    && (ref in f.labels ==> LabelKey(f.labels[ref]) != LabelKey(name.value))
  }

  // Selects slot `index` of the wallet at position `at`; `derived` holds the addresses of a new slot.
  function SelectStep(f: Index, at: nat, index: nat, derived: Option<ChainAddresses>, name: Option<string>)
    : Option<Index>
    requires at < |f.wallets| && f.wallets[at].source.Seed?
  {
    var ref := Ref(f.wallets[at].id, Some(index));
    if derived.None? then
      if RelabelsStored(f, ref, name) then None else Some(f.(active := Some(ref)))
    else
      var text := SlotLabel(f, f.wallets[at].id, index, name);
      var stored := WithSlot(f, at, index, derived.value);
      if LabelRefused(stored, ref, text) then None
      else Some(Relabelled(stored, ref, text).(active := Some(ref)))
  }

  // ----- Removal -----

  // Members every object inherits; the `in` operator finds them in any address map.
  predicate IsInherited(name: string) {
    name in {
      "constructor", "toString", "toLocaleString", "valueOf", "hasOwnProperty", "isPrototypeOf",
      "propertyIsEnumerable", "__proto__", "__defineGetter__", "__defineSetter__", "__lookupGetter__",
      "__lookupSetter__"
    }
  }

  datatype Removal = Removal(
    account: string, wholeWallet: bool, removedWallet: Option<Wallet>, newActive: Option<string>)

  function WithoutSlots(addresses: map<nat, ChainAddresses>, slot: string): map<nat, ChainAddresses> {
    map n | n in addresses && NumberText.Print(n, 10) != slot :: addresses[n]
  }

  predicate HasSlot(addresses: map<nat, ChainAddresses>, slot: string) {
    exists n :: n in addresses && NumberText.Print(n, 10) == slot
  }

  predicate HasSecret(s: Source) { s.Seed? || s.PrivateKey? }

  predicate NamesSlot(f: Index, ref: string) {
    var at := Find(f.wallets, WalletOf(ref));
    && at < |f.wallets| && f.wallets[at].source.Seed?
    && SlotText(ref).Some? && SlotText(ref).value != "0"
  }

  // The label k belongs to the wallet or to one of its accounts.
  predicate BelongsTo(k: string, walletId: string) { k == walletId || StartsWith(k, walletId + ".") }

  function OtherLabels(labels: map<string, string>, walletId: string): map<string, string> {
    map k | k in labels && !BelongsTo(k, walletId) :: labels[k]
  }

  predicate ActiveIn(f: Index, walletId: string) {
    f.active.Some? && WalletOf(f.active.value) == walletId
  }

  function RemoveWalletStep(f: Index, walletId: string): Index {
    var rest := f.(wallets := OtherWallets(f.wallets, walletId), labels := OtherLabels(f.labels, walletId));
    if ActiveIn(f, walletId) then rest.(active := FirstAccount(rest)) else rest
  }

  function RemoveSlotStep(f: Index, at: nat, ref: string, slot: string): Index
    requires at < |f.wallets| && f.wallets[at].source.Seed?
  {
    var w := f.wallets[at];
    var addresses := WithoutSlots(w.source.addresses, slot);
    var emptied := addresses.Keys == {};
    var kept := f.wallets[at := w.(source := w.source.(addresses := addresses))];
    var rest := f.(wallets := if emptied then OtherWallets(kept, w.id) else kept,
                   labels := f.labels - (if emptied then {ref, w.id} else {ref}));
    if f.active == Some(ref) || (emptied && ActiveIn(f, w.id)) then rest.(active := FirstAccount(rest)) else rest
  }

  function RemoveStep(f: Index, ref: string): Result<Index, IndexError> {
    var at := Find(f.wallets, WalletOf(ref));
    if at == |f.wallets| then Err(UnknownWallet)
    else if NamesSlot(f, ref) then
      var slot := SlotText(ref).value;
      if !HasSlot(f.wallets[at].source.addresses, slot) && !IsInherited(slot) then Err(UnknownAccount)
      else Ok(RemoveSlotStep(f, at, ref, slot))
    else Ok(RemoveWalletStep(f, WalletOf(ref)))
  }

  // The wallet whose secret file is deleted after the index is written.
  function RemovedWallet(f: Index, ref: string): Option<Wallet>
    requires RemoveStep(f, ref).Ok?
  {
    var w := f.wallets[Find(f.wallets, WalletOf(ref))];
    if NamesSlot(f, ref) then
      var addresses := WithoutSlots(w.source.addresses, SlotText(ref).value);
      if addresses.Keys == {} then Some(w.(source := w.source.(addresses := addresses))) else None
    else if HasSecret(w.source) then Some(w)
    else None
  }

  function RemovalResult(f: Index, ref: string): Removal
    requires RemoveStep(f, ref).Ok?
  {
    var removed := RemovedWallet(f, ref);
    Removal(if NamesSlot(f, ref) then ref else WalletOf(ref), !NamesSlot(f, ref) || removed.Some?, removed,
            RemoveStep(f, ref).value.active)
  }

  /** The index object, changed in place. */
  class WalletsFile {
    var version: int
    var active: Option<string>
    var wallets: seq<Wallet>
    var labels: map<string, string>

    function State(): Index
      reads this
    {
      Index(version, active, wallets, labels)
    }

    constructor (f: Index)
      ensures State() == f
    {
      version, active, wallets, labels := f.version, f.active, f.wallets, f.labels;
    }

    method NextDefaultLabel() returns (name: string)
      ensures name == DefaultLabel(State())
    {
      var used := UsedLabels(State());
      var n: nat := |wallets|;
      ghost var left := used;
      while NumberedLabel(n) in used
        invariant |wallets| <= n && left <= used
        invariant FreeNumber(left, n) == FreeNumber(used, |wallets|)
        invariant forall m: nat :: n <= m && NumberedLabel(m) in used ==> NumberedLabel(m) in left
        decreases |left|
      {
        assert NumberedLabel(n) in left;
        ghost var rest := left - {NumberedLabel(n)};
        forall m: nat | n + 1 <= m && NumberedLabel(m) in used
          ensures NumberedLabel(m) in rest
        {
          NumberedLabelsDiffer(m, n);
        }
        left := rest;
        n := n + 1;
      }
      name := NumberedLabel(n);
    }

    method AssignLabel(ref: string, name: Option<string>) returns (stored: Result<string, IndexError>)
      modifies this
      ensures var text := LabelToStore(old(State()), name);
              if LabelRefused(old(State()), ref, text) then
                && stored.Err? && State() == old(State())
                && (stored.error.LabelInUse? ==>
                      stored.error.holder in labels && stored.error.holder != ref
                      && LabelKey(labels[stored.error.holder]) == LabelKey(Trim(text)))
              else stored == WalletLabel(text) && State() == Relabelled(old(State()), ref, text)
    {
      var text;
      if name.Some? {
        text := name.value;
      } else {
        text := NextDefaultLabel();
      }
      stored := WalletLabel(text);
      if stored.Err? { return; }
      var keys := labels.Keys;
      while keys != {}
        invariant keys <= labels.Keys
        invariant forall k :: k in labels && k !in keys && k != ref ==> LabelKey(labels[k]) != LabelKey(stored.value)
        decreases |keys|
      {
        var k :| k in keys;
        if LabelKey(labels[k]) == LabelKey(stored.value) && k != ref {
          TrimIsIdempotent(text);
          return Err(LabelInUse(k));
        }
        keys := keys - {k};
      }
      labels := labels[ref := stored.value];
    }

    method FindDuplicate(codec: Codec, source: Source) returns (ref: Option<string>)
      ensures ref == DuplicateOf(codec, wallets, source)
    {
      var i := 0;
      while i < |wallets|
        invariant 0 <= i <= |wallets|
        invariant DuplicateOf(codec, wallets, source) == DuplicateOf(codec, wallets[i..], source)
      {
        ref := DuplicateIn(codec, wallets[i], source);
        if ref.Some? { return; }
        assert wallets[i..][1..] == wallets[i + 1..];
        i := i + 1;
      }
      ref := None;
    }

    // On a refused label the wallet has already been pushed; the caller discards the object.
    method RegisterWallet(codec: Codec, w: Wallet, name: Option<string>) returns (result: Result<Mutation, IndexError>)
      modifies this
      ensures var step := RegisterStep(codec, old(State()), w, name);
              if step.Some? then State() == step.value && result == Ok(RegisterResult(codec, old(State()), w))
              else result.Err? && State() == WithWallet(old(State()), w)
    {
      var duplicate := FindDuplicate(codec, w.source);
      if duplicate.Some? {
        if Selects(w) {
          active := duplicate;
        }
        return Ok(Mutation(duplicate.value, false, Selects(w)));
      }
      var ref := NewRef(w);
      wallets := wallets + [w];
      var stored := AssignLabel(ref, name);
      if stored.Err? {
        return Err(stored.error);
      }
      if Selects(w) {
        active := Some(ref);
      }
      result := Ok(Mutation(ref, true, true));
    }

    method SelectDerivedAccount(at: nat, index: nat, derived: Option<ChainAddresses>, name: Option<string>)
      returns (result: Result<Mutation, IndexError>)
      requires at < |wallets| && wallets[at].source.Seed?
      modifies this
      ensures var step := SelectStep(old(State()), at, index, derived, name);
              if step.Some? then
                && State() == step.value
                && result == Ok(Mutation(Ref(old(wallets)[at].id, Some(index)), derived.Some?, true))
              else
                && result.Err?
                && State() == if derived.None? then old(State()) else WithSlot(old(State()), at, index, derived.value)
    {
      var ref := Ref(wallets[at].id, Some(index));
      if derived.None? && RelabelsStored(State(), ref, name) {
        return Err(AccountExists(if ref in labels then labels[ref] else ref));
      }
      if derived.Some? {
        var source := wallets[at].source;
        var text := SlotLabel(State(), wallets[at].id, index, name);
        var addresses := source.addresses[index := derived.value];
        wallets := wallets[at := wallets[at].(source := source.(addresses := addresses))];
        var stored := AssignLabel(ref, Some(text));
        if stored.Err? {
          return Err(stored.error);
        }
      }
      active := Some(ref);
      result := Ok(Mutation(ref, derived.Some?, true));
    }

    method DropLabels(walletId: string)
      modifies this`labels
      ensures labels == OtherLabels(old(labels), walletId)
    {
      var keys := labels.Keys;
      while keys != {}
        invariant keys <= labels.Keys <= old(labels).Keys
        invariant forall k :: k in labels ==> labels[k] == old(labels)[k]
        invariant forall k :: k in old(labels) ==> (k in labels <==> k in keys || !BelongsTo(k, walletId))
        decreases |keys|
      {
        var k :| k in keys;
        if BelongsTo(k, walletId) {
          labels := labels - {k};
        }
        keys := keys - {k};
      }
    }

    method RemoveSlot(at: nat, ref: string, slot: string) returns (result: Result<Removal, IndexError>)
      requires at < |wallets| && wallets[at].source.Seed?
      modifies this
      ensures State() == RemoveSlotStep(old(State()), at, ref, slot)
      ensures var w := old(wallets)[at];
              var addresses := WithoutSlots(w.source.addresses, slot);
              var emptied := addresses.Keys == {};
              result == Ok(Removal(ref, emptied,
                                   if emptied then Some(w.(source := w.source.(addresses := addresses))) else None,
                                   active))
    {
      hide OtherWallets, WithoutSlots;
      var w := wallets[at];
      var addresses := WithoutSlots(w.source.addresses, slot);
      w := w.(source := w.source.(addresses := addresses));
      wallets := wallets[at := w];
      labels := labels - {ref};
      var emptied := addresses.Keys == {};
      if emptied {
        wallets := OtherWallets(wallets, w.id);
        labels := labels - {w.id};
      }
      if active == Some(ref) || (emptied && ActiveIn(State(), w.id)) {
        active := FirstAccount(State());
      }
      result := Ok(Removal(ref, emptied, if emptied then Some(w) else None, active));
    }

    method RemoveAccount(ref: string) returns (result: Result<Removal, IndexError>)
      modifies this
      ensures match RemoveStep(old(State()), ref)
              case Err(error) => result == Err(error) && State() == old(State())
              case Ok(f) =>
                State() == f && result == Ok(RemovalResult(old(State()), ref))
    {
      var walletId := WalletOf(ref);
      var at := Find(wallets, walletId);
      if at == |wallets| {
        return Err(UnknownWallet);
      }
      var w := wallets[at];
      if w.source.Seed? && SlotText(ref).Some? && SlotText(ref).value != "0" {
        var slot := SlotText(ref).value;
        if !HasSlot(w.source.addresses, slot) && !IsInherited(slot) {
          return Err(UnknownAccount);
        }
        result := RemoveSlot(at, ref, slot);
        return;
      }
      wallets := OtherWallets(wallets, walletId);
      DropLabels(walletId);
      if ActiveIn(State(), walletId) {
        active := FirstAccount(State());
      }
      result := Ok(Removal(walletId, true, if HasSecret(w.source) then Some(w) else None, active));
    }
  }

  lemma NumberedLabelsDiffer(m: nat, n: nat)
    requires m != n
    ensures NumberedLabel(m) != NumberedLabel(n)
  {
    if NumberedLabel(m) == NumberedLabel(n) {
      assert NumberedLabel(m)[7..] == NumberText.Print(m, 10);
      assert NumberedLabel(n)[7..] == NumberText.Print(n, 10);
      NumberText.PrintIsInjective(m, n, 10);
    }
  }
}
