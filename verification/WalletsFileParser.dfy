/**
 * Loading wallets.json: `ParseWalletsFile` accepts a document by the rules of the write paths, and
 * returns it with its two optional members filled in. Source kinds it does not know pass through.
 */
module WalletsFileParser {
  import opened Addresses
  import opened Wrappers
  import opened Text
  import NumberText
  import opened WalletIndex
  import opened WalletIndexRuns

  datatype Json =
    | JNull
    | JBool(flag: bool)
    | JNumber(number: int)
    | JString(text: string)
    | JArray(items: seq<Json>)
    | JObject(members: map<string, Json>)

  predicate HasText(members: map<string, Json>, key: string) {
    key in members && members[key].JString?
  }

  function FamilyOf(name: string): Option<Family> {
    if name == "tron" then Some(Tron) else if name == "evm" then Some(Evm) else None
  }

  // /^(0|[1-9]\d*)$/
  predicate IsAccountIndex(key: string) { NumberText.IsCanonical(key, 10) }

  predicate IsChainAddresses(codec: Codec, j: Json) {
    && j.JObject?
    && HasText(j.members, "tron") && IsAddress(codec, Tron, j.members["tron"].text)
    && HasText(j.members, "evm") && IsAddress(codec, Evm, j.members["evm"].text)
  }

  predicate IsSingleAddress(codec: Codec, members: map<string, Json>) {
    && HasText(members, "family") && FamilyOf(members["family"].text).Some?
    && HasText(members, "address")
    && IsAddress(codec, FamilyOf(members["family"].text).value, members["address"].text)
  }

  predicate AcceptsAddressMap(codec: Codec, addresses: map<string, Json>) {
    forall key :: key in addresses ==> IsAccountIndex(key) && IsChainAddresses(codec, addresses[key])
  }

  predicate AcceptsSource(codec: Codec, members: map<string, Json>) {
    && HasText(members, "type")
    && match members["type"].text
       case "seed" =>
         && HasText(members, "vaultId") && IsBlobId(members["vaultId"].text)
         && "addresses" in members && members["addresses"].JObject?
         && AcceptsAddressMap(codec, members["addresses"].members)
       case "privateKey" =>
         && HasText(members, "keyId") && IsBlobId(members["keyId"].text)
         && "addresses" in members && IsChainAddresses(codec, members["addresses"])
       case "ledger" => HasText(members, "path") && members["path"].text != "" && IsSingleAddress(codec, members)
       case "watch" => IsSingleAddress(codec, members)
       case _ => true
  }

  predicate AcceptsWallet(codec: Codec, j: Json) {
    && j.JObject?
    && HasText(j.members, "id") && IsWalletId(j.members["id"].text)
    && "source" in j.members && j.members["source"].JObject?
    && AcceptsSource(codec, j.members["source"].members)
  }

  function IdOf(codec: Codec, j: Json): string
    requires AcceptsWallet(codec, j)
  {
    j.members["id"].text
  }

  predicate AcceptsLabels(labels: map<string, Json>) {
    && (forall ref :: ref in labels ==> labels[ref].JString? && IsStoredLabel(labels[ref].text))
    && (forall a, b :: a in labels && b in labels && a != b ==> LabelKey(labels[a].text) != LabelKey(labels[b].text))
  }

  predicate AcceptsWallets(codec: Codec, wallets: seq<Json>) {
    && (forall i :: 0 <= i < |wallets| ==> AcceptsWallet(codec, wallets[i]))
    && (forall i, j :: 0 <= i < j < |wallets| ==> IdOf(codec, wallets[i]) != IdOf(codec, wallets[j]))
  }

  function OrDefault(members: map<string, Json>, key: string, default: Json): Json {
    if key in members then members[key] else default
  }

  predicate Accepts(codec: Codec, raw: Json) {
    && raw.JObject?
    && "version" in raw.members && raw.members["version"].JNumber?
    && (var active := OrDefault(raw.members, "activeAccount", JNull); active.JNull? || active.JString?)
    && "wallets" in raw.members && raw.members["wallets"].JArray?
    && (var labels := OrDefault(raw.members, "labels", JObject(map[]));
        labels.JObject? && AcceptsLabels(labels.members))
    && AcceptsWallets(codec, raw.members["wallets"].items)
  }

  function WithDefaults(raw: Json): Json
    requires raw.JObject?
  {
    JObject(raw.members["activeAccount" := OrDefault(raw.members, "activeAccount", JNull)]
                       ["labels" := OrDefault(raw.members, "labels", JObject(map[]))])
  }

  method CheckLabels(labels: map<string, Json>) returns (ok: bool)
    ensures ok <==> AcceptsLabels(labels)
  {
    hide LabelKey, IsStoredLabel;
    var seen: set<string> := {};
    var refs := labels.Keys;
    while refs != {}
      invariant refs <= labels.Keys
      invariant forall ref :: ref in labels && ref !in refs ==>
                  labels[ref].JString? && IsStoredLabel(labels[ref].text) && LabelKey(labels[ref].text) in seen
      invariant forall key :: key in seen ==>
                  exists ref :: && ref in labels && ref !in refs && labels[ref].JString?
                                && LabelKey(labels[ref].text) == key
      invariant forall a, b :: a in labels && b in labels && a !in refs && b !in refs && a != b ==>
                  LabelKey(labels[a].text) != LabelKey(labels[b].text)
      decreases |refs|
    {
      var ref :| ref in refs;
      if !labels[ref].JString? || !IsStoredLabel(labels[ref].text) { return false; }
      if LabelKey(labels[ref].text) in seen { return false; }
      seen := seen + {LabelKey(labels[ref].text)};
      refs := refs - {ref};
    }
    ok := true;
  }

  method CheckAddressMap(codec: Codec, addresses: map<string, Json>) returns (ok: bool)
    ensures ok <==> AcceptsAddressMap(codec, addresses)
  {
    var keys := addresses.Keys;
    while keys != {}
      invariant keys <= addresses.Keys
      invariant forall key :: key in addresses && key !in keys ==>
                  IsAccountIndex(key) && IsChainAddresses(codec, addresses[key])
      decreases |keys|
    {
      var key :| key in keys;
      if !IsAccountIndex(key) || !IsChainAddresses(codec, addresses[key]) { return false; }
      keys := keys - {key};
    }
    ok := true;
  }

  method CheckWallet(codec: Codec, j: Json) returns (ok: bool)
    ensures ok <==> AcceptsWallet(codec, j)
  {
    if !j.JObject? || !HasText(j.members, "id") || !IsWalletId(j.members["id"].text) { return false; }
    if "source" !in j.members || !j.members["source"].JObject? { return false; }
    var source := j.members["source"].members;
    if !HasText(source, "type") { return false; }
    match source["type"].text
    case "seed" =>
      if !HasText(source, "vaultId") || !IsBlobId(source["vaultId"].text) { return false; }
      if "addresses" !in source || !source["addresses"].JObject? { return false; }
      ok := CheckAddressMap(codec, source["addresses"].members);
    case "privateKey" =>
      if !HasText(source, "keyId") || !IsBlobId(source["keyId"].text) { return false; }
      ok := "addresses" in source && IsChainAddresses(codec, source["addresses"]);
    case "ledger" =>
      if !HasText(source, "path") || source["path"].text == "" { return false; }
      ok := IsSingleAddress(codec, source);
    case "watch" => ok := IsSingleAddress(codec, source);
    case _ => ok := true;
  }

  method CheckWallets(codec: Codec, wallets: seq<Json>) returns (ok: bool)
    ensures ok <==> AcceptsWallets(codec, wallets)
  {
    var ids: set<string> := {};
    var i := 0;
    while i < |wallets|
      invariant 0 <= i <= |wallets|
      invariant forall k :: 0 <= k < i ==> AcceptsWallet(codec, wallets[k]) && IdOf(codec, wallets[k]) in ids
      invariant forall id :: id in ids ==>
                  exists k :: 0 <= k < i && AcceptsWallet(codec, wallets[k]) && IdOf(codec, wallets[k]) == id
      invariant forall k, l :: 0 <= k < l < i ==> IdOf(codec, wallets[k]) != IdOf(codec, wallets[l])
    {
      ok := CheckWallet(codec, wallets[i]);
      if !ok { return; }
      var id := wallets[i].members["id"].text;
      if id in ids { return false; }
      ids := ids + {id};
      i := i + 1;
    }
    ok := true;
  }

  method ParseWalletsFile(codec: Codec, raw: Json) returns (parsed: Option<Json>)
    ensures parsed == if Accepts(codec, raw) then Some(WithDefaults(raw)) else None
  {
    if !raw.JObject? { return None; }
    if "version" !in raw.members || !raw.members["version"].JNumber? { return None; }
    var active := OrDefault(raw.members, "activeAccount", JNull);
    if !active.JNull? && !active.JString? { return None; }
    if "wallets" !in raw.members || !raw.members["wallets"].JArray? { return None; }
    var labels := OrDefault(raw.members, "labels", JObject(map[]));
    if !labels.JObject? { return None; }
    var ok := CheckLabels(labels.members);
    if !ok { return None; }
    ok := CheckWallets(codec, raw.members["wallets"].items);
    if !ok { return None; }
    parsed := Some(JObject(raw.members["activeAccount" := active]["labels" := labels]));
  }

  // ----- Writing the index -----

  function FamilyName(f: Family): string { if f == Tron then "tron" else "evm" }

  function AddressesJson(a: ChainAddresses): Json {
    JObject(map["tron" := JString(a.tron), "evm" := JString(a.evm)])
  }

  function AddressMapJson(addresses: map<nat, ChainAddresses>): map<string, Json> {
    var keys := set n | n in addresses :: NumberText.Print(n, 10);
    map key | key in keys :: AddressesJson(addresses[KeyIndex(addresses, key)])
  }

  function KeyIndex(addresses: map<nat, ChainAddresses>, key: string): (n: nat)
    requires exists n :: n in addresses && NumberText.Print(n, 10) == key
    ensures n in addresses && NumberText.Print(n, 10) == key
  {
    ghost var m :| m in addresses && NumberText.Print(m, 10) == key;
    NumberText.PrintReadsBack(m, 10);
    NumberText.Value(key, 10)
  }

  function SourceJson(s: Source): Json {
    match s
    case Seed(vaultId, addresses) =>
      JObject(map["type" := JString("seed"), "vaultId" := JString(vaultId),
                  "addresses" := JObject(AddressMapJson(addresses))])
    case PrivateKey(keyId, addresses) =>
      JObject(map["type" := JString("privateKey"), "keyId" := JString(keyId), "addresses" := AddressesJson(addresses)])
    case Ledger(family, path, address) =>
      JObject(map["type" := JString("ledger"), "family" := JString(FamilyName(family)),
                  "path" := JString(path), "address" := JString(address)])
    case Watch(family, address) =>
      JObject(map["type" := JString("watch"), "family" := JString(FamilyName(family)), "address" := JString(address)])
  }

  function WalletJson(w: Wallet): Json {
    JObject(map["id" := JString(w.id), "source" := SourceJson(w.source)])
  }

  function WalletsJson(wallets: seq<Wallet>): seq<Json> {
    seq(|wallets|, i requires 0 <= i < |wallets| => WalletJson(wallets[i]))
  }

  function LabelsJson(labels: map<string, string>): map<string, Json> {
    map ref | ref in labels :: JString(labels[ref])
  }

  function ToJson(f: Index): Json {
    JObject(map["version" := JNumber(f.version),
                "activeAccount" := if f.active.Some? then JString(f.active.value) else JNull,
                "wallets" := JArray(WalletsJson(f.wallets)),
                "labels" := JObject(LabelsJson(f.labels))])
  }

  // ----- What loading accepts of a written index -----

  predicate LoadableSource(codec: Codec, s: Source) {
    if s.Seed? then IsBlobId(s.vaultId) && forall n :: n in s.addresses ==> ValidAddresses(codec, s.addresses[n])
    else ValidSource(codec, s)
  }

  predicate LoadableWallet(codec: Codec, w: Wallet) { IsWalletId(w.id) && LoadableSource(codec, w.source) }

  predicate LoadableLabels(labels: map<string, string>) {
    && (forall ref :: ref in labels ==> IsStoredLabel(labels[ref]))
    && (forall a, b :: a in labels && b in labels && a != b ==> LabelKey(labels[a]) != LabelKey(labels[b]))
  }

  predicate LoadableWallets(codec: Codec, wallets: seq<Wallet>) {
    && (forall i :: 0 <= i < |wallets| ==> LoadableWallet(codec, wallets[i]))
    && (forall i, j :: 0 <= i < j < |wallets| ==> wallets[i].id != wallets[j].id)
  }

  lemma AddressMapAccepted(codec: Codec, addresses: map<nat, ChainAddresses>)
    ensures AcceptsAddressMap(codec, AddressMapJson(addresses)) <==>
            forall n :: n in addresses ==> ValidAddresses(codec, addresses[n])
  {
    var json := AddressMapJson(addresses);
    forall key | key in json
      ensures IsAccountIndex(key)
      ensures IsChainAddresses(codec, json[key]) <==> ValidAddresses(codec, addresses[KeyIndex(addresses, key)])
    {
      NumberText.PrintReadsBack(KeyIndex(addresses, key), 10);
    }
    forall n | n in addresses
      ensures NumberText.Print(n, 10) in json && KeyIndex(addresses, NumberText.Print(n, 10)) == n
    {
      NumberText.PrintReadsBack(n, 10);
      NumberText.PrintReadsBack(KeyIndex(addresses, NumberText.Print(n, 10)), 10);
    }
  }

  lemma SoftwareSourceAccepted(codec: Codec, s: Source)
    requires HasSecret(s)
    ensures AcceptsSource(codec, SourceJson(s).members) <==> LoadableSource(codec, s)
  {
    hide IsBlobId, AcceptsAddressMap, AddressMapJson;
    if s.Seed? {
      AddressMapAccepted(codec, s.addresses);
    }
  }

  lemma AddressSourceAccepted(codec: Codec, s: Source)
    requires !HasSecret(s)
    ensures AcceptsSource(codec, SourceJson(s).members) <==> LoadableSource(codec, s)
  {
  }

  lemma WalletAccepted(codec: Codec, w: Wallet)
    ensures AcceptsWallet(codec, WalletJson(w)) <==> LoadableWallet(codec, w)
    ensures WalletJson(w).members["id"].text == w.id
  {
    hide AcceptsSource, LoadableSource, IsWalletId;
    if HasSecret(w.source) {
      SoftwareSourceAccepted(codec, w.source);
    } else {
      AddressSourceAccepted(codec, w.source);
    }
  }

  lemma WalletsAccepted(codec: Codec, wallets: seq<Wallet>)
    ensures AcceptsWallets(codec, WalletsJson(wallets)) <==> LoadableWallets(codec, wallets)
  {
    forall i | 0 <= i < |wallets|
      ensures AcceptsWallet(codec, WalletsJson(wallets)[i]) <==> LoadableWallet(codec, wallets[i])
      ensures WalletsJson(wallets)[i].members["id"].text == wallets[i].id
    {
      WalletAccepted(codec, wallets[i]);
    }
    hide WalletJson, AcceptsWallet, LoadableWallet;
  }

  lemma LabelsAccepted(labels: map<string, string>)
    ensures AcceptsLabels(LabelsJson(labels)) <==> LoadableLabels(labels)
  {
    hide LabelKey, IsStoredLabel;
    var json := LabelsJson(labels);
    assert forall ref :: ref in labels <==> ref in json;
    assert forall ref :: ref in labels ==> json[ref] == JString(labels[ref]);
  }

  /** Labels are accepted when none is blank or begins like an id, and no two are the same ignoring case. */
  lemma LabelsLoadIff(labels: map<string, string>)
    ensures LoadableLabels(labels) <==>
            && (forall ref :: ref in labels ==> Trim(labels[ref]) != "" && !("wlt_" <= Trim(labels[ref])))
            && forall a, b :: a in labels && b in labels && a != b ==> Lower(Trim(labels[a])) != Lower(Trim(labels[b]))
  {
    hide Trim, Lower;
  }

  /** A written index is accepted exactly by the rules for its wallets and labels, each part on its own. */
  lemma IndexLoadsIff(codec: Codec, f: Index)
    ensures Accepts(codec, ToJson(f)) <==> LoadableWallets(codec, f.wallets) && LoadableLabels(f.labels)
  {
    hide AcceptsWallets, AcceptsLabels, LoadableWallets, LoadableLabels, WalletsJson, LabelsJson;
    WalletsAccepted(codec, f.wallets);
    LabelsAccepted(f.labels);
  }

  // ----- What an accepted document says -----

  // A wallet of a known kind, or one of a kind that only a newer version knows.
  datatype GivenWallet = Understood(wallet: Wallet) | Newer(id: string, kind: string)

  datatype Document = Document(
    version: int, active: Option<string>, wallets: seq<GivenWallet>, labels: map<string, string>)

  predicate GivesText(members: map<string, Json>, key: string, text: string) {
    key in members && members[key] == JString(text)
  }

  predicate GivesAddresses(j: Json, a: ChainAddresses) {
    j.JObject? && GivesText(j.members, "tron", a.tron) && GivesText(j.members, "evm", a.evm)
  }

  // One member for each account, under its index.
  ghost predicate GivesSlots(j: Json, addresses: map<nat, ChainAddresses>) {
    && j.JObject?
    && (forall key :: key in j.members ==> exists n :: n in addresses && key == NumberText.Print(n, 10))
    && (forall n :: n in addresses ==>
          NumberText.Print(n, 10) in j.members && GivesAddresses(j.members[NumberText.Print(n, 10)], addresses[n]))
  }

  predicate GivesFamily(members: map<string, Json>, family: Family) {
    GivesText(members, "family", if family == Tron then "tron" else "evm")
  }

  ghost predicate GivesSource(members: map<string, Json>, s: Source) {
    match s
    case Seed(vaultId, addresses) =>
      && GivesText(members, "type", "seed") && GivesText(members, "vaultId", vaultId)
      && "addresses" in members && GivesSlots(members["addresses"], addresses)
    case PrivateKey(keyId, addresses) =>
      && GivesText(members, "type", "privateKey") && GivesText(members, "keyId", keyId)
      && "addresses" in members && GivesAddresses(members["addresses"], addresses)
    case Ledger(family, path, address) =>
      && GivesText(members, "type", "ledger") && GivesFamily(members, family)
      && GivesText(members, "path", path) && GivesText(members, "address", address)
    case Watch(family, address) =>
      GivesText(members, "type", "watch") && GivesFamily(members, family) && GivesText(members, "address", address)
  }

  function GivenId(w: GivenWallet): string { if w.Understood? then w.wallet.id else w.id }

  ghost predicate GivesWallet(j: Json, w: GivenWallet) {
    && j.JObject? && GivesText(j.members, "id", GivenId(w))
    && "source" in j.members && j.members["source"].JObject?
    && match w
       case Understood(wallet) => GivesSource(j.members["source"].members, wallet.source)
       case Newer(_, kind) =>
         GivesText(j.members["source"].members, "type", kind) && kind !in {"seed", "privateKey", "ledger", "watch"}
  }

  // A missing list of labels is empty, and a missing active account is none.
  ghost predicate Gives(raw: Json, d: Document) {
    && raw.JObject?
    && "version" in raw.members && raw.members["version"] == JNumber(d.version)
    && (if d.active.Some? then GivesText(raw.members, "activeAccount", d.active.value)
        else "activeAccount" in raw.members ==> raw.members["activeAccount"].JNull?)
    && "wallets" in raw.members && raw.members["wallets"].JArray?
    && GivesWallets(raw.members["wallets"].items, d.wallets)
    && (if "labels" in raw.members then raw.members["labels"] == JObject(LabelsJson(d.labels)) else d.labels == map[])
  }

  ghost predicate GivesWallets(items: seq<Json>, wallets: seq<GivenWallet>) {
    |items| == |wallets| && forall i :: 0 <= i < |items| ==> GivesWallet(items[i], wallets[i])
  }

  predicate IsAcceptable(codec: Codec, w: GivenWallet) {
    if w.Understood? then LoadableWallet(codec, w.wallet) else IsWalletId(w.id)
  }

  predicate AreAcceptable(codec: Codec, wallets: seq<GivenWallet>) {
    && (forall i :: 0 <= i < |wallets| ==> IsAcceptable(codec, wallets[i]))
    && (forall i, j :: 0 <= i < j < |wallets| ==> GivenId(wallets[i]) != GivenId(wallets[j]))
  }

  lemma SlotsAreGiven(codec: Codec, members: map<string, Json>) returns (addresses: map<nat, ChainAddresses>)
    requires AcceptsAddressMap(codec, members)
    ensures GivesSlots(JObject(members), addresses)
    ensures forall n :: n in addresses ==> ValidAddresses(codec, addresses[n])
  {
    hide IsAddress, NumberText.Value;
    forall key | key in members
      ensures NumberText.IsNumeral(key, 10) && NumberText.Print(NumberText.Value(key, 10), 10) == key
    {
      assert IsAccountIndex(key);
      NumberText.CanonicalPrints(key, 10);
    }
    var indices := set key | key in members :: NumberText.Value(key, 10);
    addresses := map n | n in indices ::
      ChainAddresses(members[NumberText.Print(n, 10)].members["tron"].text,
                     members[NumberText.Print(n, 10)].members["evm"].text);
    forall key | key in members
      ensures exists n :: n in addresses && key == NumberText.Print(n, 10)
    {
      assert NumberText.Value(key, 10) in addresses;
    }
    forall n | n in addresses
      ensures NumberText.Print(n, 10) in members
      ensures GivesAddresses(members[NumberText.Print(n, 10)], addresses[n]) && ValidAddresses(codec, addresses[n])
    {
      assert IsChainAddresses(codec, members[NumberText.Print(n, 10)]);
    }
  }

  lemma SlotsAreAccepted(codec: Codec, j: Json, addresses: map<nat, ChainAddresses>)
    requires GivesSlots(j, addresses) && forall n :: n in addresses ==> ValidAddresses(codec, addresses[n])
    ensures j.JObject? && AcceptsAddressMap(codec, j.members)
  {
    hide IsAddress;
    forall key | key in j.members
      ensures IsAccountIndex(key) && IsChainAddresses(codec, j.members[key])
    {
      var n :| n in addresses && key == NumberText.Print(n, 10);
      NumberText.PrintShape(n, 10);
      assert ValidAddresses(codec, addresses[n]);
    }
  }

  lemma SourceIsGiven(codec: Codec, members: map<string, Json>) returns (s: Source)
    requires AcceptsSource(codec, members) && members["type"].text in {"seed", "privateKey", "ledger", "watch"}
    ensures GivesSource(members, s) && LoadableSource(codec, s)
  {
    hide AcceptsAddressMap, GivesSlots, IsBlobId, IsAddress;
    var kind := members["type"].text;
    if kind == "seed" {
      var addresses := SlotsAreGiven(codec, members["addresses"].members);
      s := Seed(members["vaultId"].text, addresses);
    } else if kind == "privateKey" {
      var a := members["addresses"].members;
      s := PrivateKey(members["keyId"].text, ChainAddresses(a["tron"].text, a["evm"].text));
    } else {
      var family := FamilyOf(members["family"].text).value;
      s := if kind == "ledger" then Ledger(family, members["path"].text, members["address"].text)
           else Watch(family, members["address"].text);
    }
  }

  lemma SourceIsAccepted(codec: Codec, members: map<string, Json>, s: Source)
    requires GivesSource(members, s) && LoadableSource(codec, s)
    ensures AcceptsSource(codec, members)
  {
    hide AcceptsAddressMap, GivesSlots, IsBlobId, IsAddress;
    if s.Seed? {
      SlotsAreAccepted(codec, members["addresses"], s.addresses);
    }
  }

  lemma WalletIsGiven(codec: Codec, j: Json) returns (w: GivenWallet)
    requires AcceptsWallet(codec, j)
    ensures GivesWallet(j, w) && IsAcceptable(codec, w) && GivenId(w) == j.members["id"].text
  {
    hide GivesSource, LoadableSource, IsWalletId;
    var source := j.members["source"].members;
    AcceptedHasType(codec, source);
    var id, kind := j.members["id"].text, source["type"].text;
    if kind in {"seed", "privateKey", "ledger", "watch"} {
      var s := SourceIsGiven(codec, source);
      w := Understood(Wallet(id, s));
    } else {
      w := Newer(id, kind);
    }
  }

  lemma AcceptedHasType(codec: Codec, members: map<string, Json>)
    requires AcceptsSource(codec, members)
    ensures HasText(members, "type")
  {
  }

  lemma WalletIsAcceptedIf(codec: Codec, j: Json, w: GivenWallet)
    requires GivesWallet(j, w) && IsAcceptable(codec, w)
    ensures AcceptsWallet(codec, j) && j.members["id"].text == GivenId(w)
  {
    hide GivesSource, LoadableSource, IsWalletId;
    match w
    case Understood(wallet) => SourceIsAccepted(codec, j.members["source"].members, wallet.source);
    case Newer(_, _) => OtherKindPasses(codec, j.members["source"].members);
  }

  lemma OtherKindPasses(codec: Codec, members: map<string, Json>)
    requires HasText(members, "type") && members["type"].text !in {"seed", "privateKey", "ledger", "watch"}
    ensures AcceptsSource(codec, members)
  {
  }

  lemma {:induction false} WalletsAreGiven(codec: Codec, items: seq<Json>) returns (wallets: seq<GivenWallet>)
    requires forall i :: 0 <= i < |items| ==> AcceptsWallet(codec, items[i])
    ensures GivesWallets(items, wallets)
    ensures forall i :: 0 <= i < |items| ==>
              IsAcceptable(codec, wallets[i]) && GivenId(wallets[i]) == items[i].members["id"].text
  {
    hide AcceptsWallet, GivesWallet, IsAcceptable, GivenId;
    wallets := [];
    if items != [] {
      var first := WalletIsGiven(codec, items[0]);
      var rest := WalletsAreGiven(codec, items[1..]);
      wallets := [first] + rest;
      assert forall i :: 1 <= i < |items| ==> items[i] == items[1..][i - 1] && wallets[i] == rest[i - 1];
    }
  }

  lemma WalletsAreAcceptedIff(codec: Codec, items: seq<Json>)
    ensures AcceptsWallets(codec, items) <==>
            exists wallets :: GivesWallets(items, wallets) && AreAcceptable(codec, wallets)
  {
    hide AcceptsSource, GivesWallet, IsAcceptable, GivenId, IsWalletId;
    if AcceptsWallets(codec, items) {
      var wallets := WalletsAreGiven(codec, items);
      assert GivesWallets(items, wallets) && AreAcceptable(codec, wallets);
    }
    if wallets :| GivesWallets(items, wallets) && AreAcceptable(codec, wallets) {
      forall i | 0 <= i < |items|
        ensures AcceptsWallet(codec, items[i]) && items[i].members["id"].text == GivenId(wallets[i])
      {
        WalletIsAcceptedIf(codec, items[i], wallets[i]);
      }
    }
  }

  lemma LabelsAreTexts(members: map<string, Json>) returns (labels: map<string, string>)
    requires forall ref :: ref in members ==> members[ref].JString?
    ensures members == LabelsJson(labels)
  {
    labels := map ref | ref in members :: members[ref].text;
    assert forall ref :: ref in members ==> LabelsJson(labels)[ref] == members[ref];
  }

  /**
   * A document is accepted exactly when it stands for an index, unknown kinds of wallets aside: with a
   * numeric version, valid wallets with different ids, and labels that are not blank, do not begin like an
   * id and differ ignoring case. Members beyond these are no obstacle.
   */
  lemma DocumentIsAcceptedIff(codec: Codec, raw: Json)
    ensures Accepts(codec, raw) <==>
            exists d :: Gives(raw, d) && AreAcceptable(codec, d.wallets) && LoadableLabels(d.labels)
  {
    hide AcceptsWallets, AcceptsLabels, GivesWallets, AreAcceptable, LoadableLabels, LabelsJson;
    if Accepts(codec, raw) {
      var items := raw.members["wallets"].items;
      WalletsAreAcceptedIff(codec, items);
      var wallets :| GivesWallets(items, wallets) && AreAcceptable(codec, wallets);
      var members := OrDefault(raw.members, "labels", JObject(map[])).members;
      AcceptedAreTexts(members);
      var labels := LabelsAreTexts(members);
      LabelsAccepted(labels);
      NoLabels(labels);
      var active := OrDefault(raw.members, "activeAccount", JNull);
      var d := Document(raw.members["version"].number, if active.JString? then Some(active.text) else None, wallets,
                        labels);
      assert Gives(raw, d);
    }
    if d :| Gives(raw, d) && AreAcceptable(codec, d.wallets) && LoadableLabels(d.labels) {
      WalletsAreAcceptedIff(codec, raw.members["wallets"].items);
      LabelsAccepted(d.labels);
      NoLabels(d.labels);
    }
  }

  lemma AcceptedAreTexts(members: map<string, Json>)
    requires AcceptsLabels(members)
    ensures forall ref :: ref in members ==> members[ref].JString?
  {
  }

  lemma NoLabels(labels: map<string, string>)
    ensures labels == map[] <==> LabelsJson(labels) == map[]
  {
    if labels != map[] {
      var ref :| ref in labels;
      assert ref in LabelsJson(labels);
    }
  }

  /** A written index stands for itself. */
  lemma WrittenIndexGivesItself(f: Index)
    ensures Gives(ToJson(f), Document(f.version, f.active, seq(|f.wallets|, i requires 0 <= i < |f.wallets| =>
                                                                Understood(f.wallets[i])), f.labels))
  {
    hide SourceJson, GivesSource;
    forall i | 0 <= i < |f.wallets|
      ensures GivesWallet(WalletJson(f.wallets[i]), Understood(f.wallets[i]))
    {
      WrittenSourceGives(f.wallets[i].source);
    }
    hide WalletJson, GivesWallet;
  }

  lemma WrittenAddressesGive(a: ChainAddresses)
    ensures GivesAddresses(AddressesJson(a), a)
  {
  }

  lemma WrittenSlotsGive(addresses: map<nat, ChainAddresses>)
    ensures GivesSlots(JObject(AddressMapJson(addresses)), addresses)
  {
    hide NumberText.Print, GivesAddresses, AddressesJson;
    var json := AddressMapJson(addresses);
    forall n | n in addresses
      ensures NumberText.Print(n, 10) in json && GivesAddresses(json[NumberText.Print(n, 10)], addresses[n])
    {
      NumberText.PrintReadsBack(n, 10);
      NumberText.PrintReadsBack(KeyIndex(addresses, NumberText.Print(n, 10)), 10);
      WrittenAddressesGive(addresses[n]);
    }
  }

  lemma WrittenSourceGives(s: Source)
    ensures SourceJson(s).JObject? && GivesSource(SourceJson(s).members, s)
  {
    hide AddressMapJson, GivesSlots;
    if s.Seed? {
      WrittenSlotsGive(s.addresses);
    }
  }

  // ----- Loading and the invariant -----

  lemma SoundIndexLoads(codec: Codec, f: Index)
    requires Sound(codec, f)
    ensures Accepts(codec, ToJson(f)) && WithDefaults(ToJson(f)) == ToJson(f)
  {
    hide LabelKey, IsWalletId, ValidAddresses;
    IndexLoadsIff(codec, f);
    assert forall i :: 0 <= i < |f.wallets| ==> f.wallets[i] in f.wallets;
    assert LoadableWallets(codec, f.wallets);
    assert LoadableLabels(f.labels);
    NothingToFillIn(f);
  }

  lemma NothingToFillIn(f: Index)
    ensures WithDefaults(ToJson(f)) == ToJson(f)
  {
    hide WalletsJson, LabelsJson;
    var members := ToJson(f).members;
    assert members["activeAccount" := members["activeAccount"]]["labels" := members["labels"]] == members;
  }

  /** Whatever a run has written, loading accepts it and gives it back unchanged. */
  lemma WrittenIndexLoadsUnchanged(codec: Codec, ops: seq<Op>)
    requires IsRun(codec, EMPTY, ops)
    ensures var written := ToJson(Final(codec, EMPTY, ops));
            Accepts(codec, written) && WithDefaults(written) == written
  {
    EveryRunKeepsTheIndex(codec, ops);
    SoundIndexLoads(codec, Final(codec, EMPTY, ops));
  }

  ghost predicate SecretsApart(wallets: seq<Wallet>) {
    forall i, j :: 0 <= i < j < |wallets| ==> !SameSecret(wallets[i].source, wallets[j].source)
  }

  predicate NoEmptyHdWallet(wallets: seq<Wallet>) {
    forall w :: w in wallets && w.source.Seed? ==> w.source.addresses.Keys != {}
  }

  /**
   * Loading is weaker than the invariant. What it leaves open is whether labels and the active account
   * name stored accounts, whether labels are trimmed and within the length limit, whether two wallets
   * name one secret, and whether every HD wallet has an account.
   */
  lemma LoadedIndexIsWholeIff(codec: Codec, f: Index)
    requires Accepts(codec, ToJson(f))
    ensures Sound(codec, f) <==> LabelsClean(f.labels) && SecretsApart(f.wallets) && NoEmptyHdWallet(f.wallets)
    ensures Inv(codec, f) <==>
            && LabelsMatch(f) && ActiveStored(f) && LabelsClean(f.labels)
            && SecretsApart(f.wallets) && NoEmptyHdWallet(f.wallets)
  {
    hide LabelsMatch, ActiveStored, LabelsClean, IsWalletId, ValidAddresses, IsStoredLabel, LabelKey, SameSecret;
    IndexLoadsIff(codec, f);
    if SecretsApart(f.wallets) && NoEmptyHdWallet(f.wallets) {
      assert Distinct(f.wallets) && WalletsValid(codec, f.wallets) && LabelsDistinct(f.labels);
    }
  }

  lemma OneLetterLabel(letter: string)
    requires |letter| == 1 && 'a' <= letter[0] <= 'z'
    ensures CleanLabel(letter) && IsStoredLabel(letter) && LabelKey(letter) == letter
  {
    assert Trim(letter) == letter;
    assert Lower(letter) == letter;
  }

  // Two private keys in one file, each wallet with its own id, label and addresses.
  function SharedKey(keyId: string, a: ChainAddresses, b: ChainAddresses): Index {
    Index(2, Some("wlt_a"), [Wallet("wlt_a", PrivateKey(keyId, a)), Wallet("wlt_b", PrivateKey(keyId, b))],
          map["wlt_a" := "a", "wlt_b" := "b"])
  }

  lemma SharedKeyAccounts(keyId: string, a: ChainAddresses, b: ChainAddresses, ref: string)
    ensures Stored(SharedKey(keyId, a, b).wallets, ref) <==> ref == "wlt_a" || ref == "wlt_b"
  {
    var wallets := SharedKey(keyId, a, b).wallets;
    assert wallets[0] in wallets && wallets[1] in wallets;
    assert NamesAccount(wallets[0], "wlt_a") && NamesAccount(wallets[1], "wlt_b");
  }

  lemma SharedKeyLoads(codec: Codec, keyId: string, a: ChainAddresses, b: ChainAddresses)
    requires IsBlobId(keyId) && ValidAddresses(codec, a) && ValidAddresses(codec, b)
    ensures Accepts(codec, ToJson(SharedKey(keyId, a, b))) && LabelsClean(SharedKey(keyId, a, b).labels)
  {
    hide Accepts, ToJson, CleanLabel, IsStoredLabel, LabelKey;
    var f := SharedKey(keyId, a, b);
    IndexLoadsIff(codec, f);
    OneLetterLabel("a");
    OneLetterLabel("b");
    assert "a"[0] != "b"[0] && f.wallets[0].id[4] != f.wallets[1].id[4];
  }

  /** Of these, sharing a secret alone is enough: labels and active account of this document match. */
  lemma SharedSecretIsAccepted(codec: Codec, keyId: string, a: ChainAddresses, b: ChainAddresses)
    requires IsBlobId(keyId) && ValidAddresses(codec, a) && ValidAddresses(codec, b)
    ensures var f := SharedKey(keyId, a, b);
            && Accepts(codec, ToJson(f)) && LabelsMatch(f) && ActiveStored(f) && LabelsClean(f.labels)
            && NoEmptyHdWallet(f.wallets) && !SecretsApart(f.wallets) && !Inv(codec, f)
  {
    hide Accepts, ToJson, LabelsClean, LabelsDistinct, WalletsValid, Stored;
    var f := SharedKey(keyId, a, b);
    forall ref
      ensures Stored(f.wallets, ref) <==> ref in f.labels
    {
      SharedKeyAccounts(keyId, a, b, ref);
    }
    SharedKeyLoads(codec, keyId, a, b);
    assert SameSecret(f.wallets[0].source, f.wallets[1].source);
  }

  /** Loading accepts a label that keeps the wallet from naming its next account, whatever the wallets are. */
  lemma LoadedLabelBlocksTheDefault(codec: Codec, f: Index, ref: string, other: string)
    requires LoadableWallets(codec, f.wallets) && |f.wallets| + 1 < NumberText.Pow(10, 57) && other != ref
    requires f.labels == map[other := " " + NumberedLabel(|f.wallets|)]
    ensures Accepts(codec, ToJson(f)) && LabelRefused(f, ref, DefaultLabel(f))
  {
    hide LoadableWallets, NumberText.Pow, LabelRefused, DefaultLabel, Accepts, ToJson;
    UntrimmedLabelBlocksTheDefault(f, ref, other);
    IndexLoadsIff(codec, f);
    SpacedLabelIsStored(|f.wallets|);
  }

  lemma SpacedLabelIsStored(n: nat)
    requires n < NumberText.Pow(10, 57)
    ensures IsStoredLabel(" " + NumberedLabel(n))
  {
    hide NumberText.Pow, NumberText.Print;
    NumberedLabelShape(n);
    assert (" " + NumberedLabel(n))[1..] == NumberedLabel(n);
    assert Trim(" " + NumberedLabel(n)) == Trim(NumberedLabel(n)) == NumberedLabel(n);
    assert NumberedLabel(n)[1] == 'a';
  }
}
