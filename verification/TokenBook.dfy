/**
 * The account's token book: canonical token ids, loading a stored list, adding and removing entries over
 * the network's official tokens, and the tokens.json document that holds one list per scope.
 */
module TokenBook {
  import opened Addresses
  import opened Wrappers
  import Text

  datatype Kind = Trc20 | Trc10 | Erc20

  datatype Token = Token(kind: Kind, id: string, symbol: string, decimals: nat, name: Option<string>)

  datatype NameField = NoName | NotText | Name(text: string)

  // A member of a stored list: fields of the wrong JSON type read as None.
  datatype Item =
    | NotARecord
    | Record(kind: Option<Kind>, id: Option<string>, symbol: Option<string>, name: NameField, decimals: Option<int>)

  datatype TokenError =
    | NoId | UnknownKind | NoSymbol | BadName | BadAssetId | BadContract | BadDecimals | AlreadyOfficial | NotInBook

  const MAX_DECIMALS: nat := 77

  // ----- Canonical ids -----

  function CanonicalId(codec: Codec, kind: Kind, id: string): Result<string, TokenError> {
    match kind
    case Trc10 =>
      if id != "" && forall i :: 0 <= i < |id| ==> '0' <= id[i] <= '9' then Ok(id) else Err(BadAssetId)
    case Trc20 =>
      if IsAddress(codec, Tron, id) then Ok(Canonical(codec, Tron, id)) else Err(BadContract)
    case Erc20 =>
      if IsAddress(codec, Evm, id) then Ok(Canonical(codec, Evm, id)) else Err(BadContract)
  }

  /** A canonical id is a valid id and its own canonical form. */
  lemma CanonicalIdIsStable(codec: Codec, kind: Kind, id: string)
    requires CanonicalId(codec, kind, id).Ok?
    ensures CanonicalId(codec, kind, CanonicalId(codec, kind, id).value) == CanonicalId(codec, kind, id)
  {
    hide IsAddress, Canonical;
    if kind != Trc10 {
      CanonicalIsStable(codec, if kind == Trc20 then Tron else Evm, id);
    }
  }

  /**
   * Two valid contract spellings are one token exactly when they differ in letter case at most; TRC10 ids
   * and TRON addresses are one token only when they are the same text, so "7" and "07" are two tokens.
   */
  lemma SameTokenIff(codec: Codec, kind: Kind, a: string, b: string)
    requires CanonicalId(codec, kind, a).Ok? && CanonicalId(codec, kind, b).Ok?
    ensures CanonicalId(codec, kind, a) == CanonicalId(codec, kind, b) <==>
            if kind == Erc20 then Text.Lower(a[2..]) == Text.Lower(b[2..]) else a == b
  {
    if kind == Erc20 {
      SameCanonicalIff(codec, Evm, a, b);
    }
  }

  // ----- Entries -----

  function ReadEntry(codec: Codec, item: Item): Result<Token, TokenError> {
    if item.NotARecord? || item.id.None? then Err(NoId)
    else if item.kind.None? then Err(UnknownKind)
    else if item.symbol.None? then Err(NoSymbol)
    else if item.name.NotText? then Err(BadName)
    else
      match CanonicalId(codec, item.kind.value, item.id.value)
      case Err(error) => Err(error)
      case Ok(id) =>
        if item.decimals.None? || !(0 <= item.decimals.value <= MAX_DECIMALS) then Err(BadDecimals)
        else Ok(Token(item.kind.value, id, item.symbol.value, item.decimals.value,
                      if item.name.Name? then Some(item.name.text) else None))
  }

  // The id is valid for its kind, and `canonical` is the form it is stored in.
  predicate IsIdOf(codec: Codec, kind: Kind, id: string, canonical: string) {
    match kind
    case Trc10 => id == canonical && id != "" && forall i :: 0 <= i < |id| ==> id[i] in "0123456789"
    case Trc20 => IsAddress(codec, Tron, id) && canonical == Canonical(codec, Tron, id)
    case Erc20 => IsAddress(codec, Evm, id) && canonical == Canonical(codec, Evm, id)
  }

  lemma CanonicalIdIs(codec: Codec, kind: Kind, id: string, canonical: string)
    ensures CanonicalId(codec, kind, id) == Ok(canonical) <==> IsIdOf(codec, kind, id, canonical)
  {
    hide IsAddress, Canonical;
    forall c: char
      ensures '0' <= c <= '9' <==> c in "0123456789"
    {
    }
  }

  /** An entry is read exactly when all its fields are valid, and then as they are, with its id in canonical form. */
  lemma EntryIsReadIff(codec: Codec, item: Item, t: Token)
    ensures ReadEntry(codec, item) == Ok(t) <==>
            && item.Record? && item.kind == Some(t.kind) && item.symbol == Some(t.symbol)
            && item.id.Some? && IsIdOf(codec, t.kind, item.id.value, t.id)
            && item.decimals == Some(t.decimals) && t.decimals <= 77
            && item.name == (if t.name.Some? then Name(t.name.value) else NoName)
  {
    hide IsAddress, Canonical, CanonicalId, IsIdOf;
    if item.Record? && item.id.Some? {
      CanonicalIdIs(codec, t.kind, item.id.value, t.id);
    }
  }

  /** What is wrong with an entry: the first of these that applies. */
  lemma EntryErrorIs(codec: Codec, item: Item)
    requires ReadEntry(codec, item).Err?
    ensures ReadEntry(codec, item).error ==
            if item.NotARecord? || item.id.None? then NoId
            else if item.kind.None? then UnknownKind
            else if item.symbol.None? then NoSymbol
            else if item.name.NotText? then BadName
            else if forall canonical :: !IsIdOf(codec, item.kind.value, item.id.value, canonical) then
              (if item.kind.value == Trc10 then BadAssetId else BadContract)
            else BadDecimals
  {
    hide IsAddress, Canonical;
    if item.Record? && item.id.Some? && item.kind.Some? {
      forall canonical
        ensures CanonicalId(codec, item.kind.value, item.id.value) == Ok(canonical) <==>
                IsIdOf(codec, item.kind.value, item.id.value, canonical)
      {
        CanonicalIdIs(codec, item.kind.value, item.id.value, canonical);
      }
    }
  }

  // The token as it is written to tokens.json.
  function AsItem(t: Token): Item {
    Record(Some(t.kind), Some(t.id), Some(t.symbol), if t.name.Some? then Name(t.name.value) else NoName,
           Some(t.decimals))
  }

  lemma EntryReadsBack(codec: Codec, item: Item)
    requires ReadEntry(codec, item).Ok?
    ensures ReadEntry(codec, AsItem(ReadEntry(codec, item).value)) == ReadEntry(codec, item)
  {
    CanonicalIdIsStable(codec, item.kind.value, item.id.value);
  }

  // ----- One list -----

  predicate SameToken(t: Token, kind: Kind, id: string) { t.kind == kind && t.id == id }

  predicate Holds(tokens: seq<Token>, kind: Kind, id: string) {
    exists i :: 0 <= i < |tokens| && SameToken(tokens[i], kind, id)
  }

  // findIndex, with the length for "not found".
  function Find(tokens: seq<Token>, kind: Kind, id: string): (at: nat)
    ensures at <= |tokens|
    ensures at < |tokens| ==> SameToken(tokens[at], kind, id)
    ensures forall k :: 0 <= k < at ==> !SameToken(tokens[k], kind, id)
  {
    if tokens == [] || SameToken(tokens[0], kind, id) then 0 else 1 + Find(tokens[1..], kind, id)
  }

  datatype Action = Added | Refreshed

  function Put(user: seq<Token>, t: Token): seq<Token> {
    var at := Find(user, t.kind, t.id);
    if at == |user| then user + [t] else user[at := t]
  }

  function WithUserToken(codec: Codec, official: seq<Token>, user: seq<Token>, input: Item)
    : Result<(seq<Token>, Action), TokenError>
  {
    match ReadEntry(codec, input)
    case Err(error) => Err(error)
    case Ok(t) =>
      if Holds(official, t.kind, t.id) then Err(AlreadyOfficial)
      else Ok((Put(user, t), if Find(user, t.kind, t.id) == |user| then Added else Refreshed))
  }

  function WithoutUserToken(codec: Codec, official: seq<Token>, user: seq<Token>, kind: Kind, input: string)
    : Result<(seq<Token>, Token), TokenError>
  {
    match CanonicalId(codec, kind, input)
    case Err(error) => Err(error)
    case Ok(id) =>
      var at := Find(user, kind, id);
      if Holds(official, kind, id) then Err(AlreadyOfficial)
      else if at == |user| then Err(NotInBook)
      else Ok((user[..at] + user[at + 1..], user[at]))
  }

  datatype Source = Official | User

  function Tagged(tokens: seq<Token>, source: Source): seq<(Token, Source)> {
    seq(|tokens|, i requires 0 <= i < |tokens| => (tokens[i], source))
  }

  function NotOfficial(official: seq<Token>, user: seq<Token>): seq<Token> {
    if user == [] then []
    else
      (if Holds(official, user[0].kind, user[0].id) then [] else [user[0]]) + NotOfficial(official, user[1..])
  }

  function EffectiveTokens(official: seq<Token>, user: seq<Token>): seq<(Token, Source)> {
    Tagged(official, Official) + Tagged(NotOfficial(official, user), User)
  }

  ghost predicate Distinct(tokens: seq<Token>) {
    forall i, j :: 0 <= i < j < |tokens| ==> !SameToken(tokens[j], tokens[i].kind, tokens[i].id)
  }

  // ----- Loading a list -----

  // The list replayed, entry by entry, through withUserToken without official tokens.
  function Replay(codec: Codec, items: seq<Item>): Result<seq<Token>, TokenError> {
    if items == [] then Ok([])
    else
      match Replay(codec, items[..|items| - 1])
      case Err(error) => Err(error)
      case Ok(tokens) =>
        match WithUserToken(codec, [], tokens, items[|items| - 1])
        case Err(error) => Err(error)
        case Ok(added) => Ok(added.0)
  }

  method FindIndex(tokens: seq<Token>, kind: Kind, id: string) returns (at: nat)
    ensures at == Find(tokens, kind, id)
  {
    at := 0;
    while at < |tokens| && !SameToken(tokens[at], kind, id)
      invariant at <= Find(tokens, kind, id)
    {
      at := at + 1;
    }
  }

  lemma ReplayNothing(codec: Codec)
    ensures Replay(codec, []) == Ok([])
  {
  }

  // One more entry: it is put into the list, or its error is the error of the whole list.
  lemma ReplayNext(codec: Codec, items: seq<Item>, i: nat, merged: seq<Token>)
    requires i < |items| && Replay(codec, items[..i]) == Ok(merged)
    ensures match ReadEntry(codec, items[i])
            case Err(error) => Replay(codec, items) == Err(error)
            case Ok(entry) => Replay(codec, items[..i + 1]) == Ok(Put(merged, entry))
  {
    hide ReadEntry, Put, Find;
    assert items[..i + 1][..i] == items[..i];
    if ReadEntry(codec, items[i]).Err? {
      ReplayStops(codec, items, i + 1);
    }
  }

  // The merge loop of parseTokensFile over one list.
  method MergeList(codec: Codec, items: seq<Item>) returns (tokens: Result<seq<Token>, TokenError>)
    ensures tokens == Replay(codec, items)
  {
    hide ReadEntry, Find, Replay;
    var merged: seq<Token> := [];
    var i := 0;
    ReplayNothing(codec);
    assert items[..0] == [];
    while i < |items|
      invariant 0 <= i <= |items|
      invariant Replay(codec, items[..i]) == Ok(merged)
    {
      ReplayNext(codec, items, i, merged);
      var read := ReadEntry(codec, items[i]);
      if read.Err? { return Err(read.error); }
      var entry := read.value;
      var at := FindIndex(merged, entry.kind, entry.id);
      if at < |merged| {
        merged := merged[at := entry];
      } else {
        merged := merged + [entry];
      }
      i := i + 1;
    }
    assert items[..i] == items;
    tokens := Ok(merged);
  }

  // The first entry that is refused decides the error.
  lemma {:induction false} ReplayStops(codec: Codec, items: seq<Item>, n: nat)
    requires n <= |items| && Replay(codec, items[..n]).Err?
    ensures Replay(codec, items) == Replay(codec, items[..n])
    decreases |items|
  {
    if n < |items| {
      assert items[..|items| - 1][..n] == items[..n];
      ReplayStops(codec, items[..|items| - 1], n);
    } else {
      assert items[..n] == items;
    }
  }

  ghost predicate Stored(codec: Codec, tokens: seq<Token>) {
    && Distinct(tokens)
    && forall t :: t in tokens ==> ReadEntry(codec, AsItem(t)) == Ok(t)
  }

  /** A loaded list holds every token once and every entry in the form it is stored in. */
  lemma {:induction false} LoadedListIsStored(codec: Codec, items: seq<Item>)
    requires Replay(codec, items).Ok?
    ensures Stored(codec, Replay(codec, items).value)
  {
    if items != [] {
      var last := items[|items| - 1];
      LoadedListIsStored(codec, items[..|items| - 1]);
      EntryReadsBack(codec, last);
      hide ReadEntry, Distinct;
    }
  }

  function AsItems(tokens: seq<Token>): seq<Item> {
    seq(|tokens|, i requires 0 <= i < |tokens| => AsItem(tokens[i]))
  }

  lemma StoredPrefix(codec: Codec, tokens: seq<Token>, n: nat)
    requires Stored(codec, tokens) && n <= |tokens|
    ensures Stored(codec, tokens[..n])
  {
    hide ReadEntry, SameToken;
    assert forall t :: t in tokens[..n] ==> t in tokens;
  }

  // A token of a list without repetitions is not found before its position, so it goes to the end.
  lemma NextIsAppended(tokens: seq<Token>)
    requires Distinct(tokens) && tokens != []
    ensures var last := |tokens| - 1; Put(tokens[..last], tokens[last]) == tokens
  {
    var last := |tokens| - 1;
    assert Find(tokens[..last], tokens[last].kind, tokens[last].id) == last;
    assert tokens[..last] + [tokens[last]] == tokens;
  }

  lemma StoredEntry(codec: Codec, tokens: seq<Token>)
    requires Stored(codec, tokens) && tokens != []
    ensures var last := |tokens| - 1;
            AsItems(tokens)[..last] == AsItems(tokens[..last])
            && ReadEntry(codec, AsItems(tokens)[last]) == Ok(tokens[last])
  {
    hide ReadEntry, AsItem, Distinct;
    assert tokens[|tokens| - 1] in tokens;
  }

  /** Loading what a load wrote changes nothing. */
  lemma {:induction false} StoredListLoadsUnchanged(codec: Codec, tokens: seq<Token>)
    requires Stored(codec, tokens)
    ensures Replay(codec, AsItems(tokens)) == Ok(tokens)
  {
    hide ReadEntry, Distinct, Put, Find, Stored;
    if tokens != [] {
      var last := |tokens| - 1;
      StoredPrefix(codec, tokens, last);
      StoredListLoadsUnchanged(codec, tokens[..last]);
      StoredEntry(codec, tokens);
      StoredIsDistinct(codec, tokens);
      NextIsAppended(tokens);
    }
  }

  lemma StoredIsDistinct(codec: Codec, tokens: seq<Token>)
    requires Stored(codec, tokens)
    ensures Distinct(tokens)
  {
  }

  // ----- What a load keeps -----

  ghost predicate Names(codec: Codec, item: Item, kind: Kind, id: string) {
    ReadEntry(codec, item).Ok? && SameToken(ReadEntry(codec, item).value, kind, id)
  }

  // items[i] is the last entry for its token.
  ghost predicate LastOf(codec: Codec, items: seq<Item>, i: nat, t: Token) {
    && i < |items| && ReadEntry(codec, items[i]) == Ok(t)
    && forall j :: i < j < |items| ==> !Names(codec, items[j], t.kind, t.id)
  }

  lemma PutContents(tokens: seq<Token>, t: Token, u: Token)
    requires Distinct(tokens)
    ensures u in Put(tokens, t) <==> u == t || (u in tokens && !SameToken(u, t.kind, t.id))
  {
    var at := Find(tokens, t.kind, t.id);
    assert Put(tokens, t)[at] == t;
    if u in Put(tokens, t) && u != t {
      var i :| 0 <= i < |Put(tokens, t)| && Put(tokens, t)[i] == u;
      assert i != at && tokens[i] == u;
    }
    if u in tokens && !SameToken(u, t.kind, t.id) {
      var i :| 0 <= i < |tokens| && tokens[i] == u;
      assert Put(tokens, t)[i] == u;
    }
  }

  lemma LastOfPrefix(codec: Codec, items: seq<Item>, i: nat, t: Token)
    requires items != [] && ReadEntry(codec, items[|items| - 1]).Ok?
    requires var last := ReadEntry(codec, items[|items| - 1]).value; !SameToken(t, last.kind, last.id)
    ensures LastOf(codec, items[..|items| - 1], i, t) <==> LastOf(codec, items, i, t)
  {
    hide ReadEntry;
    var before := items[..|items| - 1];
    assert forall j :: 0 <= j < |before| ==> before[j] == items[j];
  }

  /** Of several entries for one token the list keeps the fields of the last. */
  lemma {:induction false} LastEntryWins(codec: Codec, items: seq<Item>, t: Token)
    requires Replay(codec, items).Ok?
    ensures t in Replay(codec, items).value <==> exists i :: LastOf(codec, items, i, t)
  {
    if items != [] {
      var n := |items| - 1;
      var before, entry := items[..n], ReadEntry(codec, items[n]).value;
      LastEntryWins(codec, before, t);
      LoadedListIsStored(codec, before);
      PutContents(Replay(codec, before).value, entry, t);
      hide ReadEntry, Put, Distinct, Find;
      assert entry == t ==> LastOf(codec, items, n, t);
      if !SameToken(t, entry.kind, entry.id) {
        hide LastOf;
        forall i: nat
          ensures LastOf(codec, before, i, t) <==> LastOf(codec, items, i, t)
        {
          LastOfPrefix(codec, items, i, t);
        }
      } else {
        assert Names(codec, items[n], t.kind, t.id);
      }
    }
  }

  datatype Key = Key(kind: Kind, id: string)

  function Keys(tokens: seq<Token>): seq<Key> {
    seq(|tokens|, i requires 0 <= i < |tokens| => Key(tokens[i].kind, tokens[i].id))
  }

  // The tokens named by the list in the order of their first mention.
  function FirstMentions(codec: Codec, items: seq<Item>): seq<Key>
    requires forall i :: 0 <= i < |items| ==> ReadEntry(codec, items[i]).Ok?
  {
    if items == [] then []
    else
      var before := FirstMentions(codec, items[..|items| - 1]);
      var last := ReadEntry(codec, items[|items| - 1]).value;
      if Key(last.kind, last.id) in before then before else before + [Key(last.kind, last.id)]
  }

  lemma {:induction false} LoadedItemsAreValid(codec: Codec, items: seq<Item>)
    ensures Replay(codec, items).Ok? <==> forall i :: 0 <= i < |items| ==> ReadEntry(codec, items[i]).Ok?
  {
    hide ReadEntry, Put, Find;
    if items != [] {
      var n := |items| - 1;
      LoadedItemsAreValid(codec, items[..n]);
      assert forall i :: 0 <= i < n ==> items[..n][i] == items[i];
    }
  }

  lemma KeysOfPut(tokens: seq<Token>, t: Token)
    ensures Keys(Put(tokens, t)) ==
            if Key(t.kind, t.id) in Keys(tokens) then Keys(tokens) else Keys(tokens) + [Key(t.kind, t.id)]
  {
    var at := Find(tokens, t.kind, t.id);
    if at < |tokens| {
      assert Keys(tokens)[at] == Key(t.kind, t.id);
    }
  }

  /** Entries collapse in place: the order is that of first mention. */
  lemma {:induction false} FirstMentionDecidesTheOrder(codec: Codec, items: seq<Item>)
    requires Replay(codec, items).Ok?
    ensures forall i :: 0 <= i < |items| ==> ReadEntry(codec, items[i]).Ok?
    ensures Keys(Replay(codec, items).value) == FirstMentions(codec, items)
  {
    LoadedItemsAreValid(codec, items);
    if items != [] {
      var n := |items| - 1;
      FirstMentionDecidesTheOrder(codec, items[..n]);
      KeysOfPut(Replay(codec, items[..n]).value, ReadEntry(codec, items[n]).value);
      hide ReadEntry, Put, Keys;
    }
  }

  // ----- Adding and removing -----

  lemma FindFresh(user: seq<Token>, t: Token)
    requires Find(user, t.kind, t.id) == |user|
    ensures Find(user + [t], t.kind, t.id) == |user|
  {
    assert (user + [t])[|user|] == t && forall k :: 0 <= k < |user| ==> (user + [t])[k] == user[k];
  }

  predicate IsListed(tokens: seq<Token>, kind: Kind, id: string) {
    exists t :: t in tokens && t.kind == kind && t.id == id
  }

  lemma HoldsIff(tokens: seq<Token>, kind: Kind, id: string)
    ensures Holds(tokens, kind, id) <==> IsListed(tokens, kind, id)
    ensures Find(tokens, kind, id) < |tokens| <==> IsListed(tokens, kind, id)
  {
    if IsListed(tokens, kind, id) {
      var t :| t in tokens && t.kind == kind && t.id == id;
      var i :| 0 <= i < |tokens| && tokens[i] == t;
      assert SameToken(tokens[i], kind, id);
    }
  }

  // The first listed entry of the token is now this one.
  ghost predicate Replaces(before: seq<Token>, after: seq<Token>, t: Token, at: nat) {
    && at < |before| && before[at].kind == t.kind && before[at].id == t.id
    && (forall k :: 0 <= k < at ==> !SameToken(before[k], t.kind, t.id))
    && |after| == |before| && after[at] == t
    && forall k :: 0 <= k < |before| && k != at ==> after[k] == before[k]
  }

  /**
   * Adding an entry: an invalid one fails as when it is read, an official token is refused, a token that is
   * not listed goes to the end, and a listed one is replaced where it stands.
   */
  lemma AdditionOutcome(codec: Codec, official: seq<Token>, user: seq<Token>, input: Item)
    ensures var added := WithUserToken(codec, official, user, input);
            && (ReadEntry(codec, input).Err? ==> added == Err(ReadEntry(codec, input).error))
            && (ReadEntry(codec, input).Ok? ==>
               var t := ReadEntry(codec, input).value;
               && (IsListed(official, t.kind, t.id) ==> added == Err(AlreadyOfficial))
               && (!IsListed(official, t.kind, t.id) && !IsListed(user, t.kind, t.id) ==>
                  added == Ok((user + [t], Added)))
               && (!IsListed(official, t.kind, t.id) && IsListed(user, t.kind, t.id) ==>
                  && added.Ok? && added.value.1 == Refreshed
                  && exists at: nat :: Replaces(user, added.value.0, t, at)))
  {
    hide ReadEntry, IsListed, Holds;
    var read := ReadEntry(codec, input);
    if read.Ok? {
      var t := read.value;
      HoldsIff(official, t.kind, t.id);
      HoldsIff(user, t.kind, t.id);
      if !Holds(official, t.kind, t.id) && IsListed(user, t.kind, t.id) {
        assert Replaces(user, Put(user, t), t, Find(user, t.kind, t.id));
      }
    }
  }

  // The first listed entry of the token is gone, and it was this one.
  ghost predicate TakesOut(before: seq<Token>, after: seq<Token>, t: Token, at: nat) {
    && at < |before| && before[at] == t
    && (forall k :: 0 <= k < at ==> !SameToken(before[k], t.kind, t.id))
    && at <= |after| && before == after[..at] + [t] + after[at..]
  }

  /**
   * Removing by an id: an invalid one fails, an official token is refused, a token that is not listed is not
   * in the book, and otherwise its first entry is taken out and returned.
   */
  lemma RemovalOutcome(codec: Codec, official: seq<Token>, user: seq<Token>, kind: Kind, input: string)
    ensures var left := WithoutUserToken(codec, official, user, kind, input);
            var canonical := CanonicalId(codec, kind, input);
            && (canonical.Err? ==> left == Err(canonical.error))
            && (canonical.Ok? ==>
               var id := canonical.value;
               && (IsListed(official, kind, id) ==> left == Err(AlreadyOfficial))
               && (!IsListed(official, kind, id) && !IsListed(user, kind, id) ==> left == Err(NotInBook))
               && (!IsListed(official, kind, id) && IsListed(user, kind, id) ==>
                  && left.Ok? && left.value.1.kind == kind && left.value.1.id == id
                  && exists at: nat :: TakesOut(user, left.value.0, left.value.1, at)))
  {
    hide CanonicalId, Holds, IsListed;
    var canonical := CanonicalId(codec, kind, input);
    if canonical.Ok? {
      var id := canonical.value;
      HoldsIff(official, kind, id);
      HoldsIff(user, kind, id);
      var at := Find(user, kind, id);
      if at < |user| {
        assert TakesOut(user, user[..at] + user[at + 1..], user[at], at);
      }
    }
  }

  /** Removing a freshly added token, in any spelling of its id, restores the previous list. */
  lemma RemovalUndoesAddition(codec: Codec, official: seq<Token>, user: seq<Token>, input: Item, spelling: string)
    requires WithUserToken(codec, official, user, input).Ok?
    requires WithUserToken(codec, official, user, input).value.1 == Added
    requires var t := ReadEntry(codec, input).value; CanonicalId(codec, t.kind, spelling) == Ok(t.id)
    ensures var t := ReadEntry(codec, input).value;
            WithoutUserToken(codec, official, WithUserToken(codec, official, user, input).value.0, t.kind, spelling)
            == Ok((user, t))
  {
    var t := ReadEntry(codec, input).value;
    FindFresh(user, t);
    hide ReadEntry, CanonicalId, Find;
    var tokens := user + [t];
    assert WithUserToken(codec, official, user, input).value.0 == tokens;
    assert tokens[..|user|] + tokens[|user| + 1..] == user;
  }

  /** Adding to a stored list keeps it stored, never lets an official token in, and is repeatable. */
  lemma AdditionKeepsTheListStored(codec: Codec, official: seq<Token>, user: seq<Token>, input: Item)
    requires Stored(codec, user) && WithUserToken(codec, official, user, input).Ok?
    ensures var tokens := WithUserToken(codec, official, user, input).value.0;
            && Stored(codec, tokens)
            && WithUserToken(codec, official, tokens, input) == Ok((tokens, Refreshed))
  {
    var t := ReadEntry(codec, input).value;
    EntryReadsBack(codec, input);
    hide ReadEntry;
    var tokens := Put(user, t);
    var at := Find(user, t.kind, t.id);
    assert tokens[at] == t && forall k :: 0 <= k < at ==> tokens[k] == user[k];
    assert Find(tokens, t.kind, t.id) == at;
    assert tokens[at := t] == tokens;
  }

  /** Removing from a stored list takes out exactly that token. */
  lemma RemovalTakesOutTheToken(
    codec: Codec, official: seq<Token>, user: seq<Token>, kind: Kind, input: string, u: Token)
    requires Stored(codec, user) && WithoutUserToken(codec, official, user, kind, input).Ok?
    ensures var left := WithoutUserToken(codec, official, user, kind, input).value.0;
            && Stored(codec, left)
            && (u in left <==> u in user && !SameToken(u, kind, CanonicalId(codec, kind, input).value))
  {
    hide ReadEntry, CanonicalId;
    var id := CanonicalId(codec, kind, input).value;
    WithoutEffect(user, Find(user, kind, id), u);
  }

  lemma WithoutEffect(user: seq<Token>, at: nat, u: Token)
    requires Distinct(user) && at < |user|
    ensures var left := user[..at] + user[at + 1..];
            && Distinct(left)
            && (forall t :: t in left ==> t in user)
            && (u in left <==> u in user && !SameToken(u, user[at].kind, user[at].id))
  {
    var left := user[..at] + user[at + 1..];
    forall i | 0 <= i < |left|
      ensures left[i] == user[if i < at then i else i + 1]
    {
    }
    if u in user && !SameToken(u, user[at].kind, user[at].id) {
      var i :| 0 <= i < |user| && user[i] == u;
      assert left[if i < at then i else i - 1] == u;
    }
  }

  lemma {:induction false} NotOfficialEffect(official: seq<Token>, user: seq<Token>)
    ensures forall u :: u in NotOfficial(official, user) <==> u in user && !Holds(official, u.kind, u.id)
    ensures Distinct(user) ==> Distinct(NotOfficial(official, user))
  {
    if user != [] {
      var rest := user[1..];
      NotOfficialEffect(official, rest);
      hide Holds;
      assert forall u :: u in user <==> u == user[0] || u in rest;
      if Distinct(user) {
        assert Distinct(rest);
        forall u | u in NotOfficial(official, rest)
          ensures !SameToken(u, user[0].kind, user[0].id)
        {
          var i :| 0 <= i < |rest| && rest[i] == u;
          assert user[i + 1] == u;
        }
      }
    }
  }

  /** The effective list has every official token, every user token it does not shadow, and no token twice. */
  lemma EffectiveListIsTheUnion(official: seq<Token>, user: seq<Token>, u: Token, i: nat, j: nat)
    requires Distinct(official) && Distinct(user)
    ensures (u, Official) in EffectiveTokens(official, user) <==> u in official
    ensures (u, User) in EffectiveTokens(official, user) <==> u in user && !Holds(official, u.kind, u.id)
    ensures i < j < |EffectiveTokens(official, user)| ==>
              var a, b := EffectiveTokens(official, user)[i].0, EffectiveTokens(official, user)[j].0;
              !SameToken(b, a.kind, a.id)
  {
    var kept := NotOfficial(official, user);
    NotOfficialEffect(official, user);
    TaggedEffect(official, Official, u);
    TaggedEffect(kept, User, u);
    if i < j < |EffectiveTokens(official, user)| {
      if i < |official| <= j {
        assert kept[j - |official|] in kept;
      }
    }
  }

  lemma TaggedEffect(tokens: seq<Token>, source: Source, t: Token)
    ensures forall s :: (t, s) in Tagged(tokens, source) <==> t in tokens && s == source
  {
    if t in tokens {
      var i :| 0 <= i < |tokens| && tokens[i] == t;
      assert Tagged(tokens, source)[i] == (t, source);
    }
  }

  // ----- The document -----

  datatype BookError = InvalidDocument | Refused(error: TokenError)

  type Lists = map<string, seq<Token>>

  function UserList(lists: Lists, key: string): seq<Token> { if key in lists then lists[key] else [] }

  // An empty list is removed from the document.
  function WithList(lists: Lists, key: string, tokens: seq<Token>): Lists {
    if tokens == [] then lists - {key} else lists[key := tokens]
  }

  // tokens.json between operations. Every operation reads and parses the whole document first.
  class Book {
    const codec: Codec
    var document: map<string, seq<Item>>

    constructor (codec: Codec, document: map<string, seq<Item>>)
      ensures this.codec == codec && this.document == document
    {
      this.codec := codec;
      this.document := document;
    }

    predicate Readable()
      reads this
    {
      forall key :: key in document ==> Replay(codec, document[key]).Ok?
    }

    function Parsed(): Lists
      reads this
      requires Readable()
    {
      map key | key in document :: Replay(codec, document[key]).value
    }

    method Write(lists: Lists)
      requires forall key :: key in lists ==> Stored(codec, lists[key])
      modifies this`document
      ensures Readable() && Parsed() == lists
    {
      document := map key | key in lists :: AsItems(lists[key]);
      forall key | key in lists
        ensures Replay(codec, document[key]) == Ok(lists[key])
      {
        StoredListLoadsUnchanged(codec, lists[key]);
      }
    }

    method Add(official: seq<Token>, key: string, input: Item) returns (action: Result<Action, BookError>)
      modifies this`document
      ensures !old(Readable()) ==> action == Err(InvalidDocument)
      ensures old(Readable()) ==>
                match WithUserToken(codec, official, UserList(old(Parsed()), key), input)
                case Err(error) => action == Err(Refused(error))
                case Ok(added) =>
                  && action == Ok(added.1)
                  && Readable() && Parsed() == WithList(old(Parsed()), key, added.0)
      ensures action.Err? ==> document == old(document)
    {
      hide Replay, WithUserToken, Stored;
      if !Readable() { return Err(InvalidDocument); }
      var lists := Parsed();
      AllListsAreStored();
      var added := WithUserToken(codec, official, UserList(lists, key), input);
      if added.Err? { return Err(Refused(added.error)); }
      EmptyListIsStored(codec);
      AdditionKeepsTheListStored(codec, official, UserList(lists, key), input);
      Write(WithList(lists, key, added.value.0));
      action := Ok(added.value.1);
    }

    method Remove(official: seq<Token>, key: string, kind: Kind, input: string)
      returns (removed: Result<Token, BookError>)
      modifies this`document
      ensures !old(Readable()) ==> removed == Err(InvalidDocument)
      ensures old(Readable()) ==>
                match WithoutUserToken(codec, official, UserList(old(Parsed()), key), kind, input)
                case Err(error) => removed == Err(Refused(error))
                case Ok(left) =>
                  && removed == Ok(left.1)
                  && Readable() && Parsed() == WithList(old(Parsed()), key, left.0)
      ensures removed.Err? ==> document == old(document)
    {
      hide Replay, WithoutUserToken, Stored;
      if !Readable() { return Err(InvalidDocument); }
      var lists := Parsed();
      AllListsAreStored();
      var left := WithoutUserToken(codec, official, UserList(lists, key), kind, input);
      if left.Err? { return Err(Refused(left.error)); }
      EmptyListIsStored(codec);
      RemovalTakesOutTheToken(codec, official, UserList(lists, key), kind, input, left.value.1);
      Write(WithList(lists, key, left.value.0));
      removed := Ok(left.value.1);
    }

    lemma AllListsAreStored()
      requires Readable()
      ensures forall key :: key in Parsed() ==> Stored(codec, Parsed()[key])
    {
      forall key | key in document
        ensures Stored(codec, Replay(codec, document[key]).value)
      {
        LoadedListIsStored(codec, document[key]);
      }
    }
  }

  lemma EmptyListIsStored(codec: Codec)
    ensures Stored(codec, [])
  {
  }

  /**
   * An addition followed by the removal restores every list of the document, except that a list stored as
   * empty before is gone afterwards.
   */
  lemma AddAndRemoveRestoresIff(codec: Codec, official: seq<Token>, lists: Lists, key: string, input: Item)
    requires WithUserToken(codec, official, UserList(lists, key), input).Ok?
    requires WithUserToken(codec, official, UserList(lists, key), input).value.1 == Added
    ensures var t := ReadEntry(codec, input).value;
            var added := WithList(lists, key, WithUserToken(codec, official, UserList(lists, key), input).value.0);
            var left := WithoutUserToken(codec, official, UserList(added, key), t.kind, t.id);
            && left.Ok?
            && (WithList(added, key, left.value.0) == lists <==> !(key in lists && lists[key] == []))
  {
    var t := ReadEntry(codec, input).value;
    EntryReadsBack(codec, input);
    RemovalUndoesAddition(codec, official, UserList(lists, key), input, t.id);
    hide ReadEntry, WithoutUserToken;
    assert UserList(lists, key) == [] ==> lists[key := [t]] - {key} == lists - {key};
  }
}
