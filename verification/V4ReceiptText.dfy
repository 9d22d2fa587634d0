/** What the text of logs and internal transfers says to the receipt decoder, character by character. */
module V4ReceiptText {
  import opened V4LiquidityReceipt
  import opened Words
  import opened Wrappers
  import NumberText
  import Text

  predicate IsHexText(s: string) { forall i :: 0 <= i < |s| ==> s[i] in "0123456789abcdefABCDEF" }

  // Whole words, of 64 hex digits each in any case, which a small "0x" may precede.
  predicate IsWords(text: string, words: nat) {
    && |text| in {64 * words, 64 * words + 2}
    && IsHexText(text[|text| - 64 * words..])
    && (|text| != 64 * words ==> text[0] == '0' && text[1] == 'x')
  }

  predicate IsWord(text: string) { IsWords(text, 1) }

  // The account of a word or an address: its last 40 characters in small letters.
  function AccountOf(text: string): string
    requires 40 <= |text|
  {
    Text.Lower(text[|text| - 40..])
  }

  function NumberAt(text: string, words: nat, k: nat): nat
    requires IsWords(text, words) && k < words
  {
    var from := |text| - 64 * words + 64 * k;
    HexDigits(text[from..from + 64]);
    NumberText.Value(text[from..from + 64], 16)
  }

  function NumberOf(text: string): nat
    requires IsWord(text)
  {
    NumberAt(text, 1, 0)
  }

  lemma HexDigits(s: string)
    requires IsHexText(s)
    ensures NumberText.IsNumeral(s, 16)
  {
    forall i | 0 <= i < |s|
      ensures NumberText.IsDigit(s[i], 16)
    {
      NumberText.DigitsAre(s[i], 16);
      assert s[i] in "0123456789abcdef" || s[i] in "ABCDEF";
    }
  }

  // ----- The primitives of the decoder -----

  lemma LoweredDigit(c: char)
    ensures Text.LowerChar(c) in "0123456789abcdef" <==> c in "0123456789abcdefABCDEF"
    ensures c in "0123456789abcdefABCDEF" ==> NumberText.DigitValue(Text.LowerChar(c)) == NumberText.DigitValue(c)
    ensures Text.LowerChar(c) in "0123456789abcdef"
            <==> NumberText.IsDigit(Text.LowerChar(c), 16) && !('A' <= Text.LowerChar(c) <= 'F')
  {
    var low := Text.LowerChar(c);
    NumberText.DigitsAre(c, 16);
    NumberText.DigitsAre(low, 16);
    assert "0123456789abcdefABCDEF" == "0123456789abcdef" + "ABCDEF";
    assert low in "ABCDEF" ==> 'A' <= low <= 'F';
    assert low in "0123456789abcdef" ==> !('A' <= low <= 'F');
    assert c in "ABCDEF" <==> 'A' <= c <= 'F';
  }

  lemma {:induction false} LoweredValue(s: string)
    requires IsHexText(s)
    ensures NumberText.IsNumeral(s, 16) && NumberText.IsNumeral(Text.Lower(s), 16)
    ensures NumberText.Value(Text.Lower(s), 16) == NumberText.Value(s, 16)
  {
    HexDigits(s);
    forall i | 0 <= i < |s|
      ensures NumberText.IsDigit(Text.Lower(s)[i], 16)
    {
      LoweredDigit(s[i]);
    }
    if s != "" {
      var init := s[..|s| - 1];
      LoweredValue(init);
      LoweredDigit(s[|s| - 1]);
      assert Text.Lower(s)[..|s| - 1] == Text.Lower(init);
      hide NumberText.DigitValue, NumberText.IsDigit, Text.LowerChar;
    }
  }

  lemma LoweredIsValidIff(s: string, words: nat)
    requires |s| == 64 * words
    ensures ValidData(Text.Lower(s), words) <==> IsHexText(s)
  {
    hide Text.LowerChar, NumberText.IsDigit;
    forall i | 0 <= i < |s|
      ensures s[i] in "0123456789abcdefABCDEF"
              <==> NumberText.IsDigit(Text.Lower(s)[i], 16) && !('A' <= Text.Lower(s)[i] <= 'F')
    {
      LoweredDigit(s[i]);
    }
  }

  // What is left of the text once a small "0x" in front is dropped.
  lemma HexDropsThePrefix(text: string)
    ensures Hex(text) == Text.Lower(text[if 2 <= |text| && text[0] == '0' && text[1] == 'x' then 2 else 0..])
  {
  }

  // A small "x" is no digit, so no prefix is part of a hex text.
  lemma PrefixIsNoHex(s: string)
    requires IsHexText(s)
    ensures |s| < 2 || s[1] != 'x'
  {
    if 2 <= |s| {
      assert s[1] in "0123456789abcdefABCDEF";
    }
  }

  lemma WordsAreRead(text: string, words: nat, k: nat)
    requires k < words
    ensures ValidData(Hex(text), words) <==> IsWords(text, words)
    ensures IsWords(text, words) ==> Word(Hex(text), k) == NumberAt(text, words, k)
  {
    hide ValidData, Text.Lower, Word, NumberAt;
    HexDropsThePrefix(text);
    var digits := text[if 2 <= |text| && text[0] == '0' && text[1] == 'x' then 2 else 0..];
    ValidLength(Hex(text), words);
    LoweredLength(digits);
    if |digits| == 64 * words {
      LoweredIsValidIff(digits, words);
      assert text[|text| - 64 * words..] == digits;
      if IsHexText(digits) {
        DigitsAreRead(text, digits, words, k);
      }
    } else if IsWords(text, words) {
      PrefixIsNoHex(text[|text| - 64 * words..]);
      assert false;
    }
  }

  lemma DigitsAreRead(text: string, digits: string, words: nat, k: nat)
    requires k < words && IsWords(text, words) && text[|text| - 64 * words..] == digits
    requires Hex(text) == Text.Lower(digits) && ValidData(Hex(text), words)
    ensures Word(Hex(text), k) == NumberAt(text, words, k)
  {
    hide Hex, ValidData, Text.LowerChar, NumberText.Value, IsHexText;
    var from := |text| - 64 * words + 64 * k;
    var part := text[from..from + 64];
    assert part == digits[64 * k..64 * k + 64];
    HexPart(digits, 64 * k, 64 * k + 64);
    LoweredValue(part);
    assert Text.Lower(digits)[64 * k..64 * k + 64] == Text.Lower(part);
  }

  lemma HexPart(s: string, from: nat, to: nat)
    requires from <= to <= |s| && IsHexText(s)
    ensures IsHexText(s[from..to])
  {
  }

  lemma WordIsRead(text: string)
    ensures ValidData(Hex(text), 1) <==> IsWord(text)
    ensures IsWord(text) ==> Word(Hex(text), 0) == NumberOf(text) && Last40(Hex(text)) == AccountOf(text)
  {
    hide Hex, ValidData, Word, NumberAt;
    WordsAreRead(text, 1, 0);
    if IsWord(text) {
      AccountIsRead(text);
    }
  }

  lemma AccountIsRead(text: string)
    requires IsWord(text)
    ensures Last40(Hex(text)) == AccountOf(text)
  {
    hide Hex, Text.LowerChar;
    PrefixIsNoHex(text[|text| - 64..]);
    HexDropsThePrefix(text);
    assert Last40(Hex(text)) == AccountOf(text);
  }

  lemma LoweredLength(s: string)
    ensures |Text.Lower(s)| == |s|
  {
  }

  lemma ValidLength(data: string, words: nat)
    ensures ValidData(data, words) ==> |data| == 64 * words
  {
  }

  lemma PrefixIsNoAccount(text: string)
    requires 40 <= |text| < 42 && text[1] == 'x'
    ensures !IsHexText(AccountOf(text))
  {
    assert AccountOf(text)[41 - |text|] == 'x';
    assert 'x' !in "0123456789abcdefABCDEF";
  }

  // No address without a hex account of 40 digits at its end is taken for one.
  lemma AccountIsReadIff(text: string, account: string)
    requires |account| == 40 && IsHexText(account)
    ensures Last40(Hex(text)) == account <==> 40 <= |text| && AccountOf(text) == account
  {
    HexDropsThePrefix(text);
    var cut := if 2 <= |text| && text[0] == '0' && text[1] == 'x' then 2 else 0;
    var rest := text[cut..];
    if 40 <= |rest| {
      assert Text.Lower(rest)[|rest| - 40..] == Text.Lower(text[|text| - 40..]);
    } else if 40 <= |text| {
      PrefixIsNoAccount(text);
    }
  }

  // ----- Transfers -----

  predicate IsAccount(account: string) { |account| == 40 && IsHexText(account) }

  // The topic of an event signature, in small letters.
  predicate IsTopic(topic: string) { IsWord(topic) && |topic| == 64 }

  predicate IsAt(address: string, account: string) { 40 <= |address| && AccountOf(address) == account }

  predicate Names(topic: string, event: string) {
    IsWord(topic) && Text.Lower(topic[|topic| - 64..]) == event
  }

  lemma TopicIsReadIff(topic: string, event: string)
    requires IsTopic(event)
    ensures Hex(topic) == event <==> Names(topic, event)
  {
    hide ValidData, Text.Lower, Word;
    HexDropsThePrefix(topic);
    var digits := topic[if 2 <= |topic| && topic[0] == '0' && topic[1] == 'x' then 2 else 0..];
    LoweredLength(digits);
    if |digits| == 64 {
      assert topic[|topic| - 64..] == digits;
      LoweredIsHexIff(digits);
      assert event[|event| - 64..] == event;
    } else if IsWord(topic) {
      PrefixIsNoHex(topic[|topic| - 64..]);
      assert false;
    }
  }

  lemma LoweredIsHexIff(s: string)
    ensures IsHexText(Text.Lower(s)) <==> IsHexText(s)
  {
    hide Text.LowerChar;
    assert |Text.Lower(s)| == |s| && forall i :: 0 <= i < |s| ==> Text.Lower(s)[i] == Text.LowerChar(s[i]);
    forall i | 0 <= i < |s|
      ensures Text.Lower(s)[i] in "0123456789abcdefABCDEF" <==> s[i] in "0123456789abcdefABCDEF"
    {
      LoweredHexIff(s[i]);
    }
  }

  lemma LoweredHexIff(c: char)
    ensures Text.LowerChar(c) in "0123456789abcdefABCDEF" <==> c in "0123456789abcdefABCDEF"
  {
    LoweredDigit(c);
    assert "0123456789abcdefABCDEF" == "0123456789abcdef" + "ABCDEF";
    assert c in "0123456789abcdefABCDEF" <==> '0' <= c <= '9' || 'a' <= c <= 'f' || 'A' <= c <= 'F';
    assert Text.LowerChar(c) in "ABCDEF" ==> 'A' <= Text.LowerChar(c) <= 'F';
  }

  // A Transfer log of the token's contract.
  predicate Concerns(events: Events, log: Log, token: string) {
    IsAt(log.address, token) && log.topics != [] && Names(log.topics[0], events.transfer)
  }

  predicate NamesParties(log: Log) { |log.topics| == 3 && IsWord(log.topics[1]) && IsWord(log.topics[2]) }

  lemma ConcernsIff(events: Events, log: Log, token: string)
    requires IsTopic(events.transfer) && IsAccount(token)
    ensures IsTransferOf(events, log, token) <==> Concerns(events, log, token)
  {
    AccountIsReadIff(log.address, token);
    TopicIsReadIff(if log.topics == [] then "" else log.topics[0], events.transfer);
    assert !Names("", events.transfer);
    hide IsTopic, IsAccount, Names, IsAt, Hex, Last40;
  }

  lemma PartiesAreRead(log: Log)
    ensures HasParties(log) <==> NamesParties(log)
    ensures HasParties(log) ==>
              Sender(log) == AccountOf(log.topics[1]) && Receiver(log) == AccountOf(log.topics[2])
  {
    hide IsWord, ValidData, Hex, Last40, AccountOf, NumberOf, Word;
    if |log.topics| == 3 {
      WordIsRead(log.topics[1]);
      WordIsRead(log.topics[2]);
    }
  }

  // The change of a balance by a move of this amount, which matters only to an account at one of its ends.
  function BalanceChange(sends: bool, receives: bool, amount: Option<int>): Option<int> {
    if sends == receives then Some(0)
    else if amount.None? then None
    else if receives then Some(amount.value)
    else Some(-amount.value)
  }

  function AmountWord(text: string): Option<nat> { if IsWord(text) then Some(NumberOf(text)) else None }

  lemma Signs(from: string, to: string, owner: string, amount: Option<int>)
    ensures BalanceChange(from == owner, to == owner, amount) ==
            if Direction(from, to, owner) == 0 then Some(0)
            else if amount.None? then None
            else Some(Direction(from, to, owner) * amount.value)
  {
  }

  /**
   * How one log changes the balance of an account: a log of another contract or event not at all; a transfer
   * of the token with other than two whole account words makes it unknown, and so does one that moves the
   * account's tokens without a whole amount; any other adds what the account receives and takes off what it
   * sends.
   */
  lemma LogIsRead(events: Events, log: Log, token: string, owner: string)
    requires IsTopic(events.transfer) && IsAccount(token)
    ensures LogDelta(events, log, token, owner) ==
            if !Concerns(events, log, token) then Some(0)
            else if !NamesParties(log) then None
            else BalanceChange(AccountOf(log.topics[1]) == owner, AccountOf(log.topics[2]) == owner,
                               AmountWord(log.data))
    ensures LogMoves(events, log, token) ==
            if Concerns(events, log, token) && NamesParties(log) then
              var amount := if IsWord(log.data) then NumberOf(log.data) else 0;
              [Move(AccountOf(log.topics[1]), AccountOf(log.topics[2]), amount)]
            else []
  {
    hide ValidData, Hex, IsWord, AccountOf, NumberOf, Word, IsTopic, IsAccount, Concerns;
    hide IsTransferOf, HasParties, Sender, Receiver, Direction, BalanceChange;
    ConcernsIff(events, log, token);
    PartiesAreRead(log);
    WordIsRead(log.data);
    if HasParties(log) {
      Signs(Sender(log), Receiver(log), owner, AmountWord(log.data));
    }
  }

  /**
   * A transfer as the token contract emits it, in whatever case and with or without prefixes, changes the
   * balance of the receiver by the amount, that of the sender by minus the amount, and no other.
   */
  lemma EmittedTransferIsRead(
    events: Events, log: Log, token: string, from: string, to: string, amount: Uint256, owner: string)
    requires IsTopic(events.transfer) && IsAccount(token)
    requires Concerns(events, log, token) && NamesParties(log)
    requires from == AccountOf(log.topics[1]) && to == AccountOf(log.topics[2])
    requires log.data in {WordText(amount), "0x" + WordText(amount)}
    ensures LogDelta(events, log, token, owner)
            == Some((if owner == to then amount else 0) - (if owner == from then amount else 0))
    ensures LogMoves(events, log, token) == [Move(from, to, amount)]
  {
    hide IsTopic, IsAccount, Concerns, IsWord, AccountOf, LogDelta, LogMoves, WordText, NumberOf;
    AmountIsAWord(amount);
    LogIsRead(events, log, token, owner);
  }

  lemma AmountIsAWord(amount: Uint256)
    ensures IsWord(WordText(amount)) && NumberOf(WordText(amount)) == amount
    ensures IsWord("0x" + WordText(amount)) && NumberOf("0x" + WordText(amount)) == amount
  {
    hide WordText;
    var digits := WordText(amount);
    WordReadsBack(amount);
    OnlyWord(digits);
    assert digits[0..] == digits;
    assert digits[0..64] == digits && ("0x" + digits)[2..66] == ("0x" + digits)[2..] == digits;
    forall i | 0 <= i < 64
      ensures digits[i] in "0123456789abcdefABCDEF"
    {
      NumberText.DigitsAre(digits[i], 16);
      assert NumberText.IsDigit(digits[i], 16);
    }
  }

  // ----- Internal TRX transfers -----

  // The amounts of the values that are TRX.
  function TrxOf(values: seq<CallValue>): seq<Amount> {
    if values == [] then []
    else (if values[0].isTrc10 then [] else [values[0].amount]) + TrxOf(values[1..])
  }

  // An absent amount is zero; a number must be safe and at least zero, a text decimal digits.
  predicate IsReadable(amount: Amount) {
    || amount.Absent?
    || (amount.SafeInteger? && 0 <= amount.number)
    || (amount.AmountText? && amount.text != "" && forall c :: c in amount.text ==> c in "0123456789")
  }

  function AmountIn(amount: Amount): nat
    requires IsReadable(amount)
  {
    match amount
    case Absent => 0
    case SafeInteger(number) => number
    case AmountText(text) =>
      DecimalDigits(text);
      NumberText.Value(text, 10)
  }

  predicate AllReadable(amounts: seq<Amount>) { forall a :: a in amounts ==> IsReadable(a) }

  function SumOf(amounts: seq<Amount>): nat
    requires AllReadable(amounts)
  {
    if amounts == [] then 0
    else
      assert amounts[0] in amounts;
      AmountIn(amounts[0]) + SumOf(amounts[1..])
  }

  lemma DecimalDigits(text: string)
    ensures NumberText.IsNumeral(text, 10) <==> forall c :: c in text ==> c in "0123456789"
  {
    forall i | 0 <= i < |text|
      ensures NumberText.IsDigit(text[i], 10) <==> text[i] in "0123456789"
    {
      NumberText.DigitsAre(text[i], 10);
    }
  }

  lemma AmountIsRead(amount: Amount)
    ensures AmountOf(amount) == if IsReadable(amount) then Some(AmountIn(amount)) else None
  {
    if amount.AmountText? {
      DecimalDigits(amount.text);
    }
  }

  lemma {:induction false} ValuesAreRead(values: seq<CallValue>)
    ensures Total(values, ValueOf)
            == if AllReadable(TrxOf(values)) then Some(SumOf(TrxOf(values))) else None
  {
    if values != [] {
      hide AmountOf, IsReadable, AmountIn;
      var first, rest := values[0], values[1..];
      assert values == [first] + rest;
      TotalOfConcat([first], rest, ValueOf);
      assert [first][..0] == [] && Total([first], ValueOf) == Plus(Some(0), ValueOf(first));
      ValuesAreRead(rest);
      AmountIsRead(first.amount);
      if !first.isTrc10 {
        MoreAmounts(first.amount, TrxOf(rest));
        assert TrxOf(values) == [first.amount] + TrxOf(rest);
      } else {
        assert TrxOf(values) == TrxOf(rest);
      }
    }
  }

  lemma MoreAmounts(first: Amount, rest: seq<Amount>)
    ensures AllReadable([first] + rest) <==> IsReadable(first) && AllReadable(rest)
    ensures AllReadable([first] + rest) ==> SumOf([first] + rest) == AmountIn(first) + SumOf(rest)
  {
    hide IsReadable;
    assert forall a :: a in [first] + rest <==> a == first || a in rest;
    assert ([first] + rest)[1..] == rest;
  }

  // Known when the values are listed and every TRX amount among them is readable.
  function AmountOfCall(call: Call): Option<nat> {
    if call.values.None? || !AllReadable(TrxOf(call.values.value)) then None
    else Some(SumOf(TrxOf(call.values.value)))
  }

  /**
   * How one internal transfer changes the balance of an account: not at all when it was rejected or the
   * account is neither or both of its ends. Otherwise its values must be listed and every TRX amount must be
   * readable, and the account receives or sends their sum; TRC10 values do not count, whatever they are.
   */
  lemma CallIsRead(call: Call, owner: string)
    requires IsAccount(owner)
    ensures ValueDelta(call, owner) ==
            if call.rejected then Some(0)
            else BalanceChange(IsAt(call.caller, owner), IsAt(call.to, owner), AmountOfCall(call))
  {
    hide Last40, Hex, IsAt, TrxOf, AllReadable, SumOf, Total, ValueOf, IsAccount, Direction, BalanceChange;
    Signs(Last40(Hex(call.caller)), Last40(Hex(call.to)), owner, AmountOfCall(call));
    AtIs(call.caller, owner);
    AtIs(call.to, owner);
    if call.values.Some? {
      ValuesAreRead(call.values.value);
    }
  }

  lemma AtIs(address: string, account: string)
    requires IsAccount(account)
    ensures IsAt(address, account) <==> Last40(Hex(address)) == account
  {
    AccountIsReadIff(address, account);
  }

  // ----- The two events of a change -----

  /** Which logs are taken for the position event: of the manager, with one token id, the one asked for. */
  lemma PositionIsFoundIff(events: Events, log: Log, manager: string, tokenId: Option<string>)
    requires IsTopic(events.positionModify) && IsAccount(manager)
    ensures IsPosition(events, log, manager, tokenId) <==>
            && IsAt(log.address, manager) && |log.topics| == 2
            && Names(log.topics[0], events.positionModify) && IsWord(log.topics[1])
            && (tokenId.None? || NumberText.Print(NumberOf(log.topics[1]), 10) == tokenId.value)
  {
    hide IsWord, ValidData, Hex, Last40, Word, IsAt, IsAccount, Names, IsTopic, NumberOf;
    AtIs(log.address, manager);
    if |log.topics| == 2 {
      TopicIsReadIff(log.topics[0], events.positionModify);
      WordIsRead(log.topics[1]);
    }
  }

  /**
   * Which logs are taken for its pool event: of the pool manager, for this pool, caused by the position
   * manager, with the token id as the salt and the same liquidity change.
   */
  lemma PoolChangeIsFoundIff(
    events: Events, log: Log, pool: string, manager: string, poolId: string, tokenId: nat, liquidityDelta: int)
    requires IsTopic(events.poolModify) && IsAccount(pool) && IsAccount(manager) && IsTopic(Hex(poolId))
    ensures IsPoolChange(events, log, pool, manager, poolId, tokenId, liquidityDelta) <==>
            && IsAt(log.address, pool) && |log.topics| == 3
            && Names(log.topics[0], events.poolModify)
            && Names(log.topics[1], Hex(poolId))
            && IsWord(log.topics[2]) && AccountOf(log.topics[2]) == manager
            && IsWords(log.data, 5)
            && NumberAt(log.data, 5, 3) == tokenId
            && Signed(NumberAt(log.data, 5, 2), TWO_256) == liquidityDelta
  {
    hide IsWord, IsWords, ValidData, Hex, Last40, Word, IsAt, IsAccount, Names, IsTopic, NumberOf, NumberAt;
    hide AccountOf, Signed;
    AtIs(log.address, pool);
    WordsAreRead(log.data, 5, 2);
    WordsAreRead(log.data, 5, 3);
    if |log.topics| == 3 {
      TopicIsReadIff(log.topics[0], events.poolModify);
      TopicIsReadIff(log.topics[1], Hex(poolId));
      WordIsRead(log.topics[2]);
    }
  }

  ghost predicate OnlyPositionAt(
    events: Events, logs: seq<Log>, manager: string, tokenId: Option<string>, i: nat)
  {
    && i < |logs| && IsPosition(events, logs[i], manager, tokenId)
    && forall k :: 0 <= k < |logs| && k != i ==> !IsPosition(events, logs[k], manager, tokenId)
  }

  ghost predicate OnlyPoolChangeAt(
    events: Events, logs: seq<Log>, pool: string, manager: string, poolId: string, tokenId: nat, delta: int, j: nat)
  {
    && j < |logs| && IsPoolChange(events, logs[j], pool, manager, poolId, tokenId, delta)
    && forall k :: 0 <= k < |logs| && k != j ==>
         !IsPoolChange(events, logs[k], pool, manager, poolId, tokenId, delta)
  }

  lemma {:induction false} OnePositionIsOnly(events: Events, logs: seq<Log>, manager: string, tokenId: Option<string>)
    requires |Positions(events, logs, manager, tokenId)| == 1
    ensures exists i: nat :: OnlyPositionAt(events, logs, manager, tokenId, i)
  {
    hide IsPosition;
    if IsPosition(events, logs[0], manager, tokenId) {
      assert Positions(events, logs[1..], manager, tokenId) == [];
      PositionsAreAll(events, logs[1..], manager, tokenId);
      assert OnlyPositionAt(events, logs, manager, tokenId, 0);
    } else {
      OnePositionIsOnly(events, logs[1..], manager, tokenId);
      var i: nat :| OnlyPositionAt(events, logs[1..], manager, tokenId, i);
      assert OnlyPositionAt(events, logs, manager, tokenId, i + 1);
    }
  }

  lemma {:induction false} PositionsAreAll(events: Events, logs: seq<Log>, manager: string, tokenId: Option<string>)
    ensures forall k :: 0 <= k < |logs| && IsPosition(events, logs[k], manager, tokenId) ==>
              logs[k] in Positions(events, logs, manager, tokenId)
  {
    hide IsPosition;
    if logs != [] {
      PositionsAreAll(events, logs[1..], manager, tokenId);
    }
  }

  lemma {:induction false} OnePoolChangeIsOnly(
    events: Events, logs: seq<Log>, pool: string, manager: string, poolId: string, tokenId: nat, delta: int)
    requires |PoolChanges(events, logs, pool, manager, poolId, tokenId, delta)| == 1
    ensures exists j: nat :: OnlyPoolChangeAt(events, logs, pool, manager, poolId, tokenId, delta, j)
  {
    hide IsPoolChange;
    if IsPoolChange(events, logs[0], pool, manager, poolId, tokenId, delta) {
      assert PoolChanges(events, logs[1..], pool, manager, poolId, tokenId, delta) == [];
      PoolChangesAreAll(events, logs[1..], pool, manager, poolId, tokenId, delta);
      assert OnlyPoolChangeAt(events, logs, pool, manager, poolId, tokenId, delta, 0);
    } else {
      OnePoolChangeIsOnly(events, logs[1..], pool, manager, poolId, tokenId, delta);
      var j: nat :| OnlyPoolChangeAt(events, logs[1..], pool, manager, poolId, tokenId, delta, j);
      assert OnlyPoolChangeAt(events, logs, pool, manager, poolId, tokenId, delta, j + 1);
    }
  }

  lemma {:induction false} PoolChangesAreAll(
    events: Events, logs: seq<Log>, pool: string, manager: string, poolId: string, tokenId: nat, delta: int)
    ensures forall k :: 0 <= k < |logs| && IsPoolChange(events, logs[k], pool, manager, poolId, tokenId, delta) ==>
              logs[k] in PoolChanges(events, logs, pool, manager, poolId, tokenId, delta)
  {
    hide IsPoolChange;
    if logs != [] {
      PoolChangesAreAll(events, logs[1..], pool, manager, poolId, tokenId, delta);
    }
  }

  // The change that these two logs describe.
  ghost predicate Describe(
    events: Events, logs: seq<Log>, query: Query, manager: string, pool: string, i: nat, j: nat, change: Change)
  {
    && OnlyPositionAt(events, logs, manager, query.tokenId, i)
    && IsWord(logs[i].topics[1]) && NumberOf(logs[i].topics[1]) == change.tokenId
    && IsWords(logs[i].data, 2)
    && Signed(NumberAt(logs[i].data, 2, 0), TWO_256) == change.liquidityDelta
    && Pair(NumberAt(logs[i].data, 2, 1)) == change.fee
    && change.fee.0 >= 0 && change.fee.1 >= 0
    && OnlyPoolChangeAt(events, logs, pool, manager, query.poolId, change.tokenId, change.liquidityDelta, j)
    && IsWords(logs[j].data, 5)
    && Pair(NumberAt(logs[j].data, 5, 4)) == change.principal
  }

  /**
   * A change is read exactly when a single log is its position event and a single one its pool event, with
   * whole words in both and no negative fee; its numbers are those of the two logs.
   */
  lemma ChangeIsReadIff(
    events: Events, logs: seq<Log>, query: Query, manager: string, pool: string, change: Change)
    ensures ChangeOf(events, logs, query, manager, pool) == Some(change)
            <==> exists i: nat, j: nat :: Describe(events, logs, query, manager, pool, i, j, change)
  {
    hide ChangeOf, Describe;
    if ChangeOf(events, logs, query, manager, pool) == Some(change) {
      ReadIsDescribed(events, logs, query, manager, pool, change);
    }
    if exists i: nat, j: nat :: Describe(events, logs, query, manager, pool, i, j, change) {
      var i: nat, j: nat :| Describe(events, logs, query, manager, pool, i, j, change);
      DescribedIsRead(events, logs, query, manager, pool, i, j, change);
    }
  }

  lemma ReadIsDescribed(events: Events, logs: seq<Log>, query: Query, manager: string, pool: string, change: Change)
    requires ChangeOf(events, logs, query, manager, pool) == Some(change)
    ensures exists i: nat, j: nat :: Describe(events, logs, query, manager, pool, i, j, change)
  {
    hide Word, ValidData, Hex, Last40, Signed, Pair, IsWord, IsWords, NumberOf, NumberAt, Positions, PoolChanges;
    OnePositionIsOnly(events, logs, manager, query.tokenId);
    var i: nat :| OnlyPositionAt(events, logs, manager, query.tokenId, i);
    OnlyPosition(events, logs, manager, query.tokenId, i);
    OnePoolChangeIsOnly(events, logs, pool, manager, query.poolId, change.tokenId, change.liquidityDelta);
    var j: nat :|
      OnlyPoolChangeAt(events, logs, pool, manager, query.poolId, change.tokenId, change.liquidityDelta, j);
    OnlyPoolChange(events, logs, pool, manager, query.poolId, change.tokenId, change.liquidityDelta, j);
    WordIsRead(logs[i].topics[1]);
    WordsAreRead(logs[i].data, 2, 0);
    WordsAreRead(logs[i].data, 2, 1);
    WordsAreRead(logs[j].data, 5, 4);
    assert Describe(events, logs, query, manager, pool, i, j, change);
  }

  lemma DescribedIsRead(
    events: Events, logs: seq<Log>, query: Query, manager: string, pool: string, i: nat, j: nat, change: Change)
    requires Describe(events, logs, query, manager, pool, i, j, change)
    ensures ChangeOf(events, logs, query, manager, pool) == Some(change)
  {
    hide Word, ValidData, Hex, Last40, Signed, Pair, IsWord, IsWords, NumberOf, NumberAt, Positions, PoolChanges;
    OnlyPosition(events, logs, manager, query.tokenId, i);
    OnlyPoolChange(events, logs, pool, manager, query.poolId, change.tokenId, change.liquidityDelta, j);
    WordIsRead(logs[i].topics[1]);
    WordsAreRead(logs[i].data, 2, 0);
    WordsAreRead(logs[i].data, 2, 1);
    WordsAreRead(logs[j].data, 5, 4);
  }

  // ----- The balance change -----

  lemma {:induction false} TotalIsKnownIff<T>(items: seq<T>, delta: T -> Option<int>)
    ensures Total(items, delta).Some? <==> forall i :: 0 <= i < |items| ==> delta(items[i]).Some?
  {
    if items != [] {
      var init := items[..|items| - 1];
      TotalIsKnownIff(init, delta);
      assert forall i :: 0 <= i < |init| ==> init[i] == items[i];
    }
  }

  /**
   * The balance change in a token is known exactly when every log is readable, and is then what the account
   * received less what it sent. In TRX the internal transfers must be listed and each be readable, and the
   * amount sent with the call itself comes off.
   */
  lemma FlowIsKnownIff(events: Events, receipt: Receipt, query: Query, currency: Currency)
    requires receipt.logs.Some?
    ensures currency.Contract? ==>
              var flow := FlowOf(events, receipt, query, currency);
              var moves := TokenMoves(events, receipt.logs.value, currency.token);
              && (flow.Some? <==>
                 forall log :: log in receipt.logs.value ==> Readable(events, log, currency.token, query.account))
              && (flow.Some? ==> flow.value == Received(moves, query.account) - Sent(moves, query.account))
    ensures currency.NativeTrx? ==>
              var flow := FlowOf(events, receipt, query, currency);
              && (flow.Some? <==>
                 && receipt.calls.Some?
                 && forall call :: call in receipt.calls.value ==> ValueDelta(call, query.account).Some?)
              && (flow.Some? ==>
                 var moves := NativeMoves(receipt.calls.value);
                 flow.value == Received(moves, query.account) - Sent(moves, query.account) - query.nativeSent)
  {
    hide Total, Readable, TokenMoves, NativeMoves, Received, Sent, ValueDelta;
    match currency
    case Contract(token) =>
      var logs := receipt.logs.value;
      TokenFlowIsReceivedMinusSent(events, logs, logs, token, query.account);
      TokenFlowIsKnownIff(events, logs, token, query.account);
      assert forall i :: 0 <= i < |logs| ==> logs[i] in logs;
    case NativeTrx =>
      if receipt.calls.Some? {
        var calls := receipt.calls.value;
        NativeFlowIsReceivedMinusSent(calls, calls, query.account);
        TotalIsKnownIff(calls, CallDelta(query.account));
        assert forall i :: 0 <= i < |calls| ==> calls[i] in calls;
      }
  }
}
