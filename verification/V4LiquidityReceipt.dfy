/**
 * Decoding the receipt of a V4 liquidity change: the position event, its pool event with packed deltas,
 * and the balance change of the account summed over Transfer logs or internal TRX transfers.
 */
module V4LiquidityReceipt {
  import opened Words
  import opened Wrappers
  import NumberText
  import Text

  // ----- Hex words -----

  function Hex(s: string): string { Text.Lower(if Text.StartsWith(s, "0x") then s[2..] else s) }

  // s.slice(-40)
  function Last40(s: string): string { if |s| < 40 then s else s[|s| - 40..] }

  predicate ValidData(data: string, words: nat) {
    && |data| == 64 * words
    && forall i :: 0 <= i < |data| ==> NumberText.IsDigit(data[i], 16) && !('A' <= data[i] <= 'F')
  }

  function Word(data: string, index: nat): nat
    requires exists words: nat :: index < words && ValidData(data, words)
  {
    NumberText.Value(data[64 * index..64 * index + 64], 16)
  }

  function Pair(packed: nat): (int, int) { (Signed(packed / TWO_128, TWO_128), Signed(packed, TWO_128)) }

  function Packed(first: int, second: int): nat
    requires Fits(first, TWO_128) && Fits(second, TWO_128)
  {
    Unsigned(first, TWO_128) * TWO_128 + Unsigned(second, TWO_128)
  }

  // n as 64 lower-case hex digits.
  function WordText(n: Uint256): string { NumberText.PadStart(NumberText.Print(n, 16), 64) }

  /** Unpacking undoes packing, and packing undoes unpacking, on all 128-bit halves. */
  lemma PairReadsBack(first: int, second: int, packed: nat)
    requires Fits(first, TWO_128) && Fits(second, TWO_128) && packed < TWO_256
    ensures Pair(Packed(first, second)) == (first, second)
    ensures Packed(first, second) < TWO_256
    ensures var (a, b) := Pair(packed); Fits(a, TWO_128) && Fits(b, TWO_128) && Packed(a, b) == packed
  {
    SignedReadsBack(first, TWO_128);
    SignedReadsBack(second, TWO_128);
  }

  lemma SmallPower()
    ensures NumberText.Pow(16, 2) == 256
  {
    assert NumberText.Pow(16, 1) == 16 * NumberText.Pow(16, 0);
  }

  lemma WordLimit()
    ensures NumberText.Pow(16, 64) == TWO_256
  {
    hide NumberText.Pow;
    SmallPower();
    NumberText.PowAdds(16, 2, 2);
    NumberText.PowAdds(16, 4, 4);
    NumberText.PowAdds(16, 8, 8);
    NumberText.PowAdds(16, 16, 16);
    NumberText.PowAdds(16, 32, 32);
  }

  lemma WordHasAtMost64Digits(n: Uint256)
    ensures |NumberText.Print(n, 16)| <= 64
  {
    var digits := |NumberText.Print(n, 16)|;
    WordLimit();
    if 64 < digits {
      hide NumberText.Print, NumberText.Pow;
      assert 0 < n;
      NumberText.PrintLength(n, 16);
      NumberText.PowGrows(16, 64, digits - 1);
    }
  }

  lemma PaddedIsValid(zeros: nat, digits: string)
    requires zeros + |digits| == 64 && NumberText.IsCanonical(digits, 16)
    ensures ValidData(NumberText.Zeros(zeros) + digits, 1)
  {
    hide NumberText.Zeros;
    NumberText.ZerosShape(zeros);
    var text := NumberText.Zeros(zeros) + digits;
    assert forall i :: 0 <= i < zeros ==> text[i] == '0';
    assert forall i :: zeros <= i < 64 ==> text[i] == digits[i - zeros];
  }

  lemma WordReadsBack(n: Uint256)
    ensures ValidData(WordText(n), 1) && Word(WordText(n), 0) == n
  {
    hide NumberText.Print, NumberText.Value, NumberText.Zeros, NumberText.Pow, NumberText.IsCanonical, ValidData;
    WordHasAtMost64Digits(n);
    NumberText.NoZeros();
    var digits := NumberText.Print(n, 16);
    var zeros := 64 - |digits|;
    NumberText.PrintReadsBack(n, 16);
    NumberText.LeadingZeros(zeros, digits, 16);
    PaddedIsValid(zeros, digits);
    var text := WordText(n);
    assert text == NumberText.Zeros(zeros) + digits;
    OnlyWord(text);
  }

  lemma OnlyWord(text: string)
    requires ValidData(text, 1)
    ensures Word(text, 0) == NumberText.Value(text, 16)
  {
    assert text[64 * 0..64 * 0 + 64] == text;
  }

  // ----- Events -----

  // Absent members read as "" and [].
  datatype Log = Log(address: string, topics: seq<string>, data: string)

  // The keccak topics of the three event signatures.
  datatype Events = Events(poolModify: string, positionModify: string, transfer: string)

  // ----- Moves of value -----

  datatype Move = Move(from: string, to: string, amount: nat)

  function Direction(from: string, to: string, owner: string): int {
    (if to == owner then 1 else 0) - (if from == owner then 1 else 0)
  }

  function NetFlow(moves: seq<Move>, owner: string): int {
    if moves == [] then 0
    else
      var last := moves[|moves| - 1];
      NetFlow(moves[..|moves| - 1], owner) + Direction(last.from, last.to, owner) * last.amount
  }

  function Received(moves: seq<Move>, owner: string): nat {
    if moves == [] then 0
    else Received(moves[1..], owner) + if moves[0].to == owner then moves[0].amount else 0
  }

  function Sent(moves: seq<Move>, owner: string): nat {
    if moves == [] then 0
    else Sent(moves[1..], owner) + if moves[0].from == owner then moves[0].amount else 0
  }

  lemma {:induction false} LastMove(moves: seq<Move>, owner: string)
    requires moves != []
    ensures var init, last := moves[..|moves| - 1], moves[|moves| - 1];
            && Received(moves, owner) == Received(init, owner) + (if last.to == owner then last.amount else 0)
            && Sent(moves, owner) == Sent(init, owner) + (if last.from == owner then last.amount else 0)
  {
    if |moves| > 1 {
      LastMove(moves[1..], owner);
      assert moves[1..][..|moves| - 2] == moves[..|moves| - 1][1..];
    }
  }

  lemma {:induction false} NetFlowIsReceivedMinusSent(moves: seq<Move>, owner: string)
    ensures NetFlow(moves, owner) == Received(moves, owner) - Sent(moves, owner)
  {
    if moves != [] {
      NetFlowIsReceivedMinusSent(moves[..|moves| - 1], owner);
      LastMove(moves, owner);
    }
  }

  function SumOfNetFlows(moves: seq<Move>, accounts: seq<string>): int {
    if accounts == [] then 0 else NetFlow(moves, accounts[0]) + SumOfNetFlows(moves, accounts[1..])
  }

  ghost predicate Distinct(accounts: seq<string>) {
    forall i, j :: 0 <= i < j < |accounts| ==> accounts[i] != accounts[j]
  }

  function SumOfDirections(from: string, to: string, accounts: seq<string>): int {
    if accounts == [] then 0 else Direction(from, to, accounts[0]) + SumOfDirections(from, to, accounts[1..])
  }

  function One(holds: bool): int { if holds then 1 else 0 }

  lemma {:induction false} DirectionsCancel(from: string, to: string, accounts: seq<string>)
    requires Distinct(accounts)
    ensures SumOfDirections(from, to, accounts) == One(to in accounts) - One(from in accounts)
  {
    if accounts != [] {
      assert Distinct(accounts[1..]);
      DirectionsCancel(from, to, accounts[1..]);
      assert forall a :: a in accounts <==> a == accounts[0] || a in accounts[1..];
      assert accounts[0] !in accounts[1..];
    }
  }

  lemma {:induction false} SumOfLastMove(moves: seq<Move>, accounts: seq<string>)
    requires moves != []
    ensures var init, last := moves[..|moves| - 1], moves[|moves| - 1];
            SumOfNetFlows(moves, accounts)
            == SumOfNetFlows(init, accounts) + SumOfDirections(last.from, last.to, accounts) * last.amount
  {
    if accounts != [] {
      hide Direction;
      SumOfLastMove(moves, accounts[1..]);
      var last := moves[|moves| - 1];
      Distributes(last.amount, Direction(last.from, last.to, accounts[0]),
                  SumOfDirections(last.from, last.to, accounts[1..]));
    }
  }

  lemma {:induction false} NetFlowsCancel(moves: seq<Move>, accounts: seq<string>)
    requires Distinct(accounts)
    requires forall m :: m in moves ==> m.from in accounts && m.to in accounts
    ensures SumOfNetFlows(moves, accounts) == 0
    decreases |moves|
  {
    if moves == [] {
      NothingMoves(accounts);
    } else {
      var last := moves[|moves| - 1];
      assert last in moves;
      NetFlowsCancel(moves[..|moves| - 1], accounts);
      SumOfLastMove(moves, accounts);
      DirectionsCancel(last.from, last.to, accounts);
    }
  }

  lemma {:induction false} NothingMoves(accounts: seq<string>)
    ensures SumOfNetFlows([], accounts) == 0
  {
    if accounts != [] {
      NothingMoves(accounts[1..]);
    }
  }

  // ----- Totals that may be unknown -----

  function Plus(a: Option<int>, b: Option<int>): Option<int> {
    if a.None? || b.None? then None else Some(a.value + b.value)
  }

  function Total<T>(items: seq<T>, delta: T -> Option<int>): Option<int> {
    if items == [] then Some(0) else Plus(Total(items[..|items| - 1], delta), delta(items[|items| - 1]))
  }

  lemma {:induction false} TotalOfConcat<T>(a: seq<T>, b: seq<T>, delta: T -> Option<int>)
    ensures Total(a + b, delta) == Plus(Total(a, delta), Total(b, delta))
    decreases |b|
  {
    if b == [] {
      assert a + b == a;
    } else {
      TotalOfConcat(a, b[..|b| - 1], delta);
      assert (a + b)[..|a + b| - 1] == a + b[..|b| - 1];
    }
  }

  lemma SameRest<T>(init: seq<T>, last: T, b: seq<T>, i: nat)
    requires i < |b| && b[i] == last && multiset(init + [last]) == multiset(b)
    ensures multiset(init) == multiset(b[..i] + b[i + 1..])
    ensures b == b[..i] + [last] + b[i + 1..]
  {
    assert b == b[..i] + [last] + b[i + 1..];
    assert multiset(b) == multiset(b[..i]) + multiset{last} + multiset(b[i + 1..]);
    assert multiset(init) == multiset(init + [last]) - multiset{last};
  }

  lemma {:induction false} TotalOfPermutation<T>(a: seq<T>, b: seq<T>, delta: T -> Option<int>)
    requires multiset(a) == multiset(b)
    ensures Total(a, delta) == Total(b, delta)
    decreases |a|
  {
    hide Total;
    if a == [] {
      assert |multiset(b)| == 0;
    } else {
      var init, last := a[..|a| - 1], a[|a| - 1];
      assert a == init + [last];
      TotalOfConcat(init, [last], delta);
      assert last in multiset(b);
      var i :| 0 <= i < |b| && b[i] == last;
      var rest := b[..i] + b[i + 1..];
      SameRest(init, last, b, i);
      TotalOfPermutation(init, rest, delta);
      TotalOfConcat(b[..i], b[i + 1..], delta);
      TotalOfConcat(b[..i], [last], delta);
      TotalOfConcat(b[..i] + [last], b[i + 1..], delta);
    }
  }

  lemma {:induction false} TotalStops<T>(items: seq<T>, n: nat, delta: T -> Option<int>)
    requires n <= |items| && Total(items[..n], delta).None?
    ensures Total(items, delta).None?
    decreases |items|
  {
    if n < |items| {
      assert items[..|items| - 1][..n] == items[..n];
      TotalStops(items[..|items| - 1], n, delta);
    } else {
      assert items[..n] == items;
    }
  }

  // ----- Token transfers -----

  predicate IsTransferOf(events: Events, log: Log, token: string) {
    && Last40(Hex(log.address)) == token
    && Hex(if log.topics == [] then "" else log.topics[0]) == events.transfer
  }

  predicate HasParties(log: Log) {
    && |log.topics| == 3
    && ValidData(Hex(log.topics[1]), 1)
    && ValidData(Hex(log.topics[2]), 1)
  }

  function Sender(log: Log): string
    requires HasParties(log)
  {
    Last40(Hex(log.topics[1]))
  }

  function Receiver(log: Log): string
    requires HasParties(log)
  {
    Last40(Hex(log.topics[2]))
  }

  function LogDelta(events: Events, log: Log, token: string, owner: string): Option<int> {
    if !IsTransferOf(events, log, token) then Some(0)
    else if !HasParties(log) then None
    else
      var direction := Direction(Sender(log), Receiver(log), owner);
      if direction == 0 then Some(0)
      else if !ValidData(Hex(log.data), 1) then None
      else Some(direction * Word(Hex(log.data), 0))
  }

  function TokenDelta(events: Events, token: string, owner: string): Log -> Option<int> {
    (log: Log) => LogDelta(events, log, token, owner)
  }

  function LogMoves(events: Events, log: Log, token: string): seq<Move> {
    if IsTransferOf(events, log, token) && HasParties(log) then
      [Move(Sender(log), Receiver(log), if ValidData(Hex(log.data), 1) then Word(Hex(log.data), 0) else 0)]
    else []
  }

  function TokenMoves(events: Events, logs: seq<Log>, token: string): seq<Move> {
    if logs == [] then []
    else TokenMoves(events, logs[..|logs| - 1], token) + LogMoves(events, logs[|logs| - 1], token)
  }

  lemma {:induction false} NetFlowOfConcat(a: seq<Move>, b: seq<Move>, owner: string)
    ensures NetFlow(a + b, owner) == NetFlow(a, owner) + NetFlow(b, owner)
    decreases |b|
  {
    if b == [] {
      assert a + b == a;
    } else {
      NetFlowOfConcat(a, b[..|b| - 1], owner);
      assert (a + b)[..|a + b| - 1] == a + b[..|b| - 1];
    }
  }

  lemma NetFlowOfOne(m: Move, owner: string)
    ensures NetFlow([m], owner) == Direction(m.from, m.to, owner) * m.amount
  {
    assert [m][..0] == [];
  }

  lemma LogDeltaIsItsMove(events: Events, log: Log, token: string, owner: string)
    requires LogDelta(events, log, token, owner).Some?
    ensures LogDelta(events, log, token, owner).value == NetFlow(LogMoves(events, log, token), owner)
  {
    var moves := LogMoves(events, log, token);
    if moves != [] {
      NetFlowOfOne(moves[0], owner);
    }
    hide ValidData, IsTransferOf, Last40, Hex, Word;
  }

  // The body of the loop over the logs: the change by one entry.
  method LogChange(events: Events, entry: Log, token: string, owner: string) returns (change: Option<int>)
    ensures change == LogDelta(events, entry, token, owner)
  {
    if !IsTransferOf(events, entry, token) { return Some(0); }
    if !HasParties(entry) { return None; }
    var direction := Direction(Sender(entry), Receiver(entry), owner);
    if direction == 0 { return Some(0); }
    var data := Hex(entry.data);
    if !ValidData(data, 1) { return None; }
    change := Some(direction * Word(data, 0));
  }

  lemma EachLog(events: Events, log: Log, token: string, owner: string)
    ensures TokenDelta(events, token, owner)(log) == LogDelta(events, log, token, owner)
  {
    hide LogDelta;
  }

  lemma TotalOfNext<T>(items: seq<T>, n: nat, delta: T -> Option<int>)
    requires n < |items|
    ensures Total(items[..n + 1], delta) == Plus(Total(items[..n], delta), delta(items[n]))
    ensures Total(items[..n + 1], delta).None? ==> Total(items, delta).None?
  {
    assert items[..n + 1][..n] == items[..n];
    if Total(items[..n + 1], delta).None? {
      TotalStops(items, n + 1, delta);
    }
  }

  method TokenFlow(events: Events, logs: seq<Log>, token: string, owner: string) returns (delta: Option<int>)
    ensures delta == Total(logs, TokenDelta(events, token, owner))
  {
    var sum := 0;
    var i := 0;
    ghost var each := TokenDelta(events, token, owner);
    while i < |logs|
      invariant 0 <= i <= |logs|
      invariant each == TokenDelta(events, token, owner)
      invariant Total(logs[..i], each).Some? && sum == Total(logs[..i], each).value
    {
      hide Total, TokenDelta, LogDelta;
      var change := LogChange(events, logs[i], token, owner);
      TotalOfNext(logs, i, each);
      EachLog(events, logs[i], token, owner);
      if change.None? { return None; }
      sum := sum + change.value;
      i := i + 1;
    }
    assert logs[..i] == logs;
    delta := Some(sum);
  }

  // ----- Internal TRX transfers -----

  datatype Amount = Absent | SafeInteger(number: int) | UnsafeNumber | AmountText(text: string)

  datatype CallValue = CallValue(isTrc10: bool, amount: Amount)

  datatype Call = Call(caller: string, to: string, rejected: bool, values: Option<seq<CallValue>>)

  function AmountOf(amount: Amount): Option<int> {
    match amount
    case Absent => Some(0)
    case SafeInteger(number) => if 0 <= number then Some(number) else None
    case UnsafeNumber => None
    case AmountText(text) =>
      if text != "" && NumberText.IsNumeral(text, 10) then Some(NumberText.Value(text, 10)) else None
  }

  function ValueOf(value: CallValue): (amount: Option<int>)
    ensures amount.Some? ==> 0 <= amount.value
  {
    if value.isTrc10 then Some(0) else AmountOf(value.amount)
  }

  function CallDirection(call: Call, owner: string): int {
    Direction(Last40(Hex(call.caller)), Last40(Hex(call.to)), owner)
  }

  function CallTotal(call: Call): Option<int> {
    if call.values.None? then None else Total(call.values.value, ValueOf)
  }

  function ValueDelta(call: Call, owner: string): Option<int> {
    if call.rejected || CallDirection(call, owner) == 0 then Some(0)
    else if CallTotal(call).None? then None
    else Some(CallDirection(call, owner) * CallTotal(call).value)
  }

  function CallDelta(owner: string): Call -> Option<int> {
    (call: Call) => ValueDelta(call, owner)
  }

  lemma {:induction false} CallTotalIsNatural(values: seq<CallValue>)
    ensures Total(values, ValueOf).Some? ==> 0 <= Total(values, ValueOf).value
  {
    if values != [] {
      CallTotalIsNatural(values[..|values| - 1]);
    }
  }

  function CallAmount(call: Call): nat {
    CallTotalIsNatural(if call.values.Some? then call.values.value else []);
    if CallTotal(call).Some? then CallTotal(call).value else 0
  }

  function CallMoves(call: Call): seq<Move> {
    if call.rejected then [] else [Move(Last40(Hex(call.caller)), Last40(Hex(call.to)), CallAmount(call))]
  }

  function NativeMoves(calls: seq<Call>): seq<Move> {
    if calls == [] then [] else NativeMoves(calls[..|calls| - 1]) + CallMoves(calls[|calls| - 1])
  }

  lemma ValueDeltaIsItsMove(call: Call, owner: string)
    requires ValueDelta(call, owner).Some?
    ensures ValueDelta(call, owner).value == NetFlow(CallMoves(call), owner)
  {
    var moves := CallMoves(call);
    if moves != [] {
      NetFlowOfOne(moves[0], owner);
    }
    hide Last40, Hex, CallTotal;
  }

  lemma EachCall(call: Call, owner: string)
    ensures CallDelta(owner)(call) == ValueDelta(call, owner)
  {
    hide ValueDelta;
  }

  method CallFlow(call: Call, owner: string, before: int) returns (delta: Option<int>)
    requires !call.rejected && CallDirection(call, owner) != 0
    ensures delta == Plus(Some(before), ValueDelta(call, owner))
  {
    if call.values.None? { return None; }
    delta := ValuesFlow(call.values.value, CallDirection(call, owner), before);
  }

  lemma Distributes(d: int, a: int, b: int)
    ensures d * (a + b) == d * a + d * b
    ensures (a + b) * d == a * d + b * d
  {
  }

  method ValuesFlow(values: seq<CallValue>, direction: int, before: int) returns (delta: Option<int>)
    ensures delta == if Total(values, ValueOf).None? then None
                     else Some(before + direction * Total(values, ValueOf).value)
  {
    var sum := before;
    var j := 0;
    while j < |values|
      invariant 0 <= j <= |values|
      invariant Total(values[..j], ValueOf).Some? && sum == before + direction * Total(values[..j], ValueOf).value
    {
      hide AmountOf, Total;
      var value := values[j];
      TotalOfNext(values, j, ValueOf);
      if !value.isTrc10 {
        var amount := AmountOf(value.amount);
        if amount.None? { return None; }
        Distributes(direction, Total(values[..j], ValueOf).value, amount.value);
        sum := sum + direction * amount.value;
      }
      j := j + 1;
    }
    assert values[..j] == values;
    delta := Some(sum);
  }

  method NativeFlow(calls: Option<seq<Call>>, owner: string, sent: nat) returns (delta: Option<int>)
    ensures delta == if calls.None? then None else Plus(Some(0 - sent), Total(calls.value, CallDelta(owner)))
  {
    hide CallDirection, CallTotal, CallDelta;
    if calls.None? { return None; }
    var list := calls.value;
    var sum: int := 0 - sent;
    var i := 0;
    ghost var each := CallDelta(owner);
    while i < |list|
      invariant 0 <= i <= |list|
      invariant each == CallDelta(owner)
      invariant Total(list[..i], each).Some? && sum == 0 - sent + Total(list[..i], each).value
    {
      hide Total;
      var call := list[i];
      TotalOfNext(list, i, each);
      EachCall(call, owner);
      if !call.rejected && CallDirection(call, owner) != 0 {
        var after := CallFlow(call, owner, sum);
        if after.None? { return None; }
        sum := after.value;
      }
      i := i + 1;
    }
    assert list[..i] == list;
    delta := Some(sum);
  }

  // ----- What the flows are -----

  lemma {:induction false} TokenFlowIsNetFlow(events: Events, logs: seq<Log>, token: string, owner: string)
    requires Total(logs, TokenDelta(events, token, owner)).Some?
    ensures Total(logs, TokenDelta(events, token, owner)).value == NetFlow(TokenMoves(events, logs, token), owner)
  {
    if logs != [] {
      hide LogDelta, LogMoves;
      var init, last := logs[..|logs| - 1], logs[|logs| - 1];
      TokenFlowIsNetFlow(events, init, token, owner);
      LogDeltaIsItsMove(events, last, token, owner);
      NetFlowOfConcat(TokenMoves(events, init, token), LogMoves(events, last, token), owner);
    }
  }

  lemma {:induction false} NativeFlowIsNetFlow(calls: seq<Call>, owner: string)
    requires Total(calls, CallDelta(owner)).Some?
    ensures Total(calls, CallDelta(owner)).value == NetFlow(NativeMoves(calls), owner)
  {
    if calls != [] {
      hide ValueDelta, CallMoves;
      var init, last := calls[..|calls| - 1], calls[|calls| - 1];
      NativeFlowIsNetFlow(init, owner);
      ValueDeltaIsItsMove(last, owner);
      NetFlowOfConcat(NativeMoves(init), CallMoves(last), owner);
    }
  }

  /** The balance change of an account is all it received minus all it sent, in any order of the logs. */
  lemma TokenFlowIsReceivedMinusSent(
    events: Events, logs: seq<Log>, reordered: seq<Log>, token: string, owner: string)
    requires multiset(logs) == multiset(reordered)
    ensures var flow := Total(logs, TokenDelta(events, token, owner));
            var moves := TokenMoves(events, logs, token);
            && (flow.Some? ==> flow.value == Received(moves, owner) - Sent(moves, owner))
            && Total(reordered, TokenDelta(events, token, owner)) == flow
  {
    TotalOfPermutation(logs, reordered, TokenDelta(events, token, owner));
    if Total(logs, TokenDelta(events, token, owner)).Some? {
      TokenFlowIsNetFlow(events, logs, token, owner);
      NetFlowIsReceivedMinusSent(TokenMoves(events, logs, token), owner);
    }
  }

  /** The same for internal TRX transfers; rejected ones and TRC10 values do not count. */
  lemma NativeFlowIsReceivedMinusSent(calls: seq<Call>, reordered: seq<Call>, owner: string)
    requires multiset(calls) == multiset(reordered)
    ensures var flow := Total(calls, CallDelta(owner));
            var moves := NativeMoves(calls);
            && (flow.Some? ==> flow.value == Received(moves, owner) - Sent(moves, owner))
            && Total(reordered, CallDelta(owner)) == flow
  {
    TotalOfPermutation(calls, reordered, CallDelta(owner));
    if Total(calls, CallDelta(owner)).Some? {
      NativeFlowIsNetFlow(calls, owner);
      NetFlowIsReceivedMinusSent(NativeMoves(calls), owner);
    }
  }

  // The flow of an account is unknown exactly when a log that may concern it cannot be read.
  predicate Readable(events: Events, log: Log, token: string, owner: string) {
    IsTransferOf(events, log, token) ==>
      && HasParties(log)
      && (Direction(Sender(log), Receiver(log), owner) != 0 ==> ValidData(Hex(log.data), 1))
  }

  lemma KnownSum(a: Option<int>, b: Option<int>)
    ensures Plus(a, b).Some? <==> a.Some? && b.Some?
  {
  }

  lemma LogDeltaIsKnownIff(events: Events, log: Log, token: string, owner: string)
    ensures LogDelta(events, log, token, owner).Some? <==> Readable(events, log, token, owner)
  {
    hide ValidData, IsTransferOf, Last40, Hex, Direction;
  }

  lemma {:induction false} TokenFlowIsKnownIff(events: Events, logs: seq<Log>, token: string, owner: string)
    ensures Total(logs, TokenDelta(events, token, owner)).Some?
            <==> forall i :: 0 <= i < |logs| ==> Readable(events, logs[i], token, owner)
  {
    hide Readable, LogDelta, Plus;
    if logs != [] {
      var n := |logs| - 1;
      KnownSum(Total(logs[..n], TokenDelta(events, token, owner)), TokenDelta(events, token, owner)(logs[n]));
      EachLog(events, logs[n], token, owner);
      TokenFlowIsKnownIff(events, logs[..n], token, owner);
      LogDeltaIsKnownIff(events, logs[n], token, owner);
      assert forall i :: 0 <= i < n ==> logs[..n][i] == logs[i];
    }
  }

  // Known when the flow of every account is.
  function SumOfTokenFlows(events: Events, logs: seq<Log>, token: string, accounts: seq<string>): Option<int> {
    if accounts == [] then Some(0)
    else
      Plus(Total(logs, TokenDelta(events, token, accounts[0])), SumOfTokenFlows(events, logs, token, accounts[1..]))
  }

  function SumOfNativeFlows(calls: seq<Call>, accounts: seq<string>): Option<int> {
    if accounts == [] then Some(0)
    else Plus(Total(calls, CallDelta(accounts[0])), SumOfNativeFlows(calls, accounts[1..]))
  }

  lemma {:induction false} SumOfTokenTotals(events: Events, logs: seq<Log>, token: string, accounts: seq<string>)
    requires SumOfTokenFlows(events, logs, token, accounts).Some?
    ensures SumOfTokenFlows(events, logs, token, accounts)
            == Some(SumOfNetFlows(TokenMoves(events, logs, token), accounts))
  {
    if accounts != [] {
      hide TokenMoves, Total, TokenDelta, NetFlow;
      SumOfTokenTotals(events, logs, token, accounts[1..]);
      TokenFlowIsNetFlow(events, logs, token, accounts[0]);
    }
  }

  /** Nothing is lost: the changes of all senders and receivers sum to zero. */
  lemma TokenFlowsSumToZero(events: Events, logs: seq<Log>, token: string, accounts: seq<string>)
    requires Distinct(accounts)
    requires forall m :: m in TokenMoves(events, logs, token) ==> m.from in accounts && m.to in accounts
    requires SumOfTokenFlows(events, logs, token, accounts).Some?
    ensures SumOfTokenFlows(events, logs, token, accounts) == Some(0)
  {
    SumOfTokenTotals(events, logs, token, accounts);
    NetFlowsCancel(TokenMoves(events, logs, token), accounts);
  }

  lemma {:induction false} SumOfNativeTotals(calls: seq<Call>, accounts: seq<string>)
    requires SumOfNativeFlows(calls, accounts).Some?
    ensures SumOfNativeFlows(calls, accounts) == Some(SumOfNetFlows(NativeMoves(calls), accounts))
  {
    if accounts != [] {
      hide NativeMoves, Total, CallDelta, NetFlow;
      SumOfNativeTotals(calls, accounts[1..]);
      NativeFlowIsNetFlow(calls, accounts[0]);
    }
  }

  lemma NativeFlowsSumToZero(calls: seq<Call>, accounts: seq<string>)
    requires Distinct(accounts)
    requires forall m :: m in NativeMoves(calls) ==> m.from in accounts && m.to in accounts
    requires SumOfNativeFlows(calls, accounts).Some?
    ensures SumOfNativeFlows(calls, accounts) == Some(0)
  {
    SumOfNativeTotals(calls, accounts);
    NetFlowsCancel(NativeMoves(calls), accounts);
  }

  // ----- The receipt -----

  datatype Currency = NativeTrx | Contract(token: string)

  // Addresses are the lower-case hex of their 20-byte hashes; `nativeSent` is 0 when it is absent.
  datatype Query = Query(
    poolId: string, tokenId: Option<string>, account: string, token0: Currency, token1: Currency, nativeSent: nat)

  datatype Receipt = Receipt(success: bool, logs: Option<seq<Log>>, calls: Option<seq<Call>>)

  datatype LiquidityResult = LiquidityResult(
    tokenId: nat, liquidityDelta: int, principal0: int, principal1: int, fee0: int, fee1: int,
    balanceDelta0: int, balanceDelta1: int)

  predicate IsPosition(events: Events, log: Log, manager: string, tokenId: Option<string>) {
    && Last40(Hex(log.address)) == manager
    && |log.topics| == 2
    && Hex(log.topics[0]) == events.positionModify
    && ValidData(Hex(log.topics[1]), 1)
    && (tokenId.None? || NumberText.Print(Word(Hex(log.topics[1]), 0), 10) == tokenId.value)
  }

  predicate IsPoolChange(
    events: Events, log: Log, pool: string, manager: string, poolId: string, tokenId: nat, liquidityDelta: int)
  {
    var data := Hex(log.data);
    && Last40(Hex(log.address)) == pool
    && |log.topics| == 3
    && Hex(log.topics[0]) == events.poolModify
    && Hex(log.topics[1]) == Hex(poolId)
    && ValidData(Hex(log.topics[2]), 1) && Last40(Hex(log.topics[2])) == manager
    && ValidData(data, 5)
    && Word(data, 3) == tokenId
    && Signed(Word(data, 2), TWO_256) == liquidityDelta
  }

  function Positions(events: Events, logs: seq<Log>, manager: string, tokenId: Option<string>): (found: seq<Log>)
    ensures forall log :: log in found ==> IsPosition(events, log, manager, tokenId)
  {
    if logs == [] then []
    else
      (if IsPosition(events, logs[0], manager, tokenId) then [logs[0]] else [])
      + Positions(events, logs[1..], manager, tokenId)
  }

  function PoolChanges(
    events: Events, logs: seq<Log>, pool: string, manager: string, poolId: string, tokenId: nat, liquidityDelta: int)
    : (found: seq<Log>)
    ensures forall log :: log in found ==> IsPoolChange(events, log, pool, manager, poolId, tokenId, liquidityDelta)
  {
    if logs == [] then []
    else
      (if IsPoolChange(events, logs[0], pool, manager, poolId, tokenId, liquidityDelta) then [logs[0]] else [])
      + PoolChanges(events, logs[1..], pool, manager, poolId, tokenId, liquidityDelta)
  }

  function FlowOf(events: Events, receipt: Receipt, query: Query, currency: Currency): Option<int>
    requires receipt.logs.Some?
  {
    match currency
    case NativeTrx =>
      if receipt.calls.None? then None
      else Plus(Some(0 - query.nativeSent), Total(receipt.calls.value, CallDelta(query.account)))
    case Contract(token) => Total(receipt.logs.value, TokenDelta(events, token, query.account))
  }

  method Flow(events: Events, receipt: Receipt, query: Query, currency: Currency) returns (delta: Option<int>)
    requires receipt.logs.Some?
    ensures delta == FlowOf(events, receipt, query, currency)
  {
    match currency
    case NativeTrx => delta := NativeFlow(receipt.calls, query.account, query.nativeSent);
    case Contract(token) => delta := TokenFlow(events, receipt.logs.value, token, query.account);
  }

  // The event part of the result; the balance deltas are added to it.
  datatype Change = Change(tokenId: nat, liquidityDelta: int, principal: (int, int), fee: (int, int))

  function ChangeOf(events: Events, logs: seq<Log>, query: Query, manager: string, pool: string): Option<Change> {
    var positions := Positions(events, logs, manager, query.tokenId);
    if |positions| != 1 then None
    else
      assert positions[0] in positions;
      var tokenId := Word(Hex(positions[0].topics[1]), 0);
      var data := Hex(positions[0].data);
      if !ValidData(data, 2) then None
      else
        var liquidityDelta := Signed(Word(data, 0), TWO_256);
        var fee := Pair(Word(data, 1));
        var changes := PoolChanges(events, logs, pool, manager, query.poolId, tokenId, liquidityDelta);
        if |changes| != 1 || fee.0 < 0 || fee.1 < 0 then None
        else
          assert changes[0] in changes;
          Some(Change(tokenId, liquidityDelta, Pair(Word(Hex(changes[0].data), 4)), fee))
  }

  method Decode(events: Events, receipt: Receipt, query: Query, manager: string, pool: string)
    returns (result: Option<LiquidityResult>)
    ensures result.Some? <==>
            && receipt.success && receipt.logs.Some?
            && ChangeOf(events, receipt.logs.value, query, manager, pool).Some?
            && FlowOf(events, receipt, query, query.token0).Some?
            && FlowOf(events, receipt, query, query.token1).Some?
    ensures result.Some? ==>
              var change := ChangeOf(events, receipt.logs.value, query, manager, pool).value;
              result.value == LiquidityResult(
                change.tokenId, change.liquidityDelta, change.principal.0, change.principal.1,
                change.fee.0, change.fee.1,
                FlowOf(events, receipt, query, query.token0).value,
                FlowOf(events, receipt, query, query.token1).value)
  {
    hide ChangeOf, FlowOf;
    if !receipt.success || receipt.logs.None? { return None; }
    var change := ChangeOf(events, receipt.logs.value, query, manager, pool);
    if change.None? { return None; }
    var delta0 := Flow(events, receipt, query, query.token0);
    var delta1 := Flow(events, receipt, query, query.token1);
    if delta0.None? || delta1.None? { return None; }
    var c := change.value;
    result := Some(LiquidityResult(c.tokenId, c.liquidityDelta, c.principal.0, c.principal.1,
                                   c.fee.0, c.fee.1, delta0.value, delta1.value));
  }

  // ----- The events as the contracts emit them -----

  function Data(words: seq<Uint256>): string {
    if words == [] then "" else WordText(words[0]) + Data(words[1..])
  }

  lemma WordsFollow(head: string, tail: string, words: nat, k: nat)
    requires ValidData(head, 1) && ValidData(tail, words) && k < words
    ensures ValidData(head + tail, words + 1)
    ensures Word(head + tail, 0) == Word(head, 0) && Word(head + tail, k + 1) == Word(tail, k)
  {
    assert (head + tail)[64 * 0..64 * 0 + 64] == head[64 * 0..64 * 0 + 64];
    assert (head + tail)[64 * (k + 1)..64 * (k + 1) + 64] == tail[64 * k..64 * k + 64];
  }

  lemma {:induction false} DataReadsBack(words: seq<Uint256>, k: nat)
    requires k < |words|
    ensures ValidData(Data(words), |words|) && Word(Data(words), k) == words[k]
  {
    hide WordText, ValidData, Word;
    WordReadsBack(words[0]);
    if |words| == 1 {
      assert words[1..] == [] && Data(words) == WordText(words[0]) + "";
      assert WordText(words[0]) + "" == WordText(words[0]);
    } else {
      var rest := words[1..];
      DataReadsBack(rest, if k == 0 then 0 else k - 1);
      WordsFollow(WordText(words[0]), Data(rest), |rest|, if k == 0 then 0 else k - 1);
    }
  }

  lemma HexOfData(data: string, words: nat)
    requires ValidData(data, words) && 0 < words
    ensures Hex(data) == data
  {
    assert NumberText.IsDigit(data[1], 16);
    assert !Text.StartsWith(data, "0x");
    forall i | 0 <= i < |data|
      ensures Text.LowerChar(data[i]) == data[i]
    {
      assert NumberText.IsDigit(data[i], 16);
    }
  }

  datatype Emitted = Emitted(
    tokenId: nat, liquidityDelta: int, principal0: int, principal1: int, fee0: int, fee1: int,
    tickLower: nat, tickUpper: nat)

  predicate InRange(e: Emitted) {
    && e.tokenId < TWO_256 && e.tickLower < TWO_256 && e.tickUpper < TWO_256
    && Fits(e.liquidityDelta, TWO_256)
    && Fits(e.principal0, TWO_128) && Fits(e.principal1, TWO_128)
    && Fits(e.fee0, TWO_128) && Fits(e.fee1, TWO_128)
  }

  function PositionWords(e: Emitted): (words: seq<Uint256>)
    requires InRange(e)
    ensures |words| == 2
  {
    SignedReadsBack(e.liquidityDelta, TWO_256);
    PairReadsBack(e.fee0, e.fee1, 0);
    [Unsigned(e.liquidityDelta, TWO_256), Packed(e.fee0, e.fee1)]
  }

  function PoolWords(e: Emitted): (words: seq<Uint256>)
    requires InRange(e)
    ensures |words| == 5
  {
    SignedReadsBack(e.liquidityDelta, TWO_256);
    PairReadsBack(e.principal0, e.principal1, 0);
    [e.tickLower, e.tickUpper, Unsigned(e.liquidityDelta, TWO_256), e.tokenId, Packed(e.principal0, e.principal1)]
  }

  // The ModifyLiquidity log of the position manager and that of the pool manager for one change.
  predicate IsPositionLogOf(events: Events, log: Log, e: Emitted, manager: string)
    requires InRange(e)
  {
    && Last40(Hex(log.address)) == manager
    && log.topics == [events.positionModify, WordText(e.tokenId)]
    && log.data == Data(PositionWords(e))
  }

  predicate IsPoolLogOf(events: Events, log: Log, e: Emitted, pool: string, poolId: string, managerWord: string)
    requires InRange(e)
  {
    && Last40(Hex(log.address)) == pool
    && log.topics == [events.poolModify, poolId, managerWord]
    && log.data == Data(PoolWords(e))
  }

  lemma PositionLogReadsBack(events: Events, log: Log, e: Emitted, manager: string, tokenId: Option<string>)
    requires InRange(e) && IsPositionLogOf(events, log, e, manager)
    requires Hex(events.positionModify) == events.positionModify
    requires tokenId.None? || tokenId.value == NumberText.Print(e.tokenId, 10)
    ensures IsPosition(events, log, manager, tokenId) && Word(Hex(log.topics[1]), 0) == e.tokenId
    ensures ValidData(Hex(log.data), 2)
    ensures Signed(Word(Hex(log.data), 0), TWO_256) == e.liquidityDelta
    ensures Pair(Word(Hex(log.data), 1)) == (e.fee0, e.fee1)
  {
    hide ValidData, Word, WordText, Data, Pair, Packed, Signed, Unsigned, Hex, Last40;
    WordReadsBack(e.tokenId);
    HexOfData(WordText(e.tokenId), 1);
    DataReadsBack(PositionWords(e), 0);
    DataReadsBack(PositionWords(e), 1);
    HexOfData(log.data, 2);
    SignedReadsBack(e.liquidityDelta, TWO_256);
    PairReadsBack(e.fee0, e.fee1, 0);
  }

  lemma PoolLogReadsBack(
    events: Events, log: Log, e: Emitted, pool: string, manager: string, poolId: string, managerWord: string)
    requires InRange(e) && IsPoolLogOf(events, log, e, pool, poolId, managerWord)
    requires Hex(events.poolModify) == events.poolModify
    requires ValidData(managerWord, 1) && Last40(managerWord) == manager
    ensures IsPoolChange(events, log, pool, manager, poolId, e.tokenId, e.liquidityDelta)
    ensures Pair(Word(Hex(log.data), 4)) == (e.principal0, e.principal1)
  {
    hide ValidData, Word, WordText, Data, Pair, Packed, Signed, Unsigned, Hex, Last40;
    HexOfData(managerWord, 1);
    DataReadsBack(PoolWords(e), 2);
    DataReadsBack(PoolWords(e), 3);
    DataReadsBack(PoolWords(e), 4);
    HexOfData(log.data, 5);
    SignedReadsBack(e.liquidityDelta, TWO_256);
    PairReadsBack(e.principal0, e.principal1, 0);
  }

  lemma {:induction false} OnlyPosition(
    events: Events, logs: seq<Log>, manager: string, tokenId: Option<string>, i: nat)
    requires i < |logs| && IsPosition(events, logs[i], manager, tokenId)
    requires forall k :: 0 <= k < |logs| && k != i ==> !IsPosition(events, logs[k], manager, tokenId)
    ensures Positions(events, logs, manager, tokenId) == [logs[i]]
  {
    hide IsPosition;
    if i == 0 {
      NoPosition(events, logs[1..], manager, tokenId);
    } else {
      OnlyPosition(events, logs[1..], manager, tokenId, i - 1);
    }
  }

  lemma {:induction false} NoPosition(events: Events, logs: seq<Log>, manager: string, tokenId: Option<string>)
    requires forall k :: 0 <= k < |logs| ==> !IsPosition(events, logs[k], manager, tokenId)
    ensures Positions(events, logs, manager, tokenId) == []
  {
    hide IsPosition;
    if logs != [] {
      NoPosition(events, logs[1..], manager, tokenId);
    }
  }

  lemma {:induction false} OnlyPoolChange(
    events: Events, logs: seq<Log>, pool: string, manager: string, poolId: string, tokenId: nat, delta: int, i: nat)
    requires i < |logs| && IsPoolChange(events, logs[i], pool, manager, poolId, tokenId, delta)
    requires forall k :: 0 <= k < |logs| && k != i ==>
               !IsPoolChange(events, logs[k], pool, manager, poolId, tokenId, delta)
    ensures PoolChanges(events, logs, pool, manager, poolId, tokenId, delta) == [logs[i]]
  {
    hide IsPoolChange;
    if i == 0 {
      NoPoolChange(events, logs[1..], pool, manager, poolId, tokenId, delta);
    } else {
      OnlyPoolChange(events, logs[1..], pool, manager, poolId, tokenId, delta, i - 1);
    }
  }

  lemma {:induction false} NoPoolChange(
    events: Events, logs: seq<Log>, pool: string, manager: string, poolId: string, tokenId: nat, delta: int)
    requires forall k :: 0 <= k < |logs| ==> !IsPoolChange(events, logs[k], pool, manager, poolId, tokenId, delta)
    ensures PoolChanges(events, logs, pool, manager, poolId, tokenId, delta) == []
  {
    hide IsPoolChange;
    if logs != [] {
      NoPoolChange(events, logs[1..], pool, manager, poolId, tokenId, delta);
    }
  }

  /**
   * Decoding inverts emission: when one position event and its pool event stand among unrelated logs, at
   * any two places, every emitted number is read back; the change is refused only for a negative fee.
   */
  lemma EmittedChangeIsDecoded(
    events: Events, logs: seq<Log>, query: Query, manager: string, pool: string, managerWord: string,
    e: Emitted, i: nat, j: nat)
    requires InRange(e) && i < |logs| && j < |logs|
    requires Hex(events.positionModify) == events.positionModify && Hex(events.poolModify) == events.poolModify
    requires ValidData(managerWord, 1) && Last40(managerWord) == manager
    requires query.tokenId.None? || query.tokenId.value == NumberText.Print(e.tokenId, 10)
    requires IsPositionLogOf(events, logs[i], e, manager)
    requires IsPoolLogOf(events, logs[j], e, pool, query.poolId, managerWord)
    requires forall k :: 0 <= k < |logs| && k != i ==> !IsPosition(events, logs[k], manager, query.tokenId)
    requires forall k :: 0 <= k < |logs| && k != j ==>
               !IsPoolChange(events, logs[k], pool, manager, query.poolId, e.tokenId, e.liquidityDelta)
    ensures ChangeOf(events, logs, query, manager, pool) ==
            if e.fee0 < 0 || e.fee1 < 0 then None
            else Some(Change(e.tokenId, e.liquidityDelta, (e.principal0, e.principal1), (e.fee0, e.fee1)))
  {
    PositionLogReadsBack(events, logs[i], e, manager, query.tokenId);
    PoolLogReadsBack(events, logs[j], e, pool, manager, query.poolId, managerWord);
    hide IsPosition, IsPoolChange, IsPositionLogOf, IsPoolLogOf, ValidData, Word, Hex, Last40, Signed, Pair, InRange;
    OnlyPosition(events, logs, manager, query.tokenId, i);
    OnlyPoolChange(events, logs, pool, manager, query.poolId, e.tokenId, e.liquidityDelta, j);
    hide Positions, PoolChanges;
  }
}
