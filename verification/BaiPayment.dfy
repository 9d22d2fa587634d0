/**
 * What the wallet itself puts behind the ports of a recharge: the x402 settlement that counts as a payment,
 * the timer that waits for indexing, and the API client that checks what it sends. With these no recharge
 * loses its payment: every outcome after the order names the order or carries the paid hash.
 */
module BaiPayment {
  import opened Wrappers
  import opened NumberText
  import opened BaiRechargeFlow
  import Addresses
  import CommandDeadlines
  import Text
  import X402NetworkId

  // ----- The settlement -----

  // A member of a response that may be missing or of another type.
  datatype Field = Missing | OfText(text: string) | OfOtherType

  // success and settled are true when the response says exactly true.
  datatype Settlement = Settlement(success: bool, network: Field, transaction: Field, payer: Field)

  datatype X402Payment = X402Payment(settled: bool, payer: Field, settlement: Option<Settlement>)

  // sameAddress: whether two texts are one account of the family.
  type SameAddress = (Addresses.Family, string, string) -> bool

  const HASH_DIGITS: nat := 64

  predicate IsTxHash(family: Addresses.Family, s: string) {
    match family
    case Tron => |s| == HASH_DIGITS && IsNumeral(s, 16)
    case Evm => Text.StartsWith(s, "0x") && |s| == HASH_DIGITS + 2 && IsNumeral(s[2..], 16)
  }

  const UNCONFIRMED_SETTLEMENT := Classified(
    OtherKind, "invalid_x402_response",
    NO_DETAILS.(paymentStatus := Some("unknown"), outcomeUnknown := true, forbidsRetry := true))

  // baiPaymentResult, with the requested chain.
  function PaymentResult(same: SameAddress, payment: X402Payment, network: string, chain: string)
    : Result<Paid, Fault>
  {
    if payment.settlement.None? then Err(UNCONFIRMED_SETTLEMENT)
    else
      var settlement := payment.settlement.value;
      var id := X402NetworkId.FromX402Network(network);
      if !payment.settled || !settlement.success then Err(UNCONFIRMED_SETTLEMENT)
      else if !settlement.network.OfText? || !X402NetworkId.SameX402Network(settlement.network.text, network) then
        Err(UNCONFIRMED_SETTLEMENT)
      else if !settlement.transaction.OfText? || id.Err? || !IsTxHash(id.value.family, settlement.transaction.text) then
        Err(UNCONFIRMED_SETTLEMENT)
      else if !payment.payer.OfText? || payment.payer.text == "" then Err(UNCONFIRMED_SETTLEMENT)
      else if !settlement.payer.Missing?
              && (!settlement.payer.OfText? || !same(id.value.family, settlement.payer.text, payment.payer.text)) then
        Err(UNCONFIRMED_SETTLEMENT)
      else Ok(Paid(Some(settlement.transaction.text), chain, payment.payer.text))
  }

  function PaymentAnswer(same: SameAddress, roundtrip: Result<X402Payment, Fault>, network: string, chain: string)
    : Result<Paid, Fault>
  {
    match roundtrip
    case Err(fault) => Err(fault)
    case Ok(payment) => PaymentResult(same, payment, network, chain)
  }

  // ----- The wait -----

  // The timer rejects only when the signal aborts; endedByDeadline asks the deadline.
  function TimerWait(deadline: CommandDeadlines.Deadline, now: int): Waiting {
    if !deadline.aborted then Elapsed
    else if CommandDeadlines.Expired(deadline, now) then EndedByDeadline
    else Failed(Foreign)
  }

  // ----- The API client -----

  // representable: the amounts the numeric API can carry.
  datatype Client = Client(hasKey: bool, secure: bool, representable: string -> bool)

  // What becomes of a request that was sent: an answer, a failure of the exchange, or the deadline.
  datatype Exchange<T> = Answered(value: T) | Broke(code: string, details: Details) | TimedOut

  function Sent<T>(exchange: Exchange<T>): Result<T, Fault> {
    match exchange
    case Answered(value) => Ok(value)
    case Broke(code, details) => Err(Classified(OtherKind, code, details))
    case TimedOut => Err(DEADLINE_FAULT)
  }

  const REFUSED := Classified(UsageKind, "invalid_value", NO_DETAILS)

  predicate IsTarget(target: Option<Target>) {
    target.Some? ==> !IsBlank(target.value.identifier) && !IsBlank(target.value.targetId)
  }

  predicate AcceptsOrder(client: Client, request: Request) {
    && client.hasKey && client.secure && IsTarget(request.target)
    && !IsBlank(request.chain) && client.representable(request.amount) && !IsBlank(request.walletAddress)
  }

  predicate AcceptsReport(client: Client, input: ReportInput) {
    && client.hasKey && client.secure && IsTarget(input.target)
    && !IsBlank(input.chain) && client.representable(input.amount) && !IsBlank(input.txHash)
  }

  function OrderAnswer(client: Client, request: Request, exchange: Exchange<Option<string>>)
    : Result<Option<string>, Fault>
  {
    if AcceptsOrder(client, request) then Sent(exchange) else Err(REFUSED)
  }

  function ReportAnswer(client: Client, input: ReportInput, exchange: Exchange<Reply>): Result<Reply, Fault> {
    if AcceptsReport(client, input) then Sent(exchange) else Err(REFUSED)
  }

  // ----- The recharge of the wallet -----

  // What the outside answers; the deadline is as the wait finds it.
  datatype Outside = Outside(
    orderAdmitted: bool, order: Exchange<Option<string>>, roundtrip: Result<X402Payment, Fault>,
    deadline: CommandDeadlines.Deadline, now: int, expired: bool, reportAdmitted: bool, report: Exchange<Reply>)

  // The flow's answers, as the wallet's own payer, timer and client give them.
  function Wired(client: Client, same: SameAddress, network: string, request: Request, outside: Outside): World {
    var payment := PaymentAnswer(same, outside.roundtrip, network, request.chain);
    var report :=
      if payment.Ok? && HasHash(payment.value) then
        ReportAnswer(client, ReportInputOf(request, payment.value), outside.report)
      else Err(REFUSED);
    World(outside.orderAdmitted, OrderAnswer(client, request, outside.order), payment,
          TimerWait(outside.deadline, outside.now), outside.expired, outside.reportAdmitted, report)
  }

  lemma HashIsNotBlank(family: Addresses.Family, s: string)
    requires IsTxHash(family, s)
    ensures !IsBlank(s)
  {
    assert IsDigit(s[|s| - 1], 16) by {
      if family == Addresses.Evm {
        assert s[|s| - 1] == s[2..][HASH_DIGITS - 1];
      }
    }
    Text.TrimKeepsLast(s);
  }

  /** A payment counts only with a transaction hash of the network's family, and its payer. */
  lemma PaymentIsAHash(same: SameAddress, payment: X402Payment, network: string, chain: string)
    requires PaymentResult(same, payment, network, chain).Ok?
    ensures var paid, id := PaymentResult(same, payment, network, chain).value, X402NetworkId.FromX402Network(network);
            && id.Ok? && HasHash(paid) && IsTxHash(id.value.family, paid.txHash.value)
            && paid.chain == chain && payment.payer == OfText(paid.payer)
  {
    hide IsTxHash, X402NetworkId.FromX402Network, IsBlank;
    HashIsNotBlank(X402NetworkId.FromX402Network(network).value.family, payment.settlement.value.transaction.text);
  }

  // 32 bytes of hex as the family writes a transaction id.
  ghost predicate IsHashOf(family: Addresses.Family, s: string) {
    exists digits ::
      && |digits| == 64 && IsNumeral(digits, 16)
      && s == if family == Addresses.Tron then digits else "0x" + digits
  }

  lemma HashIs(family: Addresses.Family, s: string)
    ensures IsTxHash(family, s) <==> IsHashOf(family, s)
  {
    hide IsNumeral;
    if IsTxHash(family, s) {
      var digits := if family == Addresses.Tron then s else s[2..];
      assert s == if family == Addresses.Tron then digits else "0x" + digits;
    }
    if IsHashOf(family, s) {
      var digits :| |digits| == 64 && IsNumeral(digits, 16)
                    && s == if family == Addresses.Tron then digits else "0x" + digits;
      assert ("0x" + digits)[2..] == digits;
    }
  }

  /**
   * A settlement is a payment exactly when it is settled and successful, on the requested network, with a
   * transaction id of its family and a payer, who is the payer of the settlement if that names one. Any other
   * leaves the payment unknown and forbids the retry.
   */
  lemma PaymentIsAcceptedIff(same: SameAddress, payment: X402Payment, network: string, chain: string, paid: Paid)
    ensures PaymentResult(same, payment, network, chain) == Ok(paid) <==>
            && payment.settled && payment.settlement.Some? && payment.settlement.value.success
            && var s, id := payment.settlement.value, X402NetworkId.FromX402Network(network);
               && s.network.OfText? && X402NetworkId.SameX402Network(s.network.text, network)
               && s.transaction.OfText? && id.Ok? && IsHashOf(id.value.family, s.transaction.text)
               && payment.payer.OfText? && payment.payer.text != ""
               && (s.payer.Missing? || (s.payer.OfText? && same(id.value.family, s.payer.text, payment.payer.text)))
               && paid == Paid(Some(s.transaction.text), chain, payment.payer.text)
    ensures PaymentResult(same, payment, network, chain).Err? ==>
              var fault := PaymentResult(same, payment, network, chain).error;
              && fault.Classified? && fault.kind == OtherKind && fault.code == "invalid_x402_response"
              && fault.details.paymentStatus == Some("unknown") && fault.details.outcomeUnknown
              && fault.details.forbidsRetry
  {
    hide IsTxHash, IsHashOf, X402NetworkId.FromX402Network, X402NetworkId.SameX402Network;
    if payment.settlement.Some? && payment.settlement.value.transaction.OfText?
       && X402NetworkId.FromX402Network(network).Ok? {
      HashIs(X402NetworkId.FromX402Network(network).value.family, payment.settlement.value.transaction.text);
    }
  }

  // A recipient, if there is one, with an identifier and an id.
  predicate IsWritable(target: Option<Target>) {
    target.Some? ==> Text.Trim(target.value.identifier) != "" && Text.Trim(target.value.targetId) != ""
  }

  /** A request is sent exactly with a key, to a secure origin and with all its fields; then its answer stands. */
  lemma RequestIsSentIff(
    client: Client, request: Request, input: ReportInput, order: Exchange<Option<string>>, report: Exchange<Reply>)
    ensures OrderAnswer(client, request, order) ==
            if client.hasKey && client.secure && IsWritable(request.target) && Text.Trim(request.chain) != ""
               && Text.Trim(request.walletAddress) != "" && client.representable(request.amount)
            then Sent(order) else Err(REFUSED)
    ensures ReportAnswer(client, input, report) ==
            if client.hasKey && client.secure && IsWritable(input.target) && Text.Trim(input.chain) != ""
               && Text.Trim(input.txHash) != "" && client.representable(input.amount)
            then Sent(report) else Err(REFUSED)
    ensures Sent(report) == match report
                            case Answered(value) => Ok(value)
                            case Broke(code, details) => Err(Classified(OtherKind, code, details))
                            case TimedOut => Err(Classified(DeadlineKind, "timeout", NO_DETAILS))
  {
    hide Text.Trim;
  }

  // What passed the checks of the order passes those of the report.
  lemma ReportIsNotRefused(client: Client, request: Request, paid: Paid, exchange: Exchange<Reply>)
    requires AcceptsOrder(client, request) && HasHash(paid)
    ensures !IsUsageFault(ReportAnswer(client, ReportInputOf(request, paid), exchange))
  {
    hide IsBlank;
  }

  // The deadline is one the command could have: some trace of events leads to it.
  ghost predicate IsCommandDeadline(d: CommandDeadlines.Deadline) {
    exists limit, startedAt, created, events: seq<CommandDeadlines.Event> ::
      && CommandDeadlines.IsTrace(CommandDeadlines.CreateStep(limit, startedAt, created), created, events)
      && d == CommandDeadlines.Run(CommandDeadlines.CreateStep(limit, startedAt, created), created, events)
  }

  lemma TimerWaitNeverFails(d: CommandDeadlines.Deadline, now: int)
    requires IsCommandDeadline(d)
    ensures TimerWait(d, now) == if d.aborted then EndedByDeadline else Elapsed
  {
    var limit, startedAt, created, events: seq<CommandDeadlines.Event> :|
      && CommandDeadlines.IsTrace(CommandDeadlines.CreateStep(limit, startedAt, created), created, events)
      && d == CommandDeadlines.Run(CommandDeadlines.CreateStep(limit, startedAt, created), created, events);
    CommandDeadlines.AbortedIsExpired(limit, startedAt, created, events, now);
  }

  lemma NothingEscapesLate(
    client: Client, same: SameAddress, network: string, request: Request, delayed: bool, outside: Outside)
    requires IsCommandDeadline(outside.deadline) && AcceptsOrder(client, request)
    requires PaymentAnswer(same, outside.roundtrip, network, request.chain).Ok?
    ensures var world := Wired(client, same, network, request, outside);
            HasHash(world.payment.value) && LateFault(request, world.payment.value, delayed, world).None?
  {
    hide PaymentResult, IsCommandDeadline, IsTxHash, X402NetworkId.FromX402Network, TimerWait, ReportAnswer, HasHash,
         AcceptsOrder;
    PaymentIsAHash(same, outside.roundtrip.value, network, request.chain);
    TimerWaitNeverFails(outside.deadline, outside.now);
    var paid := PaymentAnswer(same, outside.roundtrip, network, request.chain).value;
    ReportIsNotRefused(client, request, paid, outside.report);
  }

  /**
   * Once the order exists, every recharge of the wallet forbids the retry of the payment. When the payment
   * failed, the error names the order; when it succeeded, the outcome is a result and carries the hash,
   * whatever becomes of the wait and the report.
   */
  lemma NoPaymentIsForgotten(
    client: Client, same: SameAddress, network: string, request: Request, delayed: bool, outside: Outside)
    requires IsCommandDeadline(outside.deadline)
    requires !IsUnresolved(request) && Wired(client, same, network, request, outside).orderAdmitted
    requires Wired(client, same, network, request, outside).order.Ok?
    ensures var world := Wired(client, same, network, request, outside);
            var outcome := Run(request, delayed, world).1;
            && ForbidsRetry(outcome)
            && match world.payment
               case Err(_) => outcome.Throws? && (world.order.value.Some? ==> Names(outcome, world.order.value.value))
               case Ok(paid) => !outcome.Throws? && HasHash(paid) && Carries(outcome, paid.txHash.value)
  {
    hide IsCommandDeadline, PaymentAnswer, TimerWait, ReportAnswer, IsUnresolved, Run, HasHash, LateFault;
    var world := Wired(client, same, network, request, outside);
    var orderId := if world.order.value.Some? then world.order.value.value else "";
    if world.payment.Err? {
      OutcomeAfterTheOrder(request, delayed, world, orderId, "");
      FailedPaymentThrows(request, delayed, world);
    } else {
      NothingEscapesLate(client, same, network, request, delayed, outside);
      HashOf(world.payment.value);
      OutcomeAfterTheOrder(request, delayed, world, orderId, world.payment.value.txHash.value);
      KeptPaymentIsAResult(request, delayed, world);
    }
  }

  lemma HashOf(paid: Paid)
    requires HasHash(paid)
    ensures paid.txHash.Some?
  {
  }

  lemma FailedPaymentThrows(request: Request, delayed: bool, world: World)
    requires !IsUnresolved(request) && world.orderAdmitted && world.order.Ok? && world.payment.Err?
    ensures Run(request, delayed, world).1.Throws?
  {
  }

  lemma KeptPaymentIsAResult(request: Request, delayed: bool, world: World)
    requires !IsUnresolved(request) && world.orderAdmitted && world.order.Ok? && world.payment.Ok?
    requires HasHash(world.payment.value) && LateFault(request, world.payment.value, delayed, world).None?
    ensures !Run(request, delayed, world).1.Throws?
  {
    hide IsUnresolved, HasHash, Matches;
  }
}
