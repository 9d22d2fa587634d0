/**
 * A B.AI recharge: create the preorder, pay once, wait for indexing, report the transaction once. The
 * answers of the API, the payer and the clock are given; the calls made to them are the effects.
 */
module BaiRechargeFlow {
  import opened Wrappers
  import Text

  datatype Target = Target(identifier: string, targetId: string)

  datatype Request = Request(chain: string, amount: string, walletAddress: string, target: Option<Target>)

  datatype Kind = UsageKind | DeadlineKind | OtherKind

  // The members of an error's details that the flow reads or writes.
  datatype Details = Details(
    paymentStatus: Option<string>, outcomeUnknown: bool, forbidsRetry: bool, chain: Option<string>,
    amount: Option<string>, target: Option<Target>, orderId: Option<string>, txHash: Option<string>)

  datatype Fault = Classified(kind: Kind, code: string, details: Details) | Foreign

  datatype Paid = Paid(txHash: Option<string>, chain: string, payer: string)

  datatype Reply = Credit(order: string) | Refusal(code: string, message: Option<string>)

  datatype Waiting = Elapsed | EndedByDeadline | Failed(fault: Fault)

  datatype World = World(
    orderAdmitted: bool, order: Result<Option<string>, Fault>, payment: Result<Paid, Fault>,
    waiting: Waiting, expired: bool, reportAdmitted: bool, report: Result<Reply, Fault>)

  datatype ReportInput = ReportInput(chain: string, txHash: string, amount: string, target: Option<Target>)

  datatype Effect =
    | CreateOrder(request: Request)
    | Pay(orderId: Option<string>, request: Request)
    | Wait
    | Report(input: ReportInput)

  datatype Note = NoNote | IdentityMismatch | ReportLater | NotIndexedYet | Message(text: string) | ReconcileReporting

  // Every result says that the payment must not be retried.
  datatype Outcome =
    | Throws(fault: Fault)
    | Unconfirmed(input: ReportInput, code: Option<string>, note: Note)
    | Credited(input: ReportInput, order: string)

  const NO_DETAILS := Details(None, false, false, None, None, None, None, None)
  const TX_NOT_FOUND := "TX_NOT_FOUND_OR_INVALID"

  predicate IsBlank(s: string) { Text.Trim(s) == "" }

  predicate IsUnresolved(request: Request) {
    request.target.Some? && (IsBlank(request.target.value.identifier) || IsBlank(request.target.value.targetId))
  }

  predicate HasHash(paid: Paid) { paid.txHash.Some? && !IsBlank(paid.txHash.value) }

  function ReportInputOf(request: Request, paid: Paid): ReportInput
    requires HasHash(paid)
  {
    ReportInput(request.chain, paid.txHash.value, request.amount, request.target)
  }

  predicate Matches(request: Request, paid: Paid) {
    paid.chain == request.chain && paid.payer == request.walletAddress
  }

  const DEADLINE_FAULT := Classified(DeadlineKind, "timeout", NO_DETAILS)

  // The failure of the payment as it is reported to the caller.
  function PaymentFailure(request: Request, orderId: Option<string>, fault: Fault): Fault {
    match fault
    case Foreign =>
      Classified(OtherKind, "provider_error",
                 NO_DETAILS.(paymentStatus := Some("unknown"), outcomeUnknown := true, forbidsRetry := true,
                             orderId := orderId))
    case Classified(kind, code, details) =>
      var status :=
        if details.paymentStatus.Some? then details.paymentStatus.value
        else if kind.DeadlineKind? then "not_sent" else "unknown";
      Classified(kind, code, Details(
        Some(status), details.outcomeUnknown || status == "unknown", true, Some(request.chain), Some(request.amount),
        if request.target.Some? then request.target else details.target,
        if orderId.Some? then orderId else details.orderId, details.txHash))
  }

  const NO_HASH_FAULT := Classified(OtherKind, "provider_error", NO_DETAILS.(outcomeUnknown := true))

  // reportBaiTransaction
  function ReportRun(input: ReportInput, admitted: bool, reply: Result<Reply, Fault>): (seq<Effect>, Outcome) {
    if !admitted then ([], Unconfirmed(input, Some("timeout"), ReportLater))
    else
      match reply
      case Ok(Credit(order)) => ([Report(input)], Credited(input, order))
      case Ok(Refusal(code, message)) =>
        ([Report(input)], Unconfirmed(input, Some(code), if message.Some? then Message(message.value) else NoNote))
      case Err(Foreign) => ([Report(input)], Unconfirmed(input, None, ReconcileReporting))
      case Err(Classified(kind, code, details)) =>
        if kind.UsageKind? then ([Report(input)], Throws(reply.error))
        else if kind.DeadlineKind? then ([Report(input)], Unconfirmed(input, Some("timeout"), ReportLater))
        else ([Report(input)], Unconfirmed(input, Some(code), ReconcileReporting))
  }

  // A just-paid hash reported as missing may not be indexed yet.
  function JustPaid(outcome: Outcome): Outcome {
    if outcome.Unconfirmed? && outcome.code == Some(TX_NOT_FOUND) then outcome.(note := NotIndexedYet) else outcome
  }

  function AfterPayment(request: Request, paid: Paid, delayed: bool, world: World): (seq<Effect>, Outcome)
    requires HasHash(paid)
  {
    var input := ReportInputOf(request, paid);
    var waits := if delayed then [Wait] else [];
    if !Matches(request, paid) then ([], Unconfirmed(input, None, IdentityMismatch))
    else if delayed && world.waiting.Failed? then (waits, Throws(world.waiting.fault))
    else if world.expired then (waits, Unconfirmed(input, Some("timeout"), ReportLater))
    else
      var (effects, outcome) := ReportRun(input, world.reportAdmitted, world.report);
      (waits + effects, JustPaid(outcome))
  }

  function Run(request: Request, delayed: bool, world: World): (seq<Effect>, Outcome) {
    if IsUnresolved(request) then ([], Throws(Classified(UsageKind, "invalid_value", NO_DETAILS)))
    else if !world.orderAdmitted then ([], Throws(DEADLINE_FAULT))
    else if world.order.Err? then ([CreateOrder(request)], Throws(world.order.error))
    else
      var start := [CreateOrder(request), Pay(world.order.value, request)];
      if world.payment.Err? then (start, Throws(PaymentFailure(request, world.order.value, world.payment.error)))
      else if !HasHash(world.payment.value) then (start, Throws(NO_HASH_FAULT))
      else
        var (effects, outcome) := AfterPayment(request, world.payment.value, delayed, world);
        (start + effects, outcome)
  }

  class Flow {
    const delayed: bool
    var effects: seq<Effect>

    constructor (delayed: bool)
      ensures this.delayed == delayed && effects == []
    {
      this.delayed := delayed;
      effects := [];
    }

    method Execute(request: Request, world: World) returns (outcome: Outcome)
      modifies this`effects
      ensures effects == old(effects) + Run(request, delayed, world).0
      ensures outcome == Run(request, delayed, world).1
    {
      hide IsUnresolved, HasHash, Matches, PaymentFailure, ReportRun;
      assert effects + [] == effects;
      if IsUnresolved(request) { return Throws(Classified(UsageKind, "invalid_value", NO_DETAILS)); }
      if !world.orderAdmitted { return Throws(DEADLINE_FAULT); }
      effects := effects + [CreateOrder(request)];
      if world.order.Err? { return Throws(world.order.error); }
      effects := effects + [Pay(world.order.value, request)];
      if world.payment.Err? {
        return Throws(PaymentFailure(request, world.order.value, world.payment.error));
      }
      var paid := world.payment.value;
      if !HasHash(paid) { return Throws(NO_HASH_FAULT); }
      var input := ReportInputOf(request, paid);
      if !Matches(request, paid) { return Unconfirmed(input, None, IdentityMismatch); }
      if delayed {
        effects := effects + [Wait];
        if world.waiting.Failed? { return Throws(world.waiting.fault); }
      }
      if world.expired { return Unconfirmed(input, Some("timeout"), ReportLater); }
      var reported := ReportTransaction(input, world.reportAdmitted, world.report);
      outcome := JustPaid(reported);
    }

    method ReportTransaction(input: ReportInput, admitted: bool, reply: Result<Reply, Fault>)
      returns (outcome: Outcome)
      modifies this`effects
      ensures effects == old(effects) + ReportRun(input, admitted, reply).0
      ensures outcome == ReportRun(input, admitted, reply).1
    {
      assert effects + [] == effects;
      if !admitted { return Unconfirmed(input, Some("timeout"), ReportLater); }
      effects := effects + [Report(input)];
      match reply
      case Ok(Credit(order)) => outcome := Credited(input, order);
      case Ok(Refusal(code, message)) =>
        outcome := Unconfirmed(input, Some(code), if message.Some? then Message(message.value) else NoNote);
      case Err(Foreign) => outcome := Unconfirmed(input, None, ReconcileReporting);
      case Err(Classified(kind, code, details)) =>
        if kind.UsageKind? { return Throws(reply.error); }
        if kind.DeadlineKind? { return Unconfirmed(input, Some("timeout"), ReportLater); }
        outcome := Unconfirmed(input, Some(code), ReconcileReporting);
    }
  }

  // ----- What a run does -----

  function Payments(effects: seq<Effect>): nat {
    if effects == [] then 0 else (if effects[0].Pay? then 1 else 0) + Payments(effects[1..])
  }

  function Reports(effects: seq<Effect>): nat {
    if effects == [] then 0 else (if effects[0].Report? then 1 else 0) + Reports(effects[1..])
  }

  // The longest run of calls: order, payment, wait, report.
  function Protocol(request: Request, delayed: bool, orderId: Option<string>, input: ReportInput): seq<Effect> {
    [CreateOrder(request), Pay(orderId, request)] + (if delayed then [Wait] else []) + [Report(input)]
  }

  lemma {:induction false} AtMostOnce(effects: seq<Effect>)
    requires forall i, j :: 0 <= i < j < |effects| ==> !(effects[i].Pay? && effects[j].Pay?)
    requires forall i, j :: 0 <= i < j < |effects| ==> !(effects[i].Report? && effects[j].Report?)
    ensures Payments(effects) <= 1 && Reports(effects) <= 1
    ensures (forall i :: 0 <= i < |effects| ==> !effects[i].Pay?) ==> Payments(effects) == 0
    ensures (forall i :: 0 <= i < |effects| ==> !effects[i].Report?) ==> Reports(effects) == 0
  {
    if effects != [] {
      AtMostOnce(effects[1..]);
    }
  }

  lemma PrefixCounts(effects: seq<Effect>, request: Request, delayed: bool, orderId: Option<string>, input: ReportInput)
    requires effects <= Protocol(request, delayed, orderId, input)
    ensures Payments(effects) <= 1 && Reports(effects) <= 1
    ensures 0 < Payments(effects) ==> 2 <= |effects|
  {
    var all := Protocol(request, delayed, orderId, input);
    assert effects == all[..|effects|];
    AtMostOnce(effects);
  }

  /**
   * Whatever the answers, the calls are a prefix of order, payment, wait, report: so nothing is paid before
   * the order exists, and there is at most one payment and one report. What is reported is the payment of
   * the requested wallet on the requested chain, with its hash.
   */
  lemma CallsFollowTheProtocol(request: Request, delayed: bool, world: World)
    ensures var effects := Run(request, delayed, world).0;
            && (exists orderId, input :: effects <= Protocol(request, delayed, orderId, input))
            && Payments(effects) <= 1 && Reports(effects) <= 1
            && (0 < Payments(effects) ==> world.order.Ok?)
            && forall input :: Report(input) in effects ==>
                 && world.payment.Ok? && HasHash(world.payment.value) && Matches(request, world.payment.value)
                 && input == ReportInputOf(request, world.payment.value)
  {
    var effects := Run(request, delayed, world).0;
    var orderId := if world.order.Ok? then world.order.value else None;
    var input :=
      if world.payment.Ok? && HasHash(world.payment.value) then ReportInputOf(request, world.payment.value)
      else ReportInput("", "", "", None);
    assert effects <= Protocol(request, delayed, orderId, input);
    PrefixCounts(effects, request, delayed, orderId, input);
  }

  // The recipient, if there is one, has been found.
  predicate IsResolved(request: Request) {
    request.target.Some? ==>
      Text.Trim(request.target.value.identifier) != "" && Text.Trim(request.target.value.targetId) != ""
  }

  predicate IsPaid(world: World) {
    world.payment.Ok? && world.payment.value.txHash.Some? && Text.Trim(world.payment.value.txHash.value) != ""
  }

  // Paid by the requested wallet on the requested chain.
  predicate IsMatching(request: Request, world: World)
    requires IsPaid(world)
  {
    world.payment.value.chain == request.chain && world.payment.value.payer == request.walletAddress
  }

  function Calls(made: bool, e: Effect): seq<Effect> { if made then [e] else [] }

  /**
   * Each call is made exactly when the one before it has answered as it should: the order once the recipient
   * is found and the time limit admits it, the payment once the order exists, the wait and the report once a
   * matching payment has given its hash, the report only while the time limit admits it. In particular a
   * recharge that is not admitted makes no call at all.
   */
  lemma CallsAreMadeIff(request: Request, delayed: bool, world: World)
    ensures var orders := IsResolved(request) && world.orderAdmitted;
            var pays := orders && world.order.Ok?;
            var kept := pays && IsPaid(world) && IsMatching(request, world);
            var reports := kept && !(delayed && world.waiting.Failed?) && !world.expired && world.reportAdmitted;
            Run(request, delayed, world).0 ==
              Calls(orders, CreateOrder(request))
              + (if pays then [Pay(world.order.value, request)] else [])
              + Calls(kept && delayed, Wait)
              + if kept then
                  Calls(reports, Report(ReportInput(request.chain, world.payment.value.txHash.value, request.amount,
                                                    request.target)))
                else []
  {
    hide Text.Trim, PaymentFailure;
  }

  /**
   * Without the recipient or the time nothing is called, and the error says which; without an order its error
   * stands.
   */
  lemma RefusedBeforeTheOrder(request: Request, delayed: bool, world: World)
    ensures !IsResolved(request) ==>
              Run(request, delayed, world) == ([], Throws(Classified(UsageKind, "invalid_value", NO_DETAILS)))
    ensures IsResolved(request) && !world.orderAdmitted ==>
              Run(request, delayed, world) == ([], Throws(Classified(DeadlineKind, "timeout", NO_DETAILS)))
    ensures IsResolved(request) && world.orderAdmitted && world.order.Err? ==>
              Run(request, delayed, world).1 == Throws(world.order.error)
  {
  }

  lemma {:induction false} LastReport(effects: seq<Effect>)
    requires forall i :: 0 <= i < |effects| - 1 ==> !effects[i].Report?
    ensures Reports(effects) == if effects != [] && effects[|effects| - 1].Report? then 1 else 0
  {
    if |effects| > 1 {
      LastReport(effects[1..]);
    }
  }

  /** The credit is confirmed exactly when such a payment was reported and the API credited it. */
  lemma CreditedIff(request: Request, delayed: bool, world: World)
    ensures var (effects, outcome) := Run(request, delayed, world);
            outcome.Credited? <==> Reports(effects) == 1 && world.report.Ok? && world.report.value.Credit?
  {
    LastReport(Run(request, delayed, world).0);
  }

  // ----- What the caller learns -----

  predicate FaultNames(fault: Fault, orderId: string) {
    fault.Classified? && fault.details.orderId == Some(orderId)
  }

  predicate FaultForbids(fault: Fault) { fault.Classified? && fault.details.forbidsRetry }

  predicate FaultCarries(fault: Fault, hash: string) { fault.Classified? && fault.details.txHash == Some(hash) }

  predicate HasStatus(fault: Fault, status: string) {
    fault.Classified? && fault.details.paymentStatus == Some(status)
  }

  predicate Says(outcome: Outcome, status: string) { outcome.Throws? && HasStatus(outcome.fault, status) }

  // The deadline refused the payment before it was sent, or the payer says that it was not.
  predicate NotSent(fault: Fault) {
    HasStatus(fault, "not_sent") || (fault.Classified? && fault.details.paymentStatus.None? && fault.kind.DeadlineKind?)
  }

  predicate Names(outcome: Outcome, orderId: string) { outcome.Throws? && FaultNames(outcome.fault, orderId) }

  // Every result that is not an error says that the payment must not be retried.
  predicate ForbidsRetry(outcome: Outcome) { outcome.Throws? ==> FaultForbids(outcome.fault) }

  predicate Carries(outcome: Outcome, hash: string) {
    if outcome.Throws? then FaultCarries(outcome.fault, hash) else outcome.input.txHash == hash
  }

  predicate IsUsageFault<T>(answer: Result<T, Fault>) {
    answer.Err? && answer.error.Classified? && answer.error.kind.UsageKind?
  }

  // The error that escapes after the payment: of the wait, unless the time limit ended it, or a refused report.
  function LateFault(request: Request, paid: Paid, delayed: bool, world: World): Option<Fault> {
    if !Matches(request, paid) then None
    else if delayed && world.waiting.Failed? then Some(world.waiting.fault)
    else if !world.expired && world.reportAdmitted && IsUsageFault(world.report) then Some(world.report.error)
    else None
  }

  /**
   * From the moment the order exists. The outcome names the order exactly when the payment failed and the
   * order has an id, or when the error does so of its own accord. It forbids the retry exactly unless the
   * payment answered without a hash, or a later error escapes that does not forbid it. It carries a hash
   * exactly when the payment has returned it and no later error escapes, or when the error does so of its
   * own accord. It says that nothing was sent exactly when the deadline, the payer or a later error does; a
   * failed payment whose status is unknown also has an unknown outcome.
   */
  lemma OutcomeAfterTheOrder(request: Request, delayed: bool, world: World, orderId: string, hash: string)
    requires !IsUnresolved(request) && world.orderAdmitted && world.order.Ok?
    ensures var outcome := Run(request, delayed, world).1;
            match world.payment
            case Err(fault) =>
              && (Names(outcome, orderId) <==>
                  if world.order.value.Some? then world.order.value.value == orderId else FaultNames(fault, orderId))
              && ForbidsRetry(outcome) && (Carries(outcome, hash) <==> FaultCarries(fault, hash))
              && (Says(outcome, "not_sent") <==> NotSent(fault))
              && (Says(outcome, "unknown") ==> outcome.fault.details.outcomeUnknown)
            case Ok(paid) =>
              var late := if HasHash(paid) then LateFault(request, paid, delayed, world) else None;
              && (Names(outcome, orderId) <==> late.Some? && FaultNames(late.value, orderId))
              && (ForbidsRetry(outcome) <==> HasHash(paid) && (late.Some? ==> FaultForbids(late.value)))
              && (Carries(outcome, hash) <==>
                  HasHash(paid) && if late.Some? then FaultCarries(late.value, hash) else paid.txHash == Some(hash))
              && (Says(outcome, "not_sent") <==> late.Some? && HasStatus(late.value, "not_sent"))
  {
    hide IsUnresolved, IsBlank, Matches;
    assert "unknown"[0] != "not_sent"[0];
  }

  // The reply of the API or the failure of the exchange, as the code and the note of an unconfirmed credit.
  predicate SaysUnconfirmed(reply: Result<Reply, Fault>, code: Option<string>, note: Note) {
    match reply
    case Ok(Credit(_)) => false
    case Ok(Refusal(c, message)) => code == Some(c) && note == if message.Some? then Message(message.value) else NoNote
    case Err(Foreign) => code.None? && note == ReconcileReporting
    case Err(Classified(kind, c, _)) =>
      if kind.DeadlineKind? then code == Some("timeout") && note == ReportLater
      else !kind.UsageKind? && code == Some(c) && note == ReconcileReporting
  }

  /**
   * What a caller reads about a credit that is not confirmed: that the payment is not the requested one, that
   * the time limit ended first, or what became of the report. A hash just paid that the API does not find
   * may not be indexed yet.
   */
  lemma UnconfirmedSays(request: Request, delayed: bool, world: World)
    requires Run(request, delayed, world).1.Unconfirmed?
    ensures var outcome := Run(request, delayed, world).1;
            && IsPaid(world)
            && outcome.input
               == ReportInput(request.chain, world.payment.value.txHash.value, request.amount, request.target)
            && if !IsMatching(request, world) then outcome.code.None? && outcome.note == IdentityMismatch
               else if world.expired || !world.reportAdmitted then
                 outcome.code == Some("timeout") && outcome.note == ReportLater
               else
                 exists note ::
                   && SaysUnconfirmed(world.report, outcome.code, note)
                   && outcome.note == if outcome.code == Some("TX_NOT_FOUND_OR_INVALID") then NotIndexedYet else note
  {
    hide IsUnresolved, Text.Trim;
    var outcome := Run(request, delayed, world).1;
    if IsMatching(request, world) && !world.expired && world.reportAdmitted {
      var reported := ReportRun(outcome.input, true, world.report).1;
      assert "timeout"[0] != "TX_NOT_FOUND_OR_INVALID"[0];
      assert SaysUnconfirmed(world.report, outcome.code, reported.note);
    }
  }

  /** A later report says the same of its reply, for the hash it was given. */
  lemma ReportSays(input: ReportInput, admitted: bool, reply: Result<Reply, Fault>)
    requires ReportRun(input, admitted, reply).1.Unconfirmed?
    ensures var outcome := ReportRun(input, admitted, reply).1;
            && outcome.input == input
            && if admitted then SaysUnconfirmed(reply, outcome.code, outcome.note)
               else outcome.code == Some("timeout") && outcome.note == ReportLater
  {
  }

  /**
   * A failed payment keeps the kind and code of its error and what the error itself knows, and adds the
   * requested chain, amount and recipient. Without a status of its own it was not sent if the time limit
   * refused it, and is unknown otherwise.
   */
  lemma FailedPaymentSays(request: Request, delayed: bool, world: World)
    requires IsResolved(request) && world.orderAdmitted && world.order.Ok? && world.payment.Err?
    ensures var outcome := Run(request, delayed, world).1;
            && outcome.Throws? && outcome.fault.Classified?
            && var details := outcome.fault.details;
               match world.payment.error
               case Foreign =>
                 && outcome.fault.kind == OtherKind && outcome.fault.code == "provider_error"
                 && details.paymentStatus == Some("unknown") && details.outcomeUnknown && details.txHash.None?
               case Classified(kind, code, own) =>
                 && outcome.fault.kind == kind && outcome.fault.code == code
                 && details.chain == Some(request.chain) && details.amount == Some(request.amount)
                 && details.target == (if request.target.None? then own.target else request.target)
                 && details.txHash == own.txHash
                 && details.paymentStatus ==
                    (if own.paymentStatus.Some? then own.paymentStatus
                     else Some(if kind.DeadlineKind? then "not_sent" else "unknown"))
                 && (details.outcomeUnknown <==> own.outcomeUnknown || details.paymentStatus == Some("unknown"))
  {
    hide Text.Trim;
  }

  lemma {:induction false} NeverPays(effects: seq<Effect>)
    requires forall i :: 0 <= i < |effects| ==> !effects[i].Pay?
    ensures Payments(effects) == 0
  {
    if effects != [] {
      NeverPays(effects[1..]);
    }
  }

  lemma PaysAtOne(effects: seq<Effect>)
    requires 2 <= |effects| && effects[1].Pay?
    requires forall i :: 0 <= i < |effects| && i != 1 ==> !effects[i].Pay?
    ensures Payments(effects) == 1
  {
    NeverPays(effects[1..][1..]);
  }

  lemma {:induction false} PaymentsOfConcat(a: seq<Effect>, b: seq<Effect>)
    ensures Payments(a + b) == Payments(a) + Payments(b)
  {
    if a == [] {
      assert a + b == b;
    } else {
      PaymentsOfConcat(a[1..], b);
      assert (a + b)[1..] == a[1..] + b;
    }
  }

  // A later report attempt: whether the deadline admits it, and the answer of the API.
  datatype Attempt = Attempt(admitted: bool, reply: Result<Reply, Fault>)

  // What the caller still holds after an attempt.
  function Retained(input: ReportInput, outcome: Outcome): ReportInput {
    if outcome.Throws? then input else outcome.input
  }

  // Each attempt reports what the one before retained.
  function Recovery(input: ReportInput, attempts: seq<Attempt>): (seq<Effect>, seq<Outcome>)
    decreases |attempts|
  {
    if attempts == [] then ([], [])
    else
      var (effects, outcome) := ReportRun(input, attempts[0].admitted, attempts[0].reply);
      var (later, outcomes) := Recovery(Retained(input, outcome), attempts[1..]);
      (effects + later, [outcome] + outcomes)
  }

  function AdmittedAttempts(attempts: seq<Attempt>): nat {
    if attempts == [] then 0 else (if attempts[0].admitted then 1 else 0) + AdmittedAttempts(attempts[1..])
  }

  lemma {:induction false} RecoveryEffect(input: ReportInput, attempts: seq<Attempt>)
    ensures var (effects, outcomes) := Recovery(input, attempts);
            && (forall e :: e in effects ==> e == Report(input)) && |effects| == AdmittedAttempts(attempts)
            && |outcomes| == |attempts|
            && forall i :: 0 <= i < |outcomes| ==>
                 && Retained(input, outcomes[i]) == input
                 && (outcomes[i].Credited? <==>
                     attempts[i].admitted && attempts[i].reply.Ok? && attempts[i].reply.value.Credit?)
    decreases |attempts|
  {
    if attempts != [] {
      RecoveryEffect(input, attempts[1..]);
    }
  }

  lemma UnconfirmedPaidOnce(request: Request, delayed: bool, world: World)
    requires Run(request, delayed, world).1.Unconfirmed?
    ensures var (effects, outcome) := Run(request, delayed, world);
            && world.payment.Ok? && HasHash(world.payment.value)
            && outcome.input == ReportInputOf(request, world.payment.value)
            && Payments(effects) == 1
  {
    hide IsUnresolved, IsBlank, Matches, Payments;
    var effects := Run(request, delayed, world).0;
    assert forall i :: 0 <= i < |effects| && i != 1 ==> !effects[i].Pay?;
    PaysAtOne(effects);
  }

  /**
   * Recovery: however many report attempts follow an unconfirmed outcome, each reports what the one before
   * retained. The payment stays the only one, every call reports the hash that was paid, and an attempt is
   * credited, for that hash, exactly when it was admitted and the API credits it.
   */
  lemma RecoveryOnlyReports(request: Request, delayed: bool, world: World, attempts: seq<Attempt>)
    requires Run(request, delayed, world).1.Unconfirmed?
    ensures var input := Run(request, delayed, world).1.input;
            var (effects, outcomes) := Recovery(input, attempts);
            && world.payment.Ok? && HasHash(world.payment.value)
            && input == ReportInputOf(request, world.payment.value)
            && Payments(Run(request, delayed, world).0 + effects) == 1
            && (forall e :: e in effects ==> e == Report(input)) && |effects| == AdmittedAttempts(attempts)
            && |outcomes| == |attempts|
            && forall i :: 0 <= i < |outcomes| ==>
                 && (outcomes[i].Credited? <==>
                     attempts[i].admitted && attempts[i].reply.Ok? && attempts[i].reply.value.Credit?)
                 && (!outcomes[i].Throws? ==> outcomes[i].input == input)
  {
    hide Run, HasHash, ReportInputOf, Recovery, AdmittedAttempts, Payments;
    var before, input := Run(request, delayed, world).0, Run(request, delayed, world).1.input;
    var later := Recovery(input, attempts).0;
    UnconfirmedPaidOnce(request, delayed, world);
    RecoveryEffect(input, attempts);
    assert forall i :: 0 <= i < |later| ==> later[i] in later;
    NeverPays(later);
    PaymentsOfConcat(before, later);
  }
}
