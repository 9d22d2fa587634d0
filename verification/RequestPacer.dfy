/**
 * The request pacer: a bounded pool of permits, a first-in first-out queue that an abort can leave,
 * and one shared schedule of start slots. `Pool` is the pacer's own state; class `RequestPacer`
 * updates it in place. `System` adds the runs that share the pacer, and a trace of `Event`s is one
 * interleaving of their turns on the event loop. Clock readings are arbitrary: time may go backwards.
 */
module RequestPacing {
  import opened Wrappers

  datatype Pool = Pool(
    maxInFlight: nat,
    minInterval: int,
    queue: seq<nat>,
    active: int,
    nextStartAt: int
  )

  datatype Admission = Rejected | Permitted | Waiting

  datatype StartCheck = Refused | Claimed(slot: int) | Unpaced | Delay(until: int)

  function NewPool(minInterval: int, maxInFlight: int): Pool {
    Pool(if maxInFlight < 1 then 1 else maxInFlight, minInterval, [], 0, 0)
  }

  function AdmissionOf(p: Pool, aborted: bool): Admission {
    if aborted then Rejected else if p.active < p.maxInFlight then Permitted else Waiting
  }

  function AcquireStep(p: Pool, waiter: nat, aborted: bool): Pool {
    match AdmissionOf(p, aborted)
    case Rejected => p
    case Permitted => p.(active := p.active + 1)
    case Waiting => p.(queue := p.queue + [waiter])
  }

  function Without(queue: seq<nat>, waiter: nat): seq<nat> {
    if queue == [] then []
    else if queue[0] == waiter then queue[1..]
    else [queue[0]] + Without(queue[1..], waiter)
  }

  function ReleaseStep(p: Pool): Pool {
    if p.queue == [] then p.(active := p.active - 1) else p.(queue := p.queue[1..])
  }

  function StartOutcome(p: Pool, now: int, dispatchable: bool): StartCheck {
    if p.minInterval <= 0 then (if dispatchable then Unpaced else Refused)
    else if now >= p.nextStartAt then (if dispatchable then Claimed(now) else Refused)
    else Delay(p.nextStartAt)
  }

  function StartStep(p: Pool, now: int, dispatchable: bool): Pool {
    if StartOutcome(p, now, dispatchable).Claimed? then p.(nextStartAt := now + p.minInterval) else p
  }

  class RequestPacer {
    const minInterval: int
    const maxInFlight: nat
    var queue: seq<nat>
    var active: int
    var nextStartAt: int

    function State(): Pool
      reads this
    {
      Pool(maxInFlight, minInterval, queue, active, nextStartAt)
    }

    constructor (minIntervalMs: int, maxInFlight: int)
      ensures State() == NewPool(minIntervalMs, maxInFlight)
    {
      this.minInterval := minIntervalMs;
      this.maxInFlight := if maxInFlight < 1 then 1 else maxInFlight;
      queue := [];
      active := 0;
      nextStartAt := 0;
    }

    // The synchronous part of #acquire: reject, hand out a permit, or queue the waiter.
    method Acquire(waiter: nat, aborted: bool) returns (admission: Admission)
      modifies this
      ensures admission == AdmissionOf(old(State()), aborted)
      ensures State() == AcquireStep(old(State()), waiter, aborted)
    {
      if aborted { return Rejected; }
      if active < maxInFlight {
        active := active + 1;
        return Permitted;
      }
      queue := queue + [waiter];
      admission := Waiting;
    }

    // The abort listener of a queued waiter: find it and splice it out.
    method AbortWait(waiter: nat)
      modifies this
      ensures State() == old(State()).(queue := Without(old(queue), waiter))
    {
      var index := 0;
      while index < |queue| && queue[index] != waiter
        invariant 0 <= index <= |queue|
        invariant forall k :: 0 <= k < index ==> queue[k] != waiter
      {
        index := index + 1;
      }
      WithoutFirst(queue, waiter, index);
      if index < |queue| {
        queue := queue[..index] + queue[index + 1..];
      }
    }

    // Hands the permit to the first waiter, so a new caller can never take it in between.
    method Release() returns (granted: Option<nat>)
      modifies this
      ensures State() == ReleaseStep(old(State()))
      ensures granted == if old(queue) == [] then None else Some(old(queue)[0])
    {
      if queue == [] {
        active := active - 1;
        return None;
      }
      granted := Some(queue[0]);
      queue := queue[1..];
    }

    // One turn of #awaitStart. The check runs before the slot is claimed.
    method TryStart(now: int, dispatchable: bool) returns (outcome: StartCheck)
      modifies this
      ensures outcome == StartOutcome(old(State()), now, dispatchable)
      ensures State() == StartStep(old(State()), now, dispatchable)
    {
      if minInterval <= 0 {
        return if dispatchable then Unpaced else Refused;
      }
      if now >= nextStartAt {
        if !dispatchable { return Refused; }
        nextStartAt := now + minInterval;
        return Claimed(now);
      }
      outcome := Delay(nextStartAt);
    }
  }

  // Splicing out the first occurrence, or nothing when there is none.
  lemma {:induction false} WithoutFirst(queue: seq<nat>, waiter: nat, index: nat)
    requires index <= |queue| && (index < |queue| ==> queue[index] == waiter)
    requires forall k :: 0 <= k < index ==> queue[k] != waiter
    ensures Without(queue, waiter) == if index < |queue| then queue[..index] + queue[index + 1..] else queue
  {
    if 0 < index {
      WithoutFirst(queue[1..], waiter, index - 1);
      if index < |queue| {
        assert queue[1..][..index - 1] == queue[1..index] && queue[1..][index..] == queue[index + 1..];
      }
    }
  }

  // ----- The runs that share one pacer -----

  datatype Ending =
    | RejectedOnArrival
    | LeftQueue
    | StoppedWaiting      // aborted during the pacing delay
    | RefusedAtStart      // the check before the claim refused
    | RefusedAtLaunch     // the check in the turn of the send refused
    | Completed

  datatype Phase = Queued | Granted | Delayed | Ready | Running | Ended(ending: Ending)

  // slot is the index of the claimed start slot; sent is set in the turn that calls fn.
  datatype Request = Request(context: Option<nat>, phase: Phase, slot: Option<nat>, sent: bool)

  // slots are the claimed start times in claiming order; dispatched are the contexts marked as sent.
  datatype System = System(pool: Pool, runs: seq<Request>, slots: seq<int>, dispatched: set<nat>)

  datatype Event =
    | Arrive(context: Option<nat>, aborted: bool)
    | AbortQueued(run: nat)
    | Turn(run: nat, now: int, checkPasses: bool)
    | AbortDelayed(run: nat)
    | Launch(run: nat, checkPasses: bool)
    | Finish(run: nat)

  predicate Holds(p: Phase) {
    p.Granted? || p.Delayed? || p.Ready? || p.Running?
  }

  // Whether the run had a permit at some time.
  predicate HeldPermit(p: Phase) {
    !p.Queued? && p != Ended(RejectedOnArrival) && p != Ended(LeftQueue)
  }

  // dispatchNow throws only when there is a context and its check refuses.
  predicate Passes(r: Request, checkPasses: bool) {
    r.context.None? || checkPasses
  }

  predicate Enabled(s: System, e: Event) {
    match e
    case Arrive(context, aborted) => aborted ==> context.Some?
    case AbortQueued(i) => i < |s.runs| && s.runs[i].phase.Queued? && s.runs[i].context.Some?
    case Turn(i, _, _) => i < |s.runs| && (s.runs[i].phase.Granted? || s.runs[i].phase.Delayed?)
    case AbortDelayed(i) => i < |s.runs| && s.runs[i].phase.Delayed? && s.runs[i].context.Some?
    case Launch(i, _) => i < |s.runs| && s.runs[i].phase.Ready?
    case Finish(i) => i < |s.runs| && s.runs[i].phase.Running?
  }

  function Marked(s: System, r: Request): set<nat> {
    if r.context.Some? then s.dispatched + {r.context.value} else s.dispatched
  }

  // The run ends and its finally block releases the permit, which may wake the first waiter.
  function EndRun(s: System, i: nat, ending: Ending): System
    requires i < |s.runs|
  {
    var ended := s.runs[i := s.runs[i].(phase := Ended(ending))];
    var granted := if s.pool.queue != [] && s.pool.queue[0] < |s.runs| then
                     ended[s.pool.queue[0] := ended[s.pool.queue[0]].(phase := Granted)]
                   else ended;
    s.(pool := ReleaseStep(s.pool), runs := granted)
  }

  function Admit(s: System, context: Option<nat>, aborted: bool): System {
    var phase := match AdmissionOf(s.pool, aborted)
      case Rejected => Ended(RejectedOnArrival)
      case Permitted => Granted
      case Waiting => Queued;
    s.(pool := AcquireStep(s.pool, |s.runs|, aborted), runs := s.runs + [Request(context, phase, None, false)])
  }

  function TurnOf(s: System, i: nat, now: int, checkPasses: bool): System
    requires i < |s.runs|
  {
    var r := s.runs[i];
    var pass := Passes(r, checkPasses);
    var t := s.(pool := StartStep(s.pool, now, pass));
    match StartOutcome(s.pool, now, pass)
    case Refused => EndRun(t, i, RefusedAtStart)
    case Delay(_) => t.(runs := s.runs[i := r.(phase := Delayed)])
    case Unpaced => t.(runs := s.runs[i := r.(phase := Ready)], dispatched := Marked(s, r))
    case Claimed(slot) =>
      t.(runs := s.runs[i := r.(phase := Ready, slot := Some(|s.slots|))],
         slots := s.slots + [slot], dispatched := Marked(s, r))
  }

  function Next(s: System, e: Event): System
    requires Enabled(s, e)
  {
    match e
    case Arrive(context, aborted) => Admit(s, context, aborted)
    case AbortQueued(i) =>
      s.(pool := s.pool.(queue := Without(s.pool.queue, i)),
         runs := s.runs[i := s.runs[i].(phase := Ended(LeftQueue))])
    case Turn(i, now, checkPasses) => TurnOf(s, i, now, checkPasses)
    case AbortDelayed(i) => EndRun(s, i, StoppedWaiting)
    case Launch(i, checkPasses) =>
      var r := s.runs[i];
      if Passes(r, checkPasses) then
        s.(runs := s.runs[i := r.(phase := Running, sent := true)], dispatched := Marked(s, r))
      else EndRun(s, i, RefusedAtLaunch)
    case Finish(i) => EndRun(s, i, Completed)
  }

  function Initial(minInterval: int, maxInFlight: int): System {
    System(NewPool(minInterval, maxInFlight), [], [], {})
  }

  predicate IsTrace(s: System, events: seq<Event>)
    decreases |events|
  {
    events == [] || (Enabled(s, events[0]) && IsTrace(Next(s, events[0]), events[1..]))
  }

  function After(s: System, events: seq<Event>): System
    requires IsTrace(s, events)
    decreases |events|
  {
    if events == [] then s else After(Next(s, events[0]), events[1..])
  }

  // ----- What every interleaving keeps -----

  function Holders(runs: seq<Request>): nat {
    if runs == [] then 0
    else Holders(runs[..|runs| - 1]) + (if Holds(runs[|runs| - 1].phase) then 1 else 0)
  }

  predicate Increasing(queue: seq<nat>) {
    forall a, b :: 0 <= a < b < |queue| ==> queue[a] < queue[b]
  }

  // The queue is exactly the queued runs, in arrival order.
  predicate QueueMatches(s: System) {
    && Increasing(s.pool.queue)
    && (forall k :: 0 <= k < |s.pool.queue| ==>
          s.pool.queue[k] < |s.runs| && s.runs[s.pool.queue[k]].phase.Queued?)
    && (forall i :: 0 <= i < |s.runs| && s.runs[i].phase.Queued? ==> i in s.pool.queue)
  }

  predicate PermitsMatch(s: System) {
    && s.pool.active == Holders(s.runs)
    && 1 <= s.pool.maxInFlight
    && s.pool.active <= s.pool.maxInFlight
    && (s.pool.queue != [] ==> s.pool.active == s.pool.maxInFlight)
  }

  // A waiting run has not been overtaken by any later arrival.
  predicate NotOvertaken(s: System) {
    forall i, j :: 0 <= i < j < |s.runs| && s.runs[i].phase.Queued? ==> !HeldPermit(s.runs[j].phase)
  }

  ghost predicate Spaced(slots: seq<int>, interval: int) {
    forall a, b :: 0 <= a < b < |slots| && b == a + 1 ==> slots[b] - slots[a] >= interval
  }

  ghost predicate SlotsMatch(s: System) {
    && Spaced(s.slots, s.pool.minInterval)
    && (s.slots != [] ==> s.pool.minInterval > 0 &&
                          s.pool.nextStartAt == s.slots[|s.slots| - 1] + s.pool.minInterval)
    && (s.slots == [] ==> s.pool.nextStartAt == 0)
    && (forall i :: 0 <= i < |s.runs| && s.runs[i].slot.Some? ==> s.runs[i].slot.value < |s.slots|)
    && (forall i, j :: 0 <= i < j < |s.runs| && s.runs[i].slot.Some? ==> s.runs[i].slot != s.runs[j].slot)
  }

  predicate RequestMatches(s: System, r: Request) {
    var paced := s.pool.minInterval > 0;
    && (r.sent <==> r.phase.Running? || r.phase == Ended(Completed))
    && (r.slot.Some? <==> paced && (r.phase.Ready? || r.sent || r.phase == Ended(RefusedAtLaunch)))
    && (r.context.Some? && (r.phase.Ready? || r.sent) ==> r.context.value in s.dispatched)
  }

  predicate RequestsMatch(s: System) {
    forall i :: 0 <= i < |s.runs| ==> RequestMatches(s, s.runs[i])
  }

  ghost predicate Inv(s: System) {
    QueueMatches(s) && PermitsMatch(s) && NotOvertaken(s) && SlotsMatch(s) && RequestsMatch(s)
  }

  lemma {:induction false} HoldersUpdate(runs: seq<Request>, i: nat, r: Request)
    requires i < |runs|
    ensures Holders(runs[i := r]) ==
            Holders(runs) - (if Holds(runs[i].phase) then 1 else 0) + (if Holds(r.phase) then 1 else 0)
  {
    var last := |runs| - 1;
    if i == last {
      assert runs[i := r][..last] == runs[..last];
    } else {
      HoldersUpdate(runs[..last], i, r);
      assert runs[i := r][..last] == runs[..last][i := r];
    }
  }

  lemma HoldersAppend(runs: seq<Request>, r: Request)
    ensures Holders(runs + [r]) == Holders(runs) + (if Holds(r.phase) then 1 else 0)
  {
    assert (runs + [r])[..|runs|] == runs;
  }

  lemma {:induction false} HoldersBound(runs: seq<Request>)
    ensures Holders(runs) == 0 <==> forall i :: 0 <= i < |runs| ==> !Holds(runs[i].phase)
  {
    if runs != [] {
      var last := |runs| - 1;
      HoldersBound(runs[..last]);
      assert forall i :: 0 <= i < last ==> runs[..last][i] == runs[i];
    }
  }

  lemma {:induction false} WithoutKeepsOrder(queue: seq<nat>, waiter: nat)
    requires Increasing(queue)
    ensures Increasing(Without(queue, waiter))
    ensures forall x :: x in Without(queue, waiter) <==> x in queue && x != waiter
  {
    if queue != [] {
      IncreasingSplits(queue);
      WithoutKeepsOrder(queue[1..], waiter);
      hide Increasing;
      var rest := Without(queue[1..], waiter);
      assert forall x :: x in queue <==> x == queue[0] || x in queue[1..];
      if queue[0] != waiter {
        IncreasingJoins(queue[0], rest);
      }
    }
  }

  lemma IncreasingSplits(queue: seq<nat>)
    requires Increasing(queue) && queue != []
    ensures Increasing(queue[1..]) && forall x :: x in queue[1..] ==> queue[0] < x
  {
  }

  lemma IncreasingJoins(first: nat, rest: seq<nat>)
    requires Increasing(rest) && forall x :: x in rest ==> first < x
    ensures Increasing([first] + rest)
  {
    assert forall k :: 0 <= k < |rest| ==> rest[k] in rest;
  }

  // Slots and start records only depend on the runs' slots, so a change of phases keeps them.
  lemma SlotsKept(s: System, t: System)
    requires SlotsMatch(s)
    requires t.slots == s.slots && t.pool.minInterval == s.pool.minInterval && t.pool.nextStartAt == s.pool.nextStartAt
    requires |s.runs| <= |t.runs|
    requires forall j :: 0 <= j < |s.runs| ==> t.runs[j].slot == s.runs[j].slot
    requires forall j :: |s.runs| <= j < |t.runs| ==> t.runs[j].slot.None?
    ensures SlotsMatch(t)
  {
  }

  lemma RequestsKept(s: System, t: System)
    requires RequestsMatch(s)
    requires t.pool.minInterval == s.pool.minInterval && s.dispatched <= t.dispatched && |s.runs| <= |t.runs|
    requires forall j :: 0 <= j < |t.runs| ==> (j < |s.runs| && t.runs[j] == s.runs[j]) || RequestMatches(t, t.runs[j])
    ensures RequestsMatch(t)
  {
    forall j | 0 <= j < |t.runs|
      ensures RequestMatches(t, t.runs[j])
    {
      assert j < |s.runs| && t.runs[j] == s.runs[j] ==> RequestMatches(s, s.runs[j]);
    }
  }

  // A run that holds a permit and keeps it changes nothing about the queue.
  lemma HolderMoves(s: System, t: System, i: nat, r: Request)
    requires QueueMatches(s) && PermitsMatch(s) && NotOvertaken(s)
    requires i < |s.runs| && Holds(s.runs[i].phase) && Holds(r.phase)
    requires t.runs == s.runs[i := r] && t.pool == s.pool.(nextStartAt := t.pool.nextStartAt)
    ensures QueueMatches(t) && PermitsMatch(t) && NotOvertaken(t)
  {
    HoldersUpdate(s.runs, i, r);
  }

  lemma AdmitKeepsQueue(s: System, t: System, r: Request)
    requires QueueMatches(s)
    requires t.runs == s.runs + [r]
    requires t.pool.queue == if r.phase.Queued? then s.pool.queue + [|s.runs|] else s.pool.queue
    ensures QueueMatches(t)
  {
    hide Increasing;
    if r.phase.Queued? {
      IncreasingAppend(s.pool.queue, |s.runs|);
    }
    forall k | 0 <= k < |t.pool.queue|
      ensures t.pool.queue[k] < |t.runs| && t.runs[t.pool.queue[k]].phase.Queued?
    {
      if k < |s.pool.queue| {
        assert t.pool.queue[k] == s.pool.queue[k];
      }
    }
    forall i | 0 <= i < |t.runs| && t.runs[i].phase.Queued?
      ensures i in t.pool.queue
    {
      if i < |s.runs| {
        assert i in s.pool.queue;
      } else {
        assert t.pool.queue[|s.pool.queue|] == i;
      }
    }
  }

  lemma IncreasingAppend(queue: seq<nat>, last: nat)
    requires Increasing(queue) && forall k :: 0 <= k < |queue| ==> queue[k] < last
    ensures Increasing(queue + [last])
  {
  }

  lemma AdmitKeepsOrder(s: System, t: System, r: Request)
    requires QueueMatches(s) && NotOvertaken(s)
    requires t.runs == s.runs + [r] && (HeldPermit(r.phase) ==> s.pool.queue == [])
    ensures NotOvertaken(t)
  {
    assert s.pool.queue == [] ==> forall i :: 0 <= i < |s.runs| ==> !s.runs[i].phase.Queued?;
  }

  lemma InvAdmit(s: System, context: Option<nat>, aborted: bool)
    requires Inv(s)
    ensures Inv(Admit(s, context, aborted))
  {
    hide QueueMatches, NotOvertaken, SlotsMatch, RequestsMatch, Holders;
    var t := Admit(s, context, aborted);
    var r := t.runs[|s.runs|];
    HoldersAppend(s.runs, r);
    AdmitKeepsQueue(s, t, r);
    AdmitKeepsOrder(s, t, r);
    SlotsKept(s, t);
    RequestsKept(s, t);
  }

  lemma AbortKeepsQueue(s: System, t: System, i: nat)
    requires QueueMatches(s) && PermitsMatch(s) && NotOvertaken(s)
    requires i < |s.runs| && s.runs[i].phase.Queued?
    requires t.pool == s.pool.(queue := Without(s.pool.queue, i))
    requires t.runs == s.runs[i := s.runs[i].(phase := Ended(LeftQueue))]
    ensures QueueMatches(t) && PermitsMatch(t) && NotOvertaken(t)
  {
    hide Increasing, Holders, Without;
    HoldersUpdate(s.runs, i, t.runs[i]);
    WithoutKeepsOrder(s.pool.queue, i);
    forall k | 0 <= k < |t.pool.queue|
      ensures t.pool.queue[k] < |t.runs| && t.runs[t.pool.queue[k]].phase.Queued?
    {
      assert t.pool.queue[k] in s.pool.queue && t.pool.queue[k] != i;
    }
    if t.pool.queue != [] {
      assert t.pool.queue[0] in s.pool.queue;
    }
  }

  lemma InvAbortQueued(s: System, i: nat)
    requires Inv(s) && Enabled(s, AbortQueued(i))
    ensures Inv(Next(s, AbortQueued(i)))
  {
    var t := Next(s, AbortQueued(i));
    AbortKeepsQueue(s, t, i);
    SlotsKept(s, t);
    assert RequestMatches(s, s.runs[i]);
    RequestsKept(s, t);
  }

  // What the end of a permit-holding run does to every run.
  function PhaseAfterEnd(s: System, i: nat, ending: Ending, j: nat): Phase
    requires j < |s.runs|
  {
    if j == i then Ended(ending)
    else if s.pool.queue != [] && j == s.pool.queue[0] then Granted
    else s.runs[j].phase
  }

  ghost predicate EndsRun(s: System, t: System, i: nat, ending: Ending) {
    && |t.runs| == |s.runs| && t.pool == ReleaseStep(s.pool)
    && t.slots == s.slots && t.dispatched == s.dispatched
    && forall j :: 0 <= j < |s.runs| ==> t.runs[j] == s.runs[j].(phase := PhaseAfterEnd(s, i, ending, j))
  }

  lemma EndRunEffect(s: System, i: nat, ending: Ending)
    requires QueueMatches(s) && i < |s.runs| && Holds(s.runs[i].phase)
    ensures EndsRun(s, EndRun(s, i, ending), i, ending)
  {
  }

  lemma EndKeepsQueue(s: System, t: System, i: nat, ending: Ending)
    requires QueueMatches(s) && i < |s.runs| && Holds(s.runs[i].phase) && EndsRun(s, t, i, ending)
    ensures QueueMatches(t)
  {
    var q := s.pool.queue;
    if q != [] {
      forall k | 0 <= k < |q| - 1
        ensures q[1..][k] < |t.runs| && t.runs[q[1..][k]].phase.Queued?
      {
        assert q[0] < q[k + 1] && s.runs[q[k + 1]].phase.Queued?;
      }
      forall j | 0 <= j < |t.runs| && t.runs[j].phase.Queued?
        ensures j in q[1..]
      {
        assert s.runs[j].phase.Queued? && j in q && j != q[0];
      }
    }
  }

  lemma EndKeepsPermits(s: System, t: System, i: nat, ending: Ending)
    requires QueueMatches(s) && PermitsMatch(s) && i < |s.runs| && Holds(s.runs[i].phase) && EndsRun(s, t, i, ending)
    ensures PermitsMatch(t)
  {
    hide Increasing, Holders;
    var ended := s.runs[i := s.runs[i].(phase := Ended(ending))];
    HoldersUpdate(s.runs, i, ended[i]);
    if s.pool.queue == [] {
      assert t.runs == ended;
    } else {
      var head := s.pool.queue[0];
      HoldersUpdate(ended, head, s.runs[head].(phase := Granted));
      assert t.runs == ended[head := s.runs[head].(phase := Granted)];
    }
  }

  // The run that is granted the permit is the earliest waiting one.
  lemma EndKeepsOrder(s: System, t: System, i: nat, ending: Ending)
    requires QueueMatches(s) && NotOvertaken(s) && i < |s.runs| && Holds(s.runs[i].phase) && EndsRun(s, t, i, ending)
    ensures NotOvertaken(t)
  {
    forall a, b | 0 <= a < b < |t.runs| && t.runs[a].phase.Queued?
      ensures !HeldPermit(t.runs[b].phase)
    {
      assert s.runs[a].phase.Queued? && a in s.pool.queue;
      assert s.pool.queue[0] <= a;
      assert b != i && t.runs[b].phase == s.runs[b].phase;
    }
  }

  lemma InvEndRun(s: System, i: nat, ending: Ending)
    requires Inv(s) && i < |s.runs| && Holds(s.runs[i].phase)
    requires ending in {StoppedWaiting, RefusedAtStart, RefusedAtLaunch, Completed}
    requires RequestMatches(s, s.runs[i].(phase := Ended(ending)))
    ensures Inv(EndRun(s, i, ending))
  {
    var t := EndRun(s, i, ending);
    EndRunEffect(s, i, ending);
    EndKeepsQueue(s, t, i, ending);
    EndKeepsPermits(s, t, i, ending);
    EndKeepsOrder(s, t, i, ending);
    SlotsKept(s, t);
    EndKeepsRequests(s, t, i, ending);
  }

  lemma EndKeepsRequests(s: System, t: System, i: nat, ending: Ending)
    requires QueueMatches(s) && RequestsMatch(s) && i < |s.runs| && EndsRun(s, t, i, ending)
    requires RequestMatches(s, s.runs[i].(phase := Ended(ending)))
    ensures RequestsMatch(t)
  {
    forall j | 0 <= j < |t.runs|
      ensures RequestMatches(t, t.runs[j])
    {
      assert RequestMatches(s, s.runs[j]);
      if j != i && s.pool.queue != [] && j == s.pool.queue[0] {
        assert s.runs[s.pool.queue[0]].phase.Queued?;
      }
    }
  }

  lemma OneRequestMatches(s: System, i: nat)
    requires RequestsMatch(s) && i < |s.runs|
    ensures RequestMatches(s, s.runs[i])
  {
  }

  lemma InvTurn(s: System, e: Event)
    requires Inv(s) && e.Turn? && Enabled(s, e)
    ensures Inv(Next(s, e))
  {
    hide QueueMatches, PermitsMatch, NotOvertaken, SlotsMatch, RequestsMatch;
    var i := e.run;
    var pass := Passes(s.runs[i], e.checkPasses);
    OneRequestMatches(s, i);
    if StartOutcome(s.pool, e.now, pass).Refused? {
      InvEndRun(s, i, RefusedAtStart);
    } else {
      var t := Next(s, e);
      HolderMoves(s, t, i, t.runs[i]);
      if StartOutcome(s.pool, e.now, pass).Claimed? {
        ClaimKeepsSlots(s, t, i, e.now);
      } else {
        SlotsKept(s, t);
      }
      RequestsKept(s, t);
    }
  }

  lemma ClaimKeepsSlots(s: System, t: System, i: nat, now: int)
    requires SlotsMatch(s) && s.pool.minInterval > 0 && s.pool.nextStartAt <= now
    requires t.pool == s.pool.(nextStartAt := now + s.pool.minInterval) && t.slots == s.slots + [now]
    requires i < |s.runs| == |t.runs| && t.runs[i].slot == Some(|s.slots|)
    requires forall j :: 0 <= j < |s.runs| && j != i ==> t.runs[j] == s.runs[j]
    ensures SlotsMatch(t)
  {
  }

  lemma InvLaunch(s: System, e: Event)
    requires Inv(s) && e.Launch? && Enabled(s, e)
    ensures Inv(Next(s, e))
  {
    assert RequestMatches(s, s.runs[e.run]);
    if Passes(s.runs[e.run], e.checkPasses) {
      var t := Next(s, e);
      HolderMoves(s, t, e.run, t.runs[e.run]);
      SlotsKept(s, t);
      RequestsKept(s, t);
    } else {
      InvEndRun(s, e.run, RefusedAtLaunch);
    }
  }

  lemma InvEnds(s: System, i: nat)
    requires Inv(s) && i < |s.runs|
    ensures s.runs[i].phase.Delayed? ==> Inv(EndRun(s, i, StoppedWaiting))
    ensures s.runs[i].phase.Running? ==> Inv(EndRun(s, i, Completed))
  {
    assert RequestMatches(s, s.runs[i]);
    if s.runs[i].phase.Delayed? {
      InvEndRun(s, i, StoppedWaiting);
    } else if s.runs[i].phase.Running? {
      InvEndRun(s, i, Completed);
    }
  }

  lemma InvNext(s: System, e: Event)
    requires Inv(s) && Enabled(s, e)
    ensures Inv(Next(s, e))
  {
    match e
    case Arrive(context, aborted) => InvAdmit(s, context, aborted);
    case AbortQueued(i) => InvAbortQueued(s, i);
    case Turn(_, _, _) => InvTurn(s, e);
    case AbortDelayed(i) => InvEnds(s, i);
    case Launch(_, _) => InvLaunch(s, e);
    case Finish(i) => InvEnds(s, i);
  }

  lemma NextKeepsSettings(s: System, e: Event)
    requires Enabled(s, e)
    ensures Next(s, e).pool.minInterval == s.pool.minInterval
    ensures Next(s, e).pool.maxInFlight == s.pool.maxInFlight
  {
  }

  lemma {:induction false} InvAfter(s: System, events: seq<Event>)
    requires Inv(s) && IsTrace(s, events)
    ensures Inv(After(s, events))
    ensures After(s, events).pool.minInterval == s.pool.minInterval
    ensures After(s, events).pool.maxInFlight == s.pool.maxInFlight
    decreases |events|
  {
    if events != [] {
      hide Inv, Next;
      InvNext(s, events[0]);
      NextKeepsSettings(s, events[0]);
      InvAfter(Next(s, events[0]), events[1..]);
    }
  }

  lemma InvReachable(minInterval: int, maxInFlight: int, events: seq<Event>)
    requires IsTrace(Initial(minInterval, maxInFlight), events)
    ensures var s := After(Initial(minInterval, maxInFlight), events);
            && Inv(s) && s.pool.minInterval == minInterval
            && s.pool.maxInFlight == if maxInFlight < 1 then 1 else maxInFlight
  {
    hide IsTrace, After;
    InvAfter(Initial(minInterval, maxInFlight), events);
  }

  /**
   * In every interleaving the active count is the number of runs holding a permit and never exceeds
   * the limit, the queue is exactly the waiting runs in arrival order, and a run waits only while
   * the pool is full.
   */
  lemma PermitsAreBounded(minInterval: int, maxInFlight: int, events: seq<Event>)
    requires IsTrace(Initial(minInterval, maxInFlight), events)
    ensures var s := After(Initial(minInterval, maxInFlight), events);
            && s.pool.active == Holders(s.runs)
            && Holders(s.runs) <= (if maxInFlight < 1 then 1 else maxInFlight)
            && QueueMatches(s)
            && (forall i :: 0 <= i < |s.runs| && s.runs[i].phase.Queued? ==>
                  Holders(s.runs) == (if maxInFlight < 1 then 1 else maxInFlight))
  {
    InvReachable(minInterval, maxInFlight, events);
  }

  /** While a run waits, no run that arrived after it has ever had a permit. */
  lemma NoOvertaking(minInterval: int, maxInFlight: int, events: seq<Event>, i: nat, j: nat)
    requires IsTrace(Initial(minInterval, maxInFlight), events)
    requires var runs := After(Initial(minInterval, maxInFlight), events).runs;
             i < j < |runs| && runs[i].phase.Queued?
    ensures !HeldPermit(After(Initial(minInterval, maxInFlight), events).runs[j].phase)
  {
    InvReachable(minInterval, maxInFlight, events);
  }

  /** A run that ended, in particular one that left the queue, never changes again: it gets no permit later. */
  lemma NextKeepsEnded(s: System, e: Event, i: nat)
    requires Inv(s) && Enabled(s, e) && i < |s.runs| && s.runs[i].phase.Ended?
    ensures i < |Next(s, e).runs| && Next(s, e).runs[i] == s.runs[i]
  {
    assert s.pool.queue != [] ==> s.pool.queue[0] in s.pool.queue;
  }

  lemma {:induction false} EndedRunsStayEnded(s: System, events: seq<Event>, i: nat)
    requires Inv(s) && IsTrace(s, events) && i < |s.runs| && s.runs[i].phase.Ended?
    ensures i < |After(s, events).runs| && After(s, events).runs[i] == s.runs[i]
    decreases |events|
  {
    if events != [] {
      hide Inv, Next;
      InvNext(s, events[0]);
      NextKeepsEnded(s, events[0], i);
      EndedRunsStayEnded(Next(s, events[0]), events[1..], i);
    }
  }

  /** Once every run has ended the pool is empty. */
  lemma DrainedPoolIsEmpty(minInterval: int, maxInFlight: int, events: seq<Event>)
    requires IsTrace(Initial(minInterval, maxInFlight), events)
    requires var runs := After(Initial(minInterval, maxInFlight), events).runs;
             forall i :: 0 <= i < |runs| ==> runs[i].phase.Ended?
    ensures var s := After(Initial(minInterval, maxInFlight), events);
            s.pool.active == 0 && s.pool.queue == []
  {
    hide IsTrace, After, NotOvertaken, SlotsMatch, RequestsMatch;
    var s := After(Initial(minInterval, maxInFlight), events);
    InvReachable(minInterval, maxInFlight, events);
    HoldersBound(s.runs);
  }

  /** Claimed slots are spaced: the b-th is at least (b - a) intervals after the a-th, whatever the clock did. */
  lemma SlotsAreSpaced(minInterval: int, maxInFlight: int, events: seq<Event>, a: nat, b: nat)
    requires IsTrace(Initial(minInterval, maxInFlight), events)
    requires a <= b < |After(Initial(minInterval, maxInFlight), events).slots|
    ensures var slots := After(Initial(minInterval, maxInFlight), events).slots;
            slots[b] - slots[a] >= (b - a) * minInterval
  {
    InvReachable(minInterval, maxInFlight, events);
    SpacedFrom(After(Initial(minInterval, maxInFlight), events).slots, minInterval, a, b);
  }

  lemma {:induction false} SpacedFrom(slots: seq<int>, interval: int, a: nat, b: nat)
    requires a <= b < |slots|
    requires Spaced(slots, interval)
    ensures slots[b] - slots[a] >= (b - a) * interval
    decreases b
  {
    if a < b {
      SpacedFrom(slots, interval, a, b - 1);
      assert (b - a) * interval == (b - 1 - a) * interval + interval;
      assert slots[b] - slots[b - 1] >= interval;
    }
  }

  /**
   * With a positive interval every request that was sent owns a start slot, and no other run owns
   * the same one. A run whose check refused before the claim, or whose wait ended, owns none.
   */
  lemma StartedRequestsOwnTheirSlot(minInterval: int, maxInFlight: int, events: seq<Event>, i: nat, j: nat)
    requires minInterval > 0 && IsTrace(Initial(minInterval, maxInFlight), events)
    requires var runs := After(Initial(minInterval, maxInFlight), events).runs;
             i < |runs| && j < |runs| && i != j
    ensures var runs := After(Initial(minInterval, maxInFlight), events).runs;
            && (runs[i].sent ==> runs[i].slot.Some? && runs[i].slot != runs[j].slot)
            && (runs[i].phase.Ended? && runs[i].phase.ending !in {RefusedAtLaunch, Completed} ==>
                  runs[i].slot.None? && !runs[i].sent)
  {
    InvReachable(minInterval, maxInFlight, events);
  }

  /** A request starts only in a turn in which its check has just passed, and only while it holds a permit. */
  lemma SendsOnlyAfterThePassingCheck(s: System, e: Event, i: nat)
    requires Inv(s) && Enabled(s, e) && i < |Next(s, e).runs| && Next(s, e).runs[i].sent
    ensures i < |s.runs|
    ensures !s.runs[i].sent ==>
              e.Launch? && e.run == i && Passes(s.runs[i], e.checkPasses) && Holds(s.runs[i].phase)
  {
    hide PermitsMatch, NotOvertaken, SlotsMatch, AdmissionOf, AcquireStep, ReleaseStep, StartOutcome, StartStep;
    assert s.pool.queue != [] ==> s.pool.queue[0] in s.pool.queue;
  }

  /** A context that was never marked as dispatched has sent nothing. */
  lemma UndispatchedSentNothing(minInterval: int, maxInFlight: int, events: seq<Event>, i: nat)
    requires IsTrace(Initial(minInterval, maxInFlight), events)
    requires var s := After(Initial(minInterval, maxInFlight), events);
             i < |s.runs| && s.runs[i].context.Some? && s.runs[i].context.value !in s.dispatched
    ensures !After(Initial(minInterval, maxInFlight), events).runs[i].sent
  {
    InvReachable(minInterval, maxInFlight, events);
  }

  /**
   * A run that sends no request can still use up a slot: its check may refuse in the
   * turn of the send, after the claim. Of the runs that end without sending, exactly those keep one.
   */
  lemma UnsentRunKeepsSlotIffRefusedAtLaunch(minInterval: int, maxInFlight: int, events: seq<Event>, i: nat)
    requires minInterval > 0 && IsTrace(Initial(minInterval, maxInFlight), events)
    requires var runs := After(Initial(minInterval, maxInFlight), events).runs;
             i < |runs| && runs[i].phase.Ended? && !runs[i].sent
    ensures var runs := After(Initial(minInterval, maxInFlight), events).runs;
            runs[i].slot.Some? <==> runs[i].phase.ending == RefusedAtLaunch
  {
    InvReachable(minInterval, maxInFlight, events);
  }

  // ----- What each event does -----

  // When the next slot is free: one interval after the last one claimed.
  function Due(s: System): int {
    if s.slots == [] then 0 else s.slots[|s.slots| - 1] + s.pool.minInterval
  }

  /**
   * An arrival is rejected exactly when it is aborted, gets a permit exactly when one is left, and waits
   * otherwise; nothing else changes.
   */
  lemma ArrivalOutcome(minInterval: int, maxInFlight: int, events: seq<Event>, context: Option<nat>, aborted: bool)
    requires IsTrace(Initial(minInterval, maxInFlight), events) && (aborted ==> context.Some?)
    ensures var s := After(Initial(minInterval, maxInFlight), events);
            var after := Next(s, Arrive(context, aborted));
            var limit := if maxInFlight < 1 then 1 else maxInFlight;
            var phase :=
              if aborted then Ended(RejectedOnArrival) else if Holders(s.runs) < limit then Granted else Queued;
            && after.runs == s.runs + [Request(context, phase, None, false)]
            && after.slots == s.slots && after.dispatched == s.dispatched
  {
    InvReachable(minInterval, maxInFlight, events);
  }

  /**
   * A turn with a free slot claims it now, or refuses when the check does; a turn without one waits for
   * exactly the next slot, which is at most one interval away unless the clock has gone back. Without an
   * interval there are no slots to wait for.
   */
  lemma TurnOutcome(minInterval: int, maxInFlight: int, events: seq<Event>, i: nat, now: int, checkPasses: bool)
    requires IsTrace(Initial(minInterval, maxInFlight), events)
    requires Enabled(After(Initial(minInterval, maxInFlight), events), Turn(i, now, checkPasses))
    ensures var s := After(Initial(minInterval, maxInFlight), events);
            var after := Next(s, Turn(i, now, checkPasses));
            var r := s.runs[i];
            var pass := r.context.None? || checkPasses;
            if 0 < minInterval && now < Due(s) then
              && after == s.(runs := s.runs[i := r.(phase := Delayed)])
              && StartOutcome(s.pool, now, pass) == Delay(Due(s))
              && (s.slots != [] && s.slots[|s.slots| - 1] <= now ==> Due(s) - now <= minInterval)
            else if !pass then after.runs[i] == r.(phase := Ended(RefusedAtStart)) && after.slots == s.slots
            else
              && after.runs
                 == s.runs[i := r.(phase := Ready, slot := if 0 < minInterval then Some(|s.slots|) else r.slot)]
              && after.slots == (if 0 < minInterval then s.slots + [now] else s.slots)
              && after.dispatched == s.dispatched + (if r.context.Some? then {r.context.value} else {})
  {
    hide Holders, QueueMatches, NotOvertaken, RequestsMatch;
    InvReachable(minInterval, maxInFlight, events);
    var s := After(Initial(minInterval, maxInFlight), events);
    if !(0 < minInterval && now < Due(s)) && !(s.runs[i].context.None? || checkPasses) {
      OtherIsWoken(s, i, RefusedAtStart);
    }
  }

  // The first waiter is another run than one that holds a permit.
  lemma OtherIsWoken(s: System, i: nat, ending: Ending)
    requires Inv(s) && i < |s.runs| && Holds(s.runs[i].phase)
    ensures EndRun(s, i, ending).runs[i] == s.runs[i].(phase := Ended(ending))
    ensures EndRun(s, i, ending).slots == s.slots && EndRun(s, i, ending).dispatched == s.dispatched
  {
    assert s.pool.queue != [] ==> s.runs[s.pool.queue[0]].phase.Queued?;
  }

  // The ending an event gives its run, if it ends it.
  function EndingOf(s: System, e: Event): Option<Ending>
    requires Enabled(s, e)
  {
    match e
    case AbortQueued(_) => Some(LeftQueue)
    case AbortDelayed(_) => Some(StoppedWaiting)
    case Launch(i, checkPasses) => if s.runs[i].context.None? || checkPasses then None else Some(RefusedAtLaunch)
    case Finish(_) => Some(Completed)
    case _ => None
  }

  predicate IsFirstWaiting(runs: seq<Request>, i: nat) {
    i < |runs| && runs[i].phase.Queued? && forall j :: 0 <= j < i ==> !runs[j].phase.Queued?
  }

  /** A launch that is not refused sends the request, and marks its call as dispatched. */
  lemma LaunchOutcome(s: System, i: nat, checkPasses: bool)
    requires Inv(s) && Enabled(s, Launch(i, checkPasses)) && (s.runs[i].context.None? || checkPasses)
    ensures Next(s, Launch(i, checkPasses)) ==
            s.(runs := s.runs[i := s.runs[i].(phase := Running, sent := true)],
               dispatched := s.dispatched + if s.runs[i].context.Some? then {s.runs[i].context.value} else {})
  {
    assert s.dispatched + {} == s.dispatched;
  }

  /**
   * When a run that holds a permit ends, the waiting run that arrived first gets the permit, and every other
   * run stays as it is; when a waiting run leaves, nobody gets one.
   */
  lemma EndingOutcome(s: System, e: Event, j: nat)
    requires Inv(s) && Enabled(s, e) && EndingOf(s, e).Some? && j < |s.runs|
    ensures var r, after := s.runs[j], Next(s, e);
            && |after.runs| == |s.runs| && after.slots == s.slots && after.dispatched == s.dispatched
            && after.runs[j] ==
               if j == e.run then r.(phase := Ended(EndingOf(s, e).value))
               else if !e.AbortQueued? && IsFirstWaiting(s.runs, j) then r.(phase := Granted)
               else r
  {
    hide Holders, NotOvertaken, SlotsMatch, RequestsMatch;
    if !e.AbortQueued? {
      FirstWaits(s, j);
    }
  }

  lemma FirstWaits(s: System, j: nat)
    requires QueueMatches(s) && j < |s.runs|
    ensures IsFirstWaiting(s.runs, j) <==> s.pool.queue != [] && s.pool.queue[0] == j
  {
    if s.pool.queue != [] {
      var first := s.pool.queue[0];
      assert s.runs[first].phase.Queued?;
      forall i | i in s.pool.queue
        ensures first <= i
      {
        var k :| 0 <= k < |s.pool.queue| && s.pool.queue[k] == i;
      }
    }
  }

  /** The concrete case: the slot is claimed and the context marked as dispatched, but nothing is sent. */
  lemma ClaimedSlotMayGoUnused()
    ensures var s := Initial(100, 1);
            var events := [Arrive(Some(7), false), Turn(0, 5, true), Launch(0, false)];
            && IsTrace(s, events)
            && var t := After(s, events);
               t.slots == [5] && !t.runs[0].sent && 7 in t.dispatched && t.pool.active == 0
  {
    var s := Initial(100, 1);
    var events := [Arrive(Some(7), false), Turn(0, 5, true), Launch(0, false)];
    var s1 := Next(s, events[0]);
    var s2 := Next(s1, events[1]);
    var s3 := Next(s2, events[2]);
    assert events[1..][1..] == [events[2]];
    assert [events[2]][1..] == [];
    assert IsTrace(s3, []) && After(s3, []) == s3;
    assert IsTrace(s2, [events[2]]) && After(s2, [events[2]]) == s3;
    assert IsTrace(s1, events[1..]) && After(s1, events[1..]) == s3;
  }

  // ----- Progress -----

  function Unfinished(runs: seq<Request>): nat {
    if runs == [] then 0
    else Unfinished(runs[..|runs| - 1]) + (if runs[|runs| - 1].phase.Ended? then 0 else 1)
  }

  lemma {:induction false} UnfinishedUpdate(runs: seq<Request>, i: nat, r: Request)
    requires i < |runs|
    ensures Unfinished(runs[i := r]) ==
            Unfinished(runs) - (if runs[i].phase.Ended? then 0 else 1) + (if r.phase.Ended? then 0 else 1)
  {
    var last := |runs| - 1;
    if i == last {
      assert runs[i := r][..last] == runs[..last];
    } else {
      UnfinishedUpdate(runs[..last], i, r);
      assert runs[i := r][..last] == runs[..last][i := r];
    }
  }

  lemma {:induction false} UnfinishedZero(runs: seq<Request>)
    ensures Unfinished(runs) == 0 <==> forall i :: 0 <= i < |runs| ==> runs[i].phase.Ended?
  {
    if runs != [] {
      var last := |runs| - 1;
      UnfinishedZero(runs[..last]);
      assert forall i :: 0 <= i < last ==> runs[..last][i] == runs[i];
    }
  }

  // The rest of the life of a run that holds a permit, when nothing stops it.
  function Remainder(s: System, i: nat): seq<Event>
    requires i < |s.runs|
  {
    match s.runs[i].phase
    case Running => [Finish(i)]
    case Ready => [Launch(i, true), Finish(i)]
    case _ => [Turn(i, s.pool.nextStartAt, true), Launch(i, true), Finish(i)]
  }

  lemma HolderCanFinish(s: System, i: nat)
    requires Inv(s) && i < |s.runs| && Holds(s.runs[i].phase)
    ensures IsTrace(s, Remainder(s, i))
    ensures Inv(After(s, Remainder(s, i)))
    ensures Unfinished(After(s, Remainder(s, i)).runs) == Unfinished(s.runs) - 1
    decreases |Remainder(s, i)|
  {
    hide Inv, Unfinished;
    if s.runs[i].phase.Running? {
      HolderFinishes(s, i);
    } else {
      var events := Remainder(s, i);
      var t := Next(s, events[0]);
      InvNext(s, events[0]);
      UnfinishedUpdate(s.runs, i, t.runs[i]);
      assert events[1..] == Remainder(t, i);
      HolderCanFinish(t, i);
    }
  }

  lemma HolderFinishes(s: System, i: nat)
    requires Inv(s) && i < |s.runs| && s.runs[i].phase.Running?
    ensures IsTrace(s, [Finish(i)])
    ensures Inv(After(s, [Finish(i)]))
    ensures Unfinished(After(s, [Finish(i)]).runs) == Unfinished(s.runs) - 1
  {
    InvNext(s, Finish(i));
    var ended := s.runs[i := s.runs[i].(phase := Ended(Completed))];
    UnfinishedUpdate(s.runs, i, ended[i]);
    if s.pool.queue != [] {
      assert s.pool.queue[0] in s.pool.queue;
      UnfinishedUpdate(ended, s.pool.queue[0], Next(s, Finish(i)).runs[s.pool.queue[0]]);
    }
    assert [Finish(i)][1..] == [];
  }

  lemma {:induction false} TracesCompose(s: System, first: seq<Event>, second: seq<Event>)
    requires IsTrace(s, first) && IsTrace(After(s, first), second)
    ensures IsTrace(s, first + second) && After(s, first + second) == After(After(s, first), second)
    decreases |first|
  {
    hide Enabled, Next;
    if first == [] {
      assert first + second == second;
    } else {
      TracesCompose(Next(s, first[0]), first[1..], second);
      assert (first + second)[1..] == first[1..] + second;
    }
  }

  /**
   * No permit is ever lost: from every reachable state there is a continuation that ends every run,
   * waiting ones included, and leaves the pool empty.
   */
  lemma {:induction false} EveryRunCanEnd(s: System) returns (events: seq<Event>)
    requires Inv(s)
    ensures IsTrace(s, events)
    ensures forall i :: 0 <= i < |After(s, events).runs| ==> After(s, events).runs[i].phase.Ended?
    ensures After(s, events).pool.active == 0 && After(s, events).pool.queue == []
    decreases Unfinished(s.runs)
  {
    UnfinishedZero(s.runs);
    HoldersBound(s.runs);
    if i :| 0 <= i < |s.runs| && Holds(s.runs[i].phase) {
      HolderCanFinish(s, i);
      var rest := EveryRunCanEnd(After(s, Remainder(s, i)));
      TracesCompose(s, Remainder(s, i), rest);
      events := Remainder(s, i) + rest;
    } else {
      assert s.pool.active == 0 && s.pool.queue == [];
      events := [];
    }
  }
}
