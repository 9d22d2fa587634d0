/**
 * The one deadline of a command: a budget on a monotonic clock that stops while a person answers
 * a prompt. `Deadline` is the object's state as a value, the `...Step` functions are its
 * operations, and class `CommandDeadline` performs them in place. The simple thing the operations
 * must agree with is `Unpaused`: the clock instants since the start that no pause covers.
 *
 * Clock readings are whole nanoseconds. An operation that reads the clock twice takes both readings.
 */
module CommandDeadlines {
  import opened Wrappers

  const TICKS_PER_MS: nat := 1_000_000
  const SUBMIT_ADMISSION_RESERVE: nat := 2000 * TICKS_PER_MS

  datatype TimeLeft = Unlimited | Left(ticks: nat)

  datatype Timer = Cleared | Armed(at: int, delay: TimeLeft)

  // resumed[h] is the flag captured by the closure that the h-th pause returned. A pause that has
  // no effect returns a closure that has none, which is one whose flag is set from the start.
  datatype Deadline = Deadline(
    limited: bool,
    budget: int,
    since: int,
    pauses: int,
    timer: Timer,
    disposed: bool,
    aborted: bool,
    resumed: seq<bool>
  )

  function NotBelowZero(x: int): nat { if x < 0 then 0 else x }

  function Remaining(d: Deadline, now: int): TimeLeft {
    if !d.limited then Unlimited
    else if d.aborted then Left(0)
    else Left(NotBelowZero(if d.pauses > 0 then d.budget else d.budget - (now - d.since)))
  }

  function ExpireStep(d: Deadline): Deadline {
    d.(timer := Cleared, aborted := true)
  }

  function ExpiredStep(d: Deadline, now: int): Deadline {
    if d.limited && !d.aborted && Remaining(d, now) == Left(0) then ExpireStep(d) else d
  }

  // What expired() answers.
  predicate Expired(d: Deadline, now: int) {
    d.limited && ExpiredStep(d, now).aborted
  }

  function ArmStep(d: Deadline, now: int): Deadline {
    var cleared := d.(timer := Cleared);
    if d.disposed then cleared
    else if Remaining(d, now) == Left(0) then ExpireStep(cleared)
    else cleared.(timer := Armed(now, Remaining(d, now)))
  }

  function CreateStep(limit: int, startedAt: int, now: int): Deadline {
    var d := Deadline(limit > 0, limit, startedAt, 0, Cleared, false, false, []);
    if d.limited then ArmStep(d, now) else d
  }

  function PauseStep(d: Deadline, now: int, again: int): Deadline {
    if !d.limited || Expired(d, now) then ExpiredStep(d, now).(resumed := d.resumed + [true])
    else
      var stopped := if d.pauses == 0 then
                       d.(budget := NotBelowZero(d.budget - (again - d.since)), timer := Cleared)
                     else d;
      stopped.(pauses := d.pauses + 1, resumed := d.resumed + [false])
  }

  function ResumeStep(d: Deadline, handle: nat, now: int, again: int): Deadline
    requires handle < |d.resumed|
  {
    if d.resumed[handle] then d
    else
      var counted := d.(resumed := d.resumed[handle := true], pauses := d.pauses - 1);
      if counted.pauses > 0 || d.aborted then counted
      else ArmStep(counted.(since := now), again)
  }

  function ReleaseStep(d: Deadline, now: int): Deadline {
    if Expired(d, now) then ExpiredStep(d, now)
    else d.(limited := false, timer := Cleared)
  }

  function DisposeStep(d: Deadline): Deadline {
    d.(disposed := true, timer := Cleared)
  }

  /** The object, updated in place. `clock` readings are passed in by the caller. */
  class CommandDeadline {
    var limited: bool
    var budget: int
    var since: int
    var pauses: int
    var timer: Timer
    var disposed: bool
    var aborted: bool
    var resumed: seq<bool>

    function State(): Deadline
      reads this
    {
      Deadline(limited, budget, since, pauses, timer, disposed, aborted, resumed)
    }

    constructor (limit: int, startedAt: int, now: int)
      ensures State() == CreateStep(limit, startedAt, now)
    {
      limited := limit > 0;
      budget := limit;
      since := startedAt;
      pauses := 0;
      timer := Cleared;
      disposed := false;
      aborted := false;
      resumed := [];
      new;
      if limited {
        Arm(now);
      }
    }

    method RemainingTime(now: int) returns (left: TimeLeft)
      ensures left == Remaining(State(), now)
    {
      if !limited { return Unlimited; }
      if aborted { return Left(0); }
      var ticks := if pauses > 0 then budget else budget - (now - since);
      left := Left(if 0 < ticks then ticks else 0);
    }

    method Expire()
      modifies this
      ensures State() == ExpireStep(old(State()))
    {
      timer := Cleared;
      aborted := true;
    }

    method IsExpired(now: int) returns (expired: bool)
      modifies this
      ensures State() == ExpiredStep(old(State()), now)
      ensures expired <==> Expired(old(State()), now)
    {
      if !limited { return false; }
      if !aborted {
        var left := RemainingTime(now);
        if left == Left(0) {
          Expire();
        }
      }
      expired := aborted;
    }

    method Arm(now: int)
      modifies this
      ensures State() == ArmStep(old(State()), now)
    {
      timer := Cleared;
      if disposed { return; }
      var left := RemainingTime(now);
      if left == Left(0) {
        Expire();
        return;
      }
      timer := Armed(now, left);
    }

    method Pause(now: int, again: int) returns (handle: nat)
      modifies this
      ensures State() == PauseStep(old(State()), now, again)
      ensures handle == |old(resumed)|
    {
      handle := |resumed|;
      var expired := IsExpired(now);
      if !limited || expired {
        resumed := resumed + [true];
        return;
      }
      if pauses == 0 {
        var left := RemainingTime(again);
        budget := left.ticks;
        timer := Cleared;
      }
      pauses := pauses + 1;
      resumed := resumed + [false];
    }

    method Resume(handle: nat, now: int, again: int)
      requires handle < |resumed|
      modifies this
      ensures State() == ResumeStep(old(State()), handle, now, again)
    {
      if resumed[handle] { return; }
      resumed := resumed[handle := true];
      pauses := pauses - 1;
      if pauses > 0 || aborted { return; }
      since := now;
      Arm(again);
    }

    method Release(now: int)
      modifies this
      ensures State() == ReleaseStep(old(State()), now)
    {
      var expired := IsExpired(now);
      if expired { return; }
      limited := false;
      timer := Cleared;
    }

    method Dispose()
      modifies this
      ensures State() == DisposeStep(old(State()))
    {
      disposed := true;
      timer := Cleared;
    }

    // assertSubmitAdmitted: assertActive() and then the reserve, each with its own clock reading.
    method AdmitSubmit(now: int, again: int) returns (admitted: bool)
      modifies this
      ensures State() == ExpiredStep(old(State()), now)
      ensures admitted <==> SubmitAdmitted(old(State()), now, again)
    {
      var expired := IsExpired(now);
      if expired { return false; }
      var left := RemainingTime(again);
      admitted := left.Unlimited? || left.ticks >= SUBMIT_ADMISSION_RESERVE;
    }
  }

  predicate SubmitAdmitted(d: Deadline, now: int, again: int) {
    && !Expired(d, now)
    && var left := Remaining(ExpiredStep(d, now), again);
       left.Unlimited? || left.ticks >= SUBMIT_ADMISSION_RESERVE
  }

  // ----- Runs: any interleaving of calls, resumes and timer firings -----

  datatype Event =
    | Query(now: int)
    | Pause(now: int, again: int)
    | Resume(handle: nat, now: int, again: int)
    | Release(now: int)
    | Dispose(now: int)
    | TimerFires(now: int)

  // The last clock reading of an event.
  function EventEnd(e: Event): int {
    match e
    case Pause(_, again) => again
    case Resume(_, _, again) => again
    case _ => e.now
  }

  predicate Enabled(d: Deadline, e: Event) {
    match e
    case Pause(now, again) => now <= again
    case Resume(handle, now, again) => handle < |d.resumed| && now <= again
    case TimerFires(_) => d.timer.Armed?
    case _ => true
  }

  function Step(d: Deadline, e: Event): Deadline
    requires Enabled(d, e)
  {
    match e
    case Query(now) => ExpiredStep(d, now)
    case Pause(now, again) => PauseStep(d, now, again)
    case Resume(handle, now, again) => ResumeStep(d, handle, now, again)
    case Release(now) => ReleaseStep(d, now)
    case Dispose(_) => DisposeStep(d)
    case TimerFires(now) => ArmStep(d, now)
  }

  // The clock never goes backwards and only enabled events happen. A timer may fire at any time
  // while it is armed, early or late.
  predicate IsTrace(d: Deadline, now: int, events: seq<Event>)
    decreases |events|
  {
    events == [] ||
    (&& Enabled(d, events[0])
     && now <= events[0].now
     && IsTrace(Step(d, events[0]), EventEnd(events[0]), events[1..]))
  }

  function Run(d: Deadline, now: int, events: seq<Event>): Deadline
    requires IsTrace(d, now, events)
    decreases |events|
  {
    if events == [] then d else Run(Step(d, events[0]), EventEnd(events[0]), events[1..])
  }

  function EndOf(now: int, events: seq<Event>): int
    decreases |events|
  {
    if events == [] then now else EndOf(EventEnd(events[0]), events[1..])
  }

  predicate Releases(events: seq<Event>) {
    exists i :: 0 <= i < |events| && events[i].Release?
  }

  // ----- The reference: time outside the union of the pauses -----

  datatype Span = Span(from: int, to: Option<int>)

  function SpansAfter(spans: seq<Span>, e: Event): seq<Span> {
    match e
    case Pause(_, again) => spans + [Span(again, None)]
    case Resume(handle, now, _) =>
      if handle < |spans| && spans[handle].to.None? then spans[handle := Span(spans[handle].from, Some(now))]
      else spans
    case _ => spans
  }

  function Spans(spans: seq<Span>, events: seq<Event>): seq<Span>
    decreases |events|
  {
    if events == [] then spans else Spans(SpansAfter(spans, events[0]), events[1..])
  }

  predicate Covers(span: Span, instant: int) {
    span.from <= instant && (span.to.None? || instant < span.to.value)
  }

  predicate ClockRuns(spans: seq<Span>, instant: int) {
    forall i :: 0 <= i < |spans| ==> !Covers(spans[i], instant)
  }

  function RunningInstants(spans: seq<Span>, start: int, now: int): set<int> {
    set k | start <= k < now && ClockRuns(spans, k)
  }

  // Time from start to now outside every pause, however the pauses overlap.
  function Unpaused(spans: seq<Span>, start: int, now: int): nat {
    |RunningInstants(spans, start, now)|
  }

  predicate AllClosed(spans: seq<Span>) {
    forall i :: 0 <= i < |spans| ==> spans[i].to.Some?
  }

  predicate Past(spans: seq<Span>, now: int) {
    forall i :: 0 <= i < |spans| ==> spans[i].from <= now && (spans[i].to.Some? ==> spans[i].to.value <= now)
  }

  lemma {:induction false} UnpausedAdvances(spans: seq<Span>, start: int, now: int, later: int)
    requires start <= now <= later && Past(spans, now)
    ensures Unpaused(spans, start, later) == Unpaused(spans, start, now) + (if AllClosed(spans) then later - now else 0)
    decreases later - now
  {
    if now < later {
      UnpausedAdvances(spans, start, now, later - 1);
      var before := RunningInstants(spans, start, later - 1);
      if AllClosed(spans) {
        assert ClockRuns(spans, later - 1);
        assert RunningInstants(spans, start, later) == before + {later - 1};
      } else {
        var i :| 0 <= i < |spans| && spans[i].to.None?;
        assert Covers(spans[i], later - 1);
        assert RunningInstants(spans, start, later) == before;
      }
    }
  }

  // Opening or closing a pause at an instant changes nothing before that instant.
  lemma SpansKeepThePast(spans: seq<Span>, e: Event, start: int, now: int)
    requires Past(spans, now)
    requires (e.Pause? ==> e.again == now) && (e.Resume? ==> e.now == now)
    ensures Past(SpansAfter(spans, e), now)
    ensures Unpaused(SpansAfter(spans, e), start, now) == Unpaused(spans, start, now)
  {
    var after := SpansAfter(spans, e);
    forall k | start <= k < now
      ensures ClockRuns(after, k) <==> ClockRuns(spans, k)
    {
      if e.Pause? {
        assert !Covers(after[|spans|], k);
        assert forall i :: 0 <= i < |spans| ==> after[i] == spans[i];
      } else if after != spans {
        assert Covers(after[e.handle], k) <==> Covers(spans[e.handle], k);
        assert forall i :: 0 <= i < |spans| && i != e.handle ==> after[i] == spans[i];
      }
    }
    assert RunningInstants(after, start, now) == RunningInstants(spans, start, now);
  }

  // Equal, except that once the budget is spent the exact overdraft no longer matters.
  predicate SameBudget(a: int, b: int) {
    a == b || (a <= 0 && b <= 0)
  }

  function Open(resumed: seq<bool>): nat {
    if resumed == [] then 0 else Open(resumed[..|resumed| - 1]) + (if resumed[|resumed| - 1] then 0 else 1)
  }

  lemma {:induction false} OpenUpdate(resumed: seq<bool>, h: nat)
    requires h < |resumed| && !resumed[h]
    ensures Open(resumed[h := true]) == Open(resumed) - 1
  {
    var last := |resumed| - 1;
    if h == last {
      assert resumed[h := true][..last] == resumed[..last];
    } else {
      OpenUpdate(resumed[..last], h);
      assert resumed[h := true][..last] == resumed[..last][h := true];
    }
  }

  lemma {:induction false} OpenIsZero(resumed: seq<bool>)
    ensures Open(resumed) == 0 <==> forall h :: 0 <= h < |resumed| ==> resumed[h]
  {
    if resumed != [] {
      OpenIsZero(resumed[..|resumed| - 1]);
      assert forall h :: 0 <= h < |resumed| - 1 ==> resumed[..|resumed| - 1][h] == resumed[h];
    }
  }

  // What holds of a limited, unreleased deadline after every event.
  predicate Inv(d: Deadline, spans: seq<Span>, limit: int, start: int, now: int) {
    && d.limited
    && start <= now && d.since <= now
    && |d.resumed| == |spans|
    && Past(spans, now)
    && var owed := limit - Unpaused(spans, start, now);
       if d.aborted then d.timer.Cleared? && owed <= 0
       else
         && (forall h :: 0 <= h < |spans| ==> (d.resumed[h] <==> spans[h].to.Some?))
         && d.pauses == Open(d.resumed)
         && SameBudget(if d.pauses == 0 then d.budget - (now - d.since) else d.budget, owed)
         && (d.timer.Armed? <==> d.pauses == 0 && !d.disposed)
         && (d.timer.Armed? ==> d.timer.delay.Left? && d.timer.at + d.timer.delay.ticks == d.since + d.budget)
  }

  lemma OpenMeansUncovered(d: Deadline, spans: seq<Span>, limit: int, start: int, now: int)
    requires Inv(d, spans, limit, start, now) && !d.aborted
    ensures d.pauses == 0 <==> AllClosed(spans)
  {
    OpenIsZero(d.resumed);
  }

  lemma InvAdvances(d: Deadline, spans: seq<Span>, limit: int, start: int, now: int, later: int)
    requires Inv(d, spans, limit, start, now) && now <= later
    ensures Inv(d, spans, limit, start, later)
    ensures Remaining(d, later) == Left(NotBelowZero(limit - Unpaused(spans, start, later)))
    ensures Inv(ExpiredStep(d, later), spans, limit, start, later)
  {
    UnpausedAdvances(spans, start, now, later);
    if !d.aborted {
      OpenMeansUncovered(d, spans, limit, start, now);
    }
  }

  lemma InvPause(d: Deadline, spans: seq<Span>, limit: int, start: int, now: int, e: Event)
    requires Inv(d, spans, limit, start, now) && e.Pause? && Enabled(d, e) && now <= e.now
    ensures Inv(Step(d, e), SpansAfter(spans, e), limit, start, e.again)
  {
    InvAdvances(d, spans, limit, start, now, e.now);
    InvAdvances(ExpiredStep(d, e.now), spans, limit, start, e.now, e.again);
    SpansKeepThePast(spans, e, start, e.again);
    var after := Step(d, e);
    assert after.resumed[..|d.resumed|] == d.resumed;
  }

  lemma InvResume(d: Deadline, spans: seq<Span>, limit: int, start: int, now: int, e: Event)
    requires Inv(d, spans, limit, start, now) && e.Resume? && Enabled(d, e) && now <= e.now
    ensures Inv(Step(d, e), SpansAfter(spans, e), limit, start, e.again)
  {
    hide Open, Unpaused, AllClosed;
    var after := SpansAfter(spans, e);
    InvAdvances(d, spans, limit, start, now, e.now);
    SpansKeepThePast(spans, e, start, e.now);
    UnpausedAdvances(after, start, e.now, e.again);
    if !d.aborted {
      OpenMeansUncovered(d, spans, limit, start, now);
      if !d.resumed[e.handle] {
        ClosingMatches(d.resumed, spans, e.handle, e.now);
      }
    }
  }

  lemma ClosingMatches(resumed: seq<bool>, spans: seq<Span>, h: nat, now: int)
    requires |resumed| == |spans| && h < |spans| && !resumed[h]
    requires forall k :: 0 <= k < |spans| ==> (resumed[k] <==> spans[k].to.Some?)
    ensures var closed, after := resumed[h := true], spans[h := Span(spans[h].from, Some(now))];
            && (forall k :: 0 <= k < |spans| ==> (closed[k] <==> after[k].to.Some?))
            && Open(closed) == Open(resumed) - 1
            && (Open(closed) == 0 <==> AllClosed(after))
  {
    OpenUpdate(resumed, h);
    OpenIsZero(resumed[h := true]);
  }

  lemma InvStep(d: Deadline, spans: seq<Span>, limit: int, start: int, now: int, e: Event)
    requires Inv(d, spans, limit, start, now) && Enabled(d, e) && now <= e.now && !e.Release?
    ensures Inv(Step(d, e), SpansAfter(spans, e), limit, start, EventEnd(e))
  {
    match e
    case Pause(_, _) => InvPause(d, spans, limit, start, now, e);
    case Resume(_, _, _) => InvResume(d, spans, limit, start, now, e);
    case Query(later) => InvAdvances(d, spans, limit, start, now, later);
    case Dispose(later) => InvAdvances(d, spans, limit, start, now, later);
    case TimerFires(later) => InvAdvances(d, spans, limit, start, now, later);
  }

  lemma {:induction false} InvRun(d: Deadline, spans: seq<Span>, limit: int, start: int, now: int, events: seq<Event>)
    requires Inv(d, spans, limit, start, now) && IsTrace(d, now, events) && !Releases(events)
    ensures Inv(Run(d, now, events), Spans(spans, events), limit, start, EndOf(now, events))
    decreases |events|
  {
    if events != [] {
      assert !events[0].Release?;
      assert forall i :: 0 <= i < |events[1..]| ==> events[1..][i] == events[i + 1];
      InvStep(d, spans, limit, start, now, events[0]);
      InvRun(Step(d, events[0]), SpansAfter(spans, events[0]), limit, start, EventEnd(events[0]), events[1..]);
    }
  }

  lemma InvCreate(limit: int, startedAt: int, now: int)
    requires 0 < limit && startedAt <= now
    ensures Inv(CreateStep(limit, startedAt, now), [], limit, startedAt, now)
  {
    UnpausedAdvances([], startedAt, startedAt, now);
    assert RunningInstants([], startedAt, startedAt) == {};
  }

  /**
   * On every trace without a release, a limited deadline reports exactly the limit minus the time
   * outside the union of the pauses, is expired exactly when that time has reached the limit, and
   * its signal is never aborted earlier than that.
   */
  lemma ReportsLimitMinusUnpausedTime(limit: int, startedAt: int, created: int, events: seq<Event>, now: int)
    requires 0 < limit && startedAt <= created
    requires IsTrace(CreateStep(limit, startedAt, created), created, events) && !Releases(events)
    requires EndOf(created, events) <= now
    ensures var d := Run(CreateStep(limit, startedAt, created), created, events);
            var unpaused := Unpaused(Spans([], events), startedAt, now);
            && Remaining(d, now) == Left(NotBelowZero(limit - unpaused))
            && (Expired(d, now) <==> limit <= unpaused)
            && (d.aborted ==> limit <= unpaused)
  {
    InvCreate(limit, startedAt, created);
    InvRun(CreateStep(limit, startedAt, created), [], limit, startedAt, created, events);
    InvAdvances(Run(CreateStep(limit, startedAt, created), created, events), Spans([], events), limit, startedAt,
                EndOf(created, events), now);
  }

  /** A submit is let through exactly when at least two seconds are left at the later reading. */
  lemma SubmitAdmittedIffReserveIsLeft(
    limit: int, startedAt: int, created: int, events: seq<Event>, now: int, again: int)
    requires 0 < limit && startedAt <= created
    requires IsTrace(CreateStep(limit, startedAt, created), created, events) && !Releases(events)
    requires EndOf(created, events) <= now <= again
    ensures SubmitAdmitted(Run(CreateStep(limit, startedAt, created), created, events), now, again)
            <==> Unpaused(Spans([], events), startedAt, again) + 2_000_000_000 <= limit
  {
    var d := Run(CreateStep(limit, startedAt, created), created, events);
    var spans := Spans([], events);
    ReportsLimitMinusUnpausedTime(limit, startedAt, created, events, now);
    InvCreate(limit, startedAt, created);
    InvRun(CreateStep(limit, startedAt, created), [], limit, startedAt, created, events);
    InvAdvances(d, spans, limit, startedAt, EndOf(created, events), now);
    InvAdvances(ExpiredStep(d, now), spans, limit, startedAt, now, again);
    UnpausedAdvances(spans, startedAt, now, again);
  }

  /**
   * The timer is set exactly while the clock runs on a live, undisposed deadline. When it fires the signal
   * aborts exactly if the limit is used up, which it is when the timer is not early; otherwise it is set again
   * for what is left.
   */
  lemma TimerCoversTheDeadline(limit: int, startedAt: int, created: int, events: seq<Event>, now: int)
    requires 0 < limit && startedAt <= created
    requires IsTrace(CreateStep(limit, startedAt, created), created, events) && !Releases(events)
    requires EndOf(created, events) <= now
    ensures var d := Run(CreateStep(limit, startedAt, created), created, events);
            && (d.timer.Armed? <==> !d.aborted && !d.disposed && AllClosed(Spans([], events)))
            && (d.timer.Armed? ==> d.timer.delay.Left?)
            && (d.timer.Armed? ==>
                  var fired, unpaused := Step(d, TimerFires(now)), Unpaused(Spans([], events), startedAt, now);
                  && (fired.aborted <==> limit <= unpaused)
                  && (!fired.aborted ==> fired == d.(timer := Armed(now, Left(limit - unpaused))))
                  && (d.timer.at + d.timer.delay.ticks <= now ==> fired.aborted))
  {
    ReportsLimitMinusUnpausedTime(limit, startedAt, created, events, now);
    var d := Run(CreateStep(limit, startedAt, created), created, events);
    InvCreate(limit, startedAt, created);
    InvRun(CreateStep(limit, startedAt, created), [], limit, startedAt, created, events);
    if !d.aborted {
      OpenMeansUncovered(d, Spans([], events), limit, startedAt, EndOf(created, events));
    }
  }

  /** After dispose() no timer is set again, whatever follows; the answers still follow the clock. */
  lemma {:induction false} DisposedSetsNoTimer(d: Deadline, at: int, now: int, events: seq<Event>)
    requires IsTrace(Step(d, Dispose(at)), now, events)
    ensures var after := Run(Step(d, Dispose(at)), now, events); after.disposed && after.timer.Cleared?
    ensures forall later :: Expired(Step(d, Dispose(at)), later) <==> Expired(d, later)
    ensures forall later :: Remaining(Step(d, Dispose(at)), later) == Remaining(d, later)
  {
    DisposedStays(Step(d, Dispose(at)), now, events);
  }

  lemma {:induction false} DisposedStays(d: Deadline, now: int, events: seq<Event>)
    requires d.disposed && d.timer.Cleared? && IsTrace(d, now, events)
    ensures var after := Run(d, now, events); after.disposed && after.timer.Cleared?
    decreases |events|
  {
    if events != [] {
      DisposedStays(Step(d, events[0]), EventEnd(events[0]), events[1..]);
    }
  }

  /** Expiry is permanent: whatever follows, an aborted deadline stays limited, aborted and spent. */
  lemma {:induction false} ExpiryIsPermanent(d: Deadline, now: int, events: seq<Event>, later: int)
    requires d.limited && d.aborted && IsTrace(d, now, events)
    ensures var after := Run(d, now, events);
            after.limited && after.aborted && Expired(after, later) && Remaining(after, later) == Left(0)
    decreases |events|
  {
    if events != [] {
      ExpiryIsPermanent(Step(d, events[0]), EventEnd(events[0]), events[1..], later);
    }
  }

  lemma {:induction false} OnlyLimitedAborts(d: Deadline, now: int, events: seq<Event>)
    requires (d.aborted ==> d.limited) && IsTrace(d, now, events)
    ensures Run(d, now, events).aborted ==> Run(d, now, events).limited
    decreases |events|
  {
    if events != [] {
      OnlyLimitedAborts(Step(d, events[0]), EventEnd(events[0]), events[1..]);
    }
  }

  /** Work that the signal has ended is told apart by the deadline: on every trace it then answers expired. */
  lemma AbortedIsExpired(limit: int, startedAt: int, created: int, events: seq<Event>, later: int)
    requires IsTrace(CreateStep(limit, startedAt, created), created, events)
    ensures var d := Run(CreateStep(limit, startedAt, created), created, events); d.aborted ==> Expired(d, later)
  {
    OnlyLimitedAborts(CreateStep(limit, startedAt, created), created, events);
  }

  /** A deadline released before expiry never aborts again and reports no limit. */
  lemma {:induction false} ReleasedNeverAborts(d: Deadline, at: int, events: seq<Event>, later: int)
    requires d.limited && !Expired(d, at) && IsTrace(ReleaseStep(d, at), at, events)
    ensures var after := Run(ReleaseStep(d, at), at, events);
            !after.limited && !after.aborted && !Expired(after, later) && Remaining(after, later) == Unlimited
  {
    UnlimitedRun(ReleaseStep(d, at), at, events);
  }

  lemma {:induction false} UnlimitedRun(d: Deadline, now: int, events: seq<Event>)
    requires !d.limited && !d.aborted && IsTrace(d, now, events)
    ensures !Run(d, now, events).limited && !Run(d, now, events).aborted
    decreases |events|
  {
    if events != [] {
      UnlimitedRun(Step(d, events[0]), EventEnd(events[0]), events[1..]);
    }
  }

  /** A deadline with no limit is never aborted, never expired, and never sets a timer. */
  lemma NoLimitNeverAborts(limit: int, startedAt: int, created: int, events: seq<Event>, now: int)
    requires limit <= 0 && IsTrace(CreateStep(limit, startedAt, created), created, events)
    ensures var d := Run(CreateStep(limit, startedAt, created), created, events);
            !d.aborted && !Expired(d, now) && Remaining(d, now) == Unlimited && d.timer.Cleared?
  {
    NoPauseNoTimer(CreateStep(limit, startedAt, created), created, events);
  }

  lemma {:induction false} NoPauseNoTimer(d: Deadline, now: int, events: seq<Event>)
    requires !d.limited && !d.aborted && d.timer.Cleared? && IsTrace(d, now, events)
    requires forall h :: 0 <= h < |d.resumed| ==> d.resumed[h]
    ensures var after := Run(d, now, events);
            !after.limited && !after.aborted && after.timer.Cleared?
    decreases |events|
  {
    if events != [] {
      NoPauseNoTimer(Step(d, events[0]), EventEnd(events[0]), events[1..]);
    }
  }

  lemma {:induction false} RunAppend(d: Deadline, now: int, before: seq<Event>, later: seq<Event>)
    requires IsTrace(d, now, before + later)
    ensures IsTrace(d, now, before) && IsTrace(Run(d, now, before), EndOf(now, before), later)
    ensures Run(d, now, before + later) == Run(Run(d, now, before), EndOf(now, before), later)
    decreases |before|
  {
    hide Step;
    if before == [] {
      assert before + later == later;
    } else {
      assert (before + later)[1..] == before[1..] + later;
      RunAppend(Step(d, before[0]), EventEnd(before[0]), before[1..], later);
    }
  }

  /** Without a limit every submit is let through, whatever happened and whatever the clock reads. */
  lemma NoLimitAdmits(limit: int, startedAt: int, created: int, events: seq<Event>, now: int, again: int)
    requires limit <= 0 && IsTrace(CreateStep(limit, startedAt, created), created, events)
    ensures SubmitAdmitted(Run(CreateStep(limit, startedAt, created), created, events), now, again)
  {
    NoLimitNeverAborts(limit, startedAt, created, events, now);
  }

  /**
   * From the first release on, every submit is let through when some of the limit was left at the release,
   * and none ever is when the limit had been used up; whatever follows and whatever the clock reads. Before
   * it, and without one, the reserve decides.
   */
  lemma ReleaseDecidesAdmission(
    limit: int, startedAt: int, created: int, before: seq<Event>, at: int, later: seq<Event>, now: int, again: int)
    requires 0 < limit && startedAt <= created && !Releases(before)
    requires IsTrace(CreateStep(limit, startedAt, created), created, before + ([Release(at)] + later))
    ensures IsTrace(CreateStep(limit, startedAt, created), created, before)
    ensures SubmitAdmitted(Run(CreateStep(limit, startedAt, created), created, before + ([Release(at)] + later)),
                           now, again)
            <==> Unpaused(Spans([], before), startedAt, at) < limit
  {
    hide Step, SubmitAdmitted, CreateStep, Unpaused, Spans, Expired;
    var d0 := CreateStep(limit, startedAt, created);
    RunAppend(d0, created, before, [Release(at)] + later);
    var d := Run(d0, created, before);
    assert ([Release(at)] + later)[1..] == later;
    ReportsLimitMinusUnpausedTime(limit, startedAt, created, before, at);
    LimitedUntilRelease(limit, startedAt, created, before);
    AdmissionAfterRelease(d, at, later, now, again);
  }

  lemma LimitedUntilRelease(limit: int, startedAt: int, created: int, events: seq<Event>)
    requires 0 < limit && startedAt <= created
    requires IsTrace(CreateStep(limit, startedAt, created), created, events) && !Releases(events)
    ensures Run(CreateStep(limit, startedAt, created), created, events).limited
  {
    InvCreate(limit, startedAt, created);
    InvRun(CreateStep(limit, startedAt, created), [], limit, startedAt, created, events);
  }

  lemma AdmissionAfterRelease(d: Deadline, at: int, later: seq<Event>, now: int, again: int)
    requires d.limited && IsTrace(Step(d, Release(at)), at, later)
    ensures SubmitAdmitted(Run(Step(d, Release(at)), at, later), now, again) <==> !Expired(d, at)
  {
    if Expired(d, at) {
      ExpiryIsPermanent(Step(d, Release(at)), at, later, now);
    } else {
      ReleasedNeverAborts(d, at, later, now);
    }
  }

  /**
   * Releasing clears the timer, but not for good: if a pause was open at the release, the resume
   * that ends the last one sets a timer again, with no finite delay, and it re-arms itself for ever
   * until dispose() or another release(). Exactly then does a released deadline hold a timer.
   */
  lemma {:induction false} ReleasedTimer(d: Deadline, now: int, events: seq<Event>)
    requires !d.limited && !d.aborted && d.timer.Cleared?
    requires d.pauses == Open(d.resumed)
    requires IsTrace(d, now, events) && !Releases(events)
    ensures var after := Run(d, now, events);
            && (after.timer.Armed? <==> d.pauses > 0 && after.pauses == 0 && !after.disposed)
            && (after.timer.Armed? ==> after.timer.delay == Unlimited)
  {
    ReleasedTimerFrom(d, d.pauses, now, events);
  }

  lemma {:induction false} ReleasedTimerFrom(d: Deadline, atRelease: int, now: int, events: seq<Event>)
    requires !d.limited && !d.aborted && d.pauses == Open(d.resumed) && d.pauses <= atRelease
    requires d.timer.Armed? <==> atRelease > 0 && d.pauses == 0 && !d.disposed
    requires d.timer.Armed? ==> d.timer.delay == Unlimited
    requires IsTrace(d, now, events) && !Releases(events)
    ensures var after := Run(d, now, events);
            && (after.timer.Armed? <==> atRelease > 0 && after.pauses == 0 && !after.disposed)
            && (after.timer.Armed? ==> after.timer.delay == Unlimited)
    decreases |events|
  {
    if events != [] {
      var e := events[0];
      assert forall i :: 0 <= i < |events[1..]| ==> events[1..][i] == events[i + 1];
      if e.Resume? && !d.resumed[e.handle] {
        OpenUpdate(d.resumed, e.handle);
      }
      if e.Pause? {
        assert (d.resumed + [true])[..|d.resumed|] == d.resumed;
      }
      ReleasedTimerFrom(Step(d, e), atRelease, EventEnd(e), events[1..]);
    }
  }

  /** The class leaves such a timer when it is released while a pause is open. */
  lemma ReleaseDuringAPauseLeavesATimer()
    ensures var d := CreateStep(10, 0, 0);
            var events := [Pause(1, 1), Release(2), Resume(0, 3, 3)];
            && IsTrace(d, 0, events)
            && !Run(d, 0, events).limited
            && Run(d, 0, events).timer == Armed(3, Unlimited)
  {
    var d := CreateStep(10, 0, 0);
    var events := [Pause(1, 1), Release(2), Resume(0, 3, 3)];
    var d1 := Step(d, events[0]);
    var d2 := Step(d1, events[1]);
    var d3 := Step(d2, events[2]);
    assert events[1..] == [events[1], events[2]];
    assert events[1..][1..] == [events[2]];
    assert events[1..][1..][1..] == [];
    assert IsTrace(d3, 3, []) && Run(d3, 3, []) == d3;
    assert IsTrace(d2, 2, [events[2]]) && Run(d2, 2, [events[2]]) == d3;
    assert IsTrace(d1, 1, events[1..]) && Run(d1, 1, events[1..]) == d3;
  }
}
