/**
How long a suspended agent instance really waits (crates/hyperion-agent-runtime/src/runtime.rs): the
backoff under every interleaving of invokes, its growth for a caller that keeps failing, and the steps
that get around it.
*/
module AgentBackoff {
  import opened Common
  import opened AgentRuntime

  // ----- Any interleaving -----

  /** Event `k` is a failure that suspends `id`. */
  predicate SuspendsAt(events: seq<Event>, k: nat, id: InstanceId)
    requires k < |events|
  {
    Suspends(Before(events, k), events[k], id)
  }

  predicate Suspends(s: State, e: Event, id: InstanceId) {
    && e.Finish? && !e.succeeded && e.ticket in s.inFlight && s.inFlight[e.ticket].instance == id
    && id in s.instances && Trips(s.instances[id])
  }

  /** The instant an event reads off the clock, if it reads it. */
  function TimeOf(e: Event): Option<Instant> {
    match e
    case Prepare(_, _, now, _) => Some(now)
    case Finish(_, _, now) => Some(now)
    case _ => None
  }

  /** The clock never runs backwards. */
  predicate Monotone(events: seq<Event>) {
    forall a, b | 0 <= a < b < |events| && TimeOf(events[a]).Some? && TimeOf(events[b]).Some? ::
      TimeOf(events[a]).value <= TimeOf(events[b]).value
  }

  /** The two steps that take an instance out of suspension without asking the clock. */
  predicate Overrides(s: State, e: Event, id: InstanceId) {
    && id in s.instances
    && (e == Checkpoint(id) || (e.ResolveConsent? && e.asked == id && s.instances[id].pending.Some?))
  }

  predicate OverridesAt(events: seq<Event>, k: nat, id: InstanceId)
    requires k < |events|
  {
    Overrides(Before(events, k), events[k], id)
  }

  predicate Ended(l: Lifecycle) {
    l == Terminated || l == Completed || l == Failed
  }

  /** Some event before `k` happened at `when` or later. */
  ghost predicate ReachedBy(events: seq<Event>, k: nat, when: Instant) {
    exists a :: 0 <= a < k && a < |events| && TimeOf(events[a]).Some? && TimeOf(events[a]).value >= when
  }

  /** Since event `m` suspended it, `id` is suspended still, or has waited that suspension out, or has ended. */
  ghost predicate WaitsOut(events: seq<Event>, m: nat, k: nat, id: InstanceId)
    requires m < |events| && events[m].Finish? && k <= |events|
  {
    var s, since := Before(events, k), events[m].finishedAt;
    && id in s.instances
    && var i := s.instances[id];
       && i.state != Checkpointed
       && (i.state == Suspended ==> id in s.suspendedSince && s.suspendedSince[id] >= since)
       && (i.state != Suspended && !Ended(i.state) ==>
             ReachedBy(events, k, since + Backoff(i.quota.timesSuspended) * Second))
  }

  /** The recorded start of a suspension of `id` is the same. */
  predicate SameSince(s: State, s': State, id: InstanceId)
    requires id in s.suspendedSince
  {
    id in s'.suspendedSince && s'.suspendedSince[id] == s.suspendedSince[id]
  }

  /** What one event that does not override can do to the state of `id`. */
  lemma StepOnState(s: State, e: Event, id: InstanceId)
    requires id in s.instances && IdsBelow(s) && !Overrides(s, e, id) && s.instances[id].state != Checkpointed
    ensures id in Step(s, e).instances
    ensures
      var i, s' := s.instances[id], Step(s, e);
      var i' := s'.instances[id];
      && i'.state != Checkpointed
      && (Suspends(s, e, id) ==>
           i'.state == Suspended && id in s'.suspendedSince && s'.suspendedSince[id] == e.finishedAt)
      && (!Suspends(s, e, id) ==>
           && i'.quota.timesSuspended <= i.quota.timesSuspended
           && (i'.state == Suspended ==>
                 i.state == Suspended && (id in s.suspendedSince ==> SameSince(s, s', id)))
           && (i.state == Suspended && i'.state != Suspended && !Ended(i'.state) ==>
                 e.Prepare? && e.preparing == id && BackoffElapsed(s, id, e.preparedAt))
           && (Ended(i.state) ==> Ended(i'.state)))
  {
    hide BackoffElapsed, Prepared, Finished, Backoff;
    match e
    case Prepare(p, cap, now, v) => PrepareOnState(s, p, cap, now, v, id);
    case Finish(ticket, ok, now) => FinishOnState(s, ticket, ok, now, id);
    case _ =>
  }

  lemma FinishOnState(s: State, ticket: Ticket, ok: bool, now: Instant, id: InstanceId)
    requires id in s.instances
    ensures
      var s', e := Finished(s, ticket, ok, now), Finish(ticket, ok, now);
      && id in s'.instances
      && var i, i' := s.instances[id], s'.instances[id];
         if Suspends(s, e, id) then i'.state == Suspended && id in s'.suspendedSince && s'.suspendedSince[id] == now
         else
           && i'.quota.timesSuspended <= i.quota.timesSuspended && i'.state == i.state
           && (id in s.suspendedSince ==> SameSince(s, s', id))
  {}

  /** An invoke that gets as far as the broker met an instance that was running, or had waited long enough. */
  lemma OutcomeMeans(s: State, id: InstanceId, cap: string, now: Instant, v: Verdict)
    ensures PrepareOutcome(s, id, cap, now, v) !in {NotFound, StillRecovering, NotInvocable} ==>
      && id in s.instances && !Ended(s.instances[id].state)
      && (s.instances[id].state == Suspended ==> BackoffElapsed(s, id, now))
    ensures PrepareOutcome(s, id, cap, now, v) == NotInvocable ==> id in s.instances && Ended(s.instances[id].state)
  {
    hide BackoffElapsed, ResolveGrant;
  }

  lemma PrepareOnState(s: State, p: InstanceId, cap: string, now: Instant, v: Verdict, id: InstanceId)
    requires id in s.instances
    ensures
      var s' := Prepared(s, p, cap, now, v);
      && id in s'.instances
      && var i, i' := s.instances[id], s'.instances[id];
         && i'.quota.timesSuspended == i.quota.timesSuspended
         && (i'.state == i.state || (p == id && !Ended(i.state) && i'.state in {Bound, WaitingOnCapability, Executing}))
         && (i.state == Suspended && i'.state != Suspended ==> p == id && BackoffElapsed(s, id, now))
         && (i'.state == Suspended && id in s.suspendedSince ==> SameSince(s, s', id))
  {
    hide BackoffElapsed, PrepareOutcome;
    OutcomeMeans(s, p, cap, now, v);
  }

  lemma ReachedLater(events: seq<Event>, k: nat, when: Instant, sooner: Instant)
    requires k < |events| && ReachedBy(events, k, when) && sooner <= when
    ensures ReachedBy(events, k + 1, sooner)
  {
    var a :| 0 <= a < k && a < |events| && TimeOf(events[a]).Some? && TimeOf(events[a]).value >= when;
    assert TimeOf(events[a]).value >= sooner;
  }

  lemma WaitsOutStep(events: seq<Event>, m: nat, k: nat, id: InstanceId)
    requires m < k < |events| && events[m].Finish? && Monotone(events)
    requires IdsBelow(Before(events, k)) && !OverridesAt(events, k, id) && WaitsOut(events, m, k, id)
    ensures WaitsOut(events, m, k + 1, id)
  {
    hide Step, Run, Backoff, ReachedBy, Overrides;
    var s, e, since := Before(events, k), events[k], events[m].finishedAt;
    NextState(events, k);
    StepOnState(s, e, id);
    var i, i' := s.instances[id], Before(events, k + 1).instances[id];
    if Suspends(s, e, id) {
      assert TimeOf(events[m]).value <= TimeOf(e).value;
    } else if i'.state != Suspended && !Ended(i'.state) {
      BackoffGrows(i'.quota.timesSuspended, i.quota.timesSuspended);
      var when := since + Backoff(i'.quota.timesSuspended) * Second;
      if i.state == Suspended {
        assert TimeOf(e).value >= when;
        ReachedNow(events, k, when);
      } else {
        ReachedLater(events, k, since + Backoff(i.quota.timesSuspended) * Second, when);
      }
    }
  }

  lemma ReachedNow(events: seq<Event>, k: nat, when: Instant)
    requires k < |events| && TimeOf(events[k]).Some? && TimeOf(events[k]).value >= when
    ensures ReachedBy(events, k + 1, when)
  {}

  /** A suspension holds until it is waited out, whatever happened to the instance before it. */
  lemma {:induction false} AlwaysWaitsOut(events: seq<Event>, m: nat, k: nat, id: InstanceId)
    requires m < k <= |events| && SuspendsAt(events, m, id) && Monotone(events)
    requires forall n | m < n < k :: !OverridesAt(events, n, id)
    ensures WaitsOut(events, m, k, id)
    decreases k
  {
    hide Step, WaitsOut, OverridesAt;
    NextState(events, k - 1);
    RunIdsBelow(events[..k - 1]);
    if m < k - 1 {
      AlwaysWaitsOut(events, m, k - 1, id);
      WaitsOutStep(events, m, k - 1, id);
    } else {
      JustSuspended(events, m, id);
    }
  }

  lemma JustSuspended(events: seq<Event>, m: nat, id: InstanceId)
    requires m < |events| && SuspendsAt(events, m, id)
    ensures WaitsOut(events, m, m + 1, id)
  {
    hide Run;
    NextState(events, m);
    var e := events[m];
    FinishOnState(Before(events, m), e.ticket, e.succeeded, e.finishedAt, id);
  }

  /**
   * With any number of dispatches in flight, any mix of outcomes and any history before: after a suspension,
   * and as long as no checkpoint is taken and no pending consent resolved, every dispatch is admitted only
   * once that suspension has been waited out in full.
   */
  lemma AdmissionWaitsOutBackoff(events: seq<Event>, m: nat, k: nat, id: InstanceId, cap: string)
    requires m < k && AdmitsAt(events, k, id, cap) && SuspendsAt(events, m, id) && Monotone(events)
    requires forall n | m < n < k :: !OverridesAt(events, n, id)
    ensures id in Before(events, k).instances
    ensures events[k].preparedAt >=
      events[m].finishedAt + Backoff(Before(events, k).instances[id].quota.timesSuspended) * Second
  {
    hide Backoff, Run, ResolveGrant;
    AlwaysWaitsOut(events, m, k, id);
    var s := Before(events, k);
    if s.instances[id].state != Suspended {
      var when := events[m].finishedAt + Backoff(s.instances[id].quota.timesSuspended) * Second;
      var a :| 0 <= a < k && a < |events| && TimeOf(events[a]).Some? && TimeOf(events[a]).value >= when;
      assert TimeOf(events[k]).value >= when;
    }
  }

  // ----- The two ways around it -----

  /** The clock lets `e` wake `id`. */
  predicate WakesInTime(s: State, e: Event, id: InstanceId)
    requires id in s.instances
  {
    e.Prepare? && e.preparing == id && BackoffElapsed(s, id, e.preparedAt)
  }

  /** In every reachable state a suspended instance has the instant of its suspension on record. */
  ghost predicate SuspensionsTimed(s: State) {
    forall id | id in s.instances && s.instances[id].state == Suspended :: id in s.suspendedSince
  }

  lemma {:induction false} AlwaysTimed(events: seq<Event>)
    ensures SuspensionsTimed(Run(events))
  {
    hide Step;
    if events != [] {
      AlwaysTimed(events[..|events| - 1]);
      StaysTimed(Run(events[..|events| - 1]), events[|events| - 1]);
    }
  }

  lemma StaysTimed(s: State, e: Event)
    requires SuspensionsTimed(s)
    ensures SuspensionsTimed(Step(s, e))
  {
    hide BackoffElapsed, ResolveGrant, Backoff;
  }

  /**
   * Exactly which steps end a suspension for good, in every reachable state: after `e` the instance's baseline
   * capabilities are admitted at every instant, however early, if and only if `e` is an override or an invoke
   * that has waited.
   */
  lemma AdmitsAtOnceIff(events: seq<Event>, e: Event, id: InstanceId, cap: string)
    requires id in Run(events).instances && Run(events).instances[id].state == Suspended
    requires cap in Run(events).instances[id].manifest.baseline
    ensures
      var s := Run(events);
      (forall now :: PrepareOutcome(Step(s, e), id, cap, now, Admitted) == Proceed)
      <==> Overrides(s, e, id) || WakesInTime(s, e, id)
  {
    hide Run, Backoff, BackoffElapsed;
    var s := Run(events);
    RunIdsBelow(events);
    AlwaysTimed(events);
    if Overrides(s, e, id) || WakesInTime(s, e, id) {
      AwakeAfter(s, e, id, cap);
    } else {
      StillAsleep(s, e, id, cap);
    }
  }

  lemma AwakeAfter(s: State, e: Event, id: InstanceId, cap: string)
    requires id in s.instances && s.instances[id].state == Suspended && cap in s.instances[id].manifest.baseline
    requires Overrides(s, e, id) || WakesInTime(s, e, id)
    ensures id in Step(s, e).instances
    ensures
      var i := Step(s, e).instances[id];
      i.state != Suspended && !Ended(i.state) && cap in i.manifest.baseline
  {
    hide BackoffElapsed;
  }

  lemma StillAsleep(s: State, e: Event, id: InstanceId, cap: string)
    requires IdsBelow(s) && id in s.instances && s.instances[id].state == Suspended && id in s.suspendedSince
    requires !Overrides(s, e, id) && !WakesInTime(s, e, id)
    ensures exists now :: PrepareOutcome(Step(s, e), id, cap, now, Admitted) != Proceed
  {
    hide Backoff, Step, ResolveGrant;
    StepOnState(s, e, id);
    var s' := Step(s, e);
    var now := if id in s'.suspendedSince then s'.suspendedSince[id] else 0;
    BackoffGrows(s'.instances[id].quota.timesSuspended, s'.instances[id].quota.timesSuspended);
    assert PrepareOutcome(s', id, cap, now, Admitted) != Proceed;
  }

  /** A terminated instance leaves that state exactly by these steps; one of them is a late failure. */
  lemma LeavesTerminated(s: State, e: Event, id: InstanceId)
    requires IdsBelow(s) && id in s.instances && s.instances[id].state == Terminated
    ensures id in Step(s, e).instances
    ensures Step(s, e).instances[id].state != Terminated <==>
      Suspends(s, e, id) || Overrides(s, e, id) || e == MarkCompleted(id)
  {
    hide BackoffElapsed, Prepared;
    match e
    case Prepare(p, cap, now, v) => PrepareOnState(s, p, cap, now, v, id);
    case _ =>
  }

  // ----- Runs that take them -----

  const Agent := Manifest(["read"], ["write"])

  function Invoke(at: Instant): Event {
    Prepare(1, "read", at, Admitted)
  }

  function Fail(ticket: Ticket): Event {
    Finish(ticket, false, 0)
  }

  /** The running or suspended agent after `n` failures. */
  function AgentAfter(state: Lifecycle, calls: nat, n: nat, pending: Option<string>): Instance {
    Instance(Agent, state, [], Quota(calls, n, if n >= 3 then n - 2 else 0, 0), pending)
  }

  /** One invoke that is admitted and fails at instant 0, from a state with nothing in flight. */
  lemma FailsOnce(events: seq<Event>, k: nat, n: nat, pending: Option<string>, state: Lifecycle)
    requires k + 2 <= |events| && events[k] == Invoke(0) && events[k + 1] == Fail(n + 1) && n < 3
    requires state in {Bound, Executing, WaitingOnCapability}
    requires Before(events, k) == State(map[1 := AgentAfter(state, n, n, pending)], map[], map[], 2, map[], n + 1)
    ensures SuspendsAt(events, k + 1, 1) <==> n == 2
    ensures
      var state' := if n == 2 then Suspended else Executing;
      Before(events, k + 2) == State(
        map[1 := AgentAfter(state', n + 1, n + 1, pending)], map[],
        if n == 2 then map[1 := 0] else map[], 2, map[], n + 2)
  {
    hide Run;
    NextState(events, k);
    NextState(events, k + 1);
    var s := Before(events, k + 1);
    assert s.instances == map[1 := AgentAfter(Executing, n + 1, n, pending)];
    assert s.inFlight == map[n + 1 := Dispatch(1, "read")];
    assert s.inFlight - {n + 1} == map[];
    var state' := if n == 2 then Suspended else Executing;
    assert Before(events, k + 2).instances == map[1 := AgentAfter(state', n + 1, n + 1, pending)];
  }

  predicate FailuresFrom(events: seq<Event>, k: nat) {
    && k + 6 <= |events|
    && events[k] == Invoke(0) && events[k + 1] == Fail(1)
    && events[k + 2] == Invoke(0) && events[k + 3] == Fail(2)
    && events[k + 4] == Invoke(0) && events[k + 5] == Fail(3)
  }

  /** Three failures at instant 0 suspend the agent for a second, of which nothing has passed. */
  lemma FailsThrice(events: seq<Event>, k: nat, pending: Option<string>, state: Lifecycle)
    requires FailuresFrom(events, k) && state in {Bound, Executing, WaitingOnCapability}
    requires Before(events, k) == State(map[1 := AgentAfter(state, 0, 0, pending)], map[], map[], 2, map[], 1)
    ensures Before(events, k + 6).instances == map[1 := AgentAfter(Suspended, 3, 3, pending)]
    ensures SuspendsAt(events, k + 5, 1) && !BackoffElapsed(Before(events, k + 6), 1, 0)
  {
    hide Run, SuspendsAt;
    FailsOnce(events, k, 0, pending, state);
    FailsOnce(events, k + 2, 1, pending, Executing);
    FailsOnce(events, k + 4, 2, pending, Executing);
    BackoffGrows(1, 1);
  }

  lemma JustSpawned(events: seq<Event>)
    requires events != [] && events[0] == Spawn(Agent, 0)
    ensures Before(events, 1) == State(map[1 := AgentAfter(Bound, 0, 0, None)], map[], map[], 2, map[], 1)
  {
    NextState(events, 0);
    assert Before(events, 0) == Initial;
    assert Before(events, 1).instances == map[1 := AgentAfter(Bound, 0, 0, None)];
  }

  lemma AsksFirst(events: seq<Event>)
    requires |events| > 1 && events[0] == Spawn(Agent, 0) && events[1] == Prepare(1, "write", 0, Admitted)
    ensures Before(events, 2) ==
      State(map[1 := AgentAfter(WaitingOnCapability, 0, 0, Some("write"))], map[], map[], 2, map[], 1)
  {
    hide Run;
    JustSpawned(events);
    NextState(events, 1);
    assert "write" != "read" by { assert |"write"| != |"read"|; }
    assert Before(events, 2).instances == map[1 := AgentAfter(WaitingOnCapability, 0, 0, Some("write"))];
  }

  /** An override in between admits the next invoke at the same instant. */
  lemma OverrideThenInvoke(events: seq<Event>, k: nat)
    requires k + 1 < |events| && OverridesAt(events, k, 1) && events[k + 1] == Invoke(0)
    requires Before(events, k).instances[1].state == Suspended && Before(events, k).instances[1].manifest == Agent
    ensures AdmitsAt(events, k + 1, 1, "read")
  {
    hide Run, Backoff, Step;
    NextState(events, k);
    AwakeAfter(Before(events, k), events[k], 1, "read");
  }

  /** A checkpoint gets an agent dispatched in the very instant it was suspended for a second. */
  lemma CheckpointSkipsBackoff()
    ensures
      var events := [Spawn(Agent, 0), Invoke(0), Fail(1), Invoke(0), Fail(2), Invoke(0), Fail(3),
                     Checkpoint(1), Invoke(0)];
      && SuspendsAt(events, 6, 1) && 1 in Before(events, 7).instances && !BackoffElapsed(Before(events, 7), 1, 0)
      && AdmitsAt(events, 8, 1, "read")
  {
    hide Run, Backoff, SuspendsAt, AdmitsAt, BackoffElapsed;
    var events := [Spawn(Agent, 0), Invoke(0), Fail(1), Invoke(0), Fail(2), Invoke(0), Fail(3),
                   Checkpoint(1), Invoke(0)];
    JustSpawned(events);
    FailsThrice(events, 1, None, Bound);
    OverrideThenInvoke(events, 7);
  }

  /** So does resolving a consent that was pending all along, even by refusing it. */
  lemma ConsentSkipsBackoff(approved: bool)
    ensures
      var events := [Spawn(Agent, 0), Prepare(1, "write", 0, Admitted),
                     Invoke(0), Fail(1), Invoke(0), Fail(2), Invoke(0), Fail(3),
                     ResolveConsent(1, approved), Invoke(0)];
      && SuspendsAt(events, 7, 1) && 1 in Before(events, 8).instances && !BackoffElapsed(Before(events, 8), 1, 0)
      && AdmitsAt(events, 9, 1, "read")
  {
    hide Run, Backoff, SuspendsAt, AdmitsAt, BackoffElapsed;
    var events := [Spawn(Agent, 0), Prepare(1, "write", 0, Admitted),
                   Invoke(0), Fail(1), Invoke(0), Fail(2), Invoke(0), Fail(3),
                   ResolveConsent(1, approved), Invoke(0)];
    AsksFirst(events);
    FailsThrice(events, 2, Some("write"), WaitingOnCapability);
    OverrideThenInvoke(events, 8);
  }

  /** Three dispatches in flight, two fail, the agent is terminated, the third fails: a second later it runs again. */
  lemma TerminatedAgentRunsAgain()
    ensures
      var events := [Spawn(Agent, 0), Invoke(0), Invoke(0), Invoke(0), Fail(1), Fail(2), Terminate(1), Fail(3),
                     Invoke(Second)];
      && 1 in Before(events, 7).instances && Before(events, 7).instances[1].state == Terminated
      && SuspendsAt(events, 7, 1) && AdmitsAt(events, 8, 1, "read")
  {
    hide Run, Backoff;
    var events := [Spawn(Agent, 0), Invoke(0), Invoke(0), Invoke(0), Fail(1), Fail(2), Terminate(1), Fail(3),
                   Invoke(Second)];
    JustSpawned(events);
    Dispatched(events, 1, 0, Bound);
    Dispatched(events, 2, 1, Executing);
    Dispatched(events, 3, 2, Executing);
    TwoFailures(events);
    LateFailureWakes(events);
  }

  /** One more dispatch in flight. */
  lemma Dispatched(events: seq<Event>, k: nat, n: nat, state: Lifecycle)
    requires k < |events| && events[k] == Invoke(0) && n < 3 && state in {Bound, Executing}
    requires Before(events, k) == State(map[1 := AgentAfter(state, n, 0, None)], map[], map[], 2, InFlight(n), n + 1)
    ensures Before(events, k + 1) ==
      State(map[1 := AgentAfter(Executing, n + 1, 0, None)], map[], map[], 2, InFlight(n + 1), n + 2)
  {
    hide Run;
    NextState(events, k);
    assert Before(events, k + 1).instances == map[1 := AgentAfter(Executing, n + 1, 0, None)];
  }

  function InFlight(n: nat): map<Ticket, Dispatch> {
    if n == 0 then map[] else InFlight(n - 1)[n := Dispatch(1, "read")]
  }

  lemma TwoFailures(events: seq<Event>)
    requires |events| > 5 && events[4] == Fail(1) && events[5] == Fail(2)
    requires Before(events, 4) == State(map[1 := AgentAfter(Executing, 3, 0, None)], map[], map[], 2, InFlight(3), 4)
    ensures
      var s := Before(events, 6);
      && s.instances == map[1 := AgentAfter(Executing, 3, 2, None)]
      && 3 in s.inFlight && s.inFlight[3].instance == 1
  {
    hide Run, Backoff;
    assert InFlight(3).Keys == {1, 2, 3} by { assert InFlight(2).Keys == {1, 2}; }
    NextState(events, 4);
    assert Before(events, 5).instances == map[1 := AgentAfter(Executing, 3, 1, None)];
    NextState(events, 5);
    assert Before(events, 6).instances == map[1 := AgentAfter(Executing, 3, 2, None)];
  }

  lemma LateFailureWakes(events: seq<Event>)
    requires |events| == 9 && events[6] == Terminate(1) && events[7] == Fail(3) && events[8] == Invoke(Second)
    requires
      var s := Before(events, 6);
      && s.instances == map[1 := AgentAfter(Executing, 3, 2, None)]
      && 3 in s.inFlight && s.inFlight[3].instance == 1
    ensures 1 in Before(events, 7).instances && Before(events, 7).instances[1].state == Terminated
    ensures SuspendsAt(events, 7, 1) && AdmitsAt(events, 8, 1, "read")
  {
    hide Run, Backoff;
    NextState(events, 6);
    assert Before(events, 7).instances[1] == AgentAfter(Terminated, 3, 2, None);
    NextState(events, 7);
    BackoffOnce();
  }

  lemma BackoffOnce()
    ensures Backoff(1) == 1
  {}

  // ----- One caller, failing every time -----

  datatype Attempt = Attempt(capability: string, at: Instant, verdict: Verdict, failedAt: Instant)

  datatype Trial = Trial(state: State, log: seq<Attempt>)

  /** One invoke by the only caller, whose dispatch, if admitted, fails; the log keeps the admitted ones. */
  function Try(t: Trial, id: InstanceId, a: Attempt): Trial {
    var prepared := Prepared(t.state, id, a.capability, a.at, a.verdict);
    if PrepareOutcome(t.state, id, a.capability, a.at, a.verdict) == Proceed
    then Trial(Finished(prepared, t.state.nextTicket, false, a.failedAt), t.log + [a])
    else Trial(prepared, t.log)
  }

  function TryAll(s: State, id: InstanceId, attempts: seq<Attempt>): Trial {
    if attempts == [] then Trial(s, [])
    else Try(TryAll(s, id, attempts[..|attempts| - 1]), id, attempts[|attempts| - 1])
  }

  /** Each attempt starts after the one before has failed. */
  predicate OneAtATime(attempts: seq<Attempt>) {
    && (forall i | 0 <= i < |attempts| :: attempts[i].at <= attempts[i].failedAt)
    && (forall i, j | 0 <= i < j < |attempts| :: attempts[i].failedAt <= attempts[j].at)
  }

  /** A fresh instance: nothing remembered, nothing failed. */
  predicate Fresh(s: State, id: InstanceId) {
    id in s.instances && s.instances[id].state == Bound && s.instances[id].quota == Quota(0, 0, 0, 0)
  }

  /** The total wait after the third failure before the `k`-th further dispatch: 1 + 2 + 4 + ... + 32 + 32 ... */
  function TotalBackoff(k: nat): nat {
    if k == 0 then 0 else TotalBackoff(k - 1) + Backoff(k)
  }

  /** The breaker's books after `|log|` failures, the last of them at `last`. */
  ghost predicate Books(s: State, id: InstanceId, log: seq<Attempt>, now: Instant) {
    && id in s.instances
    && var i, n := s.instances[id], |log|;
       && i.state in {Bound, Executing, WaitingOnCapability, Suspended}
       && i.quota.failures == n && i.quota.successes == 0
       && (n < 3 ==> i.state != Suspended && i.quota.timesSuspended == 0)
       && (n >= 3 ==>
            && i.quota.timesSuspended == n - 2
            && (i.state == Suspended ==> id in s.suspendedSince && s.suspendedSince[id] == log[n - 1].failedAt)
            && (i.state != Suspended ==> now >= log[n - 1].failedAt + Backoff(n - 2) * Second))
  }

  /** Each dispatch from the fourth on came a full backoff after the failure before it. */
  ghost predicate GapsKept(log: seq<Attempt>) {
    forall n | 3 <= n < |log| :: log[n].at >= log[n - 1].failedAt + Backoff(n - 2) * Second
  }

  /** Whatever an invoke decides, the books stay right; and it is admitted only if the backoff has run out. */
  lemma PreparedKeepsBooks(s: State, id: InstanceId, log: seq<Attempt>, a: Attempt, before: Instant)
    requires Books(s, id, log, before) && before <= a.at
    ensures
      var p := Prepared(s, id, a.capability, a.at, a.verdict);
      && Books(p, id, log, a.at)
      && (PrepareOutcome(s, id, a.capability, a.at, a.verdict) == Proceed ==>
           && p.instances[id].state != Suspended
           && s.nextTicket in p.inFlight && p.inFlight[s.nextTicket].instance == id)
  {
    hide Backoff, PrepareOutcome;
    OutcomeMeans(s, id, a.capability, a.at, a.verdict);
  }

  lemma FailureKeepsBooks(p: State, id: InstanceId, log: seq<Attempt>, a: Attempt, ticket: Ticket)
    requires Books(p, id, log, a.at) && p.instances[id].state != Suspended
    requires ticket in p.inFlight && p.inFlight[ticket].instance == id
    ensures Books(Finished(p, ticket, false, a.failedAt), id, log + [a], a.at)
    ensures GapsKept(log) ==> GapsKept(log + [a])
  {
    hide Backoff;
  }

  lemma TryKeepsBooks(t: Trial, id: InstanceId, a: Attempt, before: Instant)
    requires Books(t.state, id, t.log, before) && GapsKept(t.log) && before <= a.at
    ensures Books(Try(t, id, a).state, id, Try(t, id, a).log, a.at) && GapsKept(Try(t, id, a).log)
  {
    hide Backoff, PrepareOutcome, Prepared, Finished, GapsKept;
    PreparedKeepsBooks(t.state, id, t.log, a, before);
    if PrepareOutcome(t.state, id, a.capability, a.at, a.verdict) == Proceed {
      FailureKeepsBooks(Prepared(t.state, id, a.capability, a.at, a.verdict), id, t.log, a, t.state.nextTicket);
    }
  }

  lemma {:induction false} TrialKeepsBooks(s: State, id: InstanceId, attempts: seq<Attempt>)
    requires Fresh(s, id) && OneAtATime(attempts)
    ensures
      var t := TryAll(s, id, attempts);
      && Books(t.state, id, t.log, if attempts == [] then 0 else attempts[|attempts| - 1].at) && GapsKept(t.log)
      && (forall i | 0 <= i < |t.log| :: t.log[i].at <= t.log[i].failedAt)
  {
    hide Try, Books, GapsKept;
    if attempts == [] {
      FreshBooks(s, id);
    } else {
      var shorter := attempts[..|attempts| - 1];
      TrialKeepsBooks(s, id, shorter);
      var a, before := attempts[|attempts| - 1], if shorter == [] then 0 else shorter[|shorter| - 1].at;
      TryKeepsBooks(TryAll(s, id, shorter), id, a, before);
      TryLogs(TryAll(s, id, shorter), id, a);
    }
  }

  lemma TryLogs(t: Trial, id: InstanceId, a: Attempt)
    ensures Try(t, id, a).log == t.log || Try(t, id, a).log == t.log + [a]
  {
    hide Prepared, Finished, PrepareOutcome;
  }

  lemma FreshBooks(s: State, id: InstanceId)
    requires Fresh(s, id)
    ensures Books(s, id, [], 0) && GapsKept([])
  {}

  /**
   * For a caller that fails every time, the (3+k)-th dispatch is admitted no sooner than
   * 1 + 2 + ... + 2^(min(k,6)-1) seconds after the third failure.
   */
  lemma {:induction false} RepeatFailuresWaitLonger(s: State, id: InstanceId, attempts: seq<Attempt>, k: nat)
    requires Fresh(s, id) && OneAtATime(attempts)
    requires 2 + k < |TryAll(s, id, attempts).log|
    ensures
      var log := TryAll(s, id, attempts).log;
      k >= 1 ==> log[2 + k].at >= log[2].failedAt + TotalBackoff(k) * Second
    decreases k
  {
    hide TryAll, Backoff;
    TrialKeepsBooks(s, id, attempts);
    var log := TryAll(s, id, attempts).log;
    if k >= 1 {
      RepeatFailuresWaitLonger(s, id, attempts, k - 1);
      assert log[2 + k].at >= log[2 + k - 1].failedAt + Backoff(k) * Second;
      assert log[2 + k - 1].failedAt >= log[2 + k - 1].at;
      assert TotalBackoff(k) * Second == TotalBackoff(k - 1) * Second + Backoff(k) * Second;
    }
  }

  /** What those seconds add up to. */
  lemma {:induction false} TotalBackoffClosedForm(k: nat)
    ensures TotalBackoff(k) == if k <= 6 then Pow2(k) - 1 else 63 + 32 * (k - 6)
  {
    if k > 0 {
      TotalBackoffClosedForm(k - 1);
      assert Pow2(3) == 8 && Pow2(5) == 32 && Pow2(6) == 64;
    }
  }
}
