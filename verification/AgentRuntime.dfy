/**
The agent runtime (crates/hyperion-agent-runtime/src/runtime.rs, broker.rs): a consent broker, a circuit
breaker and an adaptive backoff around an `invoke` whose dispatch runs with no lock held.

Each locked section is one step, so an interleaving of callers is a sequence of steps: `Prepare` admits
a dispatch, `Finish` records its outcome, and anything may happen in between.  The scheduler's verdict
and the clock are inputs of the step.  Rights checks on the caller's token happen before a step is taken.
*/
module AgentRuntime {
  import opened Common

  type InstanceId = nat
  type Ticket = nat
  type Instant = nat

  const Second: nat := 1_000_000_000
  const BreakerThreshold: nat := 3
  const StreakToDecay: nat := 3

  datatype Lifecycle =
    Spawning | Bound | Executing | WaitingOnCapability | Suspended | Checkpointed | Completed | Failed | Terminated

  datatype Manifest = Manifest(baseline: seq<string>, requestable: seq<string>)

  datatype Quota = Quota(callsUsed: nat, failures: nat, timesSuspended: nat, successes: nat)

  datatype Instance = Instance(
    manifest: Manifest, state: Lifecycle, grants: seq<string>, quota: Quota, pending: Option<string>)

  // ----- Broker and backoff -----

  datatype GrantDecision = Granted | AskConsent | Refuse

  function ResolveGrant(i: Instance, cap: string): GrantDecision {
    if cap in i.manifest.baseline then Granted
    else if cap in i.manifest.requestable then (if cap in i.grants then Granted else AskConsent)
    else Refuse
  }

  /** Seconds to wait: 1, 2, 4, 8, 16, 32, and 32 from then on. */
  function Backoff(timesSuspended: nat): nat {
    Pow2((if timesSuspended < 1 then 1 else if timesSuspended > 6 then 6 else timesSuspended) - 1)
  }

  lemma {:induction false} PowersGrow(m: nat, n: nat)
    requires m <= n
    ensures Pow2(m) <= Pow2(n)
  {
    if m < n {
      PowersGrow(m, n - 1);
    }
  }

  /** The wait never shrinks with more suspensions, and stays between 1 and 32 seconds. */
  lemma BackoffGrows(m: nat, n: nat)
    requires m <= n
    ensures 1 <= Backoff(m) <= Backoff(n) <= 32
    ensures m >= 6 ==> Backoff(m) == 32
  {
    var a: nat := (if m < 1 then 1 else if m > 6 then 6 else m) - 1;
    var b: nat := (if n < 1 then 1 else if n > 6 then 6 else n) - 1;
    PowersGrow(0, a);
    PowersGrow(a, b);
    PowersGrow(b, 5);
    assert Pow2(5) == 2 * Pow2(4) == 4 * Pow2(3) == 8 * Pow2(2);
  }

  // ----- Steps -----

  datatype Dispatch = Dispatch(instance: InstanceId, capability: string)

  datatype State = State(
    instances: map<InstanceId, Instance>,
    checkpoints: map<nat, InstanceId>,
    suspendedSince: map<InstanceId, Instant>,
    nextId: nat,
    inFlight: map<Ticket, Dispatch>,
    nextTicket: Ticket)

  const Initial := State(map[], map[], map[], 1, map[], 1)

  /** What the scheduler does with the submitted task. */
  datatype Verdict = Admitted | NotAdmitted | SubmitRefused

  datatype Event =
    | Spawn(manifest: Manifest, remembered: nat)
    | Prepare(preparing: InstanceId, capability: string, preparedAt: Instant, verdict: Verdict)
    | Finish(ticket: Ticket, succeeded: bool, finishedAt: Instant)
    | ResolveConsent(asked: InstanceId, approved: bool)
    | GrantCapability(grantee: InstanceId, granted: string)
    | Checkpoint(saved: InstanceId)
    | Resume(checkpoint: nat)
    | Terminate(ended: InstanceId)
    | MarkCompleted(done: InstanceId)

  datatype Outcome =
    NotFound | StillRecovering | NotInvocable | Denied | PendingConsent | Unauthorized | QuotaExceeded | Proceed

  /** Whether the monotonic clock says the backoff of a suspended instance has run out. */
  predicate BackoffElapsed(s: State, id: InstanceId, now: Instant)
    requires id in s.instances
  {
    id !in s.suspendedSince ||
    now >= s.suspendedSince[id] + Backoff(s.instances[id].quota.timesSuspended) * Second
  }

  /** Lifecycle, broker and scheduler, in that order, for an instance that is not (or no longer) suspended. */
  function Route(i: Instance, cap: string, verdict: Verdict): (o: Outcome)
    ensures o != NotFound && o != StillRecovering
  {
    if i.state == Terminated || i.state == Completed || i.state == Failed then NotInvocable
    else
      match ResolveGrant(i, cap)
      case Refuse => Denied
      case AskConsent => PendingConsent
      case Granted =>
        match verdict
        case SubmitRefused => Unauthorized
        case NotAdmitted => QuotaExceeded
        case Admitted => Proceed
  }

  function PrepareOutcome(s: State, id: InstanceId, cap: string, now: Instant, verdict: Verdict): (o: Outcome)
    ensures o == NotFound <==> id !in s.instances
  {
    if id !in s.instances then NotFound
    else if s.instances[id].state == Suspended && !BackoffElapsed(s, id, now) then StillRecovering
    else Route(s.instances[id], cap, verdict)
  }

  /**
   * The instance an invoke leaves behind.  Auto-resume changes the state only: the failure count stays,
   * so the next failure suspends again at once.
   */
  function Visited(i: Instance, cap: string, o: Outcome): Instance {
    match o
    case NotFound | StillRecovering | NotInvocable => i
    case PendingConsent => i.(state := WaitingOnCapability, pending := Some(cap))
    case Proceed => i.(state := Executing, quota := i.quota.(callsUsed := i.quota.callsUsed + 1))
    case _ => i.(state := if i.state == Suspended then Bound else i.state)
  }

  function Prepared(s: State, id: InstanceId, cap: string, now: Instant, verdict: Verdict): State {
    var o := PrepareOutcome(s, id, cap, now, verdict);
    if id !in s.instances then s
    else s.(
      instances := s.instances[id := Visited(s.instances[id], cap, o)],
      suspendedSince :=
        if s.instances[id].state == Suspended && o != StillRecovering then s.suspendedSince - {id}
        else s.suspendedSince,
      inFlight := if o == Proceed then s.inFlight[s.nextTicket := Dispatch(id, cap)] else s.inFlight,
      nextTicket := if o == Proceed then s.nextTicket + 1 else s.nextTicket)
  }

  function AfterSuccess(i: Instance): Instance {
    var q := i.quota.(failures := 0);
    if q.timesSuspended == 0 then i.(quota := q)
    else if q.successes + 1 >= StreakToDecay then
      i.(quota := q.(timesSuspended := q.timesSuspended - 1, successes := 0))
    else i.(quota := q.(successes := q.successes + 1))
  }

  predicate Trips(i: Instance) {
    i.quota.failures + 1 >= BreakerThreshold
  }

  function AfterFailure(i: Instance): Instance {
    var q := i.quota.(failures := i.quota.failures + 1);
    if Trips(i) then i.(state := Suspended, quota := q.(timesSuspended := q.timesSuspended + 1, successes := 0))
    else i.(quota := q)
  }

  function Finished(s: State, ticket: Ticket, succeeded: bool, now: Instant): State {
    if ticket !in s.inFlight then s
    else
      var id := s.inFlight[ticket].instance;
      var s' := s.(inFlight := s.inFlight - {ticket});
      if id !in s.instances then s'
      else if succeeded then s'.(instances := s.instances[id := AfterSuccess(s.instances[id])])
      else s'.(instances := s.instances[id := AfterFailure(s.instances[id])],
               suspendedSince := if Trips(s.instances[id]) then s.suspendedSince[id := now] else s.suspendedSince)
  }

  function ConsentResolved(i: Instance, approved: bool): Instance
    requires i.pending.Some?
  {
    i.(pending := None, state := Executing, grants := if approved then i.grants + [i.pending.value] else i.grants)
  }

  function Step(s: State, e: Event): State {
    match e
    case Spawn(m, remembered) =>
      s.(instances := s.instances[s.nextId := Instance(m, Bound, [], Quota(0, 0, remembered, 0), None)],
         nextId := s.nextId + 1)
    case Prepare(id, cap, now, verdict) => Prepared(s, id, cap, now, verdict)
    case Finish(ticket, ok, now) => Finished(s, ticket, ok, now)
    case ResolveConsent(id, approved) =>
      if id !in s.instances || s.instances[id].pending.None? then s
      else s.(instances := s.instances[id := ConsentResolved(s.instances[id], approved)])
    case GrantCapability(id, cap) =>
      if id !in s.instances then s
      else s.(instances := s.instances[id := s.instances[id].(grants := s.instances[id].grants + [cap])])
    case Checkpoint(id) =>
      if id !in s.instances then s
      else s.(instances := s.instances[id := s.instances[id].(grants := [], state := Checkpointed)],
              checkpoints := s.checkpoints[s.nextId := id], nextId := s.nextId + 1)
    case Resume(c) =>
      if c !in s.checkpoints || s.checkpoints[c] !in s.instances then s
      else if s.instances[s.checkpoints[c]].state != Checkpointed then s
      else
        var id := s.checkpoints[c];
        s.(instances := s.instances[id := s.instances[id].(state := Executing)])
    case Terminate(id) =>
      if id !in s.instances then s else s.(instances := s.instances[id := s.instances[id].(state := Terminated)])
    case MarkCompleted(id) =>
      if id !in s.instances then s else s.(instances := s.instances[id := s.instances[id].(state := Completed)])
  }

  function Run(events: seq<Event>): State {
    if events == [] then Initial else Step(Run(events[..|events| - 1]), events[|events| - 1])
  }

  /** The state an event of the run met. */
  function Before(events: seq<Event>, k: nat): State
    requires k <= |events|
  {
    Run(events[..k])
  }

  lemma NextState(events: seq<Event>, k: nat)
    requires k < |events|
    ensures Before(events, k + 1) == Step(Before(events, k), events[k])
  {
    assert events[..k + 1][..k] == events[..k];
  }

  // ----- Whose authority a dispatch runs on -----

  /** Event `k` admitted a dispatch of `cap` on `id`. */
  predicate AdmitsAt(events: seq<Event>, k: nat, id: InstanceId, cap: string) {
    && k < |events| && events[k].Prepare? && events[k].preparing == id && events[k].capability == cap
    && PrepareOutcome(Before(events, k), id, cap, events[k].preparedAt, events[k].verdict) == Proceed
  }

  /** Event `k` asked for consent to `cap` on `id`. */
  predicate AsksAt(events: seq<Event>, k: nat, id: InstanceId, cap: string) {
    && k < |events| && events[k].Prepare? && events[k].preparing == id && events[k].capability == cap
    && PrepareOutcome(Before(events, k), id, cap, events[k].preparedAt, events[k].verdict) == PendingConsent
  }

  /** Nothing between `i` and `j` asked for or resolved another consent on `id`. */
  predicate ConsentUndisturbed(events: seq<Event>, i: nat, j: nat, id: InstanceId) {
    forall m | i < m < j && m < |events| ::
      !(events[m].ResolveConsent? && events[m].asked == id) &&
      !(events[m].Prepare? && AsksAt(events, m, id, events[m].capability))
  }

  /** Event `j` approved the consent request that event `i` made. */
  predicate ApprovesRequest(events: seq<Event>, i: nat, j: nat, id: InstanceId, cap: string) {
    && i < j && AsksAt(events, i, id, cap) && ConsentUndisturbed(events, i, j, id)
    && j < |events| && events[j] == ResolveConsent(id, true)
  }

  /** Event `j` granted `cap` on `id`: directly, or by approving the request just made for that capability. */
  ghost predicate GrantsAt(events: seq<Event>, j: nat, id: InstanceId, cap: string) {
    && j < |events|
    && (events[j] == GrantCapability(id, cap) || exists i: nat :: ApprovesRequest(events, i, j, id, cap))
  }

  predicate NoCheckpoint(events: seq<Event>, j: nat, k: nat, id: InstanceId) {
    forall m | j < m < k && m < |events| :: events[m] != Checkpoint(id)
  }

  /** `cap` was granted on `id` before `k`, and no checkpoint has revoked it since. */
  ghost predicate GrantStands(events: seq<Event>, k: nat, id: InstanceId, cap: string) {
    exists j: nat :: j < k && GrantsAt(events, j, id, cap) && NoCheckpoint(events, j, k, id)
  }

  ghost predicate RequestStands(events: seq<Event>, k: nat, id: InstanceId, cap: string) {
    exists i: nat :: i < k && AsksAt(events, i, id, cap) && ConsentUndisturbed(events, i, k, id)
  }

  /** Every grant held and every request pending has its event in the history. */
  ghost predicate Explained(events: seq<Event>, k: nat, id: InstanceId)
    requires k <= |events| && id in Before(events, k).instances
  {
    var i := Before(events, k).instances[id];
    && (forall n | 0 <= n < |i.grants| :: GrantStands(events, k, id, i.grants[n]))
    && (i.pending.Some? ==> RequestStands(events, k, id, i.pending.value))
  }

  lemma FinishedOn(s: State, ticket: Ticket, ok: bool, now: Instant)
    ensures
      var s' := Finished(s, ticket, ok, now);
      && s'.instances.Keys == s.instances.Keys && s'.checkpoints == s.checkpoints && s'.nextId == s.nextId
      && (forall id | id in s.instances ::
            var i, i' := s.instances[id], s'.instances[id];
            i'.manifest == i.manifest && i'.grants == i.grants && i'.pending == i.pending)
  {}

  /** What one event does to an instance's manifest, grants and pending request. */
  lemma StepOnGrants(s: State, e: Event, id: InstanceId)
    requires id in s.instances && IdsBelow(s)
    ensures id in Step(s, e).instances
    ensures
      var i, i' := s.instances[id], Step(s, e).instances[id];
      && i'.manifest == i.manifest
      && i'.grants == (
           if e == Checkpoint(id) then []
           else if e.GrantCapability? && e.grantee == id then i.grants + [e.granted]
           else if e == ResolveConsent(id, true) && i.pending.Some? then i.grants + [i.pending.value]
           else i.grants)
      && i'.pending == (
           if e.Prepare? && e.preparing == id &&
              PrepareOutcome(s, id, e.capability, e.preparedAt, e.verdict) == PendingConsent
           then Some(e.capability)
           else if e.ResolveConsent? && e.asked == id then None
           else i.pending)
  {
    hide Finished, PrepareOutcome;
    match e
    case Finish(ticket, ok, now) => FinishedOn(s, ticket, ok, now);
    case _ =>
  }

  /** Instances and checkpoints are named from one counter, which is past all of them. */
  predicate IdsBelow(s: State) {
    (forall id | id in s.instances :: id < s.nextId) && (forall c | c in s.checkpoints :: c < s.nextId)
  }

  lemma StepOnKeys(s: State, e: Event)
    ensures Step(s, e).instances.Keys == if e.Spawn? then s.instances.Keys + {s.nextId} else s.instances.Keys
    ensures Step(s, e).checkpoints.Keys ==
      if e.Checkpoint? && e.saved in s.instances then s.checkpoints.Keys + {s.nextId} else s.checkpoints.Keys
    ensures Step(s, e).nextId ==
      if e.Spawn? || (e.Checkpoint? && e.saved in s.instances) then s.nextId + 1 else s.nextId
  {
    hide Finished, PrepareOutcome;
    match e
    case Finish(ticket, ok, now) => FinishedOn(s, ticket, ok, now);
    case _ =>
  }

  lemma {:induction false} RunIdsBelow(events: seq<Event>)
    ensures IdsBelow(Run(events))
  {
    hide Step;
    if events != [] {
      RunIdsBelow(events[..|events| - 1]);
      StepOnKeys(Run(events[..|events| - 1]), events[|events| - 1]);
    }
  }

  lemma GrantStandsOn(events: seq<Event>, k: nat, id: InstanceId, cap: string)
    requires k < |events| && GrantStands(events, k, id, cap) && events[k] != Checkpoint(id)
    ensures GrantStands(events, k + 1, id, cap)
  {
    var j: nat :| j < k && GrantsAt(events, j, id, cap) && NoCheckpoint(events, j, k, id);
    assert NoCheckpoint(events, j, k + 1, id);
  }

  lemma GrantStandsNow(events: seq<Event>, k: nat, id: InstanceId, cap: string)
    requires k < |events| && GrantsAt(events, k, id, cap)
    ensures GrantStands(events, k + 1, id, cap)
  {
    assert NoCheckpoint(events, k, k + 1, id);
  }

  lemma GrantExplained(events: seq<Event>, k: nat, id: InstanceId, n: nat)
    requires k < |events| && IdsBelow(Before(events, k))
    requires id in Before(events, k).instances && Explained(events, k, id)
    requires id in Before(events, k + 1).instances && n < |Before(events, k + 1).instances[id].grants|
    ensures GrantStands(events, k + 1, id, Before(events, k + 1).instances[id].grants[n])
  {
    hide Step, PrepareOutcome, Run, AsksAt, ConsentUndisturbed, NoCheckpoint;
    var s, e := Before(events, k), events[k];
    NextState(events, k);
    StepOnGrants(s, e, id);
    var i, i' := s.instances[id], Before(events, k + 1).instances[id];
    var cap := i'.grants[n];
    if n < |i.grants| {
      assert cap == i.grants[n];
      GrantStandsOn(events, k, id, cap);
    } else {
      if e == ResolveConsent(id, true) {
        var a: nat :| a < k && AsksAt(events, a, id, cap) && ConsentUndisturbed(events, a, k, id);
        assert ApprovesRequest(events, a, k, id, cap);
      }
      assert GrantsAt(events, k, id, cap);
      GrantStandsNow(events, k, id, cap);
    }
  }

  lemma PendingExplained(events: seq<Event>, k: nat, id: InstanceId)
    requires k < |events| && IdsBelow(Before(events, k))
    requires id in Before(events, k).instances && Explained(events, k, id)
    requires id in Before(events, k + 1).instances && Before(events, k + 1).instances[id].pending.Some?
    ensures RequestStands(events, k + 1, id, Before(events, k + 1).instances[id].pending.value)
  {
    hide Step, PrepareOutcome, Run, GrantStands;
    var s, e := Before(events, k), events[k];
    NextState(events, k);
    StepOnGrants(s, e, id);
    var cap := Before(events, k + 1).instances[id].pending.value;
    if AsksAt(events, k, id, cap) {
      assert ConsentUndisturbed(events, k, k + 1, id);
    } else {
      var a: nat :| a < k && AsksAt(events, a, id, cap) && ConsentUndisturbed(events, a, k, id);
      assert ConsentUndisturbed(events, a, k + 1, id);
    }
  }

  lemma ExplainedStep(events: seq<Event>, k: nat, id: InstanceId)
    requires k < |events| && IdsBelow(Before(events, k))
    requires id in Before(events, k).instances && Explained(events, k, id)
    requires id in Before(events, k + 1).instances
    ensures Explained(events, k + 1, id)
  {
    hide Step, Run, GrantStands, RequestStands;
    var i' := Before(events, k + 1).instances[id];
    forall n | 0 <= n < |i'.grants| ensures GrantStands(events, k + 1, id, i'.grants[n]) {
      GrantExplained(events, k, id, n);
    }
    if i'.pending.Some? {
      PendingExplained(events, k, id);
    }
  }

  lemma SpawnedOnly(s: State, e: Event, id: InstanceId)
    requires id !in s.instances && id in Step(s, e).instances
    ensures e.Spawn? && Step(s, e).instances[id].grants == [] && Step(s, e).instances[id].pending == None
    ensures Step(s, e).instances[id].manifest == e.manifest
  {
    hide Prepared, Finished, PrepareOutcome;
    StepOnKeys(s, e);
  }

  lemma {:induction false} AlwaysExplained(events: seq<Event>, k: nat, id: InstanceId)
    requires k <= |events| && id in Before(events, k).instances
    ensures Explained(events, k, id)
    decreases k
  {
    hide Step, PrepareOutcome;
    if k > 0 {
      NextState(events, k - 1);
      RunIdsBelow(events[..k - 1]);
      if id in Before(events, k - 1).instances {
        AlwaysExplained(events, k - 1, id);
        ExplainedStep(events, k - 1, id);
      } else {
        SpawnedOnly(Before(events, k - 1), events[k - 1], id);
      }
    }
  }

  /** The manifest an instance was spawned with is the one every later decision reads. */
  lemma {:induction false} ManifestIsFixed(events: seq<Event>, j: nat, k: nat, id: InstanceId)
    requires j <= k <= |events| && id in Before(events, j).instances
    ensures id in Before(events, k).instances
    ensures Before(events, k).instances[id].manifest == Before(events, j).instances[id].manifest
    decreases k
  {
    hide Step, PrepareOutcome;
    if j < k {
      ManifestIsFixed(events, j, k - 1, id);
      NextState(events, k - 1);
      RunIdsBelow(events[..k - 1]);
      StepOnGrants(Before(events, k - 1), events[k - 1], id);
    }
  }

  /**
   * No silent authority, under every interleaving: an admitted dispatch is of a baseline capability, or
   * of a requestable one that was explicitly granted on that instance with no checkpoint since.  An
   * undeclared capability is never dispatched, whatever the grants list holds.
   */
  lemma NoSilentAuthority(events: seq<Event>, k: nat, id: InstanceId, cap: string)
    requires AdmitsAt(events, k, id, cap)
    ensures
      && id in Before(events, k).instances
      && var m := Before(events, k).instances[id].manifest;
         cap in m.baseline || (cap in m.requestable && GrantStands(events, k, id, cap))
  {
    AlwaysExplained(events, k, id);
    var i := Before(events, k).instances[id];
    if cap !in i.manifest.baseline {
      var n :| 0 <= n < |i.grants| && i.grants[n] == cap;
      assert GrantStands(events, k, id, i.grants[n]);
    }
  }

  // ----- What an invoke answers, and what follows -----

  /** The instance may run `cap`: by its manifest, or by a grant of something its manifest lets it ask for. */
  predicate Entitled(i: Instance, cap: string) {
    cap in i.manifest.baseline || (cap in i.manifest.requestable && cap in i.grants)
  }

  predicate Declared(i: Instance, cap: string) {
    cap in i.manifest.baseline || cap in i.manifest.requestable
  }

  /** Suspended, with the wait not yet over. */
  predicate Recovering(s: State, id: InstanceId, now: Instant) {
    && id in s.instances && s.instances[id].state == Suspended && id in s.suspendedSince
    && now < s.suspendedSince[id] + Backoff(s.instances[id].quota.timesSuspended) * 1_000_000_000
  }

  /** Exactly when an invoke gets each of its answers. */
  lemma OutcomeIff(s: State, id: InstanceId, cap: string, now: Instant, v: Verdict)
    ensures
      var o := PrepareOutcome(s, id, cap, now, v);
      if id !in s.instances then o == NotFound
      else if Recovering(s, id, now) then o == StillRecovering
      else if s.instances[id].state in {Terminated, Completed, Failed} then o == NotInvocable
      else
        var i := s.instances[id];
        && (o == Denied <==> !Declared(i, cap))
        && (o == PendingConsent <==> Declared(i, cap) && !Entitled(i, cap))
        && (o == Unauthorized <==> Entitled(i, cap) && v == SubmitRefused)
        && (o == QuotaExceeded <==> Entitled(i, cap) && v == NotAdmitted)
        && (o == Proceed <==> Entitled(i, cap) && v == Admitted)
  {
    hide Backoff;
  }

  /** Only an invoke that goes ahead puts a dispatch in flight, and counts as a call; no other answer does. */
  lemma OutcomeEffects(s: State, id: InstanceId, cap: string, now: Instant, v: Verdict)
    requires id in s.instances
    ensures
      var o, s' := PrepareOutcome(s, id, cap, now, v), Step(s, Prepare(id, cap, now, v));
      && (o != Proceed ==> s'.inFlight == s.inFlight && s'.nextTicket == s.nextTicket)
      && (o == Proceed ==>
           s'.inFlight == s.inFlight[s.nextTicket := Dispatch(id, cap)] && s'.nextTicket == s.nextTicket + 1)
      && id in s'.instances
      && s'.instances[id].quota ==
           s.instances[id].quota.(callsUsed := s.instances[id].quota.callsUsed + if o == Proceed then 1 else 0)
      && s'.instances[id].state == (
           match o
           case Proceed => Executing
           case PendingConsent => WaitingOnCapability
           case Denied | Unauthorized | QuotaExceeded =>
             if s.instances[id].state == Suspended then Bound else s.instances[id].state
           case _ => s.instances[id].state)
  {
    hide Backoff, ResolveGrant;
  }

  /** The scheduler has the last word: what is admitted in a run, it admitted. */
  lemma SchedulerAdmits(events: seq<Event>, k: nat, id: InstanceId, cap: string)
    requires AdmitsAt(events, k, id, cap)
    ensures events[k].verdict == Admitted
  {
    OutcomeIff(Before(events, k), id, cap, events[k].preparedAt, events[k].verdict);
  }

  /** Every dispatch in flight was admitted by an earlier event, under a ticket of its own. */
  lemma {:induction false} InFlightWasAdmitted(events: seq<Event>, k: nat, ticket: Ticket) returns (j: nat)
    requires k <= |events| && ticket in Before(events, k).inFlight
    ensures
      var d := Before(events, k).inFlight[ticket];
      && j < k && AdmitsAt(events, j, d.instance, d.capability)
      && Before(events, j).nextTicket == ticket
    decreases k
  {
    hide PrepareOutcome, Run;
    assert k > 0 by { NothingAtFirst(events); }
    NextState(events, k - 1);
    var s, e := Before(events, k - 1), events[k - 1];
    if ticket in s.inFlight && s.inFlight[ticket] == Before(events, k).inFlight[ticket] {
      j := InFlightWasAdmitted(events, k - 1, ticket);
    } else {
      j := k - 1;
    }
  }

  lemma NothingAtFirst(events: seq<Event>)
    ensures Before(events, 0) == Initial
  {}

  /** How many dispatches the first `k` events admitted on `id`. */
  ghost function Admissions(events: seq<Event>, k: nat, id: InstanceId): nat
    requires k <= |events|
  {
    if k == 0 then 0
    else
      var e := events[k - 1];
      Admissions(events, k - 1, id) + if e.Prepare? && AdmitsAt(events, k - 1, id, e.capability) then 1 else 0
  }

  /** Over every run, an instance's call count is the number of dispatches admitted on it. */
  lemma {:induction false} CallsAreAdmissions(events: seq<Event>, k: nat, id: InstanceId)
    requires k <= |events|
    ensures Admissions(events, k, id) ==
      if id in Before(events, k).instances then Before(events, k).instances[id].quota.callsUsed else 0
    decreases k
  {
    hide Run, Step, PrepareOutcome;
    if k == 0 {
      NothingAtFirst(events);
    } else {
      CallsAreAdmissions(events, k - 1, id);
      NextState(events, k - 1);
      RunIdsBelow(events[..k - 1]);
      CallsStep(Before(events, k - 1), events[k - 1], id);
    }
  }

  lemma CallsStep(s: State, e: Event, id: InstanceId)
    requires IdsBelow(s)
    ensures
      var s' := Step(s, e);
      var admitted :=
        e.Prepare? && e.preparing == id && PrepareOutcome(s, id, e.capability, e.preparedAt, e.verdict) == Proceed;
      && (id in s.instances ==> id in s'.instances)
      && (id in s'.instances && id !in s.instances ==> s'.instances[id].quota.callsUsed == 0 && !admitted)
      && (id in s.instances ==>
           s'.instances[id].quota.callsUsed == s.instances[id].quota.callsUsed + if admitted then 1 else 0)
      && (id !in s.instances ==> !admitted)
  {
    hide PrepareOutcome, Backoff;
  }

  // ----- Lifecycle -----

  /** A spawn starts an instance under a new name: bound, and with nothing granted, used or pending. */
  lemma SpawnStarts(events: seq<Event>, m: Manifest, remembered: nat)
    ensures
      var s := Run(events);
      var s', id := Step(s, Spawn(m, remembered)), s.nextId;
      && id !in s.instances && id !in s.checkpoints
      && id in s'.instances && s'.instances == s.instances[id := s'.instances[id]]
      && var i := s'.instances[id];
         && i.manifest == m && i.state == Bound && i.grants == [] && i.pending == None
         && i.quota.callsUsed == i.quota.failures == i.quota.successes == 0 && i.quota.timesSuspended == remembered
  {
    hide Run;
    RunIdsBelow(events);
  }

  /** Resuming the checkpoint just taken runs the instance again, as it was but for its grants. */
  lemma CheckpointResumes(s: State, id: InstanceId)
    requires id in s.instances
    ensures
      var saved := Step(s, Checkpoint(id));
      var resumed := Step(saved, Resume(s.nextId));
      && saved.instances[id].state == Checkpointed && saved.checkpoints == s.checkpoints[s.nextId := id]
      && resumed.instances[id] == s.instances[id].(state := Executing, grants := [])
      && resumed.suspendedSince == s.suspendedSince && resumed.inFlight == s.inFlight
  {}

  /** Resuming does nothing unless the checkpoint is known and its instance is parked; a resolved consent runs it. */
  lemma OtherwiseUnmoved(s: State, c: nat, id: InstanceId, approved: bool)
    ensures
      || Step(s, Resume(c)) == s
      || (c in s.checkpoints && s.checkpoints[c] in s.instances && s.instances[s.checkpoints[c]].state == Checkpointed)
    ensures !(id in s.instances && s.instances[id].pending.Some?) ==> Step(s, ResolveConsent(id, approved)) == s
    ensures id in s.instances && s.instances[id].pending.Some? ==>
      var i := Step(s, ResolveConsent(id, approved)).instances[id];
      i.state == Executing && i.pending == None && i.quota == s.instances[id].quota
    ensures id in s.instances ==>
      && Step(s, Terminate(id)).instances[id] == s.instances[id].(state := Terminated)
      && Step(s, MarkCompleted(id)).instances[id] == s.instances[id].(state := Completed)
  {}

  // ----- What an outcome does to the breaker -----

  /** A success clears the run of failures, a failure lengthens it, and exactly the third in a row trips. */
  lemma OutcomeCounts(i: Instance)
    ensures AfterSuccess(i).quota.failures == 0 && AfterSuccess(i).state == i.state
    ensures AfterFailure(i).quota.failures == i.quota.failures + 1
    ensures i.quota.failures >= 2 ==>
      && AfterFailure(i).state == Suspended && AfterFailure(i).quota.successes == 0
      && AfterFailure(i).quota.timesSuspended == i.quota.timesSuspended + 1
    ensures i.quota.failures < 2 ==>
      && AfterFailure(i).state == i.state && AfterFailure(i).quota.successes == i.quota.successes
      && AfterFailure(i).quota.timesSuspended == i.quota.timesSuspended
  {}

  function Succeeds(i: Instance, n: nat): Instance {
    if n == 0 then i else AfterSuccess(Succeeds(i, n - 1))
  }

  /** Each three successes in a row earn back one suspension, until none is left. */
  lemma {:induction false} SuccessesEarnBack(i: Instance, n: nat)
    requires i.quota.successes == 0
    ensures
      var q, back := Succeeds(i, n).quota, n / 3;
      && q.timesSuspended == (if back <= i.quota.timesSuspended then i.quota.timesSuspended - back else 0)
      && (n > 0 ==> q.failures == 0) && q.callsUsed == i.quota.callsUsed
      && q.successes == if back < i.quota.timesSuspended then n % 3 else 0
  {
    if n > 0 {
      SuccessesEarnBack(i, n - 1);
    }
  }

  // ----- The runtime object -----

  datatype AgentError = NoSuchInstance | InvalidState

  /** The checks on a running instance: lifecycle, broker, scheduler, in that order. */
  method RouteInvoke(i: Instance, cap: string, verdict: Verdict) returns (o: Outcome, i': Instance)
    ensures o == Route(i, cap, verdict)
    ensures i.state != Suspended ==> i' == Visited(i, cap, o)
  {
    hide ResolveGrant;
    i' := i;
    if i.state == Terminated || i.state == Completed || i.state == Failed {
      return NotInvocable, i';
    }
    var decision := ResolveGrant(i, cap);
    if decision == Refuse {
      o := Denied;
    } else if decision == AskConsent {
      i' := i.(state := WaitingOnCapability, pending := Some(cap));
      o := PendingConsent;
    } else if verdict == SubmitRefused {
      o := Unauthorized;
    } else if verdict == NotAdmitted {
      o := QuotaExceeded;
    } else {
      i' := i.(state := Executing, quota := i.quota.(callsUsed := i.quota.callsUsed + 1));
      o := Proceed;
    }
  }

  lemma WakingKeepsRoute(i: Instance, cap: string, verdict: Verdict)
    requires i.state == Suspended
    ensures
      var o := Route(i, cap, verdict);
      Route(i.(state := Bound), cap, verdict) == o && Visited(i.(state := Bound), cap, o) == Visited(i, cap, o)
  {}

  /** `Prepared`, split by the three ways it can go. */
  lemma PreparedCases(s: State, id: InstanceId, cap: string, now: Instant, verdict: Verdict)
    ensures
      var s', o := Step(s, Prepare(id, cap, now, verdict)), PrepareOutcome(s, id, cap, now, verdict);
      if id !in s.instances then s' == s && o == NotFound
      else if s.instances[id].state == Suspended && !BackoffElapsed(s, id, now) then s' == s && o == StillRecovering
      else
        var i := s.instances[id];
        && o == Route(i, cap, verdict)
        && s'.instances == s.instances[id := Visited(i, cap, o)]
        && s'.suspendedSince == (if i.state == Suspended then s.suspendedSince - {id} else s.suspendedSince)
        && s'.checkpoints == s.checkpoints && s'.nextId == s.nextId
        && s'.inFlight == (if o == Proceed then s.inFlight[s.nextTicket := Dispatch(id, cap)] else s.inFlight)
        && s'.nextTicket == (if o == Proceed then s.nextTicket + 1 else s.nextTicket)
  {
    hide BackoffElapsed, Route;
    if id in s.instances {
      assert s.instances[id := s.instances[id]] == s.instances;
    }
  }

  /** The maps the runtime keeps behind its locks; each method is one locked section. */
  class Runtime {
    var instances: map<InstanceId, Instance>
    var checkpoints: map<nat, InstanceId>
    var suspendedSince: map<InstanceId, Instant>
    var nextId: nat
    var inFlight: map<Ticket, Dispatch>
    var nextTicket: Ticket

    ghost function View(): State
      reads this
    {
      State(instances, checkpoints, suspendedSince, nextId, inFlight, nextTicket)
    }

    constructor ()
      ensures View() == Initial
    {
      instances, checkpoints, suspendedSince := map[], map[], map[];
      nextId, inFlight, nextTicket := 1, map[], 1;
    }

    method SpawnInstance(manifest: Manifest, remembered: nat) returns (id: InstanceId)
      modifies this
      ensures View() == Step(old(View()), Spawn(manifest, remembered)) && id == old(nextId)
    {
      id := nextId;
      nextId := nextId + 1;
      instances := instances[id := Instance(manifest, Bound, [], Quota(0, 0, remembered, 0), None)];
    }

    /** Phase 1 of `invoke`: auto-resume first, then `RouteInvoke`. */
    method PrepareInvoke(id: InstanceId, cap: string, now: Instant, verdict: Verdict)
      returns (o: Outcome, ticket: Ticket)
      modifies this
      ensures View() == Step(old(View()), Prepare(id, cap, now, verdict))
      ensures o == PrepareOutcome(old(View()), id, cap, now, verdict)
      ensures o == Proceed ==> ticket == old(nextTicket) && ticket in inFlight && inFlight[ticket] == Dispatch(id, cap)
    {
      hide Backoff, Visited, Route, Step, PrepareOutcome;
      PreparedCases(View(), id, cap, now, verdict);
      ticket := nextTicket;
      if id !in instances {
        return NotFound, ticket;
      }
      var i := instances[id];
      if i.state == Suspended {
        if id !in suspendedSince || now >= suspendedSince[id] + Backoff(i.quota.timesSuspended) * Second {
          WakingKeepsRoute(i, cap, verdict);
          i := i.(state := Bound);
          suspendedSince := suspendedSince - {id};
        } else {
          return StillRecovering, ticket;
        }
      }
      o, i := RouteInvoke(i, cap, verdict);
      if o == Proceed {
        inFlight := inFlight[ticket := Dispatch(id, cap)];
        nextTicket := nextTicket + 1;
      }
      instances := instances[id := i];
    }

    /** Phase 3 of `invoke`: the outcome is recorded, and a run of failures suspends the instance. */
    method FinishInvoke(ticket: Ticket, succeeded: bool, now: Instant) returns (r: Result<(), AgentError>)
      requires ticket in inFlight
      modifies this
      ensures View() == Step(old(View()), Finish(ticket, succeeded, now))
      ensures r.Ok? <==> old(inFlight)[ticket].instance in old(instances)
    {
      var id := inFlight[ticket].instance;
      inFlight := inFlight - {ticket};
      if id !in instances {
        return Err(NoSuchInstance);
      }
      var i := instances[id];
      var q := i.quota;
      if succeeded {
        q := q.(failures := 0);
        if q.timesSuspended != 0 {
          q := q.(successes := q.successes + 1);
          if q.successes >= StreakToDecay {
            q := q.(timesSuspended := q.timesSuspended - 1, successes := 0);
          }
        }
        instances := instances[id := i.(quota := q)];
      } else {
        q := q.(failures := q.failures + 1);
        if q.failures >= BreakerThreshold {
          i := i.(state := Suspended);
          suspendedSince := suspendedSince[id := now];
          q := q.(timesSuspended := q.timesSuspended + 1, successes := 0);
        }
        instances := instances[id := i.(quota := q)];
      }
      r := Ok(());
    }

    method ResolvePendingConsent(id: InstanceId, approved: bool) returns (r: Result<(), AgentError>)
      modifies this
      ensures View() == Step(old(View()), ResolveConsent(id, approved))
      ensures r == if id !in old(instances) then Err(NoSuchInstance)
                   else if old(instances)[id].pending.None? then Err(InvalidState) else Ok(())
    {
      if id !in instances {
        return Err(NoSuchInstance);
      }
      var i := instances[id];
      if i.pending.None? {
        return Err(InvalidState);
      }
      if approved {
        i := i.(grants := i.grants + [i.pending.value]);
      }
      instances := instances[id := i.(pending := None, state := Executing)];
      r := Ok(());
    }

    method Grant(id: InstanceId, cap: string) returns (r: Result<(), AgentError>)
      modifies this
      ensures View() == Step(old(View()), GrantCapability(id, cap))
      ensures r.Ok? <==> id in old(instances)
    {
      if id !in instances {
        return Err(NoSuchInstance);
      }
      instances := instances[id := instances[id].(grants := instances[id].grants + [cap])];
      r := Ok(());
    }

    method TakeCheckpoint(id: InstanceId) returns (r: Result<nat, AgentError>)
      modifies this
      ensures View() == Step(old(View()), Checkpoint(id))
      ensures r == if id in old(instances) then Ok(old(nextId)) else Err(NoSuchInstance)
    {
      if id !in instances {
        return Err(NoSuchInstance);
      }
      var c := nextId;
      nextId := nextId + 1;
      instances := instances[id := instances[id].(grants := [], state := Checkpointed)];
      checkpoints := checkpoints[c := id];
      r := Ok(c);
    }

    method ResumeFrom(c: nat) returns (r: Result<InstanceId, AgentError>)
      modifies this
      ensures View() == Step(old(View()), Resume(c))
      ensures r.Ok? <==>
        && c in old(checkpoints) && old(checkpoints)[c] in old(instances)
        && old(instances)[old(checkpoints)[c]].state == Checkpointed
      ensures r.Ok? ==> r.value == old(checkpoints)[c]
    {
      if c !in checkpoints || checkpoints[c] !in instances {
        return Err(NoSuchInstance);
      }
      var id := checkpoints[c];
      if instances[id].state != Checkpointed {
        return Err(InvalidState);
      }
      instances := instances[id := instances[id].(state := Executing)];
      r := Ok(id);
    }

    method End(id: InstanceId, completed: bool) returns (r: Result<(), AgentError>)
      modifies this
      ensures View() == Step(old(View()), if completed then MarkCompleted(id) else Terminate(id))
      ensures r.Ok? <==> id in old(instances)
    {
      if id !in instances {
        return Err(NoSuchInstance);
      }
      instances := instances[id := instances[id].(state := if completed then Completed else Terminated)];
      r := Ok(());
    }
  }
}
