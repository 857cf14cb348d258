/**
Compatibility sessions (crates/hyperion-compat/src/host.rs) as a client of the capability monitor:
`grant` derives tokens for a session, `terminate` revokes everything the session was granted.
*/
module Compat {
  import opened Common
  import opened Revocation
  import opened Monitor
  import opened Finality

  type SessionId = nat

  datatype Session = Session(boundary: nat, grants: seq<Token>)

  datatype CompatError = Unauthorized | NoSuchSession | Capability(fault: Fault)

  const GRANT: RightsMask := 16
  const REVOKE: RightsMask := 32

  /** The calls `terminate` makes on the monitor: one revocation per grant, in order. */
  function Revocations(grants: seq<Token>): seq<Call> {
    seq(|grants|, i requires 0 <= i < |grants| => Revoke(grants[i]))
  }

  /** A monitor state after a sequence of calls. */
  function Steps(s: State, calls: seq<Call>): State {
    if calls == [] then s else Step(Steps(s, calls[..|calls| - 1]), calls[|calls| - 1])
  }

  lemma {:induction false} RunContinues(trace: seq<Call>, calls: seq<Call>)
    ensures Run(trace + calls) == Steps(Run(trace), calls)
  {
    if calls == [] {
      assert trace + calls == trace;
    } else {
      var all := trace + calls;
      assert all[..|all| - 1] == trace + calls[..|calls| - 1];
      RunContinues(trace, calls[..|calls| - 1]);
    }
  }

  // ----- Sessions and their monitor, over whole histories -----

  /** A host, and every call its monitor has taken so far. */
  datatype System = System(sessions: map<SessionId, Session>, nextSession: SessionId, trace: seq<Call>)

  datatype Action =
    | Direct(call: Call)
    | Launch(boundary: nat)
    | Grant(admin: Token, session: SessionId, rights: RightsMask, now: Instant)
    | Terminate(revoker: Token, ended: SessionId, endedAt: Instant)

  predicate Authorized(s: System, t: Token, required: RightsMask, now: Instant) {
    CheckRights(Run(s.trace).nodes, t, required, now).Ok?
  }

  function GrantCall(admin: Token, rights: RightsMask, boundary: nat, now: Instant): Call {
    Derive(admin, rights, None, boundary, now, now)
  }

  function Act(s: System, a: Action): System {
    match a
    case Direct(call) => s.(trace := s.trace + [call])
    case Launch(boundary) =>
      s.(sessions := s.sessions[s.nextSession := Session(boundary, [])], nextSession := s.nextSession + 1)
    case Grant(admin, id, rights, now) =>
      if !Authorized(s, admin, GRANT, now) || id !in s.sessions then s
      else
        var call := GrantCall(admin, rights, s.sessions[id].boundary, now);
        var issued := Issue(Run(s.trace), call);
        if issued.None? then s
        else s.(sessions := s.sessions[id := s.sessions[id].(grants := s.sessions[id].grants + [issued.value])],
                trace := s.trace + [call])
    case Terminate(admin, id, now) =>
      if !Authorized(s, admin, REVOKE, now) || id !in s.sessions then s
      else s.(sessions := s.sessions - {id}, trace := s.trace + Revocations(s.sessions[id].grants))
  }

  function History(actions: seq<Action>): System {
    if actions == [] then System(map[], 1, [])
    else Act(History(actions[..|actions| - 1]), actions[|actions| - 1])
  }

  ghost predicate IssuedIn(trace: seq<Call>, t: Token) {
    exists i: nat :: i < |trace| && IssuedBy(trace, i) == Some(t)
  }

  lemma IssuedInGrows(trace: seq<Call>, more: seq<Call>, t: Token)
    requires IssuedIn(trace, t)
    ensures IssuedIn(trace + more, t)
  {
    var i: nat :| i < |trace| && IssuedBy(trace, i) == Some(t);
    assert (trace + more)[..i] == trace[..i];
    assert IssuedBy(trace + more, i) == Some(t);
  }

  /** Sessions hold only tokens the monitor issued. */
  ghost predicate GrantsIssued(s: System) {
    forall id, k | id in s.sessions && 0 <= k < |s.sessions[id].grants| ::
      IssuedIn(s.trace, s.sessions[id].grants[k])
  }

  lemma ActKeepsGrantsIssued(s: System, a: Action)
    requires GrantsIssued(s)
    ensures GrantsIssued(Act(s, a))
    ensures s.trace <= Act(s, a).trace
  {
    var s' := Act(s, a);
    var more := s'.trace[|s.trace|..];
    assert s'.trace == s.trace + more;
    forall id, k | id in s'.sessions && 0 <= k < |s'.sessions[id].grants|
      ensures IssuedIn(s'.trace, s'.sessions[id].grants[k])
    {
      var t := s'.sessions[id].grants[k];
      if id in s.sessions && k < |s.sessions[id].grants| {
        IssuedInGrows(s.trace, more, t);
      } else {
        assert s'.trace[..|s.trace|] == s.trace;
        assert IssuedBy(s'.trace, |s.trace|) == Some(t);
      }
    }
  }

  lemma {:induction false} HistoryGrantsIssued(actions: seq<Action>)
    ensures GrantsIssued(History(actions))
  {
    if actions != [] {
      HistoryGrantsIssued(actions[..|actions| - 1]);
      ActKeepsGrantsIssued(History(actions[..|actions| - 1]), actions[|actions| - 1]);
    }
  }

  ghost predicate UnderSome(g: Graph, grants: seq<Token>, id: TokenId) {
    exists k :: 0 <= k < |grants| && Under(g, grants[k].tokenId, id)
  }

  /** After the revocations, a token issued earlier has been revoked once per grant above it. */
  lemma RevocationsReach(trace: seq<Call>, grants: seq<Token>, i: nat)
    requires i < |trace| && IssuedBy(trace, i).Some?
    ensures
      var id := IssuedBy(trace, i).value.tokenId;
      var after := trace + Revocations(grants);
      && IssuedBy(after, i) == IssuedBy(trace, i)
      && RevocationsSince(after, i, id) == RevocationsSince(trace, i, id) + HitsFrom(trace, grants, id)
      && RevocationsSince(trace, i, id) !! HitsFrom(trace, grants, id)
  {
    hide Step, Issue, Run;
    var t := IssuedBy(trace, i).value;
    var after := trace + Revocations(grants);
    assert after[..i] == trace[..i] && after[i] == trace[i];
    GenerationCountsRevocations(trace, i);
    TraceExtends(trace, Revocations(grants));
    forall j: nat | j < |after| && i < j
      ensures RevokesAt(after, j, t.tokenId) ==
        if j < |trace| then RevokesAt(trace, j, t.tokenId) else j in HitsFrom(trace, grants, t.tokenId)
    {
      if after[j].Revoke? {
        ExtensionKeepsUnder(Run(trace).nodes, Run(after).nodes, after[j].token.tokenId, t.tokenId);
      }
    }
  }

  /** Position `j`, after `trace`, is a revocation that hits `id`. */
  ghost predicate HitAt(trace: seq<Call>, grants: seq<Token>, j: nat, id: TokenId) {
    |trace| <= j < |trace| + |grants| && Under(Run(trace).nodes, grants[j - |trace|].tokenId, id)
  }

  ghost function HitsFrom(trace: seq<Call>, grants: seq<Token>, id: TokenId): set<nat> {
    set j: nat | j < |trace| + |grants| && HitAt(trace, grants, j, id)
  }

  /**
   * Once a session is terminated, every value of a token granted to it, or derived from one at any depth
   * before, whose generation had been reached is dead, and stays dead through whatever the monitor does next
   * until the revocations have come all the way round.
   */
  lemma TerminatedGrantsStayDead(actions: seq<Action>, admin: Token, id: SessionId, now: Instant,
                                 more: seq<Call>, i: nat, t: Token, later: Instant)
    requires
      var s := History(actions);
      && Authorized(s, admin, REVOKE, now) && id in s.sessions
      && i < |s.trace| && IssuedBy(s.trace, i).Some? && IssuedBy(s.trace, i).value.tokenId == t.tokenId
      && t.generation <= |RevocationsSince(s.trace, i, t.tokenId)|
      && UnderSome(Run(s.trace).nodes, s.sessions[id].grants, t.tokenId)
    ensures
      var trace := Act(History(actions), Terminate(admin, id, now)).trace + more;
      |RevocationsSince(trace, i, t.tokenId)| < t.generation + U64 ==> !IsLive(Run(trace).nodes, t, later)
  {
    hide Run, RevocationsSince;
    var s := History(actions);
    var grants := s.sessions[id].grants;
    var k :| 0 <= k < |grants| && Under(Run(s.trace).nodes, grants[k].tokenId, t.tokenId);
    RevocationsReach(s.trace, grants, i);
    assert HitAt(s.trace, grants, |s.trace| + k, t.tokenId);
    assert |s.trace| + k in HitsFrom(s.trace, grants, t.tokenId);
    RevokedStaysDead(s.trace + Revocations(grants), more, i, t, later);
  }

  /**
   * Termination is final, for fewer than 2^64 revocations of any one token and derivations that present issued
   * generations: whatever the monitor does afterwards, nothing it ever issues beneath a grant of the session,
   * then or later, is live.
   */
  lemma TerminationIsFinal(actions: seq<Action>, admin: Token, id: SessionId, now: Instant,
                           more: seq<Call>, t: Token, later: Instant)
    requires Authorized(History(actions), admin, REVOKE, now) && id in History(actions).sessions
    requires
      var trace := Act(History(actions), Terminate(admin, id, now)).trace + more;
      && NoFullTurn(trace) && PresentsGenerationZero(trace)
      && t.generation == 0 && UnderSome(Run(trace).nodes, History(actions).sessions[id].grants, t.tokenId)
    ensures
      var trace := Act(History(actions), Terminate(admin, id, now)).trace + more;
      !IsLive(Run(trace).nodes, t, later)
  {
    hide Run, Under, NoFullTurn, PresentsGenerationZero, IssuedBy;
    var s := History(actions);
    var grants := s.sessions[id].grants;
    var trace := s.trace + Revocations(grants) + more;
    var k :| 0 <= k < |grants| && Under(Run(trace).nodes, grants[k].tokenId, t.tokenId);
    var r := |s.trace| + k;
    assert trace[r] == Revoke(grants[k]);
    GrantKnown(actions, id, k);
    assert trace[..r] == s.trace + Revocations(grants)[..k];
    TraceExtends(s.trace, Revocations(grants)[..k]);
    RevokedSubtreeIsDead(trace, r, t, later);
  }

  lemma GrantKnown(actions: seq<Action>, id: SessionId, k: nat)
    requires id in History(actions).sessions && k < |History(actions).sessions[id].grants|
    ensures History(actions).sessions[id].grants[k].tokenId in Run(History(actions).trace).nodes
  {
    hide Run;
    var s := History(actions);
    HistoryGrantsIssued(actions);
    var t := s.sessions[id].grants[k];
    assert IssuedIn(s.trace, t);
    var i: nat :| i < |s.trace| && IssuedBy(s.trace, i) == Some(t);
    GenerationCountsRevocations(s.trace, i);
  }

  /** Without that condition it is not: a terminated grant, presented at its new generation, delegates again. */
  lemma TerminatedGrantEscapes(actions: seq<Action>, admin: Token, id: SessionId, now: Instant, k: nat)
    requires Authorized(History(actions), admin, REVOKE, now) && id in History(actions).sessions
    requires k < |History(actions).sessions[id].grants| && !IsExpired(History(actions).sessions[id].grants[k], now)
    ensures
      var grant := History(actions).sessions[id].grants[k];
      var trace := Act(History(actions), Terminate(admin, id, now)).trace;
      exists g: nat ::
        var derive := Derive(grant.(generation := g), grant.rights, None, 0, now, now);
        && Issue(Run(trace), derive).Some?
        && IsLive(Step(Run(trace), derive).nodes, Issue(Run(trace), derive).value, now)
        && Under(Step(Run(trace), derive).nodes, grant.tokenId, Issue(Run(trace), derive).value.tokenId)
  {
    hide Run, Under, Step, Issue, RevocationsSince, IsLive;
    var s := History(actions);
    var grant := s.sessions[id].grants[k];
    var trace := s.trace + Revocations(s.sessions[id].grants);
    HistoryGrantsIssued(actions);
    assert IssuedIn(s.trace, grant);
    IssuedInGrows(s.trace, Revocations(s.sessions[id].grants), grant);
    var i: nat :| i < |trace| && IssuedBy(trace, i) == Some(grant);
    BumpedValueEscapes(trace, i, grant.rights, now);
  }

  /** Terminating a session leaves the liveness of every token value outside its grants' subtrees as it was. */
  lemma TerminateSparesOthers(actions: seq<Action>, admin: Token, id: SessionId, now: Instant, t: Token, later: Instant)
    requires id in History(actions).sessions && t.tokenId in Run(History(actions).trace).nodes
    requires !UnderSome(Run(History(actions).trace).nodes, History(actions).sessions[id].grants, t.tokenId)
    ensures
      var s := History(actions);
      IsLive(Run(Act(s, Terminate(admin, id, now)).trace).nodes, t, later) == IsLive(Run(s.trace).nodes, t, later)
  {
    hide Run, RevocationsSince;
    var s := History(actions);
    if Authorized(s, admin, REVOKE, now) {
      var grants := s.sessions[id].grants;
      var i := EveryNodeIssued(s.trace, t.tokenId);
      RevocationsReach(s.trace, grants, i);
      assert HitsFrom(s.trace, grants, t.tokenId) == {};
      GenerationCountsRevocations(s.trace, i);
      GenerationCountsRevocations(s.trace + Revocations(grants), i);
    }
  }

  /** The tokens of a session are themselves among the tokens that die with it. */
  lemma GrantsAreUnderThemselves(actions: seq<Action>, id: SessionId, k: nat)
    requires id in History(actions).sessions && k < |History(actions).sessions[id].grants|
    ensures
      var s := History(actions);
      var t := s.sessions[id].grants[k];
      IssuedIn(s.trace, t) && UnderSome(Run(s.trace).nodes, s.sessions[id].grants, t.tokenId)
  {
    HistoryGrantsIssued(actions);
    var s := History(actions);
    assert Under(Run(s.trace).nodes, s.sessions[id].grants[k].tokenId, s.sessions[id].grants[k].tokenId);
  }

  /** The rights the host asks of its callers are the fifth and the sixth bit of a mask, each alone. */
  lemma HostRights(i: nat)
    requires i < 32
    ensures (Bit(GRANT, i) <==> i == 4) && (Bit(REVOKE, i) <==> i == 5)
  {
    hide Bit, MaskOf;
    var grant, revoke := OneBit(4), OneBit(5);
    OneBitMask();
    BitOfMask(grant, i);
    BitOfMask(revoke, i);
  }

  function OneBit(k: nat): (bits: seq<bool>)
    ensures |bits| == 32 && forall i | 0 <= i < 32 :: bits[i] == (i == k)
  {
    seq(32, i => i == k)
  }

  lemma OneBitMask()
    ensures MaskOf(OneBit(4)) == GRANT && MaskOf(OneBit(5)) == REVOKE
  {
    hide MaskOf, OneBit;
    ShiftedMask(OneBit(4), 4);
    ShiftedMask(OneBit(5), 5);
    assert Pow2(2) == 4 && Pow2(4) == 16 && Pow2(5) == 32;
  }

  lemma {:induction false} ShiftedMask(bits: seq<bool>, k: nat)
    requires k < |bits| && forall i | 0 <= i < |bits| :: bits[i] == (i == k)
    ensures MaskOf(bits) == Pow2(k)
  {
    if k == 0 {
      NoBits(bits[1..]);
    } else {
      ShiftedMask(bits[1..], k - 1);
    }
  }

  lemma {:induction false} NoBits(bits: seq<bool>)
    requires forall i | 0 <= i < |bits| :: !bits[i]
    ensures MaskOf(bits) == 0
  {
    if bits != [] {
      NoBits(bits[1..]);
    }
  }

  /** Sessions are named from a counter that is past all of them. */
  predicate SessionsBelow(s: System) {
    forall id | id in s.sessions :: id < s.nextSession
  }

  lemma {:induction false} HistorySessionsBelow(actions: seq<Action>)
    ensures SessionsBelow(History(actions))
  {
    hide Run, Issue, CheckRights;
    if actions != [] {
      HistorySessionsBelow(actions[..|actions| - 1]);
    }
  }

  /** A launch opens a session under a new name, for the boundary given, with nothing granted. */
  lemma LaunchOpens(actions: seq<Action>, boundary: nat)
    ensures
      var s := History(actions);
      var s' := Act(s, Launch(boundary));
      && s.nextSession !in s.sessions && s'.sessions == s.sessions[s.nextSession := Session(boundary, [])]
      && s'.trace == s.trace && SessionsBelow(s')
  {
    hide History;
    HistorySessionsBelow(actions);
  }

  /** What a session is granted: the rights asked for, for its own boundary, within the life of the grantor. */
  lemma GrantedToken(s: System, admin: Token, id: SessionId, rights: RightsMask, now: Instant)
    requires id in s.sessions && Authorized(s, admin, GRANT, now)
    ensures
      var s' := Act(s, Grant(admin, id, rights, now));
      var grants := s.sessions[id].grants;
      && s'.sessions.Keys == s.sessions.Keys
      && (forall j | j in s.sessions && j != id :: s'.sessions[j] == s.sessions[j])
      && s'.sessions[id].boundary == s.sessions[id].boundary
      && (if !Contains(admin.rights, rights) then s'.sessions[id].grants == grants
          else
            && |s'.sessions[id].grants| == |grants| + 1 && s'.sessions[id].grants[..|grants|] == grants
            && var t := s'.sessions[id].grants[|grants|];
               && t.rights == rights && t.origin == s.sessions[id].boundary && t.objectId == admin.objectId
               && t.expiry == admin.expiry && IsLive(Run(s'.trace).nodes, t, now))
  {
    hide Contains, Run, Forest;
    var call := GrantCall(admin, rights, s.sessions[id].boundary, now);
    DeriveHonoursRequest(Run(s.trace), admin, rights, None, s.sessions[id].boundary, now, now);
    RunContinues(s.trace, [call]);
    assert [call][..0] == [];
    assert Steps(Run(s.trace), []) == Run(s.trace);
    RunsAreWellFormed(s.trace);
  }

  // ----- The host object -----

  class CompatHost {
    var sessions: map<SessionId, Session>
    var nextSession: SessionId

    constructor ()
      ensures sessions == map[] && nextSession == 1
    {
      sessions, nextSession := map[], 1;
    }

    /** The host and its monitor are the system `s`. */
    ghost predicate Represents(monitor: CapabilityMonitor, s: System)
      reads this, monitor, monitor.graph, monitor.ids
    {
      sessions == s.sessions && nextSession == s.nextSession && monitor.View() == Run(s.trace)
    }

    method GrantTo(monitor: CapabilityMonitor, admin: Token, id: SessionId, rights: RightsMask, now: Instant)
      returns (r: Result<(), CompatError>)
      requires monitor.Valid()
      modifies this, monitor, monitor.graph, monitor.ids
      ensures monitor.Valid() && nextSession == old(nextSession)
      ensures r.Ok? ==>
        && id in old(sessions) && CheckRights(old(monitor.graph.nodes), admin, GRANT, now).Ok?
        && var call := GrantCall(admin, rights, old(sessions)[id].boundary, now);
           var issued := Issue(old(monitor.View()), call);
           && issued.Some? && monitor.View() == Step(old(monitor.View()), call)
           && sessions == old(sessions)[id := old(sessions)[id].(grants := old(sessions)[id].grants + [issued.value])]
      ensures r.Err? ==> sessions == old(sessions) && monitor.View() == old(monitor.View())
      ensures r == Err(Unauthorized) <==> CheckRights(old(monitor.graph.nodes), admin, GRANT, now).Err?
      ensures r == Err(NoSuchSession) <==>
        CheckRights(old(monitor.graph.nodes), admin, GRANT, now).Ok? && id !in old(sessions)
      ensures forall s | old(Represents(monitor, s)) :: Represents(monitor, Act(s, Grant(admin, id, rights, now)))
    {
      hide Contains, Forest, Under;
      if CheckRights(monitor.graph.nodes, admin, GRANT, now).Err? {
        return Err(Unauthorized);
      }
      if id !in sessions {
        return Err(NoSuchSession);
      }
      var session := sessions[id];
      var derived := monitor.CapDerive(admin, rights, None, session.boundary, now, now);
      if derived.Err? {
        return Err(Capability(derived.error));
      }
      sessions := sessions[id := session.(grants := session.grants + [derived.value])];
      r := Ok(());
      forall s: System, call: Call ensures Run(s.trace + [call]) == Step(Run(s.trace), call) {
        RunContinues(s.trace, [call]);
      }
    }

    /** Every grant is revoked; the session is forgotten even though its tokens' nodes remain. */
    method EndSession(monitor: CapabilityMonitor, admin: Token, id: SessionId, now: Instant)
      returns (r: Result<(), CompatError>)
      requires monitor.Valid()
      modifies this, monitor.graph
      ensures monitor.Valid() && nextSession == old(nextSession)
      ensures r.Ok? ==>
        && id in old(sessions) && CheckRights(old(monitor.graph.nodes), admin, REVOKE, now).Ok?
        && sessions == old(sessions) - {id}
        && monitor.View() == Steps(old(monitor.View()), Revocations(old(sessions)[id].grants))
      ensures r.Err? ==> sessions == old(sessions) && monitor.View() == old(monitor.View())
      ensures r == Err(Unauthorized) <==> CheckRights(old(monitor.graph.nodes), admin, REVOKE, now).Err?
      ensures r.Err? && r.error != Unauthorized ==> r.error == NoSuchSession && id !in old(sessions)
      ensures forall s | old(Represents(monitor, s)) :: Represents(monitor, Act(s, Terminate(admin, id, now)))
    {
      hide Contains, Forest, Under, Step, Steps, Run;
      if CheckRights(monitor.graph.nodes, admin, REVOKE, now).Err? {
        return Err(Unauthorized);
      }
      if id !in sessions {
        return Err(NoSuchSession);
      }
      var session := sessions[id];
      sessions := sessions - {id};
      RevokeAll(monitor, session.grants);
      r := Ok(());
      ghost var calls := Revocations(session.grants);
      forall s: System ensures Run(s.trace + calls) == Steps(Run(s.trace), calls) {
        RunContinues(s.trace, calls);
      }
    }

    /** The loop of `terminate`. */
    method RevokeAll(monitor: CapabilityMonitor, grants: seq<Token>)
      requires monitor.Valid()
      modifies monitor.graph
      ensures monitor.Valid() && monitor.View() == Steps(old(monitor.View()), Revocations(grants))
    {
      hide Contains, Forest, Under, Step;
      ghost var before := monitor.View();
      ghost var calls := Revocations(grants);
      for k := 0 to |grants|
        invariant monitor.Valid() && monitor.View() == Steps(before, calls[..k])
      {
        var _ := monitor.CapRevoke(grants[k]);
        assert calls[..k + 1][..k] == calls[..k];
      }
      assert calls[..|grants|] == calls;
    }
  }
}
