/**
The capability monitor (crates/hyperion-capability/src/monitor.rs) over the revocation graph, and
what holds over whole runs of it: a token is live exactly while no revocation of itself or of an
ancestor has been counted against it.

Instants are natural numbers on one clock; every call that reads the clock takes the instants it read.
*/
module Monitor {
  import opened Common
  import opened Revocation

  type Instant = nat

  datatype Token = Token(
    tokenId: TokenId,
    objectId: ObjectId,
    rights: RightsMask,
    generation: nat,
    origin: nat,
    expiry: Option<Instant>)

  datatype Fault = NoSuchCapability | RevokedFault | Expired | InsufficientRights | CannotEscalate | SignatureInvalid

  predicate IsExpired(t: Token, now: Instant) {
    t.expiry.Some? && now > t.expiry.value
  }

  function MinExpiry(a: Option<Instant>, b: Option<Instant>): Option<Instant> {
    match (a, b)
    case (Some(x), Some(y)) => Some(if x <= y then x else y)
    case (Some(x), None) => Some(x)
    case (None, Some(y)) => Some(y)
    case (None, None) => None
  }

  function After(now: Instant, ttl: Option<nat>): Option<Instant> {
    if ttl.Some? then Some(now + ttl.value) else None
  }

  predicate MatchesRecord(g: Graph, id: TokenId, objectId: ObjectId, rights: RightsMask) {
    id in g && g[id].objectId == objectId && g[id].rights == rights
  }

  // ----- The checks -----

  /** `a` expires no later than `b`; no expiry is the latest of all. */
  predicate NoLater(a: Option<Instant>, b: Option<Instant>) {
    b.None? || (a.Some? && a.value <= b.value)
  }

  predicate IsLive(g: Graph, t: Token, now: Instant) {
    && MatchesRecord(g, t.tokenId, t.objectId, t.rights)
    && t.tokenId in g && g[t.tokenId].liveGeneration == t.generation
    && !IsExpired(t, now)
  }

  /** `Ok` or the fault; the three refusals are tried in the source's order. */
  function CheckLive(g: Graph, t: Token, now: Instant): Result<(), Fault> {
    if !MatchesRecord(g, t.tokenId, t.objectId, t.rights) then Err(NoSuchCapability)
    else if g[t.tokenId].liveGeneration != t.generation then Err(RevokedFault)
    else if IsExpired(t, now) then Err(Expired)
    else Ok(())
  }

  function CheckRights(g: Graph, t: Token, required: RightsMask, now: Instant): Result<(), Fault> {
    var live := CheckLive(g, t, now);
    if live.Err? then live
    else if !Contains(t.rights, required) then Err(InsufficientRights)
    else Ok(())
  }

  /**
   * Whatever token value is presented, however it was built: one that passes claims exactly what its
   * node records, and every ancestor up to the root holds the required rights over the same object.
   */
  lemma NoForgedAuthority(g: Graph, t: Token, required: RightsMask, now: Instant, a: TokenId)
    requires Forest(g) && Under(g, a, t.tokenId)
    ensures CheckRights(g, t, required, now).Ok? ==>
      && IsLive(g, t, now) && a in g
      && g[a].objectId == t.objectId && Contains(g[a].rights, t.rights) && Contains(g[a].rights, required)
  {
    if CheckRights(g, t, required, now).Ok? {
      DelegationAttenuates(g, a, t.tokenId);
    }
  }

  // ----- State and steps -----

  /** The graph and the counters; `nextToken` is the process-wide counter all monitors share. */
  datatype State = State(nodes: Graph, nextToken: TokenId, nextObject: ObjectId)

  const Initial := State(map[], 1, 0)

  datatype Call =
    | NewObject
    | TokenElsewhere
    | MintRoot(rootRights: RightsMask, rootOrigin: nat, rootTtl: Option<nat>, rootNow: Instant)
    | Derive(parent: Token, rights: RightsMask, ttl: Option<nat>, origin: nat, checkedAt: Instant, stampedAt: Instant)
    | Revoke(token: Token)

  predicate DeriveAllowed(s: State, parent: Token, rights: RightsMask, now: Instant) {
    CheckLive(s.nodes, parent, now).Ok? && Contains(parent.rights, rights)
  }

  function Issue(s: State, c: Call): Option<Token> {
    match c
    case MintRoot(rights, origin, ttl, now) =>
      Some(Token(s.nextToken, s.nextObject, rights, 0, origin, After(now, ttl)))
    case Derive(parent, rights, ttl, origin, checkedAt, stampedAt) =>
      if DeriveAllowed(s, parent, rights, checkedAt)
      then Some(Token(s.nextToken, parent.objectId, rights, 0, origin, MinExpiry(parent.expiry, After(stampedAt, ttl))))
      else None
    case _ => None
  }

  function Step(s: State, c: Call): State {
    match c
    case NewObject => s.(nextObject := s.nextObject + 1)
    case TokenElsewhere => s.(nextToken := s.nextToken + 1)
    case MintRoot(rights, _, _, _) =>
      State(WithRoot(s.nodes, s.nextToken, s.nextObject, rights), s.nextToken + 1, s.nextObject + 1)
    case Derive(parent, rights, _, _, checkedAt, _) =>
      if DeriveAllowed(s, parent, rights, checkedAt)
      then s.(nodes := WithChild(s.nodes, parent.tokenId, s.nextToken, parent.objectId, rights),
              nextToken := s.nextToken + 1)
      else s
    case Revoke(token) => s.(nodes := Revoked(s.nodes, token.tokenId))
  }

  predicate WellFormed(s: State) {
    Forest(s.nodes) && forall id | id in s.nodes :: id < s.nextToken
  }

  lemma StepKeepsWellFormed(s: State, c: Call)
    requires WellFormed(s)
    ensures WellFormed(Step(s, c))
    ensures Extends(s.nodes, Step(s, c).nodes) && s.nextToken <= Step(s, c).nextToken
  {
    hide Under, Forest, Contains;
    match c
    case NewObject =>
    case TokenElsewhere =>
    case MintRoot(rights, _, _, _) => WithRootKeepsForest(s.nodes, s.nextToken, s.nextObject, rights);
    case Derive(parent, rights, _, _, checkedAt, _) =>
      if DeriveAllowed(s, parent, rights, checkedAt) {
        WithChildKeepsForest(s.nodes, parent.tokenId, s.nextToken, parent.objectId, rights);
      }
    case Revoke(token) => BumpedKeepsForest(s.nodes, Subtree(s.nodes, token.tokenId));
  }

  // ----- Runs -----

  function Run(calls: seq<Call>): State {
    if calls == [] then Initial else Step(Run(calls[..|calls| - 1]), calls[|calls| - 1])
  }

  lemma {:induction false} RunsAreWellFormed(calls: seq<Call>)
    ensures WellFormed(Run(calls))
  {
    if calls != [] {
      RunsAreWellFormed(calls[..|calls| - 1]);
      StepKeepsWellFormed(Run(calls[..|calls| - 1]), calls[|calls| - 1]);
    }
  }

  /** Whatever is called later, no node is dropped, re-parented or re-labelled. */
  lemma {:induction false} TraceExtends(trace: seq<Call>, more: seq<Call>)
    ensures Forest(Run(trace).nodes) && Extends(Run(trace).nodes, Run(trace + more).nodes)
    decreases |more|
  {
    RunsAreWellFormed(trace);
    var all := trace + more;
    if more == [] {
      assert all == trace;
    } else {
      assert all[..|all| - 1] == trace + more[..|more| - 1];
      TraceExtends(trace, more[..|more| - 1]);
      RunsAreWellFormed(all[..|all| - 1]);
      StepKeepsWellFormed(Run(all[..|all| - 1]), all[|all| - 1]);
    }
  }

  /** The token that call `i` of the run handed out, if any. */
  function IssuedBy(calls: seq<Call>, i: nat): Option<Token>
    requires i < |calls|
  {
    Issue(Run(calls[..i]), calls[i])
  }

  predicate RevokesAt(calls: seq<Call>, j: nat, id: TokenId)
    requires j < |calls|
  {
    calls[j].Revoke? && Under(Run(calls).nodes, calls[j].token.tokenId, id)
  }

  /** The calls after `i` that revoked `id` or one of its ancestors. */
  function RevocationsSince(calls: seq<Call>, i: nat, id: TokenId): set<nat> {
    set j: nat | j < |calls| && i < j && RevokesAt(calls, j, id)
  }

  lemma RunPrefix(calls: seq<Call>, i: nat)
    requires i < |calls| && |calls| > 1 && i < |calls| - 1
    ensures
      var shorter := calls[..|calls| - 1];
      shorter[i] == calls[i] && shorter[..i] == calls[..i] && IssuedBy(shorter, i) == IssuedBy(calls, i)
  {
    assert calls[..|calls| - 1][..i] == calls[..i];
  }

  lemma OneMoreCall(calls: seq<Call>, i: nat, id: TokenId)
    requires |calls| > 1 && i < |calls| - 1 && id in Run(calls[..|calls| - 1]).nodes
    ensures
      var last := |calls| - 1;
      var before := RevocationsSince(calls[..last], i, id);
      && last !in before
      && RevocationsSince(calls, i, id) == before + (if RevokesAt(calls, last, id) then {last} else {})
  {
    hide Forest, Step, Under;
    var last := |calls| - 1;
    var shorter := calls[..last];
    RunsAreWellFormed(shorter);
    StepKeepsWellFormed(Run(shorter), calls[last]);
    forall j: nat | j < last ensures RevokesAt(calls, j, id) == RevokesAt(shorter, j, id) {
      if calls[j].Revoke? {
        ExtensionKeepsUnder(Run(shorter).nodes, Run(calls).nodes, calls[j].token.tokenId, id);
      }
    }
  }

  /**
   * At every point of every run, a token's node records what the token claims, and its generation
   * counts, modulo 2^64, the revocations of the token or its ancestors since it was issued.
   */
  lemma {:induction false} GenerationCountsRevocations(calls: seq<Call>, i: nat)
    requires i < |calls| && IssuedBy(calls, i).Some?
    ensures
      var t := IssuedBy(calls, i).value;
      var g := Run(calls).nodes;
      && MatchesRecord(g, t.tokenId, t.objectId, t.rights) && t.generation == 0
      && g[t.tokenId].liveGeneration == |RevocationsSince(calls, i, t.tokenId)| % U64
    decreases |calls|
  {
    hide Step, Issue, Under, WellFormed;
    var last := |calls| - 1;
    var shorter := calls[..last];
    var t := IssuedBy(calls, i).value;
    RunsAreWellFormed(shorter);
    if i == last {
      IssueIsRecorded(Run(shorter), calls[last]);
      assert RevocationsSince(calls, i, t.tokenId) == {};
    } else {
      RunPrefix(calls, i);
      GenerationCountsRevocations(shorter, i);
      OneMoreCall(calls, i, t.tokenId);
      StepMovesGeneration(Run(shorter), calls[last], t.tokenId);
      LastRevokes(calls, t.tokenId);
    }
  }

  lemma LastRevokes(calls: seq<Call>, id: TokenId)
    requires calls != [] && id in Run(calls[..|calls| - 1]).nodes
    ensures
      var last := |calls| - 1;
      RevokesAt(calls, last, id) == Hits(Run(calls[..last]), calls[last], id)
  {
    var last := |calls| - 1;
    RunsAreWellFormed(calls[..last]);
    StepKeepsWellFormed(Run(calls[..last]), calls[last]);
    if calls[last].Revoke? {
      ExtensionKeepsUnder(Run(calls[..last]).nodes, Run(calls).nodes, calls[last].token.tokenId, id);
    }
  }

  lemma IssueIsRecorded(s: State, c: Call)
    requires Issue(s, c).Some?
    ensures
      var t, g := Issue(s, c).value, Step(s, c).nodes;
      && MatchesRecord(g, t.tokenId, t.objectId, t.rights)
      && t.generation == 0 && g[t.tokenId].liveGeneration == 0
  {}

  predicate Hits(s: State, c: Call, id: TokenId) {
    c.Revoke? && Under(s.nodes, c.token.tokenId, id)
  }

  /** One call moves a node's generation exactly when it revokes the node or an ancestor. */
  lemma StepMovesGeneration(s: State, c: Call, id: TokenId)
    requires WellFormed(s) && id in s.nodes
    ensures
      var n, n' := s.nodes[id], Step(s, c).nodes;
      && id in n' && n'[id].objectId == n.objectId && n'[id].rights == n.rights
      && n'[id].liveGeneration == if Hits(s, c, id) then (n.liveGeneration + 1) % U64 else n.liveGeneration
  {}

  /** Liveness over whole runs, without a bound on their length. */
  lemma LiveIffUnrevoked(calls: seq<Call>, i: nat, now: Instant)
    requires i < |calls| && IssuedBy(calls, i).Some?
    ensures
      var t := IssuedBy(calls, i).value;
      IsLive(Run(calls).nodes, t, now)
      <==> NoLater(Some(now), t.expiry) && |RevocationsSince(calls, i, t.tokenId)| % U64 == 0
  {
    GenerationCountsRevocations(calls, i);
  }

  /** Every node goes back to the call that issued its token. */
  lemma {:induction false} EveryNodeIssued(calls: seq<Call>, id: TokenId) returns (i: nat)
    requires id in Run(calls).nodes
    ensures i < |calls| && IssuedBy(calls, i).Some? && IssuedBy(calls, i).value.tokenId == id
    decreases |calls|
  {
    i := |calls| - 1;
    if id in Run(calls[..i]).nodes {
      i := EveryNodeIssued(calls[..i], id);
      RunPrefix(calls, i);
    }
  }

  /** `t` claims what call `i` issued, at the generation to which the revocations since have brought it. */
  ghost predicate Claims(calls: seq<Call>, i: nat, t: Token) {
    && i < |calls| && IssuedBy(calls, i).Some?
    && var issued := IssuedBy(calls, i).value;
       && issued.tokenId == t.tokenId && issued.objectId == t.objectId && issued.rights == t.rights
       && t.generation == |RevocationsSince(calls, i, t.tokenId)| % U64
  }

  /** Liveness of any token value at all, however it was built, in terms of the run alone. */
  lemma LiveIffClaims(calls: seq<Call>, t: Token, now: Instant)
    ensures IsLive(Run(calls).nodes, t, now) <==> NoLater(Some(now), t.expiry) && exists i: nat :: Claims(calls, i, t)
  {
    hide Run, IssuedBy, RevocationsSince, WellFormed;
    if IsLive(Run(calls).nodes, t, now) {
      var i := EveryNodeIssued(calls, t.tokenId);
      GenerationCountsRevocations(calls, i);
      assert Claims(calls, i, t);
    }
    if i: nat :| Claims(calls, i, t) {
      GenerationCountsRevocations(calls, i);
    }
  }

  /** `t` claims what call `i` issued, whatever generation it claims. */
  ghost predicate Names(calls: seq<Call>, i: nat, t: Token) {
    && i < |calls| && IssuedBy(calls, i).Some?
    && var issued := IssuedBy(calls, i).value;
       issued.tokenId == t.tokenId && issued.objectId == t.objectId && issued.rights == t.rights
  }

  /** Which refusal a value gets, in terms of the run alone. */
  lemma RefusalMeans(calls: seq<Call>, t: Token, now: Instant)
    ensures
      var r := CheckLive(Run(calls).nodes, t, now);
      && (r == Err(NoSuchCapability) <==> !exists i: nat :: Names(calls, i, t))
      && (r == Err(RevokedFault) <==>
           (exists i: nat :: Names(calls, i, t)) && !exists i: nat :: Claims(calls, i, t))
      && (r == Err(Expired) <==> !NoLater(Some(now), t.expiry) && exists i: nat :: Claims(calls, i, t))
      && (r.Ok? <==> NoLater(Some(now), t.expiry) && exists i: nat :: Claims(calls, i, t))
  {
    hide Run, IssuedBy, RevocationsSince, WellFormed;
    var g := Run(calls).nodes;
    if t.tokenId in g {
      var i := EveryNodeIssued(calls, t.tokenId);
      GenerationCountsRevocations(calls, i);
      assert MatchesRecord(g, t.tokenId, t.objectId, t.rights) ==> Names(calls, i, t);
      assert IsLive(g, t.(expiry := None), now) ==> Claims(calls, i, t);
    }
    if i: nat :| Names(calls, i, t) {
      GenerationCountsRevocations(calls, i);
    }
    if i: nat :| Claims(calls, i, t) {
      GenerationCountsRevocations(calls, i);
      assert Names(calls, i, t);
    }
  }

  /** The check of rights: passed exactly by live values that hold all rights asked for, refused otherwise for cause. */
  lemma RightsRefusalMeans(calls: seq<Call>, t: Token, required: RightsMask, now: Instant)
    ensures
      var g := Run(calls).nodes;
      var r := CheckRights(g, t, required, now);
      && (r.Ok? <==> IsLive(g, t, now) && Contains(t.rights, required))
      && (r == Err(InsufficientRights) <==> IsLive(g, t, now) && !Contains(t.rights, required))
      && (!IsLive(g, t, now) ==> r == CheckLive(g, t, now))
  {
    hide Run, Contains;
  }

  // ----- What a token is issued with -----

  /**
   * A derivation succeeds exactly from a live parent that holds the rights asked for, and hands out those rights
   * over the parent's object, with a life that ends with the parent's or with the time asked for, whichever is
   * sooner.
   */
  lemma DeriveHonoursRequest(s: State, parent: Token, rights: RightsMask, ttl: Option<nat>, origin: nat,
                             checkedAt: Instant, stampedAt: Instant)
    ensures
      var issued := Issue(s, Derive(parent, rights, ttl, origin, checkedAt, stampedAt));
      && (issued.Some? <==> IsLive(s.nodes, parent, checkedAt) && Contains(parent.rights, rights))
      && (issued.Some? ==>
           var t := issued.value;
           && t.tokenId == s.nextToken && t.objectId == parent.objectId && t.rights == rights
           && t.generation == 0 && t.origin == origin
           && NoLater(t.expiry, parent.expiry)
           && (ttl.Some? ==> NoLater(t.expiry, Some(stampedAt + ttl.value)))
           && (t.expiry == parent.expiry || (ttl.Some? && t.expiry == Some(stampedAt + ttl.value))))
  {}

  /** A minted root names an object and a token never named before, with the rights and the life asked for. */
  lemma MintHonoursRequest(calls: seq<Call>, rights: RightsMask, ttl: Option<nat>, origin: nat, now: Instant)
    ensures
      var s := Run(calls);
      var t := Issue(s, MintRoot(rights, origin, ttl, now)).value;
      && t.tokenId !in s.nodes && (forall id | id in s.nodes :: s.nodes[id].objectId < t.objectId)
      && t.rights == rights && t.generation == 0 && t.origin == origin
      && (ttl.None? ==> t.expiry == None) && (ttl.Some? ==> t.expiry == Some(now + ttl.value))
  {
    hide Run;
    RunsAreWellFormed(calls);
    ObjectsBelow(calls);
  }

  predicate ObjectsNamed(s: State) {
    forall id | id in s.nodes :: s.nodes[id].objectId < s.nextObject
  }

  lemma StepNamesObjects(s: State, c: Call)
    requires ObjectsNamed(s)
    ensures ObjectsNamed(Step(s, c))
  {
    hide Contains, Under;
    match c
    case Derive(parent, rights, _, _, checkedAt, _) =>
      if DeriveAllowed(s, parent, rights, checkedAt) {
        assert s.nodes[parent.tokenId].objectId == parent.objectId;
      }
    case _ =>
  }

  lemma {:induction false} ObjectsBelow(calls: seq<Call>)
    ensures ObjectsNamed(Run(calls))
  {
    hide Step;
    if calls != [] {
      ObjectsBelow(calls[..|calls| - 1]);
      StepNamesObjects(Run(calls[..|calls| - 1]), calls[|calls| - 1]);
    }
  }

  // ----- What follows for delegation -----

  /** Revoking kills every live token beneath, and no other call touches the liveness of a known token. */
  lemma RevocationIsExact(s: State, c: Call, t: Token, now: Instant)
    requires WellFormed(s) && t.tokenId in s.nodes
    ensures Hits(s, c, t.tokenId) && IsLive(s.nodes, t, now) ==> !IsLive(Step(s, c).nodes, t, now)
    ensures !Hits(s, c, t.tokenId) ==> IsLive(Step(s, c).nodes, t, now) == IsLive(s.nodes, t, now)
  {
    StepMovesGeneration(s, c, t.tokenId);
  }

  lemma {:induction false} RevocationsAccumulate(calls: seq<Call>, more: seq<Call>, i: nat)
    requires i < |calls| && IssuedBy(calls, i).Some?
    ensures
      var t := IssuedBy(calls, i).value;
      && IssuedBy(calls + more, i) == Some(t)
      && RevocationsSince(calls, i, t.tokenId) <= RevocationsSince(calls + more, i, t.tokenId)
    decreases |more|
  {
    var all := calls + more;
    if more == [] {
      assert all == calls;
    } else {
      var shorter := calls + more[..|more| - 1];
      assert all[..|all| - 1] == shorter;
      RevocationsAccumulate(calls, more[..|more| - 1], i);
      RunPrefix(all, i);
      var t := IssuedBy(calls, i).value;
      GenerationCountsRevocations(shorter, i);
      OneMoreCall(all, i, t.tokenId);
    }
  }

  /**
   * Whatever generation a value claims, once revocations have moved its node past it the value is dead, and
   * stays so until they have come all the way round.
   */
  lemma RevokedStaysDead(calls: seq<Call>, more: seq<Call>, i: nat, t: Token, now: Instant)
    requires i < |calls| && IssuedBy(calls, i).Some? && IssuedBy(calls, i).value.tokenId == t.tokenId
    requires t.generation < |RevocationsSince(calls, i, t.tokenId)|
    ensures |RevocationsSince(calls + more, i, t.tokenId)| < t.generation + U64 ==>
      !IsLive(Run(calls + more).nodes, t, now)
  {
    hide Run, RevocationsSince;
    RevocationsAccumulate(calls, more, i);
    GenerationCountsRevocations(calls + more, i);
    Fewer(RevocationsSince(calls, i, t.tokenId), RevocationsSince(calls + more, i, t.tokenId));
    NotYetRound(t.generation, |RevocationsSince(calls + more, i, t.tokenId)|);
  }

  /** Counting on from `g` by less than a full turn does not come back to `g`. */
  lemma NotYetRound(g: nat, n: nat)
    requires g < n
    ensures n < g + U64 ==> n % U64 != g
  {}

  // ----- Expiry along a chain -----

  lemma {:induction false} IdsNeverReused(calls: seq<Call>, i: nat, j: nat)
    requires i < j < |calls| && IssuedBy(calls, i).Some? && IssuedBy(calls, j).Some?
    ensures IssuedBy(calls, i).value.tokenId < IssuedBy(calls, j).value.tokenId
  {
    CounterIncreases(calls, i + 1, j);
    assert calls[..i + 1][..i] == calls[..i];
  }

  lemma {:induction false} CounterIncreases(calls: seq<Call>, i: nat, j: nat)
    requires i <= j <= |calls|
    ensures Run(calls[..i]).nextToken <= Run(calls[..j]).nextToken
    decreases j
  {
    if i < j {
      CounterIncreases(calls, i, j - 1);
      assert calls[..j][..j - 1] == calls[..j - 1];
    }
  }

  /** A node's parent link names the token it was derived from. */
  lemma {:induction false} LineageRecorded(calls: seq<Call>, j: nat)
    requires j < |calls| && IssuedBy(calls, j).Some?
    ensures
      var t, g := IssuedBy(calls, j).value, Run(calls).nodes;
      t.tokenId in g && g[t.tokenId].parent == if calls[j].Derive? then Some(calls[j].parent.tokenId) else None
    decreases |calls|
  {
    var last := |calls| - 1;
    RunsAreWellFormed(calls[..last]);
    StepKeepsWellFormed(Run(calls[..last]), calls[last]);
    if j < last {
      RunPrefix(calls, j);
      LineageRecorded(calls[..last], j);
    }
  }

  /** Call `k` issued the token that `parent` stands for, and `parent` does not outlive it. */
  ghost predicate StandsFor(calls: seq<Call>, k: nat, parent: Token) {
    && k < |calls| && IssuedBy(calls, k).Some?
    && IssuedBy(calls, k).value.tokenId == parent.tokenId
    && NoLater(parent.expiry, IssuedBy(calls, k).value.expiry)
  }

  /** Every token presented for derivation expires no later than the token issued under its id. */
  ghost predicate PresentsIssuedExpiries(calls: seq<Call>) {
    forall j | 0 <= j < |calls| && IssuedBy(calls, j).Some? && calls[j].Derive? ::
      exists k: nat :: k < j && StandsFor(calls, k, calls[j].parent)
  }

  /** In every run that presents genuine expiries, a token expires no later than any of its ancestors. */
  lemma {:induction false} ExpiryShrinksAlongChains(calls: seq<Call>, i: nat, j: nat)
    requires i < |calls| && j < |calls| && IssuedBy(calls, i).Some? && IssuedBy(calls, j).Some?
    requires PresentsIssuedExpiries(calls)
    requires Under(Run(calls).nodes, IssuedBy(calls, i).value.tokenId, IssuedBy(calls, j).value.tokenId)
    ensures NoLater(IssuedBy(calls, j).value.expiry, IssuedBy(calls, i).value.expiry)
    decreases j
  {
    var a, t := IssuedBy(calls, i).value, IssuedBy(calls, j).value;
    if i != j {
      if i < j { IdsNeverReused(calls, i, j); } else { IdsNeverReused(calls, j, i); }
      LineageRecorded(calls, j);
      var k: nat :| k < j && StandsFor(calls, k, calls[j].parent);
      ExpiryShrinksAlongChains(calls, i, k);
    }
  }

  /**
   * The condition is exact: a presented parent that outlives the issued token yields, for some request,
   * a child that outlives it too.
   */
  lemma OutlivingParentEscapes(s: State, parent: Token, issued: Option<Instant>, rights: RightsMask, now: Instant)
    requires DeriveAllowed(s, parent, rights, now)
    ensures
      (forall ttl, stamped :: NoLater(Issue(s, Derive(parent, rights, ttl, 0, now, stamped)).value.expiry, issued))
      <==> NoLater(parent.expiry, issued)
  {
    var c := Derive(parent, rights, None, 0, now, now);
    assert Issue(s, c).value.expiry == parent.expiry;
  }

  // ----- The monitor object -----

  /** The process-wide `TokenId` counter. */
  class TokenCounter {
    var next: TokenId

    constructor ()
      ensures next == 1
    {
      next := 1;
    }

    method Next() returns (id: TokenId)
      modifies this
      ensures id == old(next) && next == old(next) + 1
    {
      id := next;
      next := next + 1;
    }
  }

  class CapabilityMonitor {
    const graph: RevocationGraph
    const ids: TokenCounter
    var nextObject: ObjectId

    ghost function View(): State
      reads this, graph, ids
    {
      State(graph.nodes, ids.next, nextObject)
    }

    ghost predicate Valid()
      reads this, graph, ids
    {
      WellFormed(View())
    }

    constructor (ids: TokenCounter)
      ensures this.ids == ids && fresh(graph)
      ensures Valid() && View() == State(map[], ids.next, 0)
    {
      this.ids := ids;
      graph := new RevocationGraph();
      nextObject := 0;
    }

    method MintObject() returns (o: ObjectId)
      modifies this
      ensures o == old(nextObject) && View() == Step(old(View()), NewObject)
    {
      o := nextObject;
      nextObject := nextObject + 1;
    }

    method Mint(rights: RightsMask, origin: nat, ttl: Option<nat>, now: Instant) returns (t: Token)
      requires Valid()
      modifies this, graph, ids
      ensures Valid()
      ensures View() == Step(old(View()), MintRoot(rights, origin, ttl, now))
      ensures Some(t) == Issue(old(View()), MintRoot(rights, origin, ttl, now))
    {
      StepKeepsWellFormed(View(), MintRoot(rights, origin, ttl, now));
      var objectId := MintObject();
      var tokenId := ids.Next();
      graph.InsertRoot(tokenId, objectId, rights);
      t := Token(tokenId, objectId, rights, 0, origin, After(now, ttl));
    }

    method CapDerive(parent: Token, rights: RightsMask, ttl: Option<nat>, origin: nat,
                     checkedAt: Instant, stampedAt: Instant)
      returns (r: Result<Token, Fault>)
      requires Valid()
      modifies this, graph, ids
      ensures Valid()
      ensures View() == Step(old(View()), Derive(parent, rights, ttl, origin, checkedAt, stampedAt))
      ensures r.Ok? ==> Some(r.value) == Issue(old(View()), Derive(parent, rights, ttl, origin, checkedAt, stampedAt))
      ensures r.Err? ==>
        && Issue(old(View()), Derive(parent, rights, ttl, origin, checkedAt, stampedAt)) == None
        && View() == old(View())
        && (r.error == CannotEscalate <==> CheckLive(old(View()).nodes, parent, checkedAt).Ok?)
    {
      hide Forest, Contains;
      StepKeepsWellFormed(View(), Derive(parent, rights, ttl, origin, checkedAt, stampedAt));
      var live := CheckLive(graph.nodes, parent, checkedAt);
      if live.Err? {
        return Err(live.error);
      }
      if !Contains(parent.rights, rights) {
        return Err(CannotEscalate);
      }
      var childId := ids.Next();
      graph.InsertChild(parent.tokenId, childId, parent.objectId, rights);
      r := Ok(Token(childId, parent.objectId, rights, 0, origin, MinExpiry(parent.expiry, After(stampedAt, ttl))));
    }

    /** `is_live`: the answer is the one the monitor's whole history determines. */
    method TokenIsLive(t: Token, now: Instant) returns (live: bool)
      ensures live == IsLive(graph.nodes, t, now)
      ensures forall calls :: View() == Run(calls) ==>
        (live <==> NoLater(Some(now), t.expiry) && exists i: nat :: Claims(calls, i, t))
    {
      hide Claims, Run;
      var generation := graph.LiveGeneration(t.tokenId);
      live := MatchesRecord(graph.nodes, t.tokenId, t.objectId, t.rights) &&
        generation == Some(t.generation) && !IsExpired(t, now);
      forall calls | View() == Run(calls)
        ensures live <==> NoLater(Some(now), t.expiry) && exists i: nat :: Claims(calls, i, t)
      {
        LiveIffClaims(calls, t, now);
      }
    }

    method CapRevoke(token: Token) returns (receipt: Receipt)
      requires Valid()
      modifies graph
      ensures Valid()
      ensures View() == Step(old(View()), Revoke(token))
      ensures receipt == Receipt(token.tokenId, |Subtree(old(View()).nodes, token.tokenId) - {token.tokenId}|)
    {
      hide Under, Forest;
      StepKeepsWellFormed(View(), Revoke(token));
      receipt := graph.Revoke(token.tokenId);
    }
  }
}
