/**
Context crossing a boundary (crates/hyperion-context/src/propagation.rs): a fail-closed redacting export,
and an import that refuses replays and downgrades what has gone stale.

What a token can read of the knowledge graph at some moment is a map from node to record; the graph may
change arbitrarily between export and import.  Signing and verifying are parameters.
*/
module ContextPropagation {
  import opened Common

  type NodeId = nat
  type EnvelopeId = nat
  type Signature = nat
  type Seconds = nat

  datatype Json = Object(fields: seq<(string, Json)>) | Scalar(text: string)

  datatype NodeRecord = NodeRecord(objectType: string, metadata: Json, updatedAt: nat)

  /** The nodes a token can read, at one moment. */
  type Readable = map<NodeId, NodeRecord>

  datatype TrustLevel = SameBoundary | TrustedAgent | SandboxedCapability | RemoteDevice

  datatype RedactionAction = Pass | Summarize | Redact

  datatype RedactionPolicy = RedactionPolicy(target: TrustLevel, rules: map<string, RedactionAction>)

  datatype BundleEntry = BundleEntry(nodeId: NodeId, category: string)

  datatype Representation =
    | ByReference(nodeId: NodeId)
    | ByValue(nodeId: NodeId, content: Json)
    | RedactedPlaceholder(placeholder: string, reason: string)

  datatype EnvelopeEntry = EnvelopeEntry(category: string, representation: Representation)

  datatype Envelope = Envelope(
    id: EnvelopeId,
    entries: seq<EnvelopeEntry>,
    scopeApplied: TrustLevel,
    generations: map<NodeId, nat>,
    horizon: Seconds,
    capturedAt: Seconds,
    signature: Option<Signature>)

  datatype Freshness = Fresh | StaleWithinHorizon | StaleBeyondHorizon

  datatype Imported = Imported(entries: seq<EnvelopeEntry>, report: map<NodeId, Freshness>)

  datatype PropagationError = IntegrityFailure | Replayed(id: EnvelopeId) | Graph

  /** Fail closed: a category the policy does not list is redacted. */
  function RuleFor(p: RedactionPolicy, category: string): RedactionAction {
    if category in p.rules then p.rules[category] else Redact
  }

  function SummaryOf(metadata: Json): Json {
    match metadata
    case Object(fields) => Object(if |fields| <= 3 then fields else fields[..3])
    case Scalar(_) => metadata
  }

  function LevelName(t: TrustLevel): string {
    match t
    case SameBoundary => "SameBoundary"
    case TrustedAgent => "TrustedAgent"
    case SandboxedCapability => "SandboxedCapability"
    case RemoteDevice => "RemoteDevice"
  }

  // ----- Export -----

  /** One entry's wire form, or `None` if its node cannot be read. */
  function ExportEntry(g: Readable, e: BundleEntry, target: TrustLevel, policy: RedactionPolicy)
    : Option<EnvelopeEntry>
  {
    var rule := RuleFor(policy, e.category);
    if rule == Redact then
      Some(EnvelopeEntry(e.category, RedactedPlaceholder(e.category, "policy:" + LevelName(target))))
    else if e.nodeId !in g then None
    else if target == SameBoundary then Some(EnvelopeEntry(e.category, ByReference(e.nodeId)))
    else
      var metadata := g[e.nodeId].metadata;
      Some(EnvelopeEntry(e.category, ByValue(e.nodeId, if rule == Summarize then SummaryOf(metadata) else metadata)))
  }

  /** The whole bundle exports, and this is each entry's form. */
  ghost predicate ExportsAs(g: Readable, bundle: seq<BundleEntry>, target: TrustLevel, policy: RedactionPolicy,
                            entries: seq<EnvelopeEntry>, generations: map<NodeId, nat>)
  {
    && |entries| == |bundle|
    && (forall k | 0 <= k < |bundle| :: ExportEntry(g, bundle[k], target, policy) == Some(entries[k]))
    && (forall n | n in generations :: n in g && generations[n] == g[n].updatedAt)
    && (forall k | 0 <= k < |bundle| && RuleFor(policy, bundle[k].category) != Redact ::
          bundle[k].nodeId in generations)
  }

  // ----- Import -----

  function FreshnessOf(g: Readable, n: NodeId, captured: nat, elapsed: Seconds, horizon: Seconds): Freshness {
    if n in g && g[n].updatedAt == captured then Fresh
    else if n in g && elapsed <= horizon then StaleWithinHorizon
    else StaleBeyondHorizon
  }

  function ElapsedSince(captured: Seconds, now: Seconds): Seconds {
    if now >= captured then now - captured else 0
  }

  ghost function FreshnessReport(g: Readable, env: Envelope, now: Seconds): map<NodeId, Freshness> {
    map n | n in env.generations ::
      FreshnessOf(g, n, env.generations[n], ElapsedSince(env.capturedAt, now), env.horizon)
  }

  function NodeOf(r: Representation): Option<NodeId> {
    match r
    case ByReference(n) => Some(n)
    case ByValue(n, _) => Some(n)
    case RedactedPlaceholder(_, _) => None
  }

  predicate TooStale(report: map<NodeId, Freshness>, r: Representation) {
    var n := NodeOf(r);
    n.Some? && n.value in report && report[n.value] == StaleBeyondHorizon
  }

  function ImportEntry(report: map<NodeId, Freshness>, e: EnvelopeEntry): EnvelopeEntry {
    if TooStale(report, e.representation) then EnvelopeEntry(e.category, RedactedPlaceholder(e.category, "stale"))
    else e
  }

  function ImportEntries(report: map<NodeId, Freshness>, entries: seq<EnvelopeEntry>): (r: seq<EnvelopeEntry>)
    ensures |r| == |entries| && forall k | 0 <= k < |r| :: r[k] == ImportEntry(report, entries[k])
  {
    seq(|entries|, k requires 0 <= k < |entries| => ImportEntry(report, entries[k]))
  }

  type Signer = Envelope -> Signature

  /** A signature is present and checks out over the envelope without it. */
  predicate Verified(env: Envelope, verify: (Envelope, Signature) -> bool) {
    env.signature.Some? && verify(env.(signature := None), env.signature.value)
  }

  class ContextPropagation {
    var replayCache: set<EnvelopeId>
    var nextEnvelopeId: EnvelopeId

    constructor ()
      ensures replayCache == {} && nextEnvelopeId == 1
    {
      replayCache, nextEnvelopeId := {}, 1;
    }

    /** The loop over the bundle; it fails as a whole if a node to be sent cannot be read. */
    method Export(g: Readable, bundle: seq<BundleEntry>, target: TrustLevel, policy: RedactionPolicy,
                  horizon: Seconds, now: Seconds, sign: Signer)
      returns (r: Result<Envelope, PropagationError>)
      modifies this
      ensures replayCache == old(replayCache)
      ensures r.Ok? <==> forall k | 0 <= k < |bundle| :: ExportEntry(g, bundle[k], target, policy).Some?
      ensures r.Ok? <==> forall k | 0 <= k < |bundle| && Listed(policy, bundle[k].category) :: bundle[k].nodeId in g
      ensures r.Ok? ==>
        var env := r.value;
        && ExportsAs(g, bundle, target, policy, env.entries, env.generations)
        && env.id == old(nextEnvelopeId) && nextEnvelopeId == old(nextEnvelopeId) + 1
        && env.scopeApplied == target && env.horizon == horizon && env.capturedAt == now
        && env.signature == Some(sign(env.(signature := None)))
      ensures r.Err? ==> r.error == Graph && nextEnvelopeId == old(nextEnvelopeId)
    {
      var entries: seq<EnvelopeEntry> := [];
      var generations: map<NodeId, nat> := map[];
      for i := 0 to |bundle|
        invariant ExportsAs(g, bundle[..i], target, policy, entries, generations)
        invariant nextEnvelopeId == old(nextEnvelopeId) && replayCache == old(replayCache)
      {
        var e := bundle[i];
        assert bundle[..i + 1] == bundle[..i] + [e];
        var rule := RuleFor(policy, e.category);
        if rule == Redact {
          var placeholder := RedactedPlaceholder(e.category, "policy:" + LevelName(target));
          entries := entries + [EnvelopeEntry(e.category, placeholder)];
        } else {
          if e.nodeId !in g {
            return Err(Graph);
          }
          generations := generations[e.nodeId := g[e.nodeId].updatedAt];
          var representation: Representation;
          if target == SameBoundary {
            representation := ByReference(e.nodeId);
          } else {
            var metadata := g[e.nodeId].metadata;
            representation := ByValue(e.nodeId, if rule == Summarize then SummaryOf(metadata) else metadata);
          }
          entries := entries + [EnvelopeEntry(e.category, representation)];
        }
      }
      assert bundle[..|bundle|] == bundle;
      var unsigned := Envelope(nextEnvelopeId, entries, target, generations, horizon, now, None);
      nextEnvelopeId := nextEnvelopeId + 1;
      r := Ok(unsigned.(signature := Some(sign(unsigned))));
    }

    method ReportFreshness(g: Readable, env: Envelope, now: Seconds) returns (report: map<NodeId, Freshness>)
      ensures report == FreshnessReport(g, env, now)
    {
      report := map[];
      var elapsed := ElapsedSince(env.capturedAt, now);
      var rest := env.generations.Keys;
      while rest != {}
        invariant rest <= env.generations.Keys && report.Keys == env.generations.Keys - rest
        invariant forall n | n in report :: report[n] == FreshnessOf(g, n, env.generations[n], elapsed, env.horizon)
        decreases rest
      {
        var n :| n in rest;
        report := report[n := FreshnessOf(g, n, env.generations[n], elapsed, env.horizon)];
        rest := rest - {n};
      }
    }

    /** Signature first, then replay, then staleness. */
    method Import(g: Readable, env: Envelope, now: Seconds, verify: (Envelope, Signature) -> bool)
      returns (r: Result<Imported, PropagationError>)
      modifies this
      ensures nextEnvelopeId == old(nextEnvelopeId)
      ensures r == ImportResult(old(replayCache), g, env, now, verify)
      ensures replayCache == CacheAfter(old(replayCache), env, verify)
    {
      if !Verified(env, verify) {
        return Err(IntegrityFailure);
      }
      if env.id in replayCache {
        return Err(Replayed(env.id));
      }
      replayCache := replayCache + {env.id};
      var report := ReportFreshness(g, env, now);
      r := Ok(Imported(ImportEntries(report, env.entries), report));
    }
  }

  ghost function ImportResult(cache: set<EnvelopeId>, g: Readable, env: Envelope, now: Seconds,
                              verify: (Envelope, Signature) -> bool)
    : Result<Imported, PropagationError>
  {
    if !Verified(env, verify) then Err(IntegrityFailure)
    else if env.id in cache then Err(Replayed(env.id))
    else
      var report := FreshnessReport(g, env, now);
      Ok(Imported(ImportEntries(report, env.entries), report))
  }

  function CacheAfter(cache: set<EnvelopeId>, env: Envelope, verify: (Envelope, Signature) -> bool): set<EnvelopeId> {
    if Verified(env, verify) then cache + {env.id} else cache
  }

  // ----- One hop -----

  predicate Discloses(r: Representation) {
    !r.RedactedPlaceholder?
  }

  /** The policy lists `category`, and not to redact it. */
  predicate Listed(policy: RedactionPolicy, category: string) {
    category in policy.rules && policy.rules[category] != Redact
  }

  /** A summary keeps the first three fields of an object, in order and unchanged, and anything else whole. */
  predicate Summarizes(summary: Json, metadata: Json) {
    match metadata
    case Scalar(_) => summary == metadata
    case Object(fields) =>
      && summary.Object? && summary.fields <= fields
      && (summary.fields == fields || |summary.fields| == 3) && |summary.fields| <= 3
  }

  /** What the recorded generations are reported as, by the clock and the graph at import. */
  lemma ReportMeans(g: Readable, env: Envelope, now: Seconds, n: NodeId)
    requires n in env.generations
    ensures
      var report := FreshnessReport(g, env, now);
      var changed := n !in g || g[n].updatedAt != env.generations[n];
      && report.Keys == env.generations.Keys
      && (report[n] == Fresh <==> !changed)
      && (report[n] == StaleWithinHorizon <==> changed && n in g && now <= env.capturedAt + env.horizon)
      && (report[n] == StaleBeyondHorizon <==> n !in g || (changed && now > env.capturedAt + env.horizon))
  {}

  /** An exported entry after the hop: what survives, and in which form, is decided entry by entry. */
  lemma HopEntry(g: Readable, g': Readable, bundle: seq<BundleEntry>, target: TrustLevel, policy: RedactionPolicy,
                 env: Envelope, now: Seconds, cache: set<EnvelopeId>, verify: (Envelope, Signature) -> bool, k: nat)
    requires ExportsAs(g, bundle, target, policy, env.entries, env.generations) && k < |bundle|
    requires ImportResult(cache, g', env, now, verify).Ok?
    ensures
      var out := ImportResult(cache, g', env, now, verify).value.entries;
      var e, n := bundle[k], bundle[k].nodeId;
      && |out| == |bundle| && out[k].category == e.category
      && (Discloses(out[k].representation) <==>
           && Listed(policy, e.category)
           && n in g && n in g'
           && (g'[n].updatedAt == g[n].updatedAt || now <= env.capturedAt + env.horizon))
      && match out[k].representation
         case ByReference(id) => id == n && target == SameBoundary
         case ByValue(id, content) =>
           && id == n && target != SameBoundary
           && if policy.rules[e.category] == Summarize then Summarizes(content, g[n].metadata)
              else content == g[n].metadata
         case RedactedPlaceholder(category, reason) =>
           && category == e.category
           && reason == if Listed(policy, e.category) then "stale" else "policy:" + LevelName(target)
  {
    hide LevelName;
    assert ExportEntry(g, bundle[k], target, policy) == Some(env.entries[k]);
  }

  /** The reason of a redaction tells the trust levels apart. */
  lemma LevelNamesDiffer(t: TrustLevel, u: TrustLevel)
    ensures LevelName(t) == LevelName(u) <==> t == u
  {
    assert |LevelName(SameBoundary)| == 12 && |LevelName(TrustedAgent)| == 12;
    assert LevelName(SameBoundary)[0] != LevelName(TrustedAgent)[0];
    assert |LevelName(SandboxedCapability)| == 19 && |LevelName(RemoteDevice)| == 12;
    assert LevelName(RemoteDevice)[0] == 'R';
  }

  // ----- Writes between export and import -----

  /** An update of a node: the second it happens in, and the new metadata. */
  datatype Write = Write(at: Seconds, content: Json)

  function Written(r: NodeRecord, writes: seq<Write>): NodeRecord {
    if writes == [] then r
    else
      var w := writes[|writes| - 1];
      Written(r, writes[..|writes| - 1]).(metadata := w.content, updatedAt := w.at)
  }

  /** The clock the graph stamps its writes with never runs backwards. */
  predicate InOrder(since: Seconds, writes: seq<Write>) {
    && (forall i | 0 <= i < |writes| :: since <= writes[i].at)
    && (forall i, j | 0 <= i < j < |writes| :: writes[i].at <= writes[j].at)
  }

  predicate AllIn(second: Seconds, writes: seq<Write>) {
    forall i | 0 <= i < |writes| :: writes[i].at == second
  }

  lemma StampUnchangedIff(r: NodeRecord, writes: seq<Write>)
    requires InOrder(r.updatedAt, writes)
    ensures Written(r, writes).updatedAt == r.updatedAt <==> AllIn(r.updatedAt, writes)
  {
    if writes != [] {
      assert Written(r, writes).updatedAt == writes[|writes| - 1].at;
    }
  }

  /**
   * A generation is a whole second.  However often and with whatever content a node was written since export, it
   * is reported fresh if and only if all those writes fall in the second that was captured; past the horizon
   * that also decides whether its entry survives, and what survives is the content of the export.
   */
  lemma FreshIffSameSecond(g: Readable, g': Readable, writes: seq<Write>, bundle: seq<BundleEntry>,
                           target: TrustLevel, policy: RedactionPolicy, env: Envelope, now: Seconds,
                           cache: set<EnvelopeId>, verify: (Envelope, Signature) -> bool, k: nat)
    requires ExportsAs(g, bundle, target, policy, env.entries, env.generations) && k < |bundle|
    requires Listed(policy, bundle[k].category) && Verified(env, verify) && env.id !in cache
    requires
      var n := bundle[k].nodeId;
      n in g && n in g' && InOrder(g[n].updatedAt, writes) && g'[n] == Written(g[n], writes)
    ensures
      var n := bundle[k].nodeId;
      var r := ImportResult(cache, g', env, now, verify).value;
      && (r.report[n] == Fresh <==> AllIn(g[n].updatedAt, writes))
      && (now > env.capturedAt + env.horizon ==>
           (Discloses(r.entries[k].representation) <==> AllIn(g[n].updatedAt, writes)))
      && (Discloses(r.entries[k].representation) ==> r.entries[k] == env.entries[k])
  {
    var n := bundle[k].nodeId;
    StampUnchangedIff(g[n], writes);
    HopEntry(g, g', bundle, target, policy, env, now, cache, verify, k);
  }

  /** An instance: one write in the captured second leaves the old content fresh however late it is imported. */
  lemma SameSecondWriteUnseen(g: Readable, changed: Json, bundle: seq<BundleEntry>, target: TrustLevel,
                              policy: RedactionPolicy, env: Envelope, now: Seconds, cache: set<EnvelopeId>,
                              verify: (Envelope, Signature) -> bool, k: nat)
    requires ExportsAs(g, bundle, target, policy, env.entries, env.generations) && k < |bundle|
    requires target != SameBoundary && RuleFor(policy, bundle[k].category) == Pass && bundle[k].nodeId in g
    requires Verified(env, verify) && env.id !in cache
    ensures
      var n := bundle[k].nodeId;
      var r := ImportResult(cache, g[n := g[n].(metadata := changed)], env, now, verify).value;
      r.report[n] == Fresh && r.entries[k].representation == ByValue(n, g[n].metadata)
  {
    var n := bundle[k].nodeId;
    var writes := [Write(g[n].updatedAt, changed)];
    assert writes[..0] == [];
    var g' := g[n := Written(g[n], writes)];
    HopEntry(g, g', bundle, target, policy, env, now, cache, verify, k);
    FreshIffSameSecond(g, g', writes, bundle, target, policy, env, now, cache, verify, k);
  }

  // ----- Runs of one importer -----

  type Key = (Envelope, Signature) -> bool

  /** One import: an envelope, and the key it is checked against. */
  datatype Arrival = Arrival(envelope: Envelope, key: Key)

  predicate Genuine(a: Arrival) {
    Verified(a.envelope, a.key)
  }

  function CacheBefore(arrivals: seq<Arrival>, k: nat): set<EnvelopeId>
    requires k <= |arrivals|
  {
    if k == 0 then {}
    else CacheAfter(CacheBefore(arrivals, k - 1), arrivals[k - 1].envelope, arrivals[k - 1].key)
  }

  lemma {:induction false} CacheHolds(arrivals: seq<Arrival>, k: nat, id: EnvelopeId)
    requires k <= |arrivals|
    ensures id in CacheBefore(arrivals, k) <==>
      exists i | 0 <= i < k :: Genuine(arrivals[i]) && arrivals[i].envelope.id == id
  {
    if k > 0 {
      CacheHolds(arrivals, k - 1, id);
    }
  }

  /** What import `k` of the run answers, on whatever it can then read of the graph. */
  ghost function AnswerAt(arrivals: seq<Arrival>, k: nat, g: Readable, now: Seconds): Result<Imported, PropagationError>
    requires k < |arrivals|
  {
    ImportResult(CacheBefore(arrivals, k), g, arrivals[k].envelope, now, arrivals[k].key)
  }

  /**
   * Over a run, under whatever keys, an envelope is accepted exactly when it verifies and no earlier envelope
   * that verified, under its own key, had its id; and it is refused as a replay exactly when one had.  So each
   * id is accepted at most once, whatever the graph or the clock did in between.
   */
  lemma AcceptedIffFirst(arrivals: seq<Arrival>, k: nat, g: Readable, now: Seconds)
    requires k < |arrivals|
    ensures
      var id := arrivals[k].envelope.id;
      var seen := exists i | 0 <= i < k :: Genuine(arrivals[i]) && arrivals[i].envelope.id == id;
      && (AnswerAt(arrivals, k, g, now).Ok? <==> Genuine(arrivals[k]) && !seen)
      && (AnswerAt(arrivals, k, g, now) == Err(Replayed(id)) <==> Genuine(arrivals[k]) && seen)
  {
    CacheHolds(arrivals, k, arrivals[k].envelope.id);
  }

  /** All an export is given, bar the exporter and its signing key. */
  datatype Shipment = Shipment(
    readable: Readable,
    bundle: seq<BundleEntry>,
    target: TrustLevel,
    policy: RedactionPolicy,
    horizon: Seconds,
    now: Seconds)

  ghost predicate Exportable(x: Shipment) {
    forall k | 0 <= k < |x.bundle| :: ExportEntry(x.readable, x.bundle[k], x.target, x.policy).Some?
  }

  /**
   * Two exporters, each with its own key, send their first envelopes to one importer: both verify, and
   * whichever comes second is refused as a replay of the other.
   */
  method SecondExporterRefused(x: Shipment, sign: Signer, key: Key, y: Shipment, sign': Signer, key': Key,
                               g: Readable, g': Readable, now: Seconds, now': Seconds)
    returns (first: Result<Imported, PropagationError>, second: Result<Imported, PropagationError>)
    requires Exportable(x) && Exportable(y)
    requires forall e :: key(e, sign(e)) && key'(e, sign'(e))
    ensures first.Ok? && second == Err(Replayed(1))
  {
    var exporter := new ContextPropagation();
    var exporter' := new ContextPropagation();
    var importer := new ContextPropagation();
    var sent := exporter.Export(x.readable, x.bundle, x.target, x.policy, x.horizon, x.now, sign);
    var sent' := exporter'.Export(y.readable, y.bundle, y.target, y.policy, y.horizon, y.now, sign');
    first := importer.Import(g, sent.value, now, key);
    second := importer.Import(g', sent'.value, now', key');
  }
}
