# HyperionOS: a model of its core protocols, and proofs about it

The project models eight parts of HyperionOS and proves properties of them for all inputs, all runs or all
interleavings.  `dafny verify dfyconfig.toml` checks the whole of it.

- **Capabilities** (`Revocation`, `Monitor`, `Wire`, `Finality`, `Compat`): the delegation forest and its revocation walk,
  the monitor over whole runs, the signed wire form, how final a revocation is, and the compatibility host that relies on them.
- **App contracts** (`ContractCodec`, `ContractRules`, `JsonScan`): the contract printer and parser, validation,
  and the scanner that finds a JSON object in prose.
- **Calendar** (`Calendar`): days to Gregorian dates by integer division, and RFC 3339 timestamps.
- **HTTP reader** (`HttpReader`, `HttpHeader`): the bounded incremental request reader, and what it reads.
- **Agent runtime** (`AgentRuntime`, `AgentBackoff`): consent broker, circuit breaker and backoff, as interleaved
  prepare, finish, consent, grant, checkpoint, resume and terminate steps.
- **Model residency** (`Residency`) and **rate limiter** (`RateLimiter`).
- **Context** (`ContextAssembly`, `ContextPropagation`): selection under a token budget, and the redacting
  export and import hop.
- **Model catalog** (`ModelCatalog`): the bytes its signature covers.

State that the source updates in place is a class.  Each of its methods is proved equal to one step of a state
machine on values, and the theorems about runs are about that machine.  `Common`, `Bytes`, `Utf8`, `Text` and `Numerals` hold shared
helpers.

## Where the code does less than its documentation, or than one might expect

The model follows the code.  Each difference has a lemma with the exact condition.

- Wire tokens are documented as never living longer after a hop (crates/hyperion-capability/src/wire.rs:46-48).
  The deadline is rebuilt from the arrival time: `TransitMovesDeadline`, `ExpiredTokenAccepted`.
- A contract that passes validation may still not decode, because an empty choice option is allowed by one and
  refused by the other: `ValidatedRoundTrip`.
- Context assembly calls its token bound hard (crates/hyperion-context/src/engine.rs:350-352).  Content longer
  than the charge cap exceeds it: `BoundIsHardIff`.
- When values tie, eviction may take a model that could have been spared: `LeastIff`, `AlwaysLeastIff`.
- Signed catalog bytes do not determine a catalog of two or more entries, nor one whose strings hold a NUL:
  `PinnedDownIff`.
- Timestamps lose the RFC 3339 shape from year 10000: `TimestampShape`.
- Whether a header block ending between byte 65538 and byte 69632 is accepted depends on how the socket splits the
  stream: `SplitIndependentIff`.
- A token is documented as live only if neither it nor an ancestor was revoked since it was minted
  (crates/hyperion-capability/src/monitor.rs:99-101).  The check compares generations only, so a value that claims
  the generation a revocation has moved the node to is live, and delegates: `BumpedValueEscapes`.  Revocation is
  final exactly when derivations present generation 0: `RevocationIsFinalIff`, `TerminationIsFinal`.
- A terminated agent instance can leave that state and be dispatched: `LeavesTerminated`,
  `TerminatedAgentRunsAgain`.  The backoff of a suspended one is skipped by a checkpoint or by resolving a pending
  consent and, apart from waiting, by nothing else: `AdmitsAtOnceIff`, `CheckpointSkipsBackoff`, `ConsentSkipsBackoff`.
- A live token may install its policy at will, and each time gets a fresh window: `SpanBoundWithResets`.
- Delegated tokens expire no later than their parent only if the presented parent carries the expiry it was issued
  with, which no check compares: `OutlivingParentEscapes`.
- A generation of a graph node is a whole second, so a second write within it goes unseen:
  `FreshIffSameSecond`.  Every exporter numbers its envelopes from 1, and an importer refuses the second
  of two genuine exporters' envelopes of the same number: `SecondExporterRefused`.

## Model

| member | source | states |
|---|---|---|
| `Revocation.RevocationGraph.constructor` | crates/hyperion-capability/src/revocation.rs:42-45 | the arena starts empty |
| `Revocation.RevocationGraph.InsertRoot` | crates/hyperion-capability/src/revocation.rs:58-69 | a fresh id becomes a parentless node of generation 0 and the arena stays a forest |
| `Revocation.RevocationGraph.InsertChild` | crates/hyperion-capability/src/revocation.rs:71-91 | a fresh id becomes a child of an existing node, recorded on both sides, and the arena stays a forest |
| `Revocation.RevocationGraph.Revoke` | crates/hyperion-capability/src/revocation.rs:121-141 | the stack walk terminates; afterwards exactly the node and its transitive descendants have moved on by one generation (wrapping at 2^64), each once, every other node is as before, and the receipt counts the proper descendants |
| `Revocation.WithRootKeepsForest` | crates/hyperion-capability/src/revocation.rs:58-69 | adding a root keeps parent links and duplicate-free child lists mirror images of each other |
| `Revocation.WithChildKeepsForest` | crates/hyperion-capability/src/revocation.rs:71-91 | so does adding an attenuated child |
| `Revocation.BumpedKeepsForest` | crates/hyperion-capability/src/revocation.rs:121-141 | so does moving any set of generations |
| `Revocation.Visit` | crates/hyperion-capability/src/revocation.rs:126-139 | popping a known node keeps the walk invariant: no node is met twice and none of the subtree is forgotten |
| `Revocation.Skip` | crates/hyperion-capability/src/revocation.rs:126-139 | popping an unknown id keeps it, and only the revocation of an unknown token does that |
| `Revocation.WalkEnds` | crates/hyperion-capability/src/revocation.rs:121-141 | an exhausted stack has visited the whole subtree and nothing else |
| `Revocation.ClosedHoldsSubtree` | crates/hyperion-capability/src/revocation.rs:121-141 | a set containing a node and closed under children contains all its descendants |
| `Revocation.ExtensionKeepsUnder` | crates/hyperion-capability/src/revocation.rs:71-91 | new nodes never change who is an ancestor of whom |
| `Revocation.DelegationAttenuates` | crates/hyperion-capability/src/revocation.rs:71-91 | anything derived at any depth names the same object and holds no right its ancestor lacks |
| `Revocation.BitOfMask` | crates/hyperion-capability/src/types.rs:41-59 | the bits a mask is made of are the bits read off it |
| `Revocation.ContainsIff` | crates/hyperion-capability/src/types.rs:41-59 | one mask contains another if and only if each of the 32 bits set in the second is set in the first |
| `Monitor.TokenCounter.constructor` | crates/hyperion-capability/src/types.rs:34-39 | identifiers start at 1 |
| `Monitor.TokenCounter.Next` | crates/hyperion-capability/src/types.rs:34-39 | each call hands out the next identifier |
| `Monitor.CapabilityMonitor.constructor` | crates/hyperion-capability/src/monitor.rs:13-22 | a new monitor knows no token |
| `Monitor.CapabilityMonitor.MintObject` | crates/hyperion-capability/src/monitor.rs:27-29 | takes a fresh object identifier and touches no token |
| `Monitor.CapabilityMonitor.Mint` | crates/hyperion-capability/src/monitor.rs:33-50 | the new state and the issued root token are those of the state machine step |
| `Monitor.CapabilityMonitor.CapDerive` | crates/hyperion-capability/src/monitor.rs:57-82 | likewise for delegation; a refusal changes nothing, and is for escalation exactly when the parent is live |
| `Monitor.CapabilityMonitor.CapRevoke` | crates/hyperion-capability/src/monitor.rs:88-90 | likewise for revocation |
| `Monitor.NoForgedAuthority` | crates/hyperion-capability/src/monitor.rs:119-147 | for any token value, however built: if it passes the rights check, every ancestor up to the root holds both the claimed and the required rights over the claimed object |
| `Monitor.StepKeepsWellFormed` | crates/hyperion-capability/src/monitor.rs:33-90 | mint, derive and revoke keep the arena a forest of ids below the counter |
| `Monitor.RunsAreWellFormed` | crates/hyperion-capability/src/monitor.rs:33-90 | hence so in every reachable state |
| `Monitor.StepMovesGeneration` | crates/hyperion-capability/src/monitor.rs:57-90 | one call moves a generation exactly when it revokes that node or an ancestor |
| `Monitor.GenerationCountsRevocations` | crates/hyperion-capability/src/monitor.rs:33-90 | over every run, a generation is the number of revocations that reached the node since it was issued, modulo 2^64 |
| `Monitor.LiveIffUnrevoked` | crates/hyperion-capability/src/monitor.rs:99-132 | over every run, an issued token is live if and only if it is unexpired and the revocations that reached it number a multiple of 2^64; no bound on the run is assumed |
| `Monitor.RevocationIsExact` | crates/hyperion-capability/src/monitor.rs:88-90 | a revocation kills every live token beneath it; no other call changes the liveness of any known token, so parents and siblings are unharmed |
| `Monitor.CapabilityMonitor.TokenIsLive` | crates/hyperion-capability/src/monitor.rs:99-107 | the check answers as the whole history of the monitor determines: unexpired, claiming what was issued, at the generation its revocations have reached |
| `Monitor.TraceExtends` | crates/hyperion-capability/src/monitor.rs:33-90 | whatever is called later, no node is dropped, re-parented or re-labelled |
| `Monitor.EveryNodeIssued` | crates/hyperion-capability/src/monitor.rs:33-82 | every node goes back to the call that issued its token |
| `Monitor.LiveIffClaims` | crates/hyperion-capability/src/monitor.rs:99-132 | for any token value at all, over every run: live if and only if unexpired and claiming what some call issued, at a generation equal to the revocations that reached it since, modulo 2^64 |
| `Monitor.RefusalMeans` | crates/hyperion-capability/src/monitor.rs:119-132 | which refusal any value gets, over every run: unknown if no call issued such a token, revoked if its generation is not the one reached, expired if only its time is up |
| `Monitor.RightsRefusalMeans` | crates/hyperion-capability/src/monitor.rs:137-147 | passed exactly by live values holding all rights asked for; otherwise refused for liveness first, then for rights |
| `Monitor.DeriveHonoursRequest` | crates/hyperion-capability/src/monitor.rs:57-82 | a derivation succeeds if and only if the parent is live and holds the rights; the child has exactly those, over the same object and for the boundary asked, and lives until the sooner of the parent and the time asked for |
| `Monitor.MintHonoursRequest` | crates/hyperion-capability/src/monitor.rs:33-50 | over every run, a root names a token and an object never named before, with the rights, boundary and life asked for |
| `Monitor.RevokedStaysDead` | crates/hyperion-capability/src/monitor.rs:57-132 | any value whose generation the revocations have passed is dead through every continuation, until they have come all the way round |
| `Monitor.IdsNeverReused` | crates/hyperion-capability/src/types.rs:34-39 | token ids strictly increase over a run |
| `Monitor.LineageRecorded` | crates/hyperion-capability/src/monitor.rs:57-82 | the recorded parent of every issued token is the token it was derived from, at the end of the run too |
| `Monitor.ExpiryShrinksAlongChains` | crates/hyperion-capability/src/monitor.rs:57-82 | in every run that presents the expiries that were issued, no descendant outlives any ancestor |
| `Monitor.OutlivingParentEscapes` | crates/hyperion-capability/src/monitor.rs:57-82 | that condition is exact: all children of a presented parent stay within the issued expiry if and only if the presented one does |
| `Wire.SignedBytesDetermineClaim` | crates/hyperion-capability/src/wire.rs:60-75 | the signed bytes, variable-length parts included, determine every claimed field |
| `Wire.CanonicalBytesInjective` | crates/hyperion-capability/src/wire.rs:60-75 | equal signed bytes if and only if equal in every field but the signature |
| `Wire.SignedClaimIsGenuine` | crates/hyperion-capability/src/wire.rs:126-150 | if only the holder can sign, an accepted wire token claims what a signed one claimed, and is live |
| `Wire.TransitMovesDeadline` | crates/hyperion-capability/src/wire.rs:77-150 | a hop keeps every field but the deadline, and makes that later exactly when the token had expired on leaving or the transit outlasts the rounding |
| `Wire.HopKeepsLife` | crates/hyperion-capability/src/wire.rs:77-150 | the wire carries the remaining life in whole milliseconds, and a hop loses less than one of them |
| `Wire.SignedAcceptedIff` | crates/hyperion-capability/src/wire.rs:126-150 | accepted if and only if signed, verified and live as rebuilt; a bad signature is refused as such before anything else |
| `Wire.ExpiredTokenAccepted` | crates/hyperion-capability/src/wire.rs:138-150 | acceptance depends on record, generation and the rebuilt life only, never on the original deadline |
| `Wire.ExpiredTokenExample` | crates/hyperion-capability/src/wire.rs:138-150 | a token refused for delegation a second past its deadline is accepted off the wire, and then yields a child that outlives it |
| `Finality.RevokedLeavesZero` | crates/hyperion-capability/src/monitor.rs:88-132 | a token issued before the revocation of an ancestor has left generation 0 for good |
| `Finality.NothingBeneath` | crates/hyperion-capability/src/monitor.rs:57-90 | when derivations present generation 0, as every issued token does, no call after a revocation issues anything beneath it |
| `Finality.BumpedParentWasRevoked` | crates/hyperion-capability/src/monitor.rs:57-82 | a derivation from a value of a later generation issues beneath a token revoked before |
| `Finality.RevocationIsFinalIff` | crates/hyperion-capability/src/monitor.rs:57-132 | over every run in which no one token is reached by 2^64 revocations: nothing is issued beneath a revoked token if and only if every successful derivation presents generation 0 |
| `Finality.RevokedSubtreeIsDead` | crates/hyperion-capability/src/monitor.rs:57-132 | in such runs everything beneath a revoked token, issued before or after, is dead at the end |
| `Finality.BumpedValueEscapes` | crates/hyperion-capability/src/wire.rs:116-150 | for every issued unexpired token, revoked or not, the value claiming the present generation is live, is accepted unsigned off the wire, and delegates a live child |
| `Finality.RevokedRootDelegates` | crates/hyperion-capability/src/monitor.rs:57-132 | a three-call run in which a revoked root delegates |
| `Compat.CompatHost.constructor` | crates/hyperion-compat/src/host.rs:29-38 | no sessions at first |
| `Compat.CompatHost.GrantTo` | crates/hyperion-compat/src/host.rs:108-123 | a grant is one derivation by the monitor appended to the session; every refusal is told apart and changes nothing; host and monitor stay in step with the system the theorems are about |
| `Compat.CompatHost.EndSession` | crates/hyperion-compat/src/host.rs:330-347 | every grant of the session is revoked and the session forgotten, a refusal changes nothing, and host and monitor stay in step with the system the theorems are about |
| `Compat.CompatHost.RevokeAll` | crates/hyperion-compat/src/host.rs:343-345 | the loop makes one revocation per grant, in order |
| `Compat.RunContinues` | crates/hyperion-compat/src/host.rs:330-347 | a run continued by calls is the run of both together |
| `Compat.ActKeepsGrantsIssued` | crates/hyperion-compat/src/host.rs:108-123 | every action keeps the fact that session grants are issued tokens |
| `Compat.HistoryGrantsIssued` | crates/hyperion-compat/src/host.rs:108-123 | hence so after every history of host and monitor actions |
| `Compat.RevocationsReach` | crates/hyperion-compat/src/host.rs:330-347 | after the revocation loop a token has been revoked once more per grant above it |
| `Compat.TerminatedGrantsStayDead` | crates/hyperion-compat/src/host.rs:330-347 | after termination every value, at a generation already reached, of a token granted to the session or derived from one before is dead until the revocations come all the way round |
| `Compat.TerminationIsFinal` | crates/hyperion-compat/src/host.rs:330-347 | with no one token reached by 2^64 revocations and derivations presenting issued generations, nothing ever issued beneath a grant, before termination or after, is live |
| `Compat.TerminatedGrantEscapes` | crates/hyperion-compat/src/host.rs:330-347 | without that condition every unexpired grant of a terminated session still delegates, presented at its new generation |
| `Compat.TerminateSparesOthers` | crates/hyperion-compat/src/host.rs:330-347 | every token value outside those subtrees keeps its liveness |
| `Compat.GrantsAreUnderThemselves` | crates/hyperion-compat/src/host.rs:108-123 | the granted tokens are among those that die |
| `Compat.HostRights` | crates/hyperion-capability/src/types.rs:52-58 | the rights asked of host callers are the grant bit and the revoke bit, each alone |
| `Compat.LaunchOpens` | crates/hyperion-compat/src/host.rs:58-106 | over every history a launch opens a session under a new name, with nothing granted |
| `Compat.GrantedToken` | crates/hyperion-compat/src/host.rs:108-123 | a session gets the rights asked for, for its own boundary, over the object and for the life of the grantor, live at once; no other session changes |
| `Calendar.EraIsFloor` | crates/hyperion-console/src/a2a.rs:251 | the compensated truncating division is the floor, for negative days too |
| `Calendar.YearOfEraBounds` | crates/hyperion-console/src/a2a.rs:252-255 | the year formula picks the March-based year holding the day, so no unsigned subtraction underflows; day 365 occurs only before a leap day |
| `Calendar.CivilCountsBack` | crates/hyperion-console/src/a2a.rs:249-261 | every result is a date that exists and counting its days gives back the input |
| `Calendar.CivilIsOnto` | crates/hyperion-console/src/a2a.rs:249-261 | every Gregorian date is the result for its own day count |
| `Calendar.CivilIsTheCalendar` | crates/hyperion-console/src/a2a.rs:249-261 | day 0 is 1970-01-01 and each next day is the calendar successor (sections 5.7 and Appendix C of RFC 3339), on every integer day |
| `Calendar.CivilIncreases` | crates/hyperion-console/src/a2a.rs:249-261 | later days give later dates |
| `Calendar.NextDateCounts` | crates/hyperion-console/src/a2a.rs:249-261 | the calendar successor is one day on in the reference count |
| `Calendar.DayNumberIncreases` | crates/hyperion-console/src/a2a.rs:249-261 | the reference count is strictly increasing on dates |
| `Calendar.TimestampReadsBack` | crates/hyperion-console/src/a2a.rs:263-271 | a separate reader recovers the second from every timestamp |
| `Calendar.TimestampInjective` | crates/hyperion-console/src/a2a.rs:263-271 | no two seconds share a timestamp |
| `Calendar.TimestampShape` | crates/hyperion-console/src/a2a.rs:263-271 | the text has the shape of section 5.6 of RFC 3339 if and only if it is before year 10000 |
| `ContractCodec.EscapeLoop` | crates/hyperion-app/src/contract.rs:191-200 | the buffer loop computes the recursive escaping |
| `ContractCodec.UnescapeLoop` | crates/hyperion-app/src/contract.rs:202-215 | likewise, with a trailing backslash dropped |
| `ContractCodec.SplitLoop` | crates/hyperion-app/src/contract.rs:219-241 | the loop finds exactly the pieces between unescaped delimiters |
| `ContractCodec.DecodeLoop` | crates/hyperion-app/src/contract.rs:319-375 | the parser with its early returns is the recursive decoder |
| `ContractCodec.UnescapeInvertsEscape` | crates/hyperion-app/src/contract.rs:191-215 | unescaping undoes escaping on every text |
| `ContractCodec.EscapeMarks` | crates/hyperion-app/src/contract.rs:191-200 | only backslashes, bars and commas are marked, each by one backslash |
| `ContractCodec.SplitInvertsJoin` | crates/hyperion-app/src/contract.rs:219-241 | splitting undoes joining of sealed pieces |
| `ContractCodec.KindRoundTrip` | crates/hyperion-app/src/contract.rs:243-276 | a kind survives if and only if it is no choice, or a non-empty choice of non-empty options |
| `ContractCodec.FieldRoundTrip` | crates/hyperion-app/src/contract.rs:279-375 | a field line parses back to the field exactly under that condition and a non-empty name |
| `ContractCodec.HeaderRoundTrip` | crates/hyperion-app/src/contract.rs:279-375 | the same for the header line |
| `ContractCodec.FieldLineIs` | crates/hyperion-app/src/contract.rs:298-311 | the text of a field line, piece by piece |
| `ContractCodec.HeaderLineIs` | crates/hyperion-app/src/contract.rs:280-297 | the text of the header line, piece by piece |
| `ContractCodec.KindWords` | crates/hyperion-app/src/contract.rs:243-256 | the word of each kind |
| `ContractCodec.ChoiceWords` | crates/hyperion-app/src/contract.rs:250-253 | the options of a choice, escaped, with commas between |
| `ContractCodec.RoundTrip` | crates/hyperion-app/src/contract.rs:279-375 | for any text at all: decoding an encoding gives the contract back if its names, owner and options are non-empty, and otherwise refuses outright |
| `ContractCodec.DecodeIsStable` | crates/hyperion-app/src/contract.rs:319-375 | whatever is accepted re-encodes to something that decodes to the same contract |
| `ContractCodec.AcceptedShape` | crates/hyperion-app/src/contract.rs:319-375 | nothing is accepted but one header line of seven pieces and one of six for each field, with the fixed words in place |
| `ContractCodec.KindsEncodeAlike` | crates/hyperion-app/src/contract.rs:243-258 | kinds with equal text are equal, but for a choice of nothing and a choice of one empty option |
| `ContractCodec.FieldsEncodeAlike` | crates/hyperion-app/src/contract.rs:279-317 | the same for fields |
| `ContractCodec.HeadersEncodeAlike` | crates/hyperion-app/src/contract.rs:279-317 | header lines determine the header |
| `ContractCodec.EncodingsDiffer` | crates/hyperion-app/src/contract.rs:279-317 | two contracts encode alike only if they differ in nothing but a choice of nothing |
| `ContractRules.ValidateContract` | crates/hyperion-app/src/contract.rs:137-189 | reports the earliest fault in the order of the source, a fault that is really there, and none exactly for answerable contracts |
| `ContractRules.FaultlessIsAnswerable` | crates/hyperion-app/src/contract.rs:137-189 | without a fault in the head or in any field, the owner, names, field identifiers and choices are all as a reader could answer them |
| `ContractRules.HeadFaultMeans` | crates/hyperion-app/src/contract.rs:137-160 | each fault of the head says what is wrong with name, goal or owner |
| `ContractRules.FieldFaultMeans` | crates/hyperion-app/src/contract.rs:160-189 | each fault of a field says what is wrong with one |
| `ContractRules.NamesAre` | crates/hyperion-app/src/contract.rs:137-160 | which characters names, field names and users are made of, and that 64 is the longest |
| `ContractRules.ValidatedRoundTrip` | crates/hyperion-app/src/contract.rs:182-375 | a validated contract decodes from its own encoding if and only if no choice offers an empty option |
| `ContractRules.ValidatedButUndecodable` | crates/hyperion-app/src/contract.rs:182-265 | one that passes validation and never decodes |
| `JsonScan.ExtractJsonObject` | crates/hyperion-app/src/plan.rs:99-129 | returns exactly the shortest slice from the first brace whose braces outside string literals balance, none if and only if there is none, and depth never underflows |
| `JsonScan.ScanLiteral` | crates/hyperion-app/src/plan.rs:106-115 | inside a literal the flags wait for the closing quote an independent reading of literals finds |
| `JsonScan.ScanMeaning` | crates/hyperion-app/src/plan.rs:102-128 | the flags and depth mean: all literals closed, and the brace excess |
| `JsonScan.BalancedAtZero` | crates/hyperion-app/src/plan.rs:116-126 | depth returns to zero outside literals exactly on balanced slices |
| `JsonScan.ObjectUnique` | crates/hyperion-app/src/plan.rs:99-129 | at most one slice qualifies |
| `JsonScan.ObjectFoundInProse` | crates/hyperion-app/src/plan.rs:99-129 | an object is found unchanged behind any brace-free preamble and before any trailer |
| `JsonScan.MarksAre` | crates/hyperion-app/src/plan.rs:99-129 | the bytes scanned for are a quote, a backslash and the two braces |
| `HttpHeader.LinesOfJoined` | crates/hyperion-console/src/http_server.rs:304-331 | cutting a header block into lines undoes putting lines together |
| `HttpHeader.DeclaredLengthIff` | crates/hyperion-console/src/http_server.rs:320-330 | of any header text: the declared length is the number, signed or not and zero-padded or not, that the first line naming a content length in any case gives, and zero if it gives none below 2^64 or no line names one |
| `HttpHeader.RequestLineIs` | crates/hyperion-console/src/http_server.rs:304-319 | of any header text: the verb is the first word of its first line and the path the second up to a question mark, a missing word being empty |
| `HttpReader.ReadRequest` | crates/hyperion-console/src/http_server.rs:286-352 | the read loops compute the specified answer, and hold the specified number of bytes when they return |
| `HttpReader.ReadRest` | crates/hyperion-console/src/http_server.rs:303-352 | from the blank line on, the body loop computes the specified request and bytes held |
| `HttpReader.HeldIsBounded` | crates/hyperion-console/src/http_server.rs:286-352 | for every stream, every split of it into reads and every declared length, the buffer never holds more than 69632 bytes, 8 MiB and 4095 bytes together |
| `HttpReader.RequestReadBack` | crates/hyperion-console/src/http_server.rs:286-352 | what is sent is what is read, however the socket splits it: the first word as the verb, the second up to a question mark as the path, the header text, and a body of the length the header lines give; too long a body, or one cut short by an error, is refused |
| `HttpReader.HeaderEndOfPrefix` | crates/hyperion-console/src/http_server.rs:251-253 | a prefix shows the blank line exactly when it reaches past the end of the leftmost one in the whole stream |
| `HttpReader.HeaderOutcome` | crates/hyperion-console/src/http_server.rs:289-302 | the header loop refuses, or stops at the leftmost blank line of the stream |
| `HttpReader.SmallHeaderFound` | crates/hyperion-console/src/http_server.rs:289-302 | a block ending by byte 65537 is found however the socket splits the stream |
| `HttpReader.LargeHeaderRefused` | crates/hyperion-console/src/http_server.rs:289-302 | one ending past byte 69632 is refused however it splits |
| `HttpReader.BodyOutcome` | crates/hyperion-console/src/http_server.rs:333-344 | the body does not depend on the pieces, and is cut short at end of stream |
| `HttpReader.FoundMeansRequestOf` | crates/hyperion-console/src/http_server.rs:286-352 | once the block is found, the request is the one the whole stream denotes |
| `HttpReader.SplittingDoesNotMatter` | crates/hyperion-console/src/http_server.rs:286-352 | for every split into reads of 1 to 4096 bytes: same method, path, headers and body for small blocks, refusal for large ones |
| `HttpReader.SplitIndependentIff` | crates/hyperion-console/src/http_server.rs:286-352 | the answer is a function of the bytes alone if and only if the block ends by byte 65537, past byte 69632, never, or denotes no request |
| `HttpReader.SlowlyRefused` | crates/hyperion-console/src/http_server.rs:289-302 | in between, one-byte reads refuse |
| `HttpReader.QuicklyFound` | crates/hyperion-console/src/http_server.rs:289-302 | and full reads accept |
| `AgentRuntime.BackoffGrows` | crates/hyperion-agent-runtime/src/runtime.rs:75-77 | repeat offenders never wait less; the wait is between 1 and 32 seconds and levels off at 32 from the sixth suspension on |
| `AgentRuntime.RouteInvoke` | crates/hyperion-agent-runtime/src/runtime.rs:717-809 | lifecycle, broker and scheduler decide in that order |
| `AgentRuntime.WakingKeepsRoute` | crates/hyperion-agent-runtime/src/runtime.rs:690-717 | an auto-resume changes nothing about the decision that follows it |
| `AgentRuntime.StepOnGrants` | crates/hyperion-agent-runtime/src/runtime.rs:669-1201 | the grants and the pending request of an instance change only by checkpoint, direct grant, consent and a deferred prepare |
| `AgentRuntime.StepOnKeys` | crates/hyperion-agent-runtime/src/runtime.rs:324-350 | no instance is ever forgotten |
| `AgentRuntime.RunIdsBelow` | crates/hyperion-agent-runtime/src/runtime.rs:324-350 | over every run the counter is past every instance and every checkpoint it has named, so no id is handed out twice |
| `AgentRuntime.AlwaysExplained` | crates/hyperion-agent-runtime/src/runtime.rs:669-1153 | over every interleaving, each held grant goes back to an explicit step with no checkpoint since |
| `AgentRuntime.ManifestIsFixed` | crates/hyperion-agent-runtime/src/runtime.rs:324-350 | the manifest an instance was spawned with is the one every later decision reads |
| `AgentRuntime.NoSilentAuthority` | crates/hyperion-agent-runtime/src/runtime.rs:669-1153 | under every interleaving of all steps, an admitted dispatch is of a baseline capability, or of a requestable one explicitly granted with no checkpoint since; an undeclared one is never dispatched whatever the grants hold |
| `AgentRuntime.OutcomeIff` | crates/hyperion-agent-runtime/src/runtime.rs:669-810 | exactly when an invoke gets each of its answers, in terms of state, clock, manifest, grants and the scheduler |
| `AgentRuntime.OutcomeEffects` | crates/hyperion-agent-runtime/src/runtime.rs:669-810 | only an invoke that goes ahead puts a dispatch in flight and counts as a call; the state each answer leaves |
| `AgentRuntime.SchedulerAdmits` | crates/hyperion-agent-runtime/src/runtime.rs:779-810 | what is admitted in a run, the scheduler admitted |
| `AgentRuntime.InFlightWasAdmitted` | crates/hyperion-agent-runtime/src/runtime.rs:669-810 | over every interleaving each dispatch in flight was admitted by an earlier event, under a ticket of its own |
| `AgentRuntime.CallsAreAdmissions` | crates/hyperion-agent-runtime/src/runtime.rs:806-810 | over every interleaving an instance's call count is the number of dispatches admitted on it |
| `AgentRuntime.SpawnStarts` | crates/hyperion-agent-runtime/src/runtime.rs:324-350 | over every run a spawn starts a bound instance under a new name, with nothing granted, used or pending |
| `AgentRuntime.CheckpointResumes` | crates/hyperion-agent-runtime/src/runtime.rs:1091-1153 | resuming the checkpoint just taken runs the instance again, as it was but for its grants |
| `AgentRuntime.OtherwiseUnmoved` | crates/hyperion-agent-runtime/src/runtime.rs:1025-1201 | resuming an unknown or unparked instance and resolving no consent do nothing; what consent, termination and completion leave |
| `AgentRuntime.OutcomeCounts` | crates/hyperion-agent-runtime/src/runtime.rs:507-557 | a success clears the run of failures, a failure lengthens it, and exactly the third in a row suspends |
| `AgentRuntime.SuccessesEarnBack` | crates/hyperion-agent-runtime/src/runtime.rs:632-659 | each three successes in a row earn back one suspension, until none is left |
| `AgentRuntime.Runtime.constructor` | crates/hyperion-agent-runtime/src/runtime.rs:237-250 | no instances at first |
| `AgentRuntime.Runtime.SpawnInstance` | crates/hyperion-agent-runtime/src/runtime.rs:324-350 | the new state is that of the spawn step |
| `AgentRuntime.Runtime.PrepareInvoke` | crates/hyperion-agent-runtime/src/runtime.rs:669-810 | the new state and the outcome are those of the prepare step, and an admitted dispatch is in flight |
| `AgentRuntime.Runtime.FinishInvoke` | crates/hyperion-agent-runtime/src/runtime.rs:507-557 | the new state is that of the finish step; the streak of successes is reset by suspension only |
| `AgentRuntime.Runtime.ResolvePendingConsent` | crates/hyperion-agent-runtime/src/runtime.rs:1025-1056 | a consent is resolved only if one is pending |
| `AgentRuntime.Runtime.Grant` | crates/hyperion-agent-runtime/src/runtime.rs:1066-1086 | appends a grant to an existing instance |
| `AgentRuntime.Runtime.TakeCheckpoint` | crates/hyperion-agent-runtime/src/runtime.rs:1091-1120 | drops the grants and parks the instance, from any state |
| `AgentRuntime.Runtime.ResumeFrom` | crates/hyperion-agent-runtime/src/runtime.rs:1124-1153 | succeeds exactly from a checkpointed instance |
| `AgentRuntime.Runtime.End` | crates/hyperion-agent-runtime/src/runtime.rs:1168-1201 | terminates or completes an existing instance |
| `AgentBackoff.StepOnState` | crates/hyperion-agent-runtime/src/runtime.rs:507-810 | what one step that is no override can do to the state of an instance: only a failing finish suspends, only waiting it out wakes |
| `AgentBackoff.FinishOnState` | crates/hyperion-agent-runtime/src/runtime.rs:507-557 | the finish step, the same way |
| `AgentBackoff.PrepareOnState` | crates/hyperion-agent-runtime/src/runtime.rs:669-810 | the prepare step, the same way |
| `AgentBackoff.OutcomeMeans` | crates/hyperion-agent-runtime/src/runtime.rs:681-715 | a prepare reaching the broker met a running instance or one that has waited |
| `AgentBackoff.AlwaysWaitsOut` | crates/hyperion-agent-runtime/src/runtime.rs:507-810 | a suspension holds until waited out, whatever happened to the instance before it |
| `AgentBackoff.AdmissionWaitsOutBackoff` | crates/hyperion-agent-runtime/src/runtime.rs:520-715 | with any number of dispatches in flight, any outcomes and any history: after a suspension, and until a checkpoint is taken or a pending consent resolved, each admission comes at least the current backoff after it |
| `AgentBackoff.AlwaysTimed` | crates/hyperion-agent-runtime/src/runtime.rs:507-810 | in every reachable state a suspended instance has the instant of its suspension on record |
| `AgentBackoff.AdmitsAtOnceIff` | crates/hyperion-agent-runtime/src/runtime.rs:681-1153 | in every reachable state, a step makes the baseline capabilities of a suspended instance admissible at every instant if and only if it is a checkpoint, resolves a pending consent, or is an invoke that has waited |
| `AgentBackoff.CheckpointSkipsBackoff` | crates/hyperion-agent-runtime/src/runtime.rs:1091-1120 | a run from the start in which a checkpoint gets an instance dispatched in the instant it was suspended |
| `AgentBackoff.ConsentSkipsBackoff` | crates/hyperion-agent-runtime/src/runtime.rs:1025-1056 | another in which resolving a pending consent does, either way |
| `AgentBackoff.LeavesTerminated` | crates/hyperion-agent-runtime/src/runtime.rs:507-1120 | termination is left exactly by a suspending late failure, a checkpoint, a completion or a resolved pending consent |
| `AgentBackoff.TerminatedAgentRunsAgain` | crates/hyperion-agent-runtime/src/runtime.rs:507-810 | a run in which a terminated instance is dispatched again after a late failure |
| `AgentBackoff.TrialKeepsBooks` | crates/hyperion-agent-runtime/src/runtime.rs:520-715 | in a run of failures the counters are a function of the number of failures |
| `AgentBackoff.RepeatFailuresWaitLonger` | crates/hyperion-agent-runtime/src/runtime.rs:520-715 | for a caller that always fails, dispatch 3+k is admitted no sooner than the sum of 2^(min(i,6)-1) seconds, i from 1 to k, after the third failure |
| `AgentBackoff.TotalBackoffClosedForm` | crates/hyperion-agent-runtime/src/runtime.rs:75-77 | that sum is 2^k - 1 up to k = 6, then grows by 32 |
| `Residency.LeastValued` | crates/hyperion-ai-runtime/src/residency.rs:64-77 | the scan returns a candidate no other is worth less than |
| `Residency.WorthCompares` | crates/hyperion-ai-runtime/src/residency.rs:70-71 | which of two models is worth no more: their predictions, each weighted by the age of the other |
| `Residency.OlderIsWorthLess` | crates/hyperion-ai-runtime/src/residency.rs:70-71 | predicted alike, the one used less recently is worth less |
| `Residency.LessNeededIsWorthLess` | crates/hyperion-ai-runtime/src/residency.rs:70-71 | used alike, the one predicted to be needed less is worth less |
| `Residency.JustUsedIsWorthMost` | crates/hyperion-ai-runtime/src/residency.rs:70-71 | one used this instant is worth at least as much as any predicted to be needed no more |
| `Residency.EvictsLeastRecentlyUsed` | crates/hyperion-ai-runtime/src/residency.rs:62-84 | among models predicted alike, none that is evicted was used later than an unpinned one that stays |
| `Residency.ResidencyManager.constructor` | crates/hyperion-ai-runtime/src/residency.rs:9-17 | nothing is resident at first |
| `Residency.ResidencyManager.CapacityAvailable` | crates/hyperion-ai-runtime/src/residency.rs:20-22 | whenever the books are right, the free space and the resident footprints make up the capacity exactly |
| `Residency.ResidencyManager.Evict` | crates/hyperion-ai-runtime/src/residency.rs:110-117 | one resident goes cold and its footprint comes off the books |
| `Residency.ResidencyManager.MakeRoom` | crates/hyperion-ai-runtime/src/residency.rs:62-84 | terminates, and succeeds exactly if the pinned residents alone leave room; victims are unpinned and worth at most any surviving unpinned resident; before the last one the request still did not fit |
| `Residency.ResidencyManager.MarkHot` | crates/hyperion-ai-runtime/src/residency.rs:86-108 | a model becomes resident with its footprint on the books once |
| `Residency.ResidencyManager.TouchModel` | crates/hyperion-ai-runtime/src/residency.rs:30-34 | a known model is used now; no footprint, pin or other model changes |
| `Residency.ResidencyManager.PinModel` | crates/hyperion-ai-runtime/src/residency.rs:36-40 | a known model gains one pin and nothing else changes, an unknown one is ignored |
| `Residency.ResidencyManager.UnpinModel` | crates/hyperion-ai-runtime/src/residency.rs:42-46 | a known model loses one pin, stopping at zero, and nothing else changes |
| `Residency.ResidencyManager.SetPredictedNextUse` | crates/hyperion-ai-runtime/src/residency.rs:48-52 | only the predicted worth of a known model changes |
| `Residency.LocalAiRuntime.constructor` | crates/hyperion-ai-runtime/src/runtime.rs:111-121 | nothing is resident at first |
| `Residency.LocalAiRuntime.LoadModel` | crates/hyperion-ai-runtime/src/runtime.rs:215-226 | a load succeeds if and only if the model was hot or fits beside the pinned residents, and keeps the books |
| `Residency.CheaperSetLeavesNoRoom` | crates/hyperion-ai-runtime/src/residency.rs:62-84 | candidates all worth less than the last victim leave too little room without it |
| `Residency.CheaperVictimsNeeded` | crates/hyperion-ai-runtime/src/residency.rs:62-84 | whatever ties there are, every low-value set that makes room contains each victim worth less than the last one |
| `Residency.LeastIff` | crates/hyperion-ai-runtime/src/residency.rs:62-84 | for each way ties can fall: the evicted set is the least low-value set that makes room if and only if each victim worth as much as the last is needed even when all others worth as much are evicted |
| `Residency.AlwaysLeastIff` | crates/hyperion-ai-runtime/src/residency.rs:62-84 | before the call: the evicted set will be the least however ties fall if and only if every model of the tier in which room is first found is needed even without the rest of that tier |
| `Residency.TakesSpared` | crates/hyperion-ai-runtime/src/residency.rs:62-84 | otherwise some way of breaking ties evicts a model that could have been spared |
| `Residency.EvictionIsLeast` | crates/hyperion-ai-runtime/src/residency.rs:62-84 | so it always is when no two candidates tie |
| `Residency.TiedEvictionNotLeast` | crates/hyperion-ai-runtime/src/residency.rs:62-84 | an instance: two models worth the same, of which the large one alone would have done |
| `Residency.WithoutIsAccounted` | crates/hyperion-ai-runtime/src/residency.rs:110-117 | evictions keep the books |
| `Residency.MarkedHotIsAccounted` | crates/hyperion-ai-runtime/src/residency.rs:86-108 | loading what fits keeps the books |
| `Residency.StepKeepsAccounts` | crates/hyperion-ai-runtime/src/residency.rs:20-117 | every call keeps used space equal to the sum of the resident footprints, within capacity |
| `Residency.RunsAreAccounted` | crates/hyperion-ai-runtime/src/residency.rs:20-117 | hence so in every reachable state |
| `Residency.PinnedSurvives` | crates/hyperion-ai-runtime/src/residency.rs:62-84 | a pinned resident survives every call with its footprint |
| `Residency.PinnedThroughoutSurvives` | crates/hyperion-ai-runtime/src/residency.rs:20-117 | and every stretch of a run through which it stays pinned |
| `Residency.PinProtects` | crates/hyperion-ai-runtime/src/residency.rs:36-40 | a resident just pinned stays, whatever is called next |
| `Residency.UnpinUndoesPin` | crates/hyperion-ai-runtime/src/residency.rs:36-46 | an unpin undoes a pin |
| `Residency.UnpinStopsAtZero` | crates/hyperion-ai-runtime/src/residency.rs:42-46 | with no pin left an unpin does nothing |
| `Residency.UseIsRecorded` | crates/hyperion-ai-runtime/src/residency.rs:30-108 | a load and a touch leave the model as just used and keep its pins and prediction |
| `Residency.PredictionIsRecorded` | crates/hyperion-ai-runtime/src/residency.rs:48-52 | a prediction replaces the last one and nothing else |
| `Residency.EvictedEntries` | crates/hyperion-ai-runtime/src/residency.rs:110-117 | an eviction changes the status alone |
| `RateLimiter.ApiGateway.constructor` | crates/hyperion-api-gateway/src/gateway.rs:81-107 | no windows at first |
| `RateLimiter.ApiGateway.CheckRateLimit` | crates/hyperion-api-gateway/src/gateway.rs:193-211 | the answer and the new window are those of the limiter step; a token not seen before is admitted into a window of 60 calls a minute; other tokens are untouched |
| `RateLimiter.ApiGateway.SetRateLimit` | crates/hyperion-api-gateway/src/gateway.rs:219-238 | a live token gets the policy and a fresh window; for any other nothing changes |
| `RateLimiter.WindowsApart` | crates/hyperion-api-gateway/src/gateway.rs:193-211 | two calls share a window or the later window starts at least a full length on |
| `RateLimiter.CallInItsWindow` | crates/hyperion-api-gateway/src/gateway.rs:193-211 | every call falls within a length of the start of its window |
| `RateLimiter.CounterCounts` | crates/hyperion-api-gateway/src/gateway.rs:193-211 | the counter is the number of calls admitted in the current window |
| `RateLimiter.WindowBound` | crates/hyperion-api-gateway/src/gateway.rs:193-211 | no window admits more than N |
| `RateLimiter.FirstWindow` | crates/hyperion-api-gateway/src/gateway.rs:193-211 | while the first window lasts exactly the calls up to the quota are admitted |
| `RateLimiter.DefaultIsSixtyAMinute` | crates/hyperion-api-gateway/src/types.rs:36-43 | without a policy of its own a token gets exactly its first 60 calls in a minute |
| `RateLimiter.TwoWindowsAtMost` | crates/hyperion-api-gateway/src/gateway.rs:193-211 | no interval of a window length meets three windows |
| `RateLimiter.IntervalBound` | crates/hyperion-api-gateway/src/gateway.rs:193-211 | for non-decreasing call times and W > 0, any half-open interval of length W holds at most 2N admitted calls |
| `RateLimiter.IntervalBoundOnFirstUse` | crates/hyperion-api-gateway/src/gateway.rs:193-211 | at most 2N - 1 when only calls open windows |
| `RateLimiter.FirstUseBoundIsTight` | crates/hyperion-api-gateway/src/gateway.rs:193-211 | 2N - 1 is reached, for every positive quota and every window of two seconds or more |
| `RateLimiter.OneSecondBound` | crates/hyperion-api-gateway/src/gateway.rs:193-211 | for windows of one second the bound is N |
| `RateLimiter.ZeroWindowAdmitsAll` | crates/hyperion-api-gateway/src/gateway.rs:193-211 | for windows of no seconds every call is admitted under a positive quota, and none under quota zero |
| `RateLimiter.IntervalBoundIsTight` | crates/hyperion-api-gateway/src/gateway.rs:193-238 | 2N is reached for every quota and every window of two seconds or more |
| `RateLimiter.SpanBoundWithResets` | crates/hyperion-api-gateway/src/gateway.rs:193-238 | with r installations of the policy in an interval of length W, a live token gets at most (r + 2)N calls in it |
| `RateLimiter.SpanBoundIsTight` | crates/hyperion-api-gateway/src/gateway.rs:193-238 | and that is reached for every positive quota, every window of two seconds or more and every r |
| `ContextAssembly.InsertByScore` | crates/hyperion-context/src/engine.rs:325 | insertion keeps non-increasing scores, and adds exactly the one candidate |
| `ContextAssembly.SortByScore` | crates/hyperion-context/src/engine.rs:325 | the ranking is a permutation in non-increasing score |
| `ContextAssembly.Assemble` | crates/hyperion-context/src/engine.rs:327-381 | the loop with its running total, counters and early exit computes the specified selection from a ranking of the candidates by score |
| `ContextAssembly.WithinBudget` | crates/hyperion-context/src/engine.rs:327-381 | charges total at most the budget, and no category exceeds its cap |
| `ContextAssembly.ScoresDescend` | crates/hyperion-context/src/engine.rs:327-381 | entries come out in non-increasing score |
| `ContextAssembly.NoPriorityInversion` | crates/hyperion-context/src/engine.rs:327-381 | a candidate left out although it scores strictly above a chosen one belongs to a category full of chosen entries scoring at least as high |
| `ContextAssembly.LeftOutForRoom` | crates/hyperion-context/src/engine.rs:327-381 | otherwise one ranked no later did not fit |
| `ContextAssembly.StoppedMeans` | crates/hyperion-context/src/engine.rs:350-352 | the selection stops only at a candidate that does not fit |
| `ContextAssembly.SelectionGrows` | crates/hyperion-context/src/engine.rs:327-381 | the selection only grows and a stop is final |
| `ContextAssembly.PassedOver` | crates/hyperion-context/src/engine.rs:331-336 | a candidate passed over without stopping found its category full |
| `ContextAssembly.TakesPrefix` | crates/hyperion-context/src/engine.rs:327-381 | with a budget of exactly the first m charges, all above the summary threshold, the first m candidates are taken, and an undercharged one among the last overruns it |
| `ContextAssembly.BoundIsHardIff` | crates/hyperion-context/src/engine.rs:338-352 | content stays within every budget if and only if no summary is longer than the charge cap |
| `ContextAssembly.ChargedAs` | crates/hyperion-context/src/engine.rs:338-348 | in numbers, what is taken in full, as a summary and as a reference, and what each is charged |
| `ContextAssembly.BetterScoreBetterMode` | crates/hyperion-context/src/engine.rs:338-348 | a better score never makes an inclusion poorer |
| `ContextAssembly.EntryMeans` | crates/hyperion-context/src/engine.rs:366-380 | each entry is one chosen candidate, included as its score and size decide |
| `ContextPropagation.ContextPropagation.constructor` | crates/hyperion-context/src/propagation.rs:173-179 | an empty replay cache, and envelope ids from 1 |
| `ContextPropagation.ContextPropagation.Export` | crates/hyperion-context/src/propagation.rs:218-292 | fails if and only if a node the policy does not redact cannot be read; otherwise each entry has its specified form and the generation of every disclosed node is recorded |
| `ContextPropagation.ContextPropagation.ReportFreshness` | crates/hyperion-context/src/propagation.rs:294-313 | the loop classifies every recorded node: fresh, stale within the horizon, stale beyond |
| `ContextPropagation.ContextPropagation.Import` | crates/hyperion-context/src/propagation.rs:331-376 | signature, then replay, then staleness; the id of every verified envelope is remembered |
| `ContextPropagation.HopEntry` | crates/hyperion-context/src/propagation.rs:62-376 | across an export and an import with any graph change between: length and categories are kept; node or content appears if and only if the policy lists the category and not to redact it, the node is readable, and its generation is unchanged or the clock not past capture plus horizon; references stay within the boundary, content is the snapshot, a summary its first three fields; a placeholder says why |
| `ContextPropagation.ReportMeans` | crates/hyperion-context/src/propagation.rs:294-313 | a recorded node is fresh if unchanged, stale beyond the horizon if and only if unreadable, or changed and the clock past capture plus horizon, and stale within it otherwise |
| `ContextPropagation.LevelNamesDiffer` | crates/hyperion-context/src/propagation.rs:237-240 | the reason of a redaction tells the trust levels apart |
| `ContextPropagation.FreshIffSameSecond` | crates/hyperion-context/src/propagation.rs:294-376 | however often a node was written since export, it is reported fresh if and only if all those writes fall in the captured second; past the horizon that decides whether its entry survives, always with the content of the export |
| `ContextPropagation.SameSecondWriteUnseen` | crates/hyperion-context/src/propagation.rs:294-313 | an instance: one write in that second leaves the old content fresh however late it is imported |
| `ContextPropagation.AcceptedIffFirst` | crates/hyperion-context/src/propagation.rs:331-347 | over a run of one importer, with a key of its own for each import: accepted if and only if it verifies and no earlier verified one had its id, and refused as a replay if and only if one had |
| `ContextPropagation.SecondExporterRefused` | crates/hyperion-context/src/propagation.rs:173-347 | two exporters with different keys send their first envelopes: both verify, and the second is refused as a replay |
| `ModelCatalog.CanonicalBytes` | crates/hyperion-ai-runtime/src/model_catalog.rs:133-149 | the nested loops append the specified bytes |
| `ModelCatalog.AppendEntry` | crates/hyperion-ai-runtime/src/model_catalog.rs:133-149 | one entry is its fields, each ended by a NUL, then its format as 8 bytes |
| `ModelCatalog.AppendFields` | crates/hyperion-ai-runtime/src/model_catalog.rs:133-149 | the inner loop ends each field by a NUL, in order |
| `ModelCatalog.EntrySpelling` | crates/hyperion-ai-runtime/src/model_catalog.rs:133-149 | the bytes of an entry, spelt out |
| `ModelCatalog.NulFreeCatalogsInjective` | crates/hyperion-ai-runtime/src/model_catalog.rs:133-149 | among catalogs without NUL, equal signed bytes mean the same entries in the same order |
| `ModelCatalog.SingleEntryPinned` | crates/hyperion-ai-runtime/src/model_catalog.rs:133-149 | one NUL-free entry is the only catalog with its bytes |
| `ModelCatalog.ShiftFields` | crates/hyperion-ai-runtime/src/model_catalog.rs:133-149 | a NUL inside a string lets another field list have the same bytes, of text if these are |
| `ModelCatalog.MergeEntries` | crates/hyperion-ai-runtime/src/model_catalog.rs:133-149 | so do two neighbouring entries, and the merged strings are text if theirs are |
| `ModelCatalog.PinnedDownIff` | crates/hyperion-ai-runtime/src/model_catalog.rs:133-149 | among catalogs of UTF-8 text, all a String can hold: one is the only one with its signed bytes if and only if it has at most one entry and no NUL in it |

## Left out

- LiveIffUnrevoked: token and object counters are unbounded here; they are 64-bit in the source.  Generations do
  wrap at 2^64.
- CivilIsTheCalendar: days are unbounded integers, so `i64` overflow near the extremes is not modelled.
- ReadRequest: lossy UTF-8 decoding is a parameter; header lookup and authority checks after parsing are not modelled.
- SignedClaimIsGenuine: cryptography is a parameter with its contract as a hypothesis.
- RunsAreAccounted: pin counts do not overflow at 2^32, and values are reals, so `f32` rounding and NaN are not
  modelled; ties go to any least candidate.
- SortByScore: stands for the library sort, of which order and permutation are stated but not stability; every
  theorem about the selection holds for any such ranking.  Scores are reals; NaN is not modelled.
- HopEntry: the exporting graph is read at one moment; concurrent writes during one export are not modelled.  The
  trust level stored in a policy is carried but never compared with the target, as in the source.
- PrepareInvoke: the scheduler's verdict is an input, and rights checks on the caller before each step are left out.
- LaunchOpens: the depth check, the network grant and the sandbox a launch sets up are not modelled.
- Locks: each locked section is one atomic step; only `invoke` is split, into its two locked phases.
- Clocks are inputs of each step.  Randomness, network and file access are not modelled.
- Memory and explainability records written by the agent runtime and the gateway.
- The rest of the compatibility host (launch, sandbox, browser), of the gateway and of the application registry.
- Candidate scoring, working-set updates, `merge` and `revalidate` in the context crate.
- Inference backends, embeddings, the console's user interface, boot scripts and static content.
