/**
How final a revocation is (crates/hyperion-capability/src/monitor.rs, wire.rs).  Every issued token claims
generation 0, but nothing stops a caller from presenting a value that claims the generation a revocation
has moved the node to: such a value is live, and can be delegated from.
*/
module Finality {
  import opened Common
  import opened Revocation
  import opened Monitor
  import opened Wire

  /** The revocations that reached the token call `i` issued have not come all the way round. */
  ghost predicate ShortOfATurn(calls: seq<Call>, i: nat) {
    i < |calls| && IssuedBy(calls, i).Some? ==> |RevocationsSince(calls, i, IssuedBy(calls, i).value.tokenId)| < U64
  }

  /** No one token has been reached by 2^64 revocations; the run as a whole may hold any number. */
  ghost predicate NoFullTurn(calls: seq<Call>) {
    forall i: nat :: ShortOfATurn(calls, i)
  }

  /** Call `r` revokes a token the monitor knows. */
  ghost predicate RevokesKnown(calls: seq<Call>, r: nat) {
    r < |calls| && calls[r].Revoke? && calls[r].token.tokenId in Run(calls[..r]).nodes
  }

  /** Call `j` issues a token beneath one that call `r` had revoked before. */
  ghost predicate IssuesBeneath(calls: seq<Call>, r: nat, j: nat) {
    && r < j < |calls| && RevokesKnown(calls, r) && IssuedBy(calls, j).Some?
    && Under(Run(calls).nodes, calls[r].token.tokenId, IssuedBy(calls, j).value.tokenId)
  }

  /** Every token that was delegated from claimed the generation all tokens are issued with. */
  predicate PresentsGenerationZero(calls: seq<Call>) {
    forall j | 0 <= j < |calls| && calls[j].Derive? && IssuedBy(calls, j).Some? :: calls[j].parent.generation == 0
  }

  // ----- A run and its prefixes -----

  lemma PrefixExtends(calls: seq<Call>, n: nat)
    requires n <= |calls|
    ensures Forest(Run(calls[..n]).nodes) && Extends(Run(calls[..n]).nodes, Run(calls).nodes)
  {
    assert calls[..n] + calls[n..] == calls;
    TraceExtends(calls[..n], calls[n..]);
  }

  lemma PrefixIssues(calls: seq<Call>, n: nat, i: nat)
    requires i < n <= |calls|
    ensures IssuedBy(calls[..n], i) == IssuedBy(calls, i)
  {
    assert calls[..n][..i] == calls[..i];
  }

  /** A token issued before `n` is known from then on, and so are all its ancestors. */
  lemma KnownWithAncestors(calls: seq<Call>, i: nat, n: nat, a: TokenId)
    requires i < n <= |calls| && IssuedBy(calls, i).Some?
    ensures
      var id, g := IssuedBy(calls, i).value.tokenId, Run(calls[..n]).nodes;
      && id in g && Under(g, a, id) == Under(Run(calls).nodes, a, id)
      && (Under(g, a, id) ==> a in g)
  {
    hide Run, Under;
    var id, g := IssuedBy(calls, i).value.tokenId, Run(calls[..n]).nodes;
    PrefixIssues(calls, n, i);
    GenerationCountsRevocations(calls[..n], i);
    PrefixExtends(calls, n);
    ExtensionKeepsUnder(g, Run(calls).nodes, a, id);
    if Under(g, a, id) {
      TopOfDescent(g, a, id);
    }
  }

  /** The revocations that reached a token by call `n` are among those that reach it in the end. */
  lemma ReachedAmong(calls: seq<Call>, i: nat, n: nat)
    requires i < n <= |calls| && IssuedBy(calls, i).Some?
    ensures
      var id := IssuedBy(calls, i).value.tokenId;
      |RevocationsSince(calls[..n], i, id)| <= |RevocationsSince(calls, i, id)|
  {
    hide Run, RevocationsSince;
    var id := IssuedBy(calls, i).value.tokenId;
    PrefixIssues(calls, n, i);
    assert calls[..n] + calls[n..] == calls;
    RevocationsAccumulate(calls[..n], calls[n..], i);
    Fewer(RevocationsSince(calls[..n], i, id), RevocationsSince(calls, i, id));
  }

  /** A token issued before the revocation of an ancestor has left generation 0 for good. */
  lemma RevokedLeavesZero(calls: seq<Call>, i: nat, r: nat, n: nat)
    requires i < r < n <= |calls| && IssuedBy(calls, i).Some? && RevokesKnown(calls, r) && ShortOfATurn(calls, i)
    requires Under(Run(calls).nodes, calls[r].token.tokenId, IssuedBy(calls, i).value.tokenId)
    ensures
      var id, g := IssuedBy(calls, i).value.tokenId, Run(calls[..n]).nodes;
      id in g && g[id].liveGeneration != 0
  {
    hide Run, Under;
    var id, pre := IssuedBy(calls, i).value.tokenId, calls[..n];
    PrefixIssues(calls, n, i);
    KnownWithAncestors(calls, i, n, calls[r].token.tokenId);
    GenerationCountsRevocations(pre, i);
    assert RevokesAt(pre, r, id);
    assert r in RevocationsSince(pre, i, id);
    ReachedAmong(calls, i, n);
  }

  // ----- Exactly when revocation is final -----

  /** With issued generations presented, no call after a revocation issues anything beneath it. */
  lemma {:induction false} NothingBeneath(calls: seq<Call>, r: nat, j: nat)
    requires NoFullTurn(calls) && PresentsGenerationZero(calls)
    ensures !IssuesBeneath(calls, r, j)
    decreases j
  {
    hide Run, Under, Step, ShortOfATurn;
    if IssuesBeneath(calls, r, j) {
      ParentBeneath(calls, r, j);
      var k := EveryNodeIssued(calls[..j], calls[j].parent.tokenId);
      PrefixIssues(calls, j, k);
      if k > r {
        NothingBeneath(calls, r, k);
      } else if k < r {
        RevokedLeavesZero(calls, k, r, j);
      }
    }
  }

  /** What is issued beneath a revoked token is derived from a live parent that is beneath it too. */
  lemma ParentBeneath(calls: seq<Call>, r: nat, j: nat)
    requires IssuesBeneath(calls, r, j)
    ensures calls[j].Derive?
    ensures
      var p, g := calls[j].parent, Run(calls[..j]).nodes;
      p.tokenId in g && g[p.tokenId].liveGeneration == p.generation
    ensures Under(Run(calls).nodes, calls[r].token.tokenId, calls[j].parent.tokenId)
  {
    var a, t := calls[r].token.tokenId, IssuedBy(calls, j).value;
    CounterIncreases(calls, r, j);
    RunsAreWellFormed(calls[..r]);
    assert a < t.tokenId;
    LineageRecorded(calls, j);
  }

  /** A derivation from a value that claims a later generation is beneath a revoked token. */
  lemma BumpedParentWasRevoked(calls: seq<Call>, j: nat) returns (r: nat)
    requires j < |calls| && calls[j].Derive? && IssuedBy(calls, j).Some? && calls[j].parent.generation != 0
    ensures IssuesBeneath(calls, r, j)
  {
    hide Run, RevocationsSince;
    var p, pre := calls[j].parent, calls[..j];
    var k := EveryNodeIssued(pre, p.tokenId);
    GenerationCountsRevocations(pre, k);
    assert |RevocationsSince(pre, k, p.tokenId)| != 0;
    r := SomeRevocation(pre, k, p.tokenId);
    var a := calls[r].token.tokenId;
    PrefixIssues(calls, j, k);
    KnownWithAncestors(calls, k, j, a);
    KnownWithAncestors(calls, k, r, a);
    ChildBeneath(calls, j, a);
  }

  lemma SomeRevocation(calls: seq<Call>, i: nat, id: TokenId) returns (r: nat)
    requires |RevocationsSince(calls, i, id)| != 0
    ensures i < r < |calls| && RevokesAt(calls, r, id)
  {
    hide Run, Under;
    r :| r in RevocationsSince(calls, i, id);
  }

  lemma ChildBeneath(calls: seq<Call>, j: nat, a: TokenId)
    requires j < |calls| && calls[j].Derive? && IssuedBy(calls, j).Some?
    requires Under(Run(calls).nodes, a, calls[j].parent.tokenId)
    ensures Under(Run(calls).nodes, a, IssuedBy(calls, j).value.tokenId)
  {
    hide Run;
    LineageRecorded(calls, j);
    RunsAreWellFormed(calls);
    assert ParentMirrored(Run(calls).nodes, IssuedBy(calls, j).value.tokenId);
  }

  /**
   * With fewer than 2^64 revocations reaching any one token: nothing is ever issued beneath a revoked token if and
   * only if every derivation that succeeds presents a value claiming generation 0, as all issued tokens do.
   */
  lemma RevocationIsFinalIff(calls: seq<Call>)
    requires NoFullTurn(calls)
    ensures (forall r: nat, j: nat :: !IssuesBeneath(calls, r, j)) <==> PresentsGenerationZero(calls)
  {
    hide IssuesBeneath, NoFullTurn, IssuedBy;
    if PresentsGenerationZero(calls) {
      forall r: nat, j: nat ensures !IssuesBeneath(calls, r, j) {
        NothingBeneath(calls, r, j);
      }
    } else {
      var j :| 0 <= j < |calls| && calls[j].Derive? && IssuedBy(calls, j).Some? && calls[j].parent.generation != 0;
      var r := BumpedParentWasRevoked(calls, j);
    }
  }

  /**
   * In such a run everything beneath a revoked token is dead, whether issued before the revocation or after
   * it: no value claiming generation 0 for a node of its subtree is live at the end.
   */
  lemma RevokedSubtreeIsDead(calls: seq<Call>, r: nat, t: Token, now: Instant)
    requires NoFullTurn(calls) && PresentsGenerationZero(calls) && RevokesKnown(calls, r)
    requires t.generation == 0 && Under(Run(calls).nodes, calls[r].token.tokenId, t.tokenId)
    ensures !IsLive(Run(calls).nodes, t, now)
  {
    hide Run, Under, ShortOfATurn;
    if t.tokenId in Run(calls).nodes {
      var i := EveryNodeIssued(calls, t.tokenId);
      if i > r {
        NothingBeneath(calls, r, i);
      } else if i < r {
        RevokedLeavesZero(calls, i, r, |calls|);
        assert calls[..|calls|] == calls;
      }
    }
  }

  // ----- The way around it -----

  /**
   * For every token ever issued and not yet expired, revoked or not: the value that claims the node's present
   * generation is live, is accepted off the wire unsigned, and yields a live child beneath the token.
   */
  lemma BumpedValueEscapes(calls: seq<Call>, i: nat, rights: RightsMask, now: Instant)
    requires i < |calls| && IssuedBy(calls, i).Some?
    requires !IsExpired(IssuedBy(calls, i).value, now) && Contains(IssuedBy(calls, i).value.rights, rights)
    ensures
      var t := IssuedBy(calls, i).value;
      var bumped := t.(generation := |RevocationsSince(calls, i, t.tokenId)| % U64);
      var derive := Derive(bumped, rights, None, 0, now, now);
      && IsLive(Run(calls).nodes, bumped, now)
      && (FitsWords(t) ==> ReconstructAndCheck(Run(calls).nodes, ToWire(bumped, now), now, now).Ok?)
      && Issue(Run(calls), derive).Some?
      && var child, g := Issue(Run(calls), derive).value, Step(Run(calls), derive).nodes;
         IsLive(g, child, now) && Under(g, t.tokenId, child.tokenId)
  {
    hide Run, RevocationsSince, Contains, Forest;
    var t := IssuedBy(calls, i).value;
    GenerationCountsRevocations(calls, i);
    RunsAreWellFormed(calls);
    var bumped := t.(generation := |RevocationsSince(calls, i, t.tokenId)| % U64);
    DeriveFromLive(Run(calls), bumped, rights, now);
  }

  lemma DeriveFromLive(s: State, t: Token, rights: RightsMask, now: Instant)
    requires WellFormed(s) && IsLive(s.nodes, t, now) && Contains(t.rights, rights)
    ensures
      var derive := Derive(t, rights, None, 0, now, now);
      && Issue(s, derive).Some?
      && var child, g := Issue(s, derive).value, Step(s, derive).nodes;
         IsLive(g, child, now) && Under(g, t.tokenId, child.tokenId)
  {
    hide Contains, Forest;
  }

  /** The shortest such run: mint a root, revoke it, delegate from it at generation 1. */
  lemma RevokedRootDelegates()
    ensures
      var root := Token(1, 0, 1, 0, 0, None);
      var calls := [MintRoot(1, 0, None, 0), Revoke(root), Derive(root.(generation := 1), 1, None, 0, 0, 0)];
      IssuesBeneath(calls, 1, 2)
  {
    var root := Token(1, 0, 1, 0, 0, None);
    var calls := [MintRoot(1, 0, None, 0), Revoke(root), Derive(root.(generation := 1), 1, None, 0, 0, 0)];
    assert calls[..0] == [] && calls[..1] == [calls[0]] && calls[..1][..0] == [];
    assert calls[..2] == [calls[0], calls[1]] && calls[..2][..1] == calls[..1] && calls[..3] == calls;
    var s1 := Step(Initial, calls[0]);
    assert Run(calls[..1]) == s1 && 1 in s1.nodes;
    var s2 := Step(s1, calls[1]);
    assert Run(calls[..2]) == s2;
    assert s2.nodes[1].liveGeneration == 1;
    assert Contains(1, 1);
    assert IssuedBy(calls, 2).Some?;
    var r := BumpedParentWasRevoked(calls, 2);
    assert r == 1;
  }
}
