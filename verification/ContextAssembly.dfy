/**
The ranking and selection of `ContextEngine::assemble` (crates/hyperion-context/src/engine.rs): candidates
in descending score, taken greedily under a token budget and a cap per category.

Scores are real numbers; how a candidate is scored and summarized is an input.
*/
module ContextAssembly {

  /** A scored candidate, with the token estimates of its full metadata and of its summary. */
  datatype Candidate = Candidate(nodeId: nat, category: string, score: real, fullTokens: nat, summaryTokens: nat)

  datatype Budget = Budget(maxTokens: nat, maxPerCategory: nat)

  datatype Inclusion = Full | Summary | Reference

  datatype Entry = Entry(nodeId: nat, category: string, mode: Inclusion, score: real)

  const FullThreshold := 0.5
  const SummaryThreshold := 0.25
  const SmallEntryTokens: nat := 150
  const SummaryCost: nat := 60
  const ReferenceCost: nat := 5

  function Mode(c: Candidate): Inclusion {
    if c.score > FullThreshold && c.fullTokens <= SmallEntryTokens then Full
    else if c.score > SummaryThreshold then Summary
    else Reference
  }

  /** What a candidate is charged. */
  function Cost(c: Candidate): nat {
    match Mode(c)
    case Full => c.fullTokens
    case Summary => if c.summaryTokens < SummaryCost then c.summaryTokens else SummaryCost
    case Reference => ReferenceCost
  }

  /** What its content really takes; that of a reference is a null, of one token. */
  function ContentTokens(c: Candidate): nat {
    match Mode(c)
    case Full => c.fullTokens
    case Summary => c.summaryTokens
    case Reference => 1
  }

  /**
   * In numbers: above a score of 0.5 what takes at most 150 tokens is taken in full, whatever else scores above
   * 0.25 as a summary, charged for at most 60, and the rest as a reference, for 5.
   */
  lemma ChargedAs(c: Candidate)
    ensures Mode(c) == Full <==> c.score > 0.5 && c.fullTokens <= 150
    ensures Mode(c) == Reference <==> c.score <= 0.25
    ensures Mode(c) == Full ==> Cost(c) == c.fullTokens
    ensures Mode(c) == Summary ==> Cost(c) == if c.summaryTokens <= 60 then c.summaryTokens else 60
    ensures Mode(c) == Reference ==> Cost(c) == 5
  {}

  /** A better score never makes a candidate's inclusion poorer. */
  lemma BetterScoreBetterMode(c: Candidate, score: real)
    requires c.score <= score
    ensures Mode(c) == Full ==> Mode(c.(score := score)) == Full
    ensures Mode(c) == Summary ==> Mode(c.(score := score)) != Reference
  {}

  predicate Descending(cs: seq<Candidate>) {
    forall i, j | 0 <= i < j < |cs| :: cs[i].score >= cs[j].score
  }

  // ----- Sorting -----

  method InsertByScore(sorted: seq<Candidate>, c: Candidate) returns (r: seq<Candidate>)
    requires Descending(sorted)
    ensures Descending(r) && multiset(r) == multiset(sorted) + multiset{c}
  {
    hide Descending;
    var k := |sorted|;
    while k > 0 && sorted[k - 1].score < c.score
      invariant 0 <= k <= |sorted|
      invariant k < |sorted| ==> sorted[k].score < c.score
    {
      k := k - 1;
    }
    r := sorted[..k] + [c] + sorted[k..];
    InsertedDescends(sorted, c, k);
    InsertedIsPermutation(sorted, c, k);
  }

  lemma InsertedIsPermutation(sorted: seq<Candidate>, c: Candidate, k: nat)
    requires k <= |sorted|
    ensures multiset(sorted[..k] + [c] + sorted[k..]) == multiset(sorted) + multiset{c}
  {
    hide Descending;
    assert sorted == sorted[..k] + sorted[k..];
    assert multiset(sorted) == multiset(sorted[..k]) + multiset(sorted[k..]);
  }

  lemma InsertedDescends(sorted: seq<Candidate>, c: Candidate, k: nat)
    requires Descending(sorted) && k <= |sorted|
    requires (k > 0 ==> sorted[k - 1].score >= c.score) && (k < |sorted| ==> sorted[k].score <= c.score)
    ensures Descending(sorted[..k] + [c] + sorted[k..])
  {
    var r := sorted[..k] + [c] + sorted[k..];
    assert forall i | 0 <= i < k :: r[i] == sorted[i] && r[i].score >= c.score;
    assert forall i | k < i < |r| :: r[i] == sorted[i - 1] && c.score >= r[i].score;
  }

  method SortByScore(cs: seq<Candidate>) returns (r: seq<Candidate>)
    ensures Descending(r) && multiset(r) == multiset(cs)
  {
    r := [];
    for i := 0 to |cs|
      invariant Descending(r) && multiset(r) == multiset(cs[..i])
    {
      assert cs[..i + 1] == cs[..i] + [cs[i]];
      r := InsertByScore(r, cs[i]);
    }
    assert cs[..|cs|] == cs;
  }

  // ----- Selecting -----

  datatype Progress = Progress(chosen: seq<nat>, used: nat, stopped: bool)

  predicate Indices(cs: seq<Candidate>, chosen: seq<nat>) {
    forall k | 0 <= k < |chosen| :: chosen[k] < |cs|
  }

  /** How many of the chosen are of `category` and score at least `floor`. */
  function CountAbove(cs: seq<Candidate>, chosen: seq<nat>, category: string, floor: real): nat
    requires Indices(cs, chosen)
  {
    if chosen == [] then 0
    else
      var c := cs[chosen[|chosen| - 1]];
      CountAbove(cs, chosen[..|chosen| - 1], category, floor) +
      (if c.category == category && c.score >= floor then 1 else 0)
  }

  function CountIn(cs: seq<Candidate>, chosen: seq<nat>, category: string): nat
    requires Indices(cs, chosen)
  {
    if chosen == [] then 0
    else
      CountIn(cs, chosen[..|chosen| - 1], category) +
      (if cs[chosen[|chosen| - 1]].category == category then 1 else 0)
  }

  /** One more candidate: skip a full category, stop at the first that does not fit. */
  function Extend(cs: seq<Candidate>, b: Budget, p: Progress, i: nat): (r: Progress)
    requires i < |cs| && Indices(cs, p.chosen)
    ensures Indices(cs, r.chosen)
  {
    var c := cs[i];
    if p.stopped || CountIn(cs, p.chosen, c.category) >= b.maxPerCategory then p
    else if p.used + Cost(c) > b.maxTokens then p.(stopped := true)
    else Progress(p.chosen + [i], p.used + Cost(c), false)
  }

  /** The selection after the first `n` candidates. */
  function Select(cs: seq<Candidate>, b: Budget, n: nat): (p: Progress)
    requires n <= |cs|
    ensures Indices(cs, p.chosen)
  {
    if n == 0 then Progress([], 0, false) else Extend(cs, b, Select(cs, b, n - 1), n - 1)
  }

  function CostTotal(cs: seq<Candidate>, chosen: seq<nat>): nat
    requires Indices(cs, chosen)
  {
    if chosen == [] then 0 else CostTotal(cs, chosen[..|chosen| - 1]) + Cost(cs[chosen[|chosen| - 1]])
  }

  function ContentTotal(cs: seq<Candidate>, chosen: seq<nat>): nat
    requires Indices(cs, chosen)
  {
    if chosen == [] then 0 else ContentTotal(cs, chosen[..|chosen| - 1]) + ContentTokens(cs[chosen[|chosen| - 1]])
  }

  function Entries(cs: seq<Candidate>, chosen: seq<nat>): (r: seq<Entry>)
    requires Indices(cs, chosen)
    ensures |r| == |chosen|
    ensures forall k | 0 <= k < |r| ::
      var c := cs[chosen[k]];
      r[k] == Entry(c.nodeId, c.category, Mode(c), c.score)
  {
    seq(|chosen|, k requires 0 <= k < |chosen| =>
      var c := cs[chosen[k]];
      Entry(c.nodeId, c.category, Mode(c), c.score))
  }

  /** Each entry is one chosen candidate, in order, included as its score and size decide. */
  lemma EntryMeans(cs: seq<Candidate>, b: Budget, k: nat)
    requires k < |Entries(cs, Select(cs, b, |cs|).chosen)|
    ensures
      var chosen := Select(cs, b, |cs|).chosen;
      var e, c := Entries(cs, chosen)[k], cs[chosen[k]];
      && e.nodeId == c.nodeId && e.category == c.category && e.score == c.score
      && (e.mode == Full <==> c.score > 0.5 && c.fullTokens <= 150)
      && (e.mode == Reference <==> c.score <= 0.25)
  {
    hide Select;
    ChargedAs(cs[Select(cs, b, |cs|).chosen[k]]);
  }

  /** The candidates, best first; ties in any order. */
  ghost predicate Ranks(ranked: seq<Candidate>, candidates: seq<Candidate>) {
    Descending(ranked) && multiset(ranked) == multiset(candidates)
  }

  /** The entries and the total are those of the selection from `ranked`. */
  ghost predicate SelectedFrom(ranked: seq<Candidate>, b: Budget, entries: seq<Entry>, tokensUsed: nat) {
    var p := Select(ranked, b, |ranked|);
    entries == Entries(ranked, p.chosen) && tokensUsed == p.used
  }

  /** The loop of `assemble`, with its running total, its category counters and its early exit. */
  method Assemble(candidates: seq<Candidate>, b: Budget) returns (entries: seq<Entry>, tokensUsed: nat)
    ensures exists ranked :: Ranks(ranked, candidates) && SelectedFrom(ranked, b, entries, tokensUsed)
  {
    hide Cost, Mode, CountIn, Select;
    var cs := SortByScore(candidates);
    entries, tokensUsed := [], 0;
    var counts: map<string, nat> := map[];
    ghost var p := Progress([], 0, false);
    NothingChosen(cs, b);
    for i := 0 to |cs|
      invariant Indices(cs, p.chosen) && Select(cs, b, i) == p && p.used == tokensUsed && !p.stopped
      invariant entries == Entries(cs, p.chosen)
      invariant forall cat :: CountIn(cs, p.chosen, cat) == if cat in counts then counts[cat] else 0
    {
      SelectNext(cs, b, i);
      var c := cs[i];
      var count := if c.category in counts then counts[c.category] else 0;
      if count >= b.maxPerCategory {
        continue;
      }
      var cost := Cost(c);
      if tokensUsed + cost > b.maxTokens {
        StaysStopped(cs, b, i + 1, |cs|);
        break;
      }
      CountsOneMore(cs, p.chosen, i);
      p := Progress(p.chosen + [i], p.used + cost, false);
      counts := counts[c.category := count + 1];
      tokensUsed := tokensUsed + cost;
      entries := entries + [Entry(c.nodeId, c.category, Mode(c), c.score)];
    }
    assert Ranks(cs, candidates) && SelectedFrom(cs, b, entries, tokensUsed);
  }

  lemma SelectNext(cs: seq<Candidate>, b: Budget, i: nat)
    requires i < |cs|
    ensures Select(cs, b, i + 1) == Extend(cs, b, Select(cs, b, i), i)
  {}

  lemma NothingChosen(cs: seq<Candidate>, b: Budget)
    ensures Select(cs, b, 0) == Progress([], 0, false)
    ensures forall cat :: CountIn(cs, [], cat) == 0
  {}

  lemma CountsOneMore(cs: seq<Candidate>, chosen: seq<nat>, i: nat)
    requires Indices(cs, chosen) && i < |cs|
    ensures Indices(cs, chosen + [i])
    ensures forall cat ::
      CountIn(cs, chosen + [i], cat) == CountIn(cs, chosen, cat) + if cs[i].category == cat then 1 else 0
  {
    assert (chosen + [i])[..|chosen|] == chosen;
  }

  lemma {:induction false} StaysStopped(cs: seq<Candidate>, b: Budget, m: nat, n: nat)
    requires m <= n <= |cs| && Select(cs, b, m).stopped
    ensures Select(cs, b, n) == Select(cs, b, m)
    decreases n
  {
    hide Cost, CountIn;
    if m < n {
      StaysStopped(cs, b, m, n - 1);
    }
  }

  // ----- What the selection guarantees -----

  lemma TotalsOneMore(cs: seq<Candidate>, chosen: seq<nat>, i: nat)
    requires Indices(cs, chosen) && i < |cs|
    ensures CostTotal(cs, chosen + [i]) == CostTotal(cs, chosen) + Cost(cs[i])
    ensures ContentTotal(cs, chosen + [i]) == ContentTotal(cs, chosen) + ContentTokens(cs[i])
  {
    assert (chosen + [i])[..|chosen|] == chosen;
  }

  lemma AboveOneMore(cs: seq<Candidate>, chosen: seq<nat>, i: nat, category: string, floor: real)
    requires Indices(cs, chosen) && i < |cs|
    ensures CountAbove(cs, chosen + [i], category, floor)
         == CountAbove(cs, chosen, category, floor) +
            (if cs[i].category == category && cs[i].score >= floor then 1 else 0)
  {
    assert (chosen + [i])[..|chosen|] == chosen;
  }

  predicate IncreasingBelow(chosen: seq<nat>, n: nat) {
    && (forall k | 0 <= k < |chosen| :: chosen[k] < n)
    && (forall k, l | 0 <= k < l < |chosen| :: chosen[k] < chosen[l])
  }

  /** The chosen indices increase, the charges add up within the budget, and no category exceeds its cap. */
  lemma {:induction false} WithinBudget(cs: seq<Candidate>, b: Budget, n: nat)
    requires n <= |cs|
    ensures
      var p := Select(cs, b, n);
      && IncreasingBelow(p.chosen, n)
      && p.used == CostTotal(cs, p.chosen) <= b.maxTokens
      && (forall cat :: CountIn(cs, p.chosen, cat) <= b.maxPerCategory)
  {
    hide Cost, CountIn, CostTotal, Select;
    NothingChosen(cs, b);
    if n == 0 {
      assert CostTotal(cs, []) == 0 by { CostOfNothing(cs); }
    } else {
      var p := Select(cs, b, n - 1);
      WithinBudget(cs, b, n - 1);
      SelectNext(cs, b, n - 1);
      CountsOneMore(cs, p.chosen, n - 1);
      TotalsOneMore(cs, p.chosen, n - 1);
    }
  }

  lemma CostOfNothing(cs: seq<Candidate>)
    ensures CostTotal(cs, []) == 0 && ContentTotal(cs, []) == 0
  {}

  /** Entries come out in non-increasing score. */
  lemma ScoresDescend(cs: seq<Candidate>, b: Budget, k: nat, l: nat)
    requires Descending(cs) && k < l < |Select(cs, b, |cs|).chosen|
    ensures
      var chosen := Select(cs, b, |cs|).chosen;
      cs[chosen[k]].score >= cs[chosen[l]].score
  {
    hide Select;
    WithinBudget(cs, b, |cs|);
  }

  lemma {:induction false} AllAbove(cs: seq<Candidate>, chosen: seq<nat>, category: string, floor: real)
    requires Indices(cs, chosen) && forall k | 0 <= k < |chosen| :: cs[chosen[k]].score >= floor
    ensures CountAbove(cs, chosen, category, floor) == CountIn(cs, chosen, category)
  {
    if chosen != [] {
      AllAbove(cs, chosen[..|chosen| - 1], category, floor);
    }
  }

  lemma {:induction false} AboveIsIn(cs: seq<Candidate>, chosen: seq<nat>, category: string, floor: real)
    requires Indices(cs, chosen)
    ensures CountAbove(cs, chosen, category, floor) <= CountIn(cs, chosen, category)
  {
    if chosen != [] {
      AboveIsIn(cs, chosen[..|chosen| - 1], category, floor);
    }
  }

  /** The selection only grows, and a stop is final. */
  lemma {:induction false} SelectionGrows(cs: seq<Candidate>, b: Budget, m: nat, n: nat, category: string, floor: real)
    requires m <= n <= |cs|
    ensures
      var p, q := Select(cs, b, m), Select(cs, b, n);
      && p.chosen <= q.chosen && (p.stopped ==> q == p)
      && CountAbove(cs, p.chosen, category, floor) <= CountAbove(cs, q.chosen, category, floor)
      && CountIn(cs, p.chosen, category) <= CountIn(cs, q.chosen, category)
      && ContentTotal(cs, p.chosen) <= ContentTotal(cs, q.chosen)
    decreases n
  {
    hide Cost, CountIn, CountAbove, Select, ContentTotal, CostTotal;
    if m < n {
      var p := Select(cs, b, n - 1);
      SelectionGrows(cs, b, m, n - 1, category, floor);
      SelectNext(cs, b, n - 1);
      CountsOneMore(cs, p.chosen, n - 1);
      AboveOneMore(cs, p.chosen, n - 1, category, floor);
      TotalsOneMore(cs, p.chosen, n - 1);
    }
  }

  lemma LastIsIn(p: seq<nat>, i: nat, q: seq<nat>)
    ensures p + [i] <= q ==> i in q
  {
    if p + [i] <= q {
      assert q[|p|] == i;
    }
  }

  /** A candidate passed over without stopping was passed over because its category was full. */
  lemma PassedOver(cs: seq<Candidate>, b: Budget, i: nat)
    requires i < |cs| && i !in Select(cs, b, |cs|).chosen && !Select(cs, b, i + 1).stopped
    ensures CountIn(cs, Select(cs, b, i).chosen, cs[i].category) >= b.maxPerCategory
  {
    hide Cost, CountIn, Select;
    SelectNext(cs, b, i);
    SelectionGrows(cs, b, i + 1, |cs|, [], 0.0);
    LastIsIn(Select(cs, b, i).chosen, i, Select(cs, b, |cs|).chosen);
  }

  /** A candidate chosen later shows that the selection had not stopped before. */
  lemma LaterMeansRunning(cs: seq<Candidate>, b: Budget, m: nat, j: nat)
    requires m <= j < |cs| && j in Select(cs, b, |cs|).chosen
    ensures !Select(cs, b, m).stopped
  {
    hide Select;
    SelectionGrows(cs, b, m, |cs|, [], 0.0);
    WithinBudget(cs, b, m);
  }

  /**
   * No priority inversion: a candidate left out although it scores strictly above a selected one belongs
   * to a category already full of selected entries scoring at least as high.
   */
  lemma NoPriorityInversion(cs: seq<Candidate>, b: Budget, i: nat, j: nat)
    requires Descending(cs) && i < |cs| && j < |cs|
    requires i !in Select(cs, b, |cs|).chosen && j in Select(cs, b, |cs|).chosen
    requires cs[i].score > cs[j].score
    ensures CountAbove(cs, Select(cs, b, |cs|).chosen, cs[i].category, cs[i].score) == b.maxPerCategory
  {
    hide Cost, CountIn, CountAbove, Select;
    var cat, floor := cs[i].category, cs[i].score;
    LaterMeansRunning(cs, b, i + 1, j);
    PassedOver(cs, b, i);
    WithinBudget(cs, b, i);
    AllAbove(cs, Select(cs, b, i).chosen, cat, floor);
    SelectionGrows(cs, b, i, |cs|, cat, floor);
    AboveIsIn(cs, Select(cs, b, |cs|).chosen, cat, floor);
    WithinBudget(cs, b, |cs|);
  }

  lemma {:induction false} StoppedMeans(cs: seq<Candidate>, b: Budget, n: nat) returns (s: nat)
    requires n <= |cs| && Select(cs, b, n).stopped
    ensures s < n && Select(cs, b, n).used + Cost(cs[s]) > b.maxTokens
    ensures IncreasingBelow(Select(cs, b, n).chosen, s)
  {
    hide Cost, CountIn, Select;
    NothingChosen(cs, b);
    SelectNext(cs, b, n - 1);
    if Select(cs, b, n - 1).stopped {
      s := StoppedMeans(cs, b, n - 1);
    } else {
      s := n - 1;
      WithinBudget(cs, b, n - 1);
    }
  }

  /**
   * Nothing else is left out: if a candidate's category still has room, the selection stopped, at that
   * candidate or one ranked before it, because that one did not fit.
   */
  lemma LeftOutForRoom(cs: seq<Candidate>, b: Budget, i: nat) returns (s: nat)
    requires i < |cs| && i !in Select(cs, b, |cs|).chosen
    requires CountIn(cs, Select(cs, b, |cs|).chosen, cs[i].category) < b.maxPerCategory
    ensures s <= i && Select(cs, b, |cs|).used + Cost(cs[s]) > b.maxTokens
    ensures IncreasingBelow(Select(cs, b, |cs|).chosen, s)
  {
    hide Cost, CountIn, Select;
    SelectionGrows(cs, b, i, |cs|, cs[i].category, 0.0);
    if !Select(cs, b, i + 1).stopped {
      PassedOver(cs, b, i);
    }
    SelectionGrows(cs, b, i + 1, |cs|, cs[i].category, 0.0);
    s := StoppedMeans(cs, b, i + 1);
  }

  // ----- How hard the bound is -----

  /** A summary longer than the 60 tokens it is charged. */
  predicate Undercharged(c: Candidate) {
    Mode(c) == Summary && c.summaryTokens > SummaryCost
  }

  lemma {:induction false} ContentWithinCost(cs: seq<Candidate>, chosen: seq<nat>)
    requires Indices(cs, chosen) && forall i | 0 <= i < |cs| :: !Undercharged(cs[i])
    ensures ContentTotal(cs, chosen) <= CostTotal(cs, chosen)
  {
    if chosen != [] {
      ContentWithinCost(cs, chosen[..|chosen| - 1]);
    }
  }

  function PrefixCost(cs: seq<Candidate>, n: nat): nat
    requires n <= |cs|
  {
    if n == 0 then 0 else PrefixCost(cs, n - 1) + Cost(cs[n - 1])
  }

  lemma {:induction false} PrefixCostGrows(cs: seq<Candidate>, m: nat, n: nat)
    requires m <= n <= |cs|
    ensures PrefixCost(cs, m) <= PrefixCost(cs, n)
    decreases n
  {
    if m < n {
      PrefixCostGrows(cs, m, n - 1);
    }
  }

  lemma {:induction false} CountBounded(cs: seq<Candidate>, chosen: seq<nat>, category: string)
    requires Indices(cs, chosen)
    ensures CountIn(cs, chosen, category) <= |chosen|
  {
    if chosen != [] {
      CountBounded(cs, chosen[..|chosen| - 1], category);
    }
  }

  /** With a budget of exactly the first `m` charges, the first `m` candidates are all taken. */
  lemma {:induction false} TakesPrefix(cs: seq<Candidate>, m: nat, n: nat)
    requires n <= m <= |cs| && Descending(cs) && (m > 0 ==> cs[m - 1].score > SummaryThreshold)
    ensures
      var p := Select(cs, Budget(PrefixCost(cs, m), |cs|), n);
      && !p.stopped && |p.chosen| == n && p.used == PrefixCost(cs, n)
      && ContentTotal(cs, p.chosen) >= PrefixCost(cs, n)
      && (n > 0 && Undercharged(cs[n - 1]) ==> ContentTotal(cs, p.chosen) > PrefixCost(cs, n))
  {
    hide Select, CountIn, ContentTotal, CostTotal;
    var b := Budget(PrefixCost(cs, m), |cs|);
    NothingChosen(cs, b);
    CostOfNothing(cs);
    if n > 0 {
      TakesPrefix(cs, m, n - 1);
      PrefixCostGrows(cs, n, m);
      var p := Select(cs, b, n - 1);
      CountBounded(cs, p.chosen, cs[n - 1].category);
      SelectNext(cs, b, n - 1);
      TotalsOneMore(cs, p.chosen, n - 1);
      assert cs[n - 1].score > SummaryThreshold;
    }
  }

  /** Under every budget, the selected content really fits. */
  ghost predicate BoundIsHard(cs: seq<Candidate>) {
    forall b: Budget :: ContentTotal(cs, Select(cs, b, |cs|).chosen) <= b.maxTokens
  }

  /** The charged total never exceeds the budget, but the content does unless no summary is undercharged. */
  lemma BoundIsHardIff(cs: seq<Candidate>)
    requires Descending(cs)
    ensures BoundIsHard(cs) <==> forall i | 0 <= i < |cs| :: !Undercharged(cs[i])
  {
    hide Cost, ContentTokens, Select, CountIn, CountAbove, ContentTotal, CostTotal;
    if forall i | 0 <= i < |cs| :: !Undercharged(cs[i]) {
      forall b: Budget ensures ContentTotal(cs, Select(cs, b, |cs|).chosen) <= b.maxTokens {
        WithinBudget(cs, b, |cs|);
        ContentWithinCost(cs, Select(cs, b, |cs|).chosen);
      }
    } else {
      var i :| 0 <= i < |cs| && Undercharged(cs[i]);
      var b := Budget(PrefixCost(cs, i + 1), |cs|);
      TakesPrefix(cs, i + 1, i + 1);
      SelectionGrows(cs, b, i + 1, |cs|, [], 0.0);
      assert ContentTotal(cs, Select(cs, b, |cs|).chosen) > b.maxTokens;
    }
  }
}
