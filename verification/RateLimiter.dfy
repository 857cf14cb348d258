/**
The API gateway's fixed-window rate limiter (crates/hyperion-api-gateway/src/gateway.rs): a window opens
lazily at the first call after the last one ran out, and admits a fixed number of calls.
*/
module RateLimiter {
  import opened Common

  type TokenId = nat
  type Seconds = nat

  datatype Policy = Policy(callsPerWindow: nat, windowSecs: Seconds)

  const DefaultPolicy := Policy(60, 60)

  datatype Limit = Limit(policy: Policy, windowStart: Seconds, calls: nat)

  function Elapsed(since: Seconds, now: Seconds): Seconds {
    if now >= since then now - since else 0
  }

  /** The window a call at `now` falls in. */
  function Rolled(l: Limit, now: Seconds): Limit {
    if Elapsed(l.windowStart, now) >= l.policy.windowSecs then l.(windowStart := now, calls := 0) else l
  }

  predicate Admits(l: Limit, now: Seconds) {
    Rolled(l, now).calls < l.policy.callsPerWindow
  }

  function Next(l: Limit, now: Seconds): Limit {
    var r := Rolled(l, now);
    if Admits(l, now) then r.(calls := r.calls + 1) else r
  }

  class ApiGateway {
    var rateLimits: map<TokenId, Limit>

    constructor ()
      ensures rateLimits == map[]
    {
      rateLimits := map[];
    }

    /** The state a token's next call meets: its own, or a fresh default window. */
    ghost function LimitOf(token: TokenId, now: Seconds): Limit
      reads this
    {
      if token in rateLimits then rateLimits[token] else Limit(DefaultPolicy, now, 0)
    }

    method CheckRateLimit(token: TokenId, now: Seconds) returns (admitted: bool)
      modifies this
      ensures admitted == Admits(old(LimitOf(token, now)), now)
      ensures rateLimits == old(rateLimits)[token := Next(old(LimitOf(token, now)), now)]
      ensures token !in old(rateLimits) ==> admitted && rateLimits[token] == Limit(Policy(60, 60), now, 1)
    {
      var l := if token in rateLimits then rateLimits[token] else Limit(DefaultPolicy, now, 0);
      if (if now >= l.windowStart then now - l.windowStart else 0) >= l.policy.windowSecs {
        l := l.(windowStart := now, calls := 0);
      }
      admitted := l.calls < l.policy.callsPerWindow;
      if admitted {
        l := l.(calls := l.calls + 1);
      }
      rateLimits := rateLimits[token := l];
    }

    method SetRateLimit(token: TokenId, live: bool, policy: Policy, now: Seconds) returns (ok: bool)
      modifies this
      ensures ok == live
      ensures rateLimits == if live then old(rateLimits)[token := Limit(policy, now, 0)] else old(rateLimits)
    {
      ok := live;
      if live {
        rateLimits := rateLimits[token := Limit(policy, now, 0)];
      }
    }
  }

  // ----- Runs of one token under one policy -----

  function Run(l: Limit, times: seq<Seconds>): Limit {
    if times == [] then l else Next(Run(l, times[..|times| - 1]), times[|times| - 1])
  }

  predicate AdmittedAt(l: Limit, times: seq<Seconds>, i: nat)
    requires i < |times|
  {
    Admits(Run(l, times[..i]), times[i])
  }

  /** The start of the window call `i` fell in. */
  function WindowOf(l: Limit, times: seq<Seconds>, i: nat): Seconds
    requires i < |times|
  {
    Rolled(Run(l, times[..i]), times[i]).windowStart
  }

  /** A limit as installed or first used at `l.windowStart`, and calls at times that never decrease. */
  predicate Orderly(l: Limit, times: seq<Seconds>) {
    && l.calls == 0 && l.policy.windowSecs > 0
    && (forall i | 0 <= i < |times| :: l.windowStart <= times[i])
    && (forall i, j | 0 <= i < j < |times| :: times[i] <= times[j])
  }

  ghost function InWindow(l: Limit, times: seq<Seconds>, w: Seconds): set<nat> {
    set i: nat | i < |times| && AdmittedAt(l, times, i) && WindowOf(l, times, i) == w
  }

  ghost function InInterval(l: Limit, times: seq<Seconds>, t: Seconds, length: Seconds): set<nat> {
    set i: nat | i < |times| && AdmittedAt(l, times, i) && t <= times[i] < t + length
  }

  lemma PrefixAgrees(l: Limit, times: seq<Seconds>, i: nat, n: nat)
    requires i < n <= |times|
    ensures AdmittedAt(l, times[..n], i) == AdmittedAt(l, times, i)
    ensures WindowOf(l, times[..n], i) == WindowOf(l, times, i)
  {
    assert times[..n][..i] == times[..i];
  }

  lemma {:induction false} RunKeepsPolicy(l: Limit, times: seq<Seconds>)
    ensures Run(l, times).policy == l.policy
  {
    if times != [] {
      RunKeepsPolicy(l, times[..|times| - 1]);
    }
  }

  /** The current window opened no later than the last call, and a new one opens a full length later. */
  lemma {:induction false} WindowNow(l: Limit, times: seq<Seconds>)
    requires Orderly(l, times)
    ensures times != [] ==>
      && Run(l, times).windowStart == WindowOf(l, times, |times| - 1)
      && Run(l, times).windowStart <= times[|times| - 1] < Run(l, times).windowStart + l.policy.windowSecs
    ensures times == [] ==> Run(l, times).windowStart == l.windowStart
    ensures Run(l, times).windowStart >= l.windowStart
  {
    if times != [] {
      var shorter := times[..|times| - 1];
      WindowNow(l, shorter);
      RunKeepsPolicy(l, shorter);
    }
  }

  /** Two calls share a window, or the later one's window starts at least a full length after the earlier one's. */
  lemma {:induction false} WindowsApart(l: Limit, times: seq<Seconds>, i: nat, j: nat)
    requires Orderly(l, times) && i < j < |times|
    ensures
      || WindowOf(l, times, j) == WindowOf(l, times, i)
      || WindowOf(l, times, j) >= WindowOf(l, times, i) + l.policy.windowSecs
    decreases j
  {
    hide Rolled, Next;
    if i < j - 1 {
      WindowsApart(l, times, i, j - 1);
    }
    OneCallOn(l, times, j);
  }

  lemma OneCallOn(l: Limit, times: seq<Seconds>, j: nat)
    requires Orderly(l, times) && 0 < j < |times|
    ensures
      var w := WindowOf(l, times, j - 1);
      WindowOf(l, times, j) == w || WindowOf(l, times, j) >= w + l.policy.windowSecs
  {
    var before := times[..j];
    assert Orderly(l, before);
    WindowNow(l, before);
    RunKeepsPolicy(l, before);
    PrefixAgrees(l, times, j - 1, j);
  }

  lemma CallInItsWindow(l: Limit, times: seq<Seconds>, i: nat)
    requires Orderly(l, times) && i < |times|
    ensures WindowOf(l, times, i) <= times[i] < WindowOf(l, times, i) + l.policy.windowSecs
  {
    var upTo := times[..i + 1];
    assert Orderly(l, upTo) && upTo[i] == times[i];
    WindowNow(l, upTo);
    PrefixAgrees(l, times, i, i + 1);
  }

  /** The counter is the number of calls admitted in the current window. */
  lemma {:induction false} CounterCounts(l: Limit, times: seq<Seconds>)
    requires Orderly(l, times)
    ensures Run(l, times).calls == |InWindow(l, times, Run(l, times).windowStart)|
    ensures Run(l, times).calls <= l.policy.callsPerWindow
  {
    RunKeepsPolicy(l, times);
    if times == [] {
      assert InWindow(l, times, l.windowStart) == {};
    } else {
      var last := |times| - 1;
      var shorter := times[..last];
      assert Orderly(l, shorter);
      CounterCounts(l, shorter);
      RunKeepsPolicy(l, shorter);
      var w, w' := Run(l, shorter).windowStart, Run(l, times).windowStart;
      WindowNow(l, times);
      GrowsByLast(l, times, w');
      if w' != w {
        NewWindowIsEmpty(l, times);
      }
    }
  }

  lemma GrowsByLast(l: Limit, times: seq<Seconds>, w: Seconds)
    requires times != []
    ensures
      var last := |times| - 1;
      var before := InWindow(l, times[..last], w);
      && last !in before
      && InWindow(l, times, w) ==
           before + (if AdmittedAt(l, times, last) && WindowOf(l, times, last) == w then {last} else {})
  {
    hide Rolled, Run;
    var last := |times| - 1;
    forall i: nat | i < last
      ensures AdmittedAt(l, times[..last], i) == AdmittedAt(l, times, i)
      ensures WindowOf(l, times[..last], i) == WindowOf(l, times, i)
    {
      PrefixAgrees(l, times, i, last);
    }
  }

  /** A window that has just opened holds no earlier call. */
  lemma NewWindowIsEmpty(l: Limit, times: seq<Seconds>)
    requires Orderly(l, times) && times != []
    requires Run(l, times).windowStart != Run(l, times[..|times| - 1]).windowStart
    ensures InWindow(l, times[..|times| - 1], Run(l, times).windowStart) == {}
  {
    var last := |times| - 1;
    var shorter, w := times[..last], Run(l, times).windowStart;
    assert Orderly(l, shorter);
    WindowNow(l, times);
    WindowNow(l, shorter);
    forall i: nat | i < last ensures WindowOf(l, shorter, i) != w {
      PrefixAgrees(l, times, i, last);
      CallInItsWindow(l, times, i);
      if i < last - 1 { WindowsApart(l, times, i, last - 1); }
      PrefixAgrees(l, times, last - 1, last);
    }
  }

  /** No window ever admits more calls than the policy allows. */
  lemma {:induction false} WindowBound(l: Limit, times: seq<Seconds>, w: Seconds)
    requires Orderly(l, times)
    ensures |InWindow(l, times, w)| <= l.policy.callsPerWindow
  {
    if times == [] {
      assert InWindow(l, times, w) == {};
    } else {
      var last := |times| - 1;
      assert Orderly(l, times[..last]);
      GrowsByLast(l, times, w);
      WindowNow(l, times);
      if WindowOf(l, times, last) == w {
        CounterCounts(l, times);
      } else {
        WindowBound(l, times[..last], w);
      }
    }
  }

  /** Three windows cannot meet one interval of a window's length. */
  lemma TwoWindowsAtMost(l: Limit, times: seq<Seconds>, t: Seconds, i: nat, j: nat)
    requires Orderly(l, times)
    requires i in InInterval(l, times, t, l.policy.windowSecs) && j in InInterval(l, times, t, l.policy.windowSecs)
    requires i < j && WindowOf(l, times, i) != WindowOf(l, times, j)
    ensures forall k | k in InInterval(l, times, t, l.policy.windowSecs) ::
      WindowOf(l, times, k) == WindowOf(l, times, i) || WindowOf(l, times, k) == WindowOf(l, times, j)
  {
    hide Rolled, Run;
    var calls := InInterval(l, times, t, l.policy.windowSecs);
    WindowsApart(l, times, i, j);
    CallInItsWindow(l, times, i);
    CallInItsWindow(l, times, j);
    forall k | k in calls
      ensures WindowOf(l, times, k) == WindowOf(l, times, i) || WindowOf(l, times, k) == WindowOf(l, times, j)
    {
      CallInItsWindow(l, times, k);
      if k < i { WindowsApart(l, times, k, i); WindowsApart(l, times, k, j); }
      else if i < k < j { WindowsApart(l, times, i, k); WindowsApart(l, times, k, j); }
      else if j < k { WindowsApart(l, times, j, k); }
    }
  }

  /** Any half-open interval as long as a window holds at most twice the policy's calls. */
  lemma IntervalBound(l: Limit, times: seq<Seconds>, t: Seconds)
    requires Orderly(l, times)
    ensures |InInterval(l, times, t, l.policy.windowSecs)| <= 2 * l.policy.callsPerWindow
  {
    hide Rolled, Run, AdmittedAt, WindowOf;
    var calls := InInterval(l, times, t, l.policy.windowSecs);
    if i :| i in calls {
      var v := WindowOf(l, times, i);
      var w := v;
      if j :| j in calls && WindowOf(l, times, j) != v {
        w := WindowOf(l, times, j);
        if i < j { TwoWindowsAtMost(l, times, t, i, j); } else { TwoWindowsAtMost(l, times, t, j, i); }
      }
      var a, b := InWindow(l, times, v), InWindow(l, times, w);
      assert calls <= a + b;
      Within(calls, a, b);
      WindowBound(l, times, v);
      WindowBound(l, times, w);
    }
  }

  lemma Within(s: set<nat>, a: set<nat>, b: set<nat>)
    requires s <= a + b
    ensures |s| <= |a| + |b|
  {
    Fewer(s, a + b);
    Fewer(b - a, b);
    assert a + b == a + (b - a);
    assert |a + (b - a)| == |a| + |b - a|;
  }

  /** While the window a limit starts with lasts, exactly the first calls up to the quota are admitted. */
  lemma {:induction false} FirstWindow(l: Limit, times: seq<Seconds>, i: nat)
    requires Orderly(l, times) && i < |times|
    requires forall j | 0 <= j <= i :: times[j] < l.windowStart + l.policy.windowSecs
    ensures AdmittedAt(l, times, i) <==> i < l.policy.callsPerWindow
  {
    FirstWindowState(l, times, i);
  }

  lemma {:induction false} FirstWindowState(l: Limit, times: seq<Seconds>, i: nat)
    requires Orderly(l, times) && i <= |times|
    requires forall j | 0 <= j < i :: times[j] < l.windowStart + l.policy.windowSecs
    ensures Run(l, times[..i]) == l.(calls := if i <= l.policy.callsPerWindow then i else l.policy.callsPerWindow)
  {
    if i > 0 {
      FirstWindowState(l, times, i - 1);
      assert times[..i][..i - 1] == times[..i - 1];
    }
  }

  /** A token never given a policy: within a minute of its first call, exactly its first 60 calls are admitted. */
  lemma DefaultIsSixtyAMinute(first: Seconds, times: seq<Seconds>, i: nat)
    requires Orderly(Limit(DefaultPolicy, first, 0), times) && i < |times|
    requires forall j | 0 <= j <= i :: times[j] < first + 60
    ensures AdmittedAt(Limit(DefaultPolicy, first, 0), times, i) <==> i < 60
  {
    FirstWindow(Limit(DefaultPolicy, first, 0), times, i);
  }

  // ----- How sharp the bound is -----

  lemma OpensHere(l: Limit, times: seq<Seconds>, i: nat)
    requires Orderly(l, times) && i < |times| && times[0] == l.windowStart && l.policy.callsPerWindow > 0
    requires i == 0 || WindowOf(l, times, i) != WindowOf(l, times, i - 1)
    ensures AdmittedAt(l, times, i) && WindowOf(l, times, i) == times[i]
  {
    var before := times[..i];
    assert Orderly(l, before);
    RunKeepsPolicy(l, before);
    WindowNow(l, before);
    if i > 0 {
      PrefixAgrees(l, times, i - 1, i);
    }
  }

  /** A window opened by a call, and not by installing a policy, counts that call among its own. */
  lemma {:induction false} OpeningCall(l: Limit, times: seq<Seconds>, i: nat) returns (f: nat)
    requires Orderly(l, times) && i < |times| && times[0] == l.windowStart && l.policy.callsPerWindow > 0
    ensures f <= i && AdmittedAt(l, times, f) && WindowOf(l, times, f) == WindowOf(l, times, i) == times[f]
    decreases i
  {
    hide Rolled, Run;
    if i > 0 && WindowOf(l, times, i) == WindowOf(l, times, i - 1) {
      f := OpeningCall(l, times, i - 1);
    } else {
      f := i;
      OpensHere(l, times, i);
    }
  }

  /** Under windows that only calls open, as for a token never given a policy of its own, one call less fits. */
  lemma IntervalBoundOnFirstUse(l: Limit, times: seq<Seconds>, t: Seconds)
    requires Orderly(l, times) && times != [] && times[0] == l.windowStart && l.policy.callsPerWindow > 0
    ensures |InInterval(l, times, t, l.policy.windowSecs)| <= 2 * l.policy.callsPerWindow - 1
  {
    hide Rolled, Run;
    var calls := InInterval(l, times, t, l.policy.windowSecs);
    if i, j :| i in calls && j in calls && i < j && WindowOf(l, times, i) != WindowOf(l, times, j) {
      TwoWindowsAtMost(l, times, t, i, j);
      var v, w := WindowOf(l, times, i), WindowOf(l, times, j);
      var f := OpeningCall(l, times, i);
      WindowsApart(l, times, i, j);
      CallInItsWindow(l, times, j);
      var a, b := InWindow(l, times, v), InWindow(l, times, w);
      assert f in a && f !in calls;
      assert calls <= (a - {f}) + b;
      Within(calls, a - {f}, b);
      WindowBound(l, times, v);
      WindowBound(l, times, w);
    } else if i :| i in calls {
      var a := InWindow(l, times, WindowOf(l, times, i));
      forall j | j in calls ensures j in a {
        if i < j {
          assert WindowOf(l, times, i) == WindowOf(l, times, j);
        } else if j < i {
          assert WindowOf(l, times, j) == WindowOf(l, times, i);
        }
      }
      Fewer(calls, a);
      WindowBound(l, times, WindowOf(l, times, i));
    }
  }

  /** A full quota at the end of one window and another at the start of the next. */
  function Burst(n: nat, w: Seconds): seq<Seconds>
    requires w >= 2
  {
    seq(2 * n, i => if i < n then w - 1 else w)
  }

  lemma {:induction false} BurstState(n: nat, w: Seconds, k: nat)
    requires w >= 2 && k <= 2 * n
    ensures Run(Limit(Policy(n, w), 0, 0), Burst(n, w)[..k]) ==
      if k <= n then Limit(Policy(n, w), 0, k) else Limit(Policy(n, w), w, k - n)
  {
    if k > 0 {
      BurstState(n, w, k - 1);
      assert Burst(n, w)[..k][..k - 1] == Burst(n, w)[..k - 1];
    }
  }

  lemma BurstAdmitted(n: nat, w: Seconds, i: nat)
    requires w >= 2 && i < 2 * n
    ensures AdmittedAt(Limit(Policy(n, w), 0, 0), Burst(n, w), i)
  {
    BurstState(n, w, i);
  }

  /** The factor of two is reached, for every quota and every window of two seconds or more. */
  lemma IntervalBoundIsTight(n: nat, w: Seconds)
    requires w >= 2
    ensures
      var l := Limit(Policy(n, w), 0, 0);
      Orderly(l, Burst(n, w)) && |InInterval(l, Burst(n, w), w - 1, w)| == 2 * n
  {
    hide AdmittedAt, Run;
    var l, times := Limit(Policy(n, w), 0, 0), Burst(n, w);
    forall i: nat | i < 2 * n ensures AdmittedAt(l, times, i) {
      BurstAdmitted(n, w, i);
    }
    assert InInterval(l, times, w - 1, w) == FirstN(2 * n);
  }

  /** One call opens the first window, the rest of its quota comes at its end, and a full quota a second later. */
  function OpenedBurst(n: nat, w: Seconds): seq<Seconds>
    requires w >= 2
  {
    seq(2 * n, i => if i == 0 then 0 else if i < n then w - 1 else w)
  }

  lemma {:induction false} OpenedBurstState(n: nat, w: Seconds, k: nat)
    requires w >= 2 && n >= 1 && k <= 2 * n
    ensures Run(Limit(Policy(n, w), 0, 0), OpenedBurst(n, w)[..k]) ==
      if k <= n then Limit(Policy(n, w), 0, k) else Limit(Policy(n, w), w, k - n)
  {
    if k > 0 {
      OpenedBurstState(n, w, k - 1);
      assert OpenedBurst(n, w)[..k][..k - 1] == OpenedBurst(n, w)[..k - 1];
    }
  }

  lemma OpenedBurstAdmitted(n: nat, w: Seconds, i: nat)
    requires w >= 2 && n >= 1 && i < 2 * n
    ensures AdmittedAt(Limit(Policy(n, w), 0, 0), OpenedBurst(n, w), i)
  {
    OpenedBurstState(n, w, i);
  }

  /** The smaller bound, for windows that only calls open, is reached too. */
  lemma FirstUseBoundIsTight(n: nat, w: Seconds)
    requires w >= 2 && n >= 1
    ensures
      var l, times := Limit(Policy(n, w), 0, 0), OpenedBurst(n, w);
      && Orderly(l, times) && times != [] && times[0] == l.windowStart
      && |InInterval(l, times, w - 1, w)| == 2 * n - 1
  {
    hide AdmittedAt, Run;
    var l, times := Limit(Policy(n, w), 0, 0), OpenedBurst(n, w);
    forall i: nat | i < 2 * n ensures AdmittedAt(l, times, i) {
      OpenedBurstAdmitted(n, w, i);
    }
    assert InInterval(l, times, w - 1, w) == FirstN(2 * n) - {0};
  }

  /** A window of one second: the interval is the window, and holds no more than one quota. */
  lemma OneSecondBound(l: Limit, times: seq<Seconds>, t: Seconds)
    requires Orderly(l, times) && l.policy.windowSecs == 1
    ensures |InInterval(l, times, t, 1)| <= l.policy.callsPerWindow
  {
    hide AdmittedAt, Run, WindowOf;
    forall i | i in InInterval(l, times, t, 1) ensures i in InWindow(l, times, t) {
      CallInItsWindow(l, times, i);
    }
    Fewer(InInterval(l, times, t, 1), InWindow(l, times, t));
    WindowBound(l, times, t);
  }

  /** A window of no seconds: every call of every run is admitted, unless the quota is zero and none is. */
  lemma ZeroWindowAdmitsAll(l: Limit, times: seq<Seconds>, i: nat)
    requires l.policy.windowSecs == 0 && i < |times|
    ensures AdmittedAt(l, times, i) <==> l.policy.callsPerWindow > 0
  {
    RunKeepsPolicy(l, times[..i]);
  }

  ghost function FirstN(n: nat): (s: set<nat>)
    ensures |s| == n && forall i: nat :: i in s <==> i < n
  {
    if n == 0 then {} else FirstN(n - 1) + {n - 1}
  }

  // ----- Runs in which the token also resets its window -----

  /** A call, or a live token installing its policy anew. */
  datatype Move = Call(at: Seconds) | Reset(at: Seconds)

  function Moved(l: Limit, m: Move): Limit {
    match m
    case Call(at) => Next(l, at)
    case Reset(at) => Limit(l.policy, at, 0)
  }

  function RunMoves(l: Limit, moves: seq<Move>): Limit {
    if moves == [] then l else Moved(RunMoves(l, moves[..|moves| - 1]), moves[|moves| - 1])
  }

  predicate InSpan(at: Seconds, t: Seconds, length: Seconds) {
    t <= at < t + length
  }

  /** The calls admitted in the span of a window's length that starts at `t`. */
  function AdmittedIn(l: Limit, moves: seq<Move>, t: Seconds): nat {
    if moves == [] then 0
    else
      var before, m := moves[..|moves| - 1], moves[|moves| - 1];
      AdmittedIn(l, before, t) +
      if m.Call? && InSpan(m.at, t, l.policy.windowSecs) && Admits(RunMoves(l, before), m.at) then 1 else 0
  }

  function ResetsIn(moves: seq<Move>, t: Seconds, length: Seconds): nat {
    if moves == [] then 0
    else
      var m := moves[|moves| - 1];
      ResetsIn(moves[..|moves| - 1], t, length) + if m.Reset? && InSpan(m.at, t, length) then 1 else 0
  }

  function LastTime(l: Limit, moves: seq<Move>): Seconds {
    if moves == [] then l.windowStart else moves[|moves| - 1].at
  }

  /** A limit within its quota, and moves at times that never decrease. */
  predicate InOrder(l: Limit, moves: seq<Move>) {
    && l.calls <= l.policy.callsPerWindow && l.policy.windowSecs > 0
    && (forall i | 0 <= i < |moves| :: l.windowStart <= moves[i].at)
    && (forall i, j | 0 <= i < j < |moves| :: moves[i].at <= moves[j].at)
  }

  /** While the span lasts: what it has admitted, charged to its resets and to the window now open. */
  ghost predicate Charged(s: Limit, n: nat, last: Seconds, admitted: nat, resets: nat, t: Seconds) {
    && s.policy.callsPerWindow == n && s.policy.windowSecs > 0 && s.calls <= n && s.windowStart <= last
    && (last < t ==> admitted == 0 && resets == 0)
    && (last < t + s.policy.windowSecs ==>
         if s.windowStart < t then admitted <= s.calls && resets == 0 else admitted <= (resets + 1) * n + s.calls)
    && admitted <= (resets + 2) * n
  }

  lemma OneMoreQuota(r: nat, n: nat)
    ensures (r + 1) * n == r * n + n
  {}

  lemma CallIsCharged(s: Limit, n: nat, last: Seconds, a: nat, r: nat, t: Seconds, at: Seconds)
    requires Charged(s, n, last, a, r, t) && last <= at
    ensures
      var a' := a + if InSpan(at, t, s.policy.windowSecs) && Admits(s, at) then 1 else 0;
      Charged(Next(s, at), n, at, a', r, t)
  {
    OneMoreQuota(r, n);
    OneMoreQuota(r + 1, n);
  }

  lemma ResetIsCharged(s: Limit, n: nat, last: Seconds, a: nat, r: nat, t: Seconds, at: Seconds)
    requires Charged(s, n, last, a, r, t) && last <= at
    ensures Charged(Limit(s.policy, at, 0), n, at, a, r + (if InSpan(at, t, s.policy.windowSecs) then 1 else 0), t)
  {
    OneMoreQuota(r, n);
    OneMoreQuota(r + 1, n);
    OneMoreQuota(r + 2, n);
  }

  lemma {:induction false} MovesAreCharged(l: Limit, moves: seq<Move>, t: Seconds)
    requires InOrder(l, moves)
    ensures RunMoves(l, moves).policy == l.policy
    ensures Charged(RunMoves(l, moves), l.policy.callsPerWindow, LastTime(l, moves), AdmittedIn(l, moves, t),
                    ResetsIn(moves, t, l.policy.windowSecs), t)
  {
    var n, w := l.policy.callsPerWindow, l.policy.windowSecs;
    if moves != [] {
      hide Charged;
      var before, m := moves[..|moves| - 1], moves[|moves| - 1];
      MovesAreCharged(l, before, t);
      var s, last := RunMoves(l, before), LastTime(l, before);
      var admitted, resets := AdmittedIn(l, before, t), ResetsIn(before, t, w);
      match m
      case Call(at) => CallIsCharged(s, n, last, admitted, resets, t, at);
      case Reset(at) => ResetIsCharged(s, n, last, admitted, resets, t, at);
    }
  }

  /** With `r` resets in a span of a window's length, it admits at most `r + 2` quotas. */
  lemma SpanBoundWithResets(l: Limit, moves: seq<Move>, t: Seconds)
    requires InOrder(l, moves)
    ensures AdmittedIn(l, moves, t) <= (ResetsIn(moves, t, l.policy.windowSecs) + 2) * l.policy.callsPerWindow
  {
    hide AdmittedIn, ResetsIn, RunMoves;
    MovesAreCharged(l, moves, t);
  }

  function Calls(n: nat, at: Seconds): seq<Move> {
    if n == 0 then [] else Calls(n - 1, at) + [Call(at)]
  }

  /** A quota at the end of one window, one at the start of the next, and one after each of `r` resets. */
  function Storm(n: nat, w: Seconds, r: nat): seq<Move>
    requires w >= 2
  {
    if r == 0 then Calls(n, w - 1) + Calls(n, w) else Storm(n, w, r - 1) + [Reset(w)] + Calls(n, w)
  }

  lemma OneMove(l: Limit, moves: seq<Move>, m: Move, t: Seconds)
    ensures
      var s, w := RunMoves(l, moves), l.policy.windowSecs;
      && RunMoves(l, moves + [m]) == Moved(s, m)
      && AdmittedIn(l, moves + [m], t) ==
           AdmittedIn(l, moves, t) + (if m.Call? && InSpan(m.at, t, w) && Admits(s, m.at) then 1 else 0)
      && ResetsIn(moves + [m], t, w) == ResetsIn(moves, t, w) + (if m.Reset? && InSpan(m.at, t, w) then 1 else 0)
  {
    assert (moves + [m])[..|moves|] == moves;
  }

  /** A batch of calls that the window they meet has room for. */
  lemma {:induction false} BatchAdmitted(l: Limit, moves: seq<Move>, n: nat, at: Seconds, t: Seconds)
    requires
      var s := RunMoves(l, moves);
      && s.policy == l.policy && l.policy.windowSecs > 0 && s.windowStart <= at && InSpan(at, t, l.policy.windowSecs)
      && Rolled(s, at).calls + n <= l.policy.callsPerWindow
    ensures
      var s, w := RunMoves(l, moves), l.policy.windowSecs;
      && RunMoves(l, moves + Calls(n, at)) == (if n == 0 then s else Rolled(s, at).(calls := Rolled(s, at).calls + n))
      && AdmittedIn(l, moves + Calls(n, at), t) == AdmittedIn(l, moves, t) + n
      && ResetsIn(moves + Calls(n, at), t, w) == ResetsIn(moves, t, w)
  {
    hide RunMoves, AdmittedIn, ResetsIn;
    if n == 0 {
      assert moves + Calls(n, at) == moves;
    } else {
      BatchAdmitted(l, moves, n - 1, at, t);
      OneMove(l, moves + Calls(n - 1, at), Call(at), t);
      assert moves + Calls(n, at) == moves + Calls(n - 1, at) + [Call(at)];
    }
  }

  /** What a storm leaves and has admitted. */
  lemma {:induction false} StormAdmitted(n: nat, w: Seconds, r: nat)
    requires w >= 2 && n >= 1
    ensures
      var l, moves := Limit(Policy(n, w), 0, 0), Storm(n, w, r);
      && RunMoves(l, moves) == Limit(Policy(n, w), w, n)
      && AdmittedIn(l, moves, w - 1) == (r + 2) * n && ResetsIn(moves, w - 1, w) == r
  {
    hide RunMoves, AdmittedIn, ResetsIn;
    var l := Limit(Policy(n, w), 0, 0);
    if r == 0 {
      NoMoves(l, w - 1);
      BatchAdmitted(l, [], n, w - 1, w - 1);
      assert [] + Calls(n, w - 1) == Calls(n, w - 1);
      BatchAdmitted(l, Calls(n, w - 1), n, w, w - 1);
    } else {
      StormAdmitted(n, w, r - 1);
      OneMove(l, Storm(n, w, r - 1), Reset(w), w - 1);
      BatchAdmitted(l, Storm(n, w, r - 1) + [Reset(w)], n, w, w - 1);
      OneMoreQuota(r + 1, n);
    }
  }

  lemma NoMoves(l: Limit, t: Seconds)
    ensures RunMoves(l, []) == l && AdmittedIn(l, [], t) == 0 && ResetsIn([], t, l.policy.windowSecs) == 0
  {}

  /** That bound is reached too, for every positive quota, every window of two seconds or more and every `r`. */
  lemma SpanBoundIsTight(n: nat, w: Seconds, r: nat)
    requires w >= 2 && n >= 1
    ensures
      var l, moves := Limit(Policy(n, w), 0, 0), Storm(n, w, r);
      && InOrder(l, moves) && ResetsIn(moves, w - 1, w) == r
      && AdmittedIn(l, moves, w - 1) == (r + 2) * n
  {
    StormAdmitted(n, w, r);
    StormInOrder(n, w, r);
  }

  lemma {:induction false} CallsAllAt(n: nat, at: Seconds)
    ensures |Calls(n, at)| == n && forall i | 0 <= i < n :: Calls(n, at)[i] == Call(at)
  {
    if n > 0 {
      CallsAllAt(n - 1, at);
    }
  }

  lemma {:induction false} StormInOrder(n: nat, w: Seconds, r: nat)
    requires w >= 2
    ensures InOrder(Limit(Policy(n, w), 0, 0), Storm(n, w, r))
    ensures forall i | 0 <= i < |Storm(n, w, r)| :: Storm(n, w, r)[i].at <= w
  {
    CallsAllAt(n, w - 1);
    CallsAllAt(n, w);
    if r > 0 {
      StormInOrder(n, w, r - 1);
    }
  }
}
