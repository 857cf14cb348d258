/**
The model residency manager (crates/hyperion-ai-runtime/src/residency.rs) and its one driver,
`LocalAiRuntime::load` (crates/hyperion-ai-runtime/src/runtime.rs): a value-ordered evicting allocator
with pins.

Eviction values are real numbers.  Which of several equally worthless models goes first is left open, as
the source's hash-map iteration leaves it.
*/
module Residency {
  import opened Common

  type ModelId = nat
  type Instant = nat

  datatype Status = Hot | Warm | Cold

  datatype Entry = Entry(status: Status, lastUsed: Instant, pinCount: nat, predictedNextUse: real)

  datatype State = State(entries: map<ModelId, Entry>, footprints: map<ModelId, nat>, usedMb: nat)

  const Empty := State(map[], map[], 0)

  // ----- Sums over footprints -----

  ghost function Sum(m: map<ModelId, nat>): nat {
    if m == map[] then 0 else var k :| k in m; m[k] + Sum(m - {k})
  }

  lemma {:induction false} SumWithout(m: map<ModelId, nat>, k: ModelId)
    requires k in m
    ensures Sum(m) == m[k] + Sum(m - {k})
    decreases |m|
  {
    var j :| j in m && Sum(m) == m[j] + Sum(m - {j});
    if j != k {
      SumWithout(m - {j}, k);
      SumWithout(m - {k}, j);
      assert (m - {j}) - {k} == (m - {k}) - {j};
    }
  }

  lemma SumWith(m: map<ModelId, nat>, k: ModelId, v: nat)
    requires k !in m
    ensures Sum(m[k := v]) == Sum(m) + v
  {
    SumWithout(m[k := v], k);
    assert m[k := v] - {k} == m;
  }

  /** Taking more away leaves less. */
  lemma {:induction false} SumLess(m: map<ModelId, nat>, a: set<ModelId>, b: set<ModelId>)
    requires a <= b
    ensures Sum(m - b) <= Sum(m - a)
    decreases |b - a|
  {
    if k :| k in b - a {
      SumLess(m, a + {k}, b);
      if k in m {
        SumWithout(m - a, k);
        assert (m - a) - {k} == m - (a + {k});
      } else {
        assert m - a == m - (a + {k});
      }
    } else {
      assert a == b;
    }
  }

  // ----- Residents and their worth -----

  predicate IsResident(s: State, id: ModelId) {
    id in s.entries && s.entries[id].status != Cold
  }

  predicate IsEvictable(s: State, id: ModelId) {
    IsResident(s, id) && s.entries[id].pinCount == 0
  }

  function Evictable(s: State): set<ModelId> {
    set id | id in s.entries && IsEvictable(s, id)
  }

  /** `(1 / age) * (predicted_next_use + 0.001)`, with age counted from one second. */
  function Value(e: Entry, now: Instant): real {
    var age := (if now >= e.lastUsed then now - e.lastUsed else 0) as real + 1.0;
    (1.0 / age) * (e.predictedNextUse + 0.001)
  }

  /** Seconds since the last use, counted from one; a use in the future counts as now. */
  function Age(e: Entry, now: Instant): real {
    if e.lastUsed < now then (now - e.lastUsed + 1) as real else 1.0
  }

  lemma QuotientsCompare(x: real, a: real, y: real, b: real)
    requires a > 0.0 && b > 0.0
    ensures (1.0 / a) * x <= (1.0 / b) * y <==> x * b <= y * a
  {
    var u, v := (1.0 / a) * x, (1.0 / b) * y;
    assert u * a == x by { Undivided(x, a); }
    assert v * b == y by { Undivided(y, b); }
    assert x * b == u * (a * b) && y * a == v * (a * b);
    ScaledCompare(u, v, a * b);
  }

  lemma Undivided(x: real, a: real)
    requires a > 0.0
    ensures (1.0 / a) * x * a == x
  {
    assert (1.0 / a) * a == 1.0;
    assert (1.0 / a) * x * a == ((1.0 / a) * a) * x;
  }

  lemma ScaledCompare(u: real, v: real, c: real)
    requires c > 0.0
    ensures u <= v <==> u * c <= v * c
  {
    if u <= v {
      assert (v - u) * c >= 0.0;
    } else {
      assert (u - v) * c > 0.0;
    }
  }

  /** Which of two models is worth no more: their predictions, each weighted by the other's age. */
  lemma WorthCompares(x: Entry, y: Entry, now: Instant)
    ensures Value(x, now) <= Value(y, now) <==>
      (x.predictedNextUse + 0.001) * Age(y, now) <= (y.predictedNextUse + 0.001) * Age(x, now)
  {
    assert Value(x, now) == (1.0 / Age(x, now)) * (x.predictedNextUse + 0.001);
    assert Value(y, now) == (1.0 / Age(y, now)) * (y.predictedNextUse + 0.001);
    QuotientsCompare(x.predictedNextUse + 0.001, Age(x, now), y.predictedNextUse + 0.001, Age(y, now));
  }

  lemma ProductsCompare(p: real, a: real, b: real)
    requires p > 0.0
    ensures p * a <= p * b <==> a <= b
  {
    ScaledCompare(a, b, p);
  }

  /** Of two models predicted alike, the one used less recently is worth less. */
  lemma OlderIsWorthLess(x: Entry, y: Entry, now: Instant)
    requires x.predictedNextUse == y.predictedNextUse >= 0.0
    requires x.lastUsed < y.lastUsed && x.lastUsed < now
    ensures Value(x, now) < Value(y, now)
  {
    hide Value;
    WorthCompares(y, x, now);
    ProductsCompare(x.predictedNextUse + 0.001, Age(x, now), Age(y, now));
  }

  /** Of two models used alike, the one predicted to be needed less is worth less. */
  lemma LessNeededIsWorthLess(x: Entry, y: Entry, now: Instant)
    requires x.lastUsed == y.lastUsed && x.predictedNextUse < y.predictedNextUse
    ensures Value(x, now) < Value(y, now)
  {
    hide Value;
    WorthCompares(y, x, now);
    ScaledCompare(y.predictedNextUse + 0.001, x.predictedNextUse + 0.001, Age(x, now));
  }

  /** A model used this very instant is worth at least as much as any predicted to be needed no more. */
  lemma JustUsedIsWorthMost(x: Entry, y: Entry, now: Instant)
    requires y.lastUsed == now && 0.0 <= x.predictedNextUse <= y.predictedNextUse
    ensures Value(x, now) <= Value(y, now)
  {
    hide Value;
    WorthCompares(x, y, now);
    var p, q := x.predictedNextUse + 0.001, y.predictedNextUse + 0.001;
    ScaledCompare(p, q, 1.0);
    assert q * 1.0 <= q * Age(x, now) by { ProductsCompare(q, 1.0, Age(x, now)); }
  }

  function ValueOf(s: State, id: ModelId, now: Instant): real {
    if id in s.entries then Value(s.entries[id], now) else 0.0
  }

  /** What the models that cannot be evicted occupy. */
  ghost function PinnedMb(s: State): nat {
    Sum(s.footprints - Evictable(s))
  }

  /** The books: footprints exactly of the residents, summing to `usedMb`, within capacity; nothing is half loaded. */
  ghost predicate Accounted(s: State, totalMb: nat) {
    && (forall id :: id in s.footprints <==> IsResident(s, id))
    && s.usedMb == Sum(s.footprints) <= totalMb
    && (forall id | id in s.entries :: s.entries[id].status != Warm)
  }

  // ----- Eviction -----

  function Chill(e: Entry): Entry {
    e.(status := Cold)
  }

  ghost function Without(s: State, victims: set<ModelId>): State {
    State(map id | id in s.entries :: if id in victims then Chill(s.entries[id]) else s.entries[id],
      s.footprints - victims, Sum(s.footprints - victims))
  }

  /** `victims` are worth no more than any unpinned survivor. */
  ghost predicate LowestValued(s: State, victims: set<ModelId>, now: Instant) {
    forall v, r | v in victims && r in Evictable(s) - victims :: ValueOf(s, v, now) <= ValueOf(s, r, now)
  }

  /** The most valuable victim, without whose eviction the request did not fit. */
  ghost predicate LastVictim(s: State, victims: set<ModelId>, last: ModelId,
                             footprint: nat, totalMb: nat, now: Instant)
  {
    && last in victims
    && (forall v | v in victims :: ValueOf(s, v, now) <= ValueOf(s, last, now))
    && Sum(s.footprints - (victims - {last})) + footprint > totalMb
  }

  /** What `make_room` may do: exactly the evictions needed, least valuable first. */
  ghost predicate MakesRoom(s: State, victims: set<ModelId>, footprint: nat, totalMb: nat, now: Instant, ok: bool) {
    && victims <= Evictable(s)
    && LowestValued(s, victims, now)
    && (victims != {} ==> exists last :: LastVictim(s, victims, last, footprint, totalMb, now))
    && (ok <==> PinnedMb(s) + footprint <= totalMb)
    && (ok ==> Sum(s.footprints - victims) + footprint <= totalMb)
    && (!ok ==> victims == Evictable(s))
  }

  /** Among models predicted alike, none that is evicted was used later than an unpinned one that stays. */
  lemma EvictsLeastRecentlyUsed(s: State, victims: set<ModelId>, footprint: nat, totalMb: nat, now: Instant, ok: bool,
                                v: ModelId, r: ModelId)
    requires MakesRoom(s, victims, footprint, totalMb, now, ok)
    requires v in victims && r in Evictable(s) - victims
    requires s.entries[v].predictedNextUse == s.entries[r].predictedNextUse >= 0.0
    requires s.entries[v].lastUsed <= now && s.entries[r].lastUsed <= now
    ensures s.entries[v].lastUsed <= s.entries[r].lastUsed
  {
    hide Value, Sum;
    assert ValueOf(s, v, now) <= ValueOf(s, r, now);
    if s.entries[r].lastUsed < s.entries[v].lastUsed {
      OlderIsWorthLess(s.entries[r], s.entries[v], now);
    }
  }

  // ----- When the evicted set is the least -----

  /** Evicting `out` makes room for the request. */
  ghost predicate Room(s: State, out: set<ModelId>, footprint: nat, totalMb: nat) {
    Sum(s.footprints - out) + footprint <= totalMb
  }

  lemma RoomGrows(s: State, out: set<ModelId>, more: set<ModelId>, footprint: nat, totalMb: nat)
    requires out <= more && Room(s, out, footprint, totalMb)
    ensures Room(s, more, footprint, totalMb)
  {
    SumLess(s.footprints, out, more);
  }

  /** `victims` is contained in every low-value set that makes room. */
  ghost predicate Least(s: State, victims: set<ModelId>, footprint: nat, totalMb: nat, now: Instant) {
    forall other | other <= Evictable(s) && LowestValued(s, other, now) && Room(s, other, footprint, totalMb) ::
      victims <= other
  }

  /** The candidates worth less than `x`. */
  ghost function Below(s: State, x: ModelId, now: Instant): set<ModelId> {
    set r | r in Evictable(s) && ValueOf(s, r, now) < ValueOf(s, x, now)
  }

  /** The candidates worth at most as much as `x`. */
  ghost function UpTo(s: State, x: ModelId, now: Instant): set<ModelId> {
    set r | r in Evictable(s) && ValueOf(s, r, now) <= ValueOf(s, x, now)
  }

  /** Candidates all worth less than the last victim are victims themselves, and without it leave too little room. */
  lemma CheaperSetLeavesNoRoom(s: State, victims: set<ModelId>, other: set<ModelId>, last: ModelId,
                               footprint: nat, totalMb: nat, now: Instant)
    requires other <= Evictable(s) && LowestValued(s, victims, now)
    requires LastVictim(s, victims, last, footprint, totalMb, now)
    requires forall w | w in other :: ValueOf(s, w, now) < ValueOf(s, last, now)
    ensures !Room(s, other, footprint, totalMb)
  {
    hide ValueOf, Sum, IsEvictable;
    assert other <= victims - {last};
    if Room(s, other, footprint, totalMb) {
      RoomGrows(s, other, victims - {last}, footprint, totalMb);
    }
  }

  /** Whatever ties there are: every low-value set that makes room contains each victim worth less than the last. */
  lemma CheaperVictimsNeeded(s: State, victims: set<ModelId>, other: set<ModelId>, last: ModelId, v: ModelId,
                             footprint: nat, totalMb: nat, now: Instant)
    requires victims <= Evictable(s) && LowestValued(s, victims, now)
    requires LastVictim(s, victims, last, footprint, totalMb, now)
    requires other <= Evictable(s) && LowestValued(s, other, now) && Room(s, other, footprint, totalMb)
    requires v in victims && ValueOf(s, v, now) < ValueOf(s, last, now)
    ensures v in other
  {
    hide ValueOf, Sum, IsEvictable;
    if v !in other {
      CheaperSetLeavesNoRoom(s, victims, other, last, footprint, totalMb, now);
    }
  }

  /** Leaving out one model of the top tier keeps a set low-valued. */
  lemma UpToLessOne(s: State, x: ModelId, v: ModelId, now: Instant)
    requires ValueOf(s, v, now) == ValueOf(s, x, now)
    ensures UpTo(s, x, now) - {v} <= Evictable(s) && LowestValued(s, UpTo(s, x, now) - {v}, now)
  {
    hide ValueOf, IsEvictable;
  }

  /**
   * For each way an eviction can go: the evicted set is the least low-value set that makes room if and only if
   * each victim worth as much as the last one is needed even when everything else worth as much is evicted.
   */
  lemma LeastIff(s: State, victims: set<ModelId>, last: ModelId, footprint: nat, totalMb: nat, now: Instant)
    requires MakesRoom(s, victims, footprint, totalMb, now, true)
    requires LastVictim(s, victims, last, footprint, totalMb, now)
    ensures Least(s, victims, footprint, totalMb, now) <==>
      forall v | v in victims && ValueOf(s, v, now) == ValueOf(s, last, now) ::
        !Room(s, UpTo(s, last, now) - {v}, footprint, totalMb)
  {
    hide ValueOf, Sum, IsEvictable, Room;
    if Least(s, victims, footprint, totalMb, now) {
      forall v | v in victims && ValueOf(s, v, now) == ValueOf(s, last, now)
        ensures !Room(s, UpTo(s, last, now) - {v}, footprint, totalMb)
      {
        UpToLessOne(s, last, v, now);
      }
    } else {
      var other :| other <= Evictable(s) && LowestValued(s, other, now) && Room(s, other, footprint, totalMb) &&
        !(victims <= other);
      var v :| v in victims && v !in other;
      if ValueOf(s, v, now) < ValueOf(s, last, now) {
        CheaperVictimsNeeded(s, victims, other, last, v, footprint, totalMb, now);
      }
      assert other <= UpTo(s, last, now) - {v};
      RoomGrows(s, other, UpTo(s, last, now) - {v}, footprint, totalMb);
    }
  }

  /** Room is first found among the models worth exactly as much as `x`. */
  ghost predicate Decisive(s: State, x: ModelId, footprint: nat, totalMb: nat, now: Instant) {
    && x in Evictable(s)
    && !Room(s, Below(s, x, now), footprint, totalMb)
    && Room(s, UpTo(s, x, now), footprint, totalMb)
  }

  /**
   * Before the call: whichever way ties are broken the evicted set will be the least, if and only if every
   * model of the tier in which room is first found is needed even when the rest of that tier is evicted.
   */
  lemma AlwaysLeastIff(s: State, footprint: nat, totalMb: nat, now: Instant)
    ensures
      (forall victims | MakesRoom(s, victims, footprint, totalMb, now, true) ::
         Least(s, victims, footprint, totalMb, now))
      <==>
      forall x | Decisive(s, x, footprint, totalMb, now) :: !Room(s, UpTo(s, x, now) - {x}, footprint, totalMb)
  {
    hide ValueOf, Sum, IsEvictable, Room, MakesRoom, Least, Decisive;
    if x :| Decisive(s, x, footprint, totalMb, now) && Room(s, UpTo(s, x, now) - {x}, footprint, totalMb) {
      var victims := TakesSpared(s, x, footprint, totalMb, now);
    } else {
      forall victims | MakesRoom(s, victims, footprint, totalMb, now, true)
        ensures Least(s, victims, footprint, totalMb, now)
      {
        NeededIsLeast(s, victims, footprint, totalMb, now);
      }
    }
  }

  lemma NeededIsLeast(s: State, victims: set<ModelId>, footprint: nat, totalMb: nat, now: Instant)
    requires MakesRoom(s, victims, footprint, totalMb, now, true)
    requires forall x | Decisive(s, x, footprint, totalMb, now) :: !Room(s, UpTo(s, x, now) - {x}, footprint, totalMb)
    ensures Least(s, victims, footprint, totalMb, now)
  {
    hide ValueOf, Sum, IsEvictable;
    if victims != {} {
      var last :| LastVictim(s, victims, last, footprint, totalMb, now);
      LeastIff(s, victims, last, footprint, totalMb, now);
      forall v | v in victims && ValueOf(s, v, now) == ValueOf(s, last, now)
        ensures !Room(s, UpTo(s, last, now) - {v}, footprint, totalMb)
      {
        VictimIsDecisive(s, victims, last, v, footprint, totalMb, now);
        assert UpTo(s, v, now) == UpTo(s, last, now);
      }
    }
  }

  lemma VictimIsDecisive(s: State, victims: set<ModelId>, last: ModelId, v: ModelId,
                         footprint: nat, totalMb: nat, now: Instant)
    requires MakesRoom(s, victims, footprint, totalMb, now, true)
    requires LastVictim(s, victims, last, footprint, totalMb, now)
    requires v in victims && ValueOf(s, v, now) == ValueOf(s, last, now)
    ensures Decisive(s, v, footprint, totalMb, now)
  {
    hide ValueOf, Sum, IsEvictable;
    if Room(s, Below(s, v, now), footprint, totalMb) {
      RoomGrows(s, Below(s, v, now), victims - {last}, footprint, totalMb);
    }
    RoomGrows(s, victims, UpTo(s, v, now), footprint, totalMb);
  }

  /** Some way of breaking ties takes a model that could have been spared. */
  lemma TakesSpared(s: State, x: ModelId, footprint: nat, totalMb: nat, now: Instant) returns (victims: set<ModelId>)
    requires Decisive(s, x, footprint, totalMb, now) && Room(s, UpTo(s, x, now) - {x}, footprint, totalMb)
    ensures MakesRoom(s, victims, footprint, totalMb, now, true) && !Least(s, victims, footprint, totalMb, now)
  {
    hide ValueOf, Sum, IsEvictable, Room, MakesRoom;
    victims := TakeTier(s, x, Below(s, x, now), x, footprint, totalMb, now);
    UpToLessOne(s, x, x, now);
  }

  /** The loop from `taken` on, when it next takes `y`: it goes on within the tier of `x` until there is room. */
  lemma {:induction false} TakeTier(s: State, x: ModelId, taken: set<ModelId>, y: ModelId,
                                    footprint: nat, totalMb: nat, now: Instant) returns (victims: set<ModelId>)
    requires Decisive(s, x, footprint, totalMb, now) && !Room(s, taken, footprint, totalMb)
    requires Below(s, x, now) <= taken <= UpTo(s, x, now) && y in UpTo(s, x, now) - taken
    ensures MakesRoom(s, victims, footprint, totalMb, now, true) && taken + {y} <= victims
    decreases |UpTo(s, x, now) - taken|
  {
    hide ValueOf, Sum, IsEvictable, Room, MakesRoom;
    victims := taken + {y};
    if Room(s, victims, footprint, totalMb) {
      TierMakesRoom(s, x, taken, y, footprint, totalMb, now);
    } else {
      var left := UpTo(s, x, now) - victims;
      assert left == {} ==> victims == UpTo(s, x, now);
      var z :| z in UpTo(s, x, now) - victims;
      assert UpTo(s, x, now) - victims < UpTo(s, x, now) - taken;
      Fewer(UpTo(s, x, now) - victims, UpTo(s, x, now) - taken - {y});
      victims := TakeTier(s, x, victims, z, footprint, totalMb, now);
    }
  }

  lemma TierMakesRoom(s: State, x: ModelId, taken: set<ModelId>, y: ModelId, footprint: nat, totalMb: nat, now: Instant)
    requires x in Evictable(s) && !Room(s, taken, footprint, totalMb) && Room(s, taken + {y}, footprint, totalMb)
    requires Below(s, x, now) <= taken <= UpTo(s, x, now) && y in UpTo(s, x, now) - taken
    ensures MakesRoom(s, taken + {y}, footprint, totalMb, now, true)
  {
    hide ValueOf, Sum, IsEvictable;
    var victims := taken + {y};
    assert victims - {y} == taken;
    assert LastVictim(s, victims, y, footprint, totalMb, now);
    RoomGrows(s, victims, Evictable(s), footprint, totalMb);
  }

  ghost predicate DistinctValues(s: State, now: Instant) {
    forall a, b | a in Evictable(s) && b in Evictable(s) && a != b :: ValueOf(s, a, now) != ValueOf(s, b, now)
  }

  /** So when no two candidates are worth the same, the evicted set is always the least. */
  lemma EvictionIsLeast(s: State, victims: set<ModelId>, footprint: nat, totalMb: nat, now: Instant)
    requires MakesRoom(s, victims, footprint, totalMb, now, true) && DistinctValues(s, now)
    ensures Least(s, victims, footprint, totalMb, now)
  {
    hide ValueOf, Sum, IsEvictable, Room, Least;
    forall x | Decisive(s, x, footprint, totalMb, now) ensures !Room(s, UpTo(s, x, now) - {x}, footprint, totalMb) {
      assert UpTo(s, x, now) - {x} == Below(s, x, now);
    }
    NeededIsLeast(s, victims, footprint, totalMb, now);
  }

  lemma SumOfOne(k: ModelId, v: nat)
    ensures Sum(map[k := v]) == v
  {
    SumWithout(map[k := v], k);
    assert map[k := v] - {k} == map[];
  }

  /** An instance with a tie: of two models worth the same, evicting the large one alone would have done. */
  lemma TiedEvictionNotLeast(e: Entry, now: Instant)
    requires e.status == Hot && e.pinCount == 0
    ensures
      var s := State(map[1 := e, 2 := e], map[1 := 1, 2 := 100], 101);
      Accounted(s, 101) && MakesRoom(s, {1, 2}, 50, 101, now, true) && !Least(s, {1, 2}, 50, 101, now)
  {
    hide Value;
    var s := State(map[1 := e, 2 := e], map[1 := 1, 2 := 100], 101);
    assert Evictable(s) == {1, 2};
    SumOfOne(1, 1);
    SumOfOne(2, 100);
    SumWithout(s.footprints, 1);
    assert s.footprints - {1} == map[2 := 100] && s.footprints - {2} == map[1 := 1] && s.footprints - {1, 2} == map[];
    assert {1, 2} - {2} == {1};
    assert LastVictim(s, {1, 2}, 2, 50, 101, now);
    assert LowestValued(s, {2}, now) && Room(s, {2}, 50, 101);
  }

  // ----- Runs -----

  datatype Op =
    | Load(model: ModelId, footprint: nat, loadedAt: Instant)
    | Pin(pinned: ModelId)
    | Unpin(unpinned: ModelId)
    | Touch(touched: ModelId, touchedAt: Instant)
    | Predict(predicted: ModelId, worth: real)

  function Edit(s: State, id: ModelId, e: Entry): State {
    if id in s.entries then s.(entries := s.entries[id := e]) else s
  }

  function MarkedHot(s: State, id: ModelId, footprint: nat, now: Instant): State {
    var s' := if IsResident(s, id) then s
              else s.(usedMb := s.usedMb + footprint, footprints := s.footprints[id := footprint]);
    s'.(entries := s'.entries[id :=
      if id in s.entries then s.entries[id].(status := Hot, lastUsed := now) else Entry(Hot, now, 0, 0.0)])
  }

  predicate IsHot(s: State, id: ModelId) {
    id in s.entries && s.entries[id].status == Hot
  }

  function Touched(s: State, id: ModelId, now: Instant): State {
    if id in s.entries then s.(entries := s.entries[id := s.entries[id].(lastUsed := now)]) else s
  }

  function Pinned(e: Entry): Entry {
    e.(pinCount := e.pinCount + 1)
  }

  function Unpinned(e: Entry): Entry {
    e.(pinCount := if e.pinCount == 0 then 0 else e.pinCount - 1)
  }

  /** One call; which victims a load takes is left open among equals. */
  ghost predicate Step(s: State, op: Op, s': State, totalMb: nat) {
    match op
    case Load(id, footprint, now) =>
      if IsHot(s, id) then s' == Touched(s, id, now)
      else exists victims, ok ::
        && MakesRoom(s, victims, footprint, totalMb, now, ok)
        && s' == (if ok then MarkedHot(Without(s, victims), id, footprint, now) else Without(s, victims))
    case Pin(id) => s' == if id in s.entries then Edit(s, id, Pinned(s.entries[id])) else s
    case Unpin(id) =>
      s' == if id in s.entries then Edit(s, id, Unpinned(s.entries[id])) else s
    case Touch(id, now) => s' == Touched(s, id, now)
    case Predict(id, worth) =>
      s' == if id in s.entries then Edit(s, id, s.entries[id].(predictedNextUse := worth)) else s
  }

  /** A pin protects: a resident that was just pinned stays, whatever is called next. */
  lemma PinProtects(s: State, id: ModelId, s': State, op: Op, s'': State, totalMb: nat)
    requires Accounted(s, totalMb) && IsResident(s, id)
    requires Step(s, Pin(id), s', totalMb) && Step(s', op, s'', totalMb)
    ensures IsResident(s'', id) && s''.footprints[id] == s.footprints[id]
    ensures s'.entries[id].pinCount == s.entries[id].pinCount + 1
  {
    hide MakesRoom, Sum;
    StepKeepsAccounts(s, Pin(id), s', totalMb);
    PinnedSurvives(s', op, s'', totalMb, id);
  }

  /** Unpinning undoes a pin; with no pin left it does nothing. */
  lemma UnpinUndoesPin(s: State, id: ModelId, s': State, s'': State, totalMb: nat)
    requires Step(s, Pin(id), s', totalMb) && Step(s', Unpin(id), s'', totalMb)
    ensures s'' == s
  {}

  lemma UnpinStopsAtZero(s: State, id: ModelId, s': State, totalMb: nat)
    requires Step(s, Unpin(id), s', totalMb) && (id !in s.entries || s.entries[id].pinCount == 0)
    ensures s' == s
  {}

  /** A load that succeeds, and a touch, leave the model as just used; the rest of its entry is kept. */
  lemma UseIsRecorded(s: State, id: ModelId, footprint: nat, now: Instant)
    ensures
      var e := MarkedHot(s, id, footprint, now).entries[id];
      && e.status == Hot && e.lastUsed == now
      && e.pinCount == (if id in s.entries then s.entries[id].pinCount else 0)
      && e.predictedNextUse == (if id in s.entries then s.entries[id].predictedNextUse else 0.0)
    ensures id in s.entries ==> Touched(s, id, now).entries[id] == s.entries[id].(lastUsed := now)
    ensures forall j | j in s.entries && j != id ::
      && Touched(s, id, now).entries[j] == s.entries[j]
      && MarkedHot(s, id, footprint, now).entries[j] == s.entries[j]
  {}

  /** A prediction replaces the last one, and an eviction changes the status, of that model alone and nothing else. */
  lemma PredictionIsRecorded(s: State, id: ModelId, worth: real, s': State, totalMb: nat)
    requires Step(s, Predict(id, worth), s', totalMb) && id in s.entries
    ensures s'.entries == s.entries[id := s.entries[id].(predictedNextUse := worth)]
    ensures s'.footprints == s.footprints && s'.usedMb == s.usedMb
  {}

  lemma EvictedEntries(s: State, victims: set<ModelId>, id: ModelId)
    requires id in s.entries
    ensures
      var e, e' := s.entries[id], Without(s, victims).entries[id];
      && e'.lastUsed == e.lastUsed && e'.pinCount == e.pinCount && e'.predictedNextUse == e.predictedNextUse
      && (e'.status == Cold <==> id in victims || e.status == Cold)
  {
    hide Sum;
  }

  lemma WithoutIsAccounted(s: State, victims: set<ModelId>, totalMb: nat)
    requires Accounted(s, totalMb) && victims <= Evictable(s)
    ensures Accounted(Without(s, victims), totalMb)
  {
    SumLess(s.footprints, {}, victims);
    assert s.footprints - {} == s.footprints;
  }

  lemma MarkedHotIsAccounted(s: State, id: ModelId, footprint: nat, now: Instant, totalMb: nat)
    requires Accounted(s, totalMb) && !IsResident(s, id) && s.usedMb + footprint <= totalMb
    ensures Accounted(MarkedHot(s, id, footprint, now), totalMb)
  {
    SumWith(s.footprints, id, footprint);
    var s' := MarkedHot(s, id, footprint, now);
    forall j ensures j in s'.footprints <==> IsResident(s', j) {
      assert j != id ==> (IsResident(s', j) <==> IsResident(s, j));
    }
  }

  /** Every call keeps the books, so no reachable state overruns the capacity. */
  lemma StepKeepsAccounts(s: State, op: Op, s': State, totalMb: nat)
    requires Accounted(s, totalMb) && Step(s, op, s', totalMb)
    ensures Accounted(s', totalMb)
  {
    hide Sum, LowestValued, LastVictim, MarkedHot;
    match op
    case Load(id, footprint, now) =>
      if !IsHot(s, id) {
        var victims, ok :|
          && MakesRoom(s, victims, footprint, totalMb, now, ok)
          && s' == (if ok then MarkedHot(Without(s, victims), id, footprint, now) else Without(s, victims));
        WithoutIsAccounted(s, victims, totalMb);
        if ok {
          MarkedHotIsAccounted(Without(s, victims), id, footprint, now, totalMb);
        }
      }
    case _ =>
      assert s'.footprints == s.footprints;
      assert forall id :: IsResident(s', id) <==> IsResident(s, id);
  }

  /** A pinned resident survives every call, and keeps its footprint. */
  lemma PinnedSurvives(s: State, op: Op, s': State, totalMb: nat, id: ModelId)
    requires Accounted(s, totalMb) && Step(s, op, s', totalMb)
    requires IsResident(s, id) && s.entries[id].pinCount > 0
    ensures IsResident(s', id) && s'.footprints[id] == s.footprints[id]
  {
    StepKeepsAccounts(s, op, s', totalMb);
  }

  ghost predicate IsRun(states: seq<State>, ops: seq<Op>, totalMb: nat) {
    && |states| == |ops| + 1 && states[0] == Empty
    && forall i | 0 <= i < |ops| :: Step(states[i], ops[i], states[i + 1], totalMb)
  }

  lemma {:induction false} RunsAreAccounted(states: seq<State>, ops: seq<Op>, totalMb: nat, k: nat)
    requires IsRun(states, ops, totalMb) && k < |states|
    ensures Accounted(states[k], totalMb)
    decreases k
  {
    if k > 0 {
      RunsAreAccounted(states, ops, totalMb, k - 1);
      StepKeepsAccounts(states[k - 1], ops[k - 1], states[k], totalMb);
    }
  }

  /** Over any stretch of a run during which a resident model stays pinned, it is never evicted. */
  lemma {:induction false} PinnedThroughoutSurvives(states: seq<State>, ops: seq<Op>, totalMb: nat,
                                                    a: nat, b: nat, id: ModelId)
    requires IsRun(states, ops, totalMb) && a <= b < |states|
    requires IsResident(states[a], id)
    requires forall k | a <= k < b :: id in states[k].entries && states[k].entries[id].pinCount > 0
    ensures IsResident(states[b], id) && id in states[a].footprints && id in states[b].footprints
    ensures states[b].footprints[id] == states[a].footprints[id]
    decreases b
  {
    RunsAreAccounted(states, ops, totalMb, a);
    RunsAreAccounted(states, ops, totalMb, b);
    if a < b {
      PinnedThroughoutSurvives(states, ops, totalMb, a, b - 1, id);
      RunsAreAccounted(states, ops, totalMb, b - 1);
      PinnedSurvives(states[b - 1], ops[b - 1], states[b], totalMb, id);
    }
  }

  // ----- The evicting loop -----

  /** What the loop knows: the victims so far are the least valuable, and none was evicted without need. */
  ghost predicate Evicting(s: State, victims: set<ModelId>, last: ModelId, footprint: nat, totalMb: nat, now: Instant) {
    && victims <= Evictable(s)
    && LowestValued(s, victims, now)
    && (victims != {} ==> LastVictim(s, victims, last, footprint, totalMb, now))
  }

  lemma LeftAfter(s: State, victims: set<ModelId>)
    requires victims <= Evictable(s)
    ensures Evictable(Without(s, victims)) == Evictable(s) - victims
    ensures forall id, now | id in s.entries :: ValueOf(Without(s, victims), id, now) == ValueOf(s, id, now)
  {
    hide Sum;
  }

  lemma OneMoreVictim(s: State, victims: set<ModelId>, last: ModelId, id: ModelId,
                      footprint: nat, totalMb: nat, now: Instant)
    requires Evicting(s, victims, last, footprint, totalMb, now)
    requires id in Evictable(s) - victims && Sum(s.footprints - victims) + footprint > totalMb
    requires forall r | r in Evictable(s) - victims :: ValueOf(s, id, now) <= ValueOf(s, r, now)
    ensures Evicting(s, victims + {id}, id, footprint, totalMb, now)
  {
    hide Sum, ValueOf;
    assert (victims + {id}) - {id} == victims;
  }

  /** Evicting one more resident takes its footprint off the books. */
  lemma EvictOne(s: State, victims: set<ModelId>, id: ModelId, totalMb: nat)
    requires Accounted(s, totalMb) && victims <= Evictable(s) && id in Evictable(s) - victims
    ensures
      var t := Without(s, victims);
      && id in t.entries && id in t.footprints && t.footprints[id] <= t.usedMb
      && Without(s, victims + {id}) ==
           State(t.entries[id := Chill(t.entries[id])], t.footprints - {id}, t.usedMb - t.footprints[id])
    ensures Accounted(Without(s, victims + {id}), totalMb)
  {
    hide Sum;
    SumWithout(s.footprints - victims, id);
    assert (s.footprints - victims) - {id} == s.footprints - (victims + {id});
    WithoutIsAccounted(s, victims + {id}, totalMb);
  }

  lemma EvictionsDone(s: State, victims: set<ModelId>, last: ModelId,
                      footprint: nat, totalMb: nat, now: Instant, ok: bool)
    requires Evicting(s, victims, last, footprint, totalMb, now)
    requires if ok then Sum(s.footprints - victims) + footprint <= totalMb
             else victims == Evictable(s) && Sum(s.footprints - victims) + footprint > totalMb
    ensures MakesRoom(s, victims, footprint, totalMb, now, ok)
  {
    hide LowestValued, LastVictim;
    SumLess(s.footprints, victims, Evictable(s));
  }

  /** The scan for the least valuable candidate. */
  method LeastValued(entries: map<ModelId, Entry>, candidates: set<ModelId>, now: Instant) returns (id: ModelId)
    requires candidates != {} && candidates <= entries.Keys
    ensures id in candidates && forall r | r in candidates :: Value(entries[id], now) <= Value(entries[r], now)
  {
    hide Value;
    id :| id in candidates;
    var rest := candidates - {id};
    while rest != {}
      invariant id in candidates && rest <= candidates
      invariant forall r | r in candidates - rest :: Value(entries[id], now) <= Value(entries[r], now)
      decreases rest
    {
      var r :| r in rest;
      if Value(entries[r], now) < Value(entries[id], now) {
        id := r;
      }
      rest := rest - {r};
    }
  }

  class ResidencyManager {
    var entries: map<ModelId, Entry>
    var footprints: map<ModelId, nat>
    var usedMb: nat

    ghost function View(): State
      reads this
    {
      State(entries, footprints, usedMb)
    }

    constructor ()
      ensures View() == Empty
    {
      entries, footprints, usedMb := map[], map[], 0;
    }

    method CapacityAvailable(totalMb: nat) returns (mb: nat)
      ensures mb == if totalMb >= usedMb then totalMb - usedMb else 0
      ensures Accounted(View(), totalMb) ==> Sum(footprints) + mb == totalMb
    {
      mb := if totalMb >= usedMb then totalMb - usedMb else 0;
    }

    method Evict(id: ModelId)
      modifies this
      ensures entries == if id in old(entries) then old(entries)[id := Chill(old(entries)[id])] else old(entries)
      ensures footprints == old(footprints) - {id}
      ensures usedMb == if id !in old(footprints) then old(usedMb)
                        else if old(usedMb) >= old(footprints)[id] then old(usedMb) - old(footprints)[id] else 0
    {
      if id in entries {
        entries := entries[id := entries[id].(status := Cold)];
      }
      if id in footprints {
        var freed := footprints[id];
        footprints := footprints - {id};
        usedMb := if usedMb >= freed then usedMb - freed else 0;
      }
    }

    /** Evicts the least valuable unpinned residents until the request fits, or none is left. */
    method MakeRoom(footprint: nat, totalMb: nat, now: Instant) returns (ok: bool, ghost victims: set<ModelId>)
      requires Accounted(View(), totalMb)
      modifies this
      ensures View() == Without(old(View()), victims)
      ensures MakesRoom(old(View()), victims, footprint, totalMb, now, ok)
      ensures Accounted(View(), totalMb)
    {
      hide Sum, Value, LowestValued, LastVictim, MakesRoom;
      ghost var s := View();
      ghost var last := 0;
      victims := {};
      StartsWhole(s, footprint, totalMb, now);
      var available := CapacityAvailable(totalMb);
      while available < footprint
        invariant Evicting(s, victims, last, footprint, totalMb, now)
        invariant View() == Without(s, victims)
        invariant Accounted(View(), totalMb) && available == totalMb - usedMb
        decreases Evictable(s) - victims
      {
        LeftAfter(s, victims);
        var candidates := set id | id in entries && entries[id].status != Cold && entries[id].pinCount == 0;
        assert candidates == Evictable(s) - victims;
        if candidates == {} {
          EvictionsDone(s, victims, last, footprint, totalMb, now, false);
          return false, victims;
        }
        var id := LeastValued(entries, candidates, now);
        OneMoreVictim(s, victims, last, id, footprint, totalMb, now);
        EvictOne(s, victims, id, totalMb);
        Evict(id);
        victims, last := victims + {id}, id;
        available := CapacityAvailable(totalMb);
      }
      EvictionsDone(s, victims, last, footprint, totalMb, now, true);
      ok := true;
    }

    method MarkHot(id: ModelId, footprint: nat, now: Instant)
      modifies this
      ensures View() == MarkedHot(old(View()), id, footprint, now)
    {
      var wasResident := id in entries && entries[id].status != Cold;
      if !wasResident {
        usedMb := usedMb + footprint;
        footprints := footprints[id := footprint];
      }
      if id in entries {
        entries := entries[id := entries[id].(status := Hot, lastUsed := now)];
      } else {
        entries := entries[id := Entry(Hot, now, 0, 0.0)];
      }
    }

    method TouchModel(id: ModelId, now: Instant)
      modifies this
      ensures View() == Touched(old(View()), id, now)
    {
      if id in entries {
        entries := entries[id := entries[id].(lastUsed := now)];
      }
    }

    method PinModel(id: ModelId)
      modifies this
      ensures forall totalMb :: Step(old(View()), Pin(id), View(), totalMb)
    {
      if id in entries {
        entries := entries[id := entries[id].(pinCount := entries[id].pinCount + 1)];
      }
    }

    method UnpinModel(id: ModelId)
      modifies this
      ensures forall totalMb :: Step(old(View()), Unpin(id), View(), totalMb)
    {
      if id in entries {
        var pins := entries[id].pinCount;
        entries := entries[id := entries[id].(pinCount := if pins == 0 then 0 else pins - 1)];
      }
    }

    method SetPredictedNextUse(id: ModelId, worth: real)
      modifies this
      ensures forall totalMb :: Step(old(View()), Predict(id, worth), View(), totalMb)
    {
      if id in entries {
        entries := entries[id := entries[id].(predictedNextUse := worth)];
      }
    }
  }

  lemma StartsWhole(s: State, footprint: nat, totalMb: nat, now: Instant)
    requires Accounted(s, totalMb)
    ensures s == Without(s, {}) && Evicting(s, {}, 0, footprint, totalMb, now)
  {
    assert s.footprints - {} == s.footprints;
  }

  class LocalAiRuntime {
    const residency: ResidencyManager
    const totalCapacityMb: nat

    constructor (totalCapacityMb: nat)
      ensures this.totalCapacityMb == totalCapacityMb && fresh(residency) && residency.View() == Empty
    {
      this.totalCapacityMb := totalCapacityMb;
      residency := new ResidencyManager();
    }

    /** `load`: a failed load has still evicted everything evictable. */
    method LoadModel(id: ModelId, footprint: nat, now: Instant) returns (ok: bool)
      requires Accounted(residency.View(), totalCapacityMb)
      modifies residency
      ensures Step(old(residency.View()), Load(id, footprint, now), residency.View(), totalCapacityMb)
      ensures Accounted(residency.View(), totalCapacityMb)
      ensures ok <==> IsHot(residency.View(), id)
      ensures ok <==> IsHot(old(residency.View()), id) || PinnedMb(old(residency.View())) + footprint <= totalCapacityMb
    {
      hide Sum, LowestValued, LastVictim;
      ghost var s := residency.View();
      if id in residency.entries && residency.entries[id].status == Hot {
        residency.TouchModel(id, now);
        StepKeepsAccounts(s, Load(id, footprint, now), residency.View(), totalCapacityMb);
        return true;
      }
      ghost var victims;
      ok, victims := residency.MakeRoom(footprint, totalCapacityMb, now);
      if ok {
        residency.MarkHot(id, footprint, now);
      }
      StepKeepsAccounts(s, Load(id, footprint, now), residency.View(), totalCapacityMb);
    }
  }
}
