/**
The revocation graph of the capability monitor (crates/hyperion-capability/src/revocation.rs):
every token is a node of a delegation forest kept in a flat arena, and revoking a token walks its
subtree with an explicit stack.
*/
module Revocation {
  import opened Common

  type TokenId = nat
  type ObjectId = nat
  type RightsMask = n: nat | n < 0x1_0000_0000

  datatype Node = Node(
    parent: Option<TokenId>,
    children: seq<TokenId>,
    liveGeneration: nat,
    objectId: ObjectId,
    rights: RightsMask)

  type Graph = map<TokenId, Node>

  datatype Receipt = Receipt(revoked: TokenId, descendantsInvalidated: nat)

  // ----- Rights -----

  predicate Bit(n: nat, i: nat) {
    (n / Pow2(i)) % 2 == 1
  }

  /** `RightsMask::contains`: every bit of `b` is set in `a`. */
  predicate Contains(a: RightsMask, b: RightsMask) {
    forall i | 0 <= i < 32 :: Bit(b, i) ==> Bit(a, i)
  }

  /** The number whose binary digits, lowest first, are `bits`. */
  function MaskOf(bits: seq<bool>): (n: nat)
    ensures n < Pow2(|bits|)
  {
    if bits == [] then 0 else (if bits[0] then 1 else 0) + 2 * MaskOf(bits[1..])
  }

  lemma {:induction false} BitOfMask(bits: seq<bool>, i: nat)
    requires i < |bits|
    ensures Bit(MaskOf(bits), i) == bits[i]
  {
    var rest := MaskOf(bits[1..]);
    if i > 0 {
      BitOfMask(bits[1..], i - 1);
      HalfThenShift(MaskOf(bits), rest, Pow2(i - 1));
    }
  }

  lemma HalfThenShift(n: nat, half: nat, p: nat)
    requires p >= 1 && 2 * half <= n <= 2 * half + 1
    ensures n / (2 * p) == half / p
  {
    var q, r := half / p, half % p;
    assert half == q * p + r;
    assert n == q * (2 * p) + (n - 2 * (q * p));
    assert 0 <= n - 2 * (q * p) < 2 * p;
    DivUnique(n, 2 * p, q, n - 2 * (q * p));
  }

  /** Every mask is the number of its own 32 bits. */
  lemma EveryMaskHasBits(n: RightsMask) returns (bits: seq<bool>)
    ensures |bits| == 32 && MaskOf(bits) == n
  {
    assert Pow2(8) == 256 && Pow2(16) == 65_536 && Pow2(24) == 0x100_0000;
    assert Pow2(32) == 0x1_0000_0000;
    bits := DigitsOf(n, 32);
  }

  lemma {:induction false} DigitsOf(n: nat, k: nat) returns (bits: seq<bool>)
    requires n < Pow2(k)
    ensures |bits| == k && MaskOf(bits) == n
  {
    if k == 0 {
      bits := [];
    } else {
      var rest := DigitsOf(n / 2, k - 1);
      bits := [n % 2 == 1] + rest;
      assert bits[1..] == rest;
    }
  }

  /** One mask contains another exactly when each bit set in the second is set in the first. */
  lemma ContainsIff(a: RightsMask, b: RightsMask, aBits: seq<bool>, bBits: seq<bool>)
    requires |aBits| == |bBits| == 32 && MaskOf(aBits) == a && MaskOf(bBits) == b
    ensures Contains(a, b) <==> forall i | 0 <= i < 32 :: bBits[i] ==> aBits[i]
  {
    hide Bit, MaskOf;
    forall i: nat | i < 32 ensures Bit(a, i) == aBits[i] && Bit(b, i) == bBits[i] {
      BitOfMask(aBits, i);
      BitOfMask(bBits, i);
    }
  }

  // ----- The forest -----

  predicate Distinct<T(==)>(s: seq<T>) {
    forall i, j | 0 <= i < j < |s| :: s[i] != s[j]
  }

  /** The link from a node to its parent, and what the child inherits. */
  predicate ParentMirrored(g: Graph, id: TokenId)
    requires id in g
  {
    match g[id].parent
    case None => true
    case Some(p) =>
      && p in g && p < id && id in g[p].children
      && g[id].objectId == g[p].objectId && Contains(g[p].rights, g[id].rights)
  }

  predicate ChildrenMirrored(g: Graph, id: TokenId)
    requires id in g
  {
    && Distinct(g[id].children)
    && forall c | c in g[id].children :: c in g && g[c].parent == Some(id)
  }

  /** Parent links and duplicate-free child lists mirror each other, and every link goes to an older token. */
  predicate Forest(g: Graph) {
    forall id | id in g :: ParentMirrored(g, id) && ChildrenMirrored(g, id)
  }

  /** `id` is `a` or was derived from it, at any depth. */
  predicate Under(g: Graph, a: TokenId, id: TokenId) {
    id == a ||
    (id in g && g[id].parent.Some? && g[id].parent.value < id && Under(g, a, g[id].parent.value))
  }

  function Subtree(g: Graph, a: TokenId): set<TokenId> {
    set n | n in g && Under(g, a, n)
  }

  // ----- What the operations do -----

  function WithRoot(g: Graph, id: TokenId, objectId: ObjectId, rights: RightsMask): Graph {
    g[id := Node(None, [], 0, objectId, rights)]
  }

  function WithChild(g: Graph, parent: TokenId, child: TokenId, objectId: ObjectId, rights: RightsMask): Graph {
    var g' := if parent in g then g[parent := g[parent].(children := g[parent].children + [child])] else g;
    g'[child := Node(Some(parent), [], 0, objectId, rights)]
  }

  function Bump(n: Node): Node {
    n.(liveGeneration := (n.liveGeneration + 1) % U64)
  }

  function Bumped(g: Graph, ids: set<TokenId>): Graph {
    map n | n in g :: if n in ids then Bump(g[n]) else g[n]
  }

  /** Exactly the subtree of `id` moves to its next generation, each node once. */
  function Revoked(g: Graph, id: TokenId): Graph {
    Bumped(g, Subtree(g, id))
  }

  class RevocationGraph {
    var nodes: Graph

    ghost predicate Valid()
      reads this
    {
      Forest(nodes)
    }

    constructor ()
      ensures Valid() && nodes == map[]
    {
      nodes := map[];
    }

    method InsertRoot(id: TokenId, objectId: ObjectId, rights: RightsMask)
      modifies this
      ensures nodes == WithRoot(old(nodes), id, objectId, rights)
      ensures old(Valid()) && id !in old(nodes) ==> Valid()
    {
      nodes := nodes[id := Node(None, [], 0, objectId, rights)];
      if Forest(old(nodes)) && id !in old(nodes) {
        WithRootKeepsForest(old(nodes), id, objectId, rights);
      }
    }

    method InsertChild(parent: TokenId, child: TokenId, objectId: ObjectId, rights: RightsMask)
      modifies this
      ensures nodes == WithChild(old(nodes), parent, child, objectId, rights)
      ensures old(Valid()) && CanAttach(old(nodes), parent, child, objectId, rights) ==> Valid()
    {
      if parent in nodes {
        nodes := nodes[parent := nodes[parent].(children := nodes[parent].children + [child])];
      }
      nodes := nodes[child := Node(Some(parent), [], 0, objectId, rights)];
      if Forest(old(nodes)) && CanAttach(old(nodes), parent, child, objectId, rights) {
        WithChildKeepsForest(old(nodes), parent, child, objectId, rights);
      }
    }

    method LiveGeneration(id: TokenId) returns (r: Option<nat>)
      ensures r == if id in nodes then Some(nodes[id].liveGeneration) else None
    {
      if id in nodes { r := Some(nodes[id].liveGeneration); } else { r := None; }
    }

    /** The stack walk: it terminates, and what it leaves is `Revoked`. */
    method Revoke(id: TokenId) returns (receipt: Receipt)
      requires Valid()
      modifies this
      ensures Valid()
      ensures nodes == Revoked(old(nodes), id)
      ensures receipt == Receipt(id, |Subtree(old(nodes), id) - {id}|)
    {
      hide Walk, WalkInvariant, Under, Forest;
      ghost var g := nodes;
      ghost var seen: set<TokenId> := {};
      var stack := [id];
      var descendants := 0;
      var first := true;
      WalkStarts(g, id);
      while stack != []
        invariant Walk(g, id, seen, stack, nodes, first, descendants)
        decreases g.Keys - seen, |stack|
      {
        var nodeId := stack[|stack| - 1];
        assert stack == stack[..|stack| - 1] + [nodeId];
        stack := stack[..|stack| - 1];
        if nodeId !in nodes {
          Skip(g, id, seen, stack, nodeId, nodes, first, descendants);
        } else {
          Visit(g, id, seen, stack, nodeId, nodes, first, descendants);
          var node := nodes[nodeId];
          nodes := nodes[nodeId := Bump(node)];
          stack := stack + node.children;
          seen := seen + {nodeId};
          if first {
            first := false;
          } else {
            descendants := descendants + 1;
          }
        }
      }
      WalkEnds(g, id, seen, nodes, first, descendants);
      receipt := Receipt(id, descendants);
    }
  }

  // ----- The walk -----

  /** The stack holds unvisited nodes of the subtree, each once. */
  ghost predicate Frontier(g: Graph, id: TokenId, seen: set<TokenId>, stack: seq<TokenId>) {
    && Distinct(stack)
    && (forall n | n in stack :: n !in seen && Under(g, id, n))
    && (forall n | n in seen :: n in g && Under(g, id, n))
  }

  /** Every child of a visited node is visited or waiting. */
  ghost predicate Pending(g: Graph, seen: set<TokenId>, stack: seq<TokenId>) {
    forall n, c | n in seen && n in g && c in g[n].children :: c in seen || c in stack
  }

  ghost predicate Reached(g: Graph, id: TokenId, seen: set<TokenId>, n: TokenId) {
    n == id || (n in g && g[n].parent.Some? && g[n].parent.value in seen)
  }

  /** What the walk knows between two pops. */
  ghost predicate WalkInvariant(g: Graph, id: TokenId, seen: set<TokenId>, stack: seq<TokenId>) {
    && Frontier(g, id, seen, stack)
    && Pending(g, seen, stack)
    && (forall n | n in seen :: Reached(g, id, seen, n))
    && (forall n | n in stack :: Reached(g, id, seen, n))
    && (id !in seen ==> seen == {} && (stack == [id] || (stack == [] && id !in g)))
  }

  /** A node's children have not been met before the node is visited. */
  lemma ChildIsNew(g: Graph, id: TokenId, seen: set<TokenId>, stack: seq<TokenId>, n: TokenId, c: TokenId)
    requires Forest(g) && WalkInvariant(g, id, seen, stack)
    requires n in g && n in stack && c in g[n].children
    ensures c in g && g[c].parent == Some(n) && c != n
    ensures Under(g, id, c) && c !in seen && c !in stack
  {
    assert ChildrenMirrored(g, n) && ParentMirrored(g, c);
    UnderIsYounger(g, id, n);
  }

  lemma VisitKeepsFrontier(g: Graph, id: TokenId, seen: set<TokenId>, rest: seq<TokenId>, n: TokenId)
    requires Forest(g) && n in g && WalkInvariant(g, id, seen, rest + [n])
    ensures Frontier(g, id, seen + {n}, rest + g[n].children)
  {
    hide Under, Forest;
    var stack, kids := rest + [n], g[n].children;
    assert stack[|rest|] == n && rest == stack[..|rest|];
    assert n !in rest;
    forall c | c in kids ensures c != n && Under(g, id, c) && c !in seen && c !in rest {
      ChildIsNew(g, id, seen, stack, n, c);
    }
    ChildrenDistinct(g, n);
    DistinctAppend(rest, kids);
  }

  lemma ChildrenDistinct(g: Graph, n: TokenId)
    requires Forest(g) && n in g
    ensures Distinct(g[n].children)
  {
    assert ChildrenMirrored(g, n);
  }

  lemma VisitKeepsPending(g: Graph, id: TokenId, seen: set<TokenId>, rest: seq<TokenId>, n: TokenId)
    requires n in g && Pending(g, seen, rest + [n])
    ensures Pending(g, seen + {n}, rest + g[n].children)
  {
    forall m, c | m in seen + {n} && m in g && c in g[m].children ensures c in seen + {n} || c in rest + g[n].children {
      if m != n {
        assert c in seen || c in rest + [n];
      }
    }
  }

  lemma VisitKeepsReached(g: Graph, id: TokenId, seen: set<TokenId>, rest: seq<TokenId>, n: TokenId, m: TokenId)
    requires Forest(g) && n in g && WalkInvariant(g, id, seen, rest + [n])
    requires m in seen + {n} || m in rest + g[n].children
    ensures Reached(g, id, seen + {n}, m)
  {
    if m in g[n].children {
      assert ChildrenMirrored(g, n);
    } else {
      assert m in seen || m in rest + [n];
      assert Reached(g, id, seen, m);
    }
  }

  lemma VisitKeepsInvariant(g: Graph, id: TokenId, seen: set<TokenId>, rest: seq<TokenId>, n: TokenId)
    requires Forest(g) && n in g && WalkInvariant(g, id, seen, rest + [n])
    ensures n !in seen && WalkInvariant(g, id, seen + {n}, rest + g[n].children)
  {
    assert (rest + [n])[|rest|] == n;
    VisitKeepsFrontier(g, id, seen, rest, n);
    VisitKeepsPending(g, id, seen, rest, n);
    forall m | m in seen + {n} || m in rest + g[n].children ensures Reached(g, id, seen + {n}, m) {
      VisitKeepsReached(g, id, seen, rest, n, m);
    }
  }

  lemma DistinctAppend(a: seq<TokenId>, b: seq<TokenId>)
    requires Distinct(a) && Distinct(b) && forall x | x in b :: x !in a
    ensures Distinct(a + b)
  {
    var s := a + b;
    forall i, j | 0 <= i < j < |s| ensures s[i] != s[j] {
      if i < |a| <= j {
        assert s[i] in a && s[j] in b;
      }
    }
  }

  lemma BumpOne(g: Graph, seen: set<TokenId>, n: TokenId)
    requires n in g && n !in seen
    ensures Bumped(g, seen)[n] == g[n]
    ensures Bumped(g, seen)[n := Bump(g[n])] == Bumped(g, seen + {n})
  {}

  lemma CountOne(seen: set<TokenId>, id: TokenId, n: TokenId)
    requires n !in seen
    ensures |(seen + {n}) - {id}| == |seen - {id}| + (if n == id then 0 else 1)
  {
    if n == id {
      assert (seen + {n}) - {id} == seen - {id};
    } else {
      assert (seen + {n}) - {id} == (seen - {id}) + {n};
    }
  }

  /** The whole loop invariant: the arena, the counter and the flag agree with the visited set. */
  ghost predicate Walk(g: Graph, id: TokenId, seen: set<TokenId>, stack: seq<TokenId>,
                       nodes: Graph, first: bool, descendants: nat)
  {
    && Forest(g)
    && WalkInvariant(g, id, seen, stack)
    && nodes == Bumped(g, seen)
    && first == (seen == {})
    && descendants == |seen - {id}|
  }

  /** Popping a node of the arena: it is bumped, its children wait, and it counts unless it is the first. */
  lemma Visit(g: Graph, id: TokenId, seen: set<TokenId>, rest: seq<TokenId>, n: TokenId,
              nodes: Graph, first: bool, descendants: nat)
    requires Walk(g, id, seen, rest + [n], nodes, first, descendants) && n in nodes
    ensures g.Keys - (seen + {n}) < g.Keys - seen
    ensures Walk(g, id, seen + {n}, rest + nodes[n].children, nodes[n := Bump(nodes[n])], false,
                 if first then descendants else descendants + 1)
  {
    VisitKeepsInvariant(g, id, seen, rest, n);
    BumpOne(g, seen, n);
    CountOne(seen, id, n);
    assert first <==> n == id by {
      assert (rest + [n])[|rest|] == n;
    }
  }

  /** Popping an id the arena does not hold, which only a revocation of an unknown token does. */
  lemma Skip(g: Graph, id: TokenId, seen: set<TokenId>, rest: seq<TokenId>, n: TokenId,
             nodes: Graph, first: bool, descendants: nat)
    requires Walk(g, id, seen, rest + [n], nodes, first, descendants) && n !in nodes
    ensures Walk(g, id, seen, rest, nodes, first, descendants)
  {
    var stack := rest + [n];
    assert stack[|rest|] == n;
    assert Reached(g, id, seen, n);
    assert seen == {} && stack == [id] && rest == [];
  }

  lemma {:induction false} UnderIsYounger(g: Graph, a: TokenId, id: TokenId)
    requires Under(g, a, id)
    ensures a <= id
    decreases id
  {
    if id != a {
      UnderIsYounger(g, a, g[id].parent.value);
    }
  }

  /** A set holding `id` and closed under children holds the whole subtree. */
  lemma {:induction false} ClosedHoldsSubtree(g: Graph, id: TokenId, seen: set<TokenId>, n: TokenId)
    requires Forest(g) && id in seen && n in g && Under(g, id, n)
    requires forall m, c | m in seen && m in g && c in g[m].children :: c in seen
    ensures n in seen
    decreases n
  {
    if n != id {
      assert ParentMirrored(g, n);
      ClosedHoldsSubtree(g, id, seen, g[n].parent.value);
    }
  }

  lemma WalkStarts(g: Graph, id: TokenId)
    requires Forest(g)
    ensures Walk(g, id, {}, [id], g, true, 0)
  {
    assert Bumped(g, {}) == g;
  }

  lemma WalkEnds(g: Graph, id: TokenId, seen: set<TokenId>, nodes: Graph, first: bool, descendants: nat)
    requires Walk(g, id, seen, [], nodes, first, descendants)
    ensures nodes == Revoked(g, id) && Forest(nodes)
    ensures descendants == |Subtree(g, id) - {id}|
  {
    BumpedKeepsForest(g, seen);
    if id in g {
      forall n | n in Subtree(g, id) ensures n in seen {
        ClosedHoldsSubtree(g, id, seen, n);
      }
      assert seen == Subtree(g, id);
    } else {
      MissingHasNoSubtree(g, id);
    }
  }

  lemma {:induction false} TopOfDescent(g: Graph, id: TokenId, n: TokenId)
    requires Forest(g) && n in g && Under(g, id, n)
    ensures id in g
    decreases n
  {
    if n != id {
      assert ParentMirrored(g, n);
      TopOfDescent(g, id, g[n].parent.value);
    }
  }

  lemma MissingHasNoSubtree(g: Graph, id: TokenId)
    requires Forest(g) && id !in g
    ensures Subtree(g, id) == {}
  {
    if n :| n in Subtree(g, id) {
      TopOfDescent(g, id, n);
    }
  }

  // ----- The forest is kept -----

  lemma WithRootKeepsForest(g: Graph, id: TokenId, objectId: ObjectId, rights: RightsMask)
    requires Forest(g) && id !in g
    ensures Forest(WithRoot(g, id, objectId, rights))
  {
    var g' := WithRoot(g, id, objectId, rights);
    forall n | n in g' ensures ParentMirrored(g', n) && ChildrenMirrored(g', n) {
      if n != id {
        assert ParentMirrored(g, n) && ChildrenMirrored(g, n);
      }
    }
  }

  /** What `cap_derive` guarantees of the node it attaches. */
  predicate CanAttach(g: Graph, parent: TokenId, child: TokenId, objectId: ObjectId, rights: RightsMask) {
    && parent in g && child !in g && parent < child
    && objectId == g[parent].objectId && Contains(g[parent].rights, rights)
  }

  lemma WithChildKeepsForest(g: Graph, parent: TokenId, child: TokenId, objectId: ObjectId, rights: RightsMask)
    requires Forest(g) && CanAttach(g, parent, child, objectId, rights)
    ensures Forest(WithChild(g, parent, child, objectId, rights))
  {
    var g' := WithChild(g, parent, child, objectId, rights);
    assert ChildrenMirrored(g, parent);
    assert child !in g[parent].children;
    var kids := g'[parent].children;
    assert kids == g[parent].children + [child];
    forall n | n in g' ensures ParentMirrored(g', n) && ChildrenMirrored(g', n) {
      if n != child {
        assert ParentMirrored(g, n) && ChildrenMirrored(g, n);
      } else {
        assert kids[|kids| - 1] == child;
      }
    }
  }

  lemma BumpedKeepsForest(g: Graph, ids: set<TokenId>)
    requires Forest(g)
    ensures Forest(Bumped(g, ids))
  {
    var g' := Bumped(g, ids);
    forall n | n in g' ensures ParentMirrored(g', n) && ChildrenMirrored(g', n) {
      assert ParentMirrored(g, n) && ChildrenMirrored(g, n);
    }
  }

  // ----- Descent is fixed when a token is issued -----

  /** No operation ever changes a node's lineage, record or identity. */
  ghost predicate Extends(g: Graph, g': Graph) {
    forall n | n in g ::
      n in g' && g'[n].parent == g[n].parent && g'[n].objectId == g[n].objectId && g'[n].rights == g[n].rights
  }

  lemma {:induction false} ExtensionKeepsUnder(g: Graph, g': Graph, a: TokenId, id: TokenId)
    requires Forest(g) && Extends(g, g') && id in g
    ensures Under(g', a, id) == Under(g, a, id)
    decreases id
  {
    assert ParentMirrored(g, id);
    if g[id].parent.Some? {
      ExtensionKeepsUnder(g, g', a, g[id].parent.value);
    }
  }

  /** Everything derived from `a` names `a`'s object and holds no right `a` lacks. */
  lemma {:induction false} DelegationAttenuates(g: Graph, a: TokenId, id: TokenId)
    requires Forest(g) && id in g && Under(g, a, id)
    ensures a in g && g[id].objectId == g[a].objectId && Contains(g[a].rights, g[id].rights)
    decreases id
  {
    if id != a {
      assert ParentMirrored(g, id);
      DelegationAttenuates(g, a, g[id].parent.value);
    }
  }
}
