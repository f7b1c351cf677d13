/** Metadata nodes that wait for their operands: each unresolved uniqued node counts its
    unresolved operands, and resolving a node counts down at every node that uses it,
    which may resolve that one in turn. */
module MetadataResolution {
  import opened Sequences

  datatype Storage = Uniqued | DistinctNode | Temporary

  /** Leaf stands for any metadata that is not a node. */
  datatype Operand = NoOperand | Leaf | NodeOp(node: Node)

  /** The address of an operand slot. */
  datatype Place = Place(holder: Node, slot: nat)

  class Node {
    var storage: Storage
    var operands: seq<Operand>
    var numUnresolved: nat
    /** The node keeps track of the references to it; it is resolved once it no longer does. */
    var tracking: bool
    /** The tracked references, in the order in which they were added. */
    var uses: seq<Place>
    /** Those of them that were added with their holder as owner. */
    var owned: set<Place>

    constructor (storage: Storage, n: nat)
      ensures this.storage == storage && operands == seq(n, _ => NoOperand)
      ensures numUnresolved == 0 && !tracking && uses == [] && owned == {}
    {
      this.storage := storage;
      operands, numUnresolved, tracking, uses, owned := seq(n, _ => NoOperand), 0, false, [], {};
    }

    predicate IsResolved()
      reads this`tracking
    {
      !tracking
    }

    predicate IsUniqued()
      reads this`storage
    {
      storage == Uniqued
    }

    method AddRef(p: Place, owner: bool)
      modifies this`uses, this`owned
      ensures uses == old(uses) + [p] && owned == if owner then old(owned) + {p} else old(owned)
    {
      uses := uses + [p];
      if owner {
        owned := owned + {p};
      }
    }

    method DropRef(p: Place)
      modifies this`uses, this`owned
      ensures uses == Without(old(uses), p) && owned == old(owned) - {p}
    {
      uses, owned := Without(uses, p), owned - {p};
    }
  }

  // ----- counting

  function Occurrences(ops: seq<Operand>, n: Node): nat {
    if ops == [] then 0 else
      var k := |ops| - 1; Occurrences(ops[..k], n) + if ops[k] == NodeOp(n) then 1 else 0
  }

  /** How many operands are nodes of the set. */
  function Among(ops: seq<Operand>, nodes: set<Node>): nat {
    if ops == [] then 0 else
      var k := |ops| - 1; Among(ops[..k], nodes) + if ops[k].NodeOp? && ops[k].node in nodes then 1 else 0
  }

  /** It is the number of places at which such a node stands. */
  lemma {:induction false} AmongPlaces(ops: seq<Operand>, nodes: set<Node>)
    ensures Among(ops, nodes) == |set i | 0 <= i < |ops| && ops[i].NodeOp? && ops[i].node in nodes|
  {
    var places := set i | 0 <= i < |ops| && ops[i].NodeOp? && ops[i].node in nodes;
    if ops == [] {
      assert places == {};
    } else {
      var k := |ops| - 1;
      AmongPlaces(ops[..k], nodes);
      var before := set i | 0 <= i < |ops[..k]| && ops[..k][i].NodeOp? && ops[..k][i].node in nodes;
      if ops[k].NodeOp? && ops[k].node in nodes {
        assert places == before + {k};
      } else {
        assert places == before;
      }
    }
  }

  lemma {:induction false} AmongWithout(ops: seq<Operand>, nodes: set<Node>, n: Node)
    requires n in nodes
    ensures Among(ops, nodes) == Among(ops, nodes - {n}) + Occurrences(ops, n)
  {
    if ops == [] {
    } else {
      AmongWithout(ops[..|ops| - 1], nodes, n);
    }
  }

  lemma {:induction false} AmongPositive(ops: seq<Operand>, nodes: set<Node>)
    ensures Among(ops, nodes) > 0 <==> exists i :: 0 <= i < |ops| && ops[i].NodeOp? && ops[i].node in nodes
  {
    if ops == [] {
    } else {
      var k := |ops| - 1;
      AmongPositive(ops[..k], nodes);
      if Among(ops[..k], nodes) > 0 {
        var i :| 0 <= i < k && ops[..k][i].NodeOp? && ops[..k][i].node in nodes;
        assert ops[i].NodeOp? && ops[i].node in nodes;
      }
      if i :| 0 <= i < |ops| && ops[i].NodeOp? && ops[i].node in nodes && i < k {
        assert ops[..k][i] == ops[i];
      }
    }
  }

  lemma {:induction false} AmongShrinks(ops: seq<Operand>, nodes: set<Node>, fewer: set<Node>)
    requires fewer <= nodes
    ensures Among(ops, fewer) <= Among(ops, nodes)
  {
    if ops == [] {
    } else {
      AmongShrinks(ops[..|ops| - 1], nodes, fewer);
    }
  }

  lemma {:induction false} AmongUpdate(ops: seq<Operand>, i: nat, op: Operand, nodes: set<Node>)
    requires i < |ops|
    ensures Among(ops[i := op], nodes) + Among([ops[i]], nodes) == Among(ops, nodes) + Among([op], nodes)
  {
    var k := |ops| - 1;
    assert [ops[i]][..0] == [] && [op][..0] == [];
    if i == k {
      assert ops[i := op][..k] == ops[..k];
    } else {
      assert ops[i := op][..k] == ops[..k][i := op];
      AmongUpdate(ops[..k], i, op, nodes);
    }
  }

  function Holders(uses: seq<Place>): seq<Node> {
    if uses == [] then [] else [uses[0].holder] + Holders(uses[1..])
  }

  lemma {:induction false} InHolders(uses: seq<Place>, m: Node)
    requires m in Holders(uses)
    ensures exists p :: p in uses && p.holder == m
  {
    if m == uses[0].holder {
      assert uses[0] in uses;
    } else {
      InHolders(uses[1..], m);
    }
  }

  lemma {:induction false} HoldersWithout(uses: seq<Place>, p: Place)
    requires p in uses
    ensures multiset(Holders(uses)) == multiset(Holders(Without(uses, p))) + multiset{p.holder}
  {
    if uses[0] == p {
    } else {
      HoldersWithout(uses[1..], p);
    }
  }

  lemma WithoutPlaces(uses: seq<Place>, p: Place)
    requires Distinct(uses) && p in uses
    ensures var t := Without(uses, p); Distinct(t) && p !in t && forall q :: q in t <==> q in uses && q != p
  {
    WithoutAt(uses, Pos(uses, p));
    RemoveAtPlaces(uses, Pos(uses, p));
    InWithout(uses, p);
  }

  /** Of the slots of m, with operands ops, the places are those that hold n. */
  ghost predicate HoldsAt(uses: seq<Place>, m: Node, ops: seq<Operand>, n: Node) {
    && (forall i :: 0 <= i < |ops| && ops[i] == NodeOp(n) ==> Place(m, i) in uses)
    && (forall p :: p in uses && p.holder == m ==> p.slot < |ops| && ops[p.slot] == NodeOp(n))
  }

  lemma HoldsBelow(uses: seq<Place>, m: Node, ops: seq<Operand>, n: Node)
    requires Distinct(uses) && ops != [] && HoldsAt(uses, m, ops, n)
    ensures var k := |ops| - 1;
      HoldsAt(if ops[k] == NodeOp(n) then Without(uses, Place(m, k)) else uses, m, ops[..k], n)
  {
    var k := |ops| - 1;
    if ops[k] == NodeOp(n) {
      WithoutPlaces(uses, Place(m, k));
    }
    hide Distinct, Without;
  }

  /** When the tracked places are exactly the slots that hold n, each holder is listed as
      often as n occurs in it. */
  lemma {:induction false} HoldersCount(uses: seq<Place>, m: Node, ops: seq<Operand>, n: Node)
    requires Distinct(uses) && HoldsAt(uses, m, ops, n)
    ensures multiset(Holders(uses))[m] == Occurrences(ops, n)
    decreases |ops|
  {
    if ops == [] {
      if m in Holders(uses) {
        InHolders(uses, m);
      }
    } else {
      HoldsBelow(uses, m, ops, n);
      var k := |ops| - 1;
      if ops[k] == NodeOp(n) {
        var p := Place(m, k);
        WithoutPlaces(uses, p);
        HoldersWithout(uses, p);
        hide Distinct, Without, Holders, HoldsAt;
        HoldersCount(Without(uses, p), m, ops[..k], n);
      } else {
        HoldersCount(uses, m, ops[..k], n);
      }
    }
  }

  // ----- the graph

  ghost function Unresolved(g: set<Node>): set<Node>
    reads g`tracking
  {
    set n | n in g && n.tracking
  }

  ghost predicate Closed(g: set<Node>)
    reads g`operands
  {
    forall m, i :: m in g && 0 <= i < |m.operands| && m.operands[i].NodeOp? ==> m.operands[i].node in g
  }

  /** The places n tracks are, once each, the slots that hold n, besides the hole; they were
      added with an owner when their holder is uniqued, which may have become distinct
      since. */
  ghost predicate TracksUses(n: Node, g: set<Node>, hole: set<Place>)
    reads n`uses, n`owned, g`operands, g`storage
  {
    && Distinct(n.uses)
    && (forall p :: p in n.uses ==> p !in hole && p.holder in g && p.slot < |p.holder.operands| && p.holder.operands[p.slot] == NodeOp(n))
    && (forall m, i :: m in g && 0 <= i < |m.operands| && m.operands[i] == NodeOp(n) && Place(m, i) !in hole ==> Place(m, i) in n.uses)
    && (forall p :: p in n.uses && p !in n.owned ==> !p.holder.IsUniqued())
    && (forall p :: p in n.owned ==> p in n.uses)
    && (forall p :: p in n.owned && !p.holder.IsUniqued() ==> p.holder.storage == DistinctNode)
  }

  ghost predicate TrackedBut(g: set<Node>, hole: set<Place>)
    reads g`operands, g`storage, g`tracking, g`uses, g`owned
  {
    && Closed(g)
    && (forall n :: n in g && n.tracking ==> n.storage != DistinctNode && TracksUses(n, g, hole))
  }

  ghost predicate Tracked(g: set<Node>)
    reads g`operands, g`storage, g`tracking, g`uses, g`owned
  {
    TrackedBut(g, {})
  }

  /** The count of an unresolved uniqued node is the number of its unresolved operands
      plus the number of decrements still pending, and it is not zero.  The node x, which
      is about to be resolved, is excepted. */
  ghost predicate Counted(g: set<Node>, pending: multiset<Node>, x: Node?)
    reads g`operands, g`storage, g`tracking, g`numUnresolved
  {
    forall m :: m in g && m.tracking && m.IsUniqued() && m != x ==>
      m.numUnresolved == Among(m.operands, Unresolved(g)) + pending[m] && m.numUnresolved > 0
  }

  /** A set of unresolved nodes that keep each other unresolved: every uniqued one has an
      operand in the set. */
  ghost predicate Sustained(g: set<Node>, s: set<Node>)
    reads g`operands, g`storage, g`tracking
  {
    && s <= g
    && (forall m :: m in s ==> m.tracking)
    && (forall m :: m in s && m.IsUniqued() ==> Among(m.operands, s) > 0)
  }

  /** With nothing pending, the unresolved nodes sustain themselves: none is left that
      waits for nothing. */
  lemma CountedSustained(g: set<Node>)
    requires Counted(g, multiset{}, null)
    ensures Sustained(g, Unresolved(g))
  {
  }

  /** Of the nodes that were unresolved, those resolved since, besides x, have no
      unresolved operand left. */
  ghost predicate Settled(g: set<Node>, before: set<Node>, x: Node?)
    reads g`operands, g`storage, g`tracking
  {
    && Unresolved(g) <= before <= g
    && (forall m :: m in before && !m.tracking && m != x ==> m.IsUniqued() && Among(m.operands, Unresolved(g)) == 0)
  }

  lemma SettledFirst(g: set<Node>)
    ensures Settled(g, Unresolved(g), null)
  {
    hide Among;
  }

  lemma SettledMeans(g: set<Node>, before: set<Node>)
    requires Settled(g, before, null)
    ensures Unresolved(g) <= before <= g
    ensures forall m :: m in before && m !in Unresolved(g) ==> m.IsUniqued() && Among(m.operands, Unresolved(g)) == 0
  {
    hide Among;
  }

  lemma SettledOn(g: set<Node>, before: set<Node>, middle: set<Node>, x: Node?)
    requires Settled(g, middle, x) && middle <= before <= g
    requires forall m :: m in before && m !in middle && m != x ==> m.IsUniqued() && Among(m.operands, middle) == 0
    ensures Settled(g, before, x)
  {
    forall m | m in before && !m.tracking && m != x
      ensures m.IsUniqued() && Among(m.operands, Unresolved(g)) == 0
    {
      if m !in middle {
        AmongShrinks(m.operands, middle, Unresolved(g));
      }
    }
  }

  // ----- the cascade

  /** The places to notify: all in the graph, and owned exactly by the uniqued holders
      that may be waiting. */
  ghost predicate Notifies(uses: seq<Place>, owned: set<Place>, g: set<Node>)
    reads g`storage, g`tracking
  {
    forall p :: p in uses ==>
      && p.holder in g
      && (p !in owned ==> !p.holder.IsUniqued())
      && (p in owned && !p.holder.IsUniqued() ==> p.holder.IsResolved())
  }

  lemma LaterCount(n: Node, g: set<Node>, m: Node, pending: multiset<Node>)
    requires n in g && n.tracking && Tracked(g) && Counted(g, pending, n)
    requires m in g && m != n && m.tracking && m.IsUniqued()
    ensures m.numUnresolved == Among(m.operands, Unresolved(g) - {n}) + (pending + multiset(Holders(n.uses)))[m]
    ensures m.numUnresolved > 0
  {
    AmongWithout(m.operands, Unresolved(g), n);
    HoldersCount(n.uses, m, m.operands, n);
  }

  method StopTracking(n: Node, ghost g: set<Node>)
    requires n in g && Tracked(g)
    modifies n`tracking, n`numUnresolved, n`uses, n`owned
    ensures Tracked(g) && n.IsResolved() && n.numUnresolved == 0 && n.uses == [] && n.owned == {}
    ensures Unresolved(g) == old(Unresolved(g)) - {n}
  {
    hide TracksUses, Closed;
    n.tracking, n.numUnresolved, n.uses, n.owned := false, 0, [], {};
    forall x | x in g && x.tracking
      ensures x.storage != DistinctNode && TracksUses(x, g, {})
    {
      assert old(TracksUses(x, g, {}));
    }
  }

  /** The first half of resolving: give up the tracked places.  Each of them is a
      decrement that its holder still has to get. */
  method TakeReplaceableUses(n: Node, ghost g: set<Node>, ghost pending: multiset<Node>) returns (uses: seq<Place>, owned: set<Place>)
    requires n in g && n.tracking && Tracked(g) && Counted(g, pending, n)
    modifies n`tracking, n`numUnresolved, n`uses, n`owned
    ensures uses == old(n.uses) && owned == old(n.owned) && Notifies(uses, owned, g)
    ensures Tracked(g) && Counted(g, pending + multiset(Holders(uses)), null)
    ensures n.IsResolved() && Unresolved(g) == old(Unresolved(g)) - {n}
  {
    uses, owned := n.uses, n.owned;
    ghost var later := pending + multiset(Holders(uses));
    ghost var rest := Unresolved(g) - {n};
    forall m | m in g && m != n && m.tracking && m.IsUniqued()
      ensures m.numUnresolved == Among(m.operands, rest) + later[m] && m.numUnresolved > 0
    {
      LaterCount(n, g, m, pending);
    }
    assert Notifies(uses, owned, g);
    hide Tracked, TrackedBut, TracksUses;
    StopTracking(n, g);
    assert Unresolved(g) == rest;
  }

  /** Resolve a node: it stops tracking, and every unresolved owner of a tracked reference
      counts down.  Afterwards the counts are right again; what was resolved besides n has
      no unresolved operand; and no set that sustains itself without n lost a node.  With
      nothing pending, what stays unresolved sustains itself: it is the largest such set. */
  method Resolve(n: Node, ghost g: set<Node>, ghost pending: multiset<Node>, ghost s: set<Node>)
    requires n in g && n.tracking && n.IsUniqued() && Tracked(g) && Counted(g, pending, n)
    requires Sustained(g, s) && n !in s
    modifies g`tracking, g`numUnresolved, g`uses, g`owned
    ensures Tracked(g) && Counted(g, pending, null) && Sustained(g, s)
    ensures n.IsResolved() && Settled(g, old(Unresolved(g)), n)
    ensures pending == multiset{} ==> Sustained(g, Unresolved(g))
    ensures forall m :: m in g && m.tracking ==> old(m.tracking) && m.uses == old(m.uses) && m.owned == old(m.owned)
    decreases Unresolved(g), 0
  {
    hide Tracked, TrackedBut, Counted, Notifies;
    ghost var before := Unresolved(g);
    var uses, owned := TakeReplaceableUses(n, g, pending);
    ResolveAllUses(uses, owned, g, pending, s);
    SettledOn(g, before, before - {n}, n);
    if pending == multiset{} {
      CountedSustained(g);
    }
  }

  /** The loop over the references that were tracked, in the order they were added. */
  method ResolveAllUses(uses: seq<Place>, owned: set<Place>, ghost g: set<Node>, ghost pending: multiset<Node>, ghost s: set<Node>)
    requires Tracked(g) && Counted(g, pending + multiset(Holders(uses)), null) && Sustained(g, s)
    requires Notifies(uses, owned, g)
    modifies g`tracking, g`numUnresolved, g`uses, g`owned
    ensures Tracked(g) && Counted(g, pending, null) && Sustained(g, s)
    ensures Settled(g, old(Unresolved(g)), null)
    ensures forall m :: m in g && m.tracking ==> old(m.tracking) && m.uses == old(m.uses) && m.owned == old(m.owned)
    decreases Unresolved(g), 3
  {
    hide Tracked, TrackedBut, Counted, Sustained, Among, Settled, Unresolved;
    var i := 0;
    SettledFirst(g);
    ghost var left := pending + multiset(Holders(uses));
    assert uses[i..] == uses;
    while i < |uses|
      invariant i <= |uses|
      invariant left == pending + multiset(Holders(uses[i..]))
      invariant Tracked(g) && Counted(g, left, null) && Sustained(g, s)
      invariant Notifies(uses, owned, g)
      invariant Settled(g, old(Unresolved(g)), null)
      invariant forall m :: m in g && m.tracking ==> old(m.tracking) && m.uses == old(m.uses) && m.owned == old(m.owned)
    {
      var p := uses[i];
      ghost var rest := pending + multiset(Holders(uses[i + 1..]));
      assert uses[i..][0] == p && uses[i..][1..] == uses[i + 1..];
      assert left == rest + multiset{p.holder};
      ghost var middle := Unresolved(g);
      SettledMeans(g, old(Unresolved(g)));
      Notify(p, p in owned, g, rest, s);
      SettledMeans(g, middle);
      SettledOn(g, old(Unresolved(g)), middle, null);
      i, left := i + 1, rest;
    }
    assert Holders(uses[i..]) == [];
    assert pending + multiset([]) == pending;
  }

  /** One turn of the loop: an owner that is not resolved counts down. */
  method Notify(p: Place, isOwned: bool, ghost g: set<Node>, ghost pending: multiset<Node>, ghost s: set<Node>)
    requires Tracked(g) && Counted(g, pending + multiset{p.holder}, null) && Sustained(g, s)
    requires p.holder in g && (if isOwned then p.holder.IsUniqued() || p.holder.IsResolved() else !p.holder.IsUniqued())
    modifies g`tracking, g`numUnresolved, g`uses, g`owned
    ensures Tracked(g) && Counted(g, pending, null) && Sustained(g, s)
    ensures Settled(g, old(Unresolved(g)), null)
    ensures forall m :: m in g && m.tracking ==> old(m.tracking) && m.uses == old(m.uses) && m.owned == old(m.owned)
    decreases Unresolved(g), 2
  {
    hide Tracked, TrackedBut, Counted;
    if isOwned && !p.holder.IsResolved() {
      DecrementUnresolvedOperandCount(p.holder, g, pending, s);
    } else {
      NothingToCount(g, pending, p.holder);
    }
  }

  lemma NothingToCount(g: set<Node>, pending: multiset<Node>, m: Node)
    requires Counted(g, pending + multiset{m}, null) && !(m.tracking && m.IsUniqued())
    ensures Counted(g, pending, null)
  {
    assert forall x :: x != m ==> (pending + multiset{m})[x] == pending[x];
  }

  /** The count goes down by one, and a decrement is no longer pending. */
  method CountDown(m: Node, ghost g: set<Node>, ghost pending: multiset<Node>)
    requires m in g && m.tracking && m.IsUniqued() && Tracked(g) && Counted(g, pending + multiset{m}, null)
    modifies m`numUnresolved
    ensures Tracked(g) && Counted(g, pending, m)
    ensures m.numUnresolved == old(m.numUnresolved) - 1 == Among(m.operands, Unresolved(g)) + pending[m]
    ensures Unresolved(g) == old(Unresolved(g))
  {
    hide Tracked, TrackedBut;
    assert (pending + multiset{m})[m] == pending[m] + 1;
    assert forall x :: x != m ==> (pending + multiset{m})[x] == pending[x];
    m.numUnresolved := m.numUnresolved - 1;
  }

  method DecrementUnresolvedOperandCount(m: Node, ghost g: set<Node>, ghost pending: multiset<Node>, ghost s: set<Node>)
    requires m in g && m.tracking && m.IsUniqued() && Tracked(g) && Counted(g, pending + multiset{m}, null)
    requires Sustained(g, s)
    modifies g`tracking, g`numUnresolved, g`uses, g`owned
    ensures Tracked(g) && Counted(g, pending, null) && Sustained(g, s)
    ensures Settled(g, old(Unresolved(g)), null)
    ensures forall x :: x in g && x.tracking ==> old(x.tracking) && x.uses == old(x.uses) && x.owned == old(x.owned)
    decreases Unresolved(g), 1
  {
    hide Tracked, TrackedBut;
    ghost var before := Unresolved(g);
    CountDown(m, g, pending);
    if m.numUnresolved == 0 {
      if m in s {
        AmongShrinks(m.operands, before, s);
      }
      Resolve(m, g, pending, s);
      AmongShrinks(m.operands, before, Unresolved(g));
    }
  }

  // ----- changing an operand

  method Untrack(m: Node, i: nat, ghost g: set<Node>)
    requires m in g && i < |m.operands| && TrackedBut(g, {})
    modifies g`uses, g`owned
    ensures TrackedBut(g, {Place(m, i)})
    ensures forall n :: n in g && (m.operands[i] != NodeOp(n) || !n.tracking) ==> n.uses == old(n.uses) && n.owned == old(n.owned)
    ensures forall n :: n in g && n.tracking && m.operands[i] == NodeOp(n) ==> n.uses == Without(old(n.uses), Place(m, i)) && n.owned == old(n.owned) - {Place(m, i)}
  {
    var op, p := m.operands[i], Place(m, i);
    if op.NodeOp? && op.node.tracking {
      assert p in op.node.uses;
      WithoutPlaces(op.node.uses, p);
      op.node.DropRef(p);
    }
    forall n | n in g && n.tracking
      ensures TracksUses(n, g, {p})
    {
      assert old(TracksUses(n, g, {}));
      assert p !in n.uses;
      forall q | q in n.uses
        ensures q in old(n.uses)
      {
        InWithout(old(n.uses), p);
      }
    }
  }

  method Track(m: Node, i: nat, ghost g: set<Node>)
    requires m in g && i < |m.operands| && TrackedBut(g, {Place(m, i)})
    modifies g`uses, g`owned
    ensures TrackedBut(g, {})
    ensures forall n :: n in g && (m.operands[i] != NodeOp(n) || !n.tracking) ==> n.uses == old(n.uses) && n.owned == old(n.owned)
  {
    var op, p := m.operands[i], Place(m, i);
    if op.NodeOp? && op.node.tracking {
      op.node.AddRef(p, m.IsUniqued());
    }
    forall n | n in g && n.tracking
      ensures TracksUses(n, g, {})
    {
      assert old(TracksUses(n, g, {p}));
    }
  }

  method SetOperand(m: Node, i: nat, op: Operand, ghost g: set<Node>)
    requires m in g && i < |m.operands| && Tracked(g) && (op.NodeOp? ==> op.node in g)
    modifies m`operands, g`uses, g`owned
    ensures Tracked(g) && m.operands == old(m.operands)[i := op]
    ensures var was := old(m.operands[i]);
      was.NodeOp? && was.node.tracking && op != was ==> was.node.uses == Without(old(was.node.uses), Place(m, i))
    ensures forall n :: n in g && !n.tracking ==> n.uses == old(n.uses) && n.owned == old(n.owned)
  {
    Untrack(m, i, g);
    StoreOperand(m, i, op, g);
    Track(m, i, g);
  }

  method StoreOperand(m: Node, i: nat, op: Operand, ghost g: set<Node>)
    requires m in g && i < |m.operands| && TrackedBut(g, {Place(m, i)}) && (op.NodeOp? ==> op.node in g)
    modifies m`operands
    ensures TrackedBut(g, {Place(m, i)}) && m.operands == old(m.operands)[i := op]
  {
    m.operands := m.operands[i := op];
    forall n | n in g && n.tracking
      ensures TracksUses(n, g, {Place(m, i)})
    {
      assert old(TracksUses(n, g, {Place(m, i)}));
    }
  }

  predicate IsOperandUnresolved(op: Operand)
    reads if op.NodeOp? then {op.node} else {}
  {
    op.NodeOp? && !op.node.IsResolved()
  }

  // ----- a new node

  method CountUnresolvedOperands(m: Node, ghost g: set<Node>)
    requires m in g && Closed(g)
    modifies m`numUnresolved
    ensures m.numUnresolved == Among(m.operands, Unresolved(g))
  {
    m.numUnresolved := 0;
    var i := 0;
    while i < |m.operands|
      invariant i <= |m.operands| && m.operands == old(m.operands)
      invariant m.numUnresolved == Among(m.operands[..i], Unresolved(g))
    {
      assert m.operands[..i + 1][..i] == m.operands[..i];
      if IsOperandUnresolved(m.operands[i]) {
        m.numUnresolved := m.numUnresolved + 1;
      }
      i := i + 1;
    }
    assert m.operands[..i] == m.operands;
  }

  ghost predicate Unused(m: Node, g: set<Node>)
    reads g`operands
  {
    forall x, i :: x in g && 0 <= i < |x.operands| ==> x.operands[i] != NodeOp(m)
  }

  lemma {:induction false} NoOccurrence(ops: seq<Operand>, nodes: set<Node>, m: Node)
    requires NodeOp(m) !in ops
    ensures Among(ops, nodes + {m}) == Among(ops, nodes)
  {
    if ops == [] {
    } else {
      NoOccurrence(ops[..|ops| - 1], nodes, m);
    }
  }

  method StartTracking(m: Node, ghost g: set<Node>)
    requires m in g && m.uses == [] && m.owned == {} && m.storage != DistinctNode && Tracked(g) && Unused(m, g)
    modifies m`tracking
    ensures m.tracking && Tracked(g)
  {
    m.tracking := true;
    forall n | n in g && n.tracking
      ensures TracksUses(n, g, {})
    {
      assert n != m ==> old(TracksUses(n, g, {}));
    }
  }

  /** Start tracking a node that no operand holds yet. */
  method MakeReplaceable(m: Node, ghost g: set<Node>)
    requires m in g && !m.tracking && m.uses == [] && m.owned == {} && m.storage != DistinctNode
    requires Tracked(g) && Counted(g, multiset{}, null) && Unused(m, g)
    requires m.IsUniqued() ==> m.numUnresolved == Among(m.operands, Unresolved(g)) > 0
    modifies m`tracking
    ensures m.tracking && Tracked(g) && Counted(g, multiset{}, null)
  {
    hide Tracked, TrackedBut;
    ghost var before := Unresolved(g);
    forall x | x in g
      ensures Among(x.operands, before + {m}) == Among(x.operands, before)
    {
      NoOccurrence(x.operands, before, m);
    }
    StartTracking(m, g);
    assert Unresolved(g) == before + {m};
  }

  lemma CountOf(g: set<Node>, m: Node)
    requires m in g && Counted(g, multiset{}, null)
    ensures Counted(g, multiset{}, m)
    ensures m.tracking && m.IsUniqued() ==> m.numUnresolved == Among(m.operands, Unresolved(g)) > 0
  {
    hide Among, Unresolved;
  }

  /** The store leaves the counts of the other nodes right, and what sustains itself without
      this node. */
  method SetKeeping(m: Node, i: nat, op: Operand, ghost g: set<Node>, ghost s: set<Node>)
    requires m in g && i < |m.operands| && (op.NodeOp? ==> op.node in g)
    requires Tracked(g) && Counted(g, multiset{}, m) && Sustained(g, s) && m !in s
    modifies m`operands, g`uses, g`owned
    ensures Tracked(g) && Counted(g, multiset{}, m) && Sustained(g, s)
    ensures m.operands == old(m.operands)[i := op]
    ensures var was := old(m.operands[i]);
      was.NodeOp? && was.node.tracking && op != was ==> was.node.uses == Without(old(was.node.uses), Place(m, i))
    ensures forall n :: n in g && !n.tracking ==> n.uses == old(n.uses) && n.owned == old(n.owned)
  {
    hide Tracked, TrackedBut, Among, Unresolved, Without;
    SetOperand(m, i, op, g);
    assert Counted(g, multiset{}, m) by { hide Sustained; }
    assert Sustained(g, s) by { hide Counted; }
    hide Counted, Sustained;
  }

  lemma CountedAfterStore(g: set<Node>, m: Node)
    requires Counted(g, multiset{}, m)
    requires m.tracking && m.IsUniqued() ==> m.numUnresolved == Among(m.operands, Unresolved(g)) > 0
    ensures Counted(g, multiset{}, null)
  {
  }

  /** A node that nothing names and that names nothing changes nothing. */
  lemma WithNewNode(m: Node, g: set<Node>, h: set<Node>, s: set<Node>)
    requires m !in g && h == g + {m} && !m.tracking && m.uses == [] && m.owned == {}
    requires forall i :: 0 <= i < |m.operands| ==> m.operands[i] == NoOperand
    requires Tracked(g) && Counted(g, multiset{}, null) && Sustained(g, s)
    ensures Tracked(h) && Counted(h, multiset{}, null) && Sustained(h, s) && Unused(m, h) && Closed(h)
  {
    forall n | n in h && n.tracking
      ensures n.storage != DistinctNode && TracksUses(n, h, {})
    {
      assert TracksUses(n, g, {});
    }
    hide TracksUses, Among;
    assert Unresolved(h) == Unresolved(g);
  }

  lemma NotSustained(m: Node, g: set<Node>, s: set<Node>)
    requires Sustained(g, s) && !m.tracking
    ensures m !in s
  {
  }

  /** An operand of the node that is being made. */
  method StartOperand(m: Node, i: nat, op: Operand, ghost g: set<Node>, ghost s: set<Node>)
    requires m in g && !m.tracking && i < |m.operands| && (op.NodeOp? ==> op.node in g && op.node != m)
    requires Tracked(g) && Counted(g, multiset{}, null) && Sustained(g, s) && Unused(m, g)
    modifies m`operands, g`uses, g`owned
    ensures Tracked(g) && Counted(g, multiset{}, null) && Sustained(g, s) && Unused(m, g)
    ensures m.operands == old(m.operands)[i := op] && m.uses == old(m.uses) && m.owned == old(m.owned)
  {
    hide Tracked, TrackedBut, Counted, Sustained, Among, Unresolved;
    NotSustained(m, g, s);
    CountOf(g, m);
    SetKeeping(m, i, op, g, s);
    CountedAfterStore(g, m);
  }

  method StartOperands(m: Node, ops: seq<Operand>, ghost g: set<Node>, ghost h: set<Node>, ghost s: set<Node>)
    requires m !in g && h == g + {m} && !m.tracking && m.operands == seq(|ops|, _ => NoOperand)
    requires m.uses == [] && m.owned == {}
    requires Tracked(g) && Counted(g, multiset{}, null) && Sustained(g, s)
    requires forall i :: 0 <= i < |ops| && ops[i].NodeOp? ==> ops[i].node in g
    modifies m`operands, h`uses, h`owned
    ensures Tracked(h) && Counted(h, multiset{}, null) && Sustained(h, s) && Unused(m, h) && Closed(h)
    ensures m.operands == ops && m.uses == [] && m.owned == {}
  {
    hide Tracked, TrackedBut, Counted, Sustained, Closed, Unused, Among, Unresolved;
    WithNewNode(m, g, h, s);
    var i := 0;
    while i < |ops|
      invariant i <= |ops| && m.operands == ops[..i] + seq(|ops| - i, _ => NoOperand)
      invariant Tracked(h) && Counted(h, multiset{}, null) && Sustained(h, s) && Unused(m, h)
      invariant m.uses == [] && m.owned == {}
    {
      StartOperand(m, i, ops[i], h, s);
      i := i + 1;
    }
    TrackedClosed(h);
  }

  lemma TrackedClosed(g: set<Node>)
    requires Tracked(g)
    ensures Closed(g)
  {
  }

  /** A node whose operands are in place starts to wait for them, if there is reason to. */
  method StartWaiting(m: Node, ghost g: set<Node>, ghost s: set<Node>)
    requires m in g && !m.tracking && m.uses == [] && m.owned == {}
    requires Tracked(g) && Counted(g, multiset{}, null) && Sustained(g, s) && Unused(m, g) && Closed(g)
    modifies m`numUnresolved, m`tracking
    ensures Tracked(g) && Counted(g, multiset{}, null) && Sustained(g, s)
    ensures m.tracking <==> m.storage == Temporary || (m.storage == Uniqued && Among(m.operands, old(Unresolved(g))) > 0)
  {
    hide Tracked, TrackedBut, Among, Closed, Unused, Unresolved;
    if m.storage != DistinctNode {
      if m.storage == Uniqued {
        CountUnresolvedOperands(m, g);
        if m.numUnresolved == 0 {
          return;
        }
      }
      MakeReplaceable(m, g);
    }
  }

  /** The constructor: the operands are set one by one, an unresolved one then tracks its
      slot; a temporary node, or a uniqued one with an unresolved operand, starts out
      unresolved. */
  method NewNode(storage: Storage, ops: seq<Operand>, ghost g: set<Node>, ghost s: set<Node>) returns (m: Node)
    requires Tracked(g) && Counted(g, multiset{}, null) && Sustained(g, s)
    requires forall i :: 0 <= i < |ops| && ops[i].NodeOp? ==> ops[i].node in g
    modifies g`uses, g`owned
    ensures fresh(m) && m.storage == storage && m.operands == ops
    ensures Tracked(g + {m}) && Counted(g + {m}, multiset{}, null) && Sustained(g + {m}, s)
    ensures m.tracking <==> storage == Temporary || (storage == Uniqued && Among(ops, old(Unresolved(g))) > 0)
  {
    hide Tracked, TrackedBut, Counted, Sustained, Among, Closed, Unused;
    ghost var unresolved := Unresolved(g);
    m := new Node(storage, |ops|);
    ghost var h := g + {m};
    StartOperands(m, ops, g, h, s);
    assert Unresolved(h) == unresolved;
    hide Unresolved;
    StartWaiting(m, h, s);
  }

  // ----- replacing an operand, and a temporary node

  /** The count follows the operand that changed. */
  method ResolveAfterOperandChange(m: Node, was: Operand, op: Operand, ghost g: set<Node>, ghost s: set<Node>)
    requires m in g && m.tracking && m.IsUniqued() && Tracked(g) && Counted(g, multiset{}, m)
    requires (was.NodeOp? ==> was.node in g) && (op.NodeOp? ==> op.node in g)
    requires m.numUnresolved > 0
    requires m.numUnresolved + Among([op], Unresolved(g)) == Among(m.operands, Unresolved(g)) + Among([was], Unresolved(g))
    requires Sustained(g, s)
    modifies g`tracking, g`numUnresolved, g`uses, g`owned
    ensures Tracked(g) && Counted(g, multiset{}, null) && Sustained(g, s)
    ensures Settled(g, old(Unresolved(g)), null)
    ensures forall x :: x in g && x.tracking ==> old(x.tracking) && x.uses == old(x.uses) && x.owned == old(x.owned)
  {
    AmongOne(op, Unresolved(g));
    AmongOne(was, Unresolved(g));
    hide Tracked, TrackedBut, Sustained, Among;
    if !IsOperandUnresolved(was) {
      if IsOperandUnresolved(op) {
        m.numUnresolved := m.numUnresolved + 1;
      }
      CountedAfterStore(g, m);
    } else if !IsOperandUnresolved(op) {
      assert multiset{} + multiset{m} == multiset{m};
      CountedPending(g, m);
      DecrementUnresolvedOperandCount(m, g, multiset{}, s);
    } else {
      CountedAfterStore(g, m);
    }
  }

  lemma AmongOne(op: Operand, nodes: set<Node>)
    ensures Among([op], nodes) == if op.NodeOp? && op.node in nodes then 1 else 0
  {
    assert [op][..0] == [];
  }

  lemma CountedPending(g: set<Node>, m: Node)
    requires m in g && Counted(g, multiset{}, m) && m.numUnresolved == Among(m.operands, Unresolved(g)) + 1
    ensures Counted(g, multiset{} + multiset{m}, null)
  {
    assert forall x :: (multiset{} + multiset{m})[x] == if x == m then 1 else 0;
  }

  /** A node that is resolved becomes distinct; x is the node excepted from settling. */
  method BecomeDistinct(m: Node, ghost g: set<Node>, ghost s: set<Node>, ghost before: set<Node>, ghost x: Node?)
    requires m in g && m.IsResolved() && Tracked(g) && Counted(g, multiset{}, m) && Sustained(g, s) && Settled(g, before, x)
    requires m !in before || m == x
    modifies m`storage
    ensures Tracked(g) && Counted(g, multiset{}, null) && Sustained(g, s) && Settled(g, before, x)
    ensures m.storage == DistinctNode
  {
    m.storage := DistinctNode;
    hide Among;
    forall n | n in g && n.tracking
      ensures n.storage != DistinctNode && TracksUses(n, g, {})
    {
      assert old(TracksUses(n, g, {}));
    }
  }

  /** The first step of a change at m: the operand is stored, and m's own count is behind. */
  method ChangeOperand(m: Node, i: nat, op: Operand, ghost g: set<Node>, ghost s: set<Node>)
    requires m in g && i < |m.operands| && (op.NodeOp? ==> op.node in g)
    requires Tracked(g) && Counted(g, multiset{}, null) && Sustained(g, s) && m !in s
    modifies m`operands, g`uses, g`owned
    ensures Tracked(g) && Counted(g, multiset{}, m) && Sustained(g, s)
    ensures m.operands == old(m.operands)[i := op]
    ensures var was := old(m.operands[i]);
      was.NodeOp? && was.node.tracking && op != was ==> was.node.uses == Without(old(was.node.uses), Place(m, i))
    ensures m.tracking && m.IsUniqued() ==>
      && m.numUnresolved > 0
      && m.numUnresolved + Among([op], Unresolved(g)) == Among(m.operands, Unresolved(g)) + Among([old(m.operands[i])], Unresolved(g))
  {
    hide Tracked, TrackedBut, Among, Unresolved, Without, Counted, Sustained;
    AmongUpdate(m.operands, i, op, Unresolved(g));
    CountOf(g, m);
    SetKeeping(m, i, op, g, s);
  }

  /** A node that holds itself is resolved, whatever else it holds, and becomes distinct. */
  method ResolveSelfReference(m: Node, ghost g: set<Node>, ghost s: set<Node>)
    requires m in g && m.IsUniqued() && Tracked(g) && Counted(g, multiset{}, m) && Sustained(g, s) && m !in s
    modifies m`storage, g`tracking, g`numUnresolved, g`uses, g`owned
    ensures Tracked(g) && Counted(g, multiset{}, null) && Sustained(g, s)
    ensures Settled(g, old(Unresolved(g)), m) && m.storage == DistinctNode && m.IsResolved()
    ensures forall x :: x in g && x.tracking ==> old(x.tracking) && x.uses == old(x.uses) && x.owned == old(x.owned)
  {
    hide Tracked, TrackedBut, Among, Counted, Sustained;
    ghost var before := Unresolved(g);
    if !m.IsResolved() {
      Resolve(m, g, multiset{}, s);
      CountedWeaker(g, m);
    }
    BecomeDistinct(m, g, s, before, m);
  }

  lemma OperandsWithin(m: Node, g: set<Node>)
    requires m in g && Tracked(g)
    ensures forall i :: 0 <= i < |m.operands| && m.operands[i].NodeOp? ==> m.operands[i].node in g
  {
  }

  /** An operand of m is replaced.  Here unique says whether uniquing leaves m in place;
      when it does not, m is resolved. */
  method HandleChangedOperand(m: Node, i: nat, op: Operand, unique: bool, ghost g: set<Node>, ghost s: set<Node>)
    requires m in g && i < |m.operands| && (op.NodeOp? ==> op.node in g)
    requires Tracked(g) && Counted(g, multiset{}, null) && Sustained(g, s) && m !in s
    requires unique || m.IsResolved()
    modifies m`operands, m`storage, g`tracking, g`numUnresolved, g`uses, g`owned
    ensures Tracked(g) && Counted(g, multiset{}, null) && Sustained(g, s)
    ensures m.operands == old(m.operands)[i := op]
    ensures Settled(g, old(Unresolved(g)), if op == NodeOp(m) then m else null)
    ensures var was := old(m.operands[i]);
      was.NodeOp? && was.node.tracking && op != was ==> was.node.uses == Without(old(was.node.uses), Place(m, i))
    ensures m.storage == if old(m.IsUniqued()) && (op == NodeOp(m) || !unique) then DistinctNode else old(m.storage)
  {
    hide Tracked, TrackedBut, Among, Counted, Sustained, Without;
    var was := m.operands[i];
    OperandsWithin(m, g);
    ghost var before := Unresolved(g);
    ChangeOperand(m, i, op, g, s);
    if m.IsUniqued() {
      if op == NodeOp(m) {
        ResolveSelfReference(m, g, s);
      } else if unique {
        if m.IsResolved() {
          CountedAfterStore(g, m);
        } else {
          ResolveAfterOperandChange(m, was, op, g, s);
        }
      } else {
        BecomeDistinct(m, g, s, before, null);
      }
    } else {
      CountedAfterStore(g, m);
    }
  }

  lemma CountedWeaker(g: set<Node>, m: Node)
    requires Counted(g, multiset{}, null)
    ensures Counted(g, multiset{}, m)
  {
  }

  /** What replacing t by op makes of an operand. */
  function Replaced(x: Operand, t: Node, op: Operand): Operand {
    if x == NodeOp(t) then op else x
  }

  ghost function Operands(g: set<Node>): map<Node, seq<Operand>>
    reads g`operands
  {
    map m | m in g :: m.operands
  }

  /** Every slot holds what replacing t makes of it, besides those still to come. */
  ghost predicate ReplacedBut(were: map<Node, seq<Operand>>, are: map<Node, seq<Operand>>, t: Node, op: Operand, left: seq<Place>) {
    && are.Keys == were.Keys
    && (forall m :: m in are ==> |are[m]| == |were[m]|)
    && (forall m, i :: m in are && 0 <= i < |are[m]| ==> are[m][i] == if Place(m, i) in left then were[m][i] else Replaced(were[m][i], t, op))
  }

  lemma ReplacedStep(were: map<Node, seq<Operand>>, are: map<Node, seq<Operand>>, t: Node, op: Operand, left: seq<Place>)
    requires ReplacedBut(were, are, t, op, left) && Distinct(left) && left != []
    requires left[0].holder in are && left[0].slot < |are[left[0].holder]| && are[left[0].holder][left[0].slot] == NodeOp(t)
    ensures ReplacedBut(were, are[left[0].holder := are[left[0].holder][left[0].slot := op]], t, op, left[1..])
  {
    assert left[0] !in left[1..];
    assert forall q :: q in left <==> q == left[0] || q in left[1..];
  }

  /** What was resolved had no unresolved operand, so it does not hold t. */
  lemma SettledHolder(g: set<Node>, before: set<Node>, x: Node?, m: Node, i: nat, t: Node)
    requires Settled(g, before, x) && m in before && !m.tracking && m != x && t in g && t.tracking
    requires i < |m.operands|
    ensures m.operands[i] != NodeOp(t)
  {
    AmongPositive(m.operands, Unresolved(g));
  }

  lemma UnownedHolder(t: Node, p: Place, g: set<Node>)
    requires t in g && t.tracking && p in t.uses && p !in t.owned && Tracked(g)
    ensures !p.holder.IsUniqued()
  {
    assert TracksUses(t, g, {});
  }

  method ReplaceOne(t: Node, p: Place, op: Operand, ghost g: set<Node>, ghost s: set<Node>)
    requires t in g && t.tracking && t.storage == Temporary && p in t.uses && p.holder in g && p.holder !in s
    requires p.slot < |p.holder.operands| && p.holder.operands[p.slot] == NodeOp(t)
    requires op.NodeOp? ==> op.node in g && op.node.storage != Temporary
    requires Tracked(g) && Counted(g, multiset{}, null) && Sustained(g, s)
    modifies p.holder`operands, p.holder`storage, g`tracking, g`numUnresolved, g`uses, g`owned
    ensures Tracked(g) && Counted(g, multiset{}, null) && Sustained(g, s)
    ensures t.tracking && t.uses == Without(old(t.uses), p)
    ensures p.holder.operands == old(p.holder.operands)[p.slot := op]
    ensures p.holder.storage == Temporary <==> old(p.holder.storage) == Temporary
    ensures Settled(g, old(Unresolved(g)), if op.NodeOp? then op.node else null)
  {
    hide Tracked, TrackedBut, Counted, Sustained, Among;
    if p in t.owned {
      HandleChangedOperand(p.holder, p.slot, op, true, g, s);
    } else {
      UnownedHolder(t, p, g);
      ChangeOperand(p.holder, p.slot, op, g, s);
      CountedAfterStore(g, p.holder);
    }
  }

  /** One turn of the loop. */
  method ReplaceNext(t: Node, p: Place, op: Operand, ghost g: set<Node>, ghost s: set<Node>, ghost before: set<Node>)
    requires t in g && t.tracking && t.storage == Temporary && p in t.uses && p.holder !in s
    requires op.NodeOp? ==> op.node in g && op.node.storage != Temporary
    requires Tracked(g) && Counted(g, multiset{}, null) && Sustained(g, s)
    requires Settled(g, before, if op.NodeOp? then op.node else null)
    modifies p.holder`operands, p.holder`storage, g`tracking, g`numUnresolved, g`uses, g`owned
    ensures Tracked(g) && Counted(g, multiset{}, null) && Sustained(g, s)
    ensures t.tracking && t.uses == Without(old(t.uses), p)
    ensures p.holder in g && p.slot < |old(p.holder.operands)| && old(p.holder.operands[p.slot]) == NodeOp(t)
    ensures p.holder.operands == old(p.holder.operands)[p.slot := op]
    ensures p.holder.storage == Temporary <==> old(p.holder.storage) == Temporary
    ensures Settled(g, before, if op.NodeOp? then op.node else null)
  {
    assert TracksUses(t, g, {});
    assert p.holder in g && p.slot < |p.holder.operands| && p.holder.operands[p.slot] == NodeOp(t);
    ghost var x := if op.NodeOp? then op.node else null;
    ghost var middle := Unresolved(g);
    if p.holder in before && !p.holder.tracking && p.holder != x {
      SettledHolder(g, before, x, p.holder, p.slot, t);
      assert false;
    }
    assert forall m :: m in before && m !in middle && m != x ==> m != p.holder && m.IsUniqued() && Among(m.operands, middle) == 0;
    assert middle <= before <= g;
    hide Tracked, TrackedBut, TracksUses, Sustained, Counted, Settled, Among;
    ReplaceOne(t, p, op, g, s);
    SettledOn(g, before, middle, x);
  }

  /** How far the replacement has come: left are the references still to change. */
  ghost predicate Replacing(t: Node, op: Operand, g: set<Node>, before: set<Node>, were: map<Node, seq<Operand>>, left: seq<Place>)
    reads t, g
  {
    && t in g && t.storage == Temporary
    && Tracked(g) && Counted(g, multiset{}, null)
    && (op.NodeOp? ==> op.node in g && op.node.storage != Temporary)
    && ReplacedBut(were, Operands(g), t, op, left)
    && Settled(g, before, if op.NodeOp? then op.node else null)
  }

  lemma NextTurn(t: Node, op: Operand, g: set<Node>, before: set<Node>, were: map<Node, seq<Operand>>, left: seq<Place>)
    requires Replacing(t, op, g, before, were, left)
    requires t.tracking && t.uses == left && left != []
    ensures var p, are := left[0], Operands(g);
      && p.holder in g && p.slot < |p.holder.operands| && Without(left, p) == left[1..]
      && ReplacedBut(were, are[p.holder := are[p.holder][p.slot := op]], t, op, left[1..])
  {
    assert TracksUses(t, g, {});
    hide Tracked, TrackedBut, Counted, Settled;
    ReplacedStep(were, Operands(g), t, op, left);
  }

  method ReplaceTurn(t: Node, op: Operand, ghost g: set<Node>, ghost s: set<Node>,
                     ghost before: set<Node>, ghost were: map<Node, seq<Operand>>, p: Place, ghost left: seq<Place>)
    requires Replacing(t, op, g, before, were, left) && Sustained(g, s)
    requires t.tracking && t.uses == left && left != [] && left[0] == p && p.holder !in s
    modifies g
    ensures Replacing(t, op, g, before, were, left[1..]) && Sustained(g, s)
    ensures t.tracking && t.uses == left[1..]
  {
    hide Tracked, TrackedBut, TracksUses, Counted, Sustained, Settled, ReplacedBut, Distinct, Without;
    NextTurn(t, op, g, before, were, left);
    ghost var are := Operands(g);
    ReplaceNext(t, p, op, g, s, before);
    assert Operands(g) == are[p.holder := are[p.holder][p.slot := op]];
  }

  /** Replace a temporary node everywhere, in the order in which its references were added:
      afterwards no slot holds it, every other slot is as before, and the counts are right.
      Each uniqued holder is taken to stay unique.  What the replacement resolves, besides a
      node that now holds itself, has no unresolved operand. */
  method ReplaceAllUsesWith(t: Node, op: Operand, ghost g: set<Node>, ghost s: set<Node>)
    requires t in g && t.tracking && t.storage == Temporary
    requires op.NodeOp? ==> op.node in g && op.node.storage != Temporary
    requires Tracked(g) && Counted(g, multiset{}, null) && Sustained(g, s)
    requires forall p :: p in t.uses ==> p.holder !in s
    modifies g
    ensures Tracked(g) && Counted(g, multiset{}, null) && Sustained(g, s)
    ensures t.tracking && t.uses == []
    ensures ReplacedBut(old(Operands(g)), Operands(g), t, op, [])
    ensures Settled(g, old(Unresolved(g)), if op.NodeOp? then op.node else null)
  {
    hide Tracked, TrackedBut, Counted, Sustained, Settled, ReplacedBut, Replacing;
    var uses := t.uses;
    ghost var before, were := Unresolved(g), Operands(g);
    StartReplacing(t, op, g);
    assert uses[0..] == uses;
    var k := 0;
    while k < |uses|
      invariant k <= |uses| && Replacing(t, op, g, before, were, uses[k..]) && Sustained(g, s)
      invariant t.tracking && t.uses == uses[k..]
    {
      var p := uses[k];
      assert uses[k..][0] == p && uses[k..][1..] == uses[k + 1..];
      if p in t.uses {
        ReplaceTurn(t, op, g, s, before, were, p, uses[k..]);
      }
      k := k + 1;
    }
    assert uses[k..] == [];
    EndReplacing(t, op, g, before, were);
  }

  lemma StartReplacing(t: Node, op: Operand, g: set<Node>)
    requires t in g && t.tracking && t.storage == Temporary
    requires op.NodeOp? ==> op.node in g && op.node.storage != Temporary
    requires Tracked(g) && Counted(g, multiset{}, null)
    ensures Replacing(t, op, g, Unresolved(g), Operands(g), t.uses)
  {
    assert TracksUses(t, g, {});
    hide Distinct, Counted, Among;
  }

  lemma EndReplacing(t: Node, op: Operand, g: set<Node>, before: set<Node>, were: map<Node, seq<Operand>>)
    requires Replacing(t, op, g, before, were, [])
    ensures Tracked(g) && Counted(g, multiset{}, null) && ReplacedBut(were, Operands(g), t, op, [])
    ensures Settled(g, before, if op.NodeOp? then op.node else null)
  {
    hide Tracked, Counted, Settled, ReplacedBut;
  }

  // ----- what is left unresolved

  /** Only uniqued nodes are unresolved, and each ranks above its unresolved operands. */
  ghost predicate Ranked(g: set<Node>, rank: map<Node, nat>)
    reads g
    requires Closed(g)
  {
    && (forall m :: m in g && m.tracking ==> m.IsUniqued() && m in rank)
    && (forall m, i :: m in g && m.tracking && 0 <= i < |m.operands| && IsOperandUnresolved(m.operands[i]) ==>
        m.operands[i].node in rank && rank[m.operands[i].node] < rank[m])
  }

  /** Once no temporary node is left, a node stays unresolved only on account of a cycle:
      when every unresolved operand ranks below its user, nothing is unresolved. */
  lemma OnlyCyclesWait(g: set<Node>, rank: map<Node, nat>)
    requires Tracked(g) && Counted(g, multiset{}, null)
    requires Ranked(g, rank)
    ensures Unresolved(g) == {}
  {
    forall m | m in g
      ensures m.IsResolved()
    {
      RankedResolved(g, rank, m);
    }
  }

  lemma {:induction false} RankedResolved(g: set<Node>, rank: map<Node, nat>, m: Node)
    requires m in g && Tracked(g) && Counted(g, multiset{}, null)
    requires Ranked(g, rank)
    ensures m.IsResolved()
    decreases if m in rank then rank[m] + 1 else 0
  {
    if m.tracking {
      AmongPositive(m.operands, Unresolved(g));
      var i :| 0 <= i < |m.operands| && m.operands[i].NodeOp? && m.operands[i].node in Unresolved(g);
      RankedResolved(g, rank, m.operands[i].node);
    }
  }
}
