/** Slot numbers of metadata nodes: a depth-first walk of a graph that may have cycles. */
module SlotNumbering {
  import opened Sequences
  import opened MetadataResolution

  ghost function Elements<T>(s: seq<T>): set<T> {
    set x | x in s
  }

  ghost predicate Within(s: seq<Node>, g: set<Node>) {
    forall i :: 0 <= i < |s| ==> s[i] in g
  }

  /** Every node among the operands is in the set. */
  ghost predicate OpsWithin(ops: seq<Operand>, g: set<Node>) {
    forall i :: 0 <= i < |ops| && ops[i].NodeOp? ==> ops[i].node in g
  }

  // ----- the walk, on values

  /** The nodes in the order of their first visit, once n has been visited too. */
  ghost function Visit(g: set<Node>, order: seq<Node>, n: Node): (r: seq<Node>)
    reads g`operands
    requires Closed(g) && Within(order, g) && n in g
    ensures order <= r && Within(r, g) && n in r
    ensures n in order ==> r == order
    decreases g - Elements(order), 0
  {
    if n in order then order else
      assert Elements(order + [n]) == Elements(order) + {n};
      VisitOps(g, order + [n], n.operands)
  }

  ghost function VisitOps(g: set<Node>, order: seq<Node>, ops: seq<Operand>): (r: seq<Node>)
    reads g`operands
    requires Closed(g) && Within(order, g) && OpsWithin(ops, g)
    ensures order <= r && Within(r, g)
    decreases g - Elements(order), 2, |ops|
  {
    if ops == [] then order else
      var next := VisitOp(g, order, ops[0]);
      assert forall x :: x in order ==> x in next;
      VisitOps(g, next, ops[1..])
  }

  ghost function VisitOp(g: set<Node>, order: seq<Node>, op: Operand): (r: seq<Node>)
    reads g`operands
    requires Closed(g) && Within(order, g) && OpsWithin([op], g)
    ensures order <= r && Within(r, g)
    decreases g - Elements(order), 1
  {
    assert op.NodeOp? ==> [op][0].node in g;
    if op.NodeOp? then Visit(g, order, op.node) else order
  }

  // ----- what the walk visits

  /** What a walk from a list of operands adds: new nodes, each once, whose operands have
      been visited too and which lie in every closed set c that holds the start. */
  ghost predicate Adds(g: set<Node>, order: seq<Node>, r: seq<Node>, c: set<Node>)
    reads g`operands
  {
    && order <= r && Distinct(r)
    && (forall i :: |order| <= i < |r| ==> r[i] in g && r[i] in c && OpsWithin(r[i].operands, Elements(r)))
  }

  lemma AddsMore(g: set<Node>, order: seq<Node>, middle: seq<Node>, r: seq<Node>, c: set<Node>)
    requires Adds(g, order, middle, c) && Adds(g, middle, r, c)
    ensures Adds(g, order, r, c)
  {
    assert Elements(middle) <= Elements(r);
    assert forall i :: 0 <= i < |middle| ==> middle[i] == r[i];
  }

  lemma {:induction false} VisitAdds(g: set<Node>, order: seq<Node>, n: Node, c: set<Node>)
    requires Closed(g) && Within(order, g) && n in g && Distinct(order)
    requires c <= g && Closed(c) && n in c
    ensures Adds(g, order, Visit(g, order, n), c)
    decreases g - Elements(order), 0
  {
    if n !in order {
      assert Elements(order + [n]) == Elements(order) + {n};
      var r := Visit(g, order, n);
      VisitOpsAdds(g, order + [n], n.operands, c);
      assert r[|order|] == n;
    }
  }

  lemma {:induction false} VisitOpsAdds(g: set<Node>, order: seq<Node>, ops: seq<Operand>, c: set<Node>)
    requires Closed(g) && Within(order, g) && OpsWithin(ops, g) && Distinct(order)
    requires c <= g && Closed(c) && OpsWithin(ops, c)
    ensures Adds(g, order, VisitOps(g, order, ops), c)
    ensures OpsWithin(ops, Elements(VisitOps(g, order, ops)))
    decreases g - Elements(order), 2, |ops|
  {
    if ops == [] {
    } else {
      var next := VisitOp(g, order, ops[0]);
      if ops[0].NodeOp? {
        VisitAdds(g, order, ops[0].node, c);
      }
      assert forall x :: x in order ==> x in next;
      VisitOpsAdds(g, next, ops[1..], c);
      AddsMore(g, order, next, VisitOps(g, order, ops), c);
      assert Elements(next) <= Elements(VisitOps(g, order, ops));
    }
  }

  // ----- reachability

  /** Each node of the path is an operand of the one before it. */
  ghost predicate Path(p: seq<Node>)
    reads p
  {
    forall i :: 0 <= i < |p| - 1 ==> NodeOp(p[i + 1]) in p[i].operands
  }

  ghost predicate PathBetween(g: set<Node>, p: seq<Node>, a: Node, b: Node)
    reads p
  {
    p != [] && Within(p, g) && Path(p) && p[0] == a && p[|p| - 1] == b
  }

  /** A closed set is never left along a path. */
  lemma {:induction false} PathStays(g: set<Node>, p: seq<Node>, a: Node, b: Node, c: set<Node>)
    requires PathBetween(g, p, a, b) && Closed(c) && a in c
    ensures b in c
    decreases |p|
  {
    if |p| > 1 {
      assert p[0] == a && NodeOp(p[1]) in a.operands;
      var i :| 0 <= i < |a.operands| && a.operands[i] == NodeOp(p[1]);
      assert p[1] in c;
      forall j | 0 <= j < |p[1..]| - 1
        ensures NodeOp(p[1..][j + 1]) in p[1..][j].operands
      {
        assert p[1..][j] == p[j + 1] && p[1..][j + 1] == p[j + 2];
        assert NodeOp(p[j + 1 + 1]) in p[j + 1].operands;
      }
      PathStays(g, p[1..], p[1], b, c);
    }
  }

  /** Every node a walk adds, besides where it starts, was found through an earlier one it added. */
  ghost predicate Found(order: seq<Node>, r: seq<Node>, start: seq<Operand>)
    reads r
  {
    forall i :: |order| <= i < |r| ==> NodeOp(r[i]) in start || exists j :: |order| <= j < i && NodeOp(r[i]) in r[j].operands
  }

  lemma {:induction false} VisitFound(g: set<Node>, order: seq<Node>, n: Node)
    requires Closed(g) && Within(order, g) && n in g
    ensures Found(order, Visit(g, order, n), [NodeOp(n)])
    decreases g - Elements(order), 0
  {
    if n !in order {
      assert Elements(order + [n]) == Elements(order) + {n};
      VisitOpsFound(g, order + [n], n.operands);
      var r := Visit(g, order, n);
      assert r[|order|] == n;
    }
  }

  lemma {:induction false} VisitOpsFound(g: set<Node>, order: seq<Node>, ops: seq<Operand>)
    requires Closed(g) && Within(order, g) && OpsWithin(ops, g)
    ensures Found(order, VisitOps(g, order, ops), ops)
    decreases g - Elements(order), 2, |ops|
  {
    if ops == [] {
    } else {
      var next := VisitOp(g, order, ops[0]);
      if ops[0].NodeOp? {
        VisitFound(g, order, ops[0].node);
      }
      assert forall x :: x in order ==> x in next;
      VisitOpsFound(g, next, ops[1..]);
      var r := VisitOps(g, order, ops);
      assert r == VisitOps(g, next, ops[1..]);
      assert forall i :: 0 <= i < |next| ==> next[i] == r[i];
      assert forall x :: x in ops[1..] ==> x in ops;
    }
  }

  /** A path to each node that was found. */
  lemma {:induction false} FoundPath(g: set<Node>, r: seq<Node>, start: seq<Operand>, i: nat) returns (p: seq<Node>)
    requires Found([], r, start) && Within(r, g) && i < |r|
    ensures p != [] && NodeOp(p[0]) in start && PathBetween(g, p, p[0], r[i])
    decreases i
  {
    if NodeOp(r[i]) in start {
      p := [r[i]];
    } else {
      var j :| 0 <= j < i && NodeOp(r[i]) in r[j].operands;
      var q := FoundPath(g, r, start, j);
      p := q + [r[i]];
      forall k | 0 <= k < |p| - 1
        ensures NodeOp(p[k + 1]) in p[k].operands
      {
        if k < |q| - 1 {
          assert NodeOp(q[k + 1]) in q[k].operands;
        }
      }
    }
  }

  function NodeOps(roots: seq<Node>): (ops: seq<Operand>)
    ensures |ops| == |roots| && forall i :: 0 <= i < |ops| ==> ops[i] == NodeOp(roots[i])
  {
    seq(|roots|, i requires 0 <= i < |roots| => NodeOp(roots[i]))
  }

  /** The order of all nodes found from a list of roots. */
  ghost function Numbered(g: set<Node>, roots: seq<Node>): (r: seq<Node>)
    reads g`operands
    requires Closed(g) && Within(roots, g)
    ensures Within(r, g)
  {
    VisitOps(g, [], NodeOps(roots))
  }

  /** The numbered nodes are, once each, those that a path reaches from a root. */
  lemma NumberedReachable(g: set<Node>, roots: seq<Node>, n: Node)
    requires Closed(g) && Within(roots, g) && n in g
    ensures Distinct(Numbered(g, roots))
    ensures n in Numbered(g, roots) <==> exists p, k :: 0 <= k < |roots| && PathBetween(g, p, roots[k], n)
  {
    var r := Numbered(g, roots);
    var c := Elements(r);
    VisitOpsAdds(g, [], NodeOps(roots), g);
    VisitOpsFound(g, [], NodeOps(roots));
    if n in r {
      var i :| 0 <= i < |r| && r[i] == n;
      var p := FoundPath(g, r, NodeOps(roots), i);
      var k :| 0 <= k < |roots| && NodeOps(roots)[k] == NodeOp(p[0]);
      assert PathBetween(g, p, roots[k], n);
    }
    if p, k :| 0 <= k < |roots| && PathBetween(g, p, roots[k], n) {
      assert NodeOps(roots)[k].node in c;
      PathStays(g, p, roots[k], n, c);
    }
  }

  // ----- the order

  /** The first of the operands that is a node not seen yet. */
  function FirstNew(ops: seq<Operand>, seen: seq<Node>): (r: Operand)
    ensures r.NodeOp? ==> r in ops && r.node !in seen
  {
    if ops == [] then NoOperand
    else if ops[0].NodeOp? && ops[0].node !in seen then ops[0]
    else FirstNew(ops[1..], seen)
  }

  lemma {:induction false} FirstNewMeans(ops: seq<Operand>, seen: seq<Node>)
    ensures var r := FirstNew(ops, seen);
      if r.NodeOp? then
        r.node !in seen && exists i :: 0 <= i < |ops| && ops[i] == r && forall j :: 0 <= j < i && ops[j].NodeOp? ==> ops[j].node in seen
      else forall j :: 0 <= j < |ops| && ops[j].NodeOp? ==> ops[j].node in seen
  {
    if ops != [] {
      FirstNewMeans(ops[1..], seen);
      var r := FirstNew(ops, seen);
      if ops[0].NodeOp? && ops[0].node !in seen {
        assert ops[0] == r;
      } else if r.NodeOp? {
        var i :| 0 <= i < |ops[1..]| && ops[1..][i] == r && forall j :: 0 <= j < i && ops[1..][j].NodeOp? ==> ops[1..][j].node in seen;
        assert ops[i + 1] == r;
        assert forall j :: 0 < j < i + 1 ==> ops[j] == ops[1..][j - 1];
      } else {
        assert forall j :: 0 < j < |ops| ==> ops[j] == ops[1..][j - 1];
      }
    }
  }

  lemma {:induction false} NoneNewLater(ops: seq<Operand>, seen: seq<Node>, later: seq<Node>)
    requires seen <= later && !FirstNew(ops, seen).NodeOp?
    ensures !FirstNew(ops, later).NodeOp?
  {
    if ops != [] {
      NoneNewLater(ops[1..], seen, later);
      assert forall x :: x in seen ==> x in later;
    }
  }

  /** Where slot k goes, among the slots from base on: to the first operand without a slot of
      the latest node that has such an operand, and when none has, to the first of the operands
      that the walk began with. */
  ghost predicate Next(start: seq<Operand>, base: nat, r: seq<Node>, k: nat)
    requires base <= k < |r|
    reads r
  {
    || (exists j :: base <= j < k && FirstNew(r[j].operands, r[..k]) == NodeOp(r[k]) && NoneNew(r, j + 1, k))
    || (NoneNew(r, base, k) && FirstNew(start, r[..k]) == NodeOp(r[k]))
  }

  /** When k slots are given, the nodes in the slots from `from` on have no operand without one. */
  ghost predicate NoneNew(r: seq<Node>, from: nat, k: nat)
    requires k <= |r|
    reads r
  {
    forall i :: from <= i < k ==> !FirstNew(r[i].operands, r[..k]).NodeOp?
  }

  /** Every slot goes where it should, and the walk goes on until nothing is left. */
  ghost predicate InOrder(start: seq<Operand>, base: nat, r: seq<Node>)
    reads r
  {
    && base <= |r|
    && (forall k :: base <= k < |r| ==> Next(start, base, r, k))
    && NoneNew(r, base, |r|) && !FirstNew(start, r).NodeOp?
  }

  /** There is only one such order. */
  lemma OrderUnique(start: seq<Operand>, base: nat, r: seq<Node>, s: seq<Node>)
    requires InOrder(start, base, r) && InOrder(start, base, s) && r[..base] == s[..base]
    ensures r == s
  {
    var k := base;
    while k < |r| && k < |s|
      invariant base <= k <= |r| && k <= |s| && r[..k] == s[..k]
    {
      NextUnique(start, base, r, s, k);
      assert r[..k + 1] == r[..k] + [r[k]] && s[..k + 1] == s[..k] + [s[k]];
      k := k + 1;
    }
    if k < |r| {
      assert s[..k] == s;
      NothingNext(start, base, r, k, s);
    } else if k < |s| {
      assert r[..k] == r;
      NothingNext(start, base, s, k, r);
    }
  }

  lemma NextUnique(start: seq<Operand>, base: nat, r: seq<Node>, s: seq<Node>, k: nat)
    requires base <= k < |r| && k < |s| && r[..k] == s[..k] && Next(start, base, r, k) && Next(start, base, s, k)
    ensures r[k] == s[k]
  {
    assert forall i :: 0 <= i < k ==> r[i] == r[..k][i] && s[i] == s[..k][i];
  }

  lemma NothingNext(start: seq<Operand>, base: nat, r: seq<Node>, k: nat, s: seq<Node>)
    requires base <= k < |r| && s == r[..k] && NoneNew(s, base, |s|) && !FirstNew(start, s).NodeOp?
    ensures !Next(start, base, r, k)
  {
    assert s[..|s|] == s;
    assert forall i :: 0 <= i < k ==> r[i] == s[i];
  }

  lemma SeenFirst(ops: seq<Operand>, seen: seq<Node>)
    requires ops != [] && (ops[0].NodeOp? ==> ops[0].node in seen)
    ensures FirstNew(ops, seen) == FirstNew(ops[1..], seen)
  {
  }

  /** An operand already seen does not matter. */
  lemma SameStart(ops: seq<Operand>, order: seq<Node>, r: seq<Node>)
    requires ops != [] && (ops[0].NodeOp? ==> ops[0].node in order) && order <= r
    requires InOrder(ops[1..], |order|, r)
    ensures InOrder(ops, |order|, r)
  {
    hide FirstNew, NoneNew;
    forall k | |order| <= k < |r|
      ensures Next(ops, |order|, r, k)
    {
      PrefixMembers(order, r, k);
      SeenFirst(ops, r[..k]);
      assert Next(ops[1..], |order|, r, k);
    }
    PrefixMembers(order, r, |r|);
    assert r[..|r|] == r;
    SeenFirst(ops, r);
  }

  lemma PrefixMembers(s: seq<Node>, r: seq<Node>, k: nat)
    requires s <= r && |s| <= k <= |r|
    ensures s <= r[..k] && forall x :: x in s ==> x in r[..k]
  {
  }

  /** What the walk from a node leaves, and the walk from the rest of the operands. */
  lemma JoinOrders(ops: seq<Operand>, base: nat, next: seq<Node>, r: seq<Node>)
    requires ops != [] && base < |next| && ops[0] == NodeOp(next[base]) && next[base] !in next[..base] && next <= r
    requires InOrder(next[base].operands, base + 1, next) && InOrder(ops[1..], |next|, r)
    ensures InOrder(ops, base, r)
  {
    hide FirstNew, NoneNew, Next;
    forall k | base <= k < |r|
      ensures Next(ops, base, r, k)
    {
      if k < |next| {
        assert k > base ==> Next(next[base].operands, base + 1, next, k);
        NextInside(ops, base, next, r, k);
      } else {
        assert Next(ops[1..], |next|, r, k);
        NextBehind(ops, base, next, r, k);
      }
    }
    assert r[..|r|] == r;
    DoneStays(base, next, r, |r|);
    SeenFirst(ops, r);
  }

  lemma NextInside(ops: seq<Operand>, base: nat, next: seq<Node>, r: seq<Node>, k: nat)
    requires ops != [] && base <= k < |next| && ops[0] == NodeOp(next[base]) && next[base] !in next[..base] && next <= r
    requires k > base ==> Next(next[base].operands, base + 1, next, k)
    ensures Next(ops, base, r, k)
  {
    assert r[..k] == next[..k] && forall i :: 0 <= i < |next| ==> r[i] == next[i];
    if k > base {
      hide FirstNew;
    }
  }

  lemma NextBehind(ops: seq<Operand>, base: nat, next: seq<Node>, r: seq<Node>, k: nat)
    requires ops != [] && base < |next| <= k < |r| && ops[0] == NodeOp(next[base]) && next <= r
    requires NoneNew(next, base + 1, |next|) && !FirstNew(next[base].operands, next).NodeOp?
    requires Next(ops[1..], |next|, r, k)
    ensures Next(ops, base, r, k)
  {
    hide FirstNew;
    DoneStays(base, next, r, k);
    PrefixMembers(next, r, k);
    SeenFirst(ops, r[..k]);
  }

  lemma DoneStays(base: nat, next: seq<Node>, r: seq<Node>, k: nat)
    requires base < |next| <= k <= |r| && next <= r
    requires NoneNew(next, base + 1, |next|) && !FirstNew(next[base].operands, next).NodeOp?
    ensures NoneNew(r, |next|, k) ==> NoneNew(r, base, k)
    ensures next[base] in r[..k]
  {
    hide FirstNew;
    assert next[..|next|] == next;
    PrefixMembers(next, r, k);
    forall i | base <= i < |next|
      ensures !FirstNew(r[i].operands, r[..k]).NodeOp?
    {
      assert r[i] == next[i];
      NoneNewLater(next[i].operands, next, r[..k]);
    }
  }

  /** The walk is in that order. */
  lemma {:induction false} VisitOpsInOrder(g: set<Node>, order: seq<Node>, ops: seq<Operand>)
    requires Closed(g) && Within(order, g) && OpsWithin(ops, g)
    ensures InOrder(ops, |order|, VisitOps(g, order, ops))
    decreases g - Elements(order), 2, |ops|
  {
    var r := VisitOps(g, order, ops);
    if ops == [] {
      assert r[..|r|] == r;
    } else {
      var next := VisitOp(g, order, ops[0]);
      assert forall x :: x in order ==> x in next;
      VisitOpsInOrder(g, next, ops[1..]);
      if ops[0].NodeOp? && ops[0].node !in order {
        var n := ops[0].node;
        assert Elements(order + [n]) == Elements(order) + {n};
        VisitOpsInOrder(g, order + [n], n.operands);
        assert Visit(g, order, n) == next;
        JoinOrders(ops, |order|, next, r);
      } else {
        SameStart(ops, order, r);
      }
    }
  }

  lemma VisitInOrder(g: set<Node>, order: seq<Node>, n: Node)
    requires Closed(g) && Within(order, g) && n in g
    ensures InOrder([NodeOp(n)], |order|, Visit(g, order, n))
  {
    assert OpsWithin([NodeOp(n)], g);
    VisitOpsInOrder(g, order, [NodeOp(n)]);
    VisitOpsStep(g, order, [NodeOp(n)]);
    VisitOpsStep(g, Visit(g, order, n), []);
  }

  /** Depth first: whenever a node gets a slot while one of its operands has none, the next
      slot goes to the first such operand. */
  lemma VisitDepthFirst(g: set<Node>, order: seq<Node>, n: Node, k: nat)
    requires Closed(g) && Within(order, g) && n in g
    requires |order| <= k < |Visit(g, order, n)|
    ensures var r := Visit(g, order, n);
      var first := FirstNew(r[k].operands, r[..k + 1]);
      first.NodeOp? ==> k + 1 < |r| && r[k + 1] == first.node
  {
    hide FirstNew, Visit;
    VisitInOrder(g, order, n);
    var r := Visit(g, order, n);
    var first := FirstNew(r[k].operands, r[..k + 1]);
    assert r[..|r|] == r;
    if first.NodeOp? && k + 1 < |r| {
      assert Next([NodeOp(n)], |order|, r, k + 1);
    }
  }

  lemma VisitOpsStep(g: set<Node>, order: seq<Node>, ops: seq<Operand>)
    requires Closed(g) && Within(order, g) && OpsWithin(ops, g)
    ensures VisitOps(g, order, ops) == if ops == [] then order else VisitOps(g, VisitOp(g, order, ops[0]), ops[1..])
  {
  }

  lemma VisitStep(g: set<Node>, order: seq<Node>, n: Node)
    requires Closed(g) && Within(order, g) && n in g
    ensures OpsWithin(n.operands, g) && Within(order + [n], g)
    ensures Visit(g, order, n) == if n in order then order else VisitOps(g, order + [n], n.operands)
  {
    assert Elements(order + [n]) == Elements(order) + {n};
  }

  lemma PrefixElements<T>(s: seq<T>, t: seq<T>)
    requires s <= t
    ensures Elements(s) <= Elements(t)
  {
  }

  // ----- the slot tracker

  class SlotTracker {
    var mdnMap: map<Node, nat>
    var mdnNext: nat
    /** The numbered nodes by slot. */
    ghost var order: seq<Node>

    ghost predicate Valid(g: set<Node>)
      reads this
    {
      && Within(order, g) && Distinct(order) && mdnNext == |order|
      && mdnMap.Keys == Elements(order)
      && forall i :: 0 <= i < |order| ==> mdnMap[order[i]] == i
    }

    constructor ()
      ensures mdnMap == map[] && mdnNext == 0 && order == [] && Valid({})
    {
      mdnMap, mdnNext, order := map[], 0, [];
    }

    /** Number n and what it reaches, in the order of first visits. */
    method CreateMetadataSlot(n: Node, ghost g: set<Node>)
      requires Closed(g) && n in g && Valid(g)
      modifies this
      ensures Valid(g) && old(order) <= order && order == Visit(g, old(order), n)
      ensures InOrder([NodeOp(n)], |old(order)|, order)
      decreases g - Elements(order), 0
    {
      hide InOrder, Visit, VisitOps, Distinct;
      VisitInOrder(g, order, n);
      VisitStep(g, order, n);
      var isNew := Emplace(n, g);
      if isNew {
        CreateOperandSlots(n.operands, g);
      }
    }

    /** The loop over the operands. */
    method CreateOperandSlots(ops: seq<Operand>, ghost g: set<Node>)
      requires Closed(g) && OpsWithin(ops, g) && Valid(g)
      modifies this
      ensures Valid(g) && old(order) <= order && order == VisitOps(g, old(order), ops)
      decreases g - Elements(order), 1
    {
      hide Visit, VisitOps, Elements, Within, Closed, Distinct;
      assert Within(order, g);
      hide Valid;
      ghost var whole := VisitOps(g, order, ops);
      assert ops[0..] == ops;
      var i := 0;
      while i < |ops|
        invariant i <= |ops| && Valid(g) && Within(order, g) && old(order) <= order
        invariant OpsWithin(ops[i..], g) && VisitOps(g, order, ops[i..]) == whole
      {
        assert ops[i..][0] == ops[i] && ops[i..][1..] == ops[i + 1..];
        VisitOpsStep(g, order, ops[i..]);
        PrefixElements(old(order), order);
        if ops[i].NodeOp? {
          CreateMetadataSlot(ops[i].node, g);
        }
        i := i + 1;
      }
      VisitOpsStep(g, order, ops[i..]);
    }

    /** Give n the next slot, unless it has one. */
    method Emplace(n: Node, ghost g: set<Node>) returns (isNew: bool)
      requires n in g && Valid(g)
      modifies this
      ensures Valid(g) && isNew == (n !in old(order))
      ensures order == if isNew then old(order) + [n] else old(order)
      ensures isNew ==> Elements(order) == old(Elements(order)) + {n}
    {
      var destSlot := mdnNext;
      isNew := n !in mdnMap;
      if isNew {
        mdnMap := mdnMap[n := destSlot];
        mdnNext := mdnNext + 1;
        order := order + [n];
        assert Elements(order) == old(Elements(order)) + {n};
      }
    }

    /** Number everything reached from the roots: the slots are dense and first come first
        served. */
    method CreateSlots(roots: seq<Node>, ghost g: set<Node>)
      requires Closed(g) && Within(roots, g) && order == [] && Valid(g)
      modifies this
      ensures Valid(g) && order == Numbered(g, roots)
      ensures InOrder(NodeOps(roots), 0, order)
    {
      hide InOrder, Visit, VisitOps, Elements, Closed, Distinct;
      assert Within(order, g) && OpsWithin(NodeOps(roots), g);
      hide Valid, Within;
      VisitOpsInOrder(g, [], NodeOps(roots));
      var i := 0;
      while i < |roots|
        invariant i <= |roots| && Valid(g) && Within(order, g)
        invariant OpsWithin(NodeOps(roots)[i..], g) && VisitOps(g, order, NodeOps(roots)[i..]) == Numbered(g, roots)
      {
        assert NodeOps(roots)[i..][0] == NodeOp(roots[i]) && NodeOps(roots)[i..][1..] == NodeOps(roots)[i + 1..];
        VisitOpsStep(g, order, NodeOps(roots)[i..]);
        CreateMetadataSlot(roots[i], g);
        i := i + 1;
      }
      VisitOpsStep(g, order, NodeOps(roots)[i..]);
    }

    /** The slot, or -1. */
    method GetMetadataSlot(n: Node, ghost g: set<Node>) returns (slot: int)
      requires Valid(g)
      ensures if n in order then 0 <= slot < |order| && order[slot] == n else slot == -1
    {
      if n in mdnMap {
        ghost var i :| 0 <= i < |order| && order[i] == n;
        slot := mdnMap[n];
      } else {
        slot := -1;
      }
    }

    /** The table for output: whatever the order of the map, every index is filled, with the
        node of that slot. */
    method AllMDNodes(ghost g: set<Node>) returns (nodes: array<Node?>)
      requires Valid(g)
      ensures fresh(nodes) && nodes[..] == order
    {
      DistinctCount(order);
      assert |mdnMap| == |mdnMap.Keys|;
      nodes := new Node?[|mdnMap|](_ => null);
      var left := mdnMap.Items;
      while left != {}
        invariant left <= mdnMap.Items
        invariant forall i :: 0 <= i < |order| ==> (order[i], i) in left || nodes[i] == order[i]
        decreases |left|
      {
        var item :| item in left;
        ghost var i :| 0 <= i < |order| && order[i] == item.0;
        nodes[item.1] := item.0;
        left := left - {item};
      }
    }
  }

  lemma {:induction false} DistinctCount<T>(s: seq<T>)
    requires Distinct(s)
    ensures |Elements(s)| == |s|
  {
    if s == [] {
      assert Elements(s) == {};
    } else {
      var k := |s| - 1;
      DistinctCount(s[..k]);
      assert Elements(s) == Elements(s[..k]) + {s[k]};
    }
  }
}
