/** Use lists: every value heads an intrusive doubly linked list of the uses that
    name it.  A use's back pointer is the link cell that holds the use: the head of
    the list or the `next` field of the use before it. */
module Uses {
  import opened Bits
  import opened Sequences
  import opened StableMerge

  /** The cell a back pointer names. */
  datatype Link = Unlinked | HeadOf(owner: Value) | NextOf(node: Use)

  /** The waymarking tag of a slot in an operand array. */
  datatype Tag = ZeroDigit | OneDigit | Stop | FullStop

  function At(s: seq<Use>, i: nat): Use? {
    if i < |s| then s[i] else null
  }

  /** The cell that holds the i-th use of v's list. */
  ghost function LinkAt(v: Value, s: seq<Use>, i: nat): Link
    requires i <= |s|
  {
    if i == 0 then HeadOf(v) else NextOf(s[i - 1])
  }

  /** A singly linked chain: from its head, `next` visits s and ends. */
  ghost predicate Chain(head: Use?, s: seq<Use>)
    reads s
  {
    && head == At(s, 0)
    && forall i {:trigger s[i].next} :: 0 <= i < |s| ==> s[i].next == At(s, i + 1)
  }

  /** Following `next` from the head visits exactly `uses`, and every back pointer
      names the link that reaches its use. */
  ghost predicate WellLinked(v: Value)
    reads v, v.uses
  {
    && Distinct(v.uses)
    && v.useList == At(v.uses, 0)
    && (forall i {:trigger v.uses[i].val} :: 0 <= i < |v.uses| ==> v.uses[i].val == v)
    && (forall i {:trigger v.uses[i].next} :: 0 <= i < |v.uses| ==> v.uses[i].next == At(v.uses, i + 1))
    && (forall i {:trigger v.uses[i].prev} :: 0 <= i < |v.uses| ==> v.uses[i].prev == LinkAt(v, v.uses, i))
  }

  /** A part of the program: some values and the uses that may name them. */
  datatype Graph = Graph(values: set<Value>, pool: set<Use>)

  /** Every list is well linked and holds exactly the uses that name its value, each
      once, but for the uses that are being moved and are in no list. */
  ghost predicate IntegrityExcept(g: Graph, moving: set<Use>)
    reads g.values, g.pool
  {
    && (forall v :: v in g.values ==> forall i :: 0 <= i < |v.uses| ==> v.uses[i] in g.pool - moving)
    && (forall v :: v in g.values ==> WellLinked(v))
    && (forall u :: u in g.pool - moving && u.val != null ==> u.val in g.values && u in u.val.uses)
  }

  ghost predicate Integrity(g: Graph)
    reads g.values, g.pool
  {
    IntegrityExcept(g, {})
  }

  class Value {
    var useList: Use?
    /** The list, first to last. */
    ghost var uses: seq<Use>

    constructor ()
      ensures useList == null && uses == []
    {
      useList := null;
      uses := [];
    }

    /** The first use comes to name newVal and is first in its list. */
    method MoveFirst(newVal: Value, ghost g: Graph)
      requires Integrity(g) && this in g.values && newVal in g.values && newVal != this && useList != null
      modifies g.values, useList`val, g.pool`next, g.pool`prev
      ensures Integrity(g) && old(uses) != [] && useList == At(uses, 0)
      ensures uses == old(uses)[1..] && newVal.uses == [old(uses)[0]] + old(newVal.uses)
      ensures forall w :: w in g.values && w != this && w != newVal ==> w.uses == old(w.uses)
      ensures old(useList) == old(uses)[0] && old(useList) in g.pool && old(useList).val == newVal
    {
      hide Without, IntegrityExcept, WellLinked;
      ListFacts(this, g);
      useList.Set(newVal, g);
      ListFacts(this, g);
    }

    /** Every use of this value comes to name newVal, and joins its list in reverse. */
    method ReplaceAllUsesWith(newVal: Value, ghost g: Graph)
      requires Integrity(g) && this in g.values && newVal in g.values && newVal != this
      modifies g.values, g.pool`val, g.pool`next, g.pool`prev
      ensures Integrity(g) && useList == null && uses == []
      ensures newVal.uses == Reversed(old(uses)) + old(newVal.uses)
      ensures forall w :: w in g.values && w != this && w != newVal ==> w.uses == old(w.uses)
      ensures forall u :: u in g.pool ==> u.val == if u in old(uses) then newVal else old(u.val)
    {
      hide Without, IntegrityExcept, WellLinked;
      ghost var all := uses;
      ghost var done: seq<Use> := [];
      ReversedMove(done, uses, newVal.uses);
      ListFacts(this, g);
      while useList != null
        invariant Integrity(g) && useList == At(uses, 0)
        invariant done + uses == all
        invariant newVal.uses == Reversed(done) + old(newVal.uses)
        invariant forall w :: w in g.values && w != this && w != newVal ==> w.uses == old(w.uses)
        invariant forall u :: u in g.pool ==> u.val == if u in done then newVal else old(u.val)
        decreases |uses|
      {
        ListFacts(this, g);
        ReversedMove(done, uses, old(newVal.uses));
        done := done + [uses[0]];
        MoveFirst(newVal, g);
      }
      assert done == all;
    }

    // ----- sorting

    /** Merge two sorted chains and write the head of the result to the cell
        `next.next`.  On a tie the left chain goes first. */
    static method MergeUseListsImpl(l: Use?, r: Use?, next: Use, cmp: (Use, Use) -> bool, ghost sl: seq<Use>, ghost sr: seq<Use>)
      requires Chain(l, sl) && Chain(r, sr) && Distinct(sl) && Distinct(sr) && Apart(sl, sr) && next !in sl + sr
      modifies next`next, sl`next, sr`next
      ensures Chain(next.next, Merge(sl, sr, cmp))
      decreases |sl| + |sr|
    {
      hide Merge, Distinct, Chain;
      MergeCases(l, r, sl, sr, cmp);
      if l == null {
        next.next := r;
        return;
      }
      if r == null {
        next.next := l;
        return;
      }
      Tails(sl, sr);
      if cmp(r, l) {
        next.next := r;
        MergeUseListsImpl(l, r.next, r, cmp, sl, sr[1..]);
        ChainCons(r, Merge(sl, sr[1..], cmp));
        return;
      }
      next.next := l;
      MergeUseListsImpl(l.next, r, l, cmp, sl[1..], sr);
      ChainCons(l, Merge(sl[1..], sr, cmp));
    }

    static method MergeUseLists(l: Use?, r: Use?, cmp: (Use, Use) -> bool, ghost sl: seq<Use>, ghost sr: seq<Use>) returns (merged: Use?)
      requires Chain(l, sl) && Chain(r, sr) && Distinct(sl) && Distinct(sr) && Apart(sl, sr)
      modifies sl`next, sr`next
      ensures Chain(merged, Merge(sl, sr, cmp))
    {
      // The local cell that receives the head of the merged chain.
      var cell := new Use();
      MergeUseListsImpl(l, r, cell, cmp, sl, sr);
      merged := cell.next;
    }

    /** Find the place of the use at c: merge it with the full slots below the first
        empty one.  `i` is that slot; the slots below it come out empty. */
    static method FindSlot(slots: array<Use?>, numSlots: nat, use: Use, cmp: (Use, Use) -> bool,
                           ghost lists: seq<seq<Use>>, ghost s: seq<Use>, ghost c: nat)
      returns (i: nat, current: Use?, ghost t: seq<Use>)
      requires numSlots == |lists| <= slots.Length && Distinct(s) && c < |s| && c < Pow2(numSlots)
      requires SlotsHold(slots, lists, s, c, 0, cmp)
      requires use == s[c] && use.next == null
      modifies slots, s`next
      ensures i <= numSlots && c % Pow2(i) == Pow2(i) - 1
      ensures SlotsHold(slots, lists, s, c, i, cmp) && Holds(current, t, s, Edge(c, i), c + 1, cmp)
      ensures forall j :: 0 <= j < i ==> slots[j] == null
      ensures i < numSlots ==> slots[i] == null
      ensures forall p :: c < p < |s| ==> s[p].next == old(s[p].next)
    {
      hide StableSort, Chain, Distinct, Edge, Merge, Pow2;
      i, current, t := 0, use, [use];
      assert Holds(current, t, s, Edge(c, 0), c + 1, cmp) by { SingleUse(s, c, cmp); EdgeSteps(c, 0); }
      assert c % Pow2(0) == Pow2(0) - 1 by { EdgeSteps(c, 0); ModOne(c); }
      while i < numSlots
        invariant i <= numSlots && c % Pow2(i) == Pow2(i) - 1
        invariant SlotsHold(slots, lists, s, c, i, cmp) && Holds(current, t, s, Edge(c, i), c + 1, cmp)
        invariant forall j :: 0 <= j < i ==> slots[j] == null
        invariant forall p :: c < p < |s| ==> s[p].next == old(s[p].next)
      {
        if slots[i] == null {
          return;
        }
        FullSlot(slots[i], lists[i], s, c, i, cmp);
        current, t := MergeInto(slots, i, current, cmp, lists, s, c, t);
        slots[i] := null;
        i := i + 1;
      }
    }

    /** Save the use at c in the first empty slot, merging on collisions. */
    static method PlaceUse(slots: array<Use?>, numSlots: nat, use: Use, cmp: (Use, Use) -> bool,
                           ghost lists: seq<seq<Use>>, ghost s: seq<Use>, ghost c: nat)
      returns (numSlots': nat, ghost lists': seq<seq<Use>>)
      requires slots.Length == MAX_SLOTS && numSlots == |lists| <= MAX_SLOTS && Distinct(s)
      requires c + 1 < |s| <= Pow2(MAX_SLOTS) && c < Pow2(numSlots)
      requires SlotsHold(slots, lists, s, c, 0, cmp)
      requires use == s[c] && use.next == null
      modifies slots, s`next
      ensures numSlots' == |lists'| <= MAX_SLOTS
      ensures numSlots' == if c + 1 == Pow2(numSlots) then numSlots + 1 else numSlots
      ensures c + 1 < Pow2(numSlots')
      ensures SlotsHold(slots, lists', s, c + 1, 0, cmp)
      ensures forall p :: c < p < |s| ==> s[p].next == old(s[p].next)
    {
      hide StableSort, Chain, Distinct, Edge, Merge, Pow2, Holds;
      var i, current, t := FindSlot(slots, numSlots, use, cmp, lists, s, c);
      SlotsBound(c, numSlots, i, |s|);
      numSlots' := numSlots;
      // Check if this is a new slot.
      if i == numSlots {
        numSlots' := numSlots' + 1;
      }
      assert Edge(c, i) == Edge(c, i + 1) by {
        if i < numSlots {
          EmptySlot(lists[i], s, c, i, cmp);
        }
      }
      Carry(c, c + 1, i);
      slots[i] := current;
      lists' := seq(numSlots', j requires 0 <= j < numSlots' => if j < i then [] else if j == i then t else lists[j]);
      forall j | 0 <= j < |lists'|
        ensures Holds(slots[j], lists'[j], s, Edge(c + 1, j + 1), Edge(c + 1, j), cmp)
      {
        if j < i {
          NothingHeld(s, c + 1, cmp);
        }
      }
    }

    /** Cut the use at c off the rest of the list, making it a single-item list. */
    static method Isolate(use: Use, slots: array<Use?>, cmp: (Use, Use) -> bool,
                          ghost lists: seq<seq<Use>>, ghost s: seq<Use>, ghost c: nat)
      returns (next: Use?)
      requires |lists| <= slots.Length && Distinct(s) && c < |s| && use == s[c]
      requires SlotsHold(slots, lists, s, c, 0, cmp)
      modifies use`next
      ensures SlotsHold(slots, lists, s, c, 0, cmp) && use.next == null && next == old(use.next)
    {
      hide StableSort, Edge;
      next := use.next;
      use.next := null;
      PositionsOf(s);
      forall j | 0 <= j < |lists|
        ensures Holds(slots[j], lists[j], s, Edge(c, j + 1), Edge(c, j), cmp)
      {
        assert old(Holds(slots[j], lists[j], s, Edge(c, j + 1), Edge(c, j), cmp));
        EdgeBound(c, j);
        StretchFacts(s, lists[j], Edge(c, j + 1), Edge(c, j), cmp);
      }
    }

    /** Collect the first use, turning it into a single-item list. */
    static method StartSlots(first: Use, slots: array<Use?>, cmp: (Use, Use) -> bool, ghost s: seq<Use>)
      returns (next: Use)
      requires slots.Length == MAX_SLOTS && Distinct(s) && 2 <= |s| && Chain(first, s)
      modifies slots, first`next
      ensures SlotsHold(slots, [[s[0]]], s, 1, 0, cmp) && next == s[1]
      ensures forall p {:trigger s[p].next} :: 1 <= p < |s| ==> s[p].next == At(s, p + 1)
    {
      hide StableSort, Distinct, Edge, Pow2;
      PositionsOf(s);
      assert first == s[0] && first.next == s[1];
      next := first.next;
      first.next := null;
      slots[0] := first;
      FirstEdges();
      SingleUse(s, 0, cmp);
      forall p | 1 <= p < |s|
        ensures s[p].next == At(s, p + 1)
      {
        assert Pos(s, s[p]) == p && Pos(s, s[0]) == 0;
      }
    }

    /** One turn: cut the use at c off and save it in a slot. */
    static method CollectOne(current: Use, slots: array<Use?>, numSlots: nat, cmp: (Use, Use) -> bool,
                             ghost lists: seq<seq<Use>>, ghost s: seq<Use>, ghost c: nat)
      returns (next: Use, numSlots': nat, ghost lists': seq<seq<Use>>)
      requires slots.Length == MAX_SLOTS && numSlots == |lists| <= MAX_SLOTS && Distinct(s)
      requires c + 1 < |s| <= Pow2(MAX_SLOTS) && c < Pow2(numSlots)
      requires SlotsHold(slots, lists, s, c, 0, cmp)
      requires current == s[c] && forall p {:trigger s[p].next} :: c <= p < |s| ==> s[p].next == At(s, p + 1)
      modifies slots, s`next
      ensures numSlots' == |lists'| <= MAX_SLOTS
      ensures numSlots' == if c + 1 == Pow2(numSlots) then numSlots + 1 else numSlots
      ensures c + 1 < Pow2(numSlots')
      ensures SlotsHold(slots, lists', s, c + 1, 0, cmp)
      ensures next == s[c + 1]
      ensures forall p {:trigger s[p].next} :: c < p < |s| ==> s[p].next == At(s, p + 1)
    {
      hide StableSort, Distinct, Edge, Merge, Pow2, Chain, Holds;
      PositionsOf(s);
      assert forall p :: c < p < |s| ==> Pos(s, s[p]) != Pos(s, s[c]);
      assert current.next == s[c + 1];
      next := Isolate(current, slots, cmp, lists, s, c);
      numSlots', lists' := PlaceUse(slots, numSlots, current, cmp, lists, s, c);
    }

    /** Collect all but the last use; with c uses collected, the number of slots is the
        bit length of c. */
    static method CollectUses(second: Use, slots: array<Use?>, cmp: (Use, Use) -> bool, ghost s: seq<Use>)
      returns (numSlots: nat, next: Use, ghost lists: seq<seq<Use>>)
      requires slots.Length == MAX_SLOTS && Distinct(s) && 2 <= |s| <= Pow2(MAX_SLOTS)
      requires SlotsHold(slots, [[s[0]]], s, 1, 0, cmp) && second == s[1]
      requires forall p {:trigger s[p].next} :: 1 <= p < |s| ==> s[p].next == At(s, p + 1)
      modifies slots, s`next
      ensures numSlots == |lists| <= MAX_SLOTS
      ensures numSlots > 0 && Pow2(numSlots - 1) <= |s| - 1 < Pow2(numSlots)
      ensures next == s[|s| - 1] && next.next == null
      ensures SlotsHold(slots, lists, s, |s| - 1, 0, cmp)
    {
      hide StableSort, Distinct, Edge, Merge, Pow2, Chain, Holds;
      FirstEdges();
      next := second;
      numSlots := 1;
      lists := [[s[0]]];
      ghost var c := 1;
      while next.next != null
        invariant numSlots == |lists| <= MAX_SLOTS && 1 <= c < |s|
        invariant numSlots > 0 && Pow2(numSlots - 1) <= c < Pow2(numSlots)
        invariant next == s[c] && forall p {:trigger s[p].next} :: c <= p < |s| ==> s[p].next == At(s, p + 1)
        invariant SlotsHold(slots, lists, s, c, 0, cmp)
        decreases |s| - c
      {
        PowerSteps(numSlots);
        next, numSlots, lists := CollectOne(next, slots, numSlots, cmp, lists, s, c);
        c := c + 1;
      }
    }

    /** Merge all the slots, low to high, in front of the last use. */
    static method MergeSlots(last: Use, slots: array<Use?>, numSlots: nat, cmp: (Use, Use) -> bool,
                             ghost lists: seq<seq<Use>>, ghost s: seq<Use>)
      returns (head: Use?, ghost t: seq<Use>)
      requires numSlots == |lists| <= slots.Length && Distinct(s) && s != [] && |s| - 1 < Pow2(numSlots)
      requires SlotsHold(slots, lists, s, |s| - 1, 0, cmp)
      requires last == s[|s| - 1] && last.next == null
      modifies s`next
      ensures Holds(head, t, s, 0, |s|, cmp)
    {
      hide StableSort, Chain, Distinct, Edge, Merge, Pow2;
      ghost var c := |s| - 1;
      head, t := last, [last];
      SingleUse(s, c, cmp);
      EdgeSteps(c, 0);
      var i := 0;
      while i < numSlots
        invariant i <= numSlots
        invariant SlotsHold(slots, lists, s, c, i, cmp) && Holds(head, t, s, Edge(c, i), c + 1, cmp)
      {
        if slots[i] != null {
          head, t := MergeInto(slots, i, head, cmp, lists, s, c, t);
        } else {
          EmptySlot(lists[i], s, c, i, cmp);
        }
        i := i + 1;
      }
      EdgeSteps(c, numSlots);
    }

    /** Rebuild every back pointer from the forward links. */
    method FixPrevPointers()
      requires Chain(useList, uses) && Distinct(uses) && forall i {:trigger uses[i].val} :: 0 <= i < |uses| ==> uses[i].val == this
      modifies uses`prev
      ensures WellLinked(this)
    {
      var prev := HeadOf(this);
      var node := useList;
      ghost var k := 0;
      while node != null
        invariant k <= |uses| && node == At(uses, k) && prev == LinkAt(this, uses, k)
        invariant forall i {:trigger uses[i].prev} :: 0 <= i < k ==> uses[i].prev == LinkAt(this, uses, i)
        decreases |uses| - k
      {
        node.prev := prev;
        prev := NextOf(node);
        node := node.next;
        k := k + 1;
      }
    }

    /** Sort the links of this list. */
    method SortLinks(cmp: (Use, Use) -> bool)
      requires WellLinked(this) && 2 <= |uses| <= Pow2(MAX_SLOTS)
      modifies this, uses`next, uses`prev
      ensures WellLinked(this)
      ensures StableSort(cmp, old(uses), 0, |old(uses)|, uses)
    {
      hide StableSort, Pow2, Edge, Pos;
      var slots := new Use?[MAX_SLOTS];
      var second := StartSlots(useList, slots, cmp, uses);
      var numSlots, last, lists := CollectUses(second, slots, cmp, uses);
      ghost var t;
      useList, t := MergeSlots(last, slots, numSlots, cmp, lists, uses);
      SameUses(cmp, uses, t);
      uses := t;
      FixPrevPointers();
    }

    /** Sort the list in place: for any comparison the result holds the same uses, and
        for a strict weak order it is the stable sort, with every link rebuilt. */
    method SortUseList(cmp: (Use, Use) -> bool, ghost g: Graph)
      requires Integrity(g) && this in g.values && |uses| <= Pow2(MAX_SLOTS)
      modifies this, uses`next, uses`prev
      ensures Integrity(g)
      ensures StableSort(cmp, old(uses), 0, |old(uses)|, uses)
      ensures forall w :: w in g.values && w != this ==> w.uses == old(w.uses)
    {
      assert WellLinked(this);
      hide StableSort, Pow2, Pos;
      if useList == null || useList.next == null {
        ShortListSorted(cmp, uses);
        return;
      }
      ghost var s, x := uses, uses[0];
      assert x.next == At(s, 1) && Distinct(s) && x.val == this;
      hide WellLinked, IntegrityExcept, Distinct;
      assert x in g.pool by { ListFacts(this, g); }
      SortLinks(cmp);
      SameUses(cmp, s, uses);
      Resorted(Change(g, {}, this, x));
    }

    /** Merge slot i, which is full, with everything after it up to hi. */
    static method MergeInto(slots: array<Use?>, i: nat, current: Use?, cmp: (Use, Use) -> bool,
                            ghost lists: seq<seq<Use>>, ghost s: seq<Use>, ghost c: nat, ghost t: seq<Use>)
      returns (merged: Use?, ghost m: seq<Use>)
      requires i < |lists| <= slots.Length && Distinct(s) && c < |s|
      requires SlotsHold(slots, lists, s, c, i, cmp) && Holds(current, t, s, Edge(c, i), c + 1, cmp)
      modifies s`next
      ensures SlotsHold(slots, lists, s, c, i + 1, cmp) && Holds(merged, m, s, Edge(c, i + 1), c + 1, cmp)
      ensures forall p :: c < p < |s| ==> s[p].next == old(s[p].next)
    {
      hide StableSort, Chain, Distinct, Edge, Merge, Pow2;
      StretchFacts(s, lists[i], Edge(c, i + 1), Edge(c, i), cmp);
      StretchFacts(s, t, Edge(c, i), c + 1, cmp);
      merged := MergeUseLists(slots[i], current, cmp, lists[i], t);
      m := Merge(lists[i], t, cmp);
      MergeStretches(cmp, s, Edge(c, i + 1), Edge(c, i), c + 1, lists[i], t);
      StretchFacts(s, m, Edge(c, i + 1), c + 1, cmp);
      forall j | i + 1 <= j < |lists|
        ensures Holds(slots[j], lists[j], s, Edge(c, j + 1), Edge(c, j), cmp)
      {
        EdgeOrder(c, i + 1, j);
        StretchFacts(s, lists[j], Edge(c, j + 1), Edge(c, j), cmp);
      }
      PositionsOf(s);
    }
  }

  const MAX_SLOTS := 32

  /** A chain that is the stable sort of a stretch of s. */
  ghost predicate Holds(head: Use?, t: seq<Use>, s: seq<Use>, lo: nat, hi: nat, cmp: (Use, Use) -> bool)
    reads s
  {
    && (forall i :: 0 <= i < |t| ==> t[i] in s)
    && StableSort(cmp, s, lo, hi, t)
    && Chain(head, t)
  }

  /** The slots from `from` up hold the stretches that the binomial counter says. */
  ghost predicate SlotsHold(slots: array<Use?>, lists: seq<seq<Use>>, s: seq<Use>, c: nat, from: nat, cmp: (Use, Use) -> bool)
    requires |lists| <= slots.Length
    reads slots, s
  {
    forall j :: from <= j < |lists| ==> Holds(slots[j], lists[j], s, Edge(c, j + 1), Edge(c, j), cmp)
  }

  lemma ModOne(c: nat)
    ensures c % Pow2(0) == Pow2(0) - 1
  {
    assert Pow2(0) == 1;
    assert c % 1 == 0;
  }

  lemma EdgeBound(c: nat, i: nat)
    ensures Edge(c, i) <= c
  {
  }

  lemma PowerSteps(n: nat)
    requires n > 0
    ensures Pow2(n) == 2 * Pow2(n - 1)
  {
  }

  /** The carry stops inside the slots, or needs one more, which there is. */
  lemma SlotsBound(c: nat, numSlots: nat, i: nat, n: nat)
    requires c + 1 < n <= Pow2(MAX_SLOTS) && c < Pow2(numSlots) && i <= numSlots <= MAX_SLOTS
    requires c % Pow2(i) == Pow2(i) - 1
    ensures i == numSlots ==> c + 1 == Pow2(numSlots) && Edge(c, i) == Edge(c, i + 1) && numSlots < MAX_SLOTS
    ensures Pow2(numSlots + 1) == 2 * Pow2(numSlots)
    ensures c + 1 == Pow2(numSlots) && Edge(c, i) == Edge(c, i + 1) ==> i == numSlots
  {
    if i == numSlots {
      EdgeSteps(c, i);
      EdgeSteps(c, i + 1);
      DivModUnique(c, Pow2(i), 0, c);
      if numSlots == MAX_SLOTS {
        assert false;
      }
    } else if c + 1 == Pow2(numSlots) && Edge(c, i) == Edge(c, i + 1) {
      AllOnes(c, numSlots, i + 1);
      assert false;
    }
  }

  /** The bits of 2^n - 1 are all ones. */
  lemma AllOnes(c: nat, n: nat, i: nat)
    requires c + 1 == Pow2(n) && i <= n
    ensures c % Pow2(i) == Pow2(i) - 1
  {
    Pow2Add(i, n - i);
    MulAdd(Pow2(i), Pow2(n - i) - 1, 1);
    DivModUnique(c, Pow2(i), Pow2(n - i) - 1, Pow2(i) - 1);
  }

  lemma EmptySlot(t: seq<Use>, s: seq<Use>, c: nat, i: nat, cmp: (Use, Use) -> bool)
    requires Distinct(s) && Holds(null, t, s, Edge(c, i + 1), Edge(c, i), cmp)
    ensures Edge(c, i) == Edge(c, i + 1)
  {
    hide StableSort, Edge;
    StretchFacts(s, t, Edge(c, i + 1), Edge(c, i), cmp);
  }

  lemma NothingHeld(s: seq<Use>, lo: nat, cmp: (Use, Use) -> bool)
    requires lo <= |s|
    ensures Holds(null, [], s, lo, lo, cmp)
  {
    assert s[lo..lo] == [];
  }

  lemma FirstEdges()
    ensures Edge(1, 0) == 1 && Edge(1, 1) == 0 && Pow2(0) == 1 && Pow2(1) == 2
  {
    assert Pow2(0) == 1 && Pow2(1) == 2;
    hide Edge, Pow2;
    EdgeSteps(1, 0);
    EdgeSteps(1, 1);
  }

  lemma SingleUse(s: seq<Use>, c: nat, cmp: (Use, Use) -> bool)
    requires c < |s|
    ensures StableSort(cmp, s, c, c + 1, [s[c]])
    ensures s[c].next == null ==> Chain(s[c], [s[c]])
  {
    assert s[c..c + 1] == [s[c]];
  }

  /** A slot that is not null is full, so the carry goes on. */
  lemma FullSlot(head: Use?, t: seq<Use>, s: seq<Use>, c: nat, i: nat, cmp: (Use, Use) -> bool)
    requires head != null && Distinct(s) && Holds(head, t, s, Edge(c, i + 1), Edge(c, i), cmp)
    requires c % Pow2(i) == Pow2(i) - 1
    ensures c % Pow2(i + 1) == Pow2(i + 1) - 1
    ensures |t| == Pow2(i)
  {
    hide StableSort, Pow2;
    InStretch(cmp, s, Edge(c, i + 1), Edge(c, i), t);
    EdgeSteps(c, i);
    CarryGoesOn(c, i);
  }

  lemma StretchFacts(s: seq<Use>, t: seq<Use>, lo: nat, hi: nat, cmp: (Use, Use) -> bool)
    requires Distinct(s) && StableSort(cmp, s, lo, hi, t)
    ensures Distinct(t) && |t| == hi - lo
    ensures forall u :: u in t ==> u in s && lo <= Pos(s, u) < hi
  {
    hide StableSort;
    InStretch(cmp, s, lo, hi, t);
    StretchIsDistinct(cmp, s, lo, hi, t);
  }

  lemma PositionsOf(s: seq<Use>)
    requires Distinct(s)
    ensures forall p :: 0 <= p < |s| ==> Pos(s, s[p]) == p
  {
    hide Pos;
    forall p | 0 <= p < |s|
      ensures Pos(s, s[p]) == p
    {
      PosAt(s, p);
    }
  }

  lemma {:induction false} EdgeOrder(c: nat, i: nat, j: nat)
    requires i <= j
    ensures Edge(c, j) <= Edge(c, i)
    decreases j - i
  {
    if i < j {
      EdgeSteps(c, i);
      EdgeOrder(c, i + 1, j);
    }
  }

  /** The merge of two chains by the cases of their heads. */
  lemma MergeCases(l: Use?, r: Use?, sl: seq<Use>, sr: seq<Use>, cmp: (Use, Use) -> bool)
    requires Chain(l, sl) && Chain(r, sr)
    ensures l == null ==> sl == [] && Merge(sl, sr, cmp) == sr
    ensures r == null ==> sr == [] && Merge(sl, sr, cmp) == sl
    ensures l != null ==> sl != [] && sl[0] == l && Chain(l.next, sl[1..])
    ensures r != null ==> sr != [] && sr[0] == r && Chain(r.next, sr[1..])
    ensures l != null && r != null ==>
      Merge(sl, sr, cmp) == (if cmp(r, l) then [r] + Merge(sl, sr[1..], cmp) else [l] + Merge(sl[1..], sr, cmp))
  {
  }

  lemma ChainCons(head: Use, rest: seq<Use>)
    requires Chain(head.next, rest)
    ensures Chain(head, [head] + rest)
  {
  }

  lemma Tails(sl: seq<Use>, sr: seq<Use>)
    requires Distinct(sl) && Distinct(sr) && Apart(sl, sr) && sl != [] && sr != []
    ensures Distinct(sl[1..]) && Apart(sl[1..], sr) && sl[0] !in sl[1..] && sl[0] !in sr
    ensures Distinct(sr[1..]) && Apart(sl, sr[1..]) && sr[0] !in sr[1..] && sr[0] !in sl
  {
  }

  /** What the integrity of the graph says about one list. */
  lemma ListFacts(v: Value, g: Graph)
    requires Integrity(g) && v in g.values
    ensures v.useList == At(v.uses, 0)
    ensures v.uses != [] ==> v.uses[0] in g.pool && v.uses[0].val == v && Without(v.uses, v.uses[0]) == v.uses[1..]
  {
    assert WellLinked(v);
  }

  /** Removing a use from the links: its neighbours join. */
  lemma ListOf(v: Value)
    requires WellLinked(v)
    ensures Distinct(v.uses)
    ensures forall i {:trigger v.uses[i].val} :: 0 <= i < |v.uses| ==> v.uses[i].val == v
  {
  }

  lemma RemovedLinks(v: Value, s: seq<Use>, k: nat)
    requires Distinct(s) && k < |s| && v.uses == RemoveAt(s, k)
    requires forall i {:trigger s[i].val} :: 0 <= i < |s| ==> s[i].val == v
    requires v.useList == At(s, if k == 0 then 1 else 0)
    requires forall i {:trigger s[i].next} :: 0 <= i < |s| && i != k ==> s[i].next == At(s, if i + 1 == k then k + 1 else i + 1)
    requires forall i {:trigger s[i].prev} :: 0 <= i < |s| && i != k ==> s[i].prev == LinkAt(v, s, if i == k + 1 then k else i)
    ensures WellLinked(v) && s[k] !in v.uses
  {
    RemoveAtPlaces(s, k);
    hide RemoveAt, Distinct;
    var t := v.uses;
    forall i | 0 <= i < |t|
      ensures t[i].next == At(t, i + 1) && t[i].prev == LinkAt(v, t, i) && t[i].val == v
    {
      var j := if i < k then i else i + 1;
      assert t[i] == s[j];
    }
  }

  class Use {
    var val: Value?
    var next: Use?
    var prev: Link
    var tag: Tag

    constructor ()
      ensures val == null && next == null && prev == Unlinked
    {
      val, next, prev, tag := null, null, Unlinked, ZeroDigit;
    }

    /** Put this use in front of the list at a value's head. */
    method AddToList(v: Value)
      requires WellLinked(v) && this !in v.uses && val == v
      modifies this`next, this`prev, v, v.uses`prev
      ensures WellLinked(v)
      ensures v.uses == [this] + old(v.uses)
    {
      next := v.useList;
      if next != null {
        next.prev := NextOf(this);
      }
      prev := HeadOf(v);
      v.useList := this;
      v.uses := [this] + v.uses;
    }

    /** Unlink this use; it still names its value. */
    method RemoveFromList()
      requires val != null && WellLinked(val) && this in val.uses
      modifies val, val.uses`next, val.uses`prev
      ensures WellLinked(val)
      ensures val.uses == Without(old(val.uses), this) && this !in val.uses
    {
      hide Without, RemoveAt, Pos, Distinct, WellLinked, LinkAt;
      ghost var v, s := val, val.uses;
      ghost var k :| 0 <= k < |s| && s[k] == this;
      ListOf(v);
      WithoutAt(s, k);
      JoinNeighbours(v, k);
      v.uses := RemoveAt(s, k);
      RemovedLinks(v, s, k);
    }

    /** The link that reached this use now reaches the one after it. */
    method JoinNeighbours(ghost v: Value, ghost k: nat)
      requires WellLinked(v) && k < |v.uses| && v.uses[k] == this
      modifies v`useList, v.uses`next, v.uses`prev
      ensures v.useList == At(v.uses, if k == 0 then 1 else 0)
      ensures forall i {:trigger v.uses[i].next} :: 0 <= i < |v.uses| && i != k ==>
        v.uses[i].next == At(v.uses, if i + 1 == k then k + 1 else i + 1)
      ensures forall i {:trigger v.uses[i].prev} :: 0 <= i < |v.uses| && i != k ==>
        v.uses[i].prev == LinkAt(v, v.uses, if i == k + 1 then k else i)
    {
      assert prev == LinkAt(v, v.uses, k) && next == At(v.uses, k + 1);
      match prev {
        case HeadOf(owner) => owner.useList := next;
        case NextOf(node) => node.next := next;
        case Unlinked => assert false;
      }
      if next != null {
        next.prev := prev;
      }
    }

    /** Leave the list of the present value, if any, and join the moving uses. */
    method Detach(ghost g: Graph, ghost moving: set<Use>, ghost moving': set<Use>)
      requires IntegrityExcept(g, moving) && this in g.pool - moving && moving' == moving + {this}
      modifies g.values, g.pool`next, g.pool`prev
      ensures IntegrityExcept(g, moving')
      ensures forall w :: w in g.values ==>
        w.uses == if w == val then Without(old(w.uses), this) else old(w.uses)
    {
      hide Without;
      if val != null {
        RemoveFromList();
        Removed(Change(g, moving, val, this));
      }
    }

    /** Name v and join its list, if it is a value; this use moves no more. */
    method Attach(v: Value?, ghost g: Graph, ghost moving: set<Use>, ghost moving': set<Use>)
      requires IntegrityExcept(g, moving) && this in g.pool * moving && (v != null ==> v in g.values)
      requires moving' == moving - {this}
      modifies this`val, g.values, g.pool`next, g.pool`prev
      ensures IntegrityExcept(g, moving') && val == v
      ensures forall w :: w in g.values ==> w.uses == (if w == v then [this] else []) + old(w.uses)
    {
      val := v;
      if v != null {
        AddToList(v);
      }
      Added(Change(g, moving, v, this));
    }

    /** Make this use name another value, or none: it leaves one list and comes first
        in the other; no other list and no other use changes. */
    method Set(v: Value?, ghost g: Graph)
      requires Integrity(g) && this in g.pool && (v != null ==> v in g.values)
      modifies this`val, g.values, g.pool`next, g.pool`prev
      ensures Integrity(g) && val == v
      ensures forall w :: w in g.values ==>
        w.uses == (if w == v then [this] else []) + (if w == old(val) then Without(old(w.uses), this) else old(w.uses))
    {
      hide Without;
      Detach(g, {}, {this});
      Attach(v, g, {this}, {});
    }

    /** Exchange the values of two uses. */
    method Swap(rhs: Use, ghost g: Graph)
      requires Integrity(g) && this in g.pool && rhs in g.pool
      modifies this`val, rhs`val, g.values, g.pool`next, g.pool`prev
      ensures Integrity(g) && val == old(rhs.val) && rhs.val == old(val)
      ensures forall w :: w in g.values ==>
        w.uses == if old(val) == old(rhs.val) then old(w.uses)
                  else if w == old(val) then [rhs] + Without(old(w.uses), this)
                  else if w == old(rhs.val) then [this] + Without(old(w.uses), rhs)
                  else old(w.uses)
    {
      hide Without, IntegrityExcept;
      NamedValues(g, this);
      NamedValues(g, rhs);
      if val != rhs.val {
        DetachBoth(rhs, g);
        AttachCrossed(rhs, g);
      }
    }

    /** The second half of Swap. */
    method AttachCrossed(rhs: Use, ghost g: Graph)
      requires IntegrityExcept(g, {this, rhs}) && this in g.pool && rhs in g.pool && val != rhs.val
      requires (val != null ==> val in g.values) && (rhs.val != null ==> rhs.val in g.values)
      modifies this`val, rhs`val, g.values, g.pool`next, g.pool`prev
      ensures Integrity(g) && val == old(rhs.val) && rhs.val == old(val)
      ensures forall w :: w in g.values ==>
        w.uses == (if w == old(val) then [rhs] else if w == old(rhs.val) then [this] else []) + old(w.uses)
    {
      hide IntegrityExcept;
      var oldVal := val;
      Attach(rhs.val, g, {this, rhs}, {rhs});
      rhs.Attach(oldVal, g, {rhs}, {});
    }

    /** The first half of Swap. */
    method DetachBoth(rhs: Use, ghost g: Graph)
      requires Integrity(g) && this in g.pool && rhs in g.pool && val != rhs.val
      modifies g.values, g.pool`next, g.pool`prev
      ensures IntegrityExcept(g, {this, rhs})
      ensures forall w :: w in g.values ==>
        w.uses == if w == val then Without(old(w.uses), this)
                  else if w == rhs.val then Without(old(w.uses), rhs)
                  else old(w.uses)
    {
      hide Without, IntegrityExcept;
      Detach(g, {}, {this});
      rhs.Detach(g, {this}, {this, rhs});
    }
  }

  lemma NamedValues(g: Graph, u: Use)
    requires Integrity(g) && u in g.pool
    ensures u.val != null ==> u.val in g.values
  {
  }

  /** A change to the links of one list: of v, because of x. */
  datatype Change = Change(g: Graph, moving: set<Use>, v: Value?, x: Use)

  /** Only the list of v changed links, and no other use changed its value. */
  twostate predicate OnlyListChanged(c: Change)
    reads c.g.values, c.g.pool
  {
    && (forall w :: w in c.g.values && w != c.v ==> w.uses == old(w.uses) && w.useList == old(w.useList))
    && (forall u :: u in c.g.pool && u != c.x ==> u.val == old(u.val))
    && (forall u :: u in c.g.pool && u != c.x && (c.v == null || u.val != c.v) ==>
          u.next == old(u.next) && u.prev == old(u.prev))
  }

  /** Changing the links of one list leaves every other list well linked. */
  twostate lemma OthersKept(c: Change)
    requires OnlyListChanged(c)
    requires forall w :: w in c.g.values && w != c.v ==> old(WellLinked(w)) && c.x !in w.uses
    requires forall w :: w in c.g.values && w != c.v ==> forall i :: 0 <= i < |w.uses| ==> w.uses[i] in c.g.pool
    ensures forall w :: w in c.g.values && w != c.v ==> WellLinked(w)
  {
    forall w | w in c.g.values && w != c.v
      ensures WellLinked(w)
    {
      assert forall i {:trigger w.uses[i].val} :: 0 <= i < |w.uses| ==> w.uses[i] in c.g.pool && old(w.uses[i].val) == w;
    }
  }

  /** A list that holds the same uses in another order. */
  twostate lemma Resorted(c: Change)
    requires old(Integrity(c.g)) && c.v != null && c.v in c.g.values && c.x.val == old(c.x.val) == c.v
    requires OnlyListChanged(c) && c.x in c.g.pool
    requires WellLinked(c.v) && forall u :: u in c.v.uses <==> u in old(c.v.uses)
    ensures Integrity(c.g)
  {
    forall w | w in c.g.values && w != c.v
      ensures c.x !in w.uses
    {
      assert old(WellLinked(w));
    }
    OthersKept(c);
    forall i | 0 <= i < |c.v.uses|
      ensures c.v.uses[i] in c.g.pool
    {
      assert c.v.uses[i] in old(c.v.uses);
    }
  }

  lemma ShortListSorted(cmp: (Use, Use) -> bool, s: seq<Use>)
    requires |s| <= 1
    ensures StableSort(cmp, s, 0, |s|, s)
  {
    assert s[0..|s|] == s;
  }

  lemma SameUses(cmp: (Use, Use) -> bool, s: seq<Use>, t: seq<Use>)
    requires Distinct(s) && StableSort(cmp, s, 0, |s|, t)
    ensures Distinct(t) && |t| == |s|
    ensures forall u :: u in t <==> u in s
  {
    assert s[0..|s|] == s;
    StretchFacts(s, t, 0, |s|, cmp);
    forall u | u in s
      ensures u in t
    {
      assert u in multiset(s);
    }
  }

  twostate lemma Removed(c: Change)
    requires old(IntegrityExcept(c.g, c.moving)) && c.x in c.g.pool - c.moving
    requires c.x.val == old(c.x.val) == c.v && c.v != null
    requires OnlyListChanged(c)
    requires WellLinked(c.v) && c.v.uses == Without(old(c.v.uses), c.x) && c.x !in c.v.uses
    ensures IntegrityExcept(c.g, c.moving + {c.x})
  {
    hide Without;
    InWithout(old(c.v.uses), c.x);
    forall w | w in c.g.values && w != c.v
      ensures c.x !in w.uses
    {
      assert old(WellLinked(w));
    }
    OthersKept(c);
    forall i | 0 <= i < |c.v.uses|
      ensures c.v.uses[i] in c.g.pool - (c.moving + {c.x})
    {
      assert c.v.uses[i] in old(c.v.uses);
    }
  }

  twostate lemma Added(c: Change)
    requires old(IntegrityExcept(c.g, c.moving)) && c.x in c.g.pool * c.moving
    requires c.x.val == c.v && (c.v != null ==> c.v in c.g.values)
    requires OnlyListChanged(c)
    requires c.v != null ==> WellLinked(c.v) && c.v.uses == [c.x] + old(c.v.uses)
    ensures IntegrityExcept(c.g, c.moving - {c.x})
  {
    hide WellLinked;
    OthersKept(c);
  }
}
