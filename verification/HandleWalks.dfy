/** The walks that tell the handles of a value that it is deleted or replaced.  A
    sentinel handle moves along the list, so that the handle it has just passed may
    leave the list. */
module HandleWalks {
  import opened Sequences
  import opened ValueHandles

  /** Deleting a value leaves only its asserting handles on it. */
  predicate StaysOnDelete(h: Handle) {
    h.kind == Assert
  }

  /** Replacing a value leaves asserting and, by default, callback handles on it. */
  predicate StaysOnReplace(h: Handle) {
    h.kind == Assert || h.kind == Callback
  }

  predicate MovesOnReplace(h: Handle) {
    !StaysOnReplace(h)
  }

  function AfterDelete(h: Handle, v: Value): Target {
    match h.kind
    case Assert => To(v)
    case Callback => Null
    case Tracking => Tombstone
    case Weak => Null
  }

  /** What the sentinel has left behind it, the sentinel, and what is to come. */
  ghost function Stage(before: seq<Handle>, iter: Handle, rest: seq<Handle>): seq<Handle> {
    before + [iter] + rest
  }

  /** Move the sentinel over the handle after it. */
  method StepOver(iter: Handle, entry: Handle, v: Value, ctx: Context, ghost g: Graph, ghost before: seq<Handle>, ghost rest: seq<Handle>)
    requires Integrity(ctx, g) && iter in g.pool && v in ctx.lists && rest != [] && entry == rest[0]
    requires ctx.lists[v] == Stage(before, iter, rest)
    modifies ctx, g.values, g.pool`prev, g.pool`next
    ensures Integrity(ctx, g)
    ensures ctx.lists == old(ctx.lists)[v := Stage(before + [entry], iter, rest[1..])]
  {
    StageFacts(ctx, g, v, before, iter, rest);
    hide IntegrityExcept, Without, WithList, InsertAt, Stage;
    iter.RemoveFromUseList(ctx, g, {}, {iter});
    ghost var s := before + rest;
    assert ctx.lists == old(ctx.lists)[v := s];
    LinkAfter(s, v, |before|);
    InsertAfter(before, iter, rest);
    iter.JoinList(ctx, NextOf(entry), g, {iter}, {}, v, |before| + 1);
    UpdateTwice(old(ctx.lists), v, s, InsertAt(s, |before| + 1, iter));
  }

  lemma UpdateTwice<K, V>(m: map<K, V>, k: K, a: V, b: V)
    ensures m[k := a][k := b] == m[k := b]
  {
  }

  lemma StageFacts(ctx: Context, g: Graph, v: Value, before: seq<Handle>, iter: Handle, rest: seq<Handle>)
    requires Integrity(ctx, g) && v in ctx.lists && ctx.lists[v] == Stage(before, iter, rest)
    ensures iter.val == To(v) && Distinct(Stage(before, iter, rest))
    ensures iter.next == if rest == [] then null else rest[0]
    ensures Without(Stage(before, iter, rest), iter) == before + rest
    ensures rest != [] ==> WithList(ctx.lists, v, before + rest) == ctx.lists[v := before + rest]
  {
    EntryFacts(ctx, g, {}, v);
    var s := Stage(before, iter, rest);
    assert s[|before|] == iter;
    WithoutAt(s, |before|);
    assert RemoveAt(s, |before|) == before + rest;
  }

  lemma LinkAfter(s: seq<Handle>, v: Value, k: nat)
    requires k < |s|
    ensures NextOf(s[k]) == LinkAt(v, s, k + 1)
  {
  }

  lemma InsertAfter(before: seq<Handle>, iter: Handle, rest: seq<Handle>)
    requires rest != []
    ensures InsertAt(before + rest, |before| + 1, iter) == Stage(before + [rest[0]], iter, rest[1..])
  {
    var s := before + rest;
    assert s[..|before| + 1] == before + [rest[0]];
    assert s[|before| + 1..] == rest[1..];
  }

  /** The handle before the sentinel leaves the list. */
  lemma PassedLeaves(ctx: Context, g: Graph, v: Value, before: seq<Handle>, entry: Handle, iter: Handle, rest: seq<Handle>)
    requires Integrity(ctx, g) && v in ctx.lists && ctx.lists[v] == Stage(before + [entry], iter, rest)
    ensures entry.val == To(v) && entry in g.pool && entry != iter
    ensures ListsWithout(ctx.lists, entry, To(v)) == ctx.lists[v := Stage(before, iter, rest)]
  {
    EntryFacts(ctx, g, {}, v);
    var s := Stage(before + [entry], iter, rest);
    assert s[|before|] == entry && s[|before| + 1] == iter;
    WithoutAt(s, |before|);
    assert RemoveAt(s, |before|) == Stage(before, iter, rest);
  }

  /** Tell the handle before the sentinel that its value is deleted. */
  method NotifyDeleted(entry: Handle, iter: Handle, v: Value, ctx: Context, ghost g: Graph, ghost before: seq<Handle>, ghost rest: seq<Handle>)
    requires Integrity(ctx, g) && v in ctx.lists && ctx.lists[v] == Stage(before + [entry], iter, rest)
    modifies entry`val, ctx, g.values, g.pool`prev, g.pool`next
    ensures Integrity(ctx, g) && entry.val == AfterDelete(entry, v)
    ensures ctx.lists == old(ctx.lists)[v := Stage(if StaysOnDelete(entry) then before + [entry] else before, iter, rest)]
  {
    PassedLeaves(ctx, g, v, before, entry, iter, rest);
    hide IntegrityExcept, Stage, ListsWithout;
    match entry.kind {
      case Assert =>
      case Tracking => entry.Assign(Tombstone, ctx, g);
      case Weak => entry.Assign(Null, ctx, g);
      case Callback => entry.Assign(Null, ctx, g);
    }
  }

  /** One turn of the walk. */
  lemma WalkStep(p: Handle -> bool, list: seq<Handle>, j: nat, iter: Handle)
    requires j < |list|
    ensures list[j..] != [] && list[j..][0] == list[j] && list[j..][1..] == list[j + 1..]
    ensures Filter(p, list[..j + 1]) == if p(list[j]) then Filter(p, list[..j]) + [list[j]] else Filter(p, list[..j])
    ensures forall h :: h in list[..j + 1] <==> h in list[..j] || h == list[j]
  {
    assert list[..j + 1] == list[..j] + [list[j]];
    FilterSnoc(p, list[..j], list[j]);
    assert Filter(p, list[..j]) + [] == Filter(p, list[..j]);
  }

  /** The sentinel comes first, before the handle it is a copy of. */
  lemma InsertFirst(list: seq<Handle>, iter: Handle)
    requires list != []
    ensures Pos(list, list[0]) == 0
    ensures InsertAt(list, 0, iter) == Stage([], iter, list)
  {
    assert list[..0] == [] && list[0..] == list;
    assert [] + [iter] == [iter];
  }

  /** Start a walk: put a sentinel before the first handle of v. */
  method StartWalk(v: Value, ctx: Context, ghost g: Graph) returns (entry: Handle, iter: Handle)
    requires Integrity(ctx, g) && v in g.values && v.hasValueHandle
    modifies ctx, g.values, g.pool`prev, g.pool`next
    ensures fresh(iter) && Integrity(ctx, Graph(g.values, g.pool + {iter}))
    ensures v in old(ctx.lists) && old(ctx.lists)[v] != [] && entry == old(ctx.lists)[v][0]
    ensures Distinct(old(ctx.lists)[v]) && forall h :: h in old(ctx.lists)[v] ==> h in g.pool && old(h.val) == To(v)
    ensures ctx.lists == old(ctx.lists)[v := Stage([], iter, old(ctx.lists)[v])]
  {
    EntryOf(ctx, g, v);
    EntryFacts(ctx, g, {}, v);
    hide IntegrityExcept, Stage, InsertAt, Distinct, Linked, Pos;
    ghost var list := ctx.lists[v];
    entry := ctx.valueHandles[v];
    iter := NewCopy(Assert, entry, ctx, g);
    InsertFirst(list, iter);
  }

  lemma EntryOf(ctx: Context, g: Graph, v: Value)
    requires Integrity(ctx, g) && v in g.values && v.hasValueHandle
    ensures v in ctx.lists && v in ctx.valueHandles
  {
  }

  /** At the end the sentinel goes. */
  lemma WalkEnd(ctx: Context, g: Graph, v: Value, kept: seq<Handle>, iter: Handle)
    requires Integrity(ctx, g) && v in ctx.lists && ctx.lists[v] == Stage(kept, iter, [])
    ensures ListsWithout(ctx.lists, iter, To(v)) == WithList(ctx.lists, v, kept)
    ensures iter.val == To(v)
  {
    StageFacts(ctx, g, v, kept, iter, []);
    assert kept + [] == kept;
  }

  /** Each handle of the value is visited once: weak handles and, by default, callbacks
      are nulled, tracking handles become tombstones, and all of them leave the list;
      asserting handles stay, in order.  `remaining` is the fatal case. */
  method ValueIsDeleted(v: Value, ctx: Context, ghost g: Graph) returns (remaining: bool)
    requires Integrity(ctx, g) && v in g.values && v.hasValueHandle
    modifies ctx, g.values, g.pool`val, g.pool`prev, g.pool`next
    ensures Integrity(ctx, g)
    ensures ctx.lists == WithList(old(ctx.lists), v, Filter(StaysOnDelete, old(ctx.lists)[v]))
    ensures remaining <==> exists h :: h in old(ctx.lists)[v] && h.kind == Assert
    ensures forall h :: h in old(ctx.lists)[v] ==> h in g.pool
    ensures forall h :: h in old(ctx.lists)[v] && (h.kind == Weak || h.kind == Callback) ==> h.val == Null
    ensures forall h :: h in old(ctx.lists)[v] && h.kind == Tracking ==> h.val == Tombstone
    ensures forall h :: h in old(ctx.lists)[v] && h.kind == Assert ==> h.val == To(v)
    ensures forall h :: h in g.pool && h !in old(ctx.lists)[v] ==> h.val == old(h.val)
  {
    EntryOf(ctx, g, v);
    EntryFacts(ctx, g, {}, v);
    hide IntegrityExcept, Filter, WithList, Linked, Distinct;
    ghost var list := ctx.lists[v];
    NotifyAllDeleted(v, ctx, g);
    remaining := v.hasValueHandle;
    RemainingHandles(list);
    WithListKeys(old(ctx.lists), v, list, Filter(StaysOnDelete, list));
    FlagIsKey(ctx, g, v);
  }

  /** The walk with its sentinel, from its construction to its destruction. */
  method NotifyAllDeleted(v: Value, ctx: Context, ghost g: Graph)
    requires Integrity(ctx, g) && v in g.values && v.hasValueHandle && v in ctx.lists
    modifies ctx, g.values, g.pool`val, g.pool`prev, g.pool`next
    ensures Integrity(ctx, g)
    ensures ctx.lists == WithList(old(ctx.lists), v, Filter(StaysOnDelete, old(ctx.lists)[v]))
    ensures forall h :: h in g.pool ==> h.val == if h in old(ctx.lists)[v] then AfterDelete(h, v) else old(h.val)
  {
    hide IntegrityExcept, Stage, Filter, WithList, Distinct;
    ghost var lists, list := ctx.lists, ctx.lists[v];
    var entry, iter := StartWalk(v, ctx, g);
    ghost var kept := Filter(StaysOnDelete, list);
    DeleteWalk(entry, iter, v, ctx, Graph(g.values, g.pool + {iter}), lists, list);
    WithListKeys(lists, v, Stage(kept, iter, []), kept);
    EndOfLife(iter, v, ctx, g, kept);
  }

  lemma FlagIsKey(ctx: Context, g: Graph, v: Value)
    requires Integrity(ctx, g) && v in g.values
    ensures v.hasValueHandle <==> v in ctx.lists
  {
  }

  lemma WithListKeys(lists: map<Value, seq<Handle>>, v: Value, t: seq<Handle>, s: seq<Handle>)
    ensures v in WithList(lists, v, s) <==> s != []
    ensures WithList(lists[v := t], v, s) == WithList(lists, v, s)
  {
  }

  lemma RemainingHandles(list: seq<Handle>)
    ensures Filter(StaysOnDelete, list) != [] <==> exists h :: h in list && h.kind == Assert
  {
    InFilter(StaysOnDelete, list);
    var kept := Filter(StaysOnDelete, list);
    if kept != [] {
      assert kept[0] in kept && StaysOnDelete(kept[0]);
    }
    if h :| h in list && h.kind == Assert {
      assert StaysOnDelete(h) && h in kept;
    }
  }

  /** The sentinel is destroyed at the end of the walk. */
  method EndOfLife(iter: Handle, v: Value, ctx: Context, ghost g: Graph, ghost kept: seq<Handle>)
    requires iter !in g.pool && Integrity(ctx, Graph(g.values, g.pool + {iter}))
    requires v in ctx.lists && ctx.lists[v] == Stage(kept, iter, [])
    modifies ctx, g.values, g.pool`prev, g.pool`next, iter`prev, iter`next
    ensures Integrity(ctx, g) && ctx.lists == WithList(old(ctx.lists), v, kept)
  {
    hide IntegrityExcept, Stage, ListsWithout, WithList;
    WalkEnd(ctx, Graph(g.values, g.pool + {iter}), v, kept, iter);
    iter.Destroy(ctx, Graph(g.values, g.pool + {iter}));
    assert g.pool + {iter} - {iter} == g.pool;
  }

  /** The loop of ValueIsDeleted. */
  method DeleteWalk(first: Handle, iter: Handle, v: Value, ctx: Context, ghost g: Graph,
                    ghost lists: map<Value, seq<Handle>>, ghost list: seq<Handle>)
    requires Integrity(ctx, g) && iter in g.pool && list != [] && first == list[0] && Distinct(list) && iter !in list
    requires ctx.lists == lists[v := Stage([], iter, list)]
    modifies ctx, g.values, list`val, g.pool`prev, g.pool`next
    ensures Integrity(ctx, g)
    ensures ctx.lists == lists[v := Stage(Filter(StaysOnDelete, list), iter, [])]
    ensures forall h :: h in list ==> h.val == AfterDelete(h, v)
  {
    assert list[..0] == [] && list[0..] == list && Filter(StaysOnDelete, []) == [];
    hide IntegrityExcept, Stage, Filter;
    var entry: Handle? := first;
    ghost var j := 0;
    while entry != null
      invariant Integrity(ctx, g) && j <= |list| && entry == At(list, j)
      invariant ctx.lists == lists[v := Stage(Filter(StaysOnDelete, list[..j]), iter, list[j..])]
      invariant forall i {:trigger list[i].val} :: 0 <= i < j ==> list[i].val == AfterDelete(list[i], v)
      decreases |list| - j
    {
      entry := DeleteTurn(entry, iter, v, ctx, g, lists, list, j);
      j := j + 1;
    }
    assert list[..j] == list && list[j..] == [];
  }

  /** One turn of the loop of ValueIsDeleted. */
  method DeleteTurn(entry: Handle, iter: Handle, v: Value, ctx: Context, ghost g: Graph,
                    ghost lists: map<Value, seq<Handle>>, ghost list: seq<Handle>, ghost j: nat) returns (next: Handle?)
    requires Integrity(ctx, g) && iter in g.pool && j < |list| && entry == list[j]
    requires ctx.lists == lists[v := Stage(Filter(StaysOnDelete, list[..j]), iter, list[j..])]
    modifies entry`val, ctx, g.values, g.pool`prev, g.pool`next
    ensures Integrity(ctx, g) && entry.val == AfterDelete(entry, v) && next == At(list, j + 1)
    ensures ctx.lists == lists[v := Stage(Filter(StaysOnDelete, list[..j + 1]), iter, list[j + 1..])]
  {
    hide IntegrityExcept, Stage, Filter;
    WalkStep(StaysOnDelete, list, j, iter);
    ghost var kept := Filter(StaysOnDelete, list[..j]);
    StepOver(iter, entry, v, ctx, g, kept, list[j..]);
    NotifyDeleted(entry, iter, v, ctx, g, kept, list[j + 1..]);
    StageFacts(ctx, g, v, Filter(StaysOnDelete, list[..j + 1]), iter, list[j + 1..]);
    next := iter.next;
  }

  // ----- replacement

  /** The lists after the moved handles came, one by one, first in the list of newVal. */
  ghost function WithMoved(lists: map<Value, seq<Handle>>, newVal: Value, moved: seq<Handle>): map<Value, seq<Handle>> {
    WithList(lists, newVal, Reversed(moved) + ListOf(lists, newVal))
  }

  lemma MoveOne(lists: map<Value, seq<Handle>>, v: Value, newVal: Value, moved: seq<Handle>, entry: Handle, s: seq<Handle>)
    requires v != newVal
    ensures ListsWith(WithMoved(lists, newVal, moved)[v := s], entry, To(newVal))
         == WithMoved(lists, newVal, moved + [entry])[v := s]
  {
    var tail := ListOf(lists, newVal);
    ReversedSnoc(moved, entry);
    hide Reversed;
    assert [entry] + (Reversed(moved) + tail) == [entry] + Reversed(moved) + tail;
    assert ListOf(WithMoved(lists, newVal, moved), newVal) == Reversed(moved) + tail;
  }

  lemma NothingMoved(lists: map<Value, seq<Handle>>, newVal: Value)
    requires newVal in lists ==> lists[newVal] != []
    ensures WithMoved(lists, newVal, []) == lists
  {
    assert [] + ListOf(lists, newVal) == ListOf(lists, newVal);
  }

  /** Tell the handle before the sentinel that its value is replaced. */
  method NotifyReplaced(entry: Handle, iter: Handle, v: Value, newVal: Value, ctx: Context, ghost g: Graph,
                        ghost before: seq<Handle>, ghost rest: seq<Handle>)
    requires Integrity(ctx, g) && v in ctx.lists && ctx.lists[v] == Stage(before + [entry], iter, rest)
    requires newVal in g.values && newVal != v
    modifies entry`val, ctx, g.values, g.pool`prev, g.pool`next
    ensures Integrity(ctx, g) && entry.val == if StaysOnReplace(entry) then To(v) else To(newVal)
    ensures ctx.lists == if StaysOnReplace(entry) then old(ctx.lists)
                         else ListsWith(old(ctx.lists)[v := Stage(before, iter, rest)], entry, To(newVal))
  {
    PassedLeaves(ctx, g, v, before, entry, iter, rest);
    hide IntegrityExcept, Stage, ListsWithout, ListsWith;
    match entry.kind {
      case Assert =>
      case Tracking => entry.Assign(To(newVal), ctx, g);
      case Weak => entry.Assign(To(newVal), ctx, g);
      case Callback =>
    }
  }

  /** The lists when the walk has come to place j of the list. */
  ghost function ReplaceStage(lists: map<Value, seq<Handle>>, v: Value, newVal: Value, list: seq<Handle>, iter: Handle, j: nat): map<Value, seq<Handle>>
    requires j <= |list|
  {
    WithMoved(lists, newVal, Filter(MovesOnReplace, list[..j]))[v := Stage(Filter(StaysOnReplace, list[..j]), iter, list[j..])]
  }

  lemma ReplaceEnds(lists: map<Value, seq<Handle>>, v: Value, newVal: Value, list: seq<Handle>, iter: Handle)
    requires newVal in lists ==> lists[newVal] != []
    ensures ReplaceStage(lists, v, newVal, list, iter, 0) == lists[v := Stage([], iter, list)]
    ensures ReplaceStage(lists, v, newVal, list, iter, |list|) ==
      WithMoved(lists, newVal, Filter(MovesOnReplace, list))[v := Stage(Filter(StaysOnReplace, list), iter, [])]
  {
    NothingMoved(lists, newVal);
    assert list[..0] == [] && list[0..] == list && list[..|list|] == list && list[|list|..] == [];
  }

  /** One turn of the loop of ValueIsRAUWd. */
  method ReplaceTurn(entry: Handle, iter: Handle, v: Value, newVal: Value, ctx: Context, ghost g: Graph,
                     ghost lists: map<Value, seq<Handle>>, ghost list: seq<Handle>, ghost j: nat) returns (next: Handle?)
    requires Integrity(ctx, g) && iter in g.pool && j < |list| && entry == list[j] && newVal in g.values && newVal != v
    requires ctx.lists == ReplaceStage(lists, v, newVal, list, iter, j)
    modifies entry`val, ctx, g.values, g.pool`prev, g.pool`next
    ensures Integrity(ctx, g) && next == At(list, j + 1)
    ensures entry.val == if StaysOnReplace(entry) then To(v) else To(newVal)
    ensures ctx.lists == ReplaceStage(lists, v, newVal, list, iter, j + 1)
  {
    hide IntegrityExcept, Stage, Filter, WithMoved, ListsWith;
    WalkStep(StaysOnReplace, list, j, iter);
    WalkStep(MovesOnReplace, list, j, iter);
    ghost var kept, moved := Filter(StaysOnReplace, list[..j]), Filter(MovesOnReplace, list[..j]);
    ghost var before := WithMoved(lists, newVal, moved);
    StepOver(iter, entry, v, ctx, g, kept, list[j..]);
    assert ctx.lists == before[v := Stage(kept + [entry], iter, list[j + 1..])];
    NotifyReplaced(entry, iter, v, newVal, ctx, g, kept, list[j + 1..]);
    UpdateTwice(before, v, Stage(kept + [entry], iter, list[j + 1..]), Stage(kept, iter, list[j + 1..]));
    MoveOne(lists, v, newVal, moved, entry, Stage(kept, iter, list[j + 1..]));
    StageFacts(ctx, g, v, Filter(StaysOnReplace, list[..j + 1]), iter, list[j + 1..]);
    next := iter.next;
  }

  /** The loop of ValueIsRAUWd. */
  method ReplaceWalk(first: Handle, iter: Handle, v: Value, newVal: Value, ctx: Context, ghost g: Graph,
                     ghost lists: map<Value, seq<Handle>>, ghost list: seq<Handle>)
    requires Integrity(ctx, g) && iter in g.pool && list != [] && first == list[0] && Distinct(list) && iter !in list
    requires newVal in g.values && newVal != v
    requires ctx.lists == lists[v := Stage([], iter, list)] && (newVal in lists ==> lists[newVal] != [])
    modifies ctx, g.values, list`val, g.pool`prev, g.pool`next
    ensures Integrity(ctx, g)
    ensures ctx.lists == WithMoved(lists, newVal, Filter(MovesOnReplace, list))[v := Stage(Filter(StaysOnReplace, list), iter, [])]
    ensures forall h :: h in list ==> h.val == if StaysOnReplace(h) then To(v) else To(newVal)
  {
    hide IntegrityExcept, ReplaceStage, WithMoved, Stage, Filter;
    ReplaceEnds(lists, v, newVal, list, iter);
    var entry: Handle? := first;
    ghost var j := 0;
    while entry != null
      invariant Integrity(ctx, g) && j <= |list| && entry == At(list, j)
      invariant ctx.lists == ReplaceStage(lists, v, newVal, list, iter, j)
      invariant forall i {:trigger list[i].val} :: 0 <= i < j ==>
        list[i].val == if StaysOnReplace(list[i]) then To(v) else To(newVal)
      decreases |list| - j
    {
      entry := ReplaceTurn(entry, iter, v, newVal, ctx, g, lists, list, j);
      j := j + 1;
    }
  }

  /** All weak and tracking handles of oldVal move to newVal, in front of the handles it
      had, the last one first; asserting handles and callbacks stay, in order. */
  method ValueIsRAUWd(oldVal: Value, newVal: Value, ctx: Context, ghost g: Graph)
    requires Integrity(ctx, g) && oldVal in g.values && newVal in g.values && oldVal.hasValueHandle && oldVal != newVal
    modifies ctx, g.values, g.pool`val, g.pool`prev, g.pool`next
    ensures Integrity(ctx, g) && oldVal in old(ctx.lists)
    ensures ctx.lists == WithList(WithMoved(old(ctx.lists), newVal, Filter(MovesOnReplace, old(ctx.lists)[oldVal])),
                                  oldVal, Filter(StaysOnReplace, old(ctx.lists)[oldVal]))
    ensures forall h :: h in old(ctx.lists)[oldVal] ==> h in g.pool
    ensures forall h :: h in old(ctx.lists)[oldVal] && (h.kind == Weak || h.kind == Tracking) ==> h.val == To(newVal)
    ensures forall h :: h in old(ctx.lists)[oldVal] && (h.kind == Assert || h.kind == Callback) ==> h.val == To(oldVal)
    ensures forall h :: h in g.pool && h !in old(ctx.lists)[oldVal] ==> h.val == old(h.val)
  {
    EntryOf(ctx, g, oldVal);
    EntryFacts(ctx, g, {}, oldVal);
    hide IntegrityExcept, Filter, WithList, WithMoved, Linked;
    NotifyAllReplaced(oldVal, newVal, ctx, g);
  }

  /** The walk with its sentinel, from its construction to its destruction. */
  method NotifyAllReplaced(v: Value, newVal: Value, ctx: Context, ghost g: Graph)
    requires Integrity(ctx, g) && v in g.values && newVal in g.values && v.hasValueHandle && v != newVal && v in ctx.lists
    modifies ctx, g.values, g.pool`val, g.pool`prev, g.pool`next
    ensures Integrity(ctx, g)
    ensures ctx.lists == WithList(WithMoved(old(ctx.lists), newVal, Filter(MovesOnReplace, old(ctx.lists)[v])),
                                  v, Filter(StaysOnReplace, old(ctx.lists)[v]))
    ensures forall h :: h in g.pool ==>
      h.val == if h in old(ctx.lists)[v] then (if StaysOnReplace(h) then To(v) else To(newVal)) else old(h.val)
  {
    hide IntegrityExcept, Stage, Filter, WithList, WithMoved;
    ghost var lists, list := ctx.lists, ctx.lists[v];
    var iter := ReplaceToEnd(v, newVal, ctx, g);
    ghost var kept, moved := Filter(StaysOnReplace, list), WithMoved(lists, newVal, Filter(MovesOnReplace, list));
    WithListKeys(moved, v, Stage(kept, iter, []), kept);
    EndOfLife(iter, v, ctx, g, kept);
  }

  /** The walk without the destruction of its sentinel. */
  method ReplaceToEnd(v: Value, newVal: Value, ctx: Context, ghost g: Graph) returns (iter: Handle)
    requires Integrity(ctx, g) && v in g.values && newVal in g.values && v.hasValueHandle && v != newVal && v in ctx.lists
    modifies ctx, g.values, g.pool`val, g.pool`prev, g.pool`next
    ensures fresh(iter) && Integrity(ctx, Graph(g.values, g.pool + {iter}))
    ensures ctx.lists == WithMoved(old(ctx.lists), newVal, Filter(MovesOnReplace, old(ctx.lists)[v]))
                           [v := Stage(Filter(StaysOnReplace, old(ctx.lists)[v]), iter, [])]
    ensures forall h :: h in g.pool ==>
      h.val == if h in old(ctx.lists)[v] then (if StaysOnReplace(h) then To(v) else To(newVal)) else old(h.val)
  {
    hide IntegrityExcept, Integrity, Stage, Filter, WithList, Distinct, WithMoved, ReplaceStage;
    NoEmptyList(ctx, g, newVal);
    ghost var lists, list := ctx.lists, ctx.lists[v];
    var entry;
    entry, iter := StartWalk(v, ctx, g);
    ReplaceWalk(entry, iter, v, newVal, ctx, Graph(g.values, g.pool + {iter}), lists, list);
  }

  lemma NoEmptyList(ctx: Context, g: Graph, v: Value)
    requires Integrity(ctx, g)
    ensures v in ctx.lists ==> ctx.lists[v] != []
  {
  }
}
