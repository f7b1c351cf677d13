/** Value handles: per-value intrusive lists whose heads live in one table, and the
    sentinel walks that tell the handles of a value what becomes of it. */
module ValueHandles {
  import opened Sequences

  datatype Kind = Assert | Callback | Tracking | Weak

  /** What a handle points at.  Tombstone is the pointer value that marks a tracking
      handle whose value is gone. */
  datatype Target = Null | Tombstone | To(value: Value)

  /** The cell a back pointer names: the head in the table entry of a value, or the
      `next` field of a handle. */
  datatype Link = Unlinked | HeadOf(value: Value) | NextOf(handle: Handle)

  class Value {
    var hasValueHandle: bool

    constructor ()
      ensures !hasValueHandle
    {
      hasValueHandle := false;
    }
  }

  function At(s: seq<Handle>, i: nat): Handle? {
    if i < |s| then s[i] else null
  }

  ghost function LinkAt(v: Value, s: seq<Handle>, i: nat): Link
    requires i <= |s|
  {
    if i == 0 then HeadOf(v) else NextOf(s[i - 1])
  }

  /** s is the list of v: its links run through s in both directions. */
  ghost predicate Linked(v: Value, s: seq<Handle>)
    reads s
  {
    && Distinct(s)
    && (forall i {:trigger s[i].val} :: 0 <= i < |s| ==> s[i].val == To(v))
    && (forall i {:trigger s[i].next} :: 0 <= i < |s| ==> s[i].next == At(s, i + 1))
    && (forall i {:trigger s[i].prev} :: 0 <= i < |s| ==> s[i].prev == LinkAt(v, s, i))
  }

  /** The table of the context. */
  class Context {
    var valueHandles: map<Value, Handle?>
    /** The lists behind the heads. */
    ghost var lists: map<Value, seq<Handle>>

    constructor ()
      ensures valueHandles == map[] && lists == map[]
    {
      valueHandles, lists := map[], map[];
    }

    function Load(cell: Link): Handle?
      requires cell.NextOf? || (cell.HeadOf? && cell.value in valueHandles)
      reads this, if cell.NextOf? then {cell.handle} else {}
    {
      if cell.NextOf? then cell.handle.next else valueHandles[cell.value]
    }

    method Store(cell: Link, h: Handle?)
      requires cell.NextOf? || (cell.HeadOf? && cell.value in valueHandles)
      modifies (if cell.NextOf? then {cell.handle} else {})`next, `valueHandles
      ensures cell.NextOf? ==> cell.handle.next == h && valueHandles == old(valueHandles)
      ensures cell.HeadOf? ==> valueHandles == old(valueHandles)[cell.value := h]
    {
      if cell.NextOf? {
        cell.handle.next := h;
      } else {
        valueHandles := valueHandles[cell.value := h];
      }
    }
  }

  /** Some values and the handles that may point at them. */
  datatype Graph = Graph(values: set<Value>, pool: set<Handle>)

  /** The keys of the table are those of the lists, and heads are first elements: no
      list is empty and no head is null. */
  ghost predicate HeadsOk(ctx: Context)
    reads ctx
  {
    && ctx.lists.Keys == ctx.valueHandles.Keys
    && (forall v :: v in ctx.lists ==> ctx.lists[v] != [] && v in ctx.valueHandles && ctx.valueHandles[v] == ctx.lists[v][0])
  }

  /** A value has its flag set exactly when it is a key. */
  ghost predicate FlagsOk(ctx: Context, g: Graph)
    reads ctx, g.values
  {
    && (forall v :: v in ctx.lists ==> v in g.values)
    && (forall v :: v in g.values ==> (v.hasValueHandle <==> v in ctx.lists))
  }

  /** The lists hold exactly the handles that point at their values, but for those
      that are being moved. */
  ghost predicate MembersOk(ctx: Context, g: Graph, moving: set<Handle>)
    reads ctx, g.pool
  {
    && (forall v, h :: v in ctx.lists && h in ctx.lists[v] ==> h in g.pool && h !in moving && h.val == To(v))
    && (forall h :: h in g.pool && h !in moving && h.val.To? ==> h.val.value in ctx.lists && h in ctx.lists[h.val.value])
  }

  ghost predicate AllLinked(ctx: Context, g: Graph)
    reads ctx, g.pool
  {
    forall v :: v in ctx.lists ==>
      (forall h :: h in ctx.lists[v] ==> h in g.pool) && LinkedIn(g.pool, v, ctx.lists[v])
  }

  ghost predicate LinkedIn(pool: set<Handle>, v: Value, s: seq<Handle>)
    requires forall h :: h in s ==> h in pool
    reads pool
  {
    assert forall i :: 0 <= i < |s| ==> s[i] in s;
    Linked(v, s)
  }

  /** The handle table is in order, but for the handles that are being moved. */
  ghost predicate IntegrityExcept(ctx: Context, g: Graph, moving: set<Handle>)
    reads ctx, g.values, g.pool
  {
    HeadsOk(ctx) && FlagsOk(ctx, g) && MembersOk(ctx, g, moving) && AllLinked(ctx, g)
  }

  ghost predicate Integrity(ctx: Context, g: Graph)
    reads ctx, g.values, g.pool
  {
    IntegrityExcept(ctx, g, {})
  }

  /** The lists with the list of v replaced; an empty list has no entry. */
  ghost function WithList(lists: map<Value, seq<Handle>>, v: Value, s: seq<Handle>): map<Value, seq<Handle>> {
    if s == [] then lists - {v} else lists[v := s]
  }

  ghost function ListOf(lists: map<Value, seq<Handle>>, v: Value): seq<Handle> {
    if v in lists then lists[v] else []
  }

  class Handle {
    const kind: Kind
    var prev: Link
    var next: Handle?
    var val: Target

    constructor (kind: Kind)
      ensures this.kind == kind && prev == Unlinked && next == null && val == Null
    {
      this.kind := kind;
      prev, next, val := Unlinked, null, Null;
    }

    /** Join the list s of v at place k, whose cell is `cell`. */
    method AddToExistingUseList(ctx: Context, cell: Link, ghost v: Value, ghost s: seq<Handle>, ghost k: nat)
      requires Linked(v, s) && this !in s && val == To(v) && k <= |s| && cell == LinkAt(v, s, k)
      requires v in ctx.valueHandles && ctx.valueHandles[v] == At(s, 0)
      modifies this`prev, this`next, s`prev, s`next, ctx
      ensures Linked(v, InsertAt(s, k, this))
      ensures ctx.lists == old(ctx.lists)[v := InsertAt(s, k, this)]
      ensures ctx.valueHandles == old(ctx.valueHandles)[v := InsertAt(s, k, this)[0]]
    {
      next := ctx.Load(cell);
      ctx.Store(cell, this);
      prev := cell;
      if next != null {
        next.prev := NextOf(this);
      }
      InsertedLinks(v, s, k, this);
      ctx.lists := ctx.lists[v := InsertAt(s, k, this)];
    }

    /** Leave the list s of v; when the list is emptied, the search for a null head
        finds the entry of v, and only then does it find anything. */
    method Unlink(ctx: Context, ghost v: Value, ghost s: seq<Handle>, ghost k: nat)
      requires Linked(v, s) && k < |s| && s[k] == this && val == To(v)
      requires v in ctx.valueHandles && ctx.valueHandles[v] == s[0]
      requires forall w :: w in ctx.valueHandles ==> ctx.valueHandles[w] != null
      modifies s`prev, s`next, ctx, v
      ensures Linked(v, RemoveAt(s, k)) && this !in RemoveAt(s, k)
      ensures ctx.lists == WithList(old(ctx.lists), v, RemoveAt(s, k))
      ensures RemoveAt(s, k) == [] ==> ctx.valueHandles == old(ctx.valueHandles) - {v} && !v.hasValueHandle
      ensures RemoveAt(s, k) != [] ==>
        && ctx.valueHandles == old(ctx.valueHandles)[v := RemoveAt(s, k)[0]]
        && v.hasValueHandle == old(v.hasValueHandle)
    {
      var prevPtr := prev;
      ctx.Store(prevPtr, next);
      if next != null {
        next.prev := prevPtr;
      }
      assert Linked(v, RemoveAt(s, k)) && this !in RemoveAt(s, k) by { RemovedLinks(v, s, k); }
      HeadAfterRemoval(s, k);
      if next == null {
        EraseNullHead(ctx, v);
      }
      ctx.lists := WithList(ctx.lists, v, RemoveAt(s, k));
    }

    /** The search for a null head. */
    method EraseNullHead(ctx: Context, ghost v: Value)
      requires val == To(v) && v in ctx.valueHandles
      requires forall w :: w in ctx.valueHandles && w != v ==> ctx.valueHandles[w] != null
      modifies ctx`valueHandles, v
      ensures old(ctx.valueHandles[v]) == null ==> ctx.valueHandles == old(ctx.valueHandles) - {v} && !v.hasValueHandle
      ensures old(ctx.valueHandles[v]) != null ==> ctx.valueHandles == old(ctx.valueHandles) && v.hasValueHandle == old(v.hasValueHandle)
    {
      var keys := ctx.valueHandles.Keys;
      while keys != {}
        invariant keys <= ctx.valueHandles.Keys && ctx.valueHandles == old(ctx.valueHandles)
        invariant v.hasValueHandle == old(v.hasValueHandle)
        invariant forall w :: w in ctx.valueHandles.Keys - keys ==> ctx.valueHandles[w] != null
        decreases |keys|
      {
        var w :| w in keys;
        if ctx.valueHandles[w] == null {
          ctx.valueHandles := ctx.valueHandles - {w};
          val.value.hasValueHandle := false;
          return;
        }
        keys := keys - {w};
      }
    }

    /** Point the back pointer of every head at its entry.  The entries of the table do not
        move when it grows, so nothing changes. */
    static method ResetHeads(ctx: Context, ghost g: Graph, ghost moving: set<Handle>)
      requires IntegrityExcept(ctx, g, moving)
      modifies g.pool`prev
      ensures IntegrityExcept(ctx, g, moving)
      ensures forall h :: h in g.pool ==> h.prev == old(h.prev)
    {
      hide IntegrityExcept;
      var keys := ctx.valueHandles.Keys;
      while keys != {}
        invariant keys <= ctx.valueHandles.Keys && IntegrityExcept(ctx, g, moving)
        invariant forall h :: h in g.pool ==> h.prev == old(h.prev)
        decreases |keys|
      {
        var w :| w in keys;
        EntryFacts(ctx, g, moving, w);
        var head := ctx.valueHandles[w];
        assert head != null && head.val == To(w) && head.prev == HeadOf(w);
        head.prev := HeadOf(w);
        keys := keys - {w};
      }
    }

    // ----- the same on the whole table

    /** AddToExistingUseList changes one list only. */
    method AddOne(ctx: Context, cell: Link, ghost c: Change, ghost s: seq<Handle>, ghost k: nat)
      requires c.ctx == ctx && c.x == this && val == To(c.v) && (c.v in ctx.lists ==> ctx.lists[c.v] == s)
      requires Linked(c.v, s) && this !in s && k <= |s| && cell == LinkAt(c.v, s, k)
      requires c.v in ctx.valueHandles && ctx.valueHandles[c.v] == At(s, 0)
      modifies this`prev, this`next, s`prev, s`next, ctx
      ensures OnlyListChanged(c) && ListOk(ctx, c.v)
      ensures ctx.lists == old(ctx.lists)[c.v := InsertAt(s, k, this)]
    {
      assert forall h :: h in s ==> h.val == To(c.v);
      InsertedMembers(s, k, this);
      hide Linked, InsertAt;
      AddToExistingUseList(ctx, cell, c.v, s, k);
    }

    /** Unlink changes one list only. */
    method UnlinkOne(ctx: Context, ghost c: Change, ghost s: seq<Handle>, ghost k: nat)
      requires c.ctx == ctx && c.x == this && c.v in ctx.lists && ctx.lists[c.v] == s
      requires Linked(c.v, s) && k < |s| && s[k] == this && val == To(c.v)
      requires c.v in ctx.valueHandles && ctx.valueHandles[c.v] == s[0] && c.v.hasValueHandle
      requires forall w :: w in ctx.valueHandles ==> ctx.valueHandles[w] != null
      modifies s`prev, s`next, ctx, c.v
      ensures OnlyListChanged(c) && ListOk(ctx, c.v) && (c.v.hasValueHandle <==> c.v in ctx.lists)
      ensures ctx.lists == WithList(old(ctx.lists), c.v, RemoveAt(s, k))
      ensures this !in ListOf(ctx.lists, c.v)
    {
      assert forall h :: h in s ==> h.val == To(c.v);
      hide Linked, RemoveAt;
      Unlink(ctx, c.v, s, k);
    }

    /** Leave the list of the present value and join the moving handles. */
    method RemoveFromUseList(ctx: Context, ghost g: Graph, ghost moving: set<Handle>, ghost moving': set<Handle>)
      requires IntegrityExcept(ctx, g, moving) && this in g.pool && this !in moving && val.To? && moving' == moving + {this}
      modifies ctx, g.values, g.pool`prev, g.pool`next
      ensures IntegrityExcept(ctx, g, moving')
      ensures ctx.lists == WithList(old(ctx.lists), val.value, Without(old(ctx.lists)[val.value], this))
    {
      HandleFacts(ctx, g, moving, this);
      hide IntegrityExcept, Without, RemoveAt, Linked, ListOk;
      ghost var v, s := val.value, ctx.lists[val.value];
      ghost var k :| 0 <= k < |s| && s[k] == this;
      WithoutAt(s, k);
      ghost var c := Change(ctx, g, moving, v, this);
      UnlinkOne(ctx, c, s, k);
      Removed(c);
    }

    /** Join the list of v before or after one of its handles: at place k. */
    method JoinList(ctx: Context, cell: Link, ghost g: Graph, ghost moving: set<Handle>, ghost moving': set<Handle>, ghost v: Value, ghost k: nat)
      requires IntegrityExcept(ctx, g, moving) && this in g.pool && this in moving && moving' == moving - {this}
      requires val == To(v) && v in ctx.lists && k <= |ctx.lists[v]| && cell == LinkAt(v, ctx.lists[v], k)
      modifies ctx, g.pool`prev, g.pool`next
      ensures IntegrityExcept(ctx, g, moving')
      ensures ctx.lists == old(ctx.lists)[v := InsertAt(old(ctx.lists)[v], k, this)]
    {
      ghost var s := ctx.lists[v];
      EntryFacts(ctx, g, moving, v);
      hide IntegrityExcept, InsertAt, Linked, ListOk;
      ghost var c := Change(ctx, g, moving, v, this);
      AddOne(ctx, cell, c, s, k);
      InsertedMembers(s, k, this);
      Added(c);
    }

    /** Come first in the list of the value pointed at, which may have had no list. */
    method AddToUseList(ctx: Context, ghost g: Graph, ghost moving: set<Handle>, ghost moving': set<Handle>)
      requires IntegrityExcept(ctx, g, moving) && this in g.pool && this in moving && moving' == moving - {this}
      requires val.To? && val.value in g.values
      modifies ctx, g.values, g.pool`prev, g.pool`next
      ensures IntegrityExcept(ctx, g, moving')
      ensures ctx.lists == old(ctx.lists)[val.value := [this] + ListOf(old(ctx.lists), val.value)]
    {
      var v := val.value;
      if v.hasValueHandle {
        assert v in ctx.lists;
        assert InsertAt(ctx.lists[v], 0, this) == [this] + ctx.lists[v];
        JoinList(ctx, HeadOf(v), g, moving, moving', v, 0);
      } else {
        assert ListOf(ctx.lists, v) == [] && [this] + [] == [this];
        StartList(ctx, v, g, moving, moving');
        ResetHeads(ctx, g, moving');
      }
    }

    /** Be the first handle of a value. */
    method StartList(ctx: Context, v: Value, ghost g: Graph, ghost moving: set<Handle>, ghost moving': set<Handle>)
      requires IntegrityExcept(ctx, g, moving) && this in g.pool && this in moving && moving' == moving - {this}
      requires val == To(v) && v in g.values && !v.hasValueHandle
      modifies ctx, v, this`prev, this`next
      ensures IntegrityExcept(ctx, g, moving')
      ensures ctx.lists == old(ctx.lists)[v := [this]]
    {
      assert v !in ctx.lists && v !in ctx.valueHandles;
      hide IntegrityExcept;
      ghost var c := Change(ctx, g, moving, v, this);
      EnterKey(ctx, v, c);
      Added(c);
    }

    method EnterKey(ctx: Context, v: Value, ghost c: Change)
      requires c.ctx == ctx && c.x == this && c.v == v && val == To(v)
      requires v !in ctx.lists && v !in ctx.valueHandles
      modifies ctx, v, this`prev, this`next
      ensures OnlyListChanged(c) && ListOk(ctx, v) && v.hasValueHandle
      ensures ctx.lists == old(ctx.lists)[v := [this]]
    {
      assert InsertAt([], 0, this) == [this];
      assert Linked(v, []);
      ctx.valueHandles := ctx.valueHandles[v := null];
      AddToExistingUseList(ctx, HeadOf(v), v, [], 0);
      v.hasValueHandle := true;
    }

    // ----- assignment

    /** While a handle is in no list, what it points at may change. */
    method Retarget(target: Target, ctx: Context, ghost g: Graph)
      requires IntegrityExcept(ctx, g, {this})
      modifies this`val
      ensures IntegrityExcept(ctx, g, {this}) && val == target
    {
      assert forall v :: v in ctx.lists ==> this !in ctx.lists[v];
      val := target;
      forall v | v in ctx.lists
        ensures (forall h :: h in ctx.lists[v] ==> h in g.pool) && LinkedIn(g.pool, v, ctx.lists[v])
      {
        assert old(LinkedIn(g.pool, v, ctx.lists[v]));
        assert forall i {:trigger ctx.lists[v][i].val} :: 0 <= i < |ctx.lists[v]| ==> ctx.lists[v][i] in ctx.lists[v];
      }
    }

    /** Leave the list of the present value, if there is one. */
    method Leave(ctx: Context, ghost g: Graph)
      requires Integrity(ctx, g) && this in g.pool
      modifies ctx, g.values, g.pool`prev, g.pool`next
      ensures IntegrityExcept(ctx, g, {this})
      ensures ctx.lists == ListsWithout(old(ctx.lists), this, val)
    {
      HandleInTable(ctx, g, this);
      hide Without;
      if val.To? {
        RemoveFromUseList(ctx, g, {}, {this});
      } else {
        Unlisted(ctx, g, this);
      }
    }

    /** Point at a value, or at nothing; a new value gets this handle first in its list. */
    method Assign(target: Target, ctx: Context, ghost g: Graph)
      requires Integrity(ctx, g) && this in g.pool && (target.To? ==> target.value in g.values)
      modifies this`val, ctx, g.values, g.pool`prev, g.pool`next
      ensures Integrity(ctx, g) && val == target
      ensures ctx.lists == if old(val) == target then old(ctx.lists)
                           else ListsWith(ListsWithout(old(ctx.lists), this, old(val)), this, target)
    {
      hide IntegrityExcept, Without;
      if val == target {
        return;
      }
      Leave(ctx, g);
      Retarget(target, ctx, g);
      if val.To? {
        AddToUseList(ctx, g, {this}, {});
      } else {
        Listed(ctx, g, this);
      }
    }

    /** Point where another handle points, coming right before it in its list. */
    method CopyFrom(rhs: Handle, ctx: Context, ghost g: Graph)
      requires Integrity(ctx, g) && this in g.pool && rhs in g.pool
      modifies this`val, ctx, g.values, g.pool`prev, g.pool`next
      ensures Integrity(ctx, g) && val == old(rhs.val)
      ensures ctx.lists == if old(val) == old(rhs.val) then old(ctx.lists)
                           else ListsBefore(ListsWithout(old(ctx.lists), this, old(val)), this, old(rhs.val), rhs)
    {
      hide IntegrityExcept, Without, Pos;
      if val == rhs.val {
        return;
      }
      Leave(ctx, g);
      Retarget(rhs.val, ctx, g);
      if val.To? {
        PlaceOf(ctx, g, {this}, rhs);
        ghost var v := val.value;
        JoinList(ctx, rhs.prev, g, {this}, {}, v, Pos(ctx.lists[v], rhs));
      } else {
        Listed(ctx, g, this);
      }
    }

    /** The end of a handle's life. */
    method Destroy(ctx: Context, ghost g: Graph)
      requires Integrity(ctx, g) && this in g.pool
      modifies ctx, g.values, g.pool`prev, g.pool`next
      ensures Integrity(ctx, Graph(g.values, g.pool - {this}))
      ensures ctx.lists == ListsWithout(old(ctx.lists), this, val)
    {
      Leave(ctx, g);
      PoolShrinks(ctx, g, this);
    }
  }

  /** A new handle that points at a value, or at nothing. */
  method NewHandle(kind: Kind, target: Target, ctx: Context, ghost g: Graph) returns (h: Handle)
    requires Integrity(ctx, g) && (target.To? ==> target.value in g.values)
    modifies ctx, g.values, g.pool`prev, g.pool`next
    ensures fresh(h) && h.kind == kind && h.val == target
    ensures Integrity(ctx, Graph(g.values, g.pool + {h}))
    ensures ctx.lists == ListsWith(old(ctx.lists), h, target)
  {
    h := new Handle(kind);
    PoolGrows(ctx, g, h);
    hide IntegrityExcept;
    h.Assign(target, ctx, Graph(g.values, g.pool + {h}));
  }

  /** A new handle that points where another does, right before it in its list. */
  method NewCopy(kind: Kind, rhs: Handle, ctx: Context, ghost g: Graph) returns (h: Handle)
    requires Integrity(ctx, g) && rhs in g.pool
    modifies ctx, g.values, g.pool`prev, g.pool`next
    ensures fresh(h) && h.kind == kind && h.val == old(rhs.val)
    ensures Integrity(ctx, Graph(g.values, g.pool + {h}))
    ensures ctx.lists == ListsBefore(old(ctx.lists), h, old(rhs.val), rhs)
  {
    h := new Handle(kind);
    PoolGrows(ctx, g, h);
    hide IntegrityExcept;
    h.CopyFrom(rhs, ctx, Graph(g.values, g.pool + {h}));
  }

  lemma PoolGrows(ctx: Context, g: Graph, h: Handle)
    requires Integrity(ctx, g) && h !in g.pool && h.val == Null
    ensures Integrity(ctx, Graph(g.values, g.pool + {h}))
  {
    var g' := Graph(g.values, g.pool + {h});
    forall v | v in ctx.lists
      ensures (forall x :: x in ctx.lists[v] ==> x in g'.pool) && LinkedIn(g'.pool, v, ctx.lists[v])
    {
      assert LinkedIn(g.pool, v, ctx.lists[v]);
    }
  }

  lemma PoolShrinks(ctx: Context, g: Graph, h: Handle)
    requires IntegrityExcept(ctx, g, {h})
    ensures Integrity(ctx, Graph(g.values, g.pool - {h}))
  {
    var g' := Graph(g.values, g.pool - {h});
    forall v | v in ctx.lists
      ensures (forall x :: x in ctx.lists[v] ==> x in g'.pool) && LinkedIn(g'.pool, v, ctx.lists[v])
    {
      assert LinkedIn(g.pool, v, ctx.lists[v]);
    }
  }

  /** Where a handle stands, and the cell that holds it. */
  lemma PlaceOf(ctx: Context, g: Graph, moving: set<Handle>, h: Handle)
    requires IntegrityExcept(ctx, g, moving) && h in g.pool && h !in moving && h.val.To?
    ensures var v := h.val.value;
      v in ctx.lists && Pos(ctx.lists[v], h) < |ctx.lists[v]| && h.prev == LinkAt(v, ctx.lists[v], Pos(ctx.lists[v], h))
  {
    hide Pos;
    var v := h.val.value;
    assert LinkedIn(g.pool, v, ctx.lists[v]);
  }

  /** The lists with h right before a handle of the same value. */
  ghost function ListsBefore(lists: map<Value, seq<Handle>>, h: Handle, to: Target, rhs: Handle): map<Value, seq<Handle>> {
    if to.To? && to.value in lists then
      lists[to.value := InsertAt(lists[to.value], Pos(lists[to.value], rhs), h)]
    else lists
  }

  /** A valid handle is in the list of its value. */
  lemma HandleInTable(ctx: Context, g: Graph, h: Handle)
    requires Integrity(ctx, g) && h in g.pool
    ensures h.val.To? ==> h.val.value in ctx.lists && h in ctx.lists[h.val.value]
  {
  }

  /** A handle that points at no value is in no list. */
  lemma Unlisted(ctx: Context, g: Graph, h: Handle)
    requires Integrity(ctx, g) && !h.val.To?
    ensures IntegrityExcept(ctx, g, {h})
  {
  }

  lemma Listed(ctx: Context, g: Graph, h: Handle)
    requires IntegrityExcept(ctx, g, {h}) && !h.val.To?
    ensures Integrity(ctx, g)
  {
  }

  ghost function ListsWithout(lists: map<Value, seq<Handle>>, h: Handle, from: Target): map<Value, seq<Handle>> {
    if from.To? && from.value in lists then WithList(lists, from.value, Without(lists[from.value], h)) else lists
  }

  ghost function ListsWith(lists: map<Value, seq<Handle>>, h: Handle, to: Target): map<Value, seq<Handle>> {
    if to.To? then lists[to.value := [h] + ListOf(lists, to.value)] else lists
  }

  /** A handle that is given a value comes first in its list; the other lists stay. */
  lemma FirstInList(lists: map<Value, seq<Handle>>, h: Handle, v: Value)
    ensures var r := ListsWith(lists, h, To(v));
      && r.Keys == lists.Keys + {v}
      && r[v] == [h] + (if v in lists then lists[v] else [])
      && (forall w :: w in lists && w != v ==> r[w] == lists[w])
    ensures ListsWith(lists, h, Null) == lists == ListsWith(lists, h, Tombstone)
  {
  }

  /** A copy comes right before its original. */
  lemma BeforeOriginal(lists: map<Value, seq<Handle>>, h: Handle, v: Value, p: nat)
    requires v in lists && Distinct(lists[v]) && p < |lists[v]|
    ensures ListsBefore(lists, h, To(v), lists[v][p]) == lists[v := lists[v][..p] + [h] + lists[v][p..]]
  {
    PosAt(lists[v], p);
  }

  /** A handle that leaves is taken out of its list, and an emptied list out of the table. */
  lemma OutOfList(lists: map<Value, seq<Handle>>, h: Handle, v: Value, k: nat)
    requires v in lists && Distinct(lists[v]) && k < |lists[v]| && lists[v][k] == h
    ensures |lists[v]| == 1 ==> ListsWithout(lists, h, To(v)) == lists - {v}
    ensures |lists[v]| > 1 ==> ListsWithout(lists, h, To(v)) == lists[v := lists[v][..k] + lists[v][k + 1..]]
    ensures ListsWithout(lists, h, Null) == lists == ListsWithout(lists, h, Tombstone)
  {
    WithoutAt(lists[v], k);
  }

  /** What the integrity of the table says about one entry. */
  lemma EntryFacts(ctx: Context, g: Graph, moving: set<Handle>, v: Value)
    requires IntegrityExcept(ctx, g, moving) && (v in ctx.valueHandles || v in ctx.lists)
    ensures v in ctx.lists && v in g.values && v.hasValueHandle && Linked(v, ctx.lists[v])
    ensures ctx.lists[v] != [] && ctx.valueHandles[v] == ctx.lists[v][0]
    ensures ctx.lists[v][0].val == To(v) && ctx.lists[v][0].prev == HeadOf(v)
    ensures forall h :: h in ctx.lists[v] ==> h in g.pool && h !in moving && h.val == To(v)
  {
    assert LinkedIn(g.pool, v, ctx.lists[v]);
  }

  /** And about one handle. */
  lemma HandleFacts(ctx: Context, g: Graph, moving: set<Handle>, h: Handle)
    requires IntegrityExcept(ctx, g, moving) && h in g.pool && h !in moving && h.val.To?
    ensures h.val.value in ctx.valueHandles && h.val.value in ctx.lists && h in ctx.lists[h.val.value]
    ensures forall w :: w in ctx.valueHandles ==> ctx.valueHandles[w] != null
    ensures h.val.value in g.values && h.val.value.hasValueHandle && Linked(h.val.value, ctx.lists[h.val.value])
    ensures ctx.lists[h.val.value] != [] && ctx.valueHandles[h.val.value] == ctx.lists[h.val.value][0]
    ensures forall x :: x in ctx.lists[h.val.value] ==> x in g.pool && x !in moving && x.val == h.val
    ensures ctx.lists.Keys == ctx.valueHandles.Keys
  {
    EntryFacts(ctx, g, moving, h.val.value);
  }

  lemma InsertedMembers(s: seq<Handle>, k: nat, h: Handle)
    requires k <= |s|
    ensures forall x :: x in InsertAt(s, k, h) <==> x == h || x in s
    ensures InsertAt(s, k, h) != []
  {
    assert s == s[..k] + s[k..];
  }

  /** Inserting a handle into the links: it stands between its neighbours. */
  lemma InsertedLinks(v: Value, s: seq<Handle>, k: nat, h: Handle)
    requires Distinct(s) && h !in s && k <= |s|
    requires forall i {:trigger s[i].val} :: 0 <= i < |s| ==> s[i].val == To(v)
    requires forall i {:trigger s[i].next} :: 0 <= i < |s| ==> s[i].next == if i + 1 == k then h else At(s, i + 1)
    requires forall i {:trigger s[i].prev} :: 0 <= i < |s| ==> s[i].prev == if i == k then NextOf(h) else LinkAt(v, s, i)
    requires h.val == To(v) && h.next == At(s, k) && h.prev == LinkAt(v, s, k)
    ensures Linked(v, InsertAt(s, k, h))
  {
    InsertAtPlaces(s, k, h);
    hide InsertAt, Distinct;
    var t := InsertAt(s, k, h);
    forall i | 0 <= i < |t|
      ensures t[i].next == At(t, i + 1) && t[i].prev == LinkAt(v, t, i) && t[i].val == To(v)
    {
      assert t[i] == if i < k then s[i] else if i == k then h else s[i - 1];
    }
  }

  /** A change to one list: of v, because of x. */
  datatype Change = Change(ctx: Context, g: Graph, moving: set<Handle>, v: Value, x: Handle)

  ghost predicate SameBut<K, V>(m: map<K, V>, n: map<K, V>, k: K) {
    && (forall w :: w in m && w != k ==> w in n && m[w] == n[w])
    && (forall w :: w in n && w != k ==> w in m)
  }

  /** No other list changed, and no link of a handle of another value. */
  twostate predicate OnlyListChanged(c: Change)
    reads c.ctx, c.g.values, c.g.pool
  {
    && SameBut(old(c.ctx.lists), c.ctx.lists, c.v)
    && SameBut(old(c.ctx.valueHandles), c.ctx.valueHandles, c.v)
    && (forall w :: w in c.g.values && w != c.v ==> w.hasValueHandle == old(w.hasValueHandle))
    && (forall h :: h in c.g.pool ==> h.val == old(h.val))
    && (forall h :: h in c.g.pool && h != c.x && h.val != To(c.v) ==> h.next == old(h.next) && h.prev == old(h.prev))
  }

  /** The list of v is in order by itself. */
  ghost predicate ListOk(ctx: Context, v: Value)
    reads ctx, ListOf(ctx.lists, v)
  {
    && (v in ctx.valueHandles <==> v in ctx.lists)
    && (v in ctx.lists ==>
          var s := ctx.lists[v];
          Linked(v, s) && s != [] && v in ctx.valueHandles && ctx.valueHandles[v] == s[0])
  }

  twostate lemma OthersLinked(c: Change)
    requires old(IntegrityExcept(c.ctx, c.g, c.moving)) && OnlyListChanged(c) && c.x.val == To(c.v)
    requires ListOk(c.ctx, c.v) && forall h :: h in ListOf(c.ctx.lists, c.v) ==> h in c.g.pool
    ensures AllLinked(c.ctx, c.g)
  {
    forall w | w in c.ctx.lists
      ensures (forall h :: h in c.ctx.lists[w] ==> h in c.g.pool) && LinkedIn(c.g.pool, w, c.ctx.lists[w])
    {
      if w != c.v {
        ghost var s := old(c.ctx.lists)[w];
        assert old(LinkedIn(c.g.pool, w, c.ctx.lists[w]));
        assert forall i {:trigger s[i].val} :: 0 <= i < |s| ==> s[i] in s && s[i] in c.g.pool && s[i].val == To(w);
      }
    }
  }

  twostate lemma TableKept(c: Change)
    requires old(IntegrityExcept(c.ctx, c.g, c.moving)) && OnlyListChanged(c) && c.v in c.g.values
    requires ListOk(c.ctx, c.v) && (c.v.hasValueHandle <==> c.v in c.ctx.lists)
    ensures HeadsOk(c.ctx) && FlagsOk(c.ctx, c.g)
  {
  }

  twostate lemma MembersRemoved(c: Change)
    requires old(MembersOk(c.ctx, c.g, c.moving)) && c.x in c.g.pool && c.x !in c.moving && c.x.val == To(c.v)
    requires OnlyListChanged(c)
    requires ListOf(c.ctx.lists, c.v) == Without(ListOf(old(c.ctx.lists), c.v), c.x)
    requires c.x !in ListOf(c.ctx.lists, c.v)
    ensures MembersOk(c.ctx, c.g, c.moving + {c.x})
  {
    hide Without;
    InWithout(ListOf(old(c.ctx.lists), c.v), c.x);
  }

  twostate lemma Removed(c: Change)
    requires old(IntegrityExcept(c.ctx, c.g, c.moving)) && c.x in c.g.pool && c.x !in c.moving && c.x.val == To(c.v)
    requires OnlyListChanged(c) && c.v in c.g.values && ListOk(c.ctx, c.v)
    requires c.v.hasValueHandle <==> c.v in c.ctx.lists
    requires ListOf(c.ctx.lists, c.v) == Without(ListOf(old(c.ctx.lists), c.v), c.x)
    requires c.x !in ListOf(c.ctx.lists, c.v)
    ensures IntegrityExcept(c.ctx, c.g, c.moving + {c.x})
  {
    hide Without, Linked, HeadsOk, FlagsOk;
    MembersRemoved(c);
    OthersLinked(c);
    TableKept(c);
  }

  twostate lemma MembersAdded(c: Change)
    requires old(MembersOk(c.ctx, c.g, c.moving)) && c.x in c.g.pool && c.x in c.moving && c.x.val == To(c.v)
    requires OnlyListChanged(c)
    requires forall h :: h in ListOf(c.ctx.lists, c.v) <==> h == c.x || h in ListOf(old(c.ctx.lists), c.v)
    ensures MembersOk(c.ctx, c.g, c.moving - {c.x})
  {
    forall v, h | v in c.ctx.lists && h in c.ctx.lists[v]
      ensures h in c.g.pool && h !in c.moving - {c.x} && h.val == To(v)
    {
      if v == c.v {
        assert h in ListOf(c.ctx.lists, c.v);
      }
    }
    assert c.x in ListOf(c.ctx.lists, c.v);
  }

  twostate lemma Added(c: Change)
    requires old(IntegrityExcept(c.ctx, c.g, c.moving)) && c.x in c.g.pool && c.x in c.moving && c.x.val == To(c.v)
    requires OnlyListChanged(c) && c.v in c.g.values && ListOk(c.ctx, c.v)
    requires c.v.hasValueHandle <==> c.v in c.ctx.lists
    requires forall h :: h in ListOf(c.ctx.lists, c.v) <==> h == c.x || h in ListOf(old(c.ctx.lists), c.v)
    ensures IntegrityExcept(c.ctx, c.g, c.moving - {c.x})
  {
    hide Linked, HeadsOk, FlagsOk;
    MembersAdded(c);
    OthersLinked(c);
    TableKept(c);
  }

  /** Removing a handle from the links: its neighbours join. */
  lemma RemovedLinks(v: Value, s: seq<Handle>, k: nat)
    requires Distinct(s) && k < |s|
    requires forall i {:trigger s[i].val} :: 0 <= i < |s| ==> s[i].val == To(v)
    requires forall i {:trigger s[i].next} :: 0 <= i < |s| && i != k ==> s[i].next == At(s, if i + 1 == k then k + 1 else i + 1)
    requires forall i {:trigger s[i].prev} :: 0 <= i < |s| && i != k ==> s[i].prev == LinkAt(v, s, if i == k + 1 then k else i)
    ensures Linked(v, RemoveAt(s, k)) && s[k] !in RemoveAt(s, k)
  {
    RemoveAtPlaces(s, k);
    hide RemoveAt, Distinct;
    var t := RemoveAt(s, k);
    forall i | 0 <= i < |t|
      ensures t[i].next == At(t, i + 1) && t[i].prev == LinkAt(v, t, i) && t[i].val == To(v)
    {
      assert t[i] == s[if i < k then i else i + 1];
    }
  }

  lemma HeadAfterRemoval(s: seq<Handle>, k: nat)
    requires k < |s|
    ensures At(RemoveAt(s, k), 0) == if k == 0 then At(s, 1) else s[0]
    ensures RemoveAt(s, k) == [] <==> |s| == 1
  {
  }
}
