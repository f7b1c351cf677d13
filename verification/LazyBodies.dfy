/** Function bodies found lazily: the module parse suspends after each body and resumes on
    demand, and finds the same body for each prototype as a parse straight through. */
module LazyBodies {
  import opened Sequences

  /** What the module block holds, as far as bodies are concerned: prototypes, function
      blocks with the bit where their contents begin, the value symbol table, and the rest. */
  datatype Item = Proto(func: nat, isProto: bool) | Body(at: nat) | ValueSymTab | Other

  /** What the parse keeps: the prototypes waiting for a body, the next one last once a body
      was seen; the offsets found, 0 when still missing. */
  datatype State = State(waiting: seq<nat>, found: map<nat, nat>, seenBody: bool, seenValueSymTab: bool, failed: bool)

  const START := State([], map[], false, false, false)

  function Promises(item: Item): bool {
    item.Proto? && !item.isProto
  }

  // ----- the parse straight through

  function Step(st: State, item: Item): State {
    match item
    case Proto(f, isProto) =>
      if isProto then st else st.(waiting := st.waiting + [f], found := st.found[f := 0])
    case Body(at) =>
      var waiting := if st.seenBody then st.waiting else Reversed(st.waiting);
      if waiting == [] then st.(waiting := [], seenBody := true, failed := true)
      else
        var k := |waiting| - 1;
        st.(waiting := waiting[..k], found := st.found[waiting[k] := at], seenBody := true)
    case ValueSymTab => st.(seenValueSymTab := true)
    case Other => st
  }

  /** The state after all items, stopping at the first failure. */
  function Run(items: seq<Item>): State {
    if items == [] then START else
      var k := |items| - 1;
      var st := Run(items[..k]);
      if st.failed then st else Step(st, items[k])
  }

  lemma RunNext(items: seq<Item>, k: nat)
    requires k < |items|
    ensures Run(items[..k + 1]) == if Run(items[..k]).failed then Run(items[..k]) else Step(Run(items[..k]), items[k])
  {
    assert items[..k + 1][..k] == items[..k];
  }

  lemma {:induction false} SeenInRun(items: seq<Item>)
    ensures !Run(items).failed ==> (Run(items).seenValueSymTab <==> ValueSymTab in items)
  {
    if items != [] {
      var k := |items| - 1;
      SeenInRun(items[..k]);
      assert items == items[..k] + [items[k]];
    }
  }

  /** Each function is created once, and bodies lie one after the other past the start. */
  ghost predicate WellFormed(items: seq<Item>) {
    && (forall i, j :: 0 <= i < j < |items| && Promises(items[i]) && Promises(items[j]) ==> items[i].func != items[j].func)
    && (forall i :: 0 <= i < |items| && items[i].Body? ==> items[i].at > 0)
    && (forall i, j :: 0 <= i < j < |items| && items[i].Body? && items[j].Body? ==> items[i].at < items[j].at)
  }

  /** The functions created with a body to come. */
  function Promised(items: seq<Item>): set<nat> {
    if items == [] then {} else
      var k := |items| - 1;
      Promised(items[..k]) + if Promises(items[k]) then {items[k].func} else {}
  }

  /** The functions known so far are those promised, and those without an offset wait, once each. */
  ghost predicate Keeps(items: seq<Item>, st: State) {
    !st.failed ==>
      && Distinct(st.waiting)
      && st.found.Keys == Promised(items)
      && (forall f :: f in st.waiting <==> f in st.found && st.found[f] == 0)
  }

  lemma {:induction false} InReversed<T>(s: seq<T>)
    ensures |Reversed(s)| == |s| && forall x :: x in Reversed(s) <==> x in s
    ensures Distinct(s) ==> Distinct(Reversed(s))
  {
    if s != [] {
      InReversed(s[1..]);
      assert s == [s[0]] + s[1..];
      if Distinct(s) {
        assert s[0] !in s[1..];
      }
    }
  }

  lemma {:induction false} PromisedBefore(items: seq<Item>, f: nat) returns (i: nat)
    requires f in Promised(items)
    ensures i < |items| && Promises(items[i]) && items[i].func == f
  {
    i := |items| - 1;
    if !(Promises(items[i]) && items[i].func == f) {
      i := PromisedBefore(items[..i], f);
    }
  }

  lemma FreshFunction(items: seq<Item>, k: nat)
    requires WellFormed(items) && k < |items| && Promises(items[k])
    ensures items[k].func !in Promised(items[..k])
  {
    if items[k].func in Promised(items[..k]) {
      var i := PromisedBefore(items[..k], items[k].func);
    }
  }

  lemma BodyKeeps(items: seq<Item>, st: State, at: nat)
    requires Keeps(items, st) && !st.failed && at > 0
    ensures Keeps(items, Step(st, Body(at))) && Stays(st, Step(st, Body(at)))
  {
    InReversed(st.waiting);
    hide Reversed, Promised;
    var waiting := if st.seenBody then st.waiting else Reversed(st.waiting);
    if waiting != [] {
      var k := |waiting| - 1;
      assert forall f :: f in waiting[..k] <==> f in waiting && f != waiting[k];
    }
  }

  lemma ProtoKeeps(items: seq<Item>, st: State, f: nat)
    requires Keeps(items, st) && !st.failed && f !in Promised(items)
    ensures Keeps(items + [Proto(f, false)], Step(st, Proto(f, false))) && Stays(st, Step(st, Proto(f, false)))
  {
    assert (items + [Proto(f, false)])[..|items|] == items;
    assert Promised(items + [Proto(f, false)]) == Promised(items) + {f};
    DistinctSnoc(st.waiting, f);
    hide Distinct, Promised;
  }

  lemma StepKeeps(items: seq<Item>, st: State, item: Item)
    requires Keeps(items, st) && !st.failed
    requires (Promises(item) ==> item.func !in Promised(items)) && (item.Body? ==> item.at > 0)
    ensures Keeps(items + [item], Step(st, item)) && Stays(st, Step(st, item))
  {
    assert (items + [item])[..|items|] == items;
    if Promises(item) {
      ProtoKeeps(items, st, item.func);
    } else {
      assert Promised(items + [item]) == Promised(items);
      if item.Body? {
        BodyKeeps(items, st, item.at);
      }
    }
  }

  lemma DistinctSnoc<T>(s: seq<T>, x: T)
    requires Distinct(s) && x !in s
    ensures Distinct(s + [x])
  {
  }

  /** The offset of a function, once found, stays, and so do the flags. */
  ghost predicate Stays(a: State, b: State) {
    && (a.failed ==> b.failed)
    && (a.seenValueSymTab ==> b.seenValueSymTab)
    && (forall f :: f in a.found ==> f in b.found && (a.found[f] != 0 ==> b.found[f] == a.found[f]))
  }

  lemma {:induction false} RunKeeps(items: seq<Item>)
    requires WellFormed(items)
    ensures Keeps(items, Run(items))
  {
    if items == [] {
    } else {
      var k := |items| - 1;
      RunKeeps(items[..k]);
      if Promises(items[k]) {
        FreshFunction(items, k);
      }
      assert items == items[..k] + [items[k]];
      if !Run(items[..k]).failed {
        StepKeeps(items[..k], Run(items[..k]), items[k]);
      }
    }
  }

  lemma {:induction false} RunStays(items: seq<Item>, i: nat, j: nat)
    requires WellFormed(items) && i <= j <= |items|
    ensures Stays(Run(items[..i]), Run(items[..j]))
    decreases j - i
  {
    if i < j {
      RunStays(items, i, j - 1);
      RunNext(items, j - 1);
      RunKeeps(items[..j - 1]);
      var st := Run(items[..j - 1]);
      if !st.failed {
        if Promises(items[j - 1]) {
          FreshFunction(items, j - 1);
        }
        StepKeeps(items[..j - 1], st, items[j - 1]);
      }
      hide Run, Step, Keeps;
    }
  }

  lemma {:induction false} NoBodies(items: seq<Item>, i: nat, j: nat, f: nat)
    requires WellFormed(items) && i <= j <= |items| && f in Run(items[..i]).found
    requires forall k :: i <= k < j ==> !items[k].Body?
    ensures f in Run(items[..j]).found && Run(items[..j]).found[f] == Run(items[..i]).found[f]
    decreases j - i
  {
    if i < j {
      NoBodies(items, i, j - 1, f);
      RunNext(items, j - 1);
      RunKeeps(items[..j - 1]);
      if Promises(items[j - 1]) {
        FreshFunction(items, j - 1);
      }
    }
  }

  lemma {:induction false} ListStays(items: seq<Item>, i: nat, j: nat)
    requires i <= j <= |items|
    ensures PromisedList(items[..i]) <= PromisedList(items[..j])
    ensures (forall k :: i <= k < j ==> !Promises(items[k])) ==> PromisedList(items[..i]) == PromisedList(items[..j])
    decreases j - i
  {
    if i < j {
      assert items[..j][..j - 1] == items[..j - 1];
      ListStays(items, i, j - 1);
    }
  }

  // ----- the reader

  function PromisedList(items: seq<Item>): (r: seq<nat>)
    ensures forall f :: f in r <==> f in Promised(items)
  {
    if items == [] then [] else
      var k := |items| - 1;
      PromisedList(items[..k]) + if Promises(items[k]) then [items[k].func] else []
  }

  /** The bodies read, once each, lie where the parse found them; the others are still to
      be read. */
  ghost predicate ReadRightly(bodiesRead: seq<(nat, nat)>, materializable: set<nat>, st: State) {
    && (forall i, j :: 0 <= i < j < |bodiesRead| ==> bodiesRead[i].0 != bodiesRead[j].0)
    && (forall i :: 0 <= i < |bodiesRead| ==> bodiesRead[i].0 in st.found && st.found[bodiesRead[i].0] == bodiesRead[i].1 > 0)
    && (forall f :: f in materializable <==> f in st.found && !WasRead(bodiesRead, f))
  }

  ghost predicate WasRead(bodiesRead: seq<(nat, nat)>, f: nat) {
    exists i :: 0 <= i < |bodiesRead| && bodiesRead[i].0 == f
  }

  /** Every promised body is there, and no other. */
  ghost predicate Complete(items: seq<Item>) {
    WellFormed(items) && !Run(items).failed && Run(items).waiting == []
  }

  lemma DrainedStep(items: seq<Item>, k: nat)
    requires Complete(items) && k < |items|
    requires Run(items[..k]).waiting == [] && PromisedList(items[..k]) == PromisedList(items)
    ensures Run(items[..k + 1]).waiting == [] && !items[k].Body? && PromisedList(items[..k + 1]) == PromisedList(items)
  {
    RunNext(items, k);
    RunStays(items, k + 1, |items|);
    ListStays(items, k + 1, |items|);
    assert items[..|items|] == items && items[..k + 1][..k] == items[..k];
    hide WellFormed, Stays, Run;
    ReversedEmpty<nat>();
  }

  /** Where all functions are declared and none waits, no body follows. */
  lemma {:induction false} Drained(items: seq<Item>, i: nat, j: nat)
    requires Complete(items) && i <= j <= |items|
    requires Run(items[..i]).waiting == [] && PromisedList(items[..i]) == PromisedList(items)
    ensures Run(items[..j]).waiting == [] && PromisedList(items[..j]) == PromisedList(items)
    ensures forall k :: i <= k < j ==> !items[k].Body?
    decreases j - i
  {
    hide Complete, Run, PromisedList;
    if i < j {
      Drained(items, i, j - 1);
      DrainedStep(items, j - 1);
    }
  }

  /** The set or list of functions after one more item. */
  function WithItem(functions: set<nat>, item: Item): set<nat> {
    if Promises(item) then functions + {item.func} else functions
  }

  function ThenItem(functions: seq<nat>, item: Item): seq<nat> {
    if Promises(item) then functions + [item.func] else functions
  }

  lemma StepFound(items: seq<Item>, st: State, item: Item)
    requires Keeps(items, st) && !st.failed && !Step(st, item).failed
    ensures Step(st, item).found.Keys == WithItem(st.found.Keys, item)
  {
    InReversed(st.waiting);
  }

  lemma ReadStays(bodiesRead: seq<(nat, nat)>, materializable: set<nat>, st: State, next: State, item: Item)
    requires ReadRightly(bodiesRead, materializable, st) && Stays(st, next) && !next.failed
    requires next.found.Keys == WithItem(st.found.Keys, item) && (Promises(item) ==> item.func !in st.found)
    ensures ReadRightly(bodiesRead, WithItem(materializable, item), next)
  {
  }

  lemma ReadOne(bodiesRead: seq<(nat, nat)>, materializable: set<nat>, st: State, f: nat)
    requires ReadRightly(bodiesRead, materializable, st) && f in materializable && st.found[f] != 0
    ensures ReadRightly(bodiesRead + [(f, st.found[f])], materializable - {f}, st)
  {
    var more := bodiesRead + [(f, st.found[f])];
    forall x
      ensures WasRead(more, x) <==> WasRead(bodiesRead, x) || x == f
    {
      if i :| 0 <= i < |bodiesRead| && bodiesRead[i].0 == x {
        assert more[i].0 == x;
      }
      if x == f {
        assert more[|bodiesRead|].0 == x;
      }
    }
    assert !WasRead(bodiesRead, f);
    assert forall i :: 0 <= i < |bodiesRead| ==> bodiesRead[i].0 != f;
    hide WasRead;
  }

  lemma FailedFinally(items: seq<Item>, k: nat)
    requires WellFormed(items) && k <= |items| && Run(items[..k]).failed
    ensures Run(items).failed
  {
    RunStays(items, k, |items|);
    assert items[..|items|] == items;
  }

  /** One more item keeps that, with its function added to those still to be read. */
  lemma ReadNext(items: seq<Item>, k: nat, bodiesRead: seq<(nat, nat)>, materializable: set<nat>)
    requires WellFormed(items) && k < |items| && !Run(items[..k]).failed
    requires ReadRightly(bodiesRead, materializable, Run(items[..k]))
    ensures var st, item := Run(items[..k]), items[k];
      && Run(items[..k + 1]) == Step(st, item)
      && (if Step(st, item).failed then Run(items).failed
          else ReadRightly(bodiesRead, WithItem(materializable, item), Step(st, item)))
    ensures PromisedList(items[..k + 1]) == ThenItem(PromisedList(items[..k]), items[k])
  {
    var st, item := Run(items[..k]), items[k];
    RunNext(items, k);
    assert items[..k + 1][..k] == items[..k];
    RunKeeps(items[..k]);
    if Promises(item) {
      FreshFunction(items, k);
    }
    StepKeeps(items[..k], st, item);
    if Step(st, item).failed {
      FailedFinally(items, k + 1);
    } else {
      StepFound(items[..k], st, item);
      hide Step, Run, Promised, ReadRightly, WellFormed, Stays;
      ReadStays(bodiesRead, materializable, st, Step(st, item), item);
    }
  }

  lemma FoundByBody(items: seq<Item>, before: nat, k: nat, f: nat)
    requires before <= k < |items| && items[k].Body? && forall i :: before <= i < k ==> !items[i].Body?
    requires f in Run(items[..before]).found && Run(items[..before]).found[f] == 0
    requires f in Run(items[..k + 1]).found && Run(items[..k + 1]).found[f] != 0
    requires !Run(items[..k + 1]).failed && WellFormed(items)
    ensures items[k].at == Run(items[..k + 1]).found[f]
  {
    RunNext(items, k);
    hide Run;
    NoBodies(items, before, k, f);
  }

  /** The cursor stands between items; the bits of the stream and what is read inside a
      block are left to the bitstream cursor. */
  class BitcodeReader {
    const items: seq<Item>
    /** The next item of the module block; |items| at its end, more beyond the end. */
    var cursor: nat
    /** Where to resume, 0 before the first suspension. */
    var nextUnread: nat
    var funcWithBodies: seq<nat>
    var deferredFuncInfo: map<nat, nat>
    var seenFirstFuncBody: bool
    var seenValueSymTab: bool
    /** The functions whose body is not read yet. */
    var materializable: set<nat>
    /** The module's functions with a body, in the order of their creation. */
    var functions: seq<nat>
    /** How many items the module parse has dealt with. */
    ghost var parsed: nat
    /** The bodies read, with the offsets they were read at. */
    ghost var bodiesRead: seq<(nat, nat)>

    function Parse(failed: bool): State
      reads this`funcWithBodies, this`deferredFuncInfo, this`seenFirstFuncBody, this`seenValueSymTab
    {
      State(funcWithBodies, deferredFuncInfo, seenFirstFuncBody, seenValueSymTab, failed)
    }

    /** What holds of the parse at the item it has come to. */
    ghost predicate At(k: nat)
      reads this`parsed, this`funcWithBodies, this`deferredFuncInfo, this`seenFirstFuncBody, this`seenValueSymTab
      reads this`functions, this`materializable, this`bodiesRead
    {
      && parsed == k <= |items| && WellFormed(items) && Parse(false) == Run(items[..k])
      && functions == PromisedList(items[..k]) && ReadRightly(bodiesRead, materializable, Parse(false))
    }

    /** Between calls the parse has not begun, is suspended after a body, or is done. */
    ghost predicate Valid()
      reads this
    {
      && At(parsed)
      && (cursor > |items| ==> parsed == |items|)
      && (nextUnread == 0 ==> parsed == 0 || parsed == |items|)
      && (nextUnread != 0 ==> nextUnread == parsed || (nextUnread < parsed && parsed == |items|))
      && (nextUnread != 0 ==> nextUnread <= |items| && items[nextUnread - 1].Body? && seenValueSymTab)
    }

    constructor (items: seq<Item>)
      requires WellFormed(items)
      ensures this.items == items && Valid() && parsed == 0 && nextUnread == 0 && bodiesRead == []
    {
      this.items := items;
      cursor, nextUnread, funcWithBodies, deferredFuncInfo := 0, 0, [], map[];
      seenFirstFuncBody, seenValueSymTab, materializable, functions := false, false, {}, [];
      parsed, bodiesRead := 0, [];
      new;
      assert items[..0] == [];
    }

    predicate AtEndOfStream()
      reads this
    {
      cursor > |items|
    }

    /** Note where a body begins and go on behind it.  The prototypes still waiting are
        turned round at the first body. */
    method RememberAndSkipFunctionBody(at: nat) returns (ok: bool)
      modifies this`funcWithBodies, this`deferredFuncInfo, this`seenFirstFuncBody
      ensures Parse(!ok) == Step(old(Parse(false)), Body(at))
    {
      if !seenFirstFuncBody {
        funcWithBodies := Reversed(funcWithBodies);
        seenFirstFuncBody := true;
      }
      if funcWithBodies == [] {
        return false;
      }
      var func := funcWithBodies[|funcWithBodies| - 1];
      funcWithBodies := funcWithBodies[..|funcWithBodies| - 1];
      deferredFuncInfo := deferredFuncInfo[func := at];
      return true;
    }

    method AddPrototype(f: nat)
      modifies this`funcWithBodies, this`deferredFuncInfo, this`materializable, this`functions
      ensures Parse(false) == Step(old(Parse(false)), Proto(f, false))
      ensures materializable == old(materializable) + {f} && functions == old(functions) + [f]
    {
      materializable := materializable + {f};
      functions := functions + [f];
      funcWithBodies := funcWithBodies + [f];
      deferredFuncInfo := deferredFuncInfo[f := 0];
    }

    /** Deal with one item of the module block. */
    method ParseItem() returns (ok: bool)
      requires At(parsed) && cursor == parsed < |items|
      modifies this
      ensures cursor == parsed == old(parsed) + 1 && nextUnread == old(nextUnread) && bodiesRead == old(bodiesRead)
      ensures if ok then At(parsed) else Run(items).failed
      ensures old(seenValueSymTab) ==> seenValueSymTab
      ensures old(deferredFuncInfo.Keys) <= deferredFuncInfo.Keys
    {
      ReadNext(items, parsed, bodiesRead, materializable);
      hide Run, ReadRightly, PromisedList, Promised, WellFormed, Reversed, Stays, Keeps;
      ok := true;
      match items[cursor] {
        case Proto(f, isProto) =>
          if !isProto {
            AddPrototype(f);
          }
        case Body(at) =>
          ok := RememberAndSkipFunctionBody(at);
        case ValueSymTab =>
          seenValueSymTab := true;
        case Other =>
      }
      cursor := cursor + 1;
      parsed := parsed + 1;
    }

    /** The flag is set once the symbol table has been dealt with. */
    lemma SymTabSeen()
      requires At(parsed) && 0 < parsed
      ensures items[parsed - 1] != ValueSymTab ==> (seenValueSymTab <==> ValueSymTab in items[..parsed - 1])
    {
      var before := items[..parsed - 1];
      assert items[..parsed] == before + [items[parsed - 1]];
      SeenInRun(items[..parsed]);
    }

    /** Parse on from the start or from where the parse was suspended, to the next body once
        the symbol table was seen, or to the end.  It fails only where a parse straight
        through fails. */
    method ParseModule(resume: bool) returns (ok: bool)
      requires Valid() && (if resume then nextUnread == parsed != 0 else parsed == 0)
      modifies this
      ensures ok ==> Valid() && parsed >= old(parsed) && old(deferredFuncInfo.Keys) <= deferredFuncInfo.Keys
      ensures ok ==> parsed == |items| < cursor || (parsed == nextUnread > old(parsed))
      ensures !ok ==> Run(items).failed
      ensures bodiesRead == old(bodiesRead)
      ensures ok && parsed == nextUnread > old(parsed) ==> items[parsed - 1].Body? && ValueSymTab in items[..parsed - 1]
      ensures ok ==> forall k :: old(parsed) <= k < (if parsed == nextUnread then parsed - 1 else parsed) && items[k].Body? ==>
        ValueSymTab !in items[..k]
      ensures ok && old(seenValueSymTab) ==>
        forall k :: old(parsed) <= k < (if parsed == nextUnread then parsed - 1 else parsed) ==> !items[k].Body?
      ensures ok && parsed != nextUnread ==> nextUnread == old(nextUnread)
    {
      hide Run, Step, Parse, ReadRightly, PromisedList, WellFormed, At;
      cursor := if resume then nextUnread else 0;
      while cursor < |items|
        invariant At(parsed) && old(parsed) <= cursor == parsed <= |items| && bodiesRead == old(bodiesRead)
        invariant nextUnread == old(nextUnread) && nextUnread <= parsed && (nextUnread != 0 ==> items[nextUnread - 1].Body? && seenValueSymTab)
        invariant old(deferredFuncInfo.Keys) <= deferredFuncInfo.Keys && (old(seenValueSymTab) ==> seenValueSymTab)
        invariant forall k :: old(parsed) <= k < parsed && items[k].Body? ==> ValueSymTab !in items[..k]
        invariant old(seenValueSymTab) ==> forall k :: old(parsed) <= k < parsed ==> !items[k].Body?
      {
        var item := items[cursor];
        ok := ParseItem();
        if !ok {
          return false;
        }
        SymTabSeen();
        if item.Body? && seenValueSymTab {
          nextUnread := cursor;
          return true;
        }
      }
      cursor := |items| + 1;
      return true;
    }

    /** A function whose offset is missing can be looked for when there is a place to resume,
        or when the cursor is where the parse ended. */
    ghost predicate CanLookFor(f: nat)
      reads this
    {
      f in deferredFuncInfo && deferredFuncInfo[f] == 0 ==> nextUnread == parsed || AtEndOfStream()
    }

    /** What the parse found so far is what a parse straight through finds. */
    lemma FoundFinally(f: nat)
      requires Valid() && f in deferredFuncInfo
      ensures f in Run(items).found
      ensures deferredFuncInfo[f] != 0 ==> Run(items).found[f] == deferredFuncInfo[f]
      ensures parsed == |items| ==> Parse(false) == Run(items)
      ensures parsed != 0
      ensures parsed < |items| ==> nextUnread == parsed
      ensures deferredFuncInfo[f] == 0 && parsed == |items| ==> f in Run(items).waiting
    {
      RunStays(items, parsed, |items|);
      RunKeeps(items[..parsed]);
      assert items[..|items|] == items;
    }

    lemma NothingFound(before: nat, f: nat)
      requires Valid() && before <= parsed && f in Run(items[..before]).found && Run(items[..before]).found[f] == 0
      requires forall k :: before <= k < parsed ==> !items[k].Body?
      ensures f in deferredFuncInfo && deferredFuncInfo[f] == 0
    {
      NoBodies(items, before, parsed, f);
    }

    lemma ParsedFound()
      requires Valid()
      ensures Run(items[..parsed]).found == deferredFuncInfo && (nextUnread != 0 ==> seenValueSymTab) && parsed <= |items|
      ensures nextUnread == parsed != 0 ==> items[parsed - 1].Body?
      ensures AtEndOfStream() ==> parsed == |items|
    {
    }

    /** A body found by the last item is that item. */
    lemma JustFound(before: nat, f: nat)
      requires Valid() && before < parsed && f in Run(items[..before]).found && Run(items[..before]).found[f] == 0
      requires forall k :: before <= k < parsed - 1 ==> !items[k].Body?
      requires items[parsed - 1].Body? && f in deferredFuncInfo && deferredFuncInfo[f] != 0
      ensures items[parsed - 1] == Body(deferredFuncInfo[f])
    {
      FoundByBody(items, before, parsed - 1, f);
    }

    /** Parse on until the body of f turns up, and no further. */
    method FindFunctionInStream(f: nat) returns (ok: bool)
      requires Valid() && f in deferredFuncInfo && deferredFuncInfo[f] == 0 && CanLookFor(f)
      modifies this
      ensures ok ==> Valid() && f in deferredFuncInfo && deferredFuncInfo[f] != 0 && nextUnread == parsed > old(parsed)
      ensures ok ==> items[parsed - 1] == Body(deferredFuncInfo[f])
      ensures !ok ==> Run(items).failed || f in Run(items).waiting
      ensures bodiesRead == old(bodiesRead)
    {
      hide Valid, Run;
      ParsedFound();
      while deferredFuncInfo[f] == 0
        invariant Valid() && f in deferredFuncInfo && CanLookFor(f)
        invariant parsed <= |items|
        invariant deferredFuncInfo[f] == 0 || (nextUnread == parsed > old(parsed) && items[parsed - 1] == Body(deferredFuncInfo[f]))
        invariant parsed >= old(parsed) && bodiesRead == old(bodiesRead)
        decreases |items| - parsed, if AtEndOfStream() then 0 else 1
      {
        ParsedFound();
        FoundFinally(f);
        if AtEndOfStream() {
          return false;
        }
        ghost var before := parsed;
        ok := ParseModule(true);
        if !ok {
          return false;
        }
        ParsedFound();
        if nextUnread != parsed {
          NothingFound(before, f);
        } else if deferredFuncInfo[f] != 0 {
          JustFound(before, f);
        }
      }
      return true;
    }

    /** The functions to be read are those found whose body was not read. */
    lemma Known(f: nat)
      requires Valid()
      ensures f in materializable <==> f in deferredFuncInfo && !WasRead(bodiesRead, f)
    {
    }

    /** Read the body of f, finding it first if need be.  Whatever was asked for before, it is
        read where a parse straight through finds it. */
    method Materialize(f: nat) returns (ok: bool)
      requires Valid() && (f in materializable ==> CanLookFor(f))
      modifies this
      ensures ok ==> Valid() && parsed >= old(parsed)
      ensures ok ==> nextUnread == parsed || (nextUnread == old(nextUnread) && parsed == old(parsed))
      ensures ok && (f in old(materializable) ==> old(f in deferredFuncInfo && deferredFuncInfo[f] != 0)) ==>
        nextUnread == old(nextUnread) && parsed == old(parsed)
      ensures ok && f in old(materializable) && old(f in deferredFuncInfo && deferredFuncInfo[f] == 0) ==>
        nextUnread == parsed > old(parsed) && f in Run(items).found && items[parsed - 1] == Body(Run(items).found[f])
      ensures ok ==> if f in old(materializable)
        then f in Run(items).found && bodiesRead == old(bodiesRead) + [(f, Run(items).found[f])]
        else bodiesRead == old(bodiesRead)
      ensures !ok ==> Run(items).failed || f in Run(items).waiting
    {
      hide Valid, Run, ReadRightly;
      if f !in materializable {
        return true;
      }
      Known(f);
      if deferredFuncInfo[f] == 0 {
        ok := FindFunctionInStream(f);
        if !ok {
          return false;
        }
        Known(f);
      }
      FoundFinally(f);
      ParseFunctionBody(f);
      return true;
    }

    /** Reading a body leaves the cursor somewhere inside it. */
    method ParseFunctionBody(f: nat)
      requires Valid() && f in materializable && deferredFuncInfo[f] != 0
      modifies this`cursor, this`materializable, this`bodiesRead
      ensures Valid() && bodiesRead == old(bodiesRead) + [(f, deferredFuncInfo[f])]
    {
      ReadOne(bodiesRead, materializable, Parse(false), f);
      hide ReadRightly, Run;
      materializable := materializable - {f};
      bodiesRead := bodiesRead + [(f, deferredFuncInfo[f])];
      var inside: nat :| inside <= |items|;
      cursor := inside;
    }

    /** Read every body not read yet and parse to the end of the module: each body is then
        read once, where the parse straight through finds it, and the parse is where that
        one ends. */
    method MaterializeModule() returns (ok: bool)
      requires Valid() && (if nextUnread == 0 then parsed == |items| else nextUnread == parsed)
      requires Complete(items) && ProtosFirst(items)
      modifies this
      ensures ok && Valid() && parsed == |items| && Parse(false) == Run(items)
      ensures materializable == {} && ReadRightly(bodiesRead, {}, Run(items))
      ensures functions == PromisedList(items) && old(bodiesRead) <= bodiesRead
      ensures ReadInOrder(functions, bodiesRead, old(|bodiesRead|))
    {
      hide Complete, ProtosFirst, Run, PromisedList, ReadRightly, WasRead, At, ReadInOrder;
      AllDeclared();
      var all := functions;
      NothingWaits();
      NoneReadYet(all, bodiesRead);
      var k := 0;
      while k < |all|
        invariant k <= |all| && Valid() && (if nextUnread == 0 then parsed == |items| else nextUnread == parsed)
        invariant forall j :: 0 <= j < k ==> WasRead(bodiesRead, all[j])
        invariant old(bodiesRead) <= bodiesRead && ReadInOrder(all[..k], bodiesRead, old(|bodiesRead|))
      {
        ReadOrWaits(all[k]);
        ghost var were := bodiesRead;
        ok := Materialize(all[k]);
        ReadNextInOrder(all, k, were, bodiesRead, old(|bodiesRead|));
        WasReadStays(were, bodiesRead, all, k);
        assert WasRead(bodiesRead, all[k]);
        k := k + 1;
      }
      ok := true;
      assert all[..k] == all;
      if nextUnread != 0 {
        AllFound(all);
        ok := ParseModule(true);
      }
      Ended();
    }

    lemma NothingWaits()
      requires Complete(items)
      ensures !Run(items).failed && Run(items).waiting == []
    {
    }

    lemma AllFound(all: seq<nat>)
      requires Valid() && all == PromisedList(items) && ProtosFirst(items) && Complete(items) && (parsed != 0 || parsed == |items|)
      requires forall j :: 0 <= j < |all| ==> WasRead(bodiesRead, all[j])
      ensures !Run(items).failed && forall k :: parsed <= k < |items| ==> !items[k].Body?
    {
      AllDeclared();
      RunKeeps(items[..parsed]);
      forall f
        ensures f !in funcWithBodies
      {
        if f in all {
          var j :| 0 <= j < |all| && all[j] == f;
          assert WasRead(bodiesRead, all[j]);
        }
      }
      Empty(funcWithBodies);
      Drained(items, parsed, |items|);
    }

    lemma Ended()
      requires Valid() && parsed == |items|
      ensures Parse(false) == Run(items) && functions == PromisedList(items) && ReadRightly(bodiesRead, materializable, Run(items))
      ensures (forall j :: 0 <= j < |functions| ==> WasRead(bodiesRead, functions[j])) ==> materializable == {}
    {
      assert items[..|items|] == items;
      RunKeeps(items);
    }

    lemma AllDeclared()
      requires Valid() && (parsed != 0 || parsed == |items|) && ProtosFirst(items)
      ensures functions == PromisedList(items)
    {
      assert items[..|items|] == items;
      ListStays(items, parsed, |items|);
    }

    lemma ReadOrWaits(f: nat)
      requires Valid() && Complete(items) && ProtosFirst(items) && f in PromisedList(items)
      requires if nextUnread == 0 then parsed == |items| else nextUnread == parsed
      ensures if f in materializable then CanLookFor(f) else WasRead(bodiesRead, f)
    {
      AllDeclared();
      RunKeeps(items[..parsed]);
      if f in materializable {
        FoundFinally(f);
      }
    }
  }

  lemma Empty(s: seq<nat>)
    requires forall f :: f !in s
    ensures s == []
  {
    assert forall f :: multiset(s)[f] > 0 <==> f in s;
    assert multiset(s) == multiset{};
    assert |multiset(s)| == |s|;
  }

  /** The bodies read from place `from` on belong to functions of the list, and were read in
      its order. */
  ghost predicate ReadInOrder(all: seq<nat>, bodiesRead: seq<(nat, nat)>, from: nat) {
    && (forall i :: from <= i < |bodiesRead| ==> bodiesRead[i].0 in all)
    && (forall i, j :: from <= i < j < |bodiesRead| ==> Before(all, bodiesRead[i].0, bodiesRead[j].0))
  }

  lemma NoneReadYet(all: seq<nat>, bodiesRead: seq<(nat, nat)>)
    ensures ReadInOrder(all[..0], bodiesRead, |bodiesRead|)
  {
  }

  lemma ReadNextInOrder(all: seq<nat>, k: nat, were: seq<(nat, nat)>, are: seq<(nat, nat)>, from: nat)
    requires k < |all| && from <= |were| && ReadInOrder(all[..k], were, from)
    requires are == were || (|are| == |were| + 1 && were <= are && are[|were|].0 == all[k])
    ensures ReadInOrder(all[..k + 1], are, from)
  {
    assert all[..k + 1] == all[..k] + [all[k]];
    assert forall i :: 0 <= i < |were| ==> are[i] == were[i];
    forall i, j | from <= i < j < |are|
      ensures Before(all[..k + 1], are[i].0, are[j].0)
    {
      if j < |were| {
        assert Before(all[..k], were[i].0, were[j].0);
        var a, b :| 0 <= a < b < |all[..k]| && all[..k][a] == were[i].0 && all[..k][b] == were[j].0;
        assert all[..k + 1][a] == were[i].0 && all[..k + 1][b] == were[j].0;
      } else {
        assert were[i].0 in all[..k];
        var a :| 0 <= a < |all[..k]| && all[..k][a] == were[i].0;
        assert all[..k + 1][a] == were[i].0 && all[..k + 1][k] == all[k];
      }
    }
  }

  lemma WasReadStays(were: seq<(nat, nat)>, are: seq<(nat, nat)>, all: seq<nat>, k: nat)
    requires were <= are && k < |all| && (forall j :: 0 <= j < k ==> WasRead(were, all[j]))
    requires WasRead(were, all[k]) || (|were| < |are| && are[|were|].0 == all[k])
    ensures forall j :: 0 <= j <= k ==> WasRead(are, all[j])
  {
    forall j | 0 <= j < |all| && WasRead(were, all[j])
      ensures WasRead(are, all[j])
    {
      var i :| 0 <= i < |were| && were[i].0 == all[j];
      assert are[i].0 == all[j];
    }
  }

  // ----- which body belongs to which prototype

  /** Every prototype with a body to come is declared before the first body. */
  ghost predicate ProtosFirst(items: seq<Item>) {
    forall i, j :: 0 <= i < j < |items| && items[i].Body? ==> !Promises(items[j])
  }

  /** The offsets of the bodies, in order. */
  function Bodies(items: seq<Item>): seq<nat> {
    if items == [] then [] else
      var k := |items| - 1;
      Bodies(items[..k]) + if items[k].Body? then [items[k].at] else []
  }

  /** Nothing fails, and the j-th function promised is found at the j-th body. */
  ghost predicate Paired(items: seq<Item>) {
    !Run(items).failed && PairedUpTo(Run(items), PromisedList(items), Bodies(items))
  }

  ghost predicate PairedUpTo(st: State, protos: seq<nat>, bodies: seq<nat>) {
    && |bodies| <= |protos|
    && forall j :: 0 <= j < |bodies| ==> protos[j] in st.found && st.found[protos[j]] == bodies[j]
  }

  /** Each body has a prototype before it; and a prototype declared between two bodies is
      declared when none is waiting. */
  ghost predicate InTurn(items: seq<Item>) {
    && (forall i :: 0 <= i < |items| && items[i].Body? ==> |Bodies(items[..i])| < |PromisedList(items[..i])|)
    && (forall i, j :: 0 <= i < j < |items| && Promises(items[i]) && items[j].Body? ==> MayDeclare(items, i))
  }

  ghost predicate MayDeclare(items: seq<Item>, i: nat)
    requires i <= |items|
  {
    Bodies(items[..i]) == [] || |Bodies(items[..i])| == |PromisedList(items[..i])|
  }

  /** While the prototypes come in turn, those waiting are the ones after the last paired,
      in the order the parse takes them. */
  ghost predicate Queued(st: State, protos: seq<nat>, bodies: seq<nat>) {
    && !st.failed && PairedUpTo(st, protos, bodies)
    && st.seenBody == (bodies != [])
    && st.waiting == if bodies == [] then protos else Reversed(protos[|bodies|..])
  }

  lemma ListsNext(items: seq<Item>, k: nat)
    requires k < |items|
    ensures PromisedList(items[..k + 1]) == ThenItem(PromisedList(items[..k]), items[k])
    ensures Bodies(items[..k + 1]) == Bodies(items[..k]) + if items[k].Body? then [items[k].at] else []
  {
    assert items[..k + 1][..k] == items[..k];
  }

  lemma {:induction false} ReversedLast<T>(s: seq<T>)
    requires s != []
    ensures Reversed(s) == Reversed(s[1..]) + [s[0]]
  {
  }

  lemma QueuedBody(st: State, protos: seq<nat>, bodies: seq<nat>, at: nat)
    requires Queued(st, protos, bodies) && |bodies| < |protos| && Distinct(protos)
    ensures Queued(Step(st, Body(at)), protos, bodies + [at])
  {
    var rest := protos[|bodies|..];
    assert rest[1..] == protos[|bodies + [at]|..];
    assert bodies == [] ==> rest == protos;
    assert (if st.seenBody then st.waiting else Reversed(st.waiting)) == Reversed(rest);
    ReversedLast(rest);
    NextPaired(st, protos, bodies, at);
    hide Reversed, Distinct, PairedUpTo;
  }

  lemma NextPaired(st: State, protos: seq<nat>, bodies: seq<nat>, at: nat)
    requires PairedUpTo(st, protos, bodies) && |bodies| < |protos| && Distinct(protos)
    ensures forall next: State :: next.found == st.found[protos[|bodies|] := at] ==> PairedUpTo(next, protos, bodies + [at])
  {
  }

  lemma QueuedProto(st: State, protos: seq<nat>, bodies: seq<nat>, f: nat)
    requires Queued(st, protos, bodies) && (bodies == [] || |bodies| == |protos|) && f !in protos
    ensures Queued(Step(st, Proto(f, false)), protos + [f], bodies)
  {
    if bodies != [] {
      assert protos[|bodies|..] == [] && (protos + [f])[|bodies|..] == [f];
      ReversedLast([f]);
      ReversedEmpty<nat>();
      assert [f][1..] == [];
    }
    hide Reversed;
  }

  lemma QueuedStep(st: State, protos: seq<nat>, bodies: seq<nat>, item: Item)
    requires Queued(st, protos, bodies) && Distinct(protos)
    requires item.Body? ==> |bodies| < |protos|
    requires Promises(item) ==> item.func !in protos && (bodies == [] || |bodies| == |protos|)
    ensures Queued(Step(st, item), ThenItem(protos, item), bodies + if item.Body? then [item.at] else [])
  {
    if item.Body? {
      QueuedBody(st, protos, bodies, item.at);
    } else if Promises(item) {
      QueuedProto(st, protos, bodies, item.func);
      assert bodies + [] == bodies;
    } else {
      assert bodies + [] == bodies;
    }
  }

  lemma {:induction false} QueuedAt(items: seq<Item>, k: nat, m: nat)
    requires WellFormed(items) && InTurn(items)
    requires k <= m + 1 <= |items| && items[m].Body?
    ensures Queued(Run(items[..k]), PromisedList(items[..k]), Bodies(items[..k]))
    decreases k
  {
    if k == 0 {
      assert items[..0] == [];
    } else {
      hide Run, Queued, PromisedList, Bodies, WellFormed, InTurn;
      QueuedAt(items, k - 1, m);
      QueuedNext(items, k - 1, m);
    }
  }

  lemma QueuedNext(items: seq<Item>, k: nat, m: nat)
    requires WellFormed(items) && InTurn(items) && k <= m < |items| && items[m].Body?
    requires Queued(Run(items[..k]), PromisedList(items[..k]), Bodies(items[..k]))
    ensures Queued(Run(items[..k + 1]), PromisedList(items[..k + 1]), Bodies(items[..k + 1]))
  {
    hide Run, Step, Queued, Distinct, Reversed, Promised, PromisedList, Bodies, WellFormed, InTurn;
    QueuedRuns(Run(items[..k]), PromisedList(items[..k]), Bodies(items[..k]));
    RunNext(items, k);
    ListsNext(items, k);
    PrefixWellFormed(items, k);
    DistinctList(items[..k]);
    if Promises(items[k]) {
      FreshFunction(items, k);
    }
    InTurnAt(items, k, m);
    QueuedStep(Run(items[..k]), PromisedList(items[..k]), Bodies(items[..k]), items[k]);
  }

  lemma QueuedRuns(st: State, protos: seq<nat>, bodies: seq<nat>)
    requires Queued(st, protos, bodies)
    ensures !st.failed
  {
  }

  lemma PrefixWellFormed(items: seq<Item>, k: nat)
    requires WellFormed(items) && k <= |items|
    ensures WellFormed(items[..k])
  {
  }

  lemma InTurnAt(items: seq<Item>, k: nat, m: nat)
    requires InTurn(items) && k <= m < |items| && items[m].Body?
    ensures items[k].Body? ==> |Bodies(items[..k])| < |PromisedList(items[..k])|
    ensures Promises(items[k]) ==> MayDeclare(items, k)
  {
    hide Bodies, PromisedList;
  }

  lemma {:induction false} DistinctList(items: seq<Item>)
    requires WellFormed(items)
    ensures Distinct(PromisedList(items))
  {
    if items != [] {
      var k := |items| - 1;
      DistinctList(items[..k]);
      if Promises(items[k]) {
        FreshFunction(items, k);
      }
    }
  }

  lemma {:induction false} NoBodiesAfter(items: seq<Item>, i: nat, j: nat)
    requires i <= j <= |items| && forall k :: i <= k < j ==> !items[k].Body?
    ensures Bodies(items[..j]) == Bodies(items[..i]) && Run(items[..j]).failed == Run(items[..i]).failed
    decreases j - i
  {
    if i < j {
      NoBodiesAfter(items, i, j - 1);
      ListsNext(items, j - 1);
      RunNext(items, j - 1);
    }
  }

  lemma {:induction false} BodiesGrow(items: seq<Item>, i: nat, j: nat)
    requires i <= j <= |items|
    ensures Bodies(items[..i]) <= Bodies(items[..j])
    decreases j - i
  {
    if i < j {
      BodiesGrow(items, i, j - 1);
      ListsNext(items, j - 1);
    }
  }

  lemma {:induction false} LastBody(items: seq<Item>, k: nat) returns (m: nat)
    requires k <= |items| && exists i :: 0 <= i < k && items[i].Body?
    ensures m < k && items[m].Body? && forall i :: m < i < k ==> !items[i].Body?
  {
    m := k - 1;
    if !items[m].Body? {
      m := LastBody(items, k - 1);
    }
  }

  /** What is paired stays so past the last body. */
  lemma PairedOn(items: seq<Item>, k: nat)
    requires WellFormed(items) && k <= |items| && forall i :: k <= i < |items| ==> !items[i].Body?
    requires !Run(items[..k]).failed && PairedUpTo(Run(items[..k]), PromisedList(items[..k]), Bodies(items[..k]))
    ensures Paired(items)
  {
    assert items[..|items|] == items;
    BodiesPositive(items[..k]);
    NoBodiesAfter(items, k, |items|);
    RunStays(items, k, |items|);
    ListStays(items, k, |items|);
    hide Run, Bodies, PromisedList, WellFormed;
  }

  lemma {:induction false} BodiesPositive(items: seq<Item>)
    requires forall i :: 0 <= i < |items| && items[i].Body? ==> items[i].at > 0
    ensures forall j :: 0 <= j < |Bodies(items)| ==> Bodies(items)[j] > 0
  {
    if items != [] {
      BodiesPositive(items[..|items| - 1]);
    }
  }

  lemma InTurnPaired(items: seq<Item>)
    requires WellFormed(items) && InTurn(items)
    ensures Paired(items)
  {
    var n := |items|;
    assert items[..n] == items;
    if exists i :: 0 <= i < n && items[i].Body? {
      var m := LastBody(items, n);
      QueuedAt(items, m + 1, m);
      PairedOn(items, m + 1);
    } else {
      NoBodiesAfter(items, 0, n);
    }
  }

  // ----- the other direction

  lemma {:induction false} ReversedLength<T>(s: seq<T>)
    ensures |Reversed(s)| == |s|
  {
    if s != [] {
      ReversedLength(s[1..]);
    }
  }

  lemma StepWaiting(st: State, item: Item)
    requires !Step(st, item).failed
    ensures !item.Body? ==> Step(st, item).waiting == ThenItem(st.waiting, item)
    ensures item.Body? ==> |Step(st, item).waiting| == |st.waiting| - 1
    ensures Step(st, item).seenBody == (st.seenBody || item.Body?)
  {
    ReversedLength(st.waiting);
  }

  lemma {:induction false} WaitingCount(items: seq<Item>, k: nat)
    requires k <= |items| && !Run(items[..k]).failed
    ensures |Run(items[..k]).waiting| + |Bodies(items[..k])| == |PromisedList(items[..k])|
    ensures Run(items[..k]).seenBody == (Bodies(items[..k]) != [])
  {
    if k > 0 {
      RunNext(items, k - 1);
      WaitingCount(items, k - 1);
      ListsNext(items, k - 1);
      StepWaiting(Run(items[..k - 1]), items[k - 1]);
      hide Run, Step, Bodies, PromisedList;
    }
  }

  lemma {:induction false} OffsetsFound(items: seq<Item>)
    requires WellFormed(items)
    ensures forall f :: f in Run(items).found && Run(items).found[f] != 0 ==> Run(items).found[f] in Bodies(items)
    ensures forall at :: at in Bodies(items) ==> exists i :: 0 <= i < |items| && items[i].Body? && items[i].at == at
  {
    if items != [] {
      var k := |items| - 1;
      OffsetsFound(items[..k]);
      assert forall i :: 0 <= i < k ==> items[..k][i] == items[i];
      hide Reversed, WellFormed;
    }
  }

  lemma NewOffset(items: seq<Item>)
    requires WellFormed(items) && items != [] && items[|items| - 1].Body?
    ensures items[|items| - 1].at !in Bodies(items[..|items| - 1])
  {
    var k := |items| - 1;
    OffsetsFound(items[..k]);
    assert forall i :: 0 <= i < k ==> items[..k][i] == items[i];
  }

  /** No two functions share an offset. */
  lemma {:induction false} FoundOnce(items: seq<Item>, f: nat, g: nat)
    requires WellFormed(items)
    requires f in Run(items).found && g in Run(items).found && f != g && Run(items).found[f] != 0
    ensures Run(items).found[f] != Run(items).found[g]
  {
    var k := |items| - 1;
    var st := Run(items[..k]);
    OffsetsFound(items[..k]);
    if items[k].Body? {
      NewOffset(items);
    }
    if f in st.found && g in st.found && st.found[f] != 0 {
      FoundOnce(items[..k], f, g);
    } else if f in st.found && g in st.found && st.found[g] != 0 {
      FoundOnce(items[..k], g, f);
    }
    hide Bodies, Reversed, WellFormed;
  }

  /** A prototype declared late is taken before those declared earlier. */
  lemma {:induction false} LateFirst(items: seq<Item>, i: nat, j: nat) returns (q: nat)
    requires i < j <= |items| && Promises(items[i]) && Bodies(items[..i]) != []
    requires !Run(items[..j]).failed && forall k :: i <= k < j ==> !items[k].Body?
    ensures |PromisedList(items[..i])| <= q < |PromisedList(items[..j])|
    ensures var waiting := Run(items[..j]).waiting; waiting != [] && waiting[|waiting| - 1] == PromisedList(items[..j])[q]
    decreases j
  {
    hide Run, Step, PromisedList, Bodies, Reversed;
    RunNext(items, j - 1);
    ListsNext(items, j - 1);
    StepWaiting(Run(items[..j - 1]), items[j - 1]);
    if i == j - 1 {
      q := |PromisedList(items[..i])|;
    } else {
      q := LateFirst(items, i, j - 1);
      if Promises(items[j - 1]) {
        q := |PromisedList(items[..j - 1])|;
      }
    }
  }

  lemma {:induction false} FirstBody(items: seq<Item>, i: nat, j: nat) returns (m: nat)
    requires i <= j < |items| && items[j].Body?
    ensures i <= m <= j && items[m].Body? && forall k :: i <= k < m ==> !items[k].Body?
    decreases j - i
  {
    m := i;
    if !items[i].Body? {
      m := FirstBody(items, i + 1, j);
    }
  }

  lemma PairedDeclares(items: seq<Item>, i: nat, j: nat)
    requires WellFormed(items) && Paired(items)
    requires i < j < |items| && Promises(items[i]) && items[j].Body?
    ensures MayDeclare(items, i)
  {
    var m := FirstBody(items, i, j);
    var n, protos := |Bodies(items[..i])|, PromisedList(items);
    assert items[..|items|] == items;
    RunStays(items, i, |items|);
    RunStays(items, m, |items|);
    RunStays(items, m + 1, |items|);
    WaitingCount(items, i);
    if n > 0 && n < |PromisedList(items[..i])| {
      var q := LateFirst(items, i, m);
      LateFound(items, i, m, q);
      DistinctList(items);
      FoundOnce(items, protos[n], protos[q]);
      assert false;
    }
  }

  lemma TopFound(items: seq<Item>, m: nat, f: nat)
    requires WellFormed(items) && m < |items| && items[m].Body? && !Run(items[..m]).failed && Bodies(items[..m]) != []
    requires var waiting := Run(items[..m]).waiting; waiting != [] && waiting[|waiting| - 1] == f
    ensures f in Run(items).found && Run(items).found[f] == items[m].at
  {
    assert items[..|items|] == items;
    WaitingCount(items, m);
    RunNext(items, m);
    RunStays(items, m + 1, |items|);
    hide Run, Bodies, Reversed;
  }

  lemma PairedNth(items: seq<Item>, n: nat)
    requires Paired(items) && n < |Bodies(items)|
    ensures n < |PromisedList(items)| && PromisedList(items)[n] in Run(items).found
    ensures Run(items).found[PromisedList(items)[n]] == Bodies(items)[n]
  {
  }

  lemma LateFound(items: seq<Item>, i: nat, m: nat, q: nat)
    requires WellFormed(items) && Paired(items) && i < m < |items| && items[m].Body?
    requires forall k :: i <= k < m ==> !items[k].Body?
    requires Bodies(items[..i]) != [] && |PromisedList(items[..i])| <= q < |PromisedList(items[..m])|
    requires var waiting := Run(items[..m]).waiting; waiting != [] && waiting[|waiting| - 1] == PromisedList(items[..m])[q]
    ensures var n, protos, st := |Bodies(items[..i])|, PromisedList(items), Run(items);
      && n < |protos| && q < |protos| && protos[q] in st.found && protos[n] in st.found
      && st.found[protos[q]] == st.found[protos[n]] == items[m].at != 0
  {
    hide Run, Bodies, PromisedList, Promises, Reversed, PairedUpTo;
    assert items[..|items|] == items;
    RunStays(items, m, |items|);
    NoBodiesAfter(items, i, m);
    ListsNext(items, m);
    ListStays(items, m, |items|);
    BodiesGrow(items, m + 1, |items|);
    var n := |Bodies(items[..i])|;
    var f := PromisedList(items[..m])[q];
    TopFound(items, m, f);
    PairedNth(items, n);
    assert Bodies(items)[n] == items[m].at;
    assert PromisedList(items)[q] == f;
  }

  /** Exactly when the prototypes come in turn does each get its own body. */
  lemma PairedExactly(items: seq<Item>)
    requires WellFormed(items)
    ensures Paired(items) <==> InTurn(items)
  {
    if InTurn(items) {
      InTurnPaired(items);
    }
    if Paired(items) {
      assert items[..|items|] == items;
      forall i | 0 <= i < |items| && items[i].Body?
        ensures |Bodies(items[..i])| < |PromisedList(items[..i])|
      {
        RunStays(items, i + 1, |items|);
        RunNext(items, i);
        WaitingCount(items, i);
        InReversed(Run(items[..i]).waiting);
      }
      forall i, j | 0 <= i < j < |items| && Promises(items[i]) && items[j].Body?
        ensures MayDeclare(items, i)
      {
        PairedDeclares(items, i, j);
      }
    }
  }

  /** With all prototypes first, it takes as many of them as bodies. */
  lemma FirstInTurn(items: seq<Item>)
    requires WellFormed(items) && ProtosFirst(items)
    requires |Bodies(items)| <= |PromisedList(items)|
    ensures InTurn(items)
  {
    forall i | 0 <= i < |items| && items[i].Body?
      ensures |Bodies(items[..i])| < |PromisedList(items[..i])|
    {
      assert items[..|items|] == items;
      ListStays(items, i, |items|);
      ListsNext(items, i);
      BodiesGrow(items, i + 1, |items|);
    }
    forall i, j | 0 <= i < j < |items| && Promises(items[i]) && items[j].Body?
      ensures MayDeclare(items, i)
    {
      NoBodiesAfter(items, 0, i);
    }
  }

  lemma RunSnoc(items: seq<Item>, item: Item)
    ensures Run(items + [item]) == if Run(items).failed then Run(items) else Step(Run(items), item)
    ensures PromisedList(items + [item]) == ThenItem(PromisedList(items), item)
    ensures Bodies(items + [item]) == Bodies(items) + if item.Body? then [item.at] else []
  {
    assert (items + [item])[..|items|] == items;
  }

  const EARLY := [Proto(0, false), Proto(1, false), Body(10)]
  const LATE := EARLY + [Proto(2, false), Body(20), Body(30)]

  lemma ReversedPair(a: nat, b: nat)
    ensures Reversed([a, b]) == [b, a]
  {
    ReversedLast([a, b]);
    ReversedLast([b]);
    ReversedEmpty<nat>();
    assert [a, b][1..] == [b] && [b][1..] == [];
  }

  lemma EarlyRun()
    ensures Run(EARLY) == State([1], map[0 := 10, 1 := 0], true, false, false)
    ensures PromisedList(EARLY) == [0, 1] && Bodies(EARLY) == [10]
  {
    var one, two := [Proto(0, false)], [Proto(0, false), Proto(1, false)];
    assert [] + [Proto(0, false)] == one && one + [Proto(1, false)] == two && two + [Body(10)] == EARLY;
    RunSnoc([], Proto(0, false));
    RunSnoc(one, Proto(1, false));
    RunSnoc(two, Body(10));
    ReversedPair(0, 1);
    hide Run, PromisedList, Bodies, Reversed;
    assert Run(two) == State([0, 1], map[0 := 0, 1 := 0], false, false, false);
  }

  /** A complete module with the prototypes first has as many bodies as prototypes, and each
      prototype is found at its own body. */
  lemma CompletePaired(items: seq<Item>)
    requires Complete(items) && ProtosFirst(items)
    ensures Paired(items) && |Bodies(items)| == |PromisedList(items)|
  {
    assert items[..|items|] == items;
    WaitingCount(items, |items|);
    FirstInTurn(items);
    PairedExactly(items);
  }

  /** The j-th prototype with the offset of the j-th body, for all j. */
  function Pairs(protos: seq<nat>, bodies: seq<nat>): (r: seq<(nat, nat)>)
    requires |protos| == |bodies|
    ensures |r| == |protos| && forall j :: 0 <= j < |r| ==> r[j] == (protos[j], bodies[j])
  {
    seq(|protos|, j requires 0 <= j < |protos| => (protos[j], bodies[j]))
  }

  lemma AllPairsRead(items: seq<Item>, bodiesRead: seq<(nat, nat)>, pair: (nat, nat))
    requires Complete(items) && Paired(items) && |Bodies(items)| == |PromisedList(items)|
    requires ReadRightly(bodiesRead, {}, Run(items))
    ensures pair in bodiesRead <==> pair in Pairs(PromisedList(items), Bodies(items))
  {
    RunKeeps(items);
    var st, protos, bodies := Run(items), PromisedList(items), Bodies(items);
    assert st.found.Keys == Promised(items);
    if pair in Pairs(protos, bodies) {
      var j :| 0 <= j < |protos| && Pairs(protos, bodies)[j] == pair;
      PairedNth(items, j);
      hide Run, PromisedList, Bodies, Promised, WellFormed, Paired, Keeps;
      assert WasRead(bodiesRead, protos[j]);
      var i :| 0 <= i < |bodiesRead| && bodiesRead[i].0 == protos[j];
      assert bodiesRead[i] == pair;
    }
    if pair in bodiesRead {
      var i :| 0 <= i < |bodiesRead| && bodiesRead[i] == pair;
      assert pair.0 in protos;
      var j :| 0 <= j < |protos| && protos[j] == pair.0;
      PairedNth(items, j);
      hide Run, PromisedList, Bodies, Promised, WellFormed, Paired, Keeps;
      assert Pairs(protos, bodies)[j] == pair;
    }
  }

  /** The whole load: parse, then read everything not read yet.  Wherever the symbol table
      stands, the bodies read are, once each, the j-th body for the j-th prototype. */
  method LoadLLVMModule(items: seq<Item>) returns (reader: BitcodeReader)
    requires Complete(items) && ProtosFirst(items)
    ensures fresh(reader) && reader.items == items && reader.materializable == {}
    ensures reader.functions == PromisedList(items) && reader.Parse(false) == Run(items)
    ensures |Bodies(items)| == |PromisedList(items)|
    ensures forall pair :: pair in reader.bodiesRead <==> pair in Pairs(PromisedList(items), Bodies(items))
    ensures forall i, j :: 0 <= i < j < |reader.bodiesRead| ==> reader.bodiesRead[i].0 != reader.bodiesRead[j].0
    ensures ReadInOrder(reader.functions, reader.bodiesRead, 0)
  {
    CompletePaired(items);
    reader := new BitcodeReader(items);
    var ok := reader.ParseModule(false);
    assert !Run(items).failed && ok;
    hide Run, PromisedList, Bodies, Paired, Complete, ProtosFirst;
    ok := reader.MaterializeModule();
    forall pair
      ensures pair in reader.bodiesRead <==> pair in Pairs(PromisedList(items), Bodies(items))
    {
      AllPairsRead(items, reader.bodiesRead, pair);
    }
  }

  /** A prototype declared after a body, while another waits, gets the other one's body. */
  lemma LatePrototype()
    ensures WellFormed(LATE) && Complete(LATE) && !Paired(LATE)
    ensures Run(LATE).found == map[0 := 10, 2 := 20, 1 := 30]
  {
    hide Run, PromisedList, Bodies, Reversed;
    EarlyRun();
    var four := EARLY + [Proto(2, false)];
    var five := four + [Body(20)];
    assert five + [Body(30)] == LATE;
    RunSnoc(EARLY, Proto(2, false));
    RunSnoc(four, Body(20));
    RunSnoc(five, Body(30));
    var st := Run(LATE);
    assert st.waiting == [] && st.found == map[0 := 10, 2 := 20, 1 := 30];
    assert PromisedList(LATE)[1] == 1 && Bodies(LATE)[1] == 20;
    hide Step;
  }
}
