/** Sets of attributes by index: several sets become one, earlier sets first. */
module AttributeMerge {

  datatype Option<T> = None | Some(value: T)

  /** An index (a parameter, the function, ...) and the node of attributes it has. */
  datatype Slot = Slot(index: nat, node: nat)

  /** Null is the set without an implementation behind it. */
  datatype AttributeSet = Null | Set(slots: seq<Slot>)

  function Slots(a: AttributeSet): seq<Slot> {
    if a.Null? then [] else a.slots
  }

  ghost predicate Ordered(s: seq<Slot>) {
    forall i, j :: 0 <= i < j < |s| ==> s[i].index <= s[j].index
  }

  /** The slots with an index, in order. */
  function AtIndex(s: seq<Slot>, index: nat): seq<Slot> {
    if s == [] then [] else
      var k := |s| - 1; AtIndex(s[..k], index) + if s[k].index == index then [s[k]] else []
  }

  lemma {:induction false} AtIndexAppend(s: seq<Slot>, t: seq<Slot>, index: nat)
    ensures AtIndex(s + t, index) == AtIndex(s, index) + AtIndex(t, index)
  {
    if t == [] {
      assert s + t == s;
    } else {
      var k := |t| - 1;
      AtIndexAppend(s, t[..k], index);
      assert (s + t)[..|s + t| - 1] == s + t[..k];
    }
  }

  lemma {:induction false} AtIndexNone(s: seq<Slot>, index: nat)
    requires forall i :: 0 <= i < |s| ==> s[i].index != index
    ensures AtIndex(s, index) == []
  {
    if s != [] {
      AtIndexNone(s[..|s| - 1], index);
    }
  }

  /** s holds, index by index, first what a holds and then what b holds. */
  ghost predicate Joins(s: seq<Slot>, a: seq<Slot>, b: seq<Slot>) {
    forall index :: AtIndex(s, index) == AtIndex(a, index) + AtIndex(b, index)
  }

  lemma JoinsInsert(s: seq<Slot>, k: nat, x: Slot, a: seq<Slot>, b: seq<Slot>)
    requires k <= |s| && Joins(s, a, b)
    requires forall i :: k <= i < |s| ==> s[i].index != x.index
    ensures Joins(s[..k] + [x] + s[k..], a, b + [x])
  {
    forall index
      ensures AtIndex(s[..k] + [x] + s[k..], index) == AtIndex(a, index) + AtIndex(b + [x], index)
    {
      AtIndexInsert(s, k, x, index);
      AtIndexAppend(b, [x], index);
      assert AtIndex(s, index) == AtIndex(a, index) + AtIndex(b, index);
      hide AtIndex;
    }
  }

  lemma AtIndexInsert(s: seq<Slot>, k: nat, x: Slot, index: nat)
    requires k <= |s| && forall i :: k <= i < |s| ==> s[i].index != x.index
    ensures AtIndex(s[..k] + [x] + s[k..], index) == AtIndex(s, index) + AtIndex([x], index)
  {
    hide AtIndex;
    assert s == s[..k] + s[k..];
    AtIndexAppend(s[..k], s[k..], index);
    AtIndexAppend(s[..k] + [x], s[k..], index);
    AtIndexAppend(s[..k], [x], index);
    if index == x.index {
      AtIndexNone(s[k..], index);
    } else {
      AtIndexNone([x], index);
    }
  }

  // ----- merging

  /** Insert the slots of one more set into the list, each behind those with no larger index;
      the place to insert only moves on. */
  method MergeIn(vec: seq<Slot>, slots: seq<Slot>) returns (merged: seq<Slot>)
    requires Ordered(vec) && Ordered(slots)
    ensures Ordered(merged) && Joins(merged, vec, slots)
  {
    merged := vec;
    var at := 0;
    var a := 0;
    JoinsNothing(vec);
    while a < |slots|
      invariant a <= |slots| && at <= |merged|
      invariant Ordered(merged) && Joins(merged, vec, slots[..a])
      invariant forall i :: 0 <= i < at ==> a > 0 && merged[i].index <= slots[a - 1].index
    {
      var x := slots[a];
      while at != |merged| && merged[at].index <= x.index
        invariant at <= |merged|
        invariant forall i :: 0 <= i < at ==> merged[i].index <= x.index
      {
        at := at + 1;
      }
      JoinsInsert(merged, at, x, vec, slots[..a]);
      assert slots[..a + 1] == slots[..a] + [x];
      merged := merged[..at] + [x] + merged[at..];
      at := at + 1;
      a := a + 1;
    }
    assert slots[..a] == slots;
  }

  lemma JoinsNothing(s: seq<Slot>)
    ensures Joins(s, s, [])
  {
  }

  /** All slots, set after set. */
  function Concat(attrs: seq<AttributeSet>): seq<Slot> {
    if attrs == [] then [] else
      var k := |attrs| - 1; Concat(attrs[..k]) + Slots(attrs[k])
  }

  lemma JoinsConcat(s: seq<Slot>, t: seq<Slot>, attrs: seq<AttributeSet>, k: nat)
    requires k < |attrs| && Joins(s, Concat(attrs[..k]), []) && Joins(t, s, Slots(attrs[k]))
    ensures Joins(t, Concat(attrs[..k + 1]), [])
  {
    assert attrs[..k + 1][..k] == attrs[..k];
    forall index
      ensures AtIndex(t, index) == AtIndex(Concat(attrs[..k + 1]), index) + AtIndex([], index)
    {
      AtIndexAppend(Concat(attrs[..k]), Slots(attrs[k]), index);
    }
  }

  lemma FirstSet(attrs: seq<AttributeSet>)
    requires attrs != []
    ensures Joins(Slots(attrs[0]), Concat(attrs[..1]), [])
  {
    assert attrs[..1][..0] == [] && attrs[..1][0] == attrs[0];
    assert Concat(attrs[..1]) == [] + Slots(attrs[0]) == Slots(attrs[0]);
    JoinsNothing(Slots(attrs[0]));
  }

  /** One turn of the loop over the sets; a set without an implementation adds nothing. */
  method MergeSet(vec: seq<Slot>, attrs: seq<AttributeSet>, i: nat) returns (merged: seq<Slot>)
    requires i < |attrs| && Ordered(Slots(attrs[i]))
    requires Ordered(vec) && Joins(vec, Concat(attrs[..i]), [])
    ensures Ordered(merged) && Joins(merged, Concat(attrs[..i + 1]), [])
  {
    hide AtIndex, Joins, Concat, Ordered;
    if attrs[i].Set? {
      merged := MergeIn(vec, attrs[i].slots);
    } else {
      JoinsNothing(vec);
      merged := vec;
    }
    JoinsConcat(vec, merged, attrs, i);
  }

  /** The set for several sets: it is ordered, and for each index it holds what they hold,
      earlier sets first. */
  method Get(attrs: seq<AttributeSet>) returns (r: AttributeSet)
    requires forall i :: 0 <= i < |attrs| ==> Ordered(Slots(attrs[i]))
    ensures Ordered(Slots(r)) && Joins(Slots(r), Concat(attrs), [])
    ensures |attrs| == 1 ==> r == attrs[0]
    ensures attrs == [] ==> r == Null
  {
    if |attrs| == 0 {
      JoinsNothing([]);
      return Null;
    }
    FirstSet(attrs);
    hide AtIndex, Joins, Concat, Ordered;
    if |attrs| == 1 {
      assert attrs[..1] == attrs;
      return attrs[0];
    }
    r := MergeSets(attrs);
  }

  /** The loop over two sets or more. */
  method MergeSets(attrs: seq<AttributeSet>) returns (r: AttributeSet)
    requires |attrs| >= 2 && forall i :: 0 <= i < |attrs| ==> Ordered(Slots(attrs[i]))
    ensures Ordered(Slots(r)) && Joins(Slots(r), Concat(attrs), [])
  {
    FirstSet(attrs);
    hide AtIndex, Joins, Concat, Ordered;
    var vec := if attrs[0].Null? then [] else attrs[0].slots;
    assert vec == Slots(attrs[0]);
    var i := 1;
    while i < |attrs|
      invariant 1 <= i <= |attrs| && Ordered(vec) && Joins(vec, Concat(attrs[..i]), [])
    {
      vec := MergeSet(vec, attrs, i);
      i := i + 1;
    }
    assert attrs[..i] == attrs;
    r := Set(vec);
  }

  ghost predicate SameAtEach(s: seq<Slot>, t: seq<Slot>) {
    forall index :: AtIndex(s, index) == AtIndex(t, index)
  }

  lemma LastAgrees(s: seq<Slot>, t: seq<Slot>)
    requires Ordered(t) && SameAtEach(s, t) && s != []
    ensures t != [] && t[|t| - 1].index >= s[|s| - 1].index
  {
    var index := s[|s| - 1].index;
    LastAtIndex(s);
    assert AtIndex(t, index) == AtIndex(s, index) != [];
    if t == [] || t[|t| - 1].index < index {
      AtIndexNone(t, index);
    }
  }

  lemma SameInit(s: seq<Slot>, t: seq<Slot>, x: Slot)
    requires SameAtEach(s + [x], t + [x])
    ensures SameAtEach(s, t)
  {
    forall index
      ensures AtIndex(s, index) == AtIndex(t, index)
    {
      assert AtIndex(s + [x], index) == AtIndex(t + [x], index);
      SameBefore(s, t, x, index);
    }
  }

  /** Nothing else is ordered and holds the same for each index. */
  lemma {:induction false} OrderedUnique(s: seq<Slot>, t: seq<Slot>)
    requires Ordered(s) && Ordered(t) && SameAtEach(s, t)
    ensures s == t
    decreases |s|
  {
    if s != [] {
      var s', t', x := CommonLast(s, t);
      hide AtIndex, SameAtEach, Ordered;
      OrderedUnique(s', t');
    } else if t != [] {
      LastAgrees(t, s);
    }
  }

  lemma Init(s: seq<Slot>) returns (s': seq<Slot>, x: Slot)
    requires s != [] && Ordered(s)
    ensures s == s' + [x] && x == s[|s| - 1] && Ordered(s')
  {
    s', x := s[..|s| - 1], s[|s| - 1];
  }

  lemma CommonLast(s: seq<Slot>, t: seq<Slot>) returns (s': seq<Slot>, t': seq<Slot>, x: Slot)
    requires Ordered(s) && Ordered(t) && SameAtEach(s, t) && s != []
    ensures s == s' + [x] && t == t' + [x]
    ensures Ordered(s') && Ordered(t') && SameAtEach(s', t')
  {
    hide AtIndex;
    LastAgrees(s, t);
    LastAgrees(t, s);
    assert AtIndex(s, s[|s| - 1].index) == AtIndex(t, s[|s| - 1].index);
    SameLast(s, t);
    hide SameAtEach;
    s', x := Init(s);
    var y;
    t', y := Init(t);
    SameInit(s', t', x);
  }

  lemma SameLast(s: seq<Slot>, t: seq<Slot>)
    requires s != [] && t != [] && s[|s| - 1].index == t[|t| - 1].index
    requires AtIndex(s, s[|s| - 1].index) == AtIndex(t, s[|s| - 1].index)
    ensures s[|s| - 1] == t[|t| - 1]
  {
    hide AtIndex;
    var x, y := s[|s| - 1], t[|t| - 1];
    LastAtIndex(s);
    LastAtIndex(t);
    SnocInjective(AtIndex(s[..|s| - 1], x.index), AtIndex(t[..|t| - 1], y.index), x, y);
  }

  lemma SnocInjective<T>(a: seq<T>, b: seq<T>, x: T, y: T)
    requires a + [x] == b + [y]
    ensures a == b && x == y
  {
    assert |a + [x]| == |b + [y]|;
    assert (a + [x])[|a|] == x && (b + [y])[|b|] == y;
    assert (a + [x])[..|a|] == a && (b + [y])[..|b|] == b;
  }

  lemma SameSuffix<T>(a: seq<T>, b: seq<T>, c: seq<T>)
    requires a + c == b + c
    ensures a == b
  {
    assert |a + c| == |b + c|;
    assert (a + c)[..|a|] == a && (b + c)[..|b|] == b;
  }

  lemma SameBefore(s: seq<Slot>, t: seq<Slot>, x: Slot, index: nat)
    requires AtIndex(s + [x], index) == AtIndex(t + [x], index)
    ensures AtIndex(s, index) == AtIndex(t, index)
  {
    hide AtIndex;
    AtIndexAppend(s, [x], index);
    AtIndexAppend(t, [x], index);
    SameSuffix(AtIndex(s, index), AtIndex(t, index), AtIndex([x], index));
  }

  lemma LastAtIndex(s: seq<Slot>)
    requires s != []
    ensures var x := s[|s| - 1];
      AtIndex(s, x.index) == AtIndex(s[..|s| - 1], x.index) + [x]
  {
  }

  // ----- looking up

  function First(s: seq<Slot>): Option<nat> {
    if s == [] then None else Some(s[0].node)
  }

  /** The node of the first set that has the index. */
  function FirstWith(attrs: seq<AttributeSet>, index: nat): Option<nat> {
    if attrs == [] then None
    else
      var here := AtIndex(Slots(attrs[0]), index);
      if here != [] then First(here) else FirstWith(attrs[1..], index)
  }

  /** The node is that of the first slot with the index. */
  ghost predicate FirstSlot(s: seq<Slot>, index: nat, node: nat) {
    exists i :: 0 <= i < |s| && s[i] == Slot(index, node) && forall j :: 0 <= j < i ==> s[j].index != index
  }

  ghost predicate Has(s: seq<Slot>, index: nat) {
    exists i :: 0 <= i < |s| && s[i].index == index
  }

  ghost predicate FirstSetWith(attrs: seq<AttributeSet>, index: nat, k: nat)
    requires k < |attrs|
  {
    Has(Slots(attrs[k]), index) && forall i :: 0 <= i < k ==> !Has(Slots(attrs[i]), index)
  }

  method GetAttributes(a: AttributeSet, index: nat) returns (node: Option<nat>)
    ensures node == First(AtIndex(Slots(a), index))
    ensures node.Some? <==> Has(Slots(a), index)
    ensures node.Some? ==> FirstSlot(Slots(a), index, node.value)
  {
    if a.Null? {
      return None;
    }
    var i := 0;
    while i < |a.slots|
      invariant i <= |a.slots| && AtIndex(a.slots[..i], index) == []
      invariant forall j :: 0 <= j < i ==> a.slots[j].index != index
    {
      assert a.slots == a.slots[..i] + [a.slots[i]] + a.slots[i + 1..];
      assert a.slots[..i + 1] == a.slots[..i] + [a.slots[i]];
      AtIndexAppend(a.slots[..i], [a.slots[i]], index);
      AtIndexAppend(a.slots[..i + 1], a.slots[i + 1..], index);
      if a.slots[i].index == index {
        assert FirstSlot(a.slots, index, a.slots[i].node);
        return Some(a.slots[i].node);
      }
      i := i + 1;
    }
    assert a.slots[..i] == a.slots;
    return None;
  }

  lemma {:induction false} ConcatFirst(attrs: seq<AttributeSet>, index: nat)
    ensures First(AtIndex(Concat(attrs), index)) == FirstWith(attrs, index)
  {
    if attrs != [] {
      ConcatHead(attrs);
      AtIndexAppend(Slots(attrs[0]), Concat(attrs[1..]), index);
      hide AtIndex, Concat;
      ConcatFirst(attrs[1..], index);
    }
  }

  lemma {:induction false} ConcatHead(attrs: seq<AttributeSet>)
    requires attrs != []
    ensures Concat(attrs) == Slots(attrs[0]) + Concat(attrs[1..])
  {
    var k := |attrs| - 1;
    if k > 0 {
      ConcatHead(attrs[..k]);
      assert attrs[..k][1..] == attrs[1..][..k - 1];
    }
  }

  /** A lookup in the merged set answers from the first set that has the index. */
  method GetThenLookUp(attrs: seq<AttributeSet>, index: nat) returns (node: Option<nat>)
    requires forall i :: 0 <= i < |attrs| ==> Ordered(Slots(attrs[i]))
    ensures node == FirstWith(attrs, index)
    ensures node.None? ==> forall k :: 0 <= k < |attrs| ==> !Has(Slots(attrs[k]), index)
    ensures node.Some? ==> exists k :: 0 <= k < |attrs| && FirstSetWith(attrs, index, k) && FirstSlot(Slots(attrs[k]), index, node.value)
  {
    hide AtIndex, FirstWith, First, FirstSlot, Has;
    var r := Get(attrs);
    ConcatFirst(attrs, index);
    FirstWithMeans(attrs, index);
    node := GetAttributes(r, index);
    assert AtIndex(Slots(r), index) == AtIndex(Concat(attrs), index) + AtIndex([], index) == AtIndex(Concat(attrs), index) by {
      AtIndexNone([], index);
    }
  }

  lemma {:induction false} FirstSlotIs(s: seq<Slot>, index: nat)
    ensures First(AtIndex(s, index)).Some? <==> Has(s, index)
    ensures First(AtIndex(s, index)).Some? ==> FirstSlot(s, index, First(AtIndex(s, index)).value)
  {
    if s != [] {
      var k := |s| - 1;
      FirstSlotIs(s[..k], index);
      assert s == s[..k] + [s[k]];
      var before := AtIndex(s[..k], index);
      if Has(s[..k], index) {
        assert AtIndex(s, index)[0] == before[0];
        var i :| 0 <= i < k && s[..k][i] == Slot(index, before[0].node) && forall j :: 0 <= j < i ==> s[..k][j].index != index;
        assert s[i] == Slot(index, before[0].node);
      } else {
        assert forall j :: 0 <= j < k ==> s[..k][j] == s[j];
        assert before == [];
      }
    }
  }

  lemma {:induction false} FirstWithMeans(attrs: seq<AttributeSet>, index: nat)
    ensures var node := FirstWith(attrs, index);
      if node.None? then forall k :: 0 <= k < |attrs| ==> !Has(Slots(attrs[k]), index)
      else exists k :: 0 <= k < |attrs| && FirstSetWith(attrs, index, k) && FirstSlot(Slots(attrs[k]), index, node.value)
  {
    if attrs != [] {
      FirstSlotIs(Slots(attrs[0]), index);
      FirstWithMeans(attrs[1..], index);
      var node := FirstWith(attrs, index);
      hide AtIndex, FirstSlot, Has;
      if AtIndex(Slots(attrs[0]), index) == [] && node.Some? {
        var k :| 0 <= k < |attrs[1..]| && FirstSetWith(attrs[1..], index, k) && FirstSlot(Slots(attrs[1..][k]), index, node.value);
        assert attrs[1..][k] == attrs[k + 1];
        assert forall i :: 0 < i < k + 1 ==> attrs[i] == attrs[1..][i - 1];
      } else {
        assert forall i :: 0 < i < |attrs| ==> attrs[i] == attrs[1..][i - 1];
      }
    }
  }
}
