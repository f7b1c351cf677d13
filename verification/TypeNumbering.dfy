/** The struct types a module uses: a worklist over a type graph that may have cycles, and
    the split into named types and numbered ones. */
module TypeNumbering {
  import opened Sequences

  class Type {
    const isStruct: bool
    const isLiteral: bool
    const name: string
    var subtypes: seq<Type>

    constructor (isStruct: bool, isLiteral: bool, name: string)
      ensures this.isStruct == isStruct && this.isLiteral == isLiteral && this.name == name && subtypes == []
    {
      this.isStruct, this.isLiteral, this.name, subtypes := isStruct, isLiteral, name, [];
    }

    predicate HasName() {
      name != ""
    }
  }

  ghost function Elements(s: seq<Type>): set<Type> {
    set x | x in s
  }

  lemma PopLast(s: seq<Type>)
    requires s != [] && Distinct(s)
    ensures var k := |s| - 1;
      Distinct(s[..k]) && s[k] in Elements(s) && s[k] !in Elements(s[..k]) && Elements(s) == Elements(s[..k]) + {s[k]}
  {
  }

  lemma Fewer(g: set<Type>, done: set<Type>, more: set<Type>)
    requires done < more <= g
    ensures |g - more| < |g - done|
  {
    var t :| t in more && t !in done;
    assert g - more <= (g - done) - {t};
    Smaller(g - more, (g - done) - {t});
  }

  lemma {:induction false} Smaller(a: set<Type>, b: set<Type>)
    requires a <= b
    ensures |a| <= |b|
  {
    if a != {} {
      var t :| t in a;
      Smaller(a - {t}, b - {t});
    }
  }

  /** A set of types no subtype leads out of. */
  ghost predicate Closed(g: set<Type>)
    reads g
  {
    forall t :: t in g ==> HasSubtypes(t, g)
  }

  ghost predicate HasSubtypes(t: Type, g: set<Type>)
    reads t
  {
    forall i :: 0 <= i < |t.subtypes| ==> t.subtypes[i] in g
  }

  // ----- the order in which types are dealt with

  /** Where x is in s for the last time. */
  ghost function LastPos(s: seq<Type>, x: Type): (p: nat)
    ensures x in s ==> p < |s| && s[p] == x && forall i :: p < i < |s| ==> s[i] != x
  {
    if s == [] || s[|s| - 1] == x then |s| - 1 + (if s == [] then 1 else 0) else LastPos(s[..|s| - 1], x)
  }

  /** The types visited before r[k] is dealt with: those of earlier calls, the first type, and
      what those in front of r[k] are made of. */
  ghost function Seen(before: set<Type>, ty: Type, r: seq<Type>, k: nat): set<Type>
    requires k <= |r|
    reads r
  {
    if k == 0 then before + {ty} else Seen(before, ty, r, k - 1) + Elements(r[k - 1].subtypes)
  }

  /** It was r[j] that visited x, and x still waits when k types are dealt with. */
  ghost predicate Waits(before: set<Type>, ty: Type, r: seq<Type>, j: nat, k: nat, x: Type)
    requires j < k <= |r|
    reads r
  {
    x in r[j].subtypes && x !in Seen(before, ty, r, j) && x !in r[..k]
  }

  ghost predicate NoneWaits(before: set<Type>, ty: Type, r: seq<Type>, from: nat, k: nat)
    requires k <= |r|
    reads r
  {
    forall j, y :: from <= j < k && y in r[j].subtypes ==> !Waits(before, ty, r, j, k, y)
  }

  /** Which type comes at place k: of those waiting, the ones visited last; and of these the
      first, going by where each occurs last. */
  ghost predicate Next(before: set<Type>, ty: Type, r: seq<Type>, k: nat)
    requires k < |r|
    reads r
  {
    exists j :: 0 <= j < k && Waits(before, ty, r, j, k, r[k]) && NoneWaits(before, ty, r, j + 1, k)
      && forall y :: y in r[j].subtypes && Waits(before, ty, r, j, k, y) ==>
           LastPos(r[j].subtypes, r[k]) <= LastPos(r[j].subtypes, y)
  }

  ghost predicate EachNext(before: set<Type>, ty: Type, r: seq<Type>)
    reads r
  {
    forall k :: 0 < k < |r| ==> Next(before, ty, r, k)
  }

  /** The first type comes first, each other type comes where it should, and none is left
      waiting. */
  ghost predicate InOrder(before: set<Type>, ty: Type, r: seq<Type>)
    reads r
  {
    r != [] && r[0] == ty && EachNext(before, ty, r) && NoneWaits(before, ty, r, 0, |r|)
  }

  lemma {:induction false} SeenPrefix(before: set<Type>, ty: Type, r: seq<Type>, s: seq<Type>, k: nat)
    requires k <= |r| && k <= |s| && r[..k] == s[..k]
    ensures Seen(before, ty, r, k) == Seen(before, ty, s, k)
  {
    if k > 0 {
      assert r[..k - 1] == r[..k][..k - 1] && s[..k - 1] == s[..k][..k - 1];
      assert r[k - 1] == r[..k][k - 1] && s[k - 1] == s[..k][k - 1];
      SeenPrefix(before, ty, r, s, k - 1);
    }
  }

  lemma WaitsPrefix(before: set<Type>, ty: Type, r: seq<Type>, s: seq<Type>, j: nat, k: nat, x: Type)
    requires j < k <= |r| && k <= |s| && r[..k] == s[..k]
    ensures r[j] == s[j] && (Waits(before, ty, r, j, k, x) <==> Waits(before, ty, s, j, k, x))
  {
    assert r[..j] == r[..k][..j] && s[..j] == s[..k][..j];
    assert r[j] == r[..k][j] && s[j] == s[..k][j];
    SeenPrefix(before, ty, r, s, j);
  }

  /** There is only one such order. */
  lemma OrderUnique(before: set<Type>, ty: Type, r: seq<Type>, s: seq<Type>)
    requires InOrder(before, ty, r) && InOrder(before, ty, s)
    ensures r == s
  {
    var k := 1;
    assert r[..1] == [ty] && s[..1] == [ty];
    while k < |r| && k < |s|
      invariant 1 <= k <= |r| && k <= |s| && r[..k] == s[..k]
    {
      NextUnique(before, ty, r, s, k);
      assert r[..k + 1] == r[..k] + [r[k]] && s[..k + 1] == s[..k] + [s[k]];
      k := k + 1;
    }
    if k < |r| {
      NothingNext(before, ty, r, k, s);
    } else if k < |s| {
      NothingNext(before, ty, s, k, r);
    }
    assert r[..|r|] == r && s[..|s|] == s;
  }

  lemma NextUnique(before: set<Type>, ty: Type, r: seq<Type>, s: seq<Type>, k: nat)
    requires 0 < k < |r| && k < |s| && r[..k] == s[..k] && Next(before, ty, r, k) && Next(before, ty, s, k)
    ensures r[k] == s[k]
  {
    forall j: nat, x | j < k
      ensures r[j] == s[j] && (Waits(before, ty, r, j, k, x) <==> Waits(before, ty, s, j, k, x))
    {
      WaitsPrefix(before, ty, r, s, j, k, x);
    }
    hide Waits, LastPos;
    var i :| 0 <= i < k && Waits(before, ty, r, i, k, r[k]) && NoneWaits(before, ty, r, i + 1, k)
      && forall y :: y in r[i].subtypes && Waits(before, ty, r, i, k, y) ==> LastPos(r[i].subtypes, r[k]) <= LastPos(r[i].subtypes, y);
    var j :| 0 <= j < k && Waits(before, ty, s, j, k, s[k]) && NoneWaits(before, ty, s, j + 1, k)
      && forall y :: y in s[j].subtypes && Waits(before, ty, s, j, k, y) ==> LastPos(s[j].subtypes, s[k]) <= LastPos(s[j].subtypes, y);
    WaitsIn(before, ty, r, i, k, r[k]);
    WaitsIn(before, ty, s, j, k, s[k]);
    assert i == j;
    assert LastPos(r[i].subtypes, r[k]) == LastPos(r[i].subtypes, s[k]);
    SameLast(r[i].subtypes, r[k], s[k]);
  }

  lemma WaitsIn(before: set<Type>, ty: Type, r: seq<Type>, j: nat, k: nat, x: Type)
    requires j < k <= |r| && Waits(before, ty, r, j, k, x)
    ensures x in r[j].subtypes
  {
  }

  lemma SameLast(s: seq<Type>, x: Type, y: Type)
    requires x in s && y in s && LastPos(s, x) == LastPos(s, y)
    ensures x == y
  {
  }

  lemma NothingNext(before: set<Type>, ty: Type, r: seq<Type>, k: nat, s: seq<Type>)
    requires 0 < k < |r| && s == r[..k] && NoneWaits(before, ty, s, 0, |s|)
    ensures !Next(before, ty, r, k)
  {
    if Next(before, ty, r, k) {
      var j :| 0 <= j < k && Waits(before, ty, r, j, k, r[k]);
      assert s[..k] == r[..k];
      WaitsPrefix(before, ty, r, s, j, k, r[k]);
    }
  }

  // ----- the worklist

  /** list[q] is above list[p]: it was visited later, or by the same type and stands earlier. */
  ghost predicate Above(r: seq<Type>, list: seq<Type>, from: seq<nat>, p: nat, q: nat)
    requires p < |list| == |from| && q < |list| && from[p] < |r| && from[q] < |r|
    reads r
  {
    || from[p] < from[q]
    || (from[p] == from[q] && LastPos(r[from[p]].subtypes, list[p]) > LastPos(r[from[q]].subtypes, list[q]))
  }

  /** The list holds what the first k of the types dealt with have visited and still waits,
      by from which it was visited. */
  ghost predicate Stacked(before: set<Type>, ty: Type, r: seq<Type>, k: nat, list: seq<Type>, from: seq<nat>)
    requires k <= |r|
    reads r
  {
    && |from| == |list|
    && (forall p :: 0 <= p < |list| ==> from[p] < k && Waits(before, ty, r, from[p], |r|, list[p]))
    && (forall p, q :: 0 <= p < q < |list| ==> Above(r, list, from, p, q))
    && (forall j, y :: 0 <= j < k && y in r[j].subtypes && Waits(before, ty, r, j, |r|, y) ==> y in list)
  }

  /** A type is visited once. */
  lemma {:induction false} SeenLater(before: set<Type>, ty: Type, r: seq<Type>, j: nat, k: nat, x: Type)
    requires j < k <= |r| && x in r[j].subtypes
    ensures x in Seen(before, ty, r, k)
    decreases k
  {
    if k > j + 1 {
      SeenLater(before, ty, r, j, k - 1, x);
    }
  }

  lemma OneVisitor(before: set<Type>, ty: Type, r: seq<Type>, i: nat, j: nat, k: nat, x: Type)
    requires i < k <= |r| && j < k && Waits(before, ty, r, i, k, x) && Waits(before, ty, r, j, k, x)
    ensures i == j
  {
    if i < j {
      SeenLater(before, ty, r, i, j, x);
    } else if j < i {
      SeenLater(before, ty, r, j, i, x);
    }
  }

  /** The last of the list is the one to come. */
  lemma LastIsNext(before: set<Type>, ty: Type, r: seq<Type>, list: seq<Type>, from: seq<nat>)
    requires Stacked(before, ty, r, |r|, list, from) && list != []
    ensures Next(before, ty, r + [list[|list| - 1]], |r|)
  {
    var last, k := |list| - 1, |r|;
    var x, j, s := list[last], from[last], r + [list[last]];
    assert r[..k] == s[..k];
    forall i: nat, y | i < k
      ensures r[i] == s[i] && (Waits(before, ty, r, i, k, y) <==> Waits(before, ty, s, i, k, y))
    {
      WaitsPrefix(before, ty, r, s, i, k, y);
    }
    forall i, y | j <= i < k && y in s[i].subtypes && Waits(before, ty, s, i, k, y)
      ensures i == j && LastPos(s[j].subtypes, x) <= LastPos(s[j].subtypes, y)
    {
      var q :| 0 <= q < |list| && list[q] == y;
      OneVisitor(before, ty, r, i, from[q], k, y);
      assert q < last ==> Above(r, list, from, q, last);
    }
    hide Waits, LastPos;
    assert NoneWaits(before, ty, s, j + 1, k);
  }

  lemma WaitsAfter(before: set<Type>, ty: Type, r: seq<Type>, x: Type, j: nat, y: Type)
    requires j < |r|
    ensures (r + [x])[j] == r[j]
    ensures Waits(before, ty, r + [x], j, |r| + 1, y) <==> Waits(before, ty, r, j, |r|, y) && y != x
  {
    var s := r + [x];
    assert s[..|r|] == r[..|r|] == r && s[..|r| + 1] == s;
    WaitsPrefix(before, ty, r, s, j, |r|, y);
  }

  /** Once it is dealt with, the others wait as before. */
  lemma LastTaken(before: set<Type>, ty: Type, r: seq<Type>, list: seq<Type>, from: seq<nat>)
    requires Stacked(before, ty, r, |r|, list, from) && list != [] && Distinct(list)
    ensures Stacked(before, ty, r + [list[|list| - 1]], |r|, list[..|list| - 1], from[..|list| - 1])
  {
    hide Waits, LastPos;
    var last := |list| - 1;
    var x, s := list[last], r + [list[last]];
    forall p | 0 <= p < last
      ensures from[..last][p] < |r| && Waits(before, ty, s, from[..last][p], |s|, list[..last][p])
    {
      WaitsAfter(before, ty, r, x, from[p], list[p]);
    }
    forall p, q | 0 <= p < q < last
      ensures Above(s, list[..last], from[..last], p, q)
    {
      assert Above(r, list, from, p, q) && s[from[p]] == r[from[p]] && s[from[q]] == r[from[q]];
    }
    forall j, y | 0 <= j < |r| && y in s[j].subtypes && Waits(before, ty, s, j, |s|, y)
      ensures y in list[..last]
    {
      WaitsAfter(before, ty, r, x, j, y);
      assert list == list[..last] + [x];
    }
  }

  /** What a type put on the list: the subtypes not seen, each once, those that occur last
      first. */
  ghost predicate Pushed(subtypes: seq<Type>, seen: set<Type>, pushed: seq<Type>) {
    && (forall p :: 0 <= p < |pushed| ==> pushed[p] in subtypes && pushed[p] !in seen)
    && (forall p, q :: 0 <= p < q < |pushed| ==> LastPos(subtypes, pushed[p]) > LastPos(subtypes, pushed[q]))
    && (forall y :: y in subtypes && y !in seen ==> y in pushed)
  }

  /** The same when the subtypes from i on have been gone through. */
  ghost predicate PushedFrom(subtypes: seq<Type>, seen: set<Type>, pushed: seq<Type>, i: nat)
    requires i <= |subtypes|
  {
    && (forall p :: 0 <= p < |pushed| ==> pushed[p] in subtypes && pushed[p] !in seen && LastPos(subtypes, pushed[p]) >= i)
    && (forall p, q :: 0 <= p < q < |pushed| ==> LastPos(subtypes, pushed[p]) > LastPos(subtypes, pushed[q]))
    && (forall m :: i <= m < |subtypes| && subtypes[m] !in seen ==> subtypes[m] in pushed)
  }

  lemma PushNext(subtypes: seq<Type>, seen: set<Type>, pushed: seq<Type>, i: nat)
    requires i < |subtypes| && PushedFrom(subtypes, seen, pushed, i + 1)
    ensures var sub := subtypes[i];
      && Elements(subtypes[i..]) == Elements(subtypes[i + 1..]) + {sub}
      && PushedFrom(subtypes, seen, if sub in seen + Elements(subtypes[i + 1..]) then pushed else pushed + [sub], i)
  {
    hide LastPos, PushedFrom;
    var sub := subtypes[i];
    ElementsFrom(subtypes, i);
    if sub in seen || sub in subtypes[i + 1..] {
      PushKnown(subtypes, seen, pushed, i);
    } else {
      FirstFromEnd(subtypes, i);
      PushNew(subtypes, seen, pushed, i);
    }
  }

  lemma PushKnown(subtypes: seq<Type>, seen: set<Type>, pushed: seq<Type>, i: nat)
    requires i < |subtypes| && PushedFrom(subtypes, seen, pushed, i + 1)
    requires subtypes[i] in seen || subtypes[i] in subtypes[i + 1..]
    ensures PushedFrom(subtypes, seen, pushed, i)
  {
    hide LastPos;
    if subtypes[i] !in seen {
      var m :| 0 <= m < |subtypes[i + 1..]| && subtypes[i + 1..][m] == subtypes[i];
      assert subtypes[i + 1 + m] == subtypes[i];
    }
  }

  lemma PushNew(subtypes: seq<Type>, seen: set<Type>, pushed: seq<Type>, i: nat)
    requires i < |subtypes| && PushedFrom(subtypes, seen, pushed, i + 1)
    requires subtypes[i] !in seen && LastPos(subtypes, subtypes[i]) == i
    ensures PushedFrom(subtypes, seen, pushed + [subtypes[i]], i)
  {
    hide LastPos;
    assert (pushed + [subtypes[i]])[|pushed|] == subtypes[i];
  }

  lemma ElementsFrom(s: seq<Type>, i: nat)
    requires i < |s|
    ensures Elements(s[i..]) == Elements(s[i + 1..]) + {s[i]}
    ensures s[i] in Elements(s[i + 1..]) <==> s[i] in s[i + 1..]
    ensures forall y :: y in s[i..] <==> y == s[i] || y in s[i + 1..]
  {
    assert s[i..] == [s[i]] + s[i + 1..];
  }

  lemma PushNone(subtypes: seq<Type>, seen: set<Type>)
    ensures PushedFrom(subtypes, seen, [], |subtypes|) && Elements(subtypes[|subtypes|..]) == {}
  {
  }

  lemma PushAll(subtypes: seq<Type>, seen: set<Type>, pushed: seq<Type>)
    requires PushedFrom(subtypes, seen, pushed, 0)
    ensures Pushed(subtypes, seen, pushed) && subtypes[0..] == subtypes
    ensures forall i :: 0 <= i < |subtypes| ==> subtypes[i] in Elements(subtypes)
  {
    hide LastPos;
  }

  lemma ElementsSnoc(s: seq<Type>, x: Type)
    ensures Elements(s + [x]) == Elements(s) + {x}
    ensures Distinct(s) && x !in Elements(s) ==> Distinct(s + [x])
  {
  }

  lemma FirstFromEnd(s: seq<Type>, i: nat)
    requires i < |s| && s[i] !in s[i + 1..]
    ensures LastPos(s, s[i]) == i
  {
    assert forall q :: i < q < |s| ==> s[q] == s[i + 1..][q - i - 1];
  }

  lemma PushedStacked(before: set<Type>, ty: Type, r: seq<Type>, list: seq<Type>, from: seq<nat>, pushed: seq<Type>)
    requires r != [] && Stacked(before, ty, r, |r| - 1, list, from)
    requires Pushed(r[|r| - 1].subtypes, Seen(before, ty, r, |r| - 1), pushed)
    requires forall x :: x in r ==> x in Seen(before, ty, r, |r| - 1)
    ensures Stacked(before, ty, r, |r|, list + pushed, from + seq(|pushed|, _ => |r| - 1))
  {
    var k, all, froms := |r| - 1, list + pushed, from + seq(|pushed|, _ => |r| - 1);
    assert r[..|r|] == r;
    assert forall y :: y in r[k].subtypes ==> (Waits(before, ty, r, k, |r|, y) <==> y !in Seen(before, ty, r, k));
    hide Waits, LastPos, Seen;
    forall p | 0 <= p < |all|
      ensures froms[p] < |r| && Waits(before, ty, r, froms[p], |r|, all[p])
    {
      assert p >= |list| ==> all[p] == pushed[p - |list|];
    }
    forall p, q | 0 <= p < q < |all|
      ensures Above(r, all, froms, p, q)
    {
      if q < |list| {
        assert Above(r, list, from, p, q);
      }
    }
  }

  lemma NextExtends(before: set<Type>, ty: Type, r: seq<Type>, x: Type)
    requires EachNext(before, ty, r) && (r != [] ==> Next(before, ty, r + [x], |r|))
    ensures EachNext(before, ty, r + [x])
  {
    hide Next;
    forall k | 0 < k < |r|
      ensures Next(before, ty, r + [x], k)
    {
      NextKept(before, ty, r, r + [x], k);
    }
  }

  lemma NextKept(before: set<Type>, ty: Type, r: seq<Type>, s: seq<Type>, k: nat)
    requires 0 < k < |r| && Next(before, ty, r, k) && r <= s
    ensures Next(before, ty, s, k)
  {
    assert r[..k] == s[..k] && r[k] == s[k];
    forall i: nat, y | i < k
      ensures r[i] == s[i] && (Waits(before, ty, r, i, k, y) <==> Waits(before, ty, s, i, k, y))
    {
      WaitsPrefix(before, ty, r, s, i, k, y);
    }
    hide Waits, LastPos;
    var j :| 0 <= j < k && Waits(before, ty, r, j, k, r[k]) && NoneWaits(before, ty, r, j + 1, k)
      && forall y :: y in r[j].subtypes && Waits(before, ty, r, j, k, y) ==> LastPos(r[j].subtypes, r[k]) <= LastPos(r[j].subtypes, y);
    assert NoneWaits(before, ty, s, j + 1, k);
  }

  /** Between two turns of the loop. */
  ghost predicate Underway(before: set<Type>, ty: Type, dealt: seq<Type>, list: seq<Type>, from: seq<nat>)
    reads dealt
  {
    if dealt == [] then list == [ty]
    else dealt[0] == ty && EachNext(before, ty, dealt) && Stacked(before, ty, dealt, |dealt|, list, from)
  }

  lemma TakeLast(list: seq<Type>, from: seq<nat>, before: set<Type>, ty: Type, dealt: seq<Type>) returns (left: seq<nat>)
    requires list != [] && Distinct(list) && Underway(before, ty, dealt, list, from)
    ensures var dealt' := dealt + [list[|list| - 1]];
      && dealt'[0] == ty && EachNext(before, ty, dealt')
      && Stacked(before, ty, dealt', |dealt|, list[..|list| - 1], left)
  {
    hide Next;
    if dealt == [] {
      left := [];
    } else {
      LastIsNext(before, ty, dealt, list, from);
      LastTaken(before, ty, dealt, list, from);
      NextExtends(before, ty, dealt, list[|list| - 1]);
      left := from[..|list| - 1];
    }
  }

  lemma Finished(before: set<Type>, ty: Type, dealt: seq<Type>, from: seq<nat>)
    requires Underway(before, ty, dealt, [], from)
    ensures InOrder(before, ty, dealt)
  {
    hide Next;
  }

  predicate IsStruct(t: Type) {
    t.isStruct
  }

  predicate IsNamedStruct(t: Type) {
    t.isStruct && t.HasName()
  }

  class TypeFinder {
    var visitedTypes: set<Type>
    var structTypes: seq<Type>
    const onlyNamed: bool

    constructor (onlyNamed: bool)
      ensures visitedTypes == {} && structTypes == [] && this.onlyNamed == onlyNamed
    {
      this.onlyNamed := onlyNamed;
      visitedTypes, structTypes := {}, [];
    }

    predicate Wanted(t: Type) {
      t.isStruct && (!onlyNamed || t.HasName())
    }

    /** The types listed are, once each, the wanted ones among those dealt with. */
    ghost predicate Lists(done: set<Type>)
      reads this`structTypes
    {
      && Distinct(structTypes)
      && (forall t :: t in structTypes ==> t in done && Wanted(t))
      && (forall t :: t in done && Wanted(t) ==> t in structTypes)
    }

    ghost predicate Valid(g: set<Type>)
      reads this, visitedTypes, g
    {
      visitedTypes <= g && Closed(visitedTypes) && Lists(visitedTypes)
    }

    /** The wanted ones of a list, in order. */
    ghost function WantedOf(s: seq<Type>): seq<Type> {
      if onlyNamed then Filter(IsNamedStruct, s) else Filter(IsStruct, s)
    }

    /** Add a type and all it is made of: afterwards the visited set is the least closed set
        that holds the type and what was visited before, and the wanted types in it are
        listed once each, those listed before first.  `dealt` is the order in which the new
        ones were taken from the worklist. */
    method IncorporateType(ty: Type, ghost g: set<Type>, ghost c: set<Type>) returns (ghost dealt: seq<Type>)
      requires Closed(g) && ty in g && Valid(g)
      requires Closed(c) && ty in c && visitedTypes <= c
      modifies this
      ensures Valid(g) && ty in visitedTypes && old(visitedTypes) <= visitedTypes <= c
      ensures forall t :: t in structTypes <==> t in visitedTypes && t.isStruct && (onlyNamed ==> t.name != "")
      ensures visitedTypes == old(visitedTypes) + Elements(dealt)
      ensures if ty in old(visitedTypes) then dealt == [] else InOrder(old(visitedTypes), ty, dealt)
      ensures structTypes == old(structTypes) + WantedOf(dealt)
    {
      if ty in visitedTypes {
        dealt := [];
        assert Elements(dealt) == {} && structTypes + [] == structTypes;
        return;
      }
      ghost var before := visitedTypes;
      visitedTypes := visitedTypes + {ty};
      dealt := Walk(ty, before, g, c);
    }

    /** The loop over the worklist. */
    method Walk(ty: Type, ghost before: set<Type>, ghost g: set<Type>, ghost c: set<Type>) returns (ghost dealt: seq<Type>)
      requires Closed(g) && ty in g && before <= g && Closed(before) && Lists(before)
      requires Closed(c) && ty in c && before <= c && ty !in before && visitedTypes == before + {ty}
      modifies this
      ensures Valid(g) && ty in visitedTypes && before <= visitedTypes <= c
      ensures visitedTypes == before + Elements(dealt) && InOrder(before, ty, dealt)
      ensures structTypes == old(structTypes) + WantedOf(dealt)
    {
      var worklist := [ty];
      ghost var from: seq<nat> := [];
      WalkBegins(ty, before, g, c);
      dealt := [];
      NothingDealt(before, ty);
      assert Underway(before, ty, dealt, worklist, from);
      hide Closed, Walking, Lists, Underway, InOrder, Elements, WantedOf, Distinct, Seen;
      while worklist != []
        invariant Walking(worklist, before + Elements(dealt), g, c) && Lists(before + Elements(dealt))
        invariant before + Elements(dealt) <= g
        invariant visitedTypes == Seen(before, ty, dealt, |dealt|)
        invariant Underway(before, ty, dealt, worklist, from)
        invariant structTypes == old(structTypes) + WantedOf(dealt)
        decreases |g - (before + Elements(dealt))|
      {
        ghost var done, x := before + Elements(dealt), worklist[|worklist| - 1];
        WantedSnoc(old(structTypes), dealt, x);
        worklist, from, dealt := ProcessLast(worklist, from, before, ty, dealt, g, c);
        Fewer(g, done, before + Elements(dealt));
      }
      Finished(before, ty, dealt, from);
      WalkEnds(before + Elements(dealt), ty, dealt, before, g, c);
    }

    lemma NothingDealt(before: set<Type>, ty: Type)
      ensures Elements([]) == {} && before + {} == before && Seen(before, ty, [], 0) == before + {ty}
      ensures structTypes + WantedOf([]) == structTypes
    {
    }

    lemma WantedSnoc(listed: seq<Type>, s: seq<Type>, x: Type)
      ensures listed + WantedOf(s + [x]) == listed + WantedOf(s) + if Wanted(x) then [x] else []
    {
      hide Filter;
      FilterSnoc(IsStruct, s, x);
      FilterSnoc(IsNamedStruct, s, x);
      assert forall last :: listed + (WantedOf(s) + last) == listed + WantedOf(s) + last;
    }

    /** The wanted types of a list are listed in its order. */
    lemma WantedMeans(s: seq<Type>)
      ensures forall t :: t in WantedOf(s) <==> t in s && t.isStruct && (onlyNamed ==> t.name != "")
      ensures forall i, j :: 0 <= i < j < |WantedOf(s)| ==> Before(s, WantedOf(s)[i], WantedOf(s)[j])
    {
      hide Filter;
      InFilter(IsStruct, s);
      InFilter(IsNamedStruct, s);
      FilterInOrder(IsStruct, s);
      FilterInOrder(IsNamedStruct, s);
    }

    lemma WalkEnds(done: set<Type>, ty: Type, dealt: seq<Type>, before: set<Type>, g: set<Type>, c: set<Type>)
      requires Walking([], done, g, c) && Lists(done) && InOrder(before, ty, dealt) && done == before + Elements(dealt)
      ensures Valid(g) && before <= visitedTypes <= c && visitedTypes == done && ty in visitedTypes
    {
      assert Elements([]) == {} && visitedTypes == done;
    }

    lemma WalkBegins(ty: Type, before: set<Type>, g: set<Type>, c: set<Type>)
      requires ty in g && ty in c && ty !in before && visitedTypes == before + {ty} && before <= g && before <= c && Closed(before)
      ensures Walking([ty], before, g, c)
    {
      assert Elements([ty]) == {ty};
    }

    /** The worklist holds what was visited but not dealt with; whatever was dealt with has
        its subtypes visited. */
    ghost predicate Walking(worklist: seq<Type>, done: set<Type>, g: set<Type>, c: set<Type>)
      reads this`visitedTypes, done
    {
      && Distinct(worklist) && visitedTypes == done + Elements(worklist) && done !! Elements(worklist)
      && visitedTypes <= g && visitedTypes <= c
      && forall t :: t in done ==> HasSubtypes(t, visitedTypes)
    }

    method ProcessLast(list: seq<Type>, ghost from: seq<nat>, ghost before: set<Type>, ghost ty: Type, ghost dealt: seq<Type>,
                       ghost g: set<Type>, ghost c: set<Type>)
      returns (worklist: seq<Type>, ghost from': seq<nat>, ghost dealt': seq<Type>)
      requires Walking(list, before + Elements(dealt), g, c) && Lists(before + Elements(dealt)) && Closed(g) && Closed(c)
      requires list != [] && visitedTypes == Seen(before, ty, dealt, |dealt|) && Underway(before, ty, dealt, list, from)
      modifies this
      ensures dealt' == dealt + [list[|list| - 1]]
      ensures Walking(worklist, before + Elements(dealt'), g, c) && Lists(before + Elements(dealt'))
      ensures before + Elements(dealt) < before + Elements(dealt') <= g
      ensures visitedTypes == Seen(before, ty, dealt', |dealt'|) && Underway(before, ty, dealt', worklist, from')
      ensures structTypes == old(structTypes) + if Wanted(list[|list| - 1]) then [list[|list| - 1]] else []
    {
      hide Stacked, EachNext, Lists, Pushed;
      var t := list[|list| - 1];
      ghost var done := before + Elements(dealt);
      PopLast(list);
      ListType(t, done);
      dealt' := dealt + [t];
      ElementsSnoc(dealt, t);
      assert before + Elements(dealt') == done + {t};
      var rest := list[..|list| - 1];
      ghost var left := TakeLast(list, from, before, ty, dealt);
      assert forall x :: x in dealt' ==> x in Elements(dealt') && x in visitedTypes;
      SeenPrefix(before, ty, dealt, dealt', |dealt|);
      assert dealt[..|dealt|] == dealt'[..|dealt|] && dealt'[..|dealt|] == dealt;
      hide Distinct, Elements;
      ghost var pushed;
      worklist, pushed := AddSubtypes(t, rest, done + {t}, g, c);
      from' := left + seq(|pushed|, _ => |dealt|);
      PushedStacked(before, ty, dealt', rest, left, pushed);
    }

    method ListType(t: Type, ghost done: set<Type>)
      requires t !in done && Lists(done)
      modifies this`structTypes
      ensures Lists(done + {t}) && structTypes == old(structTypes) + if Wanted(t) then [t] else []
    {
      if Wanted(t) {
        structTypes := structTypes + [t];
      }
    }

    /** Put the subtypes not visited yet on the worklist, the last one first. */
    method AddSubtypes(t: Type, list: seq<Type>, ghost done: set<Type>, ghost g: set<Type>, ghost c: set<Type>)
      returns (worklist: seq<Type>, ghost pushed: seq<Type>)
      requires Distinct(list) && visitedTypes == done + Elements(list) && done !! Elements(list)
      requires visitedTypes <= g && visitedTypes <= c && HasSubtypes(t, g) && HasSubtypes(t, c)
      modifies this`visitedTypes
      ensures Distinct(worklist) && visitedTypes == done + Elements(worklist) && done !! Elements(worklist)
      ensures visitedTypes == old(visitedTypes) + Elements(t.subtypes) && visitedTypes <= g && visitedTypes <= c
      ensures HasSubtypes(t, visitedTypes)
      ensures worklist == list + pushed && Pushed(t.subtypes, old(visitedTypes), pushed)
    {
      hide Distinct, Elements, LastPos, Pushed, PushedFrom;
      worklist, pushed := list, [];
      PushNone(t.subtypes, visitedTypes);
      var i := |t.subtypes|;
      while i > 0
        invariant 0 <= i <= |t.subtypes|
        invariant Distinct(worklist) && visitedTypes == done + Elements(worklist) && done !! Elements(worklist)
        invariant visitedTypes == old(visitedTypes) + Elements(t.subtypes[i..]) && visitedTypes <= g && visitedTypes <= c
        invariant worklist == list + pushed && PushedFrom(t.subtypes, old(visitedTypes), pushed, i)
      {
        i := i - 1;
        var sub := t.subtypes[i];
        PushNext(t.subtypes, old(visitedTypes), pushed, i);
        ElementsSnoc(worklist, sub);
        if sub !in visitedTypes {
          visitedTypes := visitedTypes + {sub};
          assert list + (pushed + [sub]) == worklist + [sub];
          worklist, pushed := worklist + [sub], pushed + [sub];
        }
      }
      PushAll(t.subtypes, old(visitedTypes), pushed);
    }
  }

  // ----- names and numbers

  predicate IsNamed(t: Type) {
    !t.isLiteral && t.HasName()
  }

  predicate IsUnnamed(t: Type) {
    !t.isLiteral && !t.HasName()
  }

  /** The named types of a list that are not literals, in order. */
  function Named(s: seq<Type>): seq<Type> {
    Filter(IsNamed, s)
  }

  /** The types of a list that have neither name nor are literals, in order. */
  function Unnamed(s: seq<Type>): seq<Type> {
    Filter(IsUnnamed, s)
  }

  /** The types of the list have the numbers from 0 on, in order. */
  ghost predicate Numbers(numbered: map<Type, nat>, unnamed: seq<Type>) {
    numbered.Keys == Elements(unnamed) && forall i :: 0 <= i < |unnamed| ==> numbered[unnamed[i]] == i
  }

  lemma NumberNext(numbered: map<Type, nat>, unnamed: seq<Type>, t: Type)
    requires Numbers(numbered, unnamed) && t !in unnamed
    ensures Numbers(numbered[t := |unnamed|], unnamed + [t])
  {
    assert Elements(unnamed + [t]) == Elements(unnamed) + {t};
  }

  lemma SplitNext(s: seq<Type>, i: nat)
    requires i < |s| && Distinct(s)
    ensures Named(s[..i + 1]) == if IsNamed(s[i]) then Named(s[..i]) + [s[i]] else Named(s[..i])
    ensures Unnamed(s[..i + 1]) == if IsUnnamed(s[i]) then Unnamed(s[..i]) + [s[i]] else Unnamed(s[..i])
    ensures s[i] !in Unnamed(s[..i])
  {
    hide Filter;
    assert s[..i + 1] == s[..i] + [s[i]];
    FilterSnoc(IsNamed, s[..i], s[i]);
    FilterSnoc(IsUnnamed, s[..i], s[i]);
    assert Named(s[..i]) + [] == Named(s[..i]) && Unnamed(s[..i]) + [] == Unnamed(s[..i]);
    InFilter(IsUnnamed, s[..i]);
  }

  lemma NothingSplit(s: seq<Type>)
    ensures s[..0] == [] && Named([]) == [] && Unnamed([]) == [] && Numbers(map[], [])
  {
  }

  lemma NamedMeans(s: seq<Type>)
    ensures forall t :: t in Named(s) <==> t in s && !t.isLiteral && t.name != ""
    ensures forall i, j :: 0 <= i < j < |Named(s)| ==> Before(s, Named(s)[i], Named(s)[j])
  {
    hide Filter;
    InFilter(IsNamed, s);
    FilterInOrder(IsNamed, s);
  }

  lemma NumbersMean(numbered: map<Type, nat>, s: seq<Type>)
    requires Distinct(s) && Numbers(numbered, Unnamed(s))
    ensures forall t :: t in numbered <==> t in s && !t.isLiteral && t.name == ""
    ensures forall t, u :: t in numbered && u in numbered && numbered[t] < numbered[u] ==> Before(s, t, u)
    ensures forall t :: t in numbered ==> numbered[t] < |numbered|
  {
    hide Filter, Before;
    var r := Unnamed(s);
    InFilter(IsUnnamed, s);
    FilterInOrder(IsUnnamed, s);
    FilterDistinct(IsUnnamed, s);
    DistinctCount(r);
    assert forall t :: t in numbered <==> t in r;
    assert numbered.Keys == Elements(r) && |numbered| == |numbered.Keys|;
    forall t | t in numbered
      ensures 0 <= numbered[t] < |r| && r[numbered[t]] == t
    {
      var i :| 0 <= i < |r| && r[i] == t;
    }
  }

  lemma {:induction false} DistinctCount(s: seq<Type>)
    requires Distinct(s)
    ensures |Elements(s)| == |s|
  {
    if s == [] {
      assert Elements(s) == {};
    } else {
      var k := |s| - 1;
      DistinctCount(s[..k]);
      assert Elements(s) == Elements(s[..k]) + {s[k]};
    }
  }

  /** Split the list in place: the named types move to its front, in order, and the types to
      number get dense numbers in order. */
  method SplitNamed(types: array<Type>) returns (kept: nat, numbered: map<Type, nat>)
    requires Distinct(types[..])
    modifies types
    ensures kept <= types.Length && types[..kept] == Named(old(types[..]))
    ensures Numbers(numbered, Unnamed(old(types[..])))
    ensures forall t :: t in types[..kept] <==> t in old(types[..]) && !t.isLiteral && t.name != ""
    ensures forall i, j :: 0 <= i < j < kept ==> Before(old(types[..]), types[i], types[j])
    ensures forall t :: t in numbered <==> t in old(types[..]) && !t.isLiteral && t.name == ""
    ensures forall t, u :: t in numbered && u in numbered && numbered[t] < numbered[u] ==> Before(old(types[..]), t, u)
    ensures forall t :: t in numbered ==> numbered[t] < |numbered|
  {
    hide Numbers, Named, Unnamed, Before;
    ghost var all := types[..];
    kept, numbered := 0, map[];
    var nextNumber := 0;
    var i := 0;
    NothingSplit(all);
    while i < types.Length
      invariant kept <= i <= types.Length && types[..kept] == Named(all[..i])
      invariant forall k :: i <= k < types.Length ==> types[k] == all[k]
      invariant nextNumber == |Unnamed(all[..i])| && Numbers(numbered, Unnamed(all[..i]))
    {
      var t := types[i];
      SplitNext(all, i);
      if !t.isLiteral {
        if t.name == "" {
          NumberNext(numbered, Unnamed(all[..i]), t);
          numbered := numbered[t := nextNumber];
          nextNumber := nextNumber + 1;
        } else {
          types[kept] := t;
          kept := kept + 1;
        }
      }
      i := i + 1;
    }
    assert all[..i] == all;
    NamedMeans(all);
    NumbersMean(numbered, all);
    assert forall j :: 0 <= j < kept ==> types[j] == types[..kept][j];
  }
}
