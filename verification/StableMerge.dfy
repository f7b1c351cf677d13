/** Stable merging on sequences: what a stable sort of a stretch of a sequence is, that
    merging keeps it, and which stretch each slot of a binomial counter holds. */
module StableMerge {
  import opened Bits
  import opened Sequences

  ghost predicate Equivalent<T>(cmp: (T, T) -> bool, a: T, b: T) {
    !cmp(a, b) && !cmp(b, a)
  }

  /** The comparison orders the elements of s strictly and weakly. */
  ghost predicate StrictWeakOrder<T>(cmp: (T, T) -> bool, s: seq<T>) {
    && (forall a :: a in s ==> !cmp(a, a))
    && (forall a, b, c :: a in s && b in s && c in s && cmp(a, b) && cmp(b, c) ==> cmp(a, c))
    && (forall a, b, c :: a in s && b in s && c in s && Equivalent(cmp, a, b) && Equivalent(cmp, b, c) ==> Equivalent(cmp, a, c))
  }

  /** a comes before b in a stable sort of s: it is smaller, or equivalent and earlier. */
  ghost predicate Before<T>(cmp: (T, T) -> bool, s: seq<T>, a: T, b: T) {
    cmp(a, b) || (!cmp(b, a) && Pos(s, a) < Pos(s, b))
  }

  lemma BeforeIsStrictOrder<T>(cmp: (T, T) -> bool, s: seq<T>, a: T, b: T, c: T)
    requires StrictWeakOrder(cmp, s) && a in s && b in s && c in s
    ensures Before(cmp, s, a, b) && Before(cmp, s, b, c) ==> Before(cmp, s, a, c)
    ensures !(Before(cmp, s, a, b) && Before(cmp, s, b, a))
    ensures a != b ==> Before(cmp, s, a, b) || Before(cmp, s, b, a)
  {
    hide Pos;
    assert Equivalent(cmp, a, b) && Equivalent(cmp, b, c) ==> Equivalent(cmp, a, c);
    assert Equivalent(cmp, a, b) && Equivalent(cmp, a, c) ==> Equivalent(cmp, b, a) && Equivalent(cmp, b, c);
    assert Equivalent(cmp, b, c) && Equivalent(cmp, a, c) ==> Equivalent(cmp, c, b) && Equivalent(cmp, a, b);
  }

  ghost predicate Ordered<T>(cmp: (T, T) -> bool, s: seq<T>, t: seq<T>) {
    forall i, j :: 0 <= i < j < |t| ==> Before(cmp, s, t[i], t[j])
  }

  /** t is a permutation of the stretch of s from lo to hi, and when the comparison is
      a strict weak order it is that stretch stably sorted. */
  ghost predicate StableSort<T>(cmp: (T, T) -> bool, s: seq<T>, lo: nat, hi: nat, t: seq<T>) {
    && lo <= hi <= |s|
    && multiset(t) == multiset(s[lo..hi])
    && (StrictWeakOrder(cmp, s) ==> Ordered(cmp, s, t))
  }

  lemma InStretch<T>(cmp: (T, T) -> bool, s: seq<T>, lo: nat, hi: nat, t: seq<T>)
    requires Distinct(s) && StableSort(cmp, s, lo, hi, t)
    ensures |t| == hi - lo
    ensures forall x :: x in t ==> x in s && lo <= Pos(s, x) < hi
  {
    assert |t| == |multiset(t)| == |s[lo..hi]|;
    forall x | x in t
      ensures x in s && lo <= Pos(s, x) < hi
    {
      assert x in multiset(s[lo..hi]);
      var i :| 0 <= i < hi - lo && s[lo..hi][i] == x;
      PosAt(s, lo + i);
    }
  }

  lemma StretchIsDistinct<T>(cmp: (T, T) -> bool, s: seq<T>, lo: nat, hi: nat, t: seq<T>)
    requires Distinct(s) && StableSort(cmp, s, lo, hi, t)
    ensures Distinct(t)
  {
    forall i, j | 0 <= i < j < |t|
      ensures t[i] != t[j]
    {
      if t[i] == t[j] {
        assert multiset(t) == multiset(t[..j]) + multiset{t[j]} + multiset(t[j + 1..]) by {
          assert t == t[..j] + [t[j]] + t[j + 1..];
        }
        assert t[i] in t[..j];
        InStretch(cmp, s, lo, hi, t);
        DistinctOnce(s[lo..hi], t[j]);
        assert false;
      }
    }
  }

  /** The merge of two lists; on a tie the left one goes first. */
  function Merge<T>(l: seq<T>, r: seq<T>, cmp: (T, T) -> bool): (m: seq<T>)
    ensures |m| == |l| + |r|
    decreases |l| + |r|
  {
    if l == [] then r
    else if r == [] then l
    else if cmp(r[0], l[0]) then [r[0]] + Merge(l, r[1..], cmp)
    else [l[0]] + Merge(l[1..], r, cmp)
  }

  lemma {:induction false} MergePermutes<T>(l: seq<T>, r: seq<T>, cmp: (T, T) -> bool)
    ensures multiset(Merge(l, r, cmp)) == multiset(l) + multiset(r)
    decreases |l| + |r|
  {
    if l == [] || r == [] {
    } else if cmp(r[0], l[0]) {
      MergePermutes(l, r[1..], cmp);
      MultisetHead(r);
    } else {
      MergePermutes(l[1..], r, cmp);
      MultisetHead(l);
    }
  }

  /** x comes before everything in t. */
  ghost predicate Leads<T>(cmp: (T, T) -> bool, s: seq<T>, x: T, t: seq<T>) {
    forall y :: y in t ==> Before(cmp, s, x, y)
  }

  lemma LeadsMerge<T>(cmp: (T, T) -> bool, s: seq<T>, x: T, l: seq<T>, r: seq<T>)
    requires Leads(cmp, s, x, l) && Leads(cmp, s, x, r)
    ensures Leads(cmp, s, x, Merge(l, r, cmp))
  {
    hide Merge, Before;
    MergePermutes(l, r, cmp);
    forall y | y in Merge(l, r, cmp)
      ensures Before(cmp, s, x, y)
    {
      assert y in multiset(Merge(l, r, cmp));
    }
  }

  lemma OrderedCons<T>(cmp: (T, T) -> bool, s: seq<T>, x: T, t: seq<T>)
    requires Ordered(cmp, s, t) && Leads(cmp, s, x, t)
    ensures Ordered(cmp, s, [x] + t)
  {
    hide Before;
  }

  lemma OrderedTail<T>(cmp: (T, T) -> bool, s: seq<T>, t: seq<T>)
    requires Ordered(cmp, s, t) && t != []
    ensures Ordered(cmp, s, t[1..]) && Leads(cmp, s, t[0], t[1..])
  {
    hide Before;
  }

  /** Everything led by y is led by what comes before y. */
  lemma LeadsTransitive<T>(cmp: (T, T) -> bool, s: seq<T>, x: T, y: T, t: seq<T>)
    requires StrictWeakOrder(cmp, s) && x in s && y in s && (forall z :: z in t ==> z in s)
    requires Before(cmp, s, x, y) && Leads(cmp, s, y, t)
    ensures Leads(cmp, s, x, [y] + t)
  {
    hide Before, StrictWeakOrder;
    forall z | z in t
      ensures Before(cmp, s, x, z)
    {
      BeforeIsStrictOrder(cmp, s, x, y, z);
    }
  }

  /** Merging two ordered lists, all of the left one earlier in s than the right one,
      gives an ordered list. */
  lemma {:induction false} MergeOrders<T>(cmp: (T, T) -> bool, s: seq<T>, l: seq<T>, r: seq<T>)
    requires StrictWeakOrder(cmp, s) && (forall x :: x in l + r ==> x in s)
    requires forall x, y :: x in l && y in r ==> Pos(s, x) < Pos(s, y)
    requires Ordered(cmp, s, l) && Ordered(cmp, s, r)
    ensures Ordered(cmp, s, Merge(l, r, cmp))
    decreases |l| + |r|
  {
    hide Pos, StrictWeakOrder, Ordered, Leads;
    if l == [] || r == [] {
    } else {
      OrderedTail(cmp, s, l);
      OrderedTail(cmp, s, r);
      assert l == [l[0]] + l[1..] && r == [r[0]] + r[1..];
      if cmp(r[0], l[0]) {
        MergeOrders(cmp, s, l, r[1..]);
        LeadsTransitive(cmp, s, r[0], l[0], l[1..]);
        LeadsMerge(cmp, s, r[0], l, r[1..]);
        OrderedCons(cmp, s, r[0], Merge(l, r[1..], cmp));
      } else {
        MergeOrders(cmp, s, l[1..], r);
        LeadsTransitive(cmp, s, l[0], r[0], r[1..]);
        LeadsMerge(cmp, s, l[0], l[1..], r);
        OrderedCons(cmp, s, l[0], Merge(l[1..], r, cmp));
      }
    }
  }

  /** Adjacent stretches, each stably sorted, merge into one. */
  lemma MergeStretches<T>(cmp: (T, T) -> bool, s: seq<T>, lo: nat, mid: nat, hi: nat, l: seq<T>, r: seq<T>)
    requires Distinct(s) && StableSort(cmp, s, lo, mid, l) && StableSort(cmp, s, mid, hi, r)
    ensures StableSort(cmp, s, lo, hi, Merge(l, r, cmp))
  {
    hide Pos, StrictWeakOrder, Ordered, Merge;
    InStretch(cmp, s, lo, mid, l);
    InStretch(cmp, s, mid, hi, r);
    MergePermutes(l, r, cmp);
    assert s[lo..hi] == s[lo..mid] + s[mid..hi];
    if StrictWeakOrder(cmp, s) {
      MergeOrders(cmp, s, l, r);
    }
  }

  /** A stable sort is determined by the list and the order. */
  lemma StableSortUnique<T>(cmp: (T, T) -> bool, s: seq<T>, t: seq<T>, t': seq<T>)
    requires Distinct(s) && StrictWeakOrder(cmp, s)
    requires StableSort(cmp, s, 0, |s|, t) && StableSort(cmp, s, 0, |s|, t')
    ensures t == t'
  {
    hide Pos, StrictWeakOrder, Ordered;
    InStretch(cmp, s, 0, |s|, t);
    OrderedUnique(cmp, s, t, t');
  }

  lemma {:induction false} OrderedUnique<T>(cmp: (T, T) -> bool, s: seq<T>, t: seq<T>, t': seq<T>)
    requires StrictWeakOrder(cmp, s) && (forall x :: x in t ==> x in s)
    requires Ordered(cmp, s, t) && Ordered(cmp, s, t') && multiset(t) == multiset(t')
    ensures t == t'
  {
    hide Pos, StrictWeakOrder, Ordered, Before;
    assert |t| == |multiset(t)| == |t'|;
    if t == [] {
    } else {
      assert t == [t[0]] + t[1..] && t' == [t'[0]] + t'[1..];
      OrderedTail(cmp, s, t);
      OrderedTail(cmp, s, t');
      assert t[0] in multiset(t') && t'[0] in multiset(t);
      BeforeIsStrictOrder(cmp, s, t[0], t'[0], t[0]);
      assert multiset(t[1..]) == multiset(t) - multiset{t[0]};
      assert multiset(t'[1..]) == multiset(t') - multiset{t'[0]};
      OrderedUnique(cmp, s, t[1..], t'[1..]);
    }
  }

  // ----- the binomial counter

  /** After c elements, slot i holds the stretch from Edge(c, i + 1) to Edge(c, i). */
  function Edge(c: nat, i: nat): (e: nat)
    ensures e <= c
  {
    ModBound(c, Pow2(i));
    c - c % Pow2(i)
  }

  lemma ModBound(c: nat, d: nat)
    requires d > 0
    ensures 0 <= c % d < d && c % d <= c
  {
  }

  /** The remainder by twice p, from the remainder by p. */
  lemma ModDouble(c: nat, p: nat)
    requires p > 0
    ensures c % (2 * p) == c % p || c % (2 * p) == c % p + p
  {
    var q, r := c / (2 * p), c % (2 * p);
    MulAssoc(2, p, q);
    MulAssoc(p, 2, q);
    MulAdd(p, 2 * q, 1);
    if r < p {
      DivModUnique(c, p, 2 * q, r);
    } else {
      DivModUnique(c, p, 2 * q + 1, r - p);
    }
  }

  /** A slot is empty or holds 2^i elements; the slots above the top bit are empty. */
  lemma EdgeSteps(c: nat, i: nat)
    ensures Edge(c, 0) == c
    ensures c < Pow2(i) ==> Edge(c, i) == 0
    ensures Edge(c, i) - Edge(c, i + 1) == 0 || Edge(c, i) - Edge(c, i + 1) == Pow2(i)
  {
    assert c % 1 == 0;
    if c < Pow2(i) {
      DivModUnique(c, Pow2(i), 0, c);
    }
    ModDouble(c, Pow2(i));
  }

  /** A carry that stops at the empty slot i: the slots below it become empty, it takes
      everything from Edge(c, i) through c, and the slots above it stay. */
  lemma Carry(c: nat, c': nat, i: nat)
    requires c' == c + 1 && c % Pow2(i) == Pow2(i) - 1 && Edge(c, i) == Edge(c, i + 1)
    ensures forall j :: 0 <= j <= i ==> Edge(c', j) == c'
    ensures forall j :: i < j ==> Edge(c', j) == Edge(c, j)
  {
    forall j | 0 <= j <= i
      ensures Edge(c', j) == c'
    {
      CarryBelow(c, i, j);
    }
    forall j | i < j
      ensures Edge(c', j) == Edge(c, j)
    {
      CarryAbove(c, i, j);
    }
  }

  lemma CarryBelow(c: nat, i: nat, j: nat)
    requires c % Pow2(i) == Pow2(i) - 1 && j <= i
    ensures Edge(c + 1, j) == c + 1
  {
    Pow2Add(j, i - j);
    NextMultiple(c, Pow2(i), Pow2(j), Pow2(i - j));
  }

  lemma NextMultiple(c: nat, p: nat, d: nat, k: nat)
    requires p == d * k && p > 0 && d > 0 && c % p == p - 1
    ensures (c + 1) % d == 0
  {
    var q := c / p;
    MulAdd(p, q, 1);
    MulAssoc(d, k, q + 1);
    DivModUnique(c + 1, d, k * (q + 1), 0);
  }

  lemma CarryAbove(c: nat, i: nat, j: nat)
    requires c % Pow2(i + 1) == Pow2(i) - 1 && i < j
    ensures Edge(c + 1, j) == Edge(c, j)
  {
    var p, r := Pow2(j), c % Pow2(j);
    ModOfMod(c, j, i + 1);
    assert r % Pow2(i + 1) == Pow2(i) - 1;
    if r == p - 1 {
      Pow2Add(i + 1, j - (i + 1));
      var k := Pow2(j - (i + 1));
      MulAdd(Pow2(i + 1), k - 1, 1);
      DivModUnique(r, Pow2(i + 1), k - 1, Pow2(i + 1) - 1);
      assert false;
    }
    DivModUnique(c + 1, p, c / p, r + 1);
  }

  /** The carry is on its way while every slot below it was full. */
  lemma CarryGoesOn(c: nat, i: nat)
    requires c % Pow2(i) == Pow2(i) - 1 && Edge(c, i) != Edge(c, i + 1)
    ensures c % Pow2(i + 1) == Pow2(i + 1) - 1
  {
    EdgeSteps(c, i);
  }
}
