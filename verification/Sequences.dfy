/** Lists of distinct things: places, removal, insertion, reversal. */
module Sequences {

  ghost predicate Distinct<T>(s: seq<T>) {
    forall i, j :: 0 <= i < j < |s| ==> s[i] != s[j]
  }

  ghost predicate Apart<T>(s: seq<T>, t: seq<T>) {
    forall x :: x in s ==> x !in t
  }

  /** Where x is in s; |s| when it is not there. */
  function Pos<T(==)>(s: seq<T>, x: T): (p: nat)
    ensures p <= |s|
    ensures p < |s| ==> s[p] == x
    ensures x in s ==> p < |s|
  {
    if s == [] then 0 else if s[0] == x then 0 else 1 + Pos(s[1..], x)
  }

  lemma {:induction false} PosAt<T>(s: seq<T>, i: nat)
    requires Distinct(s) && i < |s|
    ensures Pos(s, s[i]) == i
  {
    if i == 0 {
    } else {
      assert s[1..][i - 1] == s[i];
      PosAt(s[1..], i - 1);
    }
  }

  lemma {:induction false} DistinctOnce<T>(s: seq<T>, x: T)
    requires Distinct(s)
    ensures multiset(s)[x] <= 1
  {
    if s == [] {
    } else {
      assert s == [s[0]] + s[1..];
      DistinctOnce(s[1..], x);
      if x == s[0] {
        assert x !in s[1..];
      }
    }
  }

  lemma MultisetHead<T>(s: seq<T>)
    requires s != []
    ensures multiset(s) == multiset{s[0]} + multiset(s[1..])
  {
    assert s == [s[0]] + s[1..];
  }

  // ----- removal and insertion

  /** s without the first x. */
  function Without<T(==)>(s: seq<T>, x: T): seq<T> {
    if s == [] then [] else if s[0] == x then s[1..] else [s[0]] + Without(s[1..], x)
  }

  function RemoveAt<T>(s: seq<T>, k: nat): seq<T>
    requires k < |s|
  {
    s[..k] + s[k + 1..]
  }

  function InsertAt<T>(s: seq<T>, k: nat, x: T): seq<T>
    requires k <= |s|
  {
    s[..k] + [x] + s[k..]
  }

  lemma {:induction false} WithoutAt<T>(s: seq<T>, k: nat)
    requires Distinct(s) && k < |s|
    ensures Without(s, s[k]) == RemoveAt(s, k)
  {
    if k == 0 {
    } else {
      assert s[1..][k - 1] == s[k];
      WithoutAt(s[1..], k - 1);
      assert RemoveAt(s, k) == [s[0]] + RemoveAt(s[1..], k - 1);
    }
  }

  lemma {:induction false} InWithout<T>(s: seq<T>, x: T)
    ensures forall u :: u in Without(s, x) ==> u in s
    ensures forall u :: u in s && u != x ==> u in Without(s, x)
  {
    if s == [] {
    } else {
      InWithout(s[1..], x);
    }
  }

  /** What removal does to the places of the others. */
  lemma RemoveAtPlaces<T>(s: seq<T>, k: nat)
    requires Distinct(s) && k < |s|
    ensures var t := RemoveAt(s, k);
      && |t| == |s| - 1 && Distinct(t) && s[k] !in t
      && (forall i :: 0 <= i < k ==> t[i] == s[i])
      && (forall i :: k <= i < |t| ==> t[i] == s[i + 1])
  {
  }

  /** What insertion does to the places of the others. */
  lemma InsertAtPlaces<T>(s: seq<T>, k: nat, x: T)
    requires Distinct(s) && k <= |s| && x !in s
    ensures var t := InsertAt(s, k, x);
      && |t| == |s| + 1 && Distinct(t) && t[k] == x
      && (forall i :: 0 <= i < k ==> t[i] == s[i])
      && (forall i :: k < i < |t| ==> t[i] == s[i - 1])
  {
  }

  // ----- reversal

  function Reversed<T>(s: seq<T>): seq<T> {
    if s == [] then [] else Reversed(s[1..]) + [s[0]]
  }

  lemma {:induction false} ReversedAt<T>(s: seq<T>, i: nat)
    requires i < |s|
    ensures |Reversed(s)| == |s| && Reversed(s)[i] == s[|s| - 1 - i]
  {
    if |s| > 1 {
      ReversedAt(s[1..], if i < |s| - 1 then i else 0);
    }
  }

  lemma {:induction false} ReversedSnoc<T>(s: seq<T>, x: T)
    ensures Reversed(s + [x]) == [x] + Reversed(s)
  {
    if s == [] {
      assert [] + [x] == [x];
    } else {
      ReversedSnoc(s[1..], x);
      assert (s + [x])[1..] == s[1..] + [x];
    }
  }

  /** Moving the first element of a list to the front of another. */
  lemma ReversedMove<T>(done: seq<T>, rest: seq<T>, tail: seq<T>)
    ensures done == [] ==> done + rest == rest && Reversed(done) + tail == tail
    ensures rest != [] ==>
      && done + [rest[0]] + rest[1..] == done + rest
      && [rest[0]] + (Reversed(done) + tail) == Reversed(done + [rest[0]]) + tail
  {
    hide Reversed;
    if rest != [] {
      ReversedSnoc(done, rest[0]);
      assert [rest[0]] + (Reversed(done) + tail) == [rest[0]] + Reversed(done) + tail;
      assert done + [rest[0]] + rest[1..] == done + rest;
    }
    if done == [] {
      ReversedEmpty<T>();
      assert [] + tail == tail && [] + rest == rest;
    }
  }

  lemma ReversedEmpty<T>()
    ensures Reversed<T>([]) == []
  {
  }

  // ----- selection

  /** The elements of s that satisfy p, in order. */
  function Filter<T>(p: T -> bool, s: seq<T>): seq<T> {
    if s == [] then [] else (if p(s[0]) then [s[0]] else []) + Filter(p, s[1..])
  }

  lemma {:induction false} FilterSnoc<T>(p: T -> bool, s: seq<T>, x: T)
    ensures Filter(p, s + [x]) == Filter(p, s) + (if p(x) then [x] else [])
  {
    if s == [] {
      assert [] + [x] == [x];
    } else {
      assert (s + [x])[1..] == s[1..] + [x];
      FilterSnoc(p, s[1..], x);
      var first := if p(s[0]) then [s[0]] else [];
      var last := if p(x) then [x] else [];
      assert first + (Filter(p, s[1..]) + last) == first + Filter(p, s[1..]) + last;
    }
  }

  lemma {:induction false} InFilter<T>(p: T -> bool, s: seq<T>)
    ensures forall x :: x in Filter(p, s) <==> x in s && p(x)
  {
    if s == [] {
    } else {
      InFilter(p, s[1..]);
    }
  }

  /** x stands somewhere in front of y. */
  ghost predicate Before<T>(s: seq<T>, x: T, y: T) {
    exists i, j :: 0 <= i < j < |s| && s[i] == x && s[j] == y
  }

  lemma {:induction false} InFilterAt<T>(p: T -> bool, s: seq<T>, i: nat) returns (k: nat)
    requires i < |Filter(p, s)|
    ensures k < |s| && s[k] == Filter(p, s)[i] && p(s[k])
  {
    if p(s[0]) && i == 0 {
      k := 0;
    } else {
      k := InFilterAt(p, s[1..], if p(s[0]) then i - 1 else i);
      k := k + 1;
    }
  }

  /** Selection keeps the order. */
  lemma {:induction false} FilterInOrder<T>(p: T -> bool, s: seq<T>)
    ensures forall i, j :: 0 <= i < j < |Filter(p, s)| ==> Before(s, Filter(p, s)[i], Filter(p, s)[j])
  {
    if s != [] {
      var rest := s[1..];
      FilterInOrder(p, rest);
      var f, g := Filter(p, s), Filter(p, rest);
      forall i, j | 0 <= i < j < |f|
        ensures Before(s, f[i], f[j])
      {
        var d := if p(s[0]) then 1 else 0;
        if i < d {
          var k := InFilterAt(p, rest, j - d);
          assert s[0] == f[i] && s[k + 1] == f[j];
        } else {
          assert Before(rest, g[i - d], g[j - d]);
          var a, b :| 0 <= a < b < |rest| && rest[a] == f[i] && rest[b] == f[j];
          assert s[a + 1] == f[i] && s[b + 1] == f[j];
        }
      }
    }
  }

  lemma {:induction false} FilterDistinct<T>(p: T -> bool, s: seq<T>)
    requires Distinct(s)
    ensures Distinct(Filter(p, s))
  {
    if s != [] {
      FilterDistinct(p, s[1..]);
      InFilter(p, s[1..]);
    }
  }
}
