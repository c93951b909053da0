/** Facts about sequences used to describe insertion-ordered collections:
    no repeated element, first position of an element, relative order. */
module Sequences {

  predicate NoDup<T(==)>(s: seq<T>) {
    forall i, j :: 0 <= i < j < |s| ==> s[i] != s[j]
  }

  /** The first position of `x` in `s`. */
  function IndexOf<T(==)>(s: seq<T>, x: T): (r: nat)
    requires x in s
    ensures r < |s| && s[r] == x
    ensures forall k :: 0 <= k < r ==> s[k] != x
  {
    if s[0] == x then 0 else 1 + IndexOf(s[1..], x)
  }

  /** `a` comes before `b` in `s` (judged by first positions). */
  predicate Before<T(==)>(s: seq<T>, a: T, b: T) {
    a in s && b in s && IndexOf(s, a) < IndexOf(s, b)
  }

  /** In a sequence without repetitions, the position of an element
      is the only index holding it. */
  lemma IndexOfNoDup<T>(s: seq<T>, k: nat)
    requires NoDup(s) && k < |s|
    ensures IndexOf(s, s[k]) == k
  {
  }

  lemma IndexOfAppend<T>(s: seq<T>, t: seq<T>, x: T)
    requires x in s + t
    ensures x in s ==> IndexOf(s + t, x) == IndexOf(s, x)
    ensures x !in s ==> x in t && IndexOf(s + t, x) == |s| + IndexOf(t, x)
  {
    var r := IndexOf(s + t, x);
    if x in s {
      var q := IndexOf(s, x);
      assert (s + t)[q] == x;
    } else {
      assert t[r - |s|] == x;
      var q := IndexOf(t, x);
      assert (s + t)[|s| + q] == x;
    }
  }

  lemma IndexOfSnoc<T>(s: seq<T>, x: T, y: T)
    requires y in s + [x]
    ensures IndexOf(s + [x], y) == if y in s then IndexOf(s, y) else |s|
  {
    IndexOfAppend(s, [x], y);
  }

  lemma IndexOfCons<T>(x: T, s: seq<T>, y: T)
    requires y in s && y != x
    ensures IndexOf([x] + s, y) == 1 + IndexOf(s, y)
  {
    IndexOfAppend([x], s, y);
  }

  lemma NoDupAppend<T>(s: seq<T>, t: seq<T>)
    requires NoDup(s) && NoDup(t)
    requires forall x :: x in t ==> x !in s
    ensures NoDup(s + t)
  {
    forall i, j | 0 <= i < j < |s + t| ensures (s + t)[i] != (s + t)[j] {
      if i < |s| && j >= |s| {
        assert (s + t)[i] == s[i];
        assert (s + t)[j] == t[j - |s|] && t[j - |s|] in t;
      } else if i >= |s| {
        assert (s + t)[i] == t[i - |s|] && (s + t)[j] == t[j - |s|];
      }
    }
  }

  /** A sequence without repetitions has as many distinct elements as it has positions. */
  lemma {:induction false} NoDupCardinality<T>(s: seq<T>)
    requires NoDup(s)
    ensures |set x | x in s| == |s|
  {
    if |s| > 0 {
      var t := s[..|s| - 1];
      assert NoDup(t);
      NoDupCardinality(t);
      assert s == t + [s[|s| - 1]];
      assert (set x | x in s) == (set x | x in t) + {s[|s| - 1]};
      assert s[|s| - 1] !in t;
    }
  }

  /** The concatenation of f(x) for every x in turn (a loop of AddRange). */
  function ConcatMap<T, U>(f: T -> seq<U>, xs: seq<T>): seq<U>
  {
    if xs == [] then [] else ConcatMap(f, xs[..|xs| - 1]) + f(xs[|xs| - 1])
  }

  /** An element is in the concatenation exactly when some part holds it. */
  lemma {:induction false} ConcatMapMembers<T, U>(f: T -> seq<U>, xs: seq<T>, u: U)
    ensures u in ConcatMap(f, xs) <==> exists i :: 0 <= i < |xs| && u in f(xs[i])
  {
    if xs != [] {
      var init, n := xs[..|xs| - 1], |xs| - 1;
      ConcatMapMembers(f, init, u);
      if u in ConcatMap(f, init) {
        var i :| 0 <= i < |init| && u in f(init[i]);
        assert xs[i] == init[i];
      }
      if exists i :: 0 <= i < |xs| && u in f(xs[i]) {
        var i :| 0 <= i < |xs| && u in f(xs[i]);
        if i < n {
          assert xs[i] == init[i];
        }
      }
    }
  }

  /** The dictionary that numbers every element of `order` by its first
      position: what inserting the elements in turn under the current
      Count builds. */
  function PositionMap<T>(order: seq<T>): map<T, int>
  {
    map w | w in order :: IndexOf(order, w)
  }

  /** Without repetitions the numbering is a bijection between the
      elements and 0 .. |order| - 1. */
  lemma PositionMapIndices<T>(order: seq<T>)
    requires NoDup(order)
    ensures |PositionMap(order)| == |order|
    ensures forall v :: 0 <= v < |order| ==>
      order[v] in PositionMap(order) && PositionMap(order)[order[v]] == v
    ensures forall w :: w in PositionMap(order) ==> 0 <= PositionMap(order)[w] < |order|
    ensures forall u, w :: u in PositionMap(order) && w in PositionMap(order) && u != w ==>
      PositionMap(order)[u] != PositionMap(order)[w]
  {
    NoDupCardinality(order);
    assert PositionMap(order).Keys == set w | w in order;
    forall v | 0 <= v < |order| ensures order[v] in PositionMap(order) && PositionMap(order)[order[v]] == v {
      IndexOfNoDup(order, v);
    }
  }

  /** `dict` holds the first `n` elements of `order`, each numbered by its position. */
  ghost predicate HoldsFirst<T>(order: seq<T>, dict: map<T, int>, n: nat) {
    && n <= |order|
    && |dict| == n
    && (forall j :: 0 <= j < n ==> order[j] in dict)
    && (forall w :: w in dict ==> w in order && dict[w] == IndexOf(order, w) < n)
  }

  /** Inserting the next element under the current Count extends the prefix. */
  lemma HoldsNext<T>(order: seq<T>, dict: map<T, int>, n: nat)
    requires NoDup(order) && n < |order| && HoldsFirst(order, dict, n)
    ensures HoldsFirst(order, dict[order[n] := |dict|], n + 1)
  {
    IndexOfNoDup(order, n);
    assert order[n] !in dict;
  }

  /** Once every element is in, the dictionary is the position map. */
  lemma HoldsAll<T>(order: seq<T>, dict: map<T, int>)
    requires HoldsFirst(order, dict, |order|)
    ensures dict == PositionMap(order)
  {
    forall w | w in order ensures w in dict {
      assert order[IndexOf(order, w)] == w;
    }
  }
}
