/** Sequences without repetition. */
module Sequences {

  predicate Distinct<T(==)>(xs: seq<T>) {
    forall i, j :: 0 <= i < j < |xs| ==> xs[i] != xs[j]
  }

  lemma DistinctPrefix<T>(a: seq<T>, b: seq<T>)
    requires a <= b && Distinct(b)
    ensures Distinct(a)
  {
  }

  lemma DistinctSnoc<T>(s: seq<T>, x: T)
    ensures Distinct(s + [x]) <==> Distinct(s) && x !in s
  {
    var t := s + [x];
    if Distinct(t) {
      DistinctPrefix(s, t);
      forall i | 0 <= i < |s| ensures s[i] != x {
        assert t[i] != t[|s|];
      }
    }
  }

  /** The set has the elements of the list. */
  ghost predicate Holds<T(!new)>(s: set<T>, list: seq<T>) {
    forall x :: x in s <==> x in list
  }

  lemma {:induction false} SetOfDistinct<T(!new)>(s: set<T>, list: seq<T>)
    requires Holds(s, list) && Distinct(list)
    ensures |s| == |list|
  {
    if |list| == 0 {
      assert s == {};
    } else {
      var init, x := list[..|list| - 1], list[|list| - 1];
      assert list == init + [x];
      DistinctSnoc(init, x);
      assert Holds(s - {x}, init);
      SetOfDistinct(s - {x}, init);
    }
  }

  /** A set of elements of a list is not larger than the list. */
  lemma {:induction false} ElementsBound<T>(s: set<T>, list: seq<T>)
    requires forall x :: x in s ==> x in list
    ensures |s| <= |list|
  {
    if |list| == 0 {
      assert s == {};
    } else {
      var init, x := list[..|list| - 1], list[|list| - 1];
      assert list == init + [x];
      ElementsBound(s - {x}, init);
    }
  }

  /** The numbers below n. */
  ghost function Below(n: nat): (s: set<nat>)
    ensures forall i: nat :: i in s <==> i < n
    ensures |s| == n
  {
    if n == 0 then {} else Below(n - 1) + {n - 1}
  }

  lemma {:induction false} SubsetBound<T>(a: set<T>, b: set<T>)
    requires a <= b
    ensures |a| <= |b|
  {
    if a != {} {
      var x :| x in a;
      SubsetBound(a - {x}, b - {x});
    }
  }

  /** n distinct numbers among which are all those below n are no others. */
  lemma NumbersBelow(list: seq<nat>, x: nat)
    requires Distinct(list)
    requires forall i :: 0 <= i < |list| ==> i in list
    ensures x in list <==> x < |list|
  {
    var s := set i | 0 <= i < |list| :: list[i];
    assert Holds(s, list);
    SetOfDistinct(s, list);
    if x in list && x >= |list| {
      assert x in s;
      SubsetBound(Below(|list|), s - {x});
      assert false;
    }
  }

  function Concat<T>(parts: seq<seq<T>>): seq<T> {
    if |parts| == 0 then [] else Concat(parts[..|parts| - 1]) + parts[|parts| - 1]
  }

  predicate Disjoint<T(==)>(a: seq<T>, b: seq<T>) {
    forall i, j :: 0 <= i < |a| && 0 <= j < |b| ==> a[i] != b[j]
  }

  lemma DistinctSum<T>(a: seq<T>, b: seq<T>)
    ensures Distinct(a + b) <==> Distinct(a) && Distinct(b) && Disjoint(a, b)
  {
    var s := a + b;
    if Distinct(s) {
      forall i, j | 0 <= i < j < |b| ensures b[i] != b[j] {
        assert s[|a| + i] != s[|a| + j];
      }
      forall i, j | 0 <= i < |a| && 0 <= j < |b| ensures a[i] != b[j] {
        assert s[i] != s[|a| + j];
      }
      DistinctPrefix(a, s);
    }
  }

  lemma {:induction false} DisjointConcat<T>(parts: seq<seq<T>>, b: seq<T>)
    ensures Disjoint(Concat(parts), b) <==> forall i :: 0 <= i < |parts| ==> Disjoint(parts[i], b)
  {
    if |parts| > 0 {
      var init, last := parts[..|parts| - 1], parts[|parts| - 1];
      DisjointConcat(init, b);
      DisjointSum(Concat(init), last, b);
      assert parts == init + [last];
    }
  }

  lemma DisjointSum<T>(a: seq<T>, b: seq<T>, c: seq<T>)
    ensures Disjoint(a + b, c) <==> Disjoint(a, c) && Disjoint(b, c)
  {
    if Disjoint(a + b, c) {
      forall i, j | 0 <= i < |b| && 0 <= j < |c| ensures b[i] != c[j] {
        assert (a + b)[|a| + i] != c[j];
      }
      forall i, j | 0 <= i < |a| && 0 <= j < |c| ensures a[i] != c[j] {
        assert (a + b)[i] != c[j];
      }
    }
  }

  /** Every part is without repetition, and no two parts share an element. */
  ghost predicate ApartParts<T>(parts: seq<seq<T>>) {
    && (forall i :: 0 <= i < |parts| ==> Distinct(parts[i]))
    && (forall i, j :: 0 <= i < j < |parts| ==> Disjoint(parts[i], parts[j]))
  }

  lemma ApartSnoc<T>(init: seq<seq<T>>, last: seq<T>)
    ensures ApartParts(init + [last])
       <==> ApartParts(init) && Distinct(last) && forall i :: 0 <= i < |init| ==> Disjoint(init[i], last)
  {
    var all := init + [last];
    assert all[|init|] == last && forall i :: 0 <= i < |init| ==> all[i] == init[i];
    if ApartParts(all) {
      forall i, j | 0 <= i < j < |init| ensures Disjoint(init[i], init[j]) {
        assert Disjoint(all[i], all[j]);
      }
      forall i | 0 <= i < |init| ensures Disjoint(init[i], last) && Distinct(init[i]) {
        assert Disjoint(all[i], all[|init|]) && Distinct(all[i]);
      }
      assert Distinct(all[|init|]);
    }
  }

  lemma {:induction false} DistinctConcat<T>(parts: seq<seq<T>>)
    ensures Distinct(Concat(parts)) <==> ApartParts(parts)
  {
    if |parts| > 0 {
      var init, last := parts[..|parts| - 1], parts[|parts| - 1];
      DistinctConcat(init);
      DistinctSum(Concat(init), last);
      DisjointConcat(init, last);
      ApartSnoc(init, last);
      assert parts == init + [last];
    }
  }
}
