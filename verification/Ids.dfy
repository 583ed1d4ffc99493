/** Finite sets of identifiers read in increasing order, as the library's sorted containers are. */
module Ids {
  predicate IsMin(s: set<nat>, m: nat) {
    m in s && forall x | x in s :: m <= x
  }

  lemma MinExists(s: set<nat>)
    requires s != {}
    ensures exists m: nat :: IsMin(s, m)
  {
    var a: nat :| a in s;
    var t := s - {a};
    if t == {} {
      assert s == {a};
      assert IsMin(s, a);
    } else {
      MinExists(t);
      var b: nat :| IsMin(t, b);
      assert forall x | x in s :: x == a || x in t;
      assert IsMin(s, if a <= b then a else b);
    }
  }

  predicate IsMax(s: set<nat>, m: nat) {
    m in s && forall x | x in s :: x <= m
  }

  lemma MaxExists(s: set<nat>)
    requires s != {}
    ensures exists m: nat :: IsMax(s, m)
  {
    var a: nat :| a in s;
    var t := s - {a};
    if t == {} {
      assert s == {a};
      assert IsMax(s, a);
    } else {
      MaxExists(t);
      var b: nat :| IsMax(t, b);
      assert forall x | x in s :: x == a || x in t;
      assert IsMax(s, if a >= b then a else b);
    }
  }

  /** `*begin()` of a sorted container. */
  function Min(s: set<nat>): (m: nat)
    requires s != {}
    ensures m in s && forall x | x in s :: m <= x
  {
    MinExists(s);
    var m: nat :| IsMin(s, m);
    m
  }

  lemma MinIs(s: set<nat>, m: nat)
    requires m in s && forall x | x in s :: m <= x
    ensures Min(s) == m
  {
  }

  /** `*(end() - 1)` of a sorted container. */
  function Max(s: set<nat>): (m: nat)
    requires s != {}
    ensures m in s && forall x | x in s :: x <= m
  {
    MaxExists(s);
    var m: nat :| IsMax(s, m);
    m
  }

  ghost predicate Increasing(s: seq<nat>) {
    forall i, j | 0 <= i < j < |s| :: s[i] < s[j]
  }

  /** The elements in increasing order. */
  function Sorted(s: set<nat>): (r: seq<nat>)
    ensures |r| == |s| && Increasing(r)
    ensures forall x :: x in r <==> x in s
  {
    if s == {} then []
    else
      var m := Min(s);
      [m] + Sorted(s - {m})
  }

  lemma LastIsMax(s: set<nat>)
    requires s != {}
    ensures Sorted(s)[|s| - 1] == Max(s)
  {
    var ks := Sorted(s);
    assert ks[|s| - 1] in ks;
    assert Max(s) in ks;
    var i :| 0 <= i < |ks| && ks[i] == Max(s);
  }

  lemma SortedUnfolds(s: set<nat>, m: nat)
    requires m in s && forall x | x in s :: m <= x
    ensures Sorted(s) == [m] + Sorted(s - {m})
  {
  }

  lemma NothingSorted()
    ensures Sorted({}) == []
  {
  }

  lemma Regroup<T>(a: T, s: seq<T>, b: T)
    ensures [a] + (s + [b]) == [a] + s + [b]
  {
  }

  /** A larger element goes to the end. */
  lemma {:induction false} SortedWithLargest(s: set<nat>, x: nat)
    requires forall y | y in s :: y < x
    ensures Sorted(s + {x}) == Sorted(s) + [x]
    decreases |s|
  {
    hide *;
    if s == {} {
      assert s + {x} == {x} && {x} - {x} == {};
      SortedUnfolds({x}, x);
      NothingSorted();
    } else {
      var m := Min(s);
      var rest := s - {m};
      SortedUnfolds(s, m);
      SortedUnfolds(s + {x}, m);
      SortedWithLargest(rest, x);
      assert s + {x} - {m} == rest + {x};
      Regroup(m, Sorted(rest), x);
    }
  }

  ghost function ToSet(ids: seq<nat>): set<nat> {
    set x | x in ids
  }

  lemma SortedToSet(ids: set<nat>)
    ensures ToSet(Sorted(ids)) == ids
  {
  }

  lemma SubsetSize<T>(a: set<T>, b: set<T>)
    requires a <= b
    ensures |a| <= |b|
    ensures |a| == |b| ==> a == b
  {
    assert b == a + (b - a);
    assert |b| == |a| + |b - a|;
  }
}
