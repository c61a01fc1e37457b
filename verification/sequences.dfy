/** Small facts about sequences shared by the solvers and the generators. */
module Sequences {

  /** No element occurs twice. */
  predicate Distinct<T(==)>(s: seq<T>) {
    forall i, j :: 0 <= i < j < |s| ==> s[i] != s[j]
  }

  /** The elements of `s` in order, without those in `seen`. */
  function Without<T(==,!new)>(s: seq<T>, seen: set<T>): (r: seq<T>)
    ensures |r| <= |s|
  {
    if s == [] then []
    else (if s[0] in seen then [] else [s[0]]) + Without(s[1..], seen)
  }

  lemma {:induction false} WithoutMembers<T(!new)>(s: seq<T>, seen: set<T>)
    ensures forall x :: x in Without(s, seen) <==> x in s && x !in seen
  {
    if s != [] {
      WithoutMembers(s[1..], seen);
      assert s == [s[0]] + s[1..];
    }
  }

  lemma {:induction false} WithoutDistinct<T(!new)>(s: seq<T>, seen: set<T>)
    requires Distinct(s)
    ensures Distinct(Without(s, seen))
  {
    if s != [] {
      WithoutDistinct(s[1..], seen);
      WithoutMembers(s[1..], seen);
      assert s[0] !in s[1..];
    }
  }

  lemma {:induction false} WithoutSnoc<T(!new)>(s: seq<T>, x: T, seen: set<T>)
    ensures Without(s + [x], seen) == Without(s, seen) + (if x in seen then [] else [x])
  {
    if s == [] {
      assert s + [x] == [x];
      assert Without([x], seen) == (if x in seen then [] else [x]) + Without([], seen);
    } else {
      var head := if s[0] in seen then [] else [s[0]];
      assert (s + [x])[0] == s[0];
      assert (s + [x])[1..] == s[1..] + [x];
      assert Without(s + [x], seen) == head + Without(s[1..] + [x], seen);
      WithoutSnoc(s[1..], x, seen);
      assert Without(s, seen) == head + Without(s[1..], seen);
    }
  }

  /** A distinct sequence has as many elements as its set of elements. */
  lemma {:induction false} DistinctCardinality<T>(s: seq<T>)
    requires Distinct(s)
    ensures |set x | x in s| == |s|
  {
    if s != [] {
      DistinctCardinality(s[1..]);
      assert (set x | x in s) == (set x | x in s[1..]) + {s[0]};
      assert s[0] !in s[1..];
    }
  }

  lemma SubsetCardinality<T>(a: set<T>, b: set<T>)
    requires a <= b
    ensures |a| <= |b|
  {
    assert b == a + (b - a);
  }

  /** Adding a new element grows a set by one. */
  lemma AddFresh<T>(s: set<T>, x: T)
    requires x !in s
    ensures |s + {x}| == |s| + 1
  {
  }

  /** A set holding two different elements has at least two. */
  lemma TwoMembers<T>(s: set<T>, a: T, b: T)
    requires a in s && b in s && a != b
    ensures |s| >= 2
  {
    SubsetCardinality({a, b}, s);
  }

  /** `s` without its element at index `i`, as `list.pop(i)` leaves it. */
  function RemoveAt<T>(s: seq<T>, i: nat): (r: seq<T>)
    requires i < |s|
    ensures |r| == |s| - 1
    ensures forall j :: 0 <= j < i ==> r[j] == s[j]
    ensures forall j :: i <= j < |r| ==> r[j] == s[j + 1]
    ensures multiset(r) + multiset{s[i]} == multiset(s)
  {
    assert s == s[..i] + [s[i]] + s[i + 1..];
    s[..i] + s[i + 1..]
  }
}
