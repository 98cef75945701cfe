/** Ascending order on a sample of lifetimes (`sort.Float64s`, main.go). */
module Sorting {

  predicate Sorted(s: seq<real>) {
    forall i, j :: 0 <= i < j < |s| ==> s[i] <= s[j]
  }

  /** `x` placed into the sorted `s` before the first element not below it. */
  function Insert(x: real, s: seq<real>): (r: seq<real>)
    requires Sorted(s)
    ensures Sorted(r)
    ensures multiset(r) == multiset(s) + multiset{x}
    decreases |s|
  {
    if |s| == 0 then [x]
    else if x <= s[0] then [x] + s
    else
      var tail := Insert(x, s[1..]);
      assert s == [s[0]] + s[1..];
      BoundedBelow(s[0], tail, s[1..], x);
      SortedCons(s[0], tail);
      [s[0]] + tail
  }

  /** A lower bound of every element of `u` and of `x` bounds every element
      of a permutation of `u` plus `x`. */
  lemma BoundedBelow(y: real, t: seq<real>, u: seq<real>, x: real)
    requires forall i :: 0 <= i < |u| ==> y <= u[i]
    requires y <= x
    requires multiset(t) == multiset(u) + multiset{x}
    ensures forall i :: 0 <= i < |t| ==> y <= t[i]
  {
    forall i | 0 <= i < |t| ensures y <= t[i] {
      assert t[i] in multiset(t);
      if t[i] != x {
        assert t[i] in multiset(u);
        var j :| 0 <= j < |u| && u[j] == t[i];
      }
    }
  }

  lemma SortedCons(y: real, t: seq<real>)
    requires Sorted(t)
    requires forall i :: 0 <= i < |t| ==> y <= t[i]
    ensures Sorted([y] + t)
  {
  }

  /** The sample in ascending order: a sorted permutation of it. */
  function SortReals(s: seq<real>): (r: seq<real>)
    ensures Sorted(r)
    ensures multiset(r) == multiset(s)
    decreases |s|
  {
    if |s| == 0 then []
    else
      assert s == [s[0]] + s[1..];
      Insert(s[0], SortReals(s[1..]))
  }

  lemma SortedHeadIsLeast(s: seq<real>, x: real)
    requires Sorted(s) && x in multiset(s)
    ensures |s| > 0 && s[0] <= x
  {
    var i :| 0 <= i < |s| && s[i] == x;
  }

  /** Sorting is determined by the multiset: two sorted permutations of one
      sample are equal, so the order the sample was gathered in does not
      matter. */
  lemma {:induction false} SortedUnique(a: seq<real>, b: seq<real>)
    requires Sorted(a) && Sorted(b)
    requires multiset(a) == multiset(b)
    ensures a == b
    decreases |a|
  {
    if |a| > 0 {
      assert a[0] in multiset(b);
      SortedHeadIsLeast(b, a[0]);
      SortedHeadIsLeast(a, b[0]);
      assert a == [a[0]] + a[1..];
      assert b == [b[0]] + b[1..];
      assert multiset(a) == multiset{a[0]} + multiset(a[1..]);
      assert multiset(b) == multiset{b[0]} + multiset(b[1..]);
      assert a[0] == b[0];
      calc {
        multiset(a[1..]);
        multiset(a) - multiset{a[0]};
        multiset(b) - multiset{b[0]};
        multiset(b[1..]);
      }
      SortedUnique(a[1..], b[1..]);
    } else {
      assert |b| == |multiset(b)| == 0;
    }
  }
}
