/** The set of state indices in which an entity exists (dyng/live_set.h).
    The C++ class wraps a vector of unsigned values; it is a value type (stored
    in maps and copied into partitions), so `add` and `join`, which rewrite the
    vector in place, are modelled as functions whose result replaces the old
    value. intersection and setunion are the merge algorithms of
    std::set_intersection and std::set_union, which presuppose sorted input. */
module LiveSets {

  type LiveSet = seq<nat>

  ghost predicate Increasing(s: LiveSet)
  {
    forall i, j :: 0 <= i < j < |s| ==> s[i] < s[j]
  }

  /** add: appends, without sorting or removing duplicates. */
  function Add(s: LiveSet, t: nat): (r: LiveSet)
    ensures |r| == |s| + 1 && r[..|s|] == s && r[|s|] == t
  {
    s + [t]
  }

  /** Appending a time larger than every stored one keeps the set increasing;
      this is the only way the layout calls add. */
  lemma AddKeepsIncreasing(s: LiveSet, t: nat)
    requires Increasing(s)
    requires forall i :: 0 <= i < |s| ==> s[i] < t
    ensures Increasing(Add(s, t))
  {
  }

  /** Appending a time already present breaks the increasing order: add does not deduplicate. */
  lemma AddDoesNotDeduplicate(s: LiveSet, t: nat)
    requires t in s
    ensures !Increasing(Add(s, t))
  {
    var i :| 0 <= i < |s| && s[i] == t;
    assert Add(s, t)[i] == Add(s, t)[|s|];
  }

  /** std::set_intersection: walk both ranges, keep the values found in both. */
  function Intersection(a: LiveSet, b: LiveSet): (r: LiveSet)
    ensures forall x :: x in r ==> x in a && x in b
    decreases |a| + |b|
  {
    if a == [] || b == [] then []
    else if a[0] < b[0] then Intersection(a[1..], b)
    else if b[0] < a[0] then Intersection(a, b[1..])
    else [a[0]] + Intersection(a[1..], b[1..])
  }

  /** std::set_union: walk both ranges, emit the smaller head; equal heads are
      emitted once, from the first range. */
  function SetUnion(a: LiveSet, b: LiveSet): (r: LiveSet)
    ensures forall x :: x in r <==> x in a || x in b
    decreases |a| + |b|
  {
    if a == [] then b
    else if b == [] then a
    else if a[0] < b[0] then [a[0]] + SetUnion(a[1..], b)
    else if b[0] < a[0] then [b[0]] + SetUnion(a, b[1..])
    else [a[0]] + SetUnion(a[1..], b[1..])
  }

  /** join: the values become the union with the other set. */
  function Join(s: LiveSet, other: LiveSet): (r: LiveSet)
    ensures forall x :: x in r <==> x in s || x in other
  {
    SetUnion(s, other)
  }

  /** empty: no values are stored. */
  predicate Empty(s: LiveSet)
  {
    |s| == 0
  }

  lemma HeadIsLeast(s: LiveSet, x: nat)
    requires Increasing(s) && x in s
    ensures s[0] <= x
  {
    var i :| 0 <= i < |s| && s[i] == x;
    assert i == 0 || s[0] < s[i];
  }

  lemma IncreasingTail(s: LiveSet)
    requires Increasing(s) && s != []
    ensures Increasing(s[1..]) && forall x :: x in s[1..] ==> s[0] < x
  {
  }

  /** For increasing inputs, intersection yields the increasing sequence of the
      common values. */
  lemma IntersectionOfIncreasing(a: LiveSet, b: LiveSet)
    requires Increasing(a) && Increasing(b)
    ensures Increasing(Intersection(a, b))
    ensures forall x :: x in Intersection(a, b) <==> x in a && x in b
  {
    IntersectionIncreasing(a, b);
    forall x | x in a && x in b ensures x in Intersection(a, b) {
      IntersectionComplete(a, b, x);
    }
  }

  lemma {:induction false} IntersectionIncreasing(a: LiveSet, b: LiveSet)
    requires Increasing(a) && Increasing(b)
    ensures Increasing(Intersection(a, b))
    decreases |a| + |b|
  {
    if a == [] || b == [] {
    } else if a[0] < b[0] {
      IntersectionIncreasing(a[1..], b);
    } else if b[0] < a[0] {
      IntersectionIncreasing(a, b[1..]);
    } else {
      IncreasingTail(a);
      IntersectionIncreasing(a[1..], b[1..]);
      var r := Intersection(a[1..], b[1..]);
      assert forall i :: 0 <= i < |r| ==> r[i] in a[1..];
      assert Intersection(a, b) == [a[0]] + r;
    }
  }

  lemma {:induction false} IntersectionComplete(a: LiveSet, b: LiveSet, x: nat)
    requires Increasing(a) && Increasing(b)
    requires x in a && x in b
    ensures x in Intersection(a, b)
    decreases |a| + |b|
  {
    if a[0] < b[0] {
      IncreasingTail(b);
      assert x != a[0] by { assert b[0] <= x; }
      IntersectionComplete(a[1..], b, x);
    } else if b[0] < a[0] {
      IncreasingTail(a);
      assert x != b[0] by { assert a[0] <= x; }
      IntersectionComplete(a, b[1..], x);
    } else if x != a[0] {
      IntersectionComplete(a[1..], b[1..], x);
    }
  }

  /** For increasing inputs, setunion yields an increasing sequence (so without
      duplicates) holding exactly the values of either input. */
  lemma {:induction false} UnionOfIncreasing(a: LiveSet, b: LiveSet)
    requires Increasing(a) && Increasing(b)
    ensures Increasing(SetUnion(a, b))
    decreases |a| + |b|
  {
    if a == [] || b == [] {
    } else if a[0] < b[0] {
      IncreasingTail(a);
      UnionOfIncreasing(a[1..], b);
      assert forall x :: x in SetUnion(a[1..], b) ==> a[0] < x;
    } else if b[0] < a[0] {
      IncreasingTail(b);
      UnionOfIncreasing(a, b[1..]);
      assert forall x :: x in SetUnion(a, b[1..]) ==> b[0] < x;
    } else {
      IncreasingTail(a);
      IncreasingTail(b);
      UnionOfIncreasing(a[1..], b[1..]);
      assert forall x :: x in SetUnion(a[1..], b[1..]) ==> a[0] < x;
    }
  }

  /** join keeps a live set increasing. */
  lemma JoinKeepsIncreasing(s: LiveSet, other: LiveSet)
    requires Increasing(s) && Increasing(other)
    ensures Increasing(Join(s, other))
  {
    UnionOfIncreasing(s, other);
  }

  /** The compatibility test of GAP and RGAP: for increasing live sets, an empty
      intersection means the two entities never exist at the same time, and the
      test does not depend on the order of its arguments. */
  lemma DisjointIffNoSharedTime(a: LiveSet, b: LiveSet)
    requires Increasing(a) && Increasing(b)
    ensures Empty(Intersection(a, b)) <==> forall x :: x in a ==> x !in b
    ensures Empty(Intersection(a, b)) <==> Empty(Intersection(b, a))
  {
    IntersectionOfIncreasing(a, b);
    IntersectionOfIncreasing(b, a);
    if !Empty(Intersection(a, b)) {
      assert Intersection(a, b)[0] in Intersection(a, b);
    }
    if !Empty(Intersection(b, a)) {
      assert Intersection(b, a)[0] in Intersection(b, a);
    }
  }

  /** Joining values already present changes nothing. */
  lemma {:induction false} UnionWithSubset(u: LiveSet, s: LiveSet)
    requires Increasing(u) && Increasing(s)
    requires forall x :: x in s ==> x in u
    ensures SetUnion(u, s) == u
    decreases |u| + |s|
  {
    if s != [] {
      assert s[0] in u;
      IncreasingTail(u);
      if u[0] < s[0] {
        forall x | x in s ensures x in u[1..] {
          HeadIsLeast(s, x);
        }
        UnionWithSubset(u[1..], s);
      } else {
        HeadIsLeast(u, s[0]);
        IncreasingTail(s);
        forall x | x in s[1..] ensures x in u[1..] {
          assert x in s && x != u[0];
        }
        UnionWithSubset(u[1..], s[1..]);
      }
      assert u == [u[0]] + u[1..];
    }
  }

  /** Joining the same set twice equals joining it once. */
  lemma JoinIdempotent(s: LiveSet, other: LiveSet)
    requires Increasing(s) && Increasing(other)
    ensures Join(Join(s, other), other) == Join(s, other)
  {
    UnionOfIncreasing(s, other);
    UnionWithSubset(Join(s, other), other);
  }
}
