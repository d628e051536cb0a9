/**
 `Enumerable.Intersect(first, second)` with the default equality comparer: the
 distinct elements of `first` that also occur in `second`. The contracts do not state
 the order of the result, since the scope check only asks `.Any()`, which is `|r| > 0`.
 */
module Linq {

  /** No element occurs twice. */
  predicate Distinct<T(==,!new)>(xs: seq<T>)
  {
    forall i, j :: 0 <= i < j < |xs| ==> xs[i] != xs[j]
  }

  /** Streams `first`, yielding each element still in `pending` and then removing it from `pending`. */
  function IntersectWith<T(==,!new)>(first: seq<T>, pending: set<T>): (r: seq<T>)
    ensures forall x :: x in r <==> x in first && x in pending
    ensures Distinct(r)
  {
    if |first| == 0 then []
    else if first[0] in pending then
      var rest := IntersectWith(first[1..], pending - {first[0]});
      assert first[0] !in rest;
      [first[0]] + rest
    else
      assert forall x :: x in first && x in pending ==> x in first[1..] by {
        forall x | x in first && x in pending ensures x in first[1..] {
          var i :| 0 <= i < |first| && first[i] == x;
          assert i != 0;
          assert first[1..][i - 1] == x;
        }
      }
      IntersectWith(first[1..], pending)
  }

  /** `first.Intersect(second)`. */
  function Intersect<T(==,!new)>(first: seq<T>, second: seq<T>): (r: seq<T>)
    ensures forall x :: x in r <==> x in first && x in second
    ensures Distinct(r)
  {
    IntersectWith(first, set x | x in second)
  }

  /** `first.Intersect(second).Any()` holds exactly when the two sequences share an element. */
  lemma IntersectAny<T(!new)>(first: seq<T>, second: seq<T>)
    ensures |Intersect(first, second)| > 0 <==>
            exists i, j :: 0 <= i < |first| && 0 <= j < |second| && first[i] == second[j]
  {
    var r := Intersect(first, second);
    if |r| > 0 {
      assert r[0] in first && r[0] in second;
    }
    forall i, j | 0 <= i < |first| && 0 <= j < |second| && first[i] == second[j]
      ensures |r| > 0
    {
      assert first[i] in r;
    }
  }

  /** Whether the intersection is empty depends only on the sets of elements on both sides. */
  lemma IntersectAnyDependsOnlyOnSets<T(!new)>(a1: seq<T>, b1: seq<T>, a2: seq<T>, b2: seq<T>)
    requires forall x :: x in a1 <==> x in a2
    requires forall x :: x in b1 <==> x in b2
    ensures |Intersect(a1, b1)| > 0 <==> |Intersect(a2, b2)| > 0
  {
    var r1, r2 := Intersect(a1, b1), Intersect(a2, b2);
    if |r1| > 0 {
      assert r1[0] in r2;
    }
    if |r2| > 0 {
      assert r2[0] in r1;
    }
  }
}
