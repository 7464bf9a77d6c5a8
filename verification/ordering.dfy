/**
 * Ascending enumeration of a finite set of ids: the `orderBy: { id: 'asc' }`
 * of the store's list queries.
 */
module Ordering {
  import opened Results

  predicate StrictlyIncreasing(s: seq<int>)
  {
    forall i, j :: 0 <= i < j < |s| ==> s[i] < s[j]
  }

  lemma {:induction false} MinExists(s: set<int>)
    requires s != {}
    ensures exists m :: m in s && forall y :: y in s ==> m <= y
  {
    var x := PickOne(s);
    if s == {x} {
      assert forall y :: y in s ==> y == x;
    } else {
      MinExists(s - {x});
      var m :| m in s - {x} && forall y :: y in s - {x} ==> m <= y;
      if x < m {
        forall y | y in s ensures x <= y {
          if y != x { assert y in s - {x}; }
        }
      } else {
        forall y | y in s ensures m <= y {
          if y != x { assert y in s - {x}; }
        }
      }
    }
  }

  /** Some element of a non-empty set. */
  lemma PickOne(s: set<int>) returns (x: int)
    requires s != {}
    ensures x in s
  {
    if forall y :: y !in s {
      SetsEqual(s, {});
      assert false;
    }
    x :| x in s;
  }

  /** The least element of a non-empty set. */
  function Min(s: set<int>): (m: int)
    requires s != {}
    ensures m in s && forall y :: y in s ==> m <= y
  {
    MinExists(s);
    var m :| m in s && forall y :: y in s ==> m <= y;
    m
  }

  /** The elements of `s` in ascending order. */
  function Ascending(s: set<int>): (r: seq<int>)
    ensures StrictlyIncreasing(r)
    ensures forall x :: x in r <==> x in s
    ensures |r| == |s|
    decreases |s|
  {
    if s == {} then []
    else
      var m := Min(s);
      [m] + Ascending(s - {m})
  }

  /** `findFirst()` without a filter: the smallest id of the table, or nothing when it is empty. */
  function FirstKey<V>(m: map<int, V>): (r: Option<int>)
    ensures r.None? <==> |m| == 0
    ensures r.Some? ==> r.value in m && forall id :: id in m ==> r.value <= id
  {
    if |m| == 0 then None
    else
      assert exists id :: id in m by {
        if forall id :: id !in m { SetsEqual(m.Keys, {}); }
      }
      Some(Min(m.Keys))
  }
}
