/** Sorting a sequence into non-increasing order of an integer key, as
    `sorted { key($0) > key($1) }` does. Elements with equal keys may end up
    in any order: Swift's `sort` does not promise stability, so no contract
    here mentions their relative order. */
module Sorting {

  /** Non-increasing by `key`. */
  predicate SortedBy<T>(ns: seq<T>, key: T -> int) {
    forall i, j | 0 <= i < j < |ns| :: key(ns[i]) >= key(ns[j])
  }

  /** A head no smaller than everything after it extends a sorted sequence. */
  lemma SortedCons<T>(h: T, t: seq<T>, key: T -> int)
    requires SortedBy(t, key)
    requires forall y | y in t :: key(h) >= key(y)
    ensures SortedBy([h] + t, key)
  {
    var r := [h] + t;
    forall i, j | 0 <= i < j < |r| ensures key(r[i]) >= key(r[j]) {
      assert r[j] == t[j - 1];
      if i > 0 {
        assert r[i] == t[i - 1];
      }
    }
  }

  /** The head of a sorted sequence bounds every element of its tail. */
  lemma SortedHeadBounds<T>(ns: seq<T>, key: T -> int)
    requires |ns| > 0 && SortedBy(ns, key)
    ensures forall y | y in ns[1..] :: key(ns[0]) >= key(y)
  {
    forall y | y in ns[1..] ensures key(ns[0]) >= key(y) {
      var k :| 0 <= k < |ns[1..]| && ns[1..][k] == y;
      assert ns[k + 1] == y;
    }
  }

  function InsertBy<T>(x: T, ns: seq<T>, key: T -> int): (r: seq<T>)
    requires SortedBy(ns, key)
    ensures SortedBy(r, key)
    ensures multiset(r) == multiset(ns) + multiset{x}
  {
    if |ns| == 0 then [x]
    else if key(x) >= key(ns[0]) then
      SortedHeadBounds(ns, key);
      assert ns == [ns[0]] + ns[1..];
      assert forall y | y in ns :: key(x) >= key(y);
      SortedCons(x, ns, key);
      [x] + ns
    else
      var tail := InsertBy(x, ns[1..], key);
      assert ns == [ns[0]] + ns[1..];
      SortedHeadBounds(ns, key);
      assert forall y | y in tail :: key(ns[0]) >= key(y) by {
        forall y | y in tail ensures key(ns[0]) >= key(y) {
          assert y in multiset(tail);
          assert y == x || y in multiset(ns[1..]);
        }
      }
      SortedCons(ns[0], tail, key);
      [ns[0]] + tail
  }

  /** Insertion sort into non-increasing `key` order. */
  function SortBy<T>(ns: seq<T>, key: T -> int): (r: seq<T>)
    ensures SortedBy(r, key)
    ensures multiset(r) == multiset(ns)
  {
    if |ns| == 0 then []
    else
      assert ns == [ns[0]] + ns[1..];
      InsertBy(ns[0], SortBy(ns[1..], key), key)
  }

  /** Sorting keeps exactly the elements it was given. */
  lemma SortByMembers<T>(ns: seq<T>, key: T -> int)
    ensures forall n :: n in SortBy(ns, key) <==> n in ns
  {
    var r := SortBy(ns, key);
    forall n ensures n in r <==> n in ns {
      assert n in r <==> n in multiset(r);
    }
  }

  /** Sorting a sorted sequence whose keys are all distinct changes nothing. */
  lemma {:induction false} SortBySorted<T>(ns: seq<T>, key: T -> int)
    requires SortedBy(ns, key)
    requires forall i, j | 0 <= i < j < |ns| :: key(ns[i]) != key(ns[j])
    ensures SortBy(ns, key) == ns
  {
    if |ns| > 0 {
      SortBySorted(ns[1..], key);
      assert SortBy(ns[1..], key) == ns[1..];
      if |ns| > 1 {
        assert key(ns[0]) >= key(ns[1..][0]);
      }
    }
  }
}
