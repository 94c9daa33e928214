/** Stable sorting of a population by an integer key.

    Each generation of the optimizer ends with
    `sorted(Comparator.comparingDouble(this::fitness))`, a stable sort by
    ascending fitness; the knapsack solver uses the reversed comparator, which
    is the same stable sort by the negated fitness.  The model sorts by
    insertion: it is stable, and its specification is the one the loop relies
    on — the result is ordered by the key and is a permutation of the input. */
module Sorting {

  /** `s` is ordered by non-decreasing `key`. */
  predicate SortedBy<E>(s: seq<E>, key: E -> int)
  {
    forall i, j :: 0 <= i < j < |s| ==> key(s[i]) <= key(s[j])
  }

  /** Inserts `x` into the sorted `s` in front of the first element whose key
      is not smaller, so equal keys keep their original order. */
  function Insert<E>(x: E, s: seq<E>, key: E -> int): (r: seq<E>)
    requires SortedBy(s, key)
    ensures |r| == |s| + 1
    ensures SortedBy(r, key)
    ensures multiset(r) == multiset(s) + multiset{x}
    ensures r[0] == x || (|s| > 0 && r[0] == s[0])
  {
    if |s| == 0 then [x]
    else if key(x) <= key(s[0]) then [x] + s
    else
      assert s == [s[0]] + s[1..];
      var rest := Insert(x, s[1..], key);
      assert key(s[0]) <= key(rest[0]);
      [s[0]] + rest
  }

  /** Insertion sort of `s` by `key`. */
  function SortBy<E>(s: seq<E>, key: E -> int): (r: seq<E>)
    ensures |r| == |s|
    ensures SortedBy(r, key)
    ensures multiset(r) == multiset(s)
  {
    if |s| == 0 then []
    else
      assert s == [s[0]] + s[1..];
      Insert(s[0], SortBy(s[1..], key), key)
  }

  /** The head of a non-empty sorted sequence has the least key of all its
      elements. */
  lemma {:induction false} HeadIsLeast<E>(s: seq<E>, key: E -> int)
    requires SortedBy(s, key)
    requires |s| > 0
    ensures forall x :: x in s ==> key(s[0]) <= key(x)
  {
    forall x | x in s
      ensures key(s[0]) <= key(x)
    {
      var k :| 0 <= k < |s| && s[k] == x;
      if k > 0 {
        assert key(s[0]) <= key(s[k]);
      }
    }
  }
}
