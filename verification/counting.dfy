/** Bounded counting and summation over integer ranges.

    The source counts conflicts with nested `for` loops that increment a
    counter under a condition.  `Count` and `Sum` are those loops written as
    recursive functions over a half-open range `[lo, hi)`; the lemmas relate
    them to set cardinalities and to each other, so that the conflict counts
    of the problems can be stated without mentioning the loops. */
module Counting {

  /** `Math.abs` on unbounded integers. */
  function Abs(x: int): nat
  {
    if x < 0 then -x else x
  }

  /** Number of `j` in `[lo, hi)` for which `p(j)` holds. */
  function Count(lo: int, hi: int, p: int -> bool): (n: nat)
    ensures n <= if lo < hi then hi - lo else 0
    decreases hi - lo
  {
    if lo >= hi then 0 else (if p(lo) then 1 else 0) + Count(lo + 1, hi, p)
  }

  /** Sum of `f(i)` for `i` in `[lo, hi)`. */
  function Sum(lo: int, hi: int, f: int -> nat): nat
    decreases hi - lo
  {
    if lo >= hi then 0 else f(lo) + Sum(lo + 1, hi, f)
  }

  /** The elements of `[lo, hi)` that satisfy `p`. */
  ghost function Matches(lo: int, hi: int, p: int -> bool): set<int>
  {
    set j | lo <= j < hi && p(j)
  }

  /** Counting is the cardinality of the matching set. */
  lemma {:induction false} CountIsCardinality(lo: int, hi: int, p: int -> bool)
    ensures Count(lo, hi, p) == |Matches(lo, hi, p)|
    decreases hi - lo
  {
    if lo < hi {
      CountIsCardinality(lo + 1, hi, p);
      if p(lo) {
        assert Matches(lo, hi, p) == {lo} + Matches(lo + 1, hi, p);
      } else {
        assert Matches(lo, hi, p) == Matches(lo + 1, hi, p);
      }
    } else {
      assert Matches(lo, hi, p) == {};
    }
  }

  /** A count is zero exactly when no element of the range matches. */
  lemma {:induction false} CountZero(lo: int, hi: int, p: int -> bool)
    ensures Count(lo, hi, p) == 0 <==> forall j :: lo <= j < hi ==> !p(j)
    decreases hi - lo
  {
    if lo < hi {
      CountZero(lo + 1, hi, p);
    }
  }

  /** Counting under a predicate that is the disjoint union of two others. */
  lemma {:induction false} CountDisjointUnion(lo: int, hi: int, r: int -> bool, p: int -> bool, q: int -> bool)
    requires forall j :: lo <= j < hi ==> (r(j) <==> p(j) || q(j))
    requires forall j :: lo <= j < hi ==> !(p(j) && q(j))
    ensures Count(lo, hi, r) == Count(lo, hi, p) + Count(lo, hi, q)
    decreases hi - lo
  {
    if lo < hi {
      CountDisjointUnion(lo + 1, hi, r, p, q);
    }
  }

  /** Counting with a predicate true on the whole range gives its length. */
  lemma {:induction false} CountAll(lo: int, hi: int, p: int -> bool)
    requires lo <= hi
    requires forall j :: lo <= j < hi ==> p(j)
    ensures Count(lo, hi, p) == hi - lo
    decreases hi - lo
  {
    if lo < hi {
      CountAll(lo + 1, hi, p);
    }
  }

  /** Two predicates that agree on the range count the same. */
  lemma {:induction false} CountCongruent(lo: int, hi: int, p: int -> bool, q: int -> bool)
    requires forall j :: lo <= j < hi ==> (p(j) <==> q(j))
    ensures Count(lo, hi, p) == Count(lo, hi, q)
    decreases hi - lo
  {
    if lo < hi {
      CountCongruent(lo + 1, hi, p, q);
    }
  }

  /** A sum of naturals is zero exactly when every term is. */
  lemma {:induction false} SumZero(lo: int, hi: int, f: int -> nat)
    ensures Sum(lo, hi, f) == 0 <==> forall i :: lo <= i < hi ==> f(i) == 0
    decreases hi - lo
  {
    if lo < hi {
      SumZero(lo + 1, hi, f);
    }
  }

  /** Summing terms that exceed others by a constant `c` adds `c` per term. */
  lemma {:induction false} SumShift(lo: int, hi: int, f: int -> nat, g: int -> nat, c: nat)
    requires lo <= hi
    requires forall i :: lo <= i < hi ==> f(i) == g(i) + c
    ensures Sum(lo, hi, f) == Sum(lo, hi, g) + c * (hi - lo)
    decreases hi - lo
  {
    if lo < hi {
      SumShift(lo + 1, hi, f, g, c);
    }
  }

  /** The sum of pointwise sums is the sum of the two sums. */
  lemma {:induction false} SumAdd(lo: int, hi: int, h: int -> nat, f: int -> nat, g: int -> nat)
    requires forall i :: lo <= i < hi ==> h(i) == f(i) + g(i)
    ensures Sum(lo, hi, h) == Sum(lo, hi, f) + Sum(lo, hi, g)
    decreases hi - lo
  {
    if lo < hi {
      SumAdd(lo + 1, hi, h, f, g);
    }
  }

  /** Peeling the last term off a sum. */
  lemma {:induction false} SumLast(lo: int, hi: int, f: int -> nat)
    requires lo < hi
    ensures Sum(lo, hi, f) == Sum(lo, hi - 1, f) + f(hi - 1)
    decreases hi - lo
  {
    if lo < hi - 1 {
      SumLast(lo + 1, hi, f);
    }
  }

  /** The ordered pairs `(i, j)` with `lo <= i < j < hi` related by `q`. */
  ghost function PairMatches(lo: int, hi: int, q: (int, int) -> bool): set<(int, int)>
  {
    set i, j | lo <= i < j < hi && q(i, j) :: (i, j)
  }

  /** The inner loop over `j > i` for a fixed first index `i`. */
  function Partners(i: int, hi: int, q: (int, int) -> bool): nat
  {
    Count(i + 1, hi, Slice(q, i))
  }

  /** `q` with its first argument fixed. */
  function Slice(q: (int, int) -> bool, i: int): int -> bool
  {
    j => q(i, j)
  }

  /** The nested pair loop as a function of the outer index. */
  function PartnerCounts(hi: int, q: (int, int) -> bool): int -> nat
  {
    i => Partners(i, hi, q)
  }

  /** Pairing every element of a set with a fixed first component keeps its size. */
  lemma {:induction false} PairingKeepsSize(i: int, s: set<int>)
    ensures |Pairing(i, s)| == |s|
    decreases |s|
  {
    if s == {} {
      assert Pairing(i, s) == {};
    } else {
      assert exists y :: y in s by {
        if forall y :: y !in s {
          assert false;
        }
      }
      var x :| x in s;
      PairingKeepsSize(i, s - {x});
      assert Pairing(i, s) == Pairing(i, s - {x}) + {(i, x)};
    }
  }

  /** The set `s` with every element paired after `i`. */
  ghost function Pairing(i: int, s: set<int>): set<(int, int)>
  {
    set j | j in s :: (i, j)
  }

  /** The pairs with first component `lo` split off the pair set. */
  lemma PairMatchesSplit(lo: int, hi: int, q: (int, int) -> bool)
    requires lo < hi
    ensures PairMatches(lo, hi, q) == Pairing(lo, Matches(lo + 1, hi, Slice(q, lo))) + PairMatches(lo + 1, hi, q)
    ensures Pairing(lo, Matches(lo + 1, hi, Slice(q, lo))) !! PairMatches(lo + 1, hi, q)
  {
    var row := Pairing(lo, Matches(lo + 1, hi, Slice(q, lo)));
    forall p | p in PairMatches(lo, hi, q)
      ensures p in row + PairMatches(lo + 1, hi, q)
    {
      if p.0 == lo {
        assert p.1 in Matches(lo + 1, hi, Slice(q, lo));
      }
    }
  }

  /** The nested loop over pairs `i < j` counts exactly the related pairs. */
  lemma {:induction false} PairCountIsCardinality(lo: int, hi: int, q: (int, int) -> bool)
    ensures Sum(lo, hi, PartnerCounts(hi, q)) == |PairMatches(lo, hi, q)|
    decreases hi - lo
  {
    if lo < hi {
      PairCountIsCardinality(lo + 1, hi, q);
      PairMatchesSplit(lo, hi, q);
      CountIsCardinality(lo + 1, hi, Slice(q, lo));
      PairingKeepsSize(lo, Matches(lo + 1, hi, Slice(q, lo)));
    } else {
      assert PairMatches(lo, hi, q) == {};
    }
  }
}
