/** The random generators of `RandomUtil`, with every draw an input.

    A draw of `nextInt(bound)` is a natural read modulo `bound`; a draw of
    `nextBoolean()` is a boolean; the `i`-th draw of a generator is
    `draws(i)`.  `BitString` is not part of this model beyond holding its bits
    in order. */
module RandomUtil {
  import opened Wrappers
  import opened KnapsackItem
  import opened Knapsack
  import EvolutionNQueensBoard
  import NQueensBoard

  /** The lowest printable code, `32`, and one past the highest, `127`. */
  const FirstPrintable := 32
  const EndPrintable := 127

  /** A character whose code is printable ASCII, `[32, 127)`. */
  predicate Printable(c: char)
  {
    FirstPrintable <= c as int < EndPrintable
  }

  /** `nextInt(127 - 32) + 32` as a character, for the draw `d`. */
  function PrintableChar(d: nat): (c: char)
    ensures Printable(c)
  {
    ((d % (EndPrintable - FirstPrintable)) + FirstPrintable) as char
  }

  /** Every printable character is the character of some draw. */
  lemma PrintableCharOnto(c: char)
    requires Printable(c)
    ensures PrintableChar(c as int - FirstPrintable) == c
  {
  }

  /** `generateRandomString(length)`: `IntStream.range(0, length)` is empty
      for a negative length, so the string has `max(length, 0)` characters. */
  function RandomString(length: int, draws: nat -> nat): (s: string)
    ensures |s| == if length < 0 then 0 else length
    ensures forall i :: 0 <= i < |s| ==> Printable(s[i])
  {
    if length <= 0 then ""
    else
      var s := seq(length, i requires 0 <= i < length => PrintableChar(draws(i)));
      assert forall i :: 0 <= i < length ==> s[i] == PrintableChar(draws(i));
      s
  }

  /** Every printable string is generated by some draws. */
  lemma RandomStringOnto(s: string)
    requires forall i :: 0 <= i < |s| ==> Printable(s[i])
    ensures RandomString(|s|, (i: nat) => if i < |s| && Printable(s[i]) then s[i] as int - FirstPrintable else 0) == s
  {
    var draws: nat -> nat := (i: nat) => if i < |s| && Printable(s[i]) then s[i] as int - FirstPrintable else 0;
    var r := RandomString(|s|, draws);
    forall i | 0 <= i < |s|
      ensures r[i] == s[i]
    {
      PrintableCharOnto(s[i]);
    }
  }

  datatype BitString = BitString(bits: seq<bool>)

  /** `generateRandomBitString(length)`: `new boolean[length]` throws for a
      negative length; bit `i` is the `i`-th `nextBoolean()`. */
  function RandomBitString(length: int, draws: nat -> bool): (b: BitString)
    requires length >= 0
    ensures |b.bits| == length
  {
    BitString(seq(length, i requires 0 <= i < length => draws(i)))
  }

  /** Every bit string is generated by some draws, and the bits are the draws
      in order. */
  lemma RandomBitStringOnto(bits: seq<bool>)
    ensures RandomBitString(|bits|, (i: nat) => i < |bits| && bits[i]) == BitString(bits)
  {
  }

  /** `generateRandomNQueensBoard(n)`: `new int[n]` throws for a negative
      `n`; column `i` receives `nextInt(n)`. */
  function RandomNQueensBoard(n: int, draws: nat -> nat): (b: EvolutionNQueensBoard.Board)
    requires n >= 0
    ensures |b.columns| == n
    ensures forall i :: 0 <= i < n ==> 0 <= b.columns[i] < n
  {
    EvolutionNQueensBoard.Board(seq(n, i requires 0 <= i < n => draws(i) % n))
  }

  /** It builds the same board as the board's own `generateRandomBoard`, and
      every board whose rows lie in `[0, n)` is generated by some draws. */
  lemma RandomNQueensBoardAgrees(n: nat, draws: nat -> nat, b: EvolutionNQueensBoard.Board)
    requires forall i :: 0 <= i < |b.columns| ==> 0 <= b.columns[i] < |b.columns|
    ensures RandomNQueensBoard(n, draws) == NQueensBoard.RandomBoard(n, draws)
    ensures RandomNQueensBoard(|b.columns|, (i: nat) => if i < |b.columns| then b.columns[i] else 0) == b
  {
  }

  /** One placement attempt: the item offered and whether `put` took it. */
  datatype Attempt = Attempt(offered: Item, accepted: bool)

  /** The items the attempts put in the bag, in order. */
  function Accepted(trace: seq<Attempt>): (r: seq<Item>)
    ensures |r| <= |trace|
  {
    if |trace| == 0 then []
    else (if trace[0].accepted then [trace[0].offered] else []) + Accepted(trace[1..])
  }

  /** Every accepted item was offered. */
  lemma {:induction false} AcceptedWereOffered(trace: seq<Attempt>)
    ensures forall y :: y in Accepted(trace) ==> exists a :: a in trace && a.offered == y
  {
    if |trace| > 0 {
      AcceptedWereOffered(trace[1..]);
      assert forall a :: a in trace[1..] ==> a in trace;
    }
  }

  lemma {:induction false} AcceptedAppend(first: seq<Attempt>, rest: seq<Attempt>)
    ensures Accepted(first + rest) == Accepted(first) + Accepted(rest)
  {
    if |first| > 0 {
      assert (first + rest)[1..] == first[1..] + rest;
      AcceptedAppend(first[1..], rest);
      assert first + rest == [first[0]] + (first[1..] + rest);
    } else {
      assert first + rest == rest;
    }
  }

  /** Where the generator stands after some attempts. */
  datatype Placement = Placement(bag: Knapsack, left: seq<Item>, trace: seq<Attempt>)

  /** The outcome of one attempt. */
  datatype Offered = Offered(bag: Knapsack, left: seq<Item>, accepted: bool)

  /** One attempt with the drawn item `x`: offer it to the bag, and take it
      off `left` only when the bag accepted it. */
  function Offer(bag: Knapsack, left: seq<Item>, x: Item): (r: Offered)
    requires x in left
    ensures r.bag.maxWeight == bag.maxWeight
    ensures r.accepted <==> Put(bag, x).accepted
    ensures r.bag == Put(bag, x).bag
    ensures r.accepted ==> r.bag.items == bag.items + [x] && |r.left| == |left| - 1
    ensures !r.accepted ==> r.bag == bag && r.left == left
    ensures forall y :: y in r.left ==> y in left
  {
    var placed := Put(bag, x);
    assert Contains(left, x) by {
      var k :| 0 <= k < |left| && left[k] == x;
      assert Equals(x, ItemObject(left[k]));
    }
    RemoveSubset(left, x);
    Offered(placed.bag, if placed.accepted then Remove(left, x) else left, placed.accepted)
  }

  /** The loop of `generateRandomKnapsack` with `remaining` attempts to go;
      attempt `i` draws the item `left[draws(t + i) % |left|]`. */
  function Attempts(bag: Knapsack, left: seq<Item>, draws: nat -> nat, t: nat, remaining: nat): (r: Placement)
    requires remaining <= |left|
    ensures r.bag.maxWeight == bag.maxWeight
    ensures |r.trace| == remaining
    ensures r.bag.items == bag.items + Accepted(r.trace)
    ensures |r.left| == |left| - |Accepted(r.trace)|
    ensures forall a :: a in r.trace ==> a.offered in left
    ensures forall y :: y in r.left ==> y in left
    decreases remaining
  {
    if remaining == 0 then Placement(bag, left, [])
    else
      var x := left[draws(t) % |left|];
      var s := Offer(bag, left, x);
      var rest := Attempts(s.bag, s.left, draws, t + 1, remaining - 1);
      var a := Attempt(x, s.accepted);
      OfferThenRest(bag, left, x, rest);
      assert forall b :: b in [a] + rest.trace ==> b == a || b in rest.trace;
      Placement(rest.bag, rest.left, [a] + rest.trace)
  }

  /** With distinct identities the loop moves items, never copies or loses
      them: what is left plus what the bag accepted is exactly the list it
      started from. */
  lemma {:induction false} AttemptsPartition(bag: Knapsack, left: seq<Item>, draws: nat -> nat, t: nat, remaining: nat)
    requires remaining <= |left|
    requires DistinctIds(left)
    ensures var r := Attempts(bag, left, draws, t, remaining);
            multiset(r.left) + multiset(Accepted(r.trace)) == multiset(left)
    decreases remaining
  {
    if remaining > 0 {
      var x := left[draws(t) % |left|];
      var s := Offer(bag, left, x);
      var rest := Attempts(s.bag, s.left, draws, t + 1, remaining - 1);
      var a := Attempt(x, s.accepted);
      OfferPartition(bag, left, x);
      AttemptsPartition(s.bag, s.left, draws, t + 1, remaining - 1);
      AcceptedCons(a, rest.trace);
      var acc := if s.accepted then [x] else [];
      var r := Attempts(bag, left, draws, t, remaining);
      assert r.left == rest.left && r.trace == [a] + rest.trace;
      assert Accepted(r.trace) == acc + Accepted(rest.trace);
      assert multiset(Accepted(r.trace)) == multiset(acc) + multiset(Accepted(rest.trace));
      assert multiset(rest.left) + multiset(Accepted(rest.trace)) == multiset(s.left);
      assert multiset(s.left) + multiset(acc) == multiset(left);
      Regroup(multiset(rest.left), multiset(acc), multiset(Accepted(rest.trace)));
    }
  }

  /** Multiset union regrouped. */
  lemma Regroup<T>(a: multiset<T>, b: multiset<T>, c: multiset<T>)
    ensures a + (b + c) == (a + c) + b
  {
  }

  /** One attempt on a list with distinct identities: the item drawn either
      stays on the list or is taken off it exactly once. */
  lemma OfferPartition(bag: Knapsack, left: seq<Item>, x: Item)
    requires DistinctIds(left)
    requires x in left
    ensures var s := Offer(bag, left, x);
            && DistinctIds(s.left)
            && multiset(s.left) + multiset(if s.accepted then [x] else []) == multiset(left)
  {
    if Offer(bag, left, x).accepted {
      RemoveExact(left, x);
      RemoveKeepsDistinct(left, x);
      assert multiset(left) == multiset(left) - multiset{x} + multiset{x};
    }
  }

  /** The accepted items of a trace with one more attempt in front. */
  lemma AcceptedCons(a: Attempt, rest: seq<Attempt>)
    ensures Accepted([a] + rest) == (if a.accepted then [a.offered] else []) + Accepted(rest)
  {
    assert ([a] + rest)[1..] == rest;
  }

  /** An attempt followed by more attempts: the accepted items of the whole
      trace follow the bag's items. */
  lemma OfferThenRest(bag: Knapsack, left: seq<Item>, x: Item, rest: Placement)
    requires x in left
    requires rest.bag.items == Offer(bag, left, x).bag.items + Accepted(rest.trace)
    ensures var a := Attempt(x, Offer(bag, left, x).accepted);
            && rest.bag.items == bag.items + Accepted([a] + rest.trace)
            && |Accepted([a] + rest.trace)| == (if a.accepted then 1 else 0) + |Accepted(rest.trace)|
  {
    var s := Offer(bag, left, x);
    var a := Attempt(x, s.accepted);
    AcceptedAppend([a], rest.trace);
    assert Accepted([a]) == if s.accepted then [x] else [] by {
      assert [a][1..] == [];
    }
    assert s.accepted ==> rest.bag.items == bag.items + ([x] + Accepted(rest.trace));
  }

  /** `generateRandomKnapsack(maxWeight, itemsToPut)`: one attempt per item of
      the list; it throws when no item is left over. */
  function RandomKnapsack(maxWeight: int, itemsToPut: seq<Item>, draws: nat -> nat): (r: Result<Knapsack>)
    ensures var p := Attempts(Empty(maxWeight), itemsToPut, draws, 0, |itemsToPut|);
            r.Failure? <==> |Accepted(p.trace)| == |itemsToPut|
    ensures r.Success? ==> r.value.maxWeight == maxWeight
    ensures r.Success? ==> |r.value.items| < |itemsToPut|
    ensures r.Success? ==> forall y :: y in r.value.items ==> y in itemsToPut
  {
    var p := Attempts(Empty(maxWeight), itemsToPut, draws, 0, |itemsToPut|);
    AcceptedWereOffered(p.trace);
    if |p.left| == 0 then
      Failure("Total value of items to put in knapsack must be greater than the max weight of the knapsack.")
    else
      Success(p.bag)
  }

  /** The attempts conserve the total weight of bag and list, never take a
      bag within its capacity over it, and when the whole list would fit,
      one attempt per item places every item. */
  lemma {:induction false} AttemptsConserve(bag: Knapsack, left: seq<Item>, draws: nat -> nat, t: nat, remaining: nat)
    requires remaining <= |left|
    requires DistinctIds(left) && NonNegativeWeights(left)
    requires forall y, z :: y in bag.items && z in left ==> y.itemId != z.itemId
    ensures var r := Attempts(bag, left, draws, t, remaining);
            && Weight(r.bag.items) + Weight(r.left) == Weight(bag.items) + Weight(left)
            && (Weight(bag.items) <= bag.maxWeight ==> Weight(r.bag.items) <= bag.maxWeight)
            && (remaining == |left| && Weight(bag.items) + Weight(left) <= bag.maxWeight ==> |r.left| == 0)
    decreases remaining
  {
    if remaining > 0 {
      var x := left[draws(t) % |left|];
      var s := Offer(bag, left, x);
      forall i | 0 <= i < |bag.items|
        ensures !Equals(x, ItemObject(bag.items[i]))
      {
        assert bag.items[i] in bag.items;
      }
      WeightBounds(left);
      if s.accepted {
        WeightAppend(bag.items, x);
        WeightRemoveExact(left, x);
        RemoveKeepsDistinct(left, x);
        RemoveLighter(left, x);
        RemoveSubset(left, x);
        RemoveDropsId(left, x);
      }
      AttemptsConserve(s.bag, s.left, draws, t + 1, remaining - 1);
    }
  }

  /** For a list of distinct items of non-negative weight and a capacity that
      is not negative, the generator throws exactly when all the items fit in
      the bag together. */
  lemma FailsIffAllFit(maxWeight: int, itemsToPut: seq<Item>, draws: nat -> nat)
    requires DistinctIds(itemsToPut) && NonNegativeWeights(itemsToPut)
    requires maxWeight >= 0
    ensures RandomKnapsack(maxWeight, itemsToPut, draws).Failure? <==> Weight(itemsToPut) <= maxWeight
  {
    AttemptsConserve(Empty(maxWeight), itemsToPut, draws, 0, |itemsToPut|);
  }

  /** The attempts keep a well-formed bag well formed when the list has no
      negative weight. */
  lemma {:induction false} AttemptsKeepValid(bag: Knapsack, left: seq<Item>, draws: nat -> nat, t: nat, remaining: nat)
    requires remaining <= |left|
    requires Valid(bag) && NonNegativeWeights(left)
    ensures Valid(Attempts(bag, left, draws, t, remaining).bag)
    decreases remaining
  {
    if remaining > 0 {
      var x := left[draws(t) % |left|];
      var s := Offer(bag, left, x);
      PutKeepsValid(bag, x);
      forall i | 0 <= i < |s.left|
        ensures s.left[i].weight >= 0
      {
        assert s.left[i] in left;
      }
      AttemptsKeepValid(s.bag, s.left, draws, t + 1, remaining - 1);
    }
  }

  /** With a capacity and weights that are not negative, a generated bag is
      well formed: distinct items within the capacity. */
  lemma RandomKnapsackValid(maxWeight: int, itemsToPut: seq<Item>, draws: nat -> nat)
    requires maxWeight >= 0 && NonNegativeWeights(itemsToPut)
    ensures var r := RandomKnapsack(maxWeight, itemsToPut, draws);
            r.Success? ==> Valid(r.value)
  {
    EmptyValid(maxWeight);
    AttemptsKeepValid(Empty(maxWeight), itemsToPut, draws, 0, |itemsToPut|);
  }
}
