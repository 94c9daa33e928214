/** The knapsack the problem and the generator fill.

    The `Knapsack` class is not part of this model.  What the core relies on is
    modelled as an assumption: a bag has a capacity `maxWeight` and a list of
    items; `put` refuses an item whose identity is already in the bag or whose
    weight would take the bag over its capacity, and reports whether it
    accepted; `remove` drops the item with the given identity; the copy
    constructor copies the list. */
module Knapsack {
  import opened KnapsackItem

  datatype Knapsack = Knapsack(maxWeight: int, items: seq<Item>)

  /** The answer of `put`: the bag afterwards, and whether the item went in. */
  datatype Placed = Placed(bag: Knapsack, accepted: bool)

  /** `new Knapsack(maxWeight)`: an empty bag. */
  function Empty(maxWeight: int): (k: Knapsack)
    ensures k.maxWeight == maxWeight && |k.items| == 0
  {
    Knapsack(maxWeight, [])
  }

  /** Sum of the weights of `items`. */
  function Weight(items: seq<Item>): int
  {
    if |items| == 0 then 0 else items[0].weight + Weight(items[1..])
  }

  /** Sum of the values of `items`: `getTotalValue()`. */
  function Value(items: seq<Item>): int
  {
    if |items| == 0 then 0 else items[0].value + Value(items[1..])
  }

  /** `put(x)` under the assumption stated above. */
  function Put(k: Knapsack, x: Item): (r: Placed)
    ensures r.bag.maxWeight == k.maxWeight
    ensures r.accepted <==> !Contains(k.items, x) && Weight(k.items) + x.weight <= k.maxWeight
    ensures r.accepted ==> r.bag.items == k.items + [x]
    ensures !r.accepted ==> r.bag == k
  {
    if Contains(k.items, x) || Weight(k.items) + x.weight > k.maxWeight then Placed(k, false)
    else Placed(Knapsack(k.maxWeight, k.items + [x]), true)
  }

  /** `remove(x)`. */
  function RemoveItem(k: Knapsack, x: Item): (r: Knapsack)
    ensures r.maxWeight == k.maxWeight
    ensures forall y :: y in r.items ==> y in k.items
  {
    RemoveSubset(k.items, x);
    Knapsack(k.maxWeight, Remove(k.items, x))
  }

  /** No weight is negative. */
  predicate NonNegativeWeights(items: seq<Item>)
  {
    forall i :: 0 <= i < |items| ==> items[i].weight >= 0
  }

  /** A well-formed bag: distinct items of non-negative weight, within the
      capacity. */
  predicate Valid(k: Knapsack)
  {
    DistinctIds(k.items) && NonNegativeWeights(k.items) && Weight(k.items) <= k.maxWeight
  }

  lemma {:induction false} WeightAppend(items: seq<Item>, x: Item)
    ensures Weight(items + [x]) == Weight(items) + x.weight
  {
    if |items| > 0 {
      assert (items + [x])[1..] == items[1..] + [x];
      WeightAppend(items[1..], x);
    }
  }

  lemma {:induction false} ValueAppend(items: seq<Item>, x: Item)
    ensures Value(items + [x]) == Value(items) + x.value
  {
    if |items| > 0 {
      assert (items + [x])[1..] == items[1..] + [x];
      ValueAppend(items[1..], x);
    }
  }

  /** An empty bag is well formed exactly when its capacity is not negative. */
  lemma EmptyValid(maxWeight: int)
    ensures Valid(Empty(maxWeight)) <==> maxWeight >= 0
  {
  }

  /** `put` keeps a bag well formed, whatever it decides, as long as the item
      offered has a non-negative weight. */
  lemma PutKeepsValid(k: Knapsack, x: Item)
    requires Valid(k)
    requires x.weight >= 0
    ensures Valid(Put(k, x).bag)
  {
    var r := Put(k, x);
    if r.accepted {
      WeightAppend(k.items, x);
      DistinctAppend(k.items, x);
    }
  }

  lemma DistinctAppend(items: seq<Item>, x: Item)
    requires DistinctIds(items)
    requires !Contains(items, x)
    ensures DistinctIds(items + [x])
  {
    var s := items + [x];
    forall i, j | 0 <= i < j < |s|
      ensures s[i].itemId != s[j].itemId
    {
      if j == |items| {
        assert !Equals(x, ItemObject(items[i]));
      }
    }
  }

  /** Removing an item of non-negative weight does not increase the weight. */
  lemma {:induction false} RemoveLighter(items: seq<Item>, x: Item)
    requires NonNegativeWeights(items)
    ensures Weight(Remove(items, x)) <= Weight(items)
    ensures NonNegativeWeights(Remove(items, x))
  {
    RemoveSubset(items, x);
    if |items| > 0 {
      assert items == [items[0]] + items[1..];
      RemoveLighter(items[1..], x);
      if !Equals(x, ItemObject(items[0])) {
        assert Remove(items, x) == [items[0]] + Remove(items[1..], x);
      }
    }
    forall i | 0 <= i < |Remove(items, x)|
      ensures Remove(items, x)[i].weight >= 0
    {
      var y := Remove(items, x)[i];
      assert y in items;
    }
  }

  /** `remove` keeps a bag well formed. */
  lemma RemoveKeepsValid(k: Knapsack, x: Item)
    requires Valid(k)
    ensures Valid(RemoveItem(k, x))
  {
    RemoveKeepsDistinct(k.items, x);
    RemoveLighter(k.items, x);
  }

  /** With no negative weight, the total is not negative and bounds every
      single weight. */
  lemma {:induction false} WeightBounds(items: seq<Item>)
    requires NonNegativeWeights(items)
    ensures Weight(items) >= 0
    ensures forall x :: x in items ==> x.weight <= Weight(items)
  {
    if |items| > 0 {
      WeightBounds(items[1..]);
      forall x | x in items
        ensures x.weight <= Weight(items)
      {
        if x != items[0] {
          assert x in items[1..];
        }
      }
    }
  }

  /** In a list without repeated identities, removing a present item takes
      exactly its weight off the total. */
  lemma {:induction false} WeightRemoveExact(items: seq<Item>, x: Item)
    requires DistinctIds(items)
    requires x in items
    ensures Weight(Remove(items, x)) == Weight(items) - x.weight
  {
    assert items == [items[0]] + items[1..];
    if Equals(x, ItemObject(items[0])) {
      var k :| 0 <= k < |items| && items[k] == x;
      assert k == 0;
    } else {
      assert x != items[0];
      DistinctIdsCons(items[0], items[1..]);
      WeightRemoveExact(items[1..], x);
      assert Remove(items, x) == [items[0]] + Remove(items[1..], x);
      assert Remove(items, x)[1..] == Remove(items[1..], x);
    }
  }
}
