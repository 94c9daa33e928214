/** `KnapsackProblem`: bags of items from a fixed pool, bred for total value
    under the capacity `maxWeight`.

    Crossover pours both parents' items into one list without repeating an
    identity, then offers the items of that list to a fresh bag in a random
    order; the crossover draws are the index draws of that order.  Mutation
    walks the pool and, where its draw fires, swaps the pool item out of the
    bag and a drawn pool item in.  `solve` is the generational loop with the
    order reversed, so that the best bag comes first. */
module KnapsackProblem {
  import opened Wrappers
  import opened KnapsackItem
  import opened Knapsack
  import opened Sorting
  import G = GeneticOptimizer
  import RandomUtil

  datatype KnapsackProblem = KnapsackProblem(maxWeight: int, itemsToPut: seq<Item>)

  /** `new KnapsackProblem(maxWeight, weightsOfItems, valuesOfItems)`: one
      pool item per weight, paired with the value at the same index (a
      shorter value array throws); item `i` gets the drawn identity `ids(i)`. */
  function New(maxWeight: int, weights: seq<int>, values: seq<int>, ids: nat -> int): (p: KnapsackProblem)
    requires |weights| <= |values|
    ensures p.maxWeight == maxWeight
    ensures |p.itemsToPut| == |weights|
    ensures forall i :: 0 <= i < |weights| ==>
      p.itemsToPut[i].weight == weights[i] && p.itemsToPut[i].value == values[i] && p.itemsToPut[i].itemId == ids(i)
  {
    var items := seq(|weights|, i requires 0 <= i < |weights| => KnapsackItem.New(ids(i), weights[i], values[i]));
    assert forall i :: 0 <= i < |weights| ==> items[i] == KnapsackItem.New(ids(i), weights[i], values[i]);
    KnapsackProblem(maxWeight, items)
  }

  /** The loop over the second parent's items: each one the list does not
      yet contain is appended. */
  function AddMissing(acc: seq<Item>, b: seq<Item>): (r: seq<Item>)
    ensures acc <= r
    ensures forall y :: y in r ==> y in acc || y in b
    decreases |b|
  {
    if |b| == 0 then acc
    else
      var next := if Contains(acc, b[0]) then acc else acc + [b[0]];
      var r := AddMissing(next, b[1..]);
      assert forall y :: y in b[1..] ==> y in b;
      r
  }

  /** The list the crossover draws from: the first parent's items, then the
      second parent's items whose identity is new. */
  function Union(a: seq<Item>, b: seq<Item>): (r: seq<Item>)
    ensures a <= r
    ensures forall y :: y in r ==> y in a || y in b
  {
    AddMissing(a, b)
  }

  /** An element of a prefix is contained in the longer list too. */
  lemma ContainsPrefix(s: seq<Item>, t: seq<Item>, y: Item)
    requires s <= t
    requires Contains(s, y)
    ensures Contains(t, y)
  {
    var i :| 0 <= i < |s| && Equals(y, ItemObject(s[i]));
    assert t[i] == s[i];
  }

  /** `AddMissing` contains exactly what the list or the items added contain,
      and repeats no identity when the list repeated none. */
  lemma {:induction false} AddMissingContains(acc: seq<Item>, b: seq<Item>)
    ensures forall y :: Contains(AddMissing(acc, b), y) <==> Contains(acc, y) || Contains(b, y)
    ensures DistinctIds(acc) ==> DistinctIds(AddMissing(acc, b))
    decreases |b|
  {
    if |b| > 0 {
      var next := if Contains(acc, b[0]) then acc else acc + [b[0]];
      AddMissingContains(next, b[1..]);
      forall y
        ensures Contains(next, y) <==> Contains(acc, y) || Equals(y, ItemObject(b[0]))
      {
        if Contains(next, y) && !Contains(acc, y) {
          var i :| 0 <= i < |next| && Equals(y, ItemObject(next[i]));
          assert i == |acc|;
        }
        if Contains(acc, y) {
          ContainsPrefix(acc, next, y);
        }
        if Equals(y, ItemObject(b[0])) && !Contains(acc, y) {
          assert next[|acc|] == b[0];
        }
        if Equals(y, ItemObject(b[0])) && Contains(acc, b[0]) {
          var i :| 0 <= i < |acc| && Equals(b[0], ItemObject(acc[i]));
          assert Equals(y, ItemObject(acc[i]));
        }
      }
      forall y
        ensures Contains(b, y) <==> Equals(y, ItemObject(b[0])) || Contains(b[1..], y)
      {
        ContainsUnfold(b, y);
      }
      if DistinctIds(acc) && !Contains(acc, b[0]) {
        forall i, j | 0 <= i < j < |next|
          ensures next[i].itemId != next[j].itemId
        {
          if j == |acc| {
            assert !Equals(b[0], ItemObject(acc[i]));
          }
        }
      }
    }
  }

  /** The union holds every item of the first parent, an item with the
      identity of every item of the second, and nothing else; it repeats no
      identity when the first parent repeats none. */
  lemma UnionSpec(a: seq<Item>, b: seq<Item>)
    ensures forall y :: Contains(Union(a, b), y) <==> Contains(a, y) || Contains(b, y)
    ensures forall y :: y in b ==> Contains(Union(a, b), y)
    ensures DistinctIds(a) ==> DistinctIds(Union(a, b))
  {
    AddMissingContains(a, b);
    forall y | y in b
      ensures Contains(b, y)
    {
      var i :| 0 <= i < |b| && b[i] == y;
      assert Equals(y, ItemObject(b[i]));
    }
  }

  /** The order in which the crossover offers the items of `list`: it draws
      index `picks(t) % |list|`, offers that item and removes it from the
      list, until the list is empty. */
  function Offers(list: seq<Item>, picks: nat -> nat, t: nat): (r: seq<Item>)
    ensures |r| == |list|
    ensures forall y :: y in r ==> y in list
    decreases |list|
  {
    if |list| == 0 then []
    else
      var x := list[picks(t) % |list|];
      assert Equals(x, ItemObject(list[picks(t) % |list|]));
      RemoveSubset(list, x);
      [x] + Offers(Remove(list, x), picks, t + 1)
  }

  /** For a list without repeated identities the offers are a permutation of
      the list: every item is offered exactly once. */
  lemma {:induction false} OffersArePermutation(list: seq<Item>, picks: nat -> nat, t: nat)
    requires DistinctIds(list)
    ensures multiset(Offers(list, picks, t)) == multiset(list)
    decreases |list|
  {
    if |list| > 0 {
      var x := list[picks(t) % |list|];
      RemoveExact(list, x);
      RemoveKeepsDistinct(list, x);
      OffersArePermutation(Remove(list, x), picks, t + 1);
      assert x in multiset(list);
    }
  }

  /** `child.put` applied to each offered item in turn. */
  function PutAll(bag: Knapsack, offers: seq<Item>): (r: Knapsack)
    ensures r.maxWeight == bag.maxWeight
    ensures forall y :: y in r.items ==> y in bag.items || y in offers
    decreases |offers|
  {
    if |offers| == 0 then bag
    else
      var r := PutAll(Put(bag, offers[0]).bag, offers[1..]);
      assert forall y :: y in offers[1..] ==> y in offers;
      r
  }

  /** Offering items of non-negative weight keeps a bag well formed. */
  lemma {:induction false} PutAllKeepsValid(bag: Knapsack, offers: seq<Item>)
    requires Valid(bag)
    requires NonNegativeWeights(offers)
    ensures Valid(PutAll(bag, offers))
    decreases |offers|
  {
    if |offers| > 0 {
      PutKeepsValid(bag, offers[0]);
      PutAllKeepsValid(Put(bag, offers[0]).bag, offers[1..]);
    }
  }

  /** `generateIndividualFromParents(parentA, parentB)` with the order draws
      `picks`: a fresh bag of the problem's capacity that holds only items of
      the parents. */
  function Crossover(prob: KnapsackProblem, a: Knapsack, b: Knapsack, picks: nat -> nat): (child: Knapsack)
    ensures child.maxWeight == prob.maxWeight
    ensures forall y :: y in child.items ==> y in a.items || y in b.items
  {
    PutAll(Empty(prob.maxWeight), Offers(Union(a.items, b.items), picks, 0))
  }

  /** The crossover offers each item of the union exactly once, and nothing
      else, when the first parent repeats no identity. */
  lemma CrossoverOffersUnionOnce(a: Knapsack, b: Knapsack, picks: nat -> nat)
    requires DistinctIds(a.items)
    ensures multiset(Offers(Union(a.items, b.items), picks, 0)) == multiset(Union(a.items, b.items))
  {
    UnionSpec(a.items, b.items);
    OffersArePermutation(Union(a.items, b.items), picks, 0);
  }

  /** The walk of `mutate` over the pool from position `i`: where the draw
      fires, the pool item at `i` is removed from the bag and the pool item
      `pool[d % |pool|]` is offered to it. */
  function MutateFrom(pool: seq<Item>, k: Knapsack, draws: nat -> Option<nat>, i: nat): (r: Knapsack)
    ensures r.maxWeight == k.maxWeight
    ensures forall y :: y in r.items ==> y in k.items || y in pool
    decreases |pool| - i
  {
    if i >= |pool| then k
    else
      var next := match draws(i)
        case None => k
        case Some(d) => Put(RemoveItem(k, pool[i]), pool[d % |pool|]).bag;
      MutateFrom(pool, next, draws, i + 1)
  }

  /** `mutate(individual, rate)`: the result keeps the capacity and holds
      only items of the individual or of the pool. */
  function Mutate(prob: KnapsackProblem, k: Knapsack, draws: nat -> Option<nat>): (r: Knapsack)
    ensures r.maxWeight == k.maxWeight
    ensures forall y :: y in r.items ==> y in k.items || y in prob.itemsToPut
  {
    MutateFrom(prob.itemsToPut, k, draws, 0)
  }

  /** When no draw fires the mutation returns the bag unchanged. */
  lemma {:induction false} MutateQuiet(pool: seq<Item>, k: Knapsack, draws: nat -> Option<nat>, i: nat)
    requires forall j :: i <= j < |pool| ==> draws(j).None?
    ensures MutateFrom(pool, k, draws, i) == k
    decreases |pool| - i
  {
    if i < |pool| {
      MutateQuiet(pool, k, draws, i + 1);
    }
  }

  /** Mutation keeps a bag well formed when the pool has no negative weight. */
  lemma {:induction false} MutateKeepsValid(pool: seq<Item>, k: Knapsack, draws: nat -> Option<nat>, i: nat)
    requires Valid(k)
    requires NonNegativeWeights(pool)
    ensures Valid(MutateFrom(pool, k, draws, i))
    decreases |pool| - i
  {
    if i < |pool| {
      match draws(i)
      case None =>
        MutateKeepsValid(pool, k, draws, i + 1);
      case Some(d) =>
        RemoveKeepsValid(k, pool[i]);
        PutKeepsValid(RemoveItem(k, pool[i]), pool[d % |pool|]);
        MutateKeepsValid(pool, Put(RemoveItem(k, pool[i]), pool[d % |pool|]).bag, draws, i + 1);
    }
  }

  /** `fitness(individual)`: the total value of the bag. */
  function Fitness(k: Knapsack): int
  {
    Value(k.items)
  }

  /** An empty bag is worth nothing, and an accepted item adds exactly its
      value while a refused one adds nothing. */
  lemma FitnessOfPut(k: Knapsack, x: Item)
    ensures Fitness(Empty(k.maxWeight)) == 0
    ensures Fitness(Put(k, x).bag) == Fitness(k) + (if Put(k, x).accepted then x.value else 0)
  {
    ValueAppend(k.items, x);
  }

  /** The problem plugged into the generational loop: the key is the negated
      fitness, so that the ascending sort puts the most valuable bag first,
      as the reversed comparator of `solve` does. */
  function AsProblem(prob: KnapsackProblem): (g: G.Problem<Knapsack, nat -> nat, nat -> Option<nat>>)
    ensures forall a, b, c :: g.crossover(a, b, c) == Crossover(prob, a, b, c)
    ensures forall k, m :: g.mutate(k, m) == Mutate(prob, k, m)
    ensures forall k :: g.fitness(k) == -Fitness(k)
    ensures forall s :: SortedBy(s, g.fitness) <==> forall i, j :: 0 <= i < j < |s| ==> Fitness(s[i]) >= Fitness(s[j])
  {
    G.Problem((a, b, c) => Crossover(prob, a, b, c), (k, m) => Mutate(prob, k, m), k => -Fitness(k))
  }

  /** `generateInitialPopulation(populationSize)`: one generated bag per
      slot (none for a negative size); it throws when any generation does. */
  function InitialPopulation(prob: KnapsackProblem, populationSize: int, draws: nat -> nat -> nat): (r: Result<seq<Knapsack>>)
    ensures r.Failure? <==> (exists i :: 0 <= i < populationSize &&
                                RandomUtil.RandomKnapsack(prob.maxWeight, prob.itemsToPut, draws(i)).Failure?)
    ensures r.Success? ==> |r.value| == (if populationSize < 0 then 0 else populationSize)
    ensures r.Success? ==> forall k :: k in r.value ==>
      k.maxWeight == prob.maxWeight && forall y :: y in k.items ==> y in prob.itemsToPut
  {
    var n := if populationSize < 0 then 0 else populationSize;
    var gens := seq(n, i requires 0 <= i < n => RandomUtil.RandomKnapsack(prob.maxWeight, prob.itemsToPut, draws(i)));
    assert forall i :: 0 <= i < n ==> gens[i] == RandomUtil.RandomKnapsack(prob.maxWeight, prob.itemsToPut, draws(i));
    Collect(gens)
  }

  /** `solve(populationSize, generationLimit, rate, ratio)`: generate the
      population, run the loop, return the first bag; an empty population
      throws on `get(0)`, and a loop that runs needs a non-empty window. */
  function Solve(prob: KnapsackProblem, populationSize: int, generationLimit: int, sampleBound: int,
                 initialDraws: nat -> nat -> nat,
                 draws: nat -> nat -> G.Pick<nat -> nat, nat -> Option<nat>>): (r: Result<Knapsack>)
    requires populationSize > 0
    requires generationLimit > 0 ==> 0 < sampleBound <= populationSize
    ensures r.Failure? <==> InitialPopulation(prob, populationSize, initialDraws).Failure?
    ensures r.Success? ==>
      var final := G.Optimize(InitialPopulation(prob, populationSize, initialDraws).value, generationLimit, sampleBound, draws, AsProblem(prob));
      && r.value in final
      && (generationLimit > 0 ==> forall k :: k in final ==> Fitness(k) <= Fitness(r.value))
  {
    var population := InitialPopulation(prob, populationSize, initialDraws);
    if population.Failure? then Failure(population.error)
    else
      var final := G.Optimize(population.value, generationLimit, sampleBound, draws, AsProblem(prob));
      assert generationLimit > 0 ==> forall k :: k in final ==> Fitness(k) <= Fitness(final[0]) by {
        if generationLimit > 0 {
          HeadIsLeast(final, AsProblem(prob).fitness);
        }
      }
      Success(final[0])
  }

  /** A bag the problem can produce: well formed, of the problem's capacity,
      holding pool items only. */
  predicate Fits(prob: KnapsackProblem, k: Knapsack)
  {
    Valid(k) && k.maxWeight == prob.maxWeight && forall y :: y in k.items ==> y in prob.itemsToPut
  }

  /** Crossover and mutation keep a bag fitting the problem when the
      capacity and the pool weights are not negative. */
  lemma OperatorsKeepFit(prob: KnapsackProblem)
    requires prob.maxWeight >= 0 && NonNegativeWeights(prob.itemsToPut)
    ensures forall a, b, c :: Fits(prob, a) && Fits(prob, b) ==> Fits(prob, Crossover(prob, a, b, c))
    ensures forall k, m :: Fits(prob, k) ==> Fits(prob, Mutate(prob, k, m))
  {
    forall a, b, c | Fits(prob, a) && Fits(prob, b)
      ensures Fits(prob, Crossover(prob, a, b, c))
    {
      var offers := Offers(Union(a.items, b.items), c, 0);
      assert NonNegativeWeights(offers) by {
        forall i | 0 <= i < |offers|
          ensures offers[i].weight >= 0
        {
          assert offers[i] in offers;
        }
      }
      PutAllKeepsValid(Empty(prob.maxWeight), offers);
    }
    forall k, m | Fits(prob, k)
      ensures Fits(prob, Mutate(prob, k, m))
    {
      MutateKeepsValid(prob.itemsToPut, k, m, 0);
    }
  }

  /** Under a capacity and pool weights that are not negative, every bag of
      the final population — the one `solve` returns among them — is well
      formed, within the capacity and made of pool items. */
  lemma SolveRespectsCapacity(prob: KnapsackProblem, populationSize: int, generationLimit: int, sampleBound: int,
                              initialDraws: nat -> nat -> nat,
                              draws: nat -> nat -> G.Pick<nat -> nat, nat -> Option<nat>>)
    requires populationSize > 0
    requires generationLimit > 0 ==> 0 < sampleBound <= populationSize
    requires prob.maxWeight >= 0 && NonNegativeWeights(prob.itemsToPut)
    ensures var r := Solve(prob, populationSize, generationLimit, sampleBound, initialDraws, draws);
            r.Success? ==> Fits(prob, r.value) && Weight(r.value.items) <= prob.maxWeight
  {
    var population := InitialPopulation(prob, populationSize, initialDraws);
    if population.Success? {
      forall k | k in population.value
        ensures Fits(prob, k)
      {
        var i :| 0 <= i < |population.value| && population.value[i] == k;
        RandomUtil.RandomKnapsackValid(prob.maxWeight, prob.itemsToPut, initialDraws(i));
      }
      var g := AsProblem(prob);
      OperatorsKeepFit(prob);
      G.OptimizePreserves(population.value, generationLimit, sampleBound, draws, g, k => Fits(prob, k));
    }
  }
}
