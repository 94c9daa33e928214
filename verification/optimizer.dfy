/** The generational loop of `GeneticOptimizer.optimize`.

    A problem supplies crossover, mutation and fitness.  Every random draw the
    loop and the problem make is an explicit input:

    - a parent index `nextInt(sampleBound)` is a natural `d`, read as
      `d % sampleBound` (which ranges over exactly `[0, sampleBound)`);
    - the draws a crossover consumes are a value of the type parameter `C`,
      those a mutation consumes a value of `M`; each problem fixes what they
      are, and the mutation rate lives inside `M` (a "did it fire" per unit).

    The parallel stream of the source maps every slot independently and then
    sorts; since the result is re-sorted, the model maps the slots in order. */
module GeneticOptimizer {
  import opened Sorting

  /** The operations a problem plugs into the loop. */
  datatype Problem<!E, !C, !M> = Problem(
    crossover: (E, E, C) -> E,
    mutate: (E, M) -> E,
    fitness: E -> int)

  /** The draws that produce one slot of the next generation: the two parent
      index draws and the draws of the crossover and of the mutation. */
  datatype Pick<C, M> = Pick(parentA: nat, parentB: nat, crossing: C, mutation: M)

  /** Whether the slot draws of a generation are usable with this window: the
      window is non-empty whenever a parent must be drawn from it. */
  predicate WindowFits<E>(p: seq<E>, sampleBound: int)
  {
    (|p| > 0 ==> 0 < sampleBound) && sampleBound <= |p|
  }

  /** The index `nextInt(sampleBound)` returns for the draw `d`. */
  function ParentIndex(d: nat, sampleBound: int): (i: nat)
    requires 0 < sampleBound
    ensures i < sampleBound
  {
    d % sampleBound
  }

  /** One slot of the next generation: crossover of the two drawn parents,
      then mutation of the child. */
  function Child<E, C, M>(p: seq<E>, pick: Pick<C, M>, sampleBound: int, prob: Problem<E, C, M>): E
    requires 0 < sampleBound <= |p|
  {
    var a := p[ParentIndex(pick.parentA, sampleBound)];
    var b := p[ParentIndex(pick.parentB, sampleBound)];
    prob.mutate(prob.crossover(a, b, pick.crossing), pick.mutation)
  }

  /** The children of one generation, one per slot, before sorting. */
  function Breed<E, C, M>(p: seq<E>, picks: nat -> Pick<C, M>, sampleBound: int, prob: Problem<E, C, M>): (children: seq<E>)
    requires WindowFits(p, sampleBound)
    ensures |children| == |p|
  {
    seq(|p|, k requires 0 <= k < |p| => Child(p, picks(k), sampleBound, prob))
  }

  /** `c` is what some crossover and mutation make of two members of the
      selection window `p[..sampleBound]`. */
  ghost predicate IsOffspring<E, C(!new), M(!new)>(c: E, p: seq<E>, sampleBound: int, prob: Problem<E, C, M>)
    requires sampleBound <= |p|
  {
    exists i, j, x, m :: 0 <= i < sampleBound && 0 <= j < sampleBound &&
      c == prob.mutate(prob.crossover(p[i], p[j], x), m)
  }

  /** Every bred child is the offspring of two parents from the window. */
  lemma BreedFromWindow<E, C(!new), M(!new)>(p: seq<E>, picks: nat -> Pick<C, M>, sampleBound: int, prob: Problem<E, C, M>)
    requires WindowFits(p, sampleBound)
    ensures forall c :: c in Breed(p, picks, sampleBound, prob) ==> IsOffspring(c, p, sampleBound, prob)
  {
    var children := Breed(p, picks, sampleBound, prob);
    forall c | c in children
      ensures IsOffspring(c, p, sampleBound, prob)
    {
      var k :| 0 <= k < |children| && children[k] == c;
      var pick := picks(k);
      var i := ParentIndex(pick.parentA, sampleBound);
      var j := ParentIndex(pick.parentB, sampleBound);
      assert c == prob.mutate(prob.crossover(p[i], p[j], pick.crossing), pick.mutation);
    }
  }

  /** One generation: breed one child per slot, then sort the children by
      ascending fitness. */
  function Generation<E, C(!new), M(!new)>(p: seq<E>, picks: nat -> Pick<C, M>, sampleBound: int, prob: Problem<E, C, M>): (next: seq<E>)
    requires WindowFits(p, sampleBound)
    ensures |next| == |p|
    ensures SortedBy(next, prob.fitness)
    ensures multiset(next) == multiset(Breed(p, picks, sampleBound, prob))
    ensures forall c :: c in next ==> IsOffspring(c, p, sampleBound, prob)
  {
    var children := Breed(p, picks, sampleBound, prob);
    BreedFromWindow(p, picks, sampleBound, prob);
    assert forall c :: c in SortBy(children, prob.fitness) ==> c in multiset(children);
    SortBy(children, prob.fitness)
  }

  /** `optimize(population, generationLimit, ...)`: generation `g` (counting
      from 0) uses the draws `draws(g)`.  The loop runs `generationLimit`
      times; a limit of zero or less leaves the population as given. */
  function Optimize<E, C(!new), M(!new)>(population: seq<E>, generationLimit: int, sampleBound: int,
                             draws: nat -> nat -> Pick<C, M>, prob: Problem<E, C, M>): (r: seq<E>)
    requires generationLimit > 0 ==> WindowFits(population, sampleBound)
    ensures |r| == |population|
    ensures generationLimit <= 0 ==> r == population
    ensures generationLimit > 0 ==> SortedBy(r, prob.fitness)
    decreases generationLimit
  {
    if generationLimit <= 0 then population
    else
      var previous := Optimize(population, generationLimit - 1, sampleBound, draws, prob);
      Generation(previous, draws(generationLimit - 1), sampleBound, prob)
  }

  /** After at least one generation the result is a sorted permutation of the
      children bred from the generation before it, and each of them descends
      from two parents in that generation's selection window. */
  lemma LastGeneration<E, C(!new), M(!new)>(population: seq<E>, generationLimit: int, sampleBound: int,
                                draws: nat -> nat -> Pick<C, M>, prob: Problem<E, C, M>)
    requires generationLimit > 0
    requires WindowFits(population, sampleBound)
    ensures var previous := Optimize(population, generationLimit - 1, sampleBound, draws, prob);
            var r := Optimize(population, generationLimit, sampleBound, draws, prob);
            && |previous| == |population|
            && multiset(r) == multiset(Breed(previous, draws(generationLimit - 1), sampleBound, prob))
            && (forall c :: c in r ==> IsOffspring(c, previous, sampleBound, prob))
  {
  }

  /** A property that crossover and mutation preserve holds of every member
      of the optimized population when it held of every member at the start. */
  lemma {:induction false} OptimizePreserves<E(!new), C(!new), M(!new)>(population: seq<E>, generationLimit: int, sampleBound: int,
                                                      draws: nat -> nat -> Pick<C, M>, prob: Problem<E, C, M>,
                                                      inv: E -> bool)
    requires generationLimit > 0 ==> WindowFits(population, sampleBound)
    requires forall a, b, x :: inv(a) && inv(b) ==> inv(prob.crossover(a, b, x))
    requires forall a, m :: inv(a) ==> inv(prob.mutate(a, m))
    requires forall e :: e in population ==> inv(e)
    ensures forall e :: e in Optimize(population, generationLimit, sampleBound, draws, prob) ==> inv(e)
    decreases generationLimit
  {
    if generationLimit > 0 {
      var previous := Optimize(population, generationLimit - 1, sampleBound, draws, prob);
      OptimizePreserves(population, generationLimit - 1, sampleBound, draws, prob, inv);
      var children := Breed(previous, draws(generationLimit - 1), sampleBound, prob);
      forall c | c in children
        ensures inv(c)
      {
        var k :| 0 <= k < |children| && children[k] == c;
        ChildPreserves(previous, draws(generationLimit - 1)(k), sampleBound, prob, inv);
      }
      var r := Generation(previous, draws(generationLimit - 1), sampleBound, prob);
      assert forall e :: e in r ==> e in multiset(children);
    }
  }

  /** A child keeps a property that crossover and mutation preserve. */
  lemma ChildPreserves<E(!new), C(!new), M(!new)>(p: seq<E>, pick: Pick<C, M>, sampleBound: int,
                                            prob: Problem<E, C, M>, inv: E -> bool)
    requires 0 < sampleBound <= |p|
    requires forall a, b, x :: inv(a) && inv(b) ==> inv(prob.crossover(a, b, x))
    requires forall a, m :: inv(a) ==> inv(prob.mutate(a, m))
    requires forall e :: e in p ==> inv(e)
    ensures inv(Child(p, pick, sampleBound, prob))
  {
    var i := ParentIndex(pick.parentA, sampleBound);
    var j := ParentIndex(pick.parentB, sampleBound);
    assert p[i] in p && p[j] in p;
  }
}
