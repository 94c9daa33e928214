/** `StringMatchProblem`: strings bred towards a target string.

    The initial strings come from a string generator that is not part of this
    model; it is taken to be `RandomUtil.generateRandomString`.  A printable
    code in `[32, 127)` is a single `char` both in Java and here, so a
    printable draw is one character of the string. */
module StringMatch {
  import opened Wrappers
  import RandomUtil
  import opened Counting

  /** `generateInitialPopulation(populationSize)`: one random string of the
      target's length per slot, string `i` from the draws `draws(i)`. */
  function InitialPopulation(target: string, populationSize: int, draws: nat -> nat -> nat): (p: seq<string>)
    ensures |p| == if populationSize < 0 then 0 else populationSize
    ensures forall i :: 0 <= i < |p| ==> |p[i]| == |target|
    ensures forall i, j :: 0 <= i < |p| && 0 <= j < |p[i]| ==> RandomUtil.Printable(p[i][j])
  {
    var n := if populationSize < 0 then 0 else populationSize;
    var p := seq(n, i requires 0 <= i < n => RandomUtil.RandomString(|target|, draws(i)));
    assert forall i :: 0 <= i < n ==> p[i] == RandomUtil.RandomString(|target|, draws(i));
    p
  }

  /** The inputs on which `generateIndividualFromParents` does not throw:
      `nextInt(parentA.length())` needs a non-empty first parent, and when
      some position lies past the split the second parent is read up to the
      first parent's length. */
  predicate CrossoverDefined(a: string, b: string, splitDraw: nat)
  {
    |a| > 0 && (splitDraw % |a| < |a| - 1 ==> |a| <= |b|)
  }

  /** `generateIndividualFromParents(parentA, parentB)` with the split draw
      `splitDraw`: positions up to and including the split come from the
      first parent, the rest from the second. */
  function Crossover(a: string, b: string, splitDraw: nat): (child: string)
    requires CrossoverDefined(a, b, splitDraw)
    ensures |child| == |a|
    ensures var split := splitDraw % |a|;
            child[..split + 1] == a[..split + 1] && forall i :: split < i < |a| ==> child[i] == b[i]
  {
    var split := splitDraw % |a|;
    var child := seq(|a|, i requires 0 <= i < |a| => if i <= split then a[i] else b[i]);
    assert child[..split + 1] == a[..split + 1];
    child
  }

  /** Crossing a string with itself gives it back, whatever the split. */
  lemma CrossoverSelf(a: string, splitDraw: nat)
    requires |a| > 0
    ensures Crossover(a, a, splitDraw) == a
  {
    var split := splitDraw % |a|;
    var c := Crossover(a, a, splitDraw);
    assert c == c[..split + 1] + c[split + 1..];
    assert a == a[..split + 1] + a[split + 1..];
  }

  /** `mutate(individual, rate)`: position `i` is replaced by a printable
      character when its draw fires (`Some(d)` gives `nextInt(127 - 32) + 32`
      from `d`) and kept otherwise. */
  function Mutate(s: string, draws: nat -> Option<nat>): (r: string)
    ensures |r| == |s|
    ensures forall i :: 0 <= i < |s| && draws(i).None? ==> r[i] == s[i]
    ensures forall i :: 0 <= i < |s| && draws(i).Some? ==> RandomUtil.Printable(r[i])
  {
    var r := seq(|s|, i requires 0 <= i < |s| =>
      match draws(i)
      case None => s[i]
      case Some(d) => RandomUtil.PrintableChar(d));
    assert forall i :: 0 <= i < |s| ==> r[i] == match draws(i) case None => s[i] case Some(d) => RandomUtil.PrintableChar(d);
    r
  }

  /** Mutation leaves the string as it was when no draw fires, and keeps a
      printable string printable. */
  lemma MutateKeeps(s: string, draws: nat -> Option<nat>)
    ensures (forall i :: 0 <= i < |s| ==> draws(i).None?) ==> Mutate(s, draws) == s
    ensures (forall i :: 0 <= i < |s| ==> RandomUtil.Printable(s[i])) ==>
              forall i :: 0 <= i < |s| ==> RandomUtil.Printable(Mutate(s, draws)[i])
  {
  }

  /** The loop of `fitness` from position `i` on: the sum of the distances
      between the codes of target and individual. */
  function DistanceFrom(target: string, s: string, i: nat): nat
    requires |s| <= |target|
    decreases |s| - i
  {
    if i >= |s| then 0
    else Abs(target[i] as int - s[i] as int) + DistanceFrom(target, s, i + 1)
  }

  /** `fitness(individual)`: reading `target.charAt(i)` for every position
      of the individual throws when the individual is longer. */
  function Fitness(target: string, s: string): (f: nat)
    requires |s| <= |target|
  {
    DistanceFrom(target, s, 0)
  }

  lemma {:induction false} DistanceZero(target: string, s: string, i: nat)
    requires |s| <= |target|
    ensures DistanceFrom(target, s, i) == 0 <==> forall j :: i <= j < |s| ==> s[j] == target[j]
    decreases |s| - i
  {
    if i < |s| {
      DistanceZero(target, s, i + 1);
    }
  }

  /** The fitness is zero exactly when the individual is a prefix of the
      target; for equal lengths, exactly when it is the target. */
  lemma FitnessZeroIffMatch(target: string, s: string)
    requires |s| <= |target|
    ensures Fitness(target, s) == 0 <==> s <= target
    ensures |s| == |target| ==> (Fitness(target, s) == 0 <==> s == target)
  {
    DistanceZero(target, s, 0);
  }

  /** Strings of the target's length stay so under crossover and mutation,
      so every generation can be crossed, mutated and scored again. */
  lemma OperatorsKeepLength(target: string, a: string, b: string, splitDraw: nat, draws: nat -> Option<nat>)
    requires |target| > 0 && |a| == |target| && |b| == |target|
    ensures CrossoverDefined(a, b, splitDraw)
    ensures |Mutate(Crossover(a, b, splitDraw), draws)| == |target|
  {
  }
}
