/** The N-Queens board of the `geneticoptimization` package.

    Its representation, `get`, `set`, copy constructor and `equals` are those
    of the `evolution` board and are reused from `EvolutionNQueensBoard`.  Its
    conflict count differs: the inner loop starts at `nextQueen = currentQueen`,
    so every queen but the last is compared with itself and counts once more.
    `SelfMatchOffset` states the exact difference. */
module NQueensBoard {
  import opened Counting
  import E = EvolutionNQueensBoard

  /** `generateRandomBoard(n)`: a fresh `int[n]` whose column `c` receives
      `nextInt(n)`, given as the draw `draws(c)` read modulo `n`. */
  function RandomBoard(n: nat, draws: nat -> nat): (b: E.Board)
    ensures |b.columns| == n
    ensures forall c :: 0 <= c < n ==> 0 <= E.Get(b, c) < n
    ensures forall c :: 0 <= c < n ==> E.Get(b, c) == draws(c) % n
  {
    E.Randomize(E.New(n), draws)
  }

  /** Queen `j` attacks queen `i`: same row, or same diagonal.  For `j == i`
      both hold. */
  function Attacks(b: E.Board, i: int): int -> bool
  {
    j => 0 <= i < |b.columns| && 0 <= j < |b.columns| &&
      (b.columns[i] == b.columns[j] || Abs(b.columns[j] - b.columns[i]) == Abs(j - i))
  }

  /** The inner loop for `currentQueen = i`, over `nextQueen` in `[i, n)`. */
  function QueenConflicts(b: E.Board, i: int): nat
  {
    Count(i, |b.columns|, Attacks(b, i))
  }

  function ConflictsPerQueen(b: E.Board): int -> nat
  {
    i => QueenConflicts(b, i)
  }

  /** `numberOfConflicts()`: the outer loop runs `currentQueen` over
      `[0, n - 1)`. */
  function Conflicts(b: E.Board): nat
  {
    Sum(0, |b.columns| - 1, ConflictsPerQueen(b))
  }

  /** For each queen the self-inclusive inner loop counts one more than the
      pairwise one: the queen itself. */
  lemma QueenCountsItself(b: E.Board, i: int)
    requires 0 <= i < |b.columns|
    ensures QueenConflicts(b, i) == E.QueenConflicts(b, i) + 1
  {
    var n := |b.columns|;
    assert Attacks(b, i)(i);
    CountDisjointUnion(i + 1, n, Attacks(b, i), Slice(E.SameRow(b), i), Slice(E.SameDiagonal(b), i));
  }

  /** The count equals the `evolution` board's pairwise count plus one
      self-match for every queen but the last; hence at least `n - 1`. */
  lemma SelfMatchOffset(b: E.Board)
    ensures Conflicts(b) == E.Conflicts(b) + (if |b.columns| > 0 then |b.columns| - 1 else 0)
    ensures |b.columns| > 0 ==> Conflicts(b) >= |b.columns| - 1
  {
    var n := |b.columns|;
    if n > 0 {
      forall i | 0 <= i < n - 1
        ensures ConflictsPerQueen(b)(i) == E.ConflictsPerQueen(b)(i) + 1
      {
        QueenCountsItself(b, i);
      }
      SumShift(0, n - 1, ConflictsPerQueen(b), E.ConflictsPerQueen(b), 1);
      SumLast(0, n, E.ConflictsPerQueen(b));
      assert E.QueenConflicts(b, n - 1) == 0;
    }
  }

  /** The eight-queens solution scores 7 here, one per self-match. */
  lemma EightQueensSolutionScoresSeven()
    ensures Conflicts(E.Board([0, 4, 7, 5, 2, 6, 1, 3])) == 7
  {
    E.EightQueensSolution();
    SelfMatchOffset(E.Board([0, 4, 7, 5, 2, 6, 1, 3]));
  }
}
