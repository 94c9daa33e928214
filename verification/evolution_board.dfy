/** The N-Queens board of the `evolution` package.

    A board holds one row per column; the Java class wraps a mutable `int[]`,
    which the model replaces by an immutable sequence, so that `set` returns
    the updated board and the copy constructor has nothing left to share.  The
    board of the `geneticoptimization` package has the same representation,
    accessors, copy constructor and `equals`, and reuses them from here. */
module EvolutionNQueensBoard {
  import opened Counting

  datatype Board = Board(columns: seq<int>)

  /** `new NQueensBoard(n)`: a fresh `int[n]`, all rows zero. */
  function New(n: nat): (b: Board)
    ensures |b.columns| == n
    ensures forall c :: 0 <= c < n ==> Get(b, c) == 0
  {
    Board(seq(n, _ => 0))
  }

  /** `new NQueensBoard(source)`: a copy of the source's rows. */
  function Copy(source: Board): (b: Board)
    ensures Equals(b, source)
  {
    EqualsIsStructural(source, source);
    Board(source.columns)
  }

  /** `get(column)`; an index outside the board throws in the source. */
  function Get(b: Board, column: int): int
    requires 0 <= column < |b.columns|
  {
    b.columns[column]
  }

  /** `set(column, row)` as a point update. */
  function Set(b: Board, column: int, row: int): (r: Board)
    requires 0 <= column < |b.columns|
    ensures |r.columns| == |b.columns|
    ensures Get(r, column) == row
    ensures forall c :: 0 <= c < |b.columns| && c != column ==> Get(r, c) == Get(b, c)
  {
    Board(b.columns[column := row])
  }

  /** `randomize()`: column `c` receives `nextInt(n)`, given as the draw
      `draws(c)` read modulo `n`; the method returns the updated board. */
  function Randomize(b: Board, draws: nat -> nat): (r: Board)
    ensures |r.columns| == |b.columns|
    ensures forall c :: 0 <= c < |r.columns| ==> 0 <= Get(r, c) < |b.columns|
  {
    var n := |b.columns|;
    Board(seq(n, c requires 0 <= c < n => draws(c) % n))
  }

  /** The loop of `equals` from column `i` on, for boards of equal length:
      the first mismatching column answers false. */
  predicate MatchFrom(a: Board, b: Board, i: nat)
    requires |a.columns| == |b.columns|
    decreases |a.columns| - i
  {
    if i >= |a.columns| then true
    else if Get(a, i) != Get(b, i) then false
    else MatchFrom(a, b, i + 1)
  }

  /** `equals` between two boards: lengths first, then column by column. */
  predicate Equals(a: Board, b: Board)
  {
    |a.columns| == |b.columns| && MatchFrom(a, b, 0)
  }

  lemma {:induction false} MatchFromIsPointwise(a: Board, b: Board, i: nat)
    requires |a.columns| == |b.columns|
    ensures MatchFrom(a, b, i) <==> forall c :: i <= c < |a.columns| ==> a.columns[c] == b.columns[c]
    decreases |a.columns| - i
  {
    if i < |a.columns| {
      MatchFromIsPointwise(a, b, i + 1);
    }
  }

  /** `equals` holds exactly when the lengths agree and every column agrees,
      that is, when the boards are the same value; so it is reflexive and
      symmetric. */
  lemma EqualsIsStructural(a: Board, b: Board)
    ensures Equals(a, b) <==> |a.columns| == |b.columns| && forall c :: 0 <= c < |a.columns| ==> a.columns[c] == b.columns[c]
    ensures Equals(a, b) <==> a == b
    ensures Equals(a, a)
    ensures Equals(a, b) <==> Equals(b, a)
  {
    if |a.columns| == |b.columns| {
      MatchFromIsPointwise(a, b, 0);
      MatchFromIsPointwise(b, a, 0);
    }
    if |b.columns| == |a.columns| {
      MatchFromIsPointwise(b, a, 0);
    }
    MatchFromIsPointwise(a, a, 0);
  }

  /** Queens `i` and `j` stand on the same row. */
  function SameRow(b: Board): (int, int) -> bool
  {
    (i, j) => 0 <= i < |b.columns| && 0 <= j < |b.columns| && b.columns[i] == b.columns[j]
  }

  /** Queens `i` and `j` stand on the same diagonal. */
  function SameDiagonal(b: Board): (int, int) -> bool
  {
    (i, j) => 0 <= i < |b.columns| && 0 <= j < |b.columns| &&
      Abs(b.columns[j] - b.columns[i]) == Abs(j - i)
  }

  /** The inner loop of `numberOfConflicts` for the queen in `column`: each
      later queen adds one for a shared row and one for a shared diagonal. */
  function QueenConflicts(b: Board, column: int): nat
  {
    Partners(column, |b.columns|, SameRow(b)) + Partners(column, |b.columns|, SameDiagonal(b))
  }

  function ConflictsPerQueen(b: Board): int -> nat
  {
    column => QueenConflicts(b, column)
  }

  /** `numberOfConflicts()`: the outer loop over every queen. */
  function Conflicts(b: Board): nat
  {
    Sum(0, |b.columns|, ConflictsPerQueen(b))
  }

  /** The pairs of columns `i < j` whose queens share a row. */
  ghost function RowPairs(b: Board): set<(int, int)>
  {
    set i, j | 0 <= i < j < |b.columns| && b.columns[i] == b.columns[j] :: (i, j)
  }

  /** The pairs of columns `i < j` whose queens share a diagonal. */
  ghost function DiagonalPairs(b: Board): set<(int, int)>
  {
    set i, j | 0 <= i < j < |b.columns| && Abs(b.columns[j] - b.columns[i]) == j - i :: (i, j)
  }

  /** The conflict count is the number of row-sharing pairs plus the number of
      diagonal-sharing pairs, and no pair is in both. */
  lemma ConflictsCountPairs(b: Board)
    ensures Conflicts(b) == |RowPairs(b)| + |DiagonalPairs(b)|
    ensures RowPairs(b) !! DiagonalPairs(b)
  {
    var n := |b.columns|;
    SumAdd(0, n, ConflictsPerQueen(b), PartnerCounts(n, SameRow(b)), PartnerCounts(n, SameDiagonal(b)));
    PairCountIsCardinality(0, n, SameRow(b));
    PairCountIsCardinality(0, n, SameDiagonal(b));
    RowPairsAreMatches(b);
    DiagonalPairsAreMatches(b);
  }

  lemma RowPairsAreMatches(b: Board)
    ensures PairMatches(0, |b.columns|, SameRow(b)) == RowPairs(b)
  {
  }

  lemma DiagonalPairsAreMatches(b: Board)
    ensures PairMatches(0, |b.columns|, SameDiagonal(b)) == DiagonalPairs(b)
  {
  }

  /** A board has no conflict exactly when no two queens attack each other. */
  lemma NoConflictsIffNonAttacking(b: Board)
    ensures Conflicts(b) == 0 <==>
      forall i, j :: 0 <= i < j < |b.columns| ==>
        b.columns[i] != b.columns[j] && Abs(b.columns[j] - b.columns[i]) != j - i
  {
    ConflictsCountPairs(b);
    if Conflicts(b) == 0 {
      forall i, j | 0 <= i < j < |b.columns|
        ensures b.columns[i] != b.columns[j] && Abs(b.columns[j] - b.columns[i]) != j - i
      {
        assert (i, j) !in RowPairs(b);
        assert (i, j) !in DiagonalPairs(b);
      }
    }
  }

  /** On the fresh all-zero board every pair of queens shares a row and none
      shares a diagonal, so it has `n(n-1)/2` conflicts. */
  lemma NewBoardConflicts(n: nat)
    ensures 2 * Conflicts(New(n)) == n * (n - 1)
  {
    var b := New(n);
    forall column | 0 <= column < n
      ensures QueenConflicts(b, column) == n - 1 - column
    {
      CountAll(column + 1, n, Slice(SameRow(b), column));
      CountZero(column + 1, n, Slice(SameDiagonal(b), column));
    }
    ZeroBoardSum(n, 0);
  }

  lemma {:induction false} ZeroBoardSum(n: nat, lo: nat)
    requires lo <= n
    requires forall column :: 0 <= column < n ==> QueenConflicts(New(n), column) == n - 1 - column
    ensures 2 * Sum(lo, n, ConflictsPerQueen(New(n))) == (n - lo) * (n - lo - 1)
    decreases n - lo
  {
    if lo < n {
      ZeroBoardSum(n, lo + 1);
      assert (n - lo) * (n - lo - 1) == 2 * (n - 1 - lo) + (n - lo - 1) * (n - lo - 2);
    }
  }

  /** `[0, 4, 7, 5, 2, 6, 1, 3]` solves eight queens. */
  lemma EightQueensSolution()
    ensures Conflicts(Board([0, 4, 7, 5, 2, 6, 1, 3])) == 0
  {
    var b := Board([0, 4, 7, 5, 2, 6, 1, 3]);
    NoConflictsIffNonAttacking(b);
  }
}
