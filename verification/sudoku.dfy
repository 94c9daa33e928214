/** `SudokuProblem`: 9×9 grids bred towards a solution, with the clue cells
    ("static" cells) of the puzzle fixed.

    The `SudokuBoard` class is not part of this model.  What the core relies on
    is modelled as an assumption: a board is a 9×9 grid of integers (0 for an
    empty cell) and a set of static coordinates; `get(i, j)` and
    `getBoard()[i][j]` read the grid, `set` writes one cell, `isStatic(i, j)`
    is membership in the static set, `clone()` copies grid and static set,
    and the constructor takes a grid and a static set. */
module Sudoku {
  import opened Wrappers
  import opened Counting
  import opened Sorting
  import G = GeneticOptimizer

  /** `SudokuBoard.SIZE`. */
  const Size := 9

  predicate IsGrid(g: seq<seq<int>>)
  {
    |g| == Size && forall i :: 0 <= i < Size ==> |g[i]| == Size
  }

  type Grid = g: seq<seq<int>> | IsGrid(g) witness seq(9, _ => seq(9, _ => 0))

  datatype Board = Board(grid: Grid, statics: set<(int, int)>)

  predicate InRange(i: int, j: int)
  {
    0 <= i < Size && 0 <= j < Size
  }

  /** The grid whose cell `(i, j)` is `f(i, j)`, as the nested loops fill a
      fresh `int[9][9]`. */
  function MakeGrid(f: (int, int) -> int): (g: Grid)
    ensures forall i, j :: InRange(i, j) ==> g[i][j] == f(i, j)
  {
    var g := seq(Size, i requires 0 <= i < Size => seq(Size, j requires 0 <= j < Size => f(i, j)));
    assert forall i :: 0 <= i < Size ==> g[i] == seq(Size, j requires 0 <= j < Size => f(i, j));
    g
  }

  /** `generateIndividualFromParents(parentA, parentB)` with the split draws
      `split` (row, then column, each read modulo 9): the quadrant up to and
      including the split row and column comes from the first parent, every
      other cell from the second; the static set is the first parent's. */
  function Crossover(a: Board, b: Board, split: (nat, nat)): (child: Board)
    ensures child.statics == a.statics
    ensures forall i, j :: InRange(i, j) ==>
      child.grid[i][j] == if i <= split.0 % Size && j <= split.1 % Size then a.grid[i][j] else b.grid[i][j]
  {
    var splitRow := split.0 % Size;
    var splitCol := split.1 % Size;
    Board(MakeGrid((i, j) => if InRange(i, j) && i <= splitRow && j <= splitCol then a.grid[i][j]
                             else if InRange(i, j) then b.grid[i][j] else 0),
          a.statics)
  }

  /** Crossing a board with itself gives it back. */
  lemma CrossoverSelf(a: Board, split: (nat, nat))
    ensures Crossover(a, a, split) == a
  {
    var c := Crossover(a, a, split);
    forall i | 0 <= i < Size
      ensures c.grid[i] == a.grid[i]
    {
    }
  }

  /** `mutate(individual, rate)` with the draws `mask`: a static cell is
      skipped; another cell whose draw fires (`Some(d)`) receives
      `nextInt(9) + 1` for `d`, and keeps its value otherwise. */
  function Mutate(board: Board, mask: (int, int) -> Option<nat>): (r: Board)
    ensures r.statics == board.statics
    ensures forall i, j :: InRange(i, j) && (i, j) in board.statics ==> r.grid[i][j] == board.grid[i][j]
    ensures forall i, j :: InRange(i, j) && (i, j) !in board.statics && mask(i, j).None? ==>
      r.grid[i][j] == board.grid[i][j]
    ensures forall i, j :: InRange(i, j) && (i, j) !in board.statics && mask(i, j).Some? ==>
      1 <= r.grid[i][j] <= Size
  {
    Board(MakeGrid((i, j) =>
            if !InRange(i, j) then 0
            else if (i, j) in board.statics then board.grid[i][j]
            else match mask(i, j)
              case None => board.grid[i][j]
              case Some(d) => d % Size + 1),
          board.statics)
  }

  /** When no draw fires the board comes back unchanged. */
  lemma MutateQuiet(board: Board, mask: (int, int) -> Option<nat>)
    requires forall i, j :: InRange(i, j) ==> mask(i, j).None?
    ensures Mutate(board, mask) == board
  {
    var r := Mutate(board, mask);
    forall i | 0 <= i < Size
      ensures r.grid[i] == board.grid[i]
    {
    }
  }

  /** The value of cell `(r, c)` occurs at `(i, j)` too. */
  function Mate(g: Grid, r: int, c: int, i: int, j: int): bool
  {
    InRange(r, c) && InRange(i, j) && g[i][j] == g[r][c]
  }

  function ColumnMate(g: Grid, r: int, c: int): int -> bool
  {
    i => i != r && Mate(g, r, c, i, c)
  }

  function RowMate(g: Grid, r: int, c: int): int -> bool
  {
    j => j != c && Mate(g, r, c, r, j)
  }

  function BoxRowMate(g: Grid, r: int, c: int, i: int): int -> bool
  {
    j => !(i == r && j == c) && Mate(g, r, c, i, j)
  }

  /** The first row and column of the 3×3 box of `(r, c)`. */
  function BoxOrigin(x: int): int
  {
    (x / 3) * 3
  }

  function BoxMatesInRow(g: Grid, r: int, c: int): int -> nat
  {
    i => Count(BoxOrigin(c), BoxOrigin(c) + 3, BoxRowMate(g, r, c, i))
  }

  /** The conflicts `fitness` adds for the cell `(r, c)`: the other cells of
      its column, of its row and of its box holding the same value. */
  function CellConflicts(g: Grid, r: int, c: int): nat
  {
    Count(0, Size, ColumnMate(g, r, c)) + Count(0, Size, RowMate(g, r, c))
      + Sum(BoxOrigin(r), BoxOrigin(r) + 3, BoxMatesInRow(g, r, c))
  }

  /** The column loop of `fitness` for row `r` from column `c` on: it stops at
      the first empty cell (`break`), so the cells after it are not scored. */
  function RowScore(g: Grid, r: int, c: nat): nat
    requires 0 <= r < Size
    decreases Size - c
  {
    if c >= Size then 0
    else if g[r][c] == 0 then 0
    else CellConflicts(g, r, c) + RowScore(g, r, c + 1)
  }

  function RowScores(g: Grid): int -> nat
  {
    r => if 0 <= r < Size then RowScore(g, r, 0) else 0
  }

  /** `fitness(individual)`: the conflicts of every row. */
  function Fitness(board: Board): nat
  {
    Sum(0, Size, RowScores(board.grid))
  }

  function CellConflictsOf(g: Grid, r: int): int -> nat
  {
    c => CellConflicts(g, r, c)
  }

  /** The column at which the loop over row `r` stops when it starts at `c`:
      the first empty cell from `c` on, or 9 when there is none. */
  function FirstEmpty(g: Grid, r: int, c: nat): (z: nat)
    requires 0 <= r < Size && c <= Size
    ensures c <= z <= Size
    ensures forall k :: c <= k < z ==> g[r][k] != 0
    ensures z < Size ==> g[r][z] == 0
    decreases Size - c
  {
    if c == Size || g[r][c] == 0 then c else FirstEmpty(g, r, c + 1)
  }

  /** A row's score is the sum of the conflicts of its cells before its first
      empty cell; the cells after it are not scored. */
  lemma {:induction false} RowScoreUpToFirstEmpty(g: Grid, r: int, c: nat)
    requires 0 <= r < Size && c <= Size
    ensures RowScore(g, r, c) == Sum(c, FirstEmpty(g, r, c), CellConflictsOf(g, r))
    decreases Size - c
  {
    if c < Size && g[r][c] != 0 {
      RowScoreUpToFirstEmpty(g, r, c + 1);
    }
  }

  /** A board whose first column is empty scores 0 whatever the rest holds;
      in particular the empty board does. */
  lemma FirstColumnEmptyScoresZero(board: Board)
    requires forall r :: 0 <= r < Size ==> board.grid[r][0] == 0
    ensures Fitness(board) == 0
  {
    SumZero(0, Size, RowScores(board.grid));
  }

  /** The `break` hides repeated values: two equal clues in the first row
      behind an empty first cell, on an otherwise empty board, score 0. */
  lemma BreakHidesRepeats()
    ensures var g := MakeGrid((i, j) => if i == 0 && (j == 1 || j == 2) then 5 else 0);
            g[0][1] == g[0][2] != 0 && Fitness(Board(g, {})) == 0
  {
    var g := MakeGrid((i, j) => if i == 0 && (j == 1 || j == 2) then 5 else 0);
    FirstColumnEmptyScoresZero(Board(g, {}));
  }

  /** No other cell of the column, row or box of `(r, c)` holds its value. */
  ghost predicate Unique(g: Grid, r: int, c: int)
    requires InRange(r, c)
  {
    && (forall i :: 0 <= i < Size && i != r ==> g[i][c] != g[r][c])
    && (forall j :: 0 <= j < Size && j != c ==> g[r][j] != g[r][c])
    && (forall i, j :: InRange(i, j) && i / 3 == r / 3 && j / 3 == c / 3 && (i, j) != (r, c) ==> g[i][j] != g[r][c])
  }

  /** A solved grid: no row, column or 3×3 box holds a value twice. */
  ghost predicate Solved(g: Grid)
  {
    && (forall r, c1, c2 :: 0 <= r < Size && 0 <= c1 < c2 < Size ==> g[r][c1] != g[r][c2])
    && (forall c, r1, r2 :: 0 <= c < Size && 0 <= r1 < r2 < Size ==> g[r1][c] != g[r2][c])
    && (forall r1, c1, r2, c2 ::
          (InRange(r1, c1) && InRange(r2, c2) && (r1, c1) != (r2, c2) && r1 / 3 == r2 / 3 && c1 / 3 == c2 / 3)
          ==> g[r1][c1] != g[r2][c2])
  }

  /** Every cell holds a value, none is empty. */
  ghost predicate Filled(g: Grid)
  {
    forall i, j :: InRange(i, j) ==> g[i][j] != 0
  }

  /** The box loops run over exactly the cells of the box. */
  lemma BoxOriginRange(x: int, y: int)
    requires 0 <= x < Size && 0 <= y < Size
    ensures BoxOrigin(x) <= y < BoxOrigin(x) + 3 <==> y / 3 == x / 3
    ensures 0 <= BoxOrigin(x) && BoxOrigin(x) + 3 <= Size
  {
  }

  /** The box loops find no mate exactly when no other cell of the box holds
      the value. */
  lemma BoxMatesZero(g: Grid, r: int, c: int)
    requires InRange(r, c)
    ensures Sum(BoxOrigin(r), BoxOrigin(r) + 3, BoxMatesInRow(g, r, c)) == 0 <==>
      forall i, j :: InRange(i, j) && i / 3 == r / 3 && j / 3 == c / 3 && (i, j) != (r, c) ==> g[i][j] != g[r][c]
  {
    var lo := BoxOrigin(r);
    var col := BoxOrigin(c);
    BoxOriginRange(r, r);
    BoxOriginRange(c, c);
    SumZero(lo, lo + 3, BoxMatesInRow(g, r, c));
    forall i | lo <= i < lo + 3
      ensures BoxMatesInRow(g, r, c)(i) == 0 <==> forall j :: col <= j < col + 3 ==> !BoxRowMate(g, r, c, i)(j)
    {
      CountZero(col, col + 3, BoxRowMate(g, r, c, i));
    }
    if forall i, j :: InRange(i, j) && i / 3 == r / 3 && j / 3 == c / 3 && (i, j) != (r, c) ==> g[i][j] != g[r][c] {
      forall i, j | lo <= i < lo + 3 && col <= j < col + 3
        ensures !BoxRowMate(g, r, c, i)(j)
      {
        BoxOriginRange(r, i);
        BoxOriginRange(c, j);
      }
    }
    if Sum(lo, lo + 3, BoxMatesInRow(g, r, c)) == 0 {
      forall i, j | InRange(i, j) && i / 3 == r / 3 && j / 3 == c / 3 && (i, j) != (r, c)
        ensures g[i][j] != g[r][c]
      {
        BoxOriginRange(r, i);
        BoxOriginRange(c, j);
        assert !BoxRowMate(g, r, c, i)(j);
      }
    }
  }

  /** The column loop finds no mate exactly when no other cell of the
      column holds the value. */
  lemma ColumnMatesZero(g: Grid, r: int, c: int)
    requires InRange(r, c)
    ensures Count(0, Size, ColumnMate(g, r, c)) == 0 <==> forall i :: 0 <= i < Size && i != r ==> g[i][c] != g[r][c]
  {
    CountZero(0, Size, ColumnMate(g, r, c));
    assert forall i :: 0 <= i < Size ==> (ColumnMate(g, r, c)(i) <==> i != r && g[i][c] == g[r][c]);
  }

  /** The row loop finds no mate exactly when no other cell of the row holds
      the value. */
  lemma RowMatesZero(g: Grid, r: int, c: int)
    requires InRange(r, c)
    ensures Count(0, Size, RowMate(g, r, c)) == 0 <==> forall j :: 0 <= j < Size && j != c ==> g[r][j] != g[r][c]
  {
    CountZero(0, Size, RowMate(g, r, c));
    assert forall j :: 0 <= j < Size ==> (RowMate(g, r, c)(j) <==> j != c && g[r][j] == g[r][c]);
  }

  /** A cell adds no conflict exactly when its value is unique in its
      column, row and box. */
  lemma CellConflictsZero(g: Grid, r: int, c: int)
    requires InRange(r, c)
    ensures CellConflicts(g, r, c) == 0 <==> Unique(g, r, c)
  {
    ColumnMatesZero(g, r, c);
    RowMatesZero(g, r, c);
    BoxMatesZero(g, r, c);
  }

  /** A grid is solved exactly when every cell is unique in its column, row
      and box. */
  lemma SolvedIffAllUnique(g: Grid)
    ensures Solved(g) <==> forall r :: 0 <= r < Size ==> RowUnique(g, r)
  {
    if forall r :: 0 <= r < Size ==> RowUnique(g, r) {
      forall r, c1, c2 | 0 <= r < Size && 0 <= c1 < c2 < Size
        ensures g[r][c1] != g[r][c2]
      {
        assert RowUnique(g, r);
        assert Unique(g, r, c1);
      }
      forall c, r1, r2 | 0 <= c < Size && 0 <= r1 < r2 < Size
        ensures g[r1][c] != g[r2][c]
      {
        assert RowUnique(g, r1);
        assert Unique(g, r1, c);
      }
      forall r1, c1, r2, c2 | InRange(r1, c1) && InRange(r2, c2) && (r1, c1) != (r2, c2) &&
          r1 / 3 == r2 / 3 && c1 / 3 == c2 / 3
        ensures g[r1][c1] != g[r2][c2]
      {
        assert RowUnique(g, r1);
        assert Unique(g, r1, c1);
      }
    }
  }

  /** On a filled grid the fitness is 0 exactly when the grid is solved. */
  lemma FitnessZeroIffSolved(board: Board)
    requires Filled(board.grid)
    ensures Fitness(board) == 0 <==> Solved(board.grid)
  {
    var g := board.grid;
    SumZero(0, Size, RowScores(g));
    forall r | 0 <= r < Size
      ensures RowScores(g)(r) == 0 <==> RowUnique(g, r)
    {
      RowScoreZero(g, r);
    }
    assert Fitness(board) == 0 <==> forall r :: 0 <= r < Size ==> RowUnique(g, r);
    SolvedIffAllUnique(g);
  }

  /** Every cell of row `r` is unique in its column, row and box. */
  ghost predicate RowUnique(g: Grid, r: int)
    requires 0 <= r < Size
  {
    forall c :: 0 <= c < Size ==> Unique(g, r, c)
  }

  /** A row without empty cells scores 0 exactly when each of its cells is
      unique in its column, row and box. */
  lemma RowScoreZero(g: Grid, r: int)
    requires 0 <= r < Size
    requires forall c :: 0 <= c < Size ==> g[r][c] != 0
    ensures RowScore(g, r, 0) == 0 <==> RowUnique(g, r)
  {
    RowScoreUpToFirstEmpty(g, r, 0);
    SumZero(0, Size, CellConflictsOf(g, r));
    forall c | 0 <= c < Size
      ensures CellConflictsOf(g, r)(c) == 0 <==> Unique(g, r, c)
    {
      CellConflictsZero(g, r, c);
    }
  }

  /** `b` carries the clues of `seed`: the same static set, and the seed's
      value in every static cell. */
  ghost predicate KeepsClues(seed: Board, b: Board)
  {
    b.statics == seed.statics &&
    forall i, j :: InRange(i, j) && (i, j) in seed.statics ==> b.grid[i][j] == seed.grid[i][j]
  }

  /** `generatePopulationFromIndividual(populationSize, individual)`: the
      mutation at rate 1 of the seed per slot; `nextDouble() <= 1` always
      holds, so every non-static cell of member `k` receives the value drawn
      by `values(k)`. */
  function GeneratePopulation(populationSize: int, seed: Board, values: nat -> (int, int) -> nat): (p: seq<Board>)
    ensures |p| == if populationSize < 0 then 0 else populationSize
    ensures forall k :: 0 <= k < |p| ==> KeepsClues(seed, p[k])
    ensures forall k, i, j :: 0 <= k < |p| && InRange(i, j) && (i, j) !in seed.statics ==> 1 <= p[k].grid[i][j] <= Size
  {
    var n := if populationSize < 0 then 0 else populationSize;
    var p := seq(n, k requires 0 <= k < n => Mutate(seed, (i, j) => Some(values(k)(i, j))));
    assert forall k :: 0 <= k < n ==> p[k] == Mutate(seed, (i, j) => Some(values(k)(i, j)));
    p
  }

  /** The problem plugged into the generational loop. */
  function AsProblem(): (g: G.Problem<Board, (nat, nat), (int, int) -> Option<nat>>)
    ensures forall a, b, s :: g.crossover(a, b, s) == Crossover(a, b, s)
    ensures forall x, m :: g.mutate(x, m) == Mutate(x, m)
    ensures forall x :: g.fitness(x) == Fitness(x)
    ensures forall x: Board :: Filled(x.grid) ==> (g.fitness(x) == 0 <==> Solved(x.grid))
    ensures forall p: seq<Board> :: |p| > 0 && SortedBy(p, g.fitness) ==> forall x :: x in p ==> Fitness(p[0]) <= Fitness(x)
  {
    var g := G.Problem((a, b, s) => Crossover(a, b, s), (x, m) => Mutate(x, m), x => Fitness(x));
    assert forall x: Board :: Filled(x.grid) ==> (g.fitness(x) == 0 <==> Solved(x.grid)) by {
      forall x: Board | Filled(x.grid)
        ensures g.fitness(x) == 0 <==> Solved(x.grid)
      {
        FitnessZeroIffSolved(x);
      }
    }
    assert forall p: seq<Board> :: |p| > 0 && SortedBy(p, g.fitness) ==> forall x :: x in p ==> Fitness(p[0]) <= Fitness(x) by {
      forall p: seq<Board> | |p| > 0 && SortedBy(p, g.fitness)
        ensures forall x :: x in p ==> Fitness(p[0]) <= Fitness(x)
      {
        HeadIsLeast(p, g.fitness);
      }
    }
    g
  }

  /** Crossover and mutation keep the clues of the puzzle. */
  lemma OperatorsKeepClues(seed: Board)
    ensures forall a, b, s :: KeepsClues(seed, a) && KeepsClues(seed, b) ==> KeepsClues(seed, Crossover(a, b, s))
    ensures forall x, m :: KeepsClues(seed, x) ==> KeepsClues(seed, Mutate(x, m))
  {
  }

  /** `optimize` on a population generated from a puzzle returns boards that
      all carry the puzzle's clues. */
  lemma OptimizeKeepsClues(seed: Board, population: seq<Board>, generationLimit: int, sampleBound: int,
                           draws: nat -> nat -> G.Pick<(nat, nat), (int, int) -> Option<nat>>)
    requires generationLimit > 0 ==> G.WindowFits(population, sampleBound)
    requires forall b :: b in population ==> KeepsClues(seed, b)
    ensures forall b :: b in G.Optimize(population, generationLimit, sampleBound, draws, AsProblem()) ==> KeepsClues(seed, b)
  {
    OperatorsKeepClues(seed);
    G.OptimizePreserves(population, generationLimit, sampleBound, draws, AsProblem(), b => KeepsClues(seed, b));
  }
}

