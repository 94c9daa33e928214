# Genetic optimization — a Dafny model of its core

This project models the core of `genetic-optimization`, a small Java library
that solves search problems with a genetic algorithm:

- **The generational loop** (`GeneticOptimizer.optimize`). It breeds one child
  per slot from two parents drawn out of the fittest part of the population.
  It mutates the child, then sorts the new generation by fitness.
- **The problems that plug into it**:
  - knapsack (`KnapsackProblem`, with its own `solve`);
  - string matching (`StringMatchProblem`);
  - sudoku (`SudokuProblem`).
- **The random generators** of `RandomUtil`.
- **The two N-Queens board classes.**
- **The knapsack item** with identity-based equality.

The model is made of pure functions over immutable values:

- Every random draw is an explicit input:
  - `nextInt(bound)` is a natural `d` read as `d % bound`;
  - a "does the mutation fire" test is an `Option<nat>` (`None` means it does not fire);
  - a stream of draws is a function from a position to a draw.
- An exception thrown on a bad argument is a precondition.
- The `IllegalArgumentException` of the knapsack generator is a `Failure`
  result, and it propagates through population generation and `solve`.

| file | module | models |
|---|---|---|
| `wrappers.dfy` | `Wrappers` | `Option`, `Result`, collecting results that may fail |
| `counting.dfy` | `Counting` | counting loops and sums over integer ranges, and their link to set cardinality |
| `sorting.dfy` | `Sorting` | the stable sort by fitness that ends every generation |
| `optimizer.dfy` | `GeneticOptimizer` | `optimize`: selection window, breeding, sorting, the generation loop |
| `knapsack_item.dfy` | `KnapsackItem` | `KnapsackItem`, its `equals`, and list `contains` / `remove` through it |
| `knapsack.dfy` | `Knapsack` | the knapsack container the problem relies on (an assumed interface, see below) |
| `random_util.dfy` | `RandomUtil` | `generateRandomString`, `generateRandomBitString`, `generateRandomNQueensBoard`, `generateRandomKnapsack` |
| `knapsack_problem.dfy` | `KnapsackProblem` | the knapsack problem and its `solve` |
| `string_match.dfy` | `StringMatch` | the string-matching problem |
| `sudoku.dfy` | `Sudoku` | the sudoku problem and the board it relies on (an assumed interface) |
| `evolution_board.dfy` | `EvolutionNQueensBoard` | `com.slethron.evolution.type.NQueensBoard` |
| `nqueens_board.dfy` | `NQueensBoard` | `com.slethron.geneticoptimization.type.NQueensBoard` |

Some classes the core calls are not part of this model:

- `Knapsack`;
- `SudokuBoard`;
- `BitString`;
- `RandomGeneratorUtil`;
- `DeterministicOptimizer`;
- `PopulationGenerator`;
- `SudokuGenerator`.

Where the core needs them, their behaviour is stated as an assumption in the
module's doc comment:

- `Knapsack.put` refuses an item whose identity is already in the bag, or
  whose weight would exceed the capacity, and reports whether it accepted.
- A sudoku board is a 9×9 grid plus a set of static cells.
- `RandomGeneratorUtil.generateRandomString` is taken to be `RandomUtil`'s.

The sources do not agree on package names. `RandomUtil` imports
`geneticoptimization.domain.Knapsack` with a nested `Knapsack.KnapsackItem`.
`KnapsackProblem` uses `geneticoptimization.type.Knapsack`, a top-level
`type.KnapsackItem` and `com.slethron.util.RandomUtil`. The model treats all of
these as one knapsack, one item type and one generator.

When the generation limit is zero or negative, the `for` loop of
`GeneticOptimizer.optimize` (`GeneticOptimizer.java:10`) runs no iteration.
The population is then returned as given and is not sorted.
`GeneticOptimizer.Optimize` states this case.

## Model

The source paths below are relative to the repository root.

| member | source | states |
|---|---|---|
| `GeneticOptimizer.ParentIndex` | src/main/java/com/slethron/geneticoptimization/GeneticOptimizer.java:16-17 | a parent index drawn with `nextInt(sampleBound)` lies inside the selection window `[0, sampleBound)` |
| `GeneticOptimizer.Breed` | src/main/java/com/slethron/geneticoptimization/GeneticOptimizer.java:12-21 | mapping the population yields exactly one child per member |
| `GeneticOptimizer.BreedFromWindow` | src/main/java/com/slethron/geneticoptimization/GeneticOptimizer.java:14-19 | every child is the mutation of a crossover of two parents taken from the first `sampleBound` members |
| `GeneticOptimizer.Generation` | src/main/java/com/slethron/geneticoptimization/GeneticOptimizer.java:11-23 | a generation keeps the population size, is ordered by ascending fitness, is a permutation of the bred children, and holds only offspring of the window |
| `GeneticOptimizer.Optimize` | src/main/java/com/slethron/geneticoptimization/GeneticOptimizer.java:9-27 | the size never changes; a limit of zero or less returns the population as given; otherwise the result is sorted by fitness |
| `GeneticOptimizer.LastGeneration` | src/main/java/com/slethron/geneticoptimization/GeneticOptimizer.java:10-26 | the returned population is a permutation of the children bred from the previous generation, each descending from that generation's window |
| `GeneticOptimizer.OptimizePreserves` | src/main/java/com/slethron/geneticoptimization/GeneticOptimizer.java:9-27 | any property that crossover and mutation preserve holds of every member of the optimized population when it held at the start |
| `GeneticOptimizer.ChildPreserves` | src/main/java/com/slethron/geneticoptimization/GeneticOptimizer.java:15-21 | a child inherits any property that crossover and mutation preserve |
| `Sorting.SortBy` | src/main/java/com/slethron/geneticoptimization/GeneticOptimizer.java:22-23 | the sort returns a permutation of its input ordered by the key |
| `Sorting.Insert` | src/main/java/com/slethron/geneticoptimization/GeneticOptimizer.java:22 | inserting into a sorted list keeps it sorted and adds exactly the new element to its contents |
| `Sorting.HeadIsLeast` | src/main/java/com/slethron/geneticoptimization/problem/KnapsackProblem.java:44-48 | the first element of a sorted list has the least key, so `get(0)` after the reversed sort is the most valuable bag |
| `Wrappers.Collect` | src/main/java/com/slethron/geneticoptimization/problem/KnapsackProblem.java:53-56 | collecting the generated members fails exactly when one generation fails, and otherwise returns their values in order |
| `KnapsackItem.New` | src/main/java/com/slethron/geneticoptimization/type/KnapsackItem.java:11-27 | a new item reads back the weight and value it was built with and carries the drawn identity |
| `KnapsackItem.Equals` | src/main/java/com/slethron/geneticoptimization/type/KnapsackItem.java:30-37 | an item equals itself and never equals an object that is not an item |
| `KnapsackItem.EqualsIgnoresWeightAndValue` | src/main/java/com/slethron/geneticoptimization/type/KnapsackItem.java:30-37 | items with the same identity are equal to each other and to the same objects, whatever their weight and value |
| `KnapsackItem.Remove` | src/main/java/com/slethron/geneticoptimization/problem/KnapsackProblem.java:79 | `list.remove(item)` shortens the list by one exactly when it contains an equal item, leaves it as it was otherwise, and never adds an element |
| `KnapsackItem.RemoveDropsFirst` | src/main/java/com/slethron/geneticoptimization/problem/KnapsackProblem.java:79 | when the list contains an equal item, `list.remove(item)` drops the first element equal to it and keeps the elements before and after it, in order |
| `KnapsackItem.RemoveExact` | src/main/java/com/slethron/geneticoptimization/problem/KnapsackProblem.java:79 | removing a present item from a list without repeated identities removes exactly that item from the multiset of elements |
| `KnapsackItem.RemoveKeepsDistinct` | src/main/java/com/slethron/geneticoptimization/problem/KnapsackProblem.java:79 | removal keeps a list free of repeated identities |
| `KnapsackItem.RemoveDropsId` | src/main/java/com/slethron/geneticoptimization/problem/KnapsackProblem.java:91 | after removing a present item from a list without repeated identities, no element carries its identity |
| `Knapsack.Put` | src/main/java/com/slethron/geneticoptimization/problem/KnapsackProblem.java:78 | `put` accepts exactly an item whose identity is new and that fits the remaining capacity; it appends an accepted item and leaves the bag unchanged otherwise |
| `Knapsack.EmptyValid` | src/main/java/com/slethron/geneticoptimization/problem/KnapsackProblem.java:61 | a fresh bag is well formed exactly when its capacity is not negative |
| `Knapsack.PutKeepsValid` | src/main/java/com/slethron/geneticoptimization/problem/KnapsackProblem.java:78 | `put` of an item with non-negative weight keeps a bag well formed: distinct identities, non-negative weights, within capacity |
| `Knapsack.RemoveKeepsValid` | src/main/java/com/slethron/geneticoptimization/problem/KnapsackProblem.java:91 | `remove` keeps a bag well formed |
| `Knapsack.WeightRemoveExact` | src/main/java/com/slethron/geneticoptimization/problem/KnapsackProblem.java:91 | removing a present item takes exactly its weight off the total |
| `RandomUtil.PrintableChar` | src/main/java/com/slethron/geneticoptimization/util/RandomUtil.java:35 | `nextInt(127 - 32) + 32` always gives a printable ASCII character |
| `RandomUtil.PrintableCharOnto` | src/main/java/com/slethron/geneticoptimization/util/RandomUtil.java:35 | every printable ASCII character can be drawn |
| `RandomUtil.RandomString` | src/main/java/com/slethron/geneticoptimization/util/RandomUtil.java:33-39 | the string has the requested length (none for a negative one) and every character is printable |
| `RandomUtil.RandomStringOnto` | src/main/java/com/slethron/geneticoptimization/util/RandomUtil.java:33-39 | every printable string of a length can be generated |
| `RandomUtil.RandomBitString` | src/main/java/com/slethron/geneticoptimization/util/RandomUtil.java:47-55 | the bit string has the requested length |
| `RandomUtil.RandomBitStringOnto` | src/main/java/com/slethron/geneticoptimization/util/RandomUtil.java:47-55 | every bit string of a length can be generated |
| `RandomUtil.RandomNQueensBoard` | src/main/java/com/slethron/geneticoptimization/util/RandomUtil.java:65-72 | the board has `n` columns, each holding a row in `[0, n)` |
| `RandomUtil.RandomNQueensBoardAgrees` | src/main/java/com/slethron/geneticoptimization/util/RandomUtil.java:65-72 | it builds the same board as `NQueensBoard.generateRandomBoard` from the same draws, and every board with rows in range can be generated |
| `RandomUtil.Offer` | src/main/java/com/slethron/geneticoptimization/util/RandomUtil.java:91-94 | one attempt keeps the capacity; an accepted item is appended and leaves the list; a refused one changes nothing |
| `RandomUtil.Attempts` | src/main/java/com/slethron/geneticoptimization/util/RandomUtil.java:88-95 | the loop makes one attempt per item; the bag ends holding exactly the accepted items in order, and the list shrinks by as many items as were accepted |
| `RandomUtil.AttemptsPartition` | src/main/java/com/slethron/geneticoptimization/util/RandomUtil.java:90-95 | with distinct identities, the items left on the list plus the items accepted make up exactly the starting list, as multisets |
| `RandomUtil.AcceptedWereOffered` | src/main/java/com/slethron/geneticoptimization/util/RandomUtil.java:91-94 | only items that were offered are accepted |
| `RandomUtil.RandomKnapsack` | src/main/java/com/slethron/geneticoptimization/util/RandomUtil.java:87-103 | it throws exactly when every item went in; otherwise the bag has the requested capacity, fewer items than offered, and only offered items |
| `RandomUtil.AttemptsConserve` | src/main/java/com/slethron/geneticoptimization/util/RandomUtil.java:90-95 | weight is conserved between bag and list, the bag stays within capacity, and when everything fits everything goes in |
| `RandomUtil.FailsIffAllFit` | src/main/java/com/slethron/geneticoptimization/util/RandomUtil.java:87-103 | for distinct items of non-negative weight, generation fails exactly when their total weight fits the capacity |
| `RandomUtil.AttemptsKeepValid` | src/main/java/com/slethron/geneticoptimization/util/RandomUtil.java:90-95 | the placement loop keeps the bag well formed |
| `RandomUtil.RandomKnapsackValid` | src/main/java/com/slethron/geneticoptimization/util/RandomUtil.java:87-103 | a generated bag is well formed (that no identity repeats rests on the assumed refusal by `put` of an identity already in the bag) |
| `KnapsackProblem.New` | src/main/java/com/slethron/geneticoptimization/problem/KnapsackProblem.java:18-25 | the pool holds one item per weight, with the value at the same index and the drawn identity |
| `KnapsackProblem.Union` | src/main/java/com/slethron/geneticoptimization/problem/KnapsackProblem.java:62-68 | the list starts with the first parent's items and holds only parents' items |
| `KnapsackProblem.AddMissingContains` | src/main/java/com/slethron/geneticoptimization/problem/KnapsackProblem.java:63-68 | the list contains an item exactly when the start list or the added items did, and gains no repeated identity |
| `KnapsackProblem.UnionSpec` | src/main/java/com/slethron/geneticoptimization/problem/KnapsackProblem.java:62-68 | the union contains exactly what either parent contains, and repeats no identity when the first parent repeats none |
| `KnapsackProblem.Offers` | src/main/java/com/slethron/geneticoptimization/problem/KnapsackProblem.java:70-80 | the offer loop offers as many items as the list holds, all from the list |
| `KnapsackProblem.OffersArePermutation` | src/main/java/com/slethron/geneticoptimization/problem/KnapsackProblem.java:70-80 | for distinct identities every item of the list is offered exactly once |
| `KnapsackProblem.PutAllKeepsValid` | src/main/java/com/slethron/geneticoptimization/problem/KnapsackProblem.java:70-80 | offering items of non-negative weight keeps the child well formed |
| `KnapsackProblem.Crossover` | src/main/java/com/slethron/geneticoptimization/problem/KnapsackProblem.java:60-83 | the child is a bag of the problem's capacity holding only items of the parents |
| `KnapsackProblem.CrossoverOffersUnionOnce` | src/main/java/com/slethron/geneticoptimization/problem/KnapsackProblem.java:60-80 | the crossover offers every item of the union exactly once |
| `KnapsackProblem.MutateFrom` | src/main/java/com/slethron/geneticoptimization/problem/KnapsackProblem.java:88-94 | the walk over the pool keeps the capacity and leaves only items of the bag or the pool |
| `KnapsackProblem.Mutate` | src/main/java/com/slethron/geneticoptimization/problem/KnapsackProblem.java:86-97 | the mutated bag keeps the capacity and holds only items of the individual or the pool |
| `KnapsackProblem.MutateQuiet` | src/main/java/com/slethron/geneticoptimization/problem/KnapsackProblem.java:86-97 | when no draw fires the bag comes back unchanged |
| `KnapsackProblem.MutateKeepsValid` | src/main/java/com/slethron/geneticoptimization/problem/KnapsackProblem.java:86-97 | mutation keeps a bag well formed when no pool weight is negative (that no identity repeats rests on the assumed refusal by `put` of an identity already in the bag) |
| `KnapsackProblem.FitnessOfPut` | src/main/java/com/slethron/geneticoptimization/problem/KnapsackProblem.java:100-102 | an empty bag is worth 0; an accepted item adds exactly its value, a refused one nothing |
| `KnapsackProblem.AsProblem` | src/main/java/com/slethron/geneticoptimization/problem/KnapsackProblem.java:34-44 | `solve` sorts by the reversed value comparator: a population is sorted by the key the loop uses exactly when its bags run from the most valuable to the least |
| `KnapsackProblem.InitialPopulation` | src/main/java/com/slethron/geneticoptimization/problem/KnapsackProblem.java:52-57 | it fails exactly when one generator call fails; otherwise it returns one bag per slot, each of the problem's capacity and made of pool items |
| `KnapsackProblem.Solve` | src/main/java/com/slethron/geneticoptimization/problem/KnapsackProblem.java:28-49 | it fails exactly when the initial population does; the bag returned belongs to the final population and, after at least one generation, is the most valuable one in it |
| `KnapsackProblem.OperatorsKeepFit` | src/main/java/com/slethron/geneticoptimization/problem/KnapsackProblem.java:60-97 | crossover and mutation keep bags well formed, of the problem's capacity and made of pool items |
| `KnapsackProblem.SolveRespectsCapacity` | src/main/java/com/slethron/geneticoptimization/problem/KnapsackProblem.java:28-49 | the bag `solve` returns never exceeds the capacity and holds only pool items, without repeats (the absence of repeats rests on the assumed refusal by `put` of an identity already in the bag) |
| `StringMatch.InitialPopulation` | src/main/java/com/slethron/geneticoptimization/problem/StringMatchProblem.java:21-28 | one string per slot, each of the target's length and printable |
| `StringMatch.Crossover` | src/main/java/com/slethron/geneticoptimization/problem/StringMatchProblem.java:31-43 | the child has the first parent's length, its characters up to and including the split, and the second parent's after it |
| `StringMatch.CrossoverSelf` | src/main/java/com/slethron/geneticoptimization/problem/StringMatchProblem.java:31-43 | crossing a string with itself gives it back |
| `StringMatch.Mutate` | src/main/java/com/slethron/geneticoptimization/problem/StringMatchProblem.java:46-58 | the length is kept; an unfired position is unchanged and a fired one becomes printable |
| `StringMatch.MutateKeeps` | src/main/java/com/slethron/geneticoptimization/problem/StringMatchProblem.java:46-58 | with no draw firing the string is unchanged, and a printable string stays printable |
| `StringMatch.DistanceZero` | src/main/java/com/slethron/geneticoptimization/problem/StringMatchProblem.java:63-65 | the summed distance from a position on is zero exactly when the strings agree from there on |
| `StringMatch.FitnessZeroIffMatch` | src/main/java/com/slethron/geneticoptimization/problem/StringMatchProblem.java:61-68 | the fitness is zero exactly when the individual is a prefix of the target; for equal lengths, exactly when it is the target |
| `StringMatch.OperatorsKeepLength` | src/main/java/com/slethron/geneticoptimization/problem/StringMatchProblem.java:31-58 | strings of the target's length can always be crossed and stay of that length through crossover and mutation |
| `Sudoku.MakeGrid` | src/main/java/com/slethron/geneticoptimization/problem/SudokuProblem.java:24-33 | the nested loops fill cell `(i, j)` with the value given for it |
| `Sudoku.Crossover` | src/main/java/com/slethron/geneticoptimization/problem/SudokuProblem.java:21-36 | the upper-left quadrant through the split comes from the first parent, every other cell from the second, and the static cells are the first parent's |
| `Sudoku.CrossoverSelf` | src/main/java/com/slethron/geneticoptimization/problem/SudokuProblem.java:21-36 | crossing a board with itself gives it back |
| `Sudoku.Mutate` | src/main/java/com/slethron/geneticoptimization/problem/SudokuProblem.java:39-54 | static cells are never changed; an unfired cell keeps its value; a fired non-static cell receives a value in `[1, 9]` |
| `Sudoku.MutateQuiet` | src/main/java/com/slethron/geneticoptimization/problem/SudokuProblem.java:39-54 | when no draw fires the board comes back unchanged |
| `Sudoku.FirstEmpty` | src/main/java/com/slethron/geneticoptimization/problem/SudokuProblem.java:60-63 | the column loop of a row stops at the first empty cell from its start on: every cell before it holds a value, and it is empty unless it is past the last column |
| `Sudoku.RowScoreUpToFirstEmpty` | src/main/java/com/slethron/geneticoptimization/problem/SudokuProblem.java:60-84 | a row scores the conflicts of its cells before its first empty cell and nothing after it |
| `Sudoku.FirstColumnEmptyScoresZero` | src/main/java/com/slethron/geneticoptimization/problem/SudokuProblem.java:57-88 | a board whose first column is empty scores 0 whatever else it holds |
| `Sudoku.BreakHidesRepeats` | src/main/java/com/slethron/geneticoptimization/problem/SudokuProblem.java:61-63 | a board with two equal values in one row still scores 0 when the row starts with an empty cell |
| `Sudoku.BoxOriginRange` | src/main/java/com/slethron/geneticoptimization/problem/SudokuProblem.java:74-78 | the box loops run over exactly the cells in the same 3×3 box, inside the grid |
| `Sudoku.CellConflictsZero` | src/main/java/com/slethron/geneticoptimization/problem/SudokuProblem.java:65-83 | a cell adds no conflict exactly when no other cell of its column, row or box holds its value |
| `Sudoku.ColumnMatesZero` | src/main/java/com/slethron/geneticoptimization/problem/SudokuProblem.java:65-68 | the column test finds nothing exactly when the value is unique in its column |
| `Sudoku.RowMatesZero` | src/main/java/com/slethron/geneticoptimization/problem/SudokuProblem.java:65-72 | the row test finds nothing exactly when the value is unique in its row |
| `Sudoku.BoxMatesZero` | src/main/java/com/slethron/geneticoptimization/problem/SudokuProblem.java:74-83 | the box loops find nothing exactly when the value is unique in its box |
| `Sudoku.SolvedIffAllUnique` | src/main/java/com/slethron/geneticoptimization/problem/SudokuProblem.java:65-83 | a grid is solved exactly when every cell is unique in its column, row and box |
| `Sudoku.RowScoreZero` | src/main/java/com/slethron/geneticoptimization/problem/SudokuProblem.java:60-84 | a row with no empty cell scores 0 exactly when each of its cells is unique |
| `Sudoku.FitnessZeroIffSolved` | src/main/java/com/slethron/geneticoptimization/problem/SudokuProblem.java:57-88 | on a filled grid the fitness is 0 exactly when the grid is a solved sudoku |
| `Sudoku.GeneratePopulation` | src/main/java/com/slethron/geneticoptimization/problem/SudokuProblem.java:90-95 | one board per slot, each keeping the seed's clues and holding a value in `[1, 9]` in every other cell |
| `Sudoku.AsProblem` | src/main/java/com/slethron/geneticoptimization/problem/SudokuProblem.java:21-88 | on a filled board the fitness the loop sorts by is 0 exactly when the board is solved, and the head of a sorted population has the fewest conflicts of all its boards |
| `Sudoku.OperatorsKeepClues` | src/main/java/com/slethron/geneticoptimization/problem/SudokuProblem.java:21-54 | crossover and mutation keep the clue cells and their values of the seed board |
| `Sudoku.OptimizeKeepsClues` | src/main/java/com/slethron/geneticoptimization/problem/SudokuProblem.java:106-107 | every board the optimizer returns keeps the seed's clues |
| `EvolutionNQueensBoard.New` | src/main/java/com/slethron/evolution/type/NQueensBoard.java:9-11 | a new board has `n` columns, all on row 0 |
| `EvolutionNQueensBoard.Copy` | src/main/java/com/slethron/evolution/type/NQueensBoard.java:13-15 | a copy is `equals` to its source |
| `EvolutionNQueensBoard.Set` | src/main/java/com/slethron/evolution/type/NQueensBoard.java:17-23 | `set` changes the row of one column, read back by `get`, and leaves every other column as it was |
| `EvolutionNQueensBoard.Randomize` | src/main/java/com/slethron/evolution/type/NQueensBoard.java:29-35 | the length is kept and every column gets a row in `[0, n)` |
| `EvolutionNQueensBoard.MatchFromIsPointwise` | src/main/java/com/slethron/evolution/type/NQueensBoard.java:69-73 | the comparison loop succeeds exactly when all remaining columns agree |
| `EvolutionNQueensBoard.EqualsIsStructural` | src/main/java/com/slethron/evolution/type/NQueensBoard.java:54-76 | two boards are `equals` exactly when they have the same length and rows; equality is reflexive and symmetric |
| `EvolutionNQueensBoard.ConflictsCountPairs` | src/main/java/com/slethron/evolution/type/NQueensBoard.java:37-51 | the count is the number of row-sharing pairs plus the number of diagonal-sharing pairs, two disjoint sets |
| `EvolutionNQueensBoard.NoConflictsIffNonAttacking` | src/main/java/com/slethron/evolution/type/NQueensBoard.java:37-51 | a board has no conflict exactly when no two queens share a row or a diagonal |
| `EvolutionNQueensBoard.NewBoardConflicts` | src/main/java/com/slethron/evolution/type/NQueensBoard.java:9-11 | the fresh all-zero board has `n(n-1)/2` conflicts |
| `EvolutionNQueensBoard.EightQueensSolution` | src/main/java/com/slethron/evolution/type/NQueensBoard.java:37-51 | `[0, 4, 7, 5, 2, 6, 1, 3]` has no conflict |
| `NQueensBoard.RandomBoard` | src/main/java/com/slethron/geneticoptimization/type/NQueensBoard.java:34-41 | the board has `n` columns, each on the drawn row in `[0, n)` |
| `NQueensBoard.QueenCountsItself` | src/main/java/com/slethron/geneticoptimization/type/NQueensBoard.java:58-64 | the inner loop starting at the current queen counts one more than the pairwise count: the queen itself |
| `NQueensBoard.SelfMatchOffset` | src/main/java/com/slethron/geneticoptimization/type/NQueensBoard.java:56-68 | the count is the pairwise count plus `n - 1` self-matches, so it is never below `n - 1` |
| `NQueensBoard.EightQueensSolutionScoresSeven` | src/main/java/com/slethron/geneticoptimization/type/NQueensBoard.java:56-68 | a conflict-free eight-queens board still scores 7 |

## Left out

- Floating point: the mutation rate and the ratio that gives the selection
  window are doubles. Every "does it fire" test (`nextDouble() <= rate`) is a
  draw that fires or not. `sampleBound` (`Math.rint` / `Math.round` of
  size × ratio) is an integer input.
- Fitness is a `double` in the source and an integer here. Every fitness the
  core computes is an integer sum.
- Parallel streams, `unordered()` and the thread-local random sources. The
  model maps the slots in order. That is equivalent wherever a sort follows.
  Where no sort follows (the initial populations), the order of the result is
  left as the draws give it.
- The sort's stability is not stated. Only "ordered by fitness and a
  permutation" is proved. The source relies on nothing more.
- 32-bit `int` overflow:
  - summed fitness values, weights and values;
  - `Math.abs` of `Integer.MIN_VALUE`.

  All integers are unbounded.
- UTF-16 surrogate pairs: `Character.toChars` of a code in `[32, 127)` is one
  `char`, and strings are sequences of `char`.
- `hashCode`, `toString`, the `main` methods, `NanoTimer` and printing. They
  compute nothing the core uses.
- `NQueensBoard.equals` on the identical reference and on a non-board object.
  Boards are values, so only board-to-board equality is modelled.
  `KnapsackItem.equals` does model the non-item case.
- `new Random().nextInt()` for item identities is an input (`ids`). The model
  does not assume the drawn identities are distinct. The properties that need
  distinct identities require it.
- `KnapsackProblem.getItemsToPut` and the boards' `length()`. They are read
  as fields and sequence lengths.
- The public `NQueensBoard(int[] board)` constructor of the
  `geneticoptimization` board (`type/NQueensBoard.java:18-20`) stores the
  caller's array without copying it, so later writes to that array change the
  board. Boards are values here, so this aliasing is not modelled.
- The `Knapsack`, `SudokuBoard`, `BitString`, `RandomGeneratorUtil`,
  `DeterministicOptimizer`, `PopulationGenerator` and `SudokuGenerator`
  classes are not part of this model. Only the behaviour the core relies on
  is assumed, as stated in the module doc comments.
- The commented-out stream version of `numberOfConflicts` in the
  `geneticoptimization` board. It is dead code.
