# Sudoku generator and solver — a verified model

This project models the core of `sudoku.py`, a small program that generates
9x9 Sudoku puzzles with a unique solution and solves them by backtracking.

The grid is a 9x9 `array2<int>` in which 0 marks an empty cell. Specifications
read it through `Board.Cells`, its row-major snapshot of 81 cells. The modules
follow the program's parts:

- `Board` (board.dfy): the placement rule `is_safe`, the predicates on
  snapshots (`Safe`, `Keeps`, `Valid`, `IsCompletion`), and the single-cell
  write through which every algorithm changes an existing grid (the grid copy
  fills its new array directly).
- `Filler` (filler.dfy): the filling phase. `fill_box` and `fill_diagonal`
  seed the three diagonal boxes. `fill_remaining` completes the other cells by
  randomised backtracking in row-major order, including its skip logic over
  the diagonal boxes.
- `SolutionCounter` (counter.dfy): `count_solutions` and its inner `solve`.
  `Count`/`Completions` are a value-level definition of the same exhaustive
  search. The lemmas prove that on a valid grid the count is exactly the number
  of valid completions, so a count of 1 means exactly one solution.
- `Digger` (digger.dfy): `remove_k_digits_unique` and `generate_unique_sudoku`.
  Digits are dug out one at a time. A removal is kept only when the counter,
  run on a copy, reports exactly one solution.
- `Solver` (solver.dfy): `solve_visual`, a first-solution search trying digits
  in ascending order. `First` defines the grid it stops at. The lemmas prove
  that it exists exactly when the count is positive, and that on a valid
  puzzle it is the least valid completion in row-major order.

The program's randomness becomes inputs:

- each `random.sample` permutation of 1..9 is an input sequence: `nums` for
  `fill_box`, `boxes` for `fill_diagonal`, and the stream `draws` (one
  permutation per call) for `fill_remaining`;
- the `random.randint` coordinates of the digger are an input sequence
  `picks`.

The docstring of `count_solutions` says it stops once a second solution is
found. In the code, the `if count[0] > 1: return` test is the last statement of
a leaf call, so it prunes nothing and the count is exact. The model follows
the code (`Count` is the exact number of completions). The program only tests
the count against 1, so its results are the same either way.

## Model

| member | source | states |
|---|---|---|
| `Board.IsSafe` | sudoku.py:8-22 | true exactly when `num` occurs in no cell of the row, the column or the 3x3 box of (row, col) |
| `Board.PlaceKeepsValid` | sudoku.py:8-22 | writing a digit that `is_safe` accepts into a valid grid leaves it valid: no repeated digit in any row, column or box |
| `Board.ClearKeepsValid` | sudoku.py:65 | the backtracking undo (setting a cell to 0) keeps a valid grid valid |
| `Board.Write` | sudoku.py:30 | a cell assignment changes that one cell of the snapshot and no other |
| `Filler.FillBox` | sudoku.py:24-31 | the 3x3 box at (row, col) holds `nums` row by row (entry `3*i + j` at offset (i, j)); no other cell changes |
| `Filler.DiagonalIsValid` | sudoku.py:33-36 | a grid holding only the three seeded diagonal boxes is valid, because those boxes share no row, column or box |
| `Filler.FillDiagonal` | sudoku.py:33-36 | boxes (0,0), (3,3) and (6,6) hold their permutations, nothing else changes, and the result is valid when every other cell was empty |
| `Filler.Skip` | sudoku.py:40-58 | the skip logic yields the first cell outside the diagonal boxes at or after (row, col), wrapping to the next row past column 8, or (9, 0) when rows are exhausted |
| `Filler.TrailCells` | sudoku.py:38-67 | the cells the recursion visits from (row, col) are exactly the cells outside the diagonal boxes at or after (row, col) |
| `Filler.TrailAscending` | sudoku.py:38-67 | those cells are visited in strictly increasing row-major position, hence each exactly once |
| `Filler.FillRemaining` | sudoku.py:38-67 | only cells outside the diagonal boxes at or after (row, col) are written; on True all of them hold digits; a valid grid stays valid; on False, when those cells were empty on entry, the grid is restored |
| `SolutionCounter.Solve` | sudoku.py:73-85 | the inner search adds the number of completions (`Count`) to the counter and leaves the grid exactly as it found it |
| `SolutionCounter.CountSolutions` | sudoku.py:69-88 | returns `Count` of the grid, leaves the grid unchanged, and returns 1 on a grid with no empty cell |
| `SolutionCounter.CompletionsExtend` | sudoku.py:73-85 | every grid the search reaches is full and keeps every digit of the grid it started from |
| `SolutionCounter.CompletionsValid` | sudoku.py:73-85 | from a valid grid the search reaches only valid grids, since it places only digits `is_safe` accepts |
| `SolutionCounter.CountIsSize` | sudoku.py:73-85 | the count equals the number of distinct grids the search reaches: different digits at the first empty cell lead to different grids |
| `SolutionCounter.CompletionsSound` | sudoku.py:73-85 | on a valid grid every grid the search reaches is a valid completion of it |
| `SolutionCounter.CompletionsComplete` | sudoku.py:73-85 | on a valid grid every valid completion is reached by the search |
| `SolutionCounter.CountIsCompletions` | sudoku.py:69-88 | on a valid grid the search reaches exactly the valid completions, and the count is how many there are |
| `SolutionCounter.SolvableIffCountPositive` | sudoku.py:69-88 | a valid grid has a solution if and only if its count is positive |
| `SolutionCounter.UniqueIffCountOne` | sudoku.py:100-103 | on a valid grid, count 1 holds if and only if the puzzle has exactly one solution; any other count means none or several |
| `SolutionCounter.CountOneSolutionIsUnique` | sudoku.py:100-103 | two solutions of a valid grid whose count is 1 are the same grid |
| `Digger.CopyGrid` | sudoku.py:100-101 | the copy is a new grid with the same cells, so counting on it cannot change the puzzle |
| `Digger.ClearGrows` | sudoku.py:95-96 | emptying a filled cell adds exactly that cell to the empty cells |
| `Digger.DugKeeps` | sudoku.py:90-106 | a grid with some digits dug out of a valid grid is still a valid grid |
| `Digger.DugHasSolution` | sudoku.py:90-106 | a full valid grid is a solution of every puzzle dug out of it |
| `Digger.RemoveKDigitsUnique` | sudoku.py:90-106 | every cell is kept or emptied; k <= 0 leaves the grid untouched; each kept removal empties one more cell (k - left cells in all); once a removal is kept, or when the input had count 1, the final count is 1 |
| `Digger.SeededGrid` | sudoku.py:110-111 | the seeded empty grid is valid, holds digits from 1..9 (each seeded from a permutation) only in the diagonal boxes, and leaves every other cell empty for the backtracking fill |
| `Digger.FilledGrid` | sudoku.py:112 | after a successful fill from (0, 0) every cell holds a digit |
| `Digger.GenerateUniqueSudoku` | sudoku.py:108-114 | the result is a valid grid; when the fill succeeded, the filled grid is its one and only solution (completions = {solution}, count 1), and when all k attempts were used (always so for k = 0) exactly k cells are empty |
| `Solver.FirstIsReached` | sudoku.py:139-153 | the grid the solver stops at is one of the grids the exhaustive search reaches |
| `Solver.FirstIsLeast` | sudoku.py:142-146 | trying digits in ascending order stops at the least reached grid in row-major order, and it stops somewhere whenever any grid is reached |
| `Solver.FirstIffCountPositive` | sudoku.py:139-153 | the solver succeeds exactly when the counter's count is positive |
| `Solver.FirstIsFullExtension` | sudoku.py:139-153 | on success the grid is full, keeps every digit given on entry (only empty cells are written) and is valid when the input was |
| `Solver.FirstIsLeastSolution` | sudoku.py:139-153 | on a valid puzzle the solver succeeds if and only if a solution exists, and then ends on the least solution in row-major order |
| `Solver.FirstFindsUniqueSolution` | sudoku.py:139-153 | solving a puzzle whose only solution is a given grid, as the generator produces, ends on exactly that grid |
| `Solver.SolveVisual` | sudoku.py:139-153 | returns True exactly when `First` finds a grid and then holds that grid; on False the grid is restored; a full grid yields True and is left unchanged |

## Left out

- `print_grid` and `print_grid_visual` (sudoku.py:116-137) are console output with screen clearing and `time.sleep`. They are not modelled, and `Solver.SolveVisual` omits its two display calls (sudoku.py:147, 151).
- The `__main__` block (sudoku.py:155-164) reads from the console and prints. It is not modelled.
- `random.sample` and `random.randint` are not modelled. Their results are inputs (`nums`, `boxes`, `draws`, `picks`), and `Filler.FillRemaining` returns the index of the next unused draw.
- `Digger.RemoveKDigitsUnique`: the source keeps drawing random cells until k removals succeed, and may never stop. The model consumes a finite sequence of picks and returns the attempts left. It stops after k removals or when the picks run out.
- `Filler.FillRemaining`: it requires a start position the program can reach: (0, 0), or a position just right of a cell outside the diagonal boxes. From other positions the source can write inside a diagonal box. The program calls it from outside only at (0, 0), and every recursive call (sudoku.py:63) starts just right of a cell outside the diagonal boxes, which is what `Filler.Entry` states.
- `Filler.FillRemaining`: completeness is not proved. Nothing shows that the fill from a seeded grid always succeeds. `Digger.GenerateUniqueSudoku` therefore returns the fill's outcome (`filled`) and states its guarantees under it.
- `Digger.GenerateUniqueSudoku`: besides the grid it also returns `filled`, the attempts left, and the ghost filled grid, so that its contract can speak of them. The source returns only the grid.
- Termination of `fill_remaining` is by position (81 minus the row-major position), and that of the searches by the set of empty cells. The cost of the searches is not modelled.
