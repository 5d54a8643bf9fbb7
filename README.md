# sudoku-cpp in Dafny

A model of the 9x9 Sudoku solver of the sudoku-cpp repository, with proofs.
It has three layers, each in its own module.

- `SudokuGrid` (`sudoku.dfy`) is the grid container of `Sudoku.h` and
  `Sudoku.cpp`. A `Square` is an integer 0..9, where EMPTY is 0 and ONE..NINE
  are 1..9. The class `Sudoku` owns a 9x9 `array2<Square>`, and its abstract
  value is the ghost grid `Cells()`. The class has the `at` accessors and
  assignment through them, the copy constructor, `FromGrid` (the default
  constructor followed by `operator>>` filling every cell), the static enumerators
  `rowCoords`, `colCoords` and `squareCoords`, and the extractors `row`,
  `column` and `square`. Each enumerator and extractor is a loop filling a
  local array, proved equal to a closed form. `SQUARE_DIM` is 3 and `SIZE`
  is `SQUARE_DIM * SQUARE_DIM`.
- `Constraints` (`constraints.dfy`) is the constraint tracker of
  `Solver.cpp`.
  - The mask is a 9x9x9 `array3<bool>`: entry (r, c, k) forbids value index
    k at cell (r, c). Its abstract value is the set of its true entries.
  - The counts are a 9x9 `array2<int>` of forbidden values per cell.
  - `ConstrainVariables` builds a fresh delta cube for one placement.
    `ApplyConstraints` and `UnapplyConstraints` add and remove that delta in
    place, in triple nested loops.
- `Checks` (`checks.dfy`) holds the board checks `findDupes`, `valid` and
  `solved`. It also defines the predicates the search is proved against:
  complete, sound (no digit repeated in a row, column or block), extension
  of one grid by another, solvable (some complete, sound grid extends it),
  and the number of EMPTY cells.
- `Search` (`search.dfy`) is the search engine.
  - `MostConstrained` and `LeastConstrainingValue` are the two heuristics.
    The score array is a ghost table, and `std::sort` is modelled as an
    insertion sort on a sequence.
  - `solveRecursive` is the backtracking search with paired apply and undo.
    The part after its two checks (`Branch`), its candidate loop and one
    turn of that loop are separate methods.
  - `Solve` copies the problem, builds the initial mask and counts, and
    starts the search.

The main results are the following.

- The mask produced by `Solve`'s initial pass is exactly the set of entries
  forbidden by the filled cells.
- Every step of the search keeps the mask and the counts consistent with
  the board.
- A failed subsearch restores the board, the mask and the counts. This is
  the undo-after-apply law: the delta holds only entries that were clear.
- A successful search returns a complete grid that passes `valid`, keeps
  every given cell, and is sound when the problem was sound.
- The search is complete: every problem that has a solution is solved. A
  failed attempt at a candidate shows that no solution puts that candidate
  there, and the candidate list holds every digit a solution could use, so
  a failed candidate loop means there is no solution. For a sound problem,
  `Solve` returns a complete grid exactly when the problem has a solution.
- The recursion terminates, because each placement removes one EMPTY cell.
- `numSteps` never decreases. One turn of the candidate loop adds at least
  one step when it succeeds and at least two when it backtracks, so a
  failed candidate loop adds at least two steps per candidate. A
  successful search adds at least one step per cell it filled. The exact
  accounting, one step per attempt and one per backtrack, is stated
  through ghost counts of attempts and backtracks.

These behaviours of the code are kept as written:

- `valid` inspects only the three blocks on the diagonal, because its loop
  advances `i` and `j` together. `CheckMissesOffDiagonalBlocks` exhibits an
  unsound grid that it accepts.
- The second parameter of `valid` is never read.
- A placed value is forbidden at its own cell too, because the row
  enumeration includes that cell.
- The score of a candidate counts the chosen cell twice, once for its row
  and once for its column.
- `numSteps` is a reference parameter, which the recursive calls increment.
  It is modelled as an input and an output.

## Model

| member | source | states |
|---|---|---|
| SudokuGrid.Place | Sudoku.h:44 | writing v at (i, j) gives a grid whose cell (i, j) is v and whose every other cell is unchanged |
| SudokuGrid.Sudoku.FromGrid | Sudoku.cpp:78-86 | a new board holding exactly the cells of a well-formed grid, as the default constructor followed by reading every cell does |
| SudokuGrid.Sudoku.Copy | Sudoku.h:34 | the copy owns a new array and holds the same cells as the problem |
| SudokuGrid.Sudoku.At | Sudoku.h:48 | at(i, j) reads cell (i, j) of the board |
| SudokuGrid.Sudoku.AtCoord | Sudoku.h:49-51 | at(coord) reads the same cell as at(coord.first, coord.second) |
| SudokuGrid.Sudoku.SetAt | Sudoku.h:44 | assigning through at(i, j) changes cell (i, j) and no other cell |
| SudokuGrid.Sudoku.SetAtCoord | Sudoku.h:45-47 | assigning through at(coord) changes cell (coord.first, coord.second) and no other cell |
| SudokuGrid.Sudoku.RowCoords | Sudoku.cpp:20-27 | the result is (i, 0), (i, 1), ..., (i, 8) in that order |
| SudokuGrid.Sudoku.ColCoords | Sudoku.cpp:29-36 | the result is (0, j), (1, j), ..., (8, j) in that order |
| SudokuGrid.Sudoku.SquareCoords | Sudoku.cpp:37-49 | entry 3*dy + dx of the result is (i/3*3 + dy, j/3*3 + dx) |
| SudokuGrid.RowCoordsMembers | Sudoku.cpp:20-27 | a cell is in the row enumeration of i iff it is an in-range cell of row i |
| SudokuGrid.ColCoordsMembers | Sudoku.cpp:29-36 | a cell is in the column enumeration of j iff it is an in-range cell of column j |
| SudokuGrid.SquareCoordsShape | Sudoku.cpp:37-49 | the block enumeration is nine distinct in-grid cells, exactly the cells of the block of (i, j), (i, j) included |
| SudokuGrid.SquareCoordsPerBlock | Sudoku.cpp:40-41 | any two cells of one block have the same block enumeration |
| SudokuGrid.Sudoku.Row | Sudoku.cpp:69-76 | row(i)[k] is cell (i, k) for every k |
| SudokuGrid.Sudoku.Column | Sudoku.cpp:51-58 | column(j)[k] is cell (k, j) for every k |
| SudokuGrid.Sudoku.SubSquare | Sudoku.cpp:60-67 | square(i, j)[idx] is the cell at squareCoords(i, j)[idx] for every idx |
| Constraints.IntValFromSquare | Solver.cpp:19-21 | ONE..NINE map to the value indices 0..8, and EMPTY to -1 |
| Constraints.SquareFromIntVal | Solver.cpp:24-26 | a value index 0..8 maps to a non-EMPTY Square whose value index it is |
| Constraints.SquareRoundTrip | Solver.cpp:19-26 | squareFromIntVal(intValFromSquare(s)) == s for every non-EMPTY s |
| Constraints.MarkUnconstrained | Solver.cpp:48-52 | one enumeration loop marks val in the delta at exactly the listed cells where the mask leaves val free, and changes nothing else |
| Constraints.ConstrainVariables | Solver.cpp:44-67 | the delta is new, and its entries are exactly the entries of val at cells sharing a row, column or block with (i, j), (i, j) included, that the mask does not forbid |
| Constraints.ApplyConstraints | Solver.cpp:84-95 | the mask gains exactly the delta entries, and each count grows by its cell's delta entries; a delta disjoint from the mask keeps counts matching the mask |
| Constraints.UnapplyConstraints | Solver.cpp:70-81 | the mask loses exactly the delta entries, and each count shrinks by its cell's delta entries; a delta inside the mask keeps counts matching the mask |
| Constraints.InducedByPlace | Solver.cpp:212-214 | filling an EMPTY cell adds to the forbidden entries exactly the entries that placement forbids |
| Constraints.InducedByEmpty | Solver.cpp:229-230 | an empty grid forbids nothing, which matches the zeroed initial mask |
| Constraints.CountBelowUnion | Solver.cpp:88-91 | counting forbidden values over two disjoint sets adds up |
| Constraints.CountBelowDifference | Solver.cpp:74-77 | counting forbidden values over a set minus a subset subtracts |
| Constraints.CountBelowMonotone | Solver.cpp:74-77 | a subset never has more forbidden values at a cell than its superset |
| Constraints.CountBelowBound | Solver.cpp:15-16 | no cell has more than nine forbidden values |
| Checks.FindDupes | Solver.cpp:29-41 | true iff two different positions hold the same non-EMPTY value |
| Checks.IsValid | Solver.cpp:114-129 | true iff no row and no column has a duplicate, nor any of the blocks at (0, 0), (3, 3) and (6, 6) |
| Checks.IsSolved | Solver.cpp:132-140 | true iff no cell is EMPTY |
| Checks.SoundPassesCheck | Solver.cpp:114-129 | valid accepts every board without a repeated digit |
| Checks.CheckMissesOffDiagonalBlocks | Solver.cpp:123-127 | valid accepts a grid with a duplicate in block (0, 3), which is not sound |
| Checks.EmptyCountZero | Solver.cpp:199-201 | no EMPTY cell is left iff the grid is complete |
| Checks.EmptyCountPlace | Solver.cpp:212 | filling an EMPTY cell leaves one EMPTY cell fewer |
| Checks.SolvableSound | Solver.cpp:193-195 | a board that has a solution has no repeated digit, so valid never rejects it |
| Checks.ExtendsComplete | Solver.cpp:199-201 | a grid that keeps every cell of a complete grid is that grid |
| Search.MostConstrained | Solver.cpp:98-111 | (-1, -1) iff no cell is EMPTY; otherwise an EMPTY cell with the maximal count among EMPTY cells, and the first such in row-major order |
| Search.ScoreTableAt | Solver.cpp:144-174 | score[k] is the number of cells of row i, of column j, and of the block off both of them, at which k is not forbidden |
| Search.OffLinesCount | Solver.cpp:164-174 | exactly four block cells lie off both the row and the column of the chosen cell |
| Search.OffLinesMembers | Solver.cpp:164-166 | those four cells are the cells of the block of (i, j) in neither row i nor column j |
| Search.AddFreeAt | Solver.cpp:148-152 | vals[v] goes up by one exactly for the value indices v free at the cell |
| Search.AddFree | Solver.cpp:147-162 | vals[v] goes up by the number of listed cells at which v is free |
| Search.AddFreeOffLines | Solver.cpp:164-174 | vals[v] goes up by the number of listed cells off row i and column j at which v is free |
| Search.Scores | Solver.cpp:144-174 | the filled score array equals the score table |
| Search.Candidates | Solver.cpp:175-180 | the indices are in range, strictly increasing, and hold each value index free at (i, j) exactly once, and nothing else |
| Search.SortByKey | Solver.cpp:181-183 | the result is a permutation of the input, nondecreasing in the key |
| Search.ToSquares | Solver.cpp:184-187 | each index becomes the non-EMPTY Square one above it, position by position, with the counts carried over |
| Search.LeastConstrainingValue | Solver.cpp:143-189 | every value free at (i, j) exactly once and nothing else, in nondecreasing order of score |
| Search.PlaceKeepsSound | Solver.cpp:211-215 | placing a value not forbidden by the induced entries in an EMPTY cell of a sound grid keeps it sound |
| Search.PlaceStep | Solver.cpp:212-215 | a placement removes one EMPTY cell, adds its induced entries, and keeps a sound grid sound when the value is not forbidden |
| Search.SolutionStep | Solver.cpp:211-215 | a solution puts in an EMPTY cell a digit no filled peer forbids, and still solves the grid with that digit placed |
| Search.SolvableHasCandidate | Solver.cpp:204-210 | when the candidates include every digit the filled cells allow at an EMPTY cell, a solvable grid stays solvable with one of them placed |
| Search.CandidatesCover | Solver.cpp:204-210 | with a consistent mask, the candidate list of leastConstrainingValue holds a digit that keeps a solvable grid solvable |
| Search.RefutedPrefix | Solver.cpp:210-222 | candidates refuted one by one: if the first n and the next one leave no solution, neither do the first n + 1 |
| Search.SolveRecursive | Solver.cpp:191-224 | on false, board, mask and counts are as on entry; on true, the board is complete, passes valid, keeps every filled cell, and stays sound; a board that has a solution is always solved; mask and counts stay consistent; an invalid board fails at once and a complete one returns valid's verdict, both without a step; steps grow by attempts plus backtracks, and a success adds at least one step per cell filled |
| Search.Branch | Solver.cpp:201-223 | past the two checks: the outcome as for solveRecursive, and a board that has a solution is always solved |
| Search.TryCandidates | Solver.cpp:210-223 | the outcome of trying the candidates, as for solveRecursive; when none succeeds, board, mask and counts are as on entry, no solution of the board has any of the candidates at the cell, and at least two steps were added per candidate |
| Search.TryCandidate | Solver.cpp:211-221 | one attempt: success as in solveRecursive with at least one step added, or board, mask and counts restored with at least two steps added, one for the attempt and one for the backtrack, and no solution of the board has the candidate at the cell |
| Search.Assign | Solver.cpp:212-214 | the cell takes the candidate, the delta is the placement's induced entries that were not yet forbidden, and mask and counts gain it |
| Search.Unassign | Solver.cpp:219-221 | undoing a placement restores the board and the mask exactly and the counts by the delta |
| Search.AddThenRemove | Solver.cpp:70-95 | removing a delta that was added to a disjoint mask gives back the mask |
| Search.PlaceThenClear | Solver.cpp:212-221 | writing a value into an EMPTY cell and then EMPTY gives back the grid |
| Search.ConstrainGiven | Solver.cpp:236-239 | constraining one given cell makes mask and counts consistent with that cell filled |
| Search.InitialConstraints | Solver.cpp:228-241 | the initial mask forbids exactly the entries induced by the filled cells, and the counts match it |
| Search.SearchOutcome | Solver.cpp:242-247 | the result is the problem or a complete extension that passes valid, and is the problem when the problem fails valid or is complete; it is complete when the problem has a solution, and for a sound problem only then |
| Search.Solve | Solver.cpp:227-247 | the result is a new board that is the problem or a complete extension passing valid, sound if the problem is; an invalid or complete problem comes back as it is and without a step; every problem that has a solution is solved, and a sound problem is solved exactly when it has a solution; steps never decrease; the problem itself is untouched, since Solve changes only what it allocates |

## Left out

- main.cpp and the stream operators of Sudoku.cpp are text I/O and are not modelled. `operator>>` casts any integer to `Square`; the model takes every cell to be in 0..9.
- The stray `operator<<(std::istream&, Square)` declaration has no definition and is not modelled.
- The defaulted `Sudoku()` constructor leaves the cells indeterminate, and `operator>>` fills them from text. The model joins the two steps in `Sudoku.FromGrid`, which takes a grid that is already well formed; a board with indeterminate cells does not exist in the model.
- The `std::cerr` message of a failed search is output only; failure is the result of `solveRecursive`.
- `size_t` wrap-around of counts and steps is not modelled. Counts stay in 0..9 while they match the mask, and steps are unbounded naturals.
- Search.SortByKey: states a permutation sorted by key and not the tie order, because `std::sort` leaves the order of equal scores unspecified.
- Search.SolveRecursive: requires a mask consistent with the board and counts matching the mask, which `Solve` establishes. The steps accounting is stated through ghost counts of attempts and backtracks, which the code does not keep.
- Search.TryCandidates: does not state which candidate succeeded or that they are tried in list order; on success it only states the outcome and not how many candidates failed first.
- Constraints.IntValFromSquare: EMPTY maps to -1, the value of `static_cast<size_t>(EMPTY) - 1` converted back to `int`; the code never converts EMPTY.
