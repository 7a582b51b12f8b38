# Quantum sudoku backend, modelled in Dafny

The system is a sudoku variant. A cell holds either a fixed digit or a set
of candidate digits with equal probability weights (a "superposition").
A player may assign one digit to a cell, which collapses it, or several,
which narrows it. The board then removes those digits from the cell's 20
peers, the cells sharing its row, column or 3x3 block. Finally it checks
the whole board for duplicate fixed values and for cells left without any
candidate.

The HTTP layer has a plain integer sudoku (0 marks an empty cell) used to
generate starting puzzles. It has a placement test, an empty-cell scan, a
backtracking solver and a generator that removes cells according to the
difficulty. It also validates the `/assign` request body.

The model has these modules:

- `Common`: board constants, `Option`, the `Outcome` of an operation that can raise, and its `Error`s.
- `Cell`: the value `CellState` of a cell and the class `SudokuCell`, whose methods change its two fields in place.
- `Grid`: the read-only queries of `QuantumSudokuBoard`, as functions of the grid value.
  - row, column and block values, candidates, neighbours, validation, serialisation.
- `BoardSpec`: what each state-changing operation of the board does to the grid value, and the properties of those effects.
- `Board`: the class `QuantumSudokuBoard`.
  - It holds a 9x9 grid of distinct `SudokuCell` objects.
  - Each method is proved to change the grid exactly as its `BoardSpec` function says.
- `Solver`: `is_valid_placement`, `find_empty` and `solve_sudoku` on a 9x9 `array2<int>`, working in place.
- `Generator`: `generate_solved_board` and `generate_random_sudoku`; their random draws are parameters.
- `Request`: the field constraints and digit validator of `CellAssignment`.

Probability weights are exact rationals (`real`). Each candidate of a
list of length `n` gets weight `1/n`, and a digit listed twice counts
twice: a multi-value assignment of `[3, 3]` leaves key 3 at weight 1/2.

The model follows the code as written, including these behaviours a reader may not expect:

- Propagation is one level deep, with no transitive collapse.
  - A peer collapsed by a removal does not propagate further.
  - A peer whose last candidate is removed can still be fixed.
- Validation runs after the peers have been changed. When it fails, nothing is rolled back.
- A cell with a single candidate but no fixed value can come out of `initialize_board`.
  - The single-value and multi-value propagation branches treat such a cell differently.
- The difficulty decides how many cells are kept, not how many are hidden:
  - easy keeps 35–40;
  - medium keeps 25–34;
  - any other difficulty keeps 17–24.
- A multi-value assignment that repeats a digit divides the weight by the
  list's length, duplicates included. Then the weights of the cell do not
  sum to 1, and `[3, 3]` leaves an unfixed cell whose only key, 3, is shown
  at 50 %.
- Five seeding draws need not leave a solvable board. With 1 at (0, 3),
  (1, 6), (3, 0) and (6, 1) and 2 at (2, 2), no cell of the top-left block
  can hold a 1. `solve_sudoku` then fails and restores the board, so
  `generate_solved_board` returns five filled cells and 76 empty ones.
  `generate_random_sudoku` must then empty at least 41 cells, and its loop
  `while removed < cells_to_remove` (backend/api.py:121) never ends.

## Model

| member | source | states |
|---|---|---|
| Common.Digits | backend/q_cell.py:7 | the digit set is exactly 1..9 |
| Cell.IsCollapsed | backend/q_cell.py:27-29 | a cell is collapsed iff it has a fixed value or exactly one possibility |
| Cell.Uniform | backend/q_cell.py:127-129 | the weight map has exactly the given keys, each weighted 1/n |
| Cell.Collapsed | backend/q_cell.py:31-38 | a collapsed cell is fixed to n, with n as its only possibility, of weight 1 |
| Cell.IsCollapsedCases | backend/q_cell.py:27-29 | `is_collapsed` holds after `collapse`; after a multi-value update it holds iff the list names one distinct digit; removing one of two possibilities leaves a cell fixed to the other |
| Cell.WithCandidates | backend/q_cell.py:40-50 | a multi-value update clears the fixed value; keys are the listed digits; each weight times the list length (duplicates included) is 1 |
| Cell.Removed | backend/q_cell.py:52-66 | removal deletes exactly that key; an absent key changes nothing; one key left collapses the cell to it; otherwise the weights are uniform again |
| Cell.RemovedAll | backend/q_cell.py:233-234 | removing a list of values leaves exactly the old keys minus those values |
| Cell.SudokuCell.constructor | backend/q_cell.py:20-25 | a new cell has the given fixed value and no possibilities |
| Cell.SudokuCell.Collapse | backend/q_cell.py:31-38 | the cell's new state is `Collapsed(number)` |
| Cell.SudokuCell.UpdatePossibilities | backend/q_cell.py:40-50 | an empty list raises and changes nothing; otherwise the cell becomes `WithCandidates(candidates)` |
| Cell.SudokuCell.RemoveCandidate | backend/q_cell.py:52-66 | the cell's new state is `Removed` of its old state |
| Grid.Neighbors | backend/q_cell.py:239-260 | 20 positions, each a cell other than (row, col) sharing its row, column or block |
| Grid.NeighborsArePeers | backend/q_cell.py:239-260 | there are 20 distinct neighbours; a cell is a neighbour iff it shares a row, column or block and is not the cell itself |
| Grid.RowValues | backend/q_cell.py:149-151 | d is a row value iff some cell of the row is fixed to d |
| Grid.ColumnValues | backend/q_cell.py:153-155 | d is a column value iff some cell of the column is fixed to d |
| Grid.BlockValues | backend/q_cell.py:157-166 | d is a block value iff some cell of the 3x3 block is fixed to d |
| Grid.UsedIffNotFree | backend/q_cell.py:136-143 | d is in the used set iff some cell sharing a unit with (row, col) is fixed to d |
| Grid.ValidCandidates | backend/q_cell.py:131-147 | d is a candidate iff 1 <= d <= 9 and no cell sharing a unit is fixed to d |
| Grid.UnitClashesIffDuplicate | backend/q_cell.py:272-275 | "fewer distinct fixed values than fixed cells" holds iff two cells of the unit are fixed to the same value |
| Grid.RowDuplicateIffClash | backend/q_cell.py:271-275 | a row has a duplicate iff two of its cells clash |
| Grid.ColumnDuplicateIffClash | backend/q_cell.py:277-282 | a column has a duplicate iff two of its cells clash |
| Grid.BlockDuplicateIffClash | backend/q_cell.py:284-297 | a block has a duplicate iff two of its cells clash |
| Grid.CheckRowsFails | backend/q_cell.py:271-275 | the row loop raises iff some row from i on has two cells fixed to the same value |
| Grid.CheckColumnsFails | backend/q_cell.py:277-282 | the column loop raises iff some column from j on has a clash |
| Grid.CheckBlocksFails | backend/q_cell.py:284-297 | the block loop raises iff a remaining block has a duplicate |
| Grid.BlockClashIff | backend/q_cell.py:284-297 | some block has a duplicate iff two cells of one block clash |
| Grid.CheckRows | backend/q_cell.py:271-275 | a failure names the first row from i with fewer distinct fixed values than fixed cells; a pass means no such row from i |
| Grid.CheckColumns | backend/q_cell.py:277-282 | a failure names the first column from j with fewer distinct fixed values than fixed cells; a pass means no such column from j |
| Grid.CheckBlocks | backend/q_cell.py:284-297 | a failure names the first remaining block, in row-major order, with fewer distinct fixed values than fixed cells; a pass means no such block |
| Grid.CheckCellsFails | backend/q_cell.py:299-304 | the cell loop raises iff a remaining cell is unfixed and has no possibilities |
| Grid.CheckCells | backend/q_cell.py:299-304 | a failure names the first remaining unfixed cell without possibilities; a pass means no such cell |
| Grid.ValidateBoardConsistency | backend/q_cell.py:262-304 | an error names a faulty unit or cell, and every unit of the kinds checked before it is duplicate-free; a pass means every row, column and block is duplicate-free and no unfixed cell is empty |
| Grid.ValidateRaisesIff | backend/q_cell.py:262-304 | validation raises iff two distinct cells of one unit are fixed to the same value, or an unfixed cell has no possibilities |
| Grid.SerializeBoard | backend/q_cell.py:306-325 | 9x9 output; a fixed cell gives its value; an unfixed cell gives percentages over exactly its possibilities |
| Grid.SerializeCell | backend/q_cell.py:317-323 | a fixed cell gives its value; an unfixed cell gives percentages over exactly its possibilities; for uniform weights each percentage times their number is 100, lies in (0, 100], and is 100 for a single possibility |
| Grid.RepeatedCandidateShownHalf | backend/q_cell.py:45-50 | after a multi-value assignment of `[3, 3]` the only key, 3, weighs 1/2 and `serialize_board` shows it at 50 % (backend/q_cell.py:322) |
| BoardSpec.InitialCell | backend/q_cell.py:100-106 | a nonzero entry gives a cell fixed to it, zero an unfixed one, both without possibilities |
| BoardSpec.FromArray | backend/q_cell.py:96-108 | each cell starts fixed to its nonzero entry, or unfixed for 0, without possibilities |
| BoardSpec.InitializedCell | backend/q_cell.py:124-129 | the fixed value is kept; a fixed cell or one without candidates is unchanged; otherwise the possibilities are exactly the digits free in the cell's units, with uniform weights |
| BoardSpec.Initialized | backend/q_cell.py:113-129 | no fixed value changes and every fixed cell is unchanged |
| BoardSpec.CandidatesDependOnFixed | backend/q_cell.py:131-147 | two grids with the same fixed values have the same candidates everywhere |
| BoardSpec.InitializedIdempotent | backend/q_cell.py:113-129 | running `initialize_board` twice equals running it once |
| BoardSpec.NothingFixedAllCandidates | backend/q_cell.py:131-147 | with nothing fixed every digit 1..9 is a candidate |
| BoardSpec.NewBoardFullSuperposition | backend/q_cell.py:81-86 | a new board has every cell unfixed with all nine digits at weight 1/9 |
| BoardSpec.InitializeLeavesUnfixedSingleton | backend/q_cell.py:125-129 | a concrete board whose initialised cell (0, 8) is unfixed with 9 as its only possibility |
| BoardSpec.PropagatedCell | backend/q_cell.py:211-234 | single value v: a fixed neighbour is unchanged, an unfixed one loses v and is not fixed to v; several values: a collapsed neighbour is unchanged, any other loses every listed value |
| BoardSpec.Propagated | backend/q_cell.py:196-237 | every peer of (row, col) is `PropagatedCell` of its own old state; every other cell, the assigned one included, is unchanged |
| BoardSpec.UnfixedSingletonBranches | backend/q_cell.py:211-234 | an unfixed cell holding only v is emptied by a single-value assignment of v, but skipped by a multi-value one |
| BoardSpec.MultiRemovalCanFixAssignedDigit | backend/q_cell.py:233-234 | removing 1 then 2 from {1, 2} leaves the cell fixed to 2 with no possibilities |
| BoardSpec.AssignCheck | backend/q_cell.py:177-191 | `user_assign` raises before any change iff the cell is fixed, a candidate is not a possibility, or the list is empty |
| BoardSpec.AssignedCell | backend/q_cell.py:187-191 | one candidate fixes the cell to it, several leave it unfixed; the keys are exactly the candidates |
| BoardSpec.Assigned | backend/q_cell.py:177-194 | the assigned cell becomes `AssignedCell`; each peer is `PropagatedCell` of its own old state; nothing else changes |
| BoardSpec.AssignedTarget | backend/q_cell.py:187-191 | after an accepted assignment the cell is fixed (one candidate) or unfixed (several); its keys are exactly the candidates, a subset of the old possibilities |
| BoardSpec.RemovedExcludes | backend/q_cell.py:52-66 | removing v from an unfixed cell leaves v neither a possibility nor the fixed value |
| BoardSpec.ClashRejected | backend/q_cell.py:262-297 | a board with two clashing cells in one unit fails validation |
| BoardSpec.PeerExcludesDigit | backend/q_cell.py:211-237 | on a board that passed validation, a peer of a cell fixed to v is not fixed to v and, if it was unfixed, no longer holds v |
| BoardSpec.AcceptedSingleAssignExcludesDigit | backend/q_cell.py:168-237 | after an accepted single-value assignment of v that passes validation, no peer is fixed to v, and no formerly unfixed peer holds v |
| Board.NewRow | backend/q_cell.py:97-107 | nine fresh cells, each starting in the state of its entry |
| Board.NewCells | backend/q_cell.py:96-108 | 81 fresh distinct cells whose states are those of the array |
| Board.QuantumSudokuBoard.constructor | backend/q_cell.py:81-86 | the new board's grid is the initialised all-empty grid |
| Board.QuantumSudokuBoard.InitializeFromArray | backend/q_cell.py:88-111 | the new grid is the initialised grid of the array, held in fresh cells |
| Board.QuantumSudokuBoard.InitializeBoard | backend/q_cell.py:113-129 | the grid becomes `Initialized` of the old grid |
| Board.QuantumSudokuBoard.InitializeCell | backend/q_cell.py:124-129 | one loop step: only cell (i, j) changes, to its initialised state |
| Board.QuantumSudokuBoard.UserAssign | backend/q_cell.py:168-194 | a failed check returns that error and changes nothing; otherwise the grid becomes `Assigned` and the result is the validation of the new grid |
| Board.QuantumSudokuBoard.PropagateConstraints | backend/q_cell.py:196-237 | the grid becomes `Propagated` (each of the 20 peers updated once); the result is its validation |
| Board.QuantumSudokuBoard.PropagateToNeighbor | backend/q_cell.py:214-234 | one neighbour step: only that cell changes, to `PropagatedCell` of its old state |
| Board.RemoveAllCandidates | backend/q_cell.py:233-234 | the cell's new state is `RemovedAll` of its old state |
| Solver.IsValidPlacement | backend/api.py:138-160 | true iff val occurs in no cell of the row, column or block of (row, col) |
| Solver.FindEmpty | backend/api.py:56-62 | None iff the board has no 0; otherwise the first 0 in row-major order |
| Solver.PlacementKeepsConflictFree | backend/api.py:41-43 | placing a value absent from the cell's units keeps a conflict-free board conflict-free |
| Solver.FillShrinksZeros | backend/api.py:40-47 | filling an empty cell removes exactly it from the empty cells |
| Solver.SolveSudoku | backend/api.py:26-54 | on success: no zeros, givens kept, filled cells hold 1..9, a conflict-free board stays conflict-free; on failure: the board is as before |
| Solver.SolvedAfterPlacement | backend/api.py:43-47 | a solution of the board with a digit placed at an empty cell keeps every given of the board and fills every blank with a digit |
| Solver.PutUndone | backend/api.py:43-51 | placing a value at an empty cell and resetting it to 0 restores the board |
| Solver.Place | backend/api.py:43-51 | the board changes at (row, col) only, which now holds v |
| Generator.KeepRange | backend/api.py:108-114 | easy draws from 35..40, medium from 25..34, any other difficulty from 17..24 |
| Generator.KeepRangeOrdered | backend/api.py:108-117 | 17..40 cells kept and 41..64 removed; every hard count is below every medium count, which is below every easy count |
| Generator.EmptyGrid | backend/api.py:70 | every cell is 0 |
| Generator.EmptyBoard | backend/api.py:70 | a fresh 9x9 board equal to the all-zero grid |
| Generator.EmptyConflictFree | backend/api.py:70 | the empty board is conflict-free and in range |
| Generator.FirstFit | backend/api.py:79-84 | None iff every digit of the order already occurs in a unit of the cell; otherwise a digit of the order that occurs in none |
| Generator.FirstFitIsFirst | backend/api.py:79-84 | the digit FirstFit picks is preceded in the order only by digits that occur in a unit of the cell |
| Generator.Seeded | backend/api.py:74-84 | only the drawn cell can change; a filled cell, or one where no digit fits, leaves the board as it was; otherwise the cell holds FirstFit's digit |
| Generator.SeededConflictFree | backend/api.py:74-84 | a seeding draw keeps a conflict-free board in range conflict-free and in range, and keeps every filled cell |
| Generator.PlaceSeed | backend/api.py:74-84 | the board becomes `Seeded` of the old board: only the drawn cell can change, and only from 0 to the first digit of the order that passes `is_valid_placement` |
| Generator.GenerateSolvedBoard | backend/api.py:64-88 | the result is conflict-free with every cell in 0..9 and keeps every seeded digit; it is full or it is exactly the seeded board |
| Generator.StuckUnsolvable | backend/api.py:26-54 | with 1 at (0, 3), (1, 6), (3, 0), (6, 1) and 2 at (2, 2), no board keeping them, filling every blank with a digit and repeating no value in a unit exists |
| Generator.StuckSeedsStall | backend/api.py:64-88 | five valid seeding draws leave exactly that board, with 76 empty cells and no solution |
| Generator.SolutionInRange | backend/api.py:86-88 | a solution of a board in range is in range |
| Generator.CopyBoard | backend/api.py:106 | a fresh board with the same contents |
| Generator.ClearGrowsZeros | backend/api.py:126-130 | zeroing a nonzero cell adds exactly it to the empty cells |
| Generator.ThinnedConflictFree | backend/api.py:119-134 | emptying cells of a conflict-free board in range keeps it conflict-free and in range |
| Generator.ZeroCellsBound | backend/api.py:119-130 | a board has at most 81 empty cells |
| Generator.RemoveCells | backend/api.py:119-134 | each cell is kept or zeroed, and only drawn cells change; every drawn cell visited is empty afterwards; the empty cells grow by exactly `removed`, at most the target; if the target is not reached, every draw was visited; if the board has fewer nonzero cells than the target, the target is not reached |
| Generator.GenerateRandomSudoku | backend/api.py:91-136 | `solved` is the board `generate_solved_board` gives (full, or the seeded board, keeping the seeded digits); the puzzle is conflict-free and differs from `solved` only in the drawn cells visited, each now empty; it has exactly `removed` more empty cells, `removed` is at most 81 - keep and reaches it unless the draws ran out; it falls short whenever `solved` has fewer filled cells than 81 - keep |
| Request.FirstInvalidDigit | backend/api.py:173-179 | None iff every candidate is in 1..9; otherwise the first out-of-range candidate |
| Request.Validate | backend/api.py:167-179 | a row or column error iff the field is outside 0..8; a missing-candidates error iff the list is empty |
| Request.AcceptedIff | backend/api.py:167-179 | a request is accepted iff row and col are in 0..8 and the list is a non-empty list of digits 1..9 |
| Request.AcceptedRequestChecks | backend/api.py:167-179 | for an accepted request, `user_assign` raises before any change iff the cell is fixed or a candidate is not a possibility |

## Left out

- The FastAPI application is not modelled: routes, CORS, uvicorn, JSON encoding, and the mapping of `ValueError` to HTTP responses.
- The module-level board instance and the reset endpoint are not modelled; each operation is stated for an arbitrary board.
- `print_board`, `__repr__` and the demonstration scenario write to the console only.
- Floating point is not modelled. Weights are exact rationals: 1/len for
  a list of candidates, duplicates counted, and 1/n for n free digits.
  - `Grid.SerializeBoard` gives the exact percentage 100/n, without rounding to two decimals.
- The `random` module is not modelled. Its draws are parameters:
  - five `Seed`s (a cell and a digit order) for `generate_solved_board`;
  - the `keep` count, required to lie in the difficulty's range;
  - a finite list of drawn cells for the removal loop.
- Generator.RemoveCells: `generate_random_sudoku` draws cells until enough are removed. The model's draws are a finite list, so it also stops when they run out.
  - Its contract and `Generator.GenerateRandomSudoku`'s say what happens in that case: every draw is taken and the target is not reached.
  - When the board has fewer nonzero cells than the target, the contract states that the target is not reached whatever the draws. The Python loop then never ends; the model cannot express a loop that does not end.
- Generator.GenerateSolvedBoard: does not state that the board comes out full, because it need not.
  - `generate_solved_board` ignores the solver's answer.
  - The contract states that the board is either full or exactly the seeded board.
  - `Generator.StuckSeedsStall` gives five seeds for which it is the seeded board, with 76 empty cells.
- Solver.SolveSudoku: does not state that it finds a solution whenever one exists. Only soundness and the restore-on-failure property are proved.
- The order of `get_neighbors` is not modelled: it comes from a Python set and is unspecified. The model visits the 20 peers in a fixed order. Each peer's update depends only on its own old state, so the order does not matter.
- Python's negative indexing is not modelled. Board positions are required to lie in 0..8. The request validation guarantees this for `user_assign` calls.
- Pydantic's type coercion and the text of its error messages are not modelled, only which fields are rejected.
