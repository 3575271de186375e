# Sudoku solver model

This project models the `SudokuSolver` class of a small C++ Sudoku solver. The class keeps three things:

- a 9x9 grid `problemMatrix`, where 0 marks an empty cell;
- three 9x9 tag tables, `tagRow[r][d-1]`, `tagCol[d-1][c]` and `tagBlk[b][d-1]`. Each records which digits a row, column or 3x3 block already holds.

Its constructor works in this order:

1. It copies the givens (input entries in 1..9) into the empty grid and tags them.
2. It runs a hidden-single deduction to a fixed point. A digit with exactly one legal empty cell in a block, row or column is written there.
3. It runs a depth-first backtracking search. The search moves down each column, then to the next column, and tries the digits in ascending order.
4. If the search succeeds, it copies the finished grid back into the input.

The model has four modules:

- `Rules` (`rules.dfy`) holds boards as values. It covers the row, column and block groups, legal digits, solutions, and the soundness of the hidden-single rule.
- `SearchOrder` (`search_order.dfy`) holds the column-major order of the search. It defines the "first solution" that order finds and proves that first solution unique.
- `TagTables` (`tag_tables.dfy`) holds the tag tables as values:
  - `Marked` is the effect of `assignTag` and `resetTag`.
  - `TagsOf` gives the tables a board implies.
- `Solver` (`solver.dfy`) holds the class `SudokuSolver`:
  - It has the grid and the three tables as `array2` fields, and methods for each routine.
  - `Valid()` is the object invariant. Every cell is empty or a digit, no group repeats a digit, and the tags are exactly `TagsOf` the grid.
  - The arrays are read into values (`Board()`, `CurrentTags()`) to state what each method does.

The main results:

- **Constructor.**
  - On a puzzle whose givens do not conflict, the constructor reports success exactly when the filtered puzzle has a solution.
  - On success it writes back the least solution in the search order.
  - On failure it leaves the input untouched.
- **Failed search.** `solveBacktrack` leaves the grid and tags exactly as it found them.
- **Deduction.**
  - The deduction writes only empty cells and never loses a solution.
  - It stops once no block has a hidden single for 1..9, no row has one for 1..8 and no column has one for 1..8.

Facts about the code that its comments could obscure:

- The deduction finds hidden singles: a digit with exactly one legal empty cell in a group (the "singles cell" of SudokuSolver.cc:114). It does not look for a cell with only one legal digit.
- A commit at SudokuSolver.cc:139-143, 163-167 and 187-191 writes the cell its own scan has just found empty, with no write in between, so a commit never meets a filled cell.
- The loop commented "Check all columns" (SudokuSolver.cc:147) scans row i, and the loop commented "Check all rows" (SudokuSolver.cc:171) scans column i.
- Conflicting givens are not detected anywhere in the code. The constructor's precondition excludes them (see Left out).

Two consequences are proved as lemmas. An input with no entry in 1..9 (all zero, say) filters to the empty puzzle, which has a solution, so the constructor succeeds on it (`BlankInputSolvable`). A solved grid fed back comes out unchanged, because its only first solution is itself (`SolvedIsFixed`).

## Model

| member | source | states |
|---|---|---|
| Rules.BlockOf | SudokuSolver.cc:80 | the block index (i/3)*3 + j/3 of a cell is in 0..8 |
| Rules.BoxCellInBlock | SudokuSolver.cc:122-123 | cell t of the block scan of block k lies on the board and in block k |
| Rules.BoxCellInverse | SudokuSolver.cc:122-123 | every cell is reached by the block scan of its own block, at count (r%3)*3 + c%3 |
| Rules.BoxCellInjective | SudokuSolver.cc:122-123 | the block scan never visits a cell twice |
| Rules.BoxCells | SudokuSolver.cc:122-123 | the block scan's cells: nine distinct cells of block k that cover the block |
| Rules.GroupCells | SudokuSolver.cc:122-123 | the cells each scan visits are nine cells of its group (block row by row, row left to right, column top to bottom) |
| Rules.GroupCellsExact | SudokuSolver.cc:150-151 | each scan visits every cell of its group exactly once |
| Rules.PlaceShrinksEmpties | SudokuSolver.cc:139-143 | writing a digit into an empty cell strictly shrinks the set of empty cells (the deduction loop's measure) |
| Rules.GroupHasAfterPlace | SudokuSolver.cc:139-141 | after a write into an empty cell, a group holds v exactly when it held v before or is one of the cell's groups and v was written |
| Rules.PlaceKeepsNoConflict | SudokuSolver.cc:209-211 | writing a legal digit into an empty cell keeps every row, column and block free of repeats |
| Rules.SolutionGroupHasDigit | SudokuSolver.cc:139-143 | every group of a solution holds every digit 1..9 |
| Rules.SolutionDigitIsFree | SudokuSolver.cc:209 | the digit a solution puts in an empty cell is legal there on the partial board |
| Rules.BlockedDigit | SudokuSolver.cc:208-209 | a digit the legality test rejects at an empty cell sits there in no solution, so skipping it loses nothing |
| Rules.PlaceUnsolvable | SudokuSolver.cc:212-215 | when writing v at a cell leaves no solution, no solution of the board holds v there |
| Rules.HiddenSingle | SudokuSolver.cc:138-143 | a digit with exactly one candidate cell in a group sits in that cell in every solution |
| Rules.CommitHiddenSingle | SudokuSolver.cc:139-143 | committing a hidden single keeps the board conflict free, loses no solution of the original puzzle and fills one more cell |
| Rules.Filter | SudokuSolver.cc:29-32 | the input test: an entry in 1..9 is kept and every other entry becomes 0 |
| Rules.EmptyBoard | SudokuSolver.cc:59-65 | the all-empty board initPuzzle leaves is in range and conflict free |
| Rules.SamplePeersDiffer | SudokuSolver.cc:35 | supporting lemma for SampleIsSolution, not code at these lines: two peer cells of the sample board (row r holds 1..9 rotated by (r%3)*3 + r/3) hold different digits |
| Rules.SampleIsSolution | SudokuSolver.cc:35 | witness lemma, not code at these lines: the sample board is a solution, so the success branch of solvePuzzle at line 35 is reachable |
| Rules.EmptySolvable | SudokuSolver.cc:35-38 | the empty puzzle has a solution |
| Rules.BlankInputSolvable | SudokuSolver.cc:27-38 | an input with no entry in 1..9 filters to the empty puzzle, meets the constructor's precondition and is solvable, so the constructor succeeds on it |
| Rules.Filtered | SudokuSolver.cc:27-33 | the starting board: each entry in 1..9 is kept and every other entry is empty |
| SearchOrder.FilledBeforeNext | SudokuSolver.cc:205-206 | once the cursor's cell is filled, every cell up to and including it is filled |
| SearchOrder.PositionInjective | SudokuSolver.cc:200-206 | the cursor order (down a column, then the next column) visits distinct cells at distinct positions |
| SearchOrder.LexAsymmetric | SudokuSolver.cc:208 | a board that agrees before a cell and is larger at it is not below the other |
| SearchOrder.FirstDifference | SudokuSolver.cc:208 | two different boards that agree before position p are ordered one way or the other |
| SearchOrder.LexTotal | SudokuSolver.cc:208 | the search order compares any two different boards |
| SearchOrder.FirstSolutionUnique | SudokuSolver.cc:199-221 | a puzzle has at most one first solution, so the search's answer is determined by its input |
| SearchOrder.CompleteIsFirst | SudokuSolver.cc:200-203 | a filled conflict-free board reached at the end of the search is its own first solution |
| SearchOrder.FirstSolutionStep | SudokuSolver.cc:208-213 | if every smaller digit at the cursor fails and v succeeds, the child's first solution is the first solution of the parent |
| SearchOrder.FirstSolutionOfRefined | SudokuSolver.cc:105-108 | a board that loses no solution of another has the same solvability and the same first solution |
| SearchOrder.SolvedIsFixed | SudokuSolver.cc:199-206 | a solved grid's only first solution is itself: fed back to the solver it comes out unchanged |
| TagTables.Marked | SudokuSolver.cc:85-102 | assignTag/resetTag of digit n at (i, j) on well-formed tables gives well-formed tables |
| TagTables.TagsOf | SudokuSolver.cc:15-18 | the tables a board implies (the meaning of the arrays declared at these lines), always 9x9; TagsOfAt pins each entry |
| TagTables.TagsOfAt | SudokuSolver.cc:46-49 | a row, column or block tag of digit d is set exactly when that group holds d |
| TagTables.SameTags | SudokuSolver.cc:16-18 | extensionality lemma for the tables declared at these lines: tag tables that agree entry by entry are equal |
| TagTables.MarkedEntries | SudokuSolver.cc:85-102 | assignTag and resetTag change exactly the three entries of digit n at (i, j), and nothing for digit 0 |
| TagTables.ResetUndoesAssign | SudokuSolver.cc:214-215 | resetTag after assignTag, on tags checkValid found clear, restores the tables exactly |
| TagTables.ResetOfClearIsNoop | SudokuSolver.cc:218 | the second resetTag after the digit loop changes nothing, since those tags are already clear |
| TagTables.ClearMeansFree | SudokuSolver.cc:74-83 | on the tables a board implies, checkValid's test is exactly "no row, column or block holds the digit" |
| TagTables.TagsOfPlace | SudokuSolver.cc:85-92 | writing a digit into an empty cell changes the implied tables exactly as assignTag does |
| TagTables.TagsOfPlaceAt | SudokuSolver.cc:89-91 | TagsOfPlace at one entry of each table |
| TagTables.TagsOfUnplace | SudokuSolver.cc:214-215 | clearing the tags of a legal digit just written gives the tables of the board before the write |
| TagTables.TagsOfNothing | SudokuSolver.cc:50-58 | an empty board implies the all-false tables initTag leaves |
| TagTables.TagsOfUptoStep | SudokuSolver.cc:67-71 | tagging the next cell in fillTags' row-major order extends the tables of the cells before it |
| TagTables.UptoAll | SudokuSolver.cc:67-71 | once fillTags has passed all 81 cells, the partial board is the whole board |
| Solver.ScanFindsNoSingle | SudokuSolver.cc:139 | a scan that finds no candidate, or two, means the digit is not a hidden single in that group |
| Solver.ChildExit | SudokuSolver.cc:214-215 | after a failed descent, clearing the digit's tags gives back the parent's tables, and no solution holds that digit there |
| Solver.SudokuSolver.constructor | SudokuSolver.cc:20-44 | success exactly when the filtered puzzle is solvable; on success the grid is its first solution and is copied into the input; on failure the input is unchanged |
| Solver.SudokuSolver.LoadGivens | SudokuSolver.cc:27-33 | the grid becomes the filtered input |
| Solver.SudokuSolver.StoreSolution | SudokuSolver.cc:36-38 | the input becomes the grid |
| Solver.SudokuSolver.InitTag | SudokuSolver.cc:50-58 | every tag is cleared |
| Solver.SudokuSolver.InitPuzzle | SudokuSolver.cc:59-65 | every cell is emptied |
| Solver.SudokuSolver.FillTags | SudokuSolver.cc:67-71 | starting from clear tags, the tags become exactly those the grid implies |
| Solver.SudokuSolver.FillRowTags | SudokuSolver.cc:69-70 | after row i the tags are those of the cells up to the end of row i |
| Solver.SudokuSolver.CheckValid | SudokuSolver.cc:74-83 | checkValid as a side-effect-free function over the tag arrays; CheckValidIsClear and CheckValidMeansFree give its meaning |
| Solver.SudokuSolver.CheckValidIsClear | SudokuSolver.cc:74-83 | checkValid is true exactly when the row, column and block tags of c at (i, j) are all false |
| Solver.SudokuSolver.CheckValidMeansFree | SudokuSolver.cc:74-83 | on a valid solver checkValid answers exactly whether c is legal at (i, j) |
| Solver.SudokuSolver.AssignTag | SudokuSolver.cc:85-92 | the tables become Marked(old, i, j, n, true): exactly the three tags of n are set, and nothing changes for 0 |
| Solver.SudokuSolver.ResetTag | SudokuSolver.cc:95-102 | the tables become Marked(old, i, j, n, false): exactly the three tags of n are cleared, and nothing changes for 0 |
| Solver.SudokuSolver.SolvePuzzle | SudokuSolver.cc:105-109 | returns whether the board is solvable; on success the grid is the board's first solution; the solver stays valid |
| Solver.SudokuSolver.Hit | SudokuSolver.cc:124-126 | the scan's per-cell test (empty, then checkValid) as a side-effect-free predicate; CandidateTest gives its meaning |
| Solver.SudokuSolver.HitsBeforeMembers | SudokuSolver.cc:124-129 | the tracked hit list holds exactly the scanned positions that passed the test |
| Solver.SudokuSolver.ScanGroup | SudokuSolver.cc:120-138 | cnt 0: no empty cell of the group passes checkValid; cnt 1: (row, col) is the only one; cnt 2: two different cells pass |
| Solver.SudokuSolver.SecondHit | SudokuSolver.cc:131-133 | a second passing cell at the early exit means two different cells pass |
| Solver.SudokuSolver.ScanComplete | SudokuSolver.cc:122-138 | a scan that reaches the end reports no passing cell or the unique one |
| Solver.SudokuSolver.ScanMeaning | SudokuSolver.cc:124-129 | on a valid solver, the scan's report is the candidate count the rules define |
| Solver.SudokuSolver.CandidateTest | SudokuSolver.cc:124-126 | "empty and checkValid" is exactly "candidate for l" when the tags match the grid |
| Solver.SudokuSolver.CommitKeepsValid | SudokuSolver.cc:139-143 | a hidden single written and tagged leaves the solver valid, loses no solution and fills one cell |
| Solver.SudokuSolver.CommitSingle | SudokuSolver.cc:139-143 | the grid becomes the old grid with l at (row, col); the solver stays valid, loses no solution and has one fewer empty cell |
| Solver.SudokuSolver.DeduceDigit | SudokuSolver.cc:120-143 | either the grid becomes the old grid with l written at the sole candidate cell of l in g (every other cell unchanged, one fewer empty cell), or nothing changes and l is not a hidden single in g |
| Solver.SudokuSolver.DeduceGroup | SudokuSolver.cc:119-144 | every cell filled on entry keeps its digit; either a cell is written, or nothing changes and no digit below digitEnd is a hidden single in the group |
| Solver.SudokuSolver.SolveLogical | SudokuSolver.cc:112-197 | the solver stays valid, only empty cells are written, no solution is lost, and at exit no block (digits 1..9), row or column (digits 1..8) holds a hidden single |
| Solver.SudokuSolver.BlockPass | SudokuSolver.cc:118-145 | reports a write exactly when it fills cells; with no write the grid is unchanged and no block holds a hidden single |
| Solver.SudokuSolver.RowPass | SudokuSolver.cc:147-169 | the same for each row, digits 1..8 |
| Solver.SudokuSolver.ColumnPass | SudokuSolver.cc:171-193 | the same for each column, digits 1..8 |
| Solver.SudokuSolver.ChildEntry | SudokuSolver.cc:210-212 | after writing and tagging a legal digit the solver is valid and every cell up to the cursor is filled |
| Solver.SudokuSolver.AtPlace | SudokuSolver.cc:215 | after a failed descent the cell still holds the digit tried, so line 215 resets that digit's tags |
| Solver.SudokuSolver.SolveBacktrack | SudokuSolver.cc:199-221 | on success the grid is the first solution of the entry board in search order; on failure the board is unsolvable and the grid and tags are exactly as on entry |
| Solver.SudokuSolver.TryDigits | SudokuSolver.cc:208-220 | the digit loop at an empty cell: success gives the first solution; failure means no solution and the cell is empty again with the tags restored |
| Solver.SudokuSolver.Descend | SudokuSolver.cc:209-216 | one legal digit: on success the first solution with that digit; on failure no solution with it, the tags restored and the digit left in the cell |

## Left out

- `printPuzzle` (SudokuSolver.cc:223-237) is console output only.
- The `cerr` message and `exit(1)` on failure (SudokuSolver.cc:40-43) are replaced by a `solved` field that is false, with the input left unchanged.
- The fields `NUM`, `ROW`, `COL` and `BLK` (always 9, 3, 3 and 3) are the constant `N` and the literal 3.
- Solver.SudokuSolver.constructor: requires that the filtered givens do not conflict. The code never checks this. With conflicting givens, its search can even report success on a board that repeats a digit; the model does not cover that behaviour.
- `solveBacktrack`'s `proMat` parameter is always `problemMatrix` (SudokuSolver.cc:108), so the model's search works on the grid field directly.
- `flagNotSingle` in the row and column passes is set but never read before it is reset, so it is not modelled.
- The block scan's two nested loops and their two breaks are one loop over the nine cells in the same order with one early exit (`ScanGroup`).
- Helper methods:
  - The model splits code out of the source's routines into `LoadGivens`, `StoreSolution`, `FillRowTags`, the three passes, `DeduceGroup`, `DeduceDigit`, `CommitSingle`, `TryDigits` and `Descend`.
  - Each does what the code at its cited lines does, in the same order.
- Machine integers are unbounded here. No value in the solver exceeds 81, so no overflow can occur.
- Two quirks of the code are kept as written:
  - The row and column passes try digits 1..8 only; 9 is never tried there.
  - The loop commented "columns" scans rows, and the loop commented "rows" scans columns.
