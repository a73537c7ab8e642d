# Sudoku solver model

This is a Dafny model of the `Sudoku` class of `Sudoku.js` (lines 3-162), a
sequential Sudoku solver. The class holds two 9x9 tables and changes both in
place:

- `board`: the puzzle's cells, which belong to the caller;
- `possible`: the solver's own candidate list for every cell.

Solving runs in three steps:

1. Check the given cells (`solve`, which uses `isValid`).
2. Fill forced cells until nothing changes (`updateOne`, which uses
   `updatePossible`).
3. Backtrack in row-major order from the first empty cell (`recurse`).

`findPossible` builds the candidate table when the class is constructed.

The project has three modules:

- `Candidates` (candidates.dfy) covers candidate lists and `Without`, the
  `filter(x => x != num)` that `updatePossible` applies to them.
- `Rules` (rules.dfy) holds the pure rules of the game over a snapshot
  `Grid` of the board:
  - peers, conflicts and solutions;
  - what isValid's count means;
  - the exact candidate list of a cell;
  - why committing a forced value keeps the lists exact and loses no
    solution.
- `SudokuSolver` (sudoku.dfy) holds the class `Sudoku`:
  - `board: array2<int>` and `possible: array2<seq<int>>`;
  - one method for each method of the source, plus helper methods, one for
    each inner loop of the source.

Cell values are integers:

- `0` is the empty string `''`;
- `1..9` are the digits;
- any other value is a character that `'123456789'.includes` rejects.

`Solve` returns an `Outcome` where the source calls `alert` or returns
silently.

Two details of the source that the model keeps:

- `updatePossible` also filters the candidate list of the assigned cell
  itself, because the row loop at Sudoku.js:117-119 includes column `c`.
  That list is already `[]` at that point (lines 88 and 103), so the filter
  changes nothing there.
- `recurse` never calls `updatePossible`. It only reads `possible`, as the
  list of digits to try (Sudoku.js:66-67), and never changes it.

## Model

| member | source | states |
|---|---|---|
| Candidates.Without | Sudoku.js:118 | the filtered list holds exactly the elements of the input other than `num`, is no longer than the input, and is the input unchanged when `num` is absent |
| Candidates.WithoutKeepsCandidates | Sudoku.js:118 | filtering a strictly ascending list of digits leaves a strictly ascending list of digits, so filtering never reorders a candidate list |
| Candidates.WithoutIdempotent | Sudoku.js:117-131 | filtering twice by the same value equals filtering once, so a cell reached by more than one of the row, column and box loops ends up filtered once |
| Candidates.AscendingUnique | Sudoku.js:82 | two candidate lists with the same elements are equal, so a list is determined by the digits it holds |
| Rules.BoxStart | Sudoku.js:125-126 | `3 * Math.floor(x / 3)` is the multiple of 3 whose box of three rows holds x, and lies in 0..6 on the board |
| Rules.BoxBounds | Sudoku.js:125-131 | the box loops' index ranges `row..row+2`, `col..col+2` cover exactly the cells that share the 3x3 box of (r, c) |
| Rules.OccurrencesStep | Sudoku.js:138-142 | one step of a scan adds 1 to the count exactly when the next cell holds the value |
| Rules.BoxScanStep | Sudoku.js:152-157 | step (i, j) of the nested box loops adds the match of cell (row + i, col + j) |
| Rules.ScanCount | Sudoku.js:134-161 | the three scans together count at least 3 (each counts the cell itself), and exactly 3 iff no other cell of the row, column or box holds the cell's value |
| Rules.PassesEverywhere | Sudoku.js:12-22 | every cell passes solve's per-cell check iff every cell is empty or a digit and no filled cell conflicts with a peer |
| Rules.ExtendedNoConflict | Sudoku.js:59-60 | a cell that agrees with a solution of the board cannot fail isValid, so a pre-filled cell that fails rules out every solution |
| Rules.Allowed | Sudoku.js:78-93 | the list findPossible should give a cell: [] for a filled cell; otherwise exactly the digits no peer holds, in ascending order |
| Rules.ExactIsAllowed | Sudoku.js:78-93 | any strictly ascending list holding exactly those digits is that list |
| Rules.SolutionInExactList | Sudoku.js:66-67 | every solution that keeps the filled cells gives each empty cell a value from its exact list, so searching only the listed candidates misses no solution |
| Rules.PartialStart | Sudoku.js:79-84 | [1..9] describes a cell before any filled cell has been processed |
| Rules.PeerFreeBeforeStep | Sudoku.js:85-92 | moving past position 9r+c adds the constraint of that cell only when it is a peer |
| Rules.PartialStep | Sudoku.js:87-90 | processing cell (r, c) (a filled cell clears its list and filters its value from its peers; an empty cell changes nothing) takes every list from "describes positions before 9r+c" to "describes positions up to 9r+c" |
| Rules.PartialDone | Sudoku.js:85-93 | once all 81 cells are processed, a list is exactly Allowed |
| Rules.FillEmpties | Sudoku.js:102-103 | committing a digit to an empty cell removes exactly that cell's position from the set of empty positions |
| Rules.FillKeepsExact | Sudoku.js:102-104 | after a digit v is committed at (r, c), every other cell's exact list stays exact once v is filtered from the lists of (r, c)'s peers |
| Rules.FillKeepsConsistent | Sudoku.js:103 | committing a value that no peer holds keeps a conflict-free board conflict-free |
| Rules.ForcedFill | Sudoku.js:102-103 | a cell whose exact list is [v] holds v in every solution that keeps the filled cells |
| Rules.ForcedProgress | Sudoku.js:102-104 | committing such a forced value keeps every filled cell, writes only a digit, keeps a consistent board consistent and loses no solution |
| Rules.ProgressTrans | Sudoku.js:98-109 | that guarantee composes over successive commits and passes |
| Rules.NoConflictKept | Sudoku.js:58-70 | a cell checked by isValid stays conflict-free while the later cells are filled conflict-free and the earlier ones are kept |
| SudokuSolver.Sudoku.constructor | Sudoku.js:4-8 | the board is the caller's, the table is new, and every list is exactly Allowed for the board |
| SudokuSolver.Sudoku.FindPossible | Sudoku.js:78-93 | every list becomes Allowed for the current board: [] for a filled cell; [1..9] without the peers' values, in ascending order, for an empty one |
| SudokuSolver.Sudoku.ResetPossible | Sudoku.js:79-84 | every list becomes [1..9] |
| SudokuSolver.Sudoku.ProcessCell | Sudoku.js:87-90 | a filled cell's own list becomes [] and its value is filtered from its peers' lists; every other list, and every list of an empty cell, is unchanged |
| SudokuSolver.Sudoku.UpdatePossible | Sudoku.js:113-132 | the lists of the 21 cells of the row, column and box of (r, c), itself included, become the old list without the board value; all other lists are unchanged; candidate lists stay candidate lists |
| SudokuSolver.Sudoku.FilterRow | Sudoku.js:117-119 | exactly the lists of row r are filtered |
| SudokuSolver.Sudoku.FilterColumn | Sudoku.js:121-123 | exactly the lists of column c are filtered |
| SudokuSolver.Sudoku.FilterBox | Sudoku.js:124-131 | exactly the lists of the box of (r, c) are filtered |
| SudokuSolver.Sudoku.FilterBoxRow | Sudoku.js:127-130 | exactly three lists of one box row are filtered |
| SudokuSolver.Sudoku.IsValid | Sudoku.js:134-161 | true iff no other cell in the row, column or box of (r, c) holds the value of (r, c) |
| SudokuSolver.Sudoku.CountInRow | Sudoku.js:138-142 | the count is the number of cells of row r that hold num |
| SudokuSolver.Sudoku.CountInColumn | Sudoku.js:144-148 | the count is the number of cells of column c that hold num |
| SudokuSolver.Sudoku.CountInBox | Sudoku.js:150-158 | the count is the number of cells of the box of (r, c) that hold num |
| SudokuSolver.Sudoku.CommitSingle | Sudoku.js:102-105 | the single candidate goes into the empty cell; it is a digit that no filled peer holds; no other cell changes; the set of empty cells loses exactly that cell; the lists stay exact; no solution is lost |
| SudokuSolver.Sudoku.Sweep | Sudoku.js:99-108 | one pass keeps the lists exact and loses no solution; the set of empty cells only shrinks; `change` is set iff it shrank; without a change no empty cell has a single candidate |
| SudokuSolver.Sudoku.UpdateOne | Sudoku.js:95-111 | terminates, since each repeated pass fills a cell; on exit no empty cell has exactly one candidate, the lists are exact, every filled cell is kept, only digits are written, a conflict-free board stays conflict-free, and every solution of the entry board is still a solution of the result |
| SudokuSolver.Sudoku.Recurse | Sudoku.js:51-76 | on false, the board is as on entry and no solution of the entry board keeps to the candidate lists from (r, c) on; on true, the cells before (r, c) are unchanged and every cell from (r, c) on is filled, conflict-free, keeps its value if it was filled and otherwise holds one of its candidates; terminates on 81 - (9r + c) |
| SudokuSolver.Sudoku.TryCandidates | Sudoku.js:66-75 | the same for an empty cell, whose candidates are tried in stored order; if none succeeds the cell is reset to empty; on success the cell holds the candidate at some index k, and no solution that keeps to the candidates uses any of the k candidates stored before it |
| SudokuSolver.Sudoku.RuleOut | Sudoku.js:67-70 | a candidate that fails isValid, or whose search of the following cells fails, is used by no solution that keeps to the candidates |
| SudokuSolver.Sudoku.SearchStep | Sudoku.js:58-70 | a conflict-free cell followed by a successful search of the next cells is a successful search from that cell |
| SudokuSolver.Sudoku.SearchDone | Sudoku.js:44-45 | a successful search from the first empty cell of a consistent propagated board solves it |
| SudokuSolver.Sudoku.CheckGivens | Sudoku.js:11-28 | reports no error iff every cell is empty or a digit and no filled cell conflicts with a peer; on error, it names the first cell in row-major order that fails: a non-digit character is reported before a conflict in the same cell, and every earlier cell passes |
| SudokuSolver.Sudoku.FirstEmpty | Sudoku.js:33-42 | the row-major position of the first empty cell, or 81 when every cell is filled |
| SudokuSolver.Sudoku.Solve | Sudoku.js:9-49 | a malformed or conflicting given stops it before anything changes, and that happens iff the givens are not well formed and consistent; on success the board is a solution that keeps the givens; `Unsolvable` means no solution keeps the givens; a board that is already solved is returned unchanged without search |

## Left out

- The DOM is not modelled. That covers cell `.value` strings, `style.color`
  (Sudoku.js:24-27), `readBoard`, `clearBoard` and
  `document.getElementsByClassName`. The board is a 9x9 integer array.
- `alert` (Sudoku.js:15, 20, 46) is not modelled. `Solve` returns a
  distinct `Outcome` for each alert and for each silent return.
- `async`/`await` and `pause` (Sudoku.js:52, 74, 167) only pace the display.
  `Recurse` is a plain recursive method.
- The keyboard handler (Sudoku.js:170-214) and `validate(event)`
  (Sudoku.js:236-242) are focus and input UI. They are not modelled.
- Cell values are integers, not strings, so the model does not cover
  JavaScript's string semantics:
  - `'123456789'.includes(value)` is a substring test and accepts
    multi-character values such as "12". The model treats every value
    outside 0..9 as malformed.
  - The loose `!=` in the filters (Sudoku.js:118, 122, 129) compares
    number candidates with the string value of the cell, so a number
    equals the string of the same digit. The model compares integers.
- Stack depth is not modelled. Dafny's recursion is unbounded, and the
  source nests at most 82 calls of `recurse`.
- SudokuSolver.Sudoku.Recurse: completeness is stated relative to the
  candidate lists that the search reads. Whether a solution exists matters
  only through `Solve`, where the lists are exact. `Solve` therefore states
  the full guarantee: `Unsolvable` means no solution keeps the givens.
