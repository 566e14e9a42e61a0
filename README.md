# Chess-constrained Sudoku generator

This project models the generator in `final3testing.py`. The generator fills an empty
9x9 grid by randomised backtracking. A grid has to satisfy the classical Sudoku rules
(no repeated digit in a row, a column or a 3x3 box) and three extra rules:

- a knight's move away, no cell may hold the same digit;
- a king's move away, no cell may hold the same digit;
- orthogonally adjacent cells may not hold consecutive digits.

The search works as follows:

- It picks a most constrained empty cell (MRV: fewest remaining values).
- It tries that cell's classical candidates in random order.
- A digit is written only if it passes the adjacency rules.
- After each write, a forward check runs: if some empty cell in the same row, column or box has no classical candidate left, the write is undone.
- Otherwise the search recurses. When a branch fails, the write is undone.

Modules:

- `Grid` (`grid.dfy`): the grid as a value and the array snapshot.
  - `Board` is nine rows of nine integers; 0 means an empty cell.
  - `Cells` reads an `array2<int>` as a `Board`.
  - `Place` writes one cell.
- `Adjacency` (`adjacency.dfy`): the knight, king and orthogonal-difference rule.
  - It uses the three offset lists exactly as the source has them.
  - `AdjacencySpec` proves the rule equal to a geometric statement: no on-grid cell forbids the digit.
- `Constraints` (`constraints.dfy`): candidates and legality.
  - `PossibleNumbers` is the classical (base) candidate set; `Candidates` is that set filtered by the adjacency rule.
  - `Legal` says every filled cell is compatible with every other filled cell under all the rules.
  - `IsCompletion` says a grid is full, legal, and keeps every filled cell of a given grid.
- `Validator` (`validator.dfy`): `is_valid_row` and `is_valid_sudoku`. `ValidSudokuIff` proves the validator equal to "no two distinct cells sharing a unit hold the same non-zero digit".
- `Selector` (`selector.dfy`): `find_empty_cell` and `find_most_constrained_cell`.
- `Backtracker` (`backtracker.dfy`): the search that runs in place on an `array2<int>`.
  - `get_neighboring_cells`, the forward check, `solve_sudoku` and `generate_sudoku`.
  - The search is proved sound and complete. When it succeeds, the grid is full, keeps the input's digits and is legal whenever the input was. When it fails, the grid is restored and no legal completion exists.
- `Witness` (`witness.dfy`): a finished grid, proved to be a legal completion of the empty grid.
  - Its first row is 4 8 3 7 2 6 1 5 9; row `i` is that row rotated left by `(3i + i/3) mod 9` places.
  - In that pattern, digits d and d+1 always lie two places apart (mod 9), and cells that share a unit or a knight or king move never get the same place. So no two cells clash.
- `Scenarios` (`scenarios.dfy`): concrete grids showing what each rule excludes.

Randomness is modelled as free choice:

- Dafny's `:|` stands in for the shuffle at line 76, the set iteration order at line 129, and the `random.choice` at line 48.
- `find_empty_cell` is a function, so its draw is a `pick` parameter taken modulo the number of empty cells.

Every contract holds for every outcome of these choices.

Points about the code that the model follows as written:

- The search iterates over the classical candidate set (line 75). The adjacency rule is applied only when a digit is placed (line 79).
- The forward check tests the classical candidate set of each neighbour (line 92), not the adjacency-filtered one.
- `find_most_constrained_cell` ranks cells by the adjacency-filtered count (line 42).
- `generate_sudoku` (lines 62-68) runs the search once, ignores its result, and only logs an invalid grid. Only `main` loops, at lines 228-229.
- The top-level search never fails. The empty grid has a legal completion (`Witness.SolutionCompletesEmpty`), and `SolveSudoku` fails only when no legal completion exists.
- So `GenerateSudoku` always returns a finished puzzle that passes `is_valid_sudoku`. The log write at lines 65-67 never runs, and the retry loop in `main` never repeats.

## Model

| member | source | states |
|---|---|---|
| Grid.EmptyBoard | final3testing.py:63 | the grid of nine rows of nine zeros that generation starts from (no contract; its legality is `Backtracker.EmptyBoardLegal`) |
| Grid.IsValidCell | final3testing.py:167-168 | a coordinate pair lies on the grid when both parts are in 0..8 (a bounds predicate, no contract) |
| Grid.Place | final3testing.py:82 | writing a cell changes that cell to the digit and leaves every other cell as it was |
| Grid.PlaceUndo | final3testing.py:98 | resetting a cell that was empty before the write gives back the original grid (the undo at lines 98 and 103) |
| Grid.PlaceShrinksBlanks | final3testing.py:82 | filling an empty cell removes exactly that cell from the set of empty cells, so the recursion runs on strictly fewer blanks |
| Adjacency.IsValidForKingKnightAdjacent | final3testing.py:135-162 | the three offset scans of the source, each rejecting the digit on its first hit; characterised geometrically by `Adjacency.AdjacencySpec` (no contract of its own) |
| Adjacency.IsValidPlacement | final3testing.py:164-165 | delegates to the adjacency rule, as the source does (no contract of its own) |
| Adjacency.AdjacencySpec | final3testing.py:135-162 | the three offset scans accept a digit exactly when no on-grid cell a knight or king move away holds it and no orthogonal neighbour holds a non-zero digit that differs from it by one |
| Adjacency.MovesGeometry | final3testing.py:137-153 | every offset in the knight, king and adjacent lists is a move of that kind |
| Adjacency.MovesComplete | final3testing.py:137-153 | every knight, king and orthogonal step appears in the matching list, so no move is missed |
| Adjacency.ForbidsSymmetric | final3testing.py:135-162 | if a cell forbids a digit at another cell, then that digit, once placed, forbids the first cell's digit there (the rule is symmetric) |
| Constraints.PossibleNumbers | final3testing.py:50-60 | the digits 1..9 minus the values of the row, the column and the box; the result lies within 1..9 and never holds the cell's own value; membership is characterised by `Constraints.PossibleNumbersSpec` |
| Constraints.PossibleNumbersSpec | final3testing.py:50-60 | a value is a base candidate exactly when it is in 1..9 and appears in neither the row, the column nor the 3x3 box of the cell |
| Constraints.BoxRange | final3testing.py:54-55 | the box starting at `row - row % 3` covers exactly the rows with the same `row / 3` |
| Constraints.Candidates | final3testing.py:125-133 | the full candidates are a subset of the digits 1..9 |
| Constraints.CandidatesAtMostNine | final3testing.py:125-133 | a cell has at most nine full candidates, so the initial minimum of 10 at line 37 exceeds every count |
| Constraints.GetNumbers | final3testing.py:125-133 | the list holds exactly the base candidates that pass the adjacency rule, with no repeats, and its length is the size of the full candidate set |
| Constraints.PossibleNumbersAfterPlacement | final3testing.py:106-109 | the placed digit is never a candidate afterwards, and for an empty cell the result is the base set minus that digit; the input grid is not changed |
| Constraints.CandidateIff | final3testing.py:50-60 | for an empty cell, a digit is a full candidate exactly when it is in 1..9 and clashes with no filled cell under any rule (combining lines 50-60 with 135-162) |
| Constraints.ClashSymmetric | final3testing.py:135-162 | a clash between two cells does not depend on which one is named first |
| Constraints.PlaceKeepsCompatible | final3testing.py:82 | after a full candidate is written, every cell that was filled is still compatible with all the others |
| Constraints.PlaceKeepsLegal | final3testing.py:79-82 | writing a full candidate into an empty cell of a legal grid keeps the grid legal |
| Constraints.CompletionChoosesCandidate | final3testing.py:75-82 | any legal completion puts a full candidate into an empty cell, and is also a completion of the grid with that digit placed |
| Constraints.CompletionLeavesCandidates | final3testing.py:89-95 | an empty cell of a grid that has a legal completion still has a base candidate, so the forward check never discards a viable placement |
| Validator.IsValidRow | final3testing.py:198-200 | the size of the set of the non-zero entries equals their count; characterised by `Validator.IsValidRowIff` (no contract of its own) |
| Validator.ElementsCard | final3testing.py:200 | the set of a list is never larger than the list, and has the same size exactly when the list has no repeats |
| Validator.NonZeroMembers | final3testing.py:199 | the filtered list holds exactly the non-zero entries |
| Validator.NonZeroDistinct | final3testing.py:199 | the filtered list has no repeats exactly when no non-zero value occurs twice in the original |
| Validator.IsValidRowIff | final3testing.py:198-200 | `is_valid_row` holds exactly when no non-zero value occurs at two positions |
| Validator.Column | final3testing.py:182 | the column list holds the cells of that column, top to bottom |
| Validator.Square | final3testing.py:188-192 | the square list holds the box cells in row-major order |
| Validator.RowsIff | final3testing.py:177-179 | a row passes exactly when no two of its cells hold the same non-zero digit |
| Validator.ColumnsIff | final3testing.py:181-184 | a column passes exactly when no two of its cells hold the same non-zero digit |
| Validator.SquaresIff | final3testing.py:186-194 | a box passes exactly when no two of its cells hold the same non-zero digit |
| Validator.ValidSudokuIff | final3testing.py:176-196 | the validator accepts exactly the grids where no two distinct cells sharing a row, column or box hold the same non-zero digit |
| Validator.LegalIsValid | final3testing.py:176-196 | every legal grid passes the validator |
| Validator.EmptyIsValid | final3testing.py:176-196 | the empty grid passes the validator |
| Validator.IsValidSudoku | final3testing.py:176-196 | the scan, with its early returns, returns true exactly when every row, column and box passes `is_valid_row` |
| Selector.EmptyCells | final3testing.py:171 | the comprehension: the empty cells in row-major order; characterised by `Selector.EmptyCellsMembers` (no contract of its own) |
| Selector.EmptyCellsMembers | final3testing.py:171 | the comprehension lists exactly the empty cells |
| Selector.EmptyCellsFull | final3testing.py:171-173 | the list is empty exactly when the grid is full |
| Selector.FindEmptyCell | final3testing.py:170-174 | returns (-1, -1) exactly when the grid is full, otherwise an on-grid empty cell |
| Selector.FindEmptyCellReachesAll | final3testing.py:174 | every empty cell is returned by some random draw |
| Selector.FindMostConstrainedCell | final3testing.py:36-48 | returns (-1, -1) exactly when the grid is full; otherwise returns an empty cell whose full candidate count is no larger than that of any other empty cell |
| Backtracker.GetNeighboringCells | final3testing.py:111-123 | every listed cell is an empty cell other than the given one in its row, column or box, and every such cell is listed |
| Backtracker.NeighborsDecide | final3testing.py:91-95 | checking each listed neighbour is the same as checking every empty cell sharing a unit, whatever the duplicates in the list |
| Backtracker.ForwardCheck | final3testing.py:89-95 | the check passes exactly when every empty cell sharing a row, column or box with the placed cell still has a base candidate |
| Backtracker.CompletionsUseBaseCandidates | final3testing.py:75 | every legal completion uses one of the base candidates that the loop iterates over |
| Backtracker.RejectedDigitUnused | final3testing.py:79-80 | a digit skipped by the adjacency rule is used by no legal completion |
| Backtracker.DeadEndDigitUnused | final3testing.py:97-99 | a digit rejected by the forward check is used by no legal completion |
| Backtracker.UnsolvableDigitUnused | final3testing.py:101-103 | a digit after which the recursive search failed is used by no legal completion |
| Backtracker.ExtendsThroughPlace | final3testing.py:101-102 | a grid that keeps the digits of the grid after the write also keeps those of the grid before it |
| Backtracker.Write | final3testing.py:82 | one array assignment changes exactly that cell |
| Backtracker.SolveSudoku | final3testing.py:70-104 | on success the grid is full and keeps the input's digits, and it is legal whenever the input was; on failure the grid is as it was and no legal completion of the input exists |
| Backtracker.SolvedGrid | final3testing.py:176-196 | a full legal grid holds digits 1..9, passes the validator and obeys the knight, king and consecutive rules |
| Backtracker.EmptyBoardLegal | final3testing.py:63 | the empty starting grid is legal |
| Backtracker.GenerateSudoku | final3testing.py:62-68 | the returned grid is always a finished puzzle: full, legal, digits 1..9, obeying the knight, king and consecutive rules, and passing `is_valid_sudoku` |
| Witness.SolutionCompletesEmpty | final3testing.py:62-64 | the witness grid is a legal completion of the empty grid, so the search started at line 64 cannot fail |
| Scenarios.EmptyGridAllCandidates | final3testing.py:50-60 | on the empty grid every cell has all nine digits as base and full candidates |
| Scenarios.KingExcludesAcrossBoxes | final3testing.py:144-150 | a 5 one king step away in another box, row and column is allowed by the classical rules but rejected by the king rule |
| Scenarios.KnightExcludesAcrossBoxes | final3testing.py:136-142 | a 5 one knight jump away in another box, row and column is allowed by the classical rules but rejected by the knight rule |
| Scenarios.NeighbourExcludesConsecutive | final3testing.py:152-160 | next to a lone 5, a cell in the same row loses exactly 4, 5 and 6 |

## Left out

- Rendering: pygame setup, `draw_puzzle` and the redraw hook inside the search (lines 11-30, 84-87, 202-218). These only display the grid and do not change it.
- Logging and files: the logging setup, the log file, the log write for an invalid grid and `save_puzzle_to_file` (lines 5-10, 32-34, 65-67, 220-222). These are file I/O. That the log write never runs is proved instead (`GenerateSudoku`).
- `main` (lines 224-247) is left out. Its event loop and frame clock are I/O. Its regeneration loop never repeats, because `GenerateSudoku` always returns a grid that passes the validator.
- Randomness: `random.shuffle`, `random.choice` and the iteration order of Python sets are not modelled as distributions. They are free choices, or the `pick` parameter of `FindEmptyCell`.
- Backtracker.GetNeighboringCells: only which cells appear is specified. How often a cell appears and the order are not, though the same cell can be listed twice (once from its row or column and once from its box).
- Backtracker.SolveSudoku: Python's recursion-depth limit is not modelled. The recursion is at most 81 calls deep.
