# Backtracking Sudoku solver

A Dafny model of the solver in `sudoku.py`. The board is a 9x9 grid of integers in which 0
marks an empty cell. The solver has three parts:

- `is_valid` (module `Rules`) decides whether a digit may go into a cell. The digit must be
  absent from the cell's row, its column and its 3x3 block.
- `get_next_cell` (module `CellChoice`) picks the cell to branch on next. It uses the
  minimum-remaining-values rule. For every empty cell it builds the increasing list of
  admissible digits. It returns the first empty cell in row-major order whose list is strictly
  shortest, or nothing when the board is full.
- `get_solutions` (module `Search`) enumerates completions depth-first. It writes each
  candidate of the chosen cell into the board in place, recurses, and then resets the cell to 0.

Module `Grid` holds the board type and the predicates the properties use:
- `Consistent`: no filled cell repeats its value in its row, column or block.
- `Full`: no cell is empty.
- `Solved`: consistent and full.
- `Extends`: agrees with another board on that board's filled cells.

Shape of the model:
- The read-only parts, `is_valid` and `get_next_cell`, take the board as a value (`seq<seq<int>>`).
- `get_solutions` works on a mutable `array2<int>`. It hands a copy (`Snapshot`) of the array to `GetNextCell`.
- `GetNextCell` keeps the nested loops of the original. It is proved equal to the recursive function `NextCell`, and the lemmas about `NextCell` carry its promises.
- The generator becomes a method that returns, in order, a copy of every board it would yield. It is proved equal to the pure enumeration `Solutions`.
- Soundness, completeness and no-duplicates are proved about `Solutions`.

The code does no check on the starting board. The model follows the code:
- Soundness and completeness are stated for a consistent starting board.
- `FullBoardYieldsItself` shows what happens otherwise. A full board is yielded once, as it is, even when its digits conflict. So "a board with a conflict has no solutions" is not something the code guarantees.

## Model

| member | source | states |
|---|---|---|
| Rules.IsValidIffUnseen | sudoku.py:38-48 | `is_valid(row, col, num, board)` holds exactly when no cell in the row, column or 3x3 block of (row, col) holds `num` |
| Rules.ColumnHas | sudoku.py:42 | `num` is in the column comprehension exactly when some row has `num` in that column |
| Rules.BlockHas | sudoku.py:44-48 | `num` is in the block comprehension from `3*(row//3), 3*(col//3)` exactly when some cell of the 3x3 block of (row, col) holds it |
| Rules.CandidatesFromMembers | sudoku.py:26-28 | from `low` on, the comprehension lists exactly the digits in `low..9` that `is_valid` admits |
| Rules.CandidatesFromAscending | sudoku.py:26-28 | from `low` on, the comprehension lists its digits in strictly increasing order |
| Rules.CandidatesSpec | sudoku.py:26-28 | each candidate list holds exactly the digits 1..9 that `is_valid` admits, in strictly increasing order, each one a digit that passes `is_valid` |
| Rules.AscendingDeterminedByMembers | sudoku.py:26-28 | two increasing lists with the same members are equal, so the membership characterisation fixes the candidate list |
| Rules.PlaceKeepsConsistent | sudoku.py:58-59 | writing an admissible digit into an empty cell of a consistent board keeps it consistent |
| Rules.SolvedUnitsHoldEveryDigit | sudoku.py:38-48 | on a solved board, every row, column and block holds pairwise different values and every digit 1..9 |
| Grid.Place | sudoku.py:59 | `board[row][col] = num` changes that one cell to `num` and leaves every other cell as it was |
| Grid.PlaceShrinks | sudoku.py:57-60 | filling an empty cell leaves strictly fewer empty cells, which makes the recursion terminate |
| Grid.Snapshot | sudoku.py:55 | the copy of the live board has the 9x9 shape and agrees with the board cell by cell |
| CellChoice.GetNextCell | sudoku.py:18-35 | the nested row/column loops return exactly `NextCell(board)` |
| CellChoice.StepKeepsBest | sudoku.py:25-31 | one pass of the loop body keeps the best-so-far promise, now over one more cell |
| CellChoice.ScanIsBest | sudoku.py:23-31 | after the first `k` cells in row-major order, the best-so-far is an empty cell with its candidates, no more candidates than any empty cell seen, and strictly fewer than every earlier one |
| CellChoice.NextCellIsMinRemaining | sudoku.py:21-35 | the result is `None` on a full board; otherwise an empty cell with its candidate list, no more candidates than any empty cell, and strictly fewer than every empty cell before it in row-major order |
| CellChoice.MinRemainingChoiceUnique | sudoku.py:29-31 | at most one result meets that promise: the strict `<` makes the first minimal cell the only answer |
| CellChoice.NextCellFacts | sudoku.py:32-35 | `None` is returned exactly when the board is full; otherwise the cell is empty and its list is the increasing list of the digits `is_valid` admits there |
| Search.Solutions | sudoku.py:51-61 | every yielded board is full and agrees with the starting board on its filled cells |
| Search.SolutionsFor | sudoku.py:58-61 | the boards yielded by the loop over some candidates are full, extend the board, and hold one of those candidates in the chosen cell |
| Search.GetSolutions | sudoku.py:51-61 | the in-place search yields exactly `Solutions` of the starting board, every one full and extending it, and leaves the board exactly as it found it |
| Search.FullBoardYieldsItself | sudoku.py:53-56 | a full board, consistent or not, is yielded once and as it is |
| Search.DeadEndYieldsNothing | sudoku.py:57-61 | a chosen cell without candidates yields nothing |
| Search.SolutionsDistinct | sudoku.py:58-60 | no board is yielded twice |
| Search.SolutionsSound | sudoku.py:58-60 | from a consistent board, every yielded board is solved |
| Search.SolutionsHoldEveryDigit | sudoku.py:58-60 | from a consistent board, every yielded board holds each digit 1..9 exactly once in every row, column and block |
| Search.SolutionsComplete | sudoku.py:52 | every solved board that agrees with the starting board on its filled cells is yielded |
| Search.SolutionsExactlyCompletions | count_sudokus.py:8-15 | from a consistent board, the yielded boards are exactly its solved completions, each yielded exactly once, so counting the yields counts the completions |

## Left out

- `print_sudoku` and the printing in `main` (sudoku.py:8-15, 64-89): console output only.
- The `perf_counter` timing in `main`: wall-clock time and float formatting.
- `count_sudokus.py`, except the counting claim, which `SolutionsExactlyCompletions` states. Its progress printing and the number it prints are not modelled. That number is far beyond what a proof can enumerate.
- The `samples` module: literal puzzle data, not part of this model.
- Generator suspension and resumption. The yields are collected eagerly into a sequence. The original yields the live board object, which the search keeps mutating after the consumer resumes it. The model returns a copy taken at the moment of each yield, and does not model that aliasing.
- Boards that are not 9x9, or that hold rows of other lengths. Every operation requires the 9x9 shape, which the original indexes into without checks.
- Search.GetSolutions: the yielded boards are the `Snapshot` values of the board. Which Python object a consumer receives is not modelled.
- CellChoice.GetNextCell: its contract ties the result to `NextCell`. The minimum-remaining-values promise and the candidate characterisation are stated on `NextCell` by `NextCellIsMinRemaining` and `NextCellFacts`.
- Values outside 0..9 on the starting board: `is_valid` and the search still run on them. Soundness and completeness assume a consistent board, whose cells hold 0..9.
