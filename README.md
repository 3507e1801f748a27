# Sudoku solver — Dafny model

This project models `sudoku.cpp`, a small brute-force Sudoku solver.

The program reads a puzzle from standard input. An underscore is an empty cell, a digit is a given, and every other character is skipped. It rejects the input unless exactly 81 cells were read. It then runs a depth-first search in row-major order and prints every completed board it reaches.

Each cell keeps its digit (0 while empty) and a bit mask of the digits that may still go there. `Board::assign` places a digit. It then strikes that digit from every cell of the column, the row and the 3x3 box of the target, the target included. `Board::find` skips filled cells. At the first empty cell it tries every candidate digit in ascending order, each on its own copy of the board.

The model is split into five modules:

- `Cells` (`cell.dfy`): the `Cell` struct as a datatype. It covers `assignable()`, `assignable(dig)`, `cant_assign` and the default constructor.
- `Grids` (`grid.dfy`): a board as a value, an 81-cell sequence.
  - the index arithmetic of `Board::cell(row, col)`;
  - the peer relation;
  - `assign` as a function, with the board invariants it keeps.
- `Search` (`search.dfy`): `find` as a function from a board and a start position to the boards it emits, in emission order. It proves:
  - soundness: every emitted board is a completion of its input;
  - completeness: every solution the masks admit is emitted;
  - strictly increasing output order, so no board is emitted twice.
- `Text` (`text.dfy`):
  - the read loop of `main`, as a function on the input text with an error result;
  - the text `print` writes;
  - the round trip between the two.
- `Boards` (`boards.dfy`): `struct Board` as a class over an 81-element array. Each method is proved against the function that specifies it:
  - `Assign`, with its column, row and box loops;
  - `Find`, with its skip loop, digit loop and recursion on a copy;
  - `Print`.
- `Solver` (`solver.dfy`): `main`. It has the read loop on a `Board`, the count check, then `find(0)`, and the end-to-end correctness of the program.

Standard input becomes a `string` parameter. Instead of printing each completed board, `find` returns the sequence of boards it would print. What `print` writes for a board is given by `Text.Render`, and `Boards.Board.Print` returns that string.

## Model

| member | source | states |
|---|---|---|
| Cells.Cell.Any | sudoku.cpp:52-54 | defines `assignable()`: the mask is not zero; `Cells.AnyIffSomeCandidate` ties it to the per-digit test |
| Cells.Cell.Has | sudoku.cpp:55-58 | defines `assignable(dig)`: bit `dig` of the mask is set; the `CantAssign` lemmas state how striking changes it |
| Cells.Cell.CantAssign | sudoku.cpp:59-62 | the digit is kept and `dig` is no longer a candidate |
| Cells.CantAssignKeepsOthers | sudoku.cpp:59-62 | striking `dig` leaves every other digit's candidacy as it was |
| Cells.CantAssignOnlyClears | sudoku.cpp:59-62 | no bit of the mask changes except the bit of `dig` |
| Cells.CantAssignIdempotent | sudoku.cpp:59-62 | striking twice equals striking once |
| Cells.CantAssignIgnoresAssigned | sudoku.cpp:59-62 | an assigned cell that lists `dig` is struck too; its digit is kept |
| Cells.CantAssignShrinks | sudoku.cpp:59-62 | the mask never gains a bit, and well-formed cells stay well-formed |
| Cells.NewCell | sudoku.cpp:64-74 | a new cell is empty, well-formed, and lists every digit 1..9 |
| Cells.NewCellMask | sudoku.cpp:64-74 | a new cell's mask is exactly bits 1..9 |
| Cells.AnyIffSomeCandidate | sudoku.cpp:52-58 | on a well-formed cell, `assignable()` holds iff `assignable(d)` holds for some digit 1..9 |
| Grids.Blank | sudoku.cpp:163 | defines the board `Board b;` starts from, 81 default-constructed cells; `Boards.Board.constructor` builds it and `Text.ParsedMasks` starts from it |
| Grids.At | sudoku.cpp:89-98 | `cell(row, col)` is in range and lies in row `row`, column `col` |
| Grids.AtRowCol | sudoku.cpp:81-98 | every flat index is `cell(row, col)` of its own row and column |
| Grids.SameCell | sudoku.cpp:89-98 | two indices with the same row and column are equal, and conversely |
| Grids.BoxLoopCoversBox | sudoku.cpp:154-158 | the cells the box loop visits are exactly the cells of the target's box |
| Grids.Assign | sudoku.cpp:143-159 | defines `assign` on a board value: place the digit, then strike it from every cell sharing a row, column or box with the target; `Grids.AssignAt` and `Grids.AssignEffect` state its effect, and `Boards.Board.Assign` is proved equal to it |
| Grids.AssignAt | sudoku.cpp:143-158 | what `assign` does to one cell: its digit, the struck candidate, untouched cells outside the unit, no new candidate, other digits kept |
| Grids.AssignEffect | sudoku.cpp:143-158 | the same, for every cell at once |
| Grids.AssignWellFormed | sudoku.cpp:143-158 | `assign` keeps every cell well-formed |
| Grids.AssignFillsOne | sudoku.cpp:143-158 | on an empty cell, `assign` removes exactly that cell from the empty ones |
| Grids.AssignKeepsExclusion | sudoku.cpp:143-158 | no mask lists a digit that a peer holds, before and after |
| Grids.AssignConsistent | sudoku.cpp:143-158 | placing a digit that no peer holds keeps the board free of duplicates |
| Grids.GuardedAssignConsistent | sudoku.cpp:117-121 | a digit still in the mask can be placed without breaking consistency |
| Grids.AssignKeepsJustified | sudoku.cpp:143-158 | every missing candidate is still held by some cell of the same unit |
| Search.Enumerate | sudoku.cpp:103-124 | defines the boards `find(pos)` emits, in emission order; its soundness, completeness and order are the `Enumerate` lemmas below, and `Boards.Board.Find` is proved equal to it |
| Search.Branches | sudoku.cpp:117-123 | defines the boards the digit loop emits from digit `dig` on; the `Branches` lemmas below state their properties |
| Search.EnumerateCompletes | sudoku.cpp:103-124 | every emitted board completes the board searched; well-formedness and consistency carry over |
| Search.BranchesComplete | sudoku.cpp:117-123 | every board emitted by the digit loop from `dig` on completes the board and has a digit of at least `dig` at `pos` |
| Search.EnumerateIncreasing | sudoku.cpp:103-124 | emissions come in strictly increasing row-major digit order |
| Search.BranchesIncreasing | sudoku.cpp:117-123 | the same for the digit loop, from any digit on |
| Search.EnumerateFinds | sudoku.cpp:103-124 | every solution that keeps the placed digits and is admitted by the masks is emitted |
| Search.BranchesFinds | sudoku.cpp:117-123 | the digit loop emits that solution once it reaches its digit |
| Search.EmptyBoardHasSolution | sudoku.cpp:103-124 | the search on the empty board emits at least one completed Sudoku |
| Search.EnumerateDeadEnd | sudoku.cpp:105-116 | an empty cell with no candidate ends the search with no output |
| Text.Render | sudoku.cpp:126-141 | defines the text `print` writes; `Text.RenderShape` and `Text.RenderMarks` state its layout, and `Boards.Board.Print` is proved equal to it |
| Text.CellTextShape | sudoku.cpp:130-136 | one printed cell is its symbol, followed by a space after columns 2 and 5 |
| Text.RowPrefixShape | sudoku.cpp:129-137 | cell `k` of a row is printed at character `k + Gaps(k)`, with spaces at characters 3 and 7 |
| Text.RowPrefixAt | sudoku.cpp:129-137 | the symbol of cell `k` sits at character `k + Gaps(k)` of every longer row prefix |
| Text.RowPrefixSpaces | sudoku.cpp:135-136 | the spaces after cells 2 and 5 are characters 3 and 7 |
| Text.LineShape | sudoku.cpp:128-138 | each printed row is 12 characters: nine symbols in three groups, two spaces, a newline |
| Text.LinesShape | sudoku.cpp:128-139 | row `r` occupies characters `12r` to `12r + 11` |
| Text.RenderShape | sudoku.cpp:126-141 | a printed board is 109 characters, with row `r` at `12r` and a final blank line |
| Text.RowPrefixMarks | sudoku.cpp:128-137 | the digits and underscores of a row prefix are its cells' symbols |
| Text.LinesMarks | sudoku.cpp:128-139 | the digits and underscores of the first `n` rows are the symbols of those cells, in order |
| Text.RenderMarks | sudoku.cpp:126-141 | a printed board holds exactly 81 marks, the symbols of its cells in row-major order |
| Text.Step | sudoku.cpp:166-174 | defines one pass of the read loop: `_` advances the counter; a digit is assigned below 81 and advances it; a `0` below 81 is an error; other characters are skipped |
| Text.Feed | sudoku.cpp:166-174 | defines the read loop over a whole input; `Text.FeedDigits`, `Text.FeedZero` and `Text.FeedBuilding` state what it computes |
| Text.ParseGrid | sudoku.cpp:163-176 | defines the read loop from a fresh board followed by the count check; `Text.ParseDigits`, `Text.ParseRejectsZero`, `Text.ParsedMasks` and `Text.RoundTrip` state its behaviour |
| Text.MarksAppend | sudoku.cpp:166-174 | the marks of a concatenation are the marks of its parts, concatenated |
| Text.FeedAppend | sudoku.cpp:166-174 | reading `a + b` is reading `a`, then `b` |
| Text.FeedErr | sudoku.cpp:169-171 | once the read loop has failed, it stays failed |
| Text.FeedDigits | sudoku.cpp:166-174 | with no `0` among the assigned marks: the loop succeeds, counts every mark, and writes each cell from the counter the digit read at its position |
| Text.FeedZero | sudoku.cpp:169-171 | the first `0` read below position 81 stops the loop with that position |
| Text.ParseDigits | sudoku.cpp:163-176 | without such a `0`: accepted iff there are 81 marks, cell `p` then holds mark `p`'s digit, and otherwise the error is the count |
| Text.ParseRejectsZero | sudoku.cpp:169-171 | a `0` among the first 81 marks is refused at the first such position |
| Text.AssignBuilding | sudoku.cpp:170-172 | one assignment at the counter keeps the read loop's invariant with the counter advanced |
| Text.FeedBuilding | sudoku.cpp:166-174 | the read loop keeps that invariant through any input |
| Text.ParsedMasks | sudoku.cpp:163-174 | every accepted board has well-formed cells and masks consistent with the digits in the same unit |
| Text.RoundTrip | sudoku.cpp:126-176 | reading what `print` wrote gives back every cell's digit |
| Boards.Board.constructor | sudoku.cpp:163 | `Board b;` gives 81 fresh cells |
| Boards.Board.Copy | sudoku.cpp:119 | the copy has the same cells, in a fresh array |
| Boards.Board.Assign | sudoku.cpp:143-159 | the three loops leave the array equal to `Grids.Assign` of the old array, and it stays well-formed |
| Boards.Board.Find | sudoku.cpp:103-124 | the boards emitted are `Search.Enumerate` of the board, in order |
| Boards.Board.Print | sudoku.cpp:126-141 | the text written is `Text.Render` of the board |
| Solver.Solutions | sudoku.cpp:161-178 | defines what the program computes: the parse error, or the boards `find(0)` emits on the parsed board; `Solver.SolutionsCorrect` and `Solver.ClashingGivens` state what they are, and `Solver.Run` is proved equal to it |
| Solver.Parse | sudoku.cpp:161-176 | the read loop on a `Board` fails exactly when `ParseGrid` fails, with the same error; otherwise it builds the board `ParseGrid` describes |
| Solver.Run | sudoku.cpp:161-178 | the program's output is `Solutions` of its input |
| Solver.SolutionsCorrect | sudoku.cpp:161-178 | when the givens clash nowhere, the program prints exactly the solutions that keep the givens, each once, in increasing order |
| Solver.GivensAdmit | sudoku.cpp:163-174 | every solution that keeps the givens is admitted by the masks the read loop leaves |
| Solver.ClashingGivens | sudoku.cpp:163-177 | when two peer givens are equal, no board the program prints is a Sudoku |

## Left out

- Standard input and `cout`: the input is a `string` parameter. Each board `find` would print is returned as a value. `Text.Render` gives the text printed for it.
- The `throw` on a bad count becomes the result `Err(BadCount(pos))`. Uncaught-exception termination is not modelled.
- A `0` in the input while the counter is below 81 makes the source call `assign(pos, 0)`. That call fails the debug assertion. Under `NDEBUG` it would assign 0 and strike bit 0. The model refuses this input with `Err(ZeroDigit(pos))` and does not model the `NDEBUG` behaviour. Past position 80, a `0` is counted like any other digit, as in the source.
- The `unsigned` mask is modelled by its low ten bits (`bv10`). No operation sets or tests a bit above 9, so no observable behaviour is lost.
- `int pos` in `main` overflows, which is undefined behaviour in C++, on an input with more than `INT_MAX` marks. The model's counter is an unbounded integer, so such an input is rejected with `BadCount`.
- The example puzzle in the comment at the top of `sudoku.cpp`, and the fact that it has exactly one solution, are not proved. `Solver.SolutionsCorrect` gives the program's output for any puzzle whose givens do not clash.
- Running time and stack depth of the search are not modelled; the functions are total.
- `Cell& cell(int pos)` and its bounds assertions: the model indexes the array directly, and every index is proved in range.
- Cells.Cell.CantAssign: the struct field updated in place becomes an array element replaced by the updated value. The fact that no other bit changes is not in its own contract; `Cells.CantAssignOnlyClears` states it.
- Boards.Board.Assign: the source strikes `dig` from the target cell too. The target is struck three times, by the column, row and box loops. Other cells of the box in the target's row or column are struck twice. The model does the same; the contract states the net effect.

## Notes on the code

- `cant_assign` clears the bit even on an assigned cell (`Cells.CantAssignIgnoresAssigned`). The search never reads the mask of an assigned cell, so this does not change the output.
- `assign` strikes the digit from the target cell as well as from its 20 peers.
- The source does not check that the givens are mutually consistent. `Solver.ClashingGivens` states what happens then: no printed board is a valid Sudoku. `Solver.SolutionsCorrect` states the result when the givens do not clash.
