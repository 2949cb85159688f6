# Sudoku solver — a Dafny model

This project models the core of a Java Sudoku solver:

- the fixed 9×9 topology of `Position`. There are 81 canonical coordinates, and each one has a set of peers ("neighbours") that share its row, column or 3×3 block;
- the cell-based `SudokuBoard`. It is a 9×9 array of mutable `Cell`s wired as neighbours, with a copy-on-write `withValue(row, col, value)` and a fixed-format `toString`;
- the board API that the solver and the commands call. `withValue(Position, Value)`, `getUnsolvedPositions`, `getPossibleValues` and `isSolved` work on an immutable map from positions to the values 1..9;
- `Solver.findSolutions`. It prunes invalid boards, accepts solved ones, follows a naked single (a cell with exactly one candidate) without branching, and otherwise branches on the cell with the fewest candidates and unions the results;
- the puzzle loaders. `SampleCommand.load` turns a 9×9 grid of ints into a board, and the loop of `RowCommand.row` reads one row from a string of digits.

Modules, one per source component:

| file | module | source |
|---|---|---|
| `util.dfy` | `Util` | `Option` / `Result` for `OptionalInt`, `null` and exceptions |
| `grid.dfy` | `Grid` | `model/Position.java` |
| `cells.dfy` | `Cells` | `model/Cell.java` |
| `sudoku_board.dfy` | `CellBoard` | `model/SudokuBoard.java` |
| `boards.dfy` | `Boards` | the board API used by `Solver`, `SampleCommand` and `RowCommand` |
| `solver.dfy` | `Solver` | `service/Solver.java` |
| `sample_command.dfy` | `SampleCommand` | `commands/SampleCommand.java` |
| `row_command.dfy` | `RowCommand` | `commands/RowCommand.java` |

Modelling notes:

- `Solver`, `SampleCommand` and `RowCommand` compile against a newer board class and a `Value` enum. That board class is not modelled. `Boards` models that board as a map from `Position` to 1..9. Its `withValue` fails only with `ValueAlreadySetException`, and only when the position holds a different value. Its candidates are 1..9 minus the values at the position's neighbours, in ascending order.
- The board's `isValid` belongs to that class, so the solver takes it as a parameter, and its guarantees are stated relative to it. `Boards.ValidSpec` is the Sudoku rule: no value repeated among peers, and every empty cell keeps a candidate. `Solver.ValidSpecMeetsHypotheses` shows that this definition meets the solver's completeness hypotheses.
- `Cell` is a Lombok `@Data` class, so `equals` compares `value` and `neighbours` structurally. `Cells.Cell.SameAs` is that equality, and `Cells.Insert` is `HashSet.add` under it. When the constructor builds its row, column and block groups, every cell is still fresh. So each group collapses to a single cell, and no cell ever gains a neighbour: `CellBoard.SudokuBoard.constructor` proves that every cell ends with an empty neighbour set.
- Exceptions become `Result` values: `ArrayIndexOutOfBoundsException`, `ValueAlreadySetException` and `ConflictingNeighbourValueException`.

## Model

| member | source | states |
|---|---|---|
| `Grid.At` | src/main/java/com/example/demo/model/Position.java:36-38 | `at(r, c)` yields the position with that row and column exactly when both are in 0..8; otherwise the array lookup fails |
| `Grid.InitPositions` | src/main/java/com/example/demo/model/Position.java:13-23 | the static initializer stores at `POSITIONS[r][c]` the position `at(r, c)` returns, and fills `ALL_POSITIONS` with all 81 coordinates |
| `Grid.AllPositionsCount` | src/main/java/com/example/demo/model/Position.java:13-23 | `ALL_POSITIONS` holds exactly 81 distinct positions |
| `Grid.ComputeNeighbours` | src/main/java/com/example/demo/model/Position.java:40-56 | the loop that adds row, column and block members (block member i is (blockRow + i/3, blockCol + i%3)) and then removes p yields exactly p's peers |
| `Grid.BlockEnumeration` | src/main/java/com/example/demo/model/Position.java:43-51 | the nine block members the loop visits from the origin ((row/3)·3, (col/3)·3) are exactly the positions in p's block |
| `Grid.NotOwnNeighbour` | src/main/java/com/example/demo/model/Position.java:53 | p is never among its own neighbours |
| `Grid.NeighbourParts` | src/main/java/com/example/demo/model/Position.java:43-53 | p's neighbours are the 8 other cells of its row, the 8 other cells of its column, and the 4 cells of its block that share neither |
| `Grid.NeighbourCount` | src/main/java/com/example/demo/model/Position.java:43-53 | every position has exactly 20 neighbours |
| `Grid.NeighbourSymmetric` | src/main/java/com/example/demo/model/Position.java:43-53 | q is a neighbour of p if and only if p is a neighbour of q |
| `Cells.Cell.constructor` | src/main/java/com/example/demo/model/Cell.java:13-14 | a new cell has no value and no neighbours |
| `Cells.Insert` | src/main/java/com/example/demo/model/Cell.java:18 | `HashSet<Cell>.add` under `@Data` equality: the set only grows, by at most the new cell, which joins only when no equal cell is present |
| `Cells.Cell.AddNeighbour` | src/main/java/com/example/demo/model/Cell.java:16-20 | the receiver itself is skipped (reference test); any other cell is added as `HashSet.add` does under `@Data` equality; the value is unchanged |
| `Cells.Cell.AddNeighbours` | src/main/java/com/example/demo/model/Cell.java:22-24 | every given cell other than the receiver ends up in the neighbour set up to `@Data` equality, nothing else is added, and the value is unchanged |
| `Cells.Cell.GetNeighbourValues` | src/main/java/com/example/demo/model/Cell.java:26-34 | the result is the set of values of the neighbours that have one; no cell changes |
| `Cells.ValuesOfSpec` | src/main/java/com/example/demo/model/Cell.java:26-34 | a value is collected if and only if some neighbour holds it; neighbours without a value contribute nothing |
| `Cells.FreshCellsEqual` | src/main/java/com/example/demo/model/Cell.java:10-14 | two fresh cells are equal under `@Data`, so a `HashSet` keeps only one of them |
| `CellBoard.RowGroup` | src/main/java/com/example/demo/model/SudokuBoard.java:26-29 | the row's `HashSet<Cell>` holds every cell of the row up to equality; on fresh cells it is the first cell alone |
| `CellBoard.ColGroup` | src/main/java/com/example/demo/model/SudokuBoard.java:35-38 | the same for a column |
| `CellBoard.BlockGroup` | src/main/java/com/example/demo/model/SudokuBoard.java:45-50 | the same for a block, visited column offset by column offset |
| `CellBoard.WireGroup` | src/main/java/com/example/demo/model/SudokuBoard.java:30 | `group.forEach(c -> c.addNeighbours(group))` gives each member only other members of the group and changes no value |
| `CellBoard.WireRows` | src/main/java/com/example/demo/model/SudokuBoard.java:25-31 | on fresh cells the row wiring leaves every cell fresh |
| `CellBoard.WireCols` | src/main/java/com/example/demo/model/SudokuBoard.java:34-40 | on fresh cells the column wiring leaves every cell fresh |
| `CellBoard.WireBlocks` | src/main/java/com/example/demo/model/SudokuBoard.java:43-53 | on fresh cells the block wiring leaves every cell fresh |
| `CellBoard.BlocksPartition` | src/main/java/com/example/demo/model/SudokuBoard.java:43-50 | the cells visited as (blockRow·3 + rowOffset, blockCol·3 + colOffset) put each position in exactly one block, the one of its own band indices |
| `CellBoard.BlockCellsAreBlock` | src/main/java/com/example/demo/model/SudokuBoard.java:43-50 | a block group is exactly the positions in the same block as its member |
| `CellBoard.SudokuBoard.constructor` | src/main/java/com/example/demo/model/SudokuBoard.java:15-54 | 81 distinct fresh cells; after the wiring every cell still has no value and no neighbour |
| `CellBoard.SudokuBoard.NewCells` | src/main/java/com/example/demo/model/SudokuBoard.java:16-22 | the allocation loops give 81 distinct fresh cells, none with a value or a neighbour |
| `CellBoard.SudokuBoard.Empty` | src/main/java/com/example/demo/model/SudokuBoard.java:56-58 | `empty()` is a fresh 9×9 board with no values and no wired neighbours |
| `CellBoard.CopyValues` | src/main/java/com/example/demo/model/SudokuBoard.java:62-67 | the copy loops give the fresh board exactly the values of `this` |
| `CellBoard.CheckAndSet` | src/main/java/com/example/demo/model/SudokuBoard.java:68-75 | the index fails first; then a different value already set fails; then a neighbour holding the value fails; only when all pass is the one cell set, and nothing else changes |
| `CellBoard.SudokuBoard.WithValue` | src/main/java/com/example/demo/model/SudokuBoard.java:60-76 | `this` is not modified; the result is a fresh board with `this`'s values and `setValue` at (setRow, setCol), or the error `SetCell` gives |
| `CellBoard.SetCell` | src/main/java/com/example/demo/model/SudokuBoard.java:60-76 | on values: out-of-range indices fail; `ValueAlreadySetException` is raised exactly when the cell holds a different value; as wired, the neighbour conflict never fires; on success only the target changes, to the unchecked `setValue` |
| `CellBoard.SetCellIdempotent` | src/main/java/com/example/demo/model/SudokuBoard.java:69-74 | re-setting the value a cell already holds passes the already-set test and changes nothing more |
| `CellBoard.SetCellAcceptsPeerConflict` | src/main/java/com/example/demo/model/SudokuBoard.java:71-72 | as written, a 5 at (0,4) is accepted beside a 5 at (0,0), breaking the no-repeated-peer property |
| `CellBoard.SetCellChecked` | src/main/java/com/example/demo/model/SudokuBoard.java:69-74 | with the intended wiring, `ConflictingNeighbourValueException` is raised exactly when the already-set test passes and a peer holds `setValue` |
| `CellBoard.SetCellCheckedRefusesPeerConflict` | src/main/java/com/example/demo/model/SudokuBoard.java:71-72 | the intended check refuses that same 5 |
| `CellBoard.SetCellCheckedKeepsNoPeerConflict` | src/main/java/com/example/demo/model/SudokuBoard.java:69-74 | with the intended check, a board without a repeated peer value never gains one |
| `CellBoard.SudokuBoard.ToString` | src/main/java/com/example/demo/model/SudokuBoard.java:78-99 | the `StringBuilder` loops produce `Render` of the board's values |
| `CellBoard.SudokuBoard.CellText` | src/main/java/com/example/demo/model/SudokuBoard.java:83-94 | one cell's text is a space, then the value or '.', then " $" in columns 2, 5 and 8 and " \|" elsewhere, as `Render` has it |
| `CellBoard.UnsetCellShowsDot` | src/main/java/com/example/demo/model/SudokuBoard.java:84-89 | a cell without a value shows a dot at its place in `toString`, so the empty board shows a dot in every cell |
| `CellBoard.RenderLayout` | src/main/java/com/example/demo/model/SudokuBoard.java:78-99 | with single-digit values: 342 characters in 9 lines of 38; each line starts with `$` and ends with a newline; cell (r, c) shows " d" or " .", then " $" when c % 3 == 2 and " \|" otherwise |
| `Boards.ValueAt` | src/main/java/com/example/demo/commands/SampleCommand.java:61 | `Value.values()[k]` is the value k+1 for k in 0..8, and out of bounds otherwise |
| `Boards.WithValue` | src/main/java/com/example/demo/service/Solver.java:43-47 | `withValue(p, v)` fails with `ValueAlreadySetException` exactly when p holds a different value; otherwise p holds v and every other position is unchanged |
| `Boards.WithValueIdempotent` | src/main/java/com/example/demo/service/Solver.java:44 | setting the same value twice is the same as setting it once |
| `Boards.WithValueConflict` | src/main/java/com/example/demo/service/Solver.java:45-46 | setting a different value at an assigned position fails |
| `Boards.WithValueExtends` | src/main/java/com/example/demo/service/Solver.java:44 | a successful `withValue` keeps every earlier assignment |
| `Boards.WithValueShrinks` | src/main/java/com/example/demo/service/Solver.java:31 | assigning an unsolved position always succeeds and removes exactly that position from the unsolved ones, so the unsolved count drops by one |
| `Boards.RemainingSpec` | src/main/java/com/example/demo/service/Solver.java:29 | the list built from `from` holds exactly the values from..9 that are not excluded, strictly ascending, at most 10 - from of them, and all of them when nothing is excluded |
| `Boards.CandidatesSpec` | src/main/java/com/example/demo/service/Solver.java:29 | `getPossibleValues(p)` is 1..9 minus the neighbour values, ascending; it has all 9 when no neighbour has a value |
| `Boards.EmptyCandidates` | src/main/java/com/example/demo/service/Solver.java:25-29 | on the empty board every position has all nine candidates, in `Value` order |
| `Boards.UnsolvedSpec` | src/main/java/com/example/demo/service/Solver.java:28 | `getUnsolvedPositions()` lists exactly the unassigned positions, and is empty exactly when the board is solved |
| `Boards.NeighbourValuesGrow` | src/main/java/com/example/demo/service/Solver.java:29 | adding assignments only adds neighbour values |
| `Boards.ExtensionValueIsCandidate` | src/main/java/com/example/demo/service/Solver.java:29 | the value that a conflict-free extension puts at a position is one of that position's candidates now |
| `Boards.SolvedExtensionIsSame` | src/main/java/com/example/demo/service/Solver.java:21-23 | a solved board has no other extension than itself |
| `Boards.ValidSpecDownwardClosed` | src/main/java/com/example/demo/service/Solver.java:18-20 | the Sudoku rule passes to every board that an extension comes from |
| `Boards.SameRowFivesInvalid` | src/main/java/com/example/demo/service/Solver.java:18-20 | two 5s in the same row make a board invalid |
| `Solver.ScanFrom` | src/main/java/com/example/demo/service/Solver.java:28-36 | the loop's decision names a position of the iteration order |
| `Solver.Scan` | src/main/java/com/example/demo/service/Solver.java:25-36 | the position the loop forces or branches on is unsolved |
| `Solver.ScanFromSpec` | src/main/java/com/example/demo/service/Solver.java:28-35 | from any point of the loop, with the loop variables meaning what they should, the decision follows the rules `ScanSpec` states |
| `Solver.ScanSpec` | src/main/java/com/example/demo/service/Solver.java:25-39 | the loop forces if and only if some unsolved position has one candidate, and then it takes the first such position and its value; otherwise it branches on the first position with strictly fewer candidates than every earlier one and below 9 (ties go to the earliest); no position is chosen if and only if all have 9 |
| `Solver.ScanForcedIsSingle` | src/main/java/com/example/demo/service/Solver.java:30-31 | the forced value is the position's only candidate |
| `Solver.ScanBranchIsCandidates` | src/main/java/com/example/demo/service/Solver.java:33-40 | the branch ranges over exactly the candidates of the branch position |
| `Solver.FindSolutions` | src/main/java/com/example/demo/service/Solver.java:17-51 | the method (with early return and sequential union) computes the recursive `Solve` |
| `Solver.SolveSound` | src/main/java/com/example/demo/service/Solver.java:18-23 | every returned board passes `isValid`, is solved, and keeps every value of the starting board |
| `Solver.SolveComplete` | src/main/java/com/example/demo/service/Solver.java:28-50 | when the search returns a set (always, on a board with a value: `Solver.SolveFound`), every valid solved extension of the board is in it, for an `isValid` meeting the two hypotheses |
| `Solver.SolutionsExactly` | src/main/java/com/example/demo/service/Solver.java:17-51 | when the search returns a set (always, on a board with a value: `Solver.SolveFound`), it is exactly the valid solved boards that extend the given board |
| `Solver.SolveFound` | src/main/java/com/example/demo/service/Solver.java:17-51 | the search returns a set if and only if the board has a value or fails `isValid`; only a valid empty board ends at `withValue(null, v)` |
| `Solver.SolveFoundWithValue` | src/main/java/com/example/demo/service/Solver.java:25-50 | from a board with a value, neither the naked-single step nor the branches ever end without a set |
| `Solver.BranchFound` | src/main/java/com/example/demo/service/Solver.java:42-47 | each branch sets a value, so its search returns a set |
| `Solver.UnionFound` | src/main/java/com/example/demo/service/Solver.java:49-50 | when every branch returns a set, so does their union |
| `Solver.AssignedPeer` | src/main/java/com/example/demo/service/Solver.java:28-35 | on an unsolved board with a value, some unsolved position has an assigned neighbour |
| `Solver.ScanNotNoBranch` | src/main/java/com/example/demo/service/Solver.java:28-39 | on an unsolved board with a value, the loop forces or picks a branch position: `fewestPossiblePosition` is not left null |
| `Boards.AssignedNeighbourNarrows` | src/main/java/com/example/demo/service/Solver.java:29-32 | a position with an assigned neighbour has fewer than 9 candidates |
| `Solver.SolutionTakesSingle` | src/main/java/com/example/demo/service/Solver.java:30-31 | a conflict-free solution holds the forced value at the naked single, so forcing loses no solution |
| `Solver.SolutionTakesBranch` | src/main/java/com/example/demo/service/Solver.java:40-44 | a conflict-free solution holds one of the branch values at the branch position |
| `Solver.SolveBranches` | src/main/java/com/example/demo/service/Solver.java:39-50 | the loop over `fewestPossibles` computes the union of the branch results, where a `ValueAlreadySetException` from `withValue` contributes the empty set; the nested search never raises one (`Solver.SolveNeverAlreadySet`), so catching it there too changes nothing |
| `Solver.UnionContains` | src/main/java/com/example/demo/service/Solver.java:49-50 | when the union is a set of boards, every branch returned a set, and the union holds each of those sets |
| `Solver.UnionMember` | src/main/java/com/example/demo/service/Solver.java:49-50 | every board in the union comes from one of the branches |
| `Solver.UnionKeepsOut` | src/main/java/com/example/demo/service/Solver.java:49-50 | a failure that no branch has is not a failure of the union |
| `Solver.BranchSound` | src/main/java/com/example/demo/service/Solver.java:42-47 | every board that one branch returns is solved, passes `isValid`, and keeps every value of the board the branch started from |
| `Solver.BranchResultComplete` | src/main/java/com/example/demo/service/Solver.java:42-47 | the branch that sets a solution's own value at the branch position finds that solution |
| `Solver.SolveNeverAlreadySet` | src/main/java/com/example/demo/service/Solver.java:28-31 | the naked-single step never meets `ValueAlreadySetException` |
| `Solver.EmptyBoardHasNoBranch` | src/main/java/com/example/demo/service/Solver.java:25-39 | on a valid empty board no position beats 9 candidates, so the branch position stays null |
| `Solver.ValidSpecMeetsHypotheses` | src/main/java/com/example/demo/service/Solver.java:18-20 | the Sudoku rule is downward closed, and it passes only conflict-free solved boards |
| `SampleCommand.Visit` | src/main/java/com/example/demo/commands/SampleCommand.java:57-58 | step k of the row-major walk visits the one position whose step is k |
| `SampleCommand.Load` | src/main/java/com/example/demo/commands/SampleCommand.java:55-66 | when every entry is present and at most 9, `load` gives exactly the board with `data[r][c]` at (r, c) for each entry > 0; otherwise it fails on an index; it never throws `ValueAlreadySetException` |
| `SampleCommand.LoadCell` | src/main/java/com/example/demo/commands/SampleCommand.java:57-63 | visiting a position adds its clue, if it has one, to the clues so far; a bad entry makes the grid unloadable |
| `SampleCommand.LoadSet` | src/main/java/com/example/demo/commands/SampleCommand.java:60-61 | `withValue(Position.at(row, col), Value.values()[value - 1])` on the board of the earlier clues succeeds and adds the clue |
| `SampleCommand.CluesAt` | src/main/java/com/example/demo/commands/SampleCommand.java:57-63 | a position gets a value if and only if its entry is > 0, and then gets that entry; zero entries stay unassigned |
| `SampleCommand.ClueCount` | src/main/java/com/example/demo/commands/SampleCommand.java:57-63 | a 9×9 grid with entries in 0..9 loads, with as many assigned positions as positive entries |
| `SampleCommand.Sample1Clues` | src/main/java/com/example/demo/commands/SampleCommand.java:16-26 | `SAMPLE1` is 9×9 with entries in 0..9, and loads 38 clues |
| `SampleCommand.Sample2Clues` | src/main/java/com/example/demo/commands/SampleCommand.java:29-41 | `SAMPLE2` is 9×9 with entries in 0..9, and loads 23 clues |
| `RowCommand.DecodeAsWritten` | src/main/java/com/example/demo/commands/RowCommand.java:28-30 | `value = c - '1'` with guard `0 < value <= 9`: '2'..'9' put the value c - '0'; ':' passes the guard and indexes past `Value.values()`; every other character is skipped |
| `RowCommand.DecodeIntended` | src/main/java/com/example/demo/commands/RowCommand.java:28-30 | the intended reading: '1'..'9' put the value c - '0'; every other character is skipped |
| `RowCommand.Row` | src/main/java/com/example/demo/commands/RowCommand.java:24-37 | the loop (with `col` advancing once per character) computes `RowAsWritten` |
| `RowCommand.PutsStep` | src/main/java/com/example/demo/commands/RowCommand.java:26-32 | the column of each character is its index, so each column is put at most once |
| `RowCommand.PutStep` | src/main/java/com/example/demo/commands/RowCommand.java:29-32 | a character that passes the guard, on a board compatible with the rest of the string, sets its value at (row, col); the characters after it stay compatible, and the board gains exactly that put |
| `RowCommand.RowFromSpec` | src/main/java/com/example/demo/commands/RowCommand.java:26-33 | in range, with no character that stops the loop and every put compatible with the board, the result is the board plus exactly the values the characters put |
| `RowCommand.RowFromFails` | src/main/java/com/example/demo/commands/RowCommand.java:29-30 | a character that passes the guard with no value to index, or that puts a value on a row outside 0..8, makes the call fail |
| `RowCommand.RowFromIncompatible` | src/main/java/com/example/demo/commands/RowCommand.java:27-33 | a put that meets a cell holding a different value, with nothing that stops the loop on an index, ends the call with `ValueAlreadySetException` |
| `RowCommand.RowFromOffGrid` | src/main/java/com/example/demo/commands/RowCommand.java:27-33 | on a row outside 0..8 with nothing that stops the loop, no character puts a value and the board is unchanged |
| `RowCommand.RowWithOutcome` | src/main/java/com/example/demo/commands/RowCommand.java:24-37 | `row` succeeds if and only if the string is over 9 characters, or nothing stops the loop on an index and every put fits the board; with nothing stopping it on an index, a put that does not fit gives `ValueAlreadySetException` |
| `RowCommand.RowTooLong` | src/main/java/com/example/demo/commands/RowCommand.java:25 | an input longer than 9 characters leaves the board unchanged |
| `RowCommand.RowAsWrittenSets` | src/main/java/com/example/demo/commands/RowCommand.java:26-33 | as written, for a string of at most 9 characters without ':' whose digits agree with the cells they meet, the call succeeds; column i gets the digit at index i for every character '2'..'9'; '1', '0', '.', space and every other character change nothing; every other cell keeps its value |
| `RowCommand.RowAsWrittenColonFails` | src/main/java/com/example/demo/commands/RowCommand.java:29-30 | as written, a ':' in the string makes the call fail |
| `RowCommand.RowDigitOneIgnored` | src/main/java/com/example/demo/commands/RowCommand.java:28-29 | as written, "1" sets nothing and ":" fails; as intended, "1" sets the value 1 |
| `RowCommand.RowIntendedSets` | src/main/java/com/example/demo/commands/RowCommand.java:28-30 | as intended, for a string of at most 9 characters whose digits agree with the cells they meet, the call succeeds; column i gets the digit at index i for every character '1'..'9'; every other cell keeps its value |

## Findings

| source | as written | input that shows it | evidently intended | confidence | as-written member | corrected member |
|---|---|---|---|---|---|---|
| src/main/java/com/example/demo/commands/RowCommand.java:28-30 | `value = c - '1'` is guarded by `value > 0 && value <= 9`, then indexes `Value.values()[value]` | "1" sets nothing at column 0; ":" indexes `Value.values()[9]` past the nine values | guard `0 <= value < 9`, so '1'..'9' set 1..9 | high; not executed | `RowCommand.RowDigitOneIgnored` | `RowCommand.RowIntendedSets` |
| src/main/java/com/example/demo/model/SudokuBoard.java:26-51 | each wiring group is a `HashSet<Cell>` of fresh `@Data` cells, all equal, so it keeps one cell, and no cell gains a neighbour; the check at line 71 never fires | `withValue(0, 4, 5)` on a board with 5 at (0,0) succeeds | the row, column and block wiring the comments describe, so `ConflictingNeighbourValueException` is raised | high; not executed | `CellBoard.SetCellAcceptsPeerConflict` | `CellBoard.SetCellCheckedKeepsNoPeerConflict` |

## Left out

- `Position.getNeighbours` memoises in a `ConcurrentHashMap`. It is modelled as a pure function, so repeated calls return the same set by construction.
- The `parallelStream` fan-out in `Solver.findSolutions` is modelled as a sequential union over the candidates. The result is a set, so order does not matter.
- The newer board class and the `Value` enum are not part of this model. Their `isValid` is a parameter of the solver, and `Value` is the integers 1..9.
- The iteration order of `getUnsolvedPositions()` belongs to the board class, which is not modelled. It is taken to be row-major.
- On a valid board where every unsolved position has 9 candidates, `fewestPossiblePosition` stays null, and `withValue(null, v)` belongs to the board class, which is not modelled. The model ends that search with the outcome `NoBranchPosition`.
- `BoardHolder`, `BoardRenderer`, the shell annotations and the logging are left out. `Load` and `Row` take the current board as a parameter and return the new one, instead of storing it in the holder and rendering it.
- `Cells.Cell.AddNeighbours`: states the neighbour set only up to `@Data` equality. Which of two equal cells a `HashSet` keeps depends on the order of iteration, which is not modelled.
- `Cells.Cell.SameAs` compares neighbour sets by the identity of their members, one level deep, rather than by recursive structural equality. Every comparison the constructor makes is between cells whose neighbour sets are empty, and there the two agree.
- `Solver.SolveComplete`: holds only for an `isValid` that is downward closed and passes only conflict-free solved boards, because `isValid` belongs to the board class, which is not modelled. `Solver.ValidSpecMeetsHypotheses` shows that the Sudoku rule qualifies. Its precondition that the search returns a set is met by every board with a value and every invalid board (`Solver.SolveFound`).
- `RowCommand.Row`: indexes `rowValue` by Unicode scalar value, whereas `length()` and `toCharArray()` count UTF-16 code units. A character outside the Basic Multilingual Plane is one column in the model and two in Java, so for such strings the length test and the columns differ.
- Java `int` overflow is not modelled. No value in these operations comes near the 32-bit range.
