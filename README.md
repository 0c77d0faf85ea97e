# sudoku_solver: a Dafny model of the 9×9 solving engine

This project models the solving engine of the Rust program `sudoku_solver` and proves properties of the model. The engine combines constraint propagation (naked and hidden singles) with a backtracking search that guesses at the cell with the fewest remaining possibilities.

The modules follow the source files:

- `Cells` (`src/cell.rs`). A `Cell` holds nine possibility flags and a cached `solved` flag. Flag 0 stands for digit 1. The module covers the constructors, `get_single_index` and `num_possibilities`. `check_newly_solved` is a method with a loop.
- `DigitSets` (`src/digit_set.rs`). The `DigitSet` enum: `Row`, `Col`, `Box` and `All`.
- `IndexIterators` (`src/index_iterator.rs`). The coordinates each set yields. `IndexIterator` is a class whose `Next` advances `current`. `Enumerate` drains a fresh iterator, as a `for location in iter_indices(set)` loop does.
- `BooleanOperations` (`src/boolean_operation.rs`). `combine` and `initial` for the "any" and "all" combinators, eager and lazy, and their fold laws.
- `BoardSpec`, `Propagation` and `Search`. Each algorithm of `src/board.rs` as a function of the 81 tiles: what it leaves and what it returns. The lemmas here state what those results mean.
  - `BoardSpec` covers addressing, `reduce_possibilities` and `check_solved_set`.
  - `Propagation` covers `check_single_location`, `for_sets` and `reduce_and_check_singles_loop`.
  - `Search` covers the guess scan, the guess itself and the snapshot stack of `solve`.
- `Fixpoints`. What `reduce_and_check_singles_loop` leaves behind: no region can be reduced further and none has a hidden single, so running the loop again changes nothing. It also covers what the loop and the solved check do to a board whose cells are all solved.
- `Boards` (`src/board.rs`). `Board` is a class whose `tiles: seq<Cell>` field the methods update in place.
  - Each region check, `ForSets`, `ReduceAndCheckSinglesLoop`, `ReduceAndCheckSolved`, `ScanForGuess` and `MakeGuess` is proved to leave `tiles` (and to return) exactly what the matching specification function gives.
  - `PushGuess` and `GuessOrBacktrack` are proved to leave exactly the stack and the board that the guess scan and the guess specify, on the current board or on the snapshot returned to.
  - `Solve` has no specification function of its own. It is proved to keep the invariant `Keeps` and a faithful snapshot stack, to report `Solved` only for a solved board and never for clashing givens, and to leave a board that is already solved as it was.
  - `Solve` keeps the snapshot stack as a `seq<seq<Cell>>`. A clone of a board is a copy of its tiles.

The invariant kept throughout is `Keeps(t, t')`. Every cell of the new tiles is consistent: a solved cell has exactly one possibility. Every cell that was solved is left exactly as it was. Every region check, every `for_sets` pass, the propagation loop and the search preserve it.

## Model

| member | source | states |
|---|---|---|
| Cells.New | src/cell.rs:10-15 | all nine possibilities set, not solved, nine possibilities, no single index |
| Cells.NewSingleDigit | src/cell.rs:17-25 | only possibility `input` set, solved, consistent, single index `input` |
| Cells.NewSingleChar | src/cell.rs:27-35 | for '1'..'9', the cell whose only possibility is index `ch - 1`, i.e. `NewSingleDigit(ch - '1')` |
| Cells.SingleTrueFromMeaning | src/cell.rs:37-50 | from a faithful scan state, the scan returns the one and only set flag, and `None` when none or several are set |
| Cells.GetSingleIndexMeaning | src/cell.rs:37-50 | `get_single_index` returns `Some(i)` only when `i` is the only possibility, and `None` when there is no such index |
| Cells.SingleIndexIsOnlyTrue | src/cell.rs:37-50 | `get_single_index(c) == Some(i)` iff `i` is the only possibility of `c` |
| Cells.CountIsMultiplicity | src/cell.rs:74-79 | the count `num_possibilities` computes is the number of `true` entries |
| Cells.NumPossibilities | src/cell.rs:74-79 | the number of possibilities is at most 9 |
| Cells.SingleTrueFromCount | src/cell.rs:37-79 | the single-index scan finds an index iff exactly one flag is true |
| Cells.SingleIndexIffOnePossibility | src/cell.rs:37-79 | `get_single_index` is `Some` iff `num_possibilities` is 1 |
| Cells.CheckNewlySolved | src/cell.rs:52-72 | on a solved cell, returns false and changes nothing; otherwise sets `solved` to "exactly one possibility" and returns that; possibilities are never changed |
| Cells.RecheckedMeaning | src/cell.rs:53-72 | `check_newly_solved` flags an unsolved cell iff exactly one of its nine possibility flags is true |
| Cells.RecheckedConsistentIdempotent | src/cell.rs:52-72 | a second `check_newly_solved` changes nothing and returns false; the result is consistent unless the cell came in solved and inconsistent |
| Cells.CountMonotone | src/cell.rs:74-79 | turning flags on never lowers the count, and turning one on raises it |
| Cells.FirstTrue | src/board.rs:88-95 | the guess index is the lowest possible digit, and `None` when no digit is possible |
| IndexIterators.IndexIterator.constructor | src/board.rs:322-324 | a fresh iterator over `set` starts at `current == 0` |
| IndexIterators.IndexIterator.Next | src/index_iterator.rs:13-36 | before the end, yields the coordinate at `current` and advances it by one; at or past 9 (81 for `All`), yields `None` and leaves `current` alone |
| IndexIterators.Enumerate | src/index_iterator.rs:13-36 | draining a fresh iterator yields exactly `Indices(set)`: 9 coordinates, or 81 for `All`, in iteration order |
| IndexIterators.RowAndColumnOrder | src/index_iterator.rs:20-21 | `Row(r)` yields (r,0)…(r,8) and `Col(c)` yields (0,c)…(8,c), in order |
| IndexIterators.BoxOrder | src/index_iterator.rs:22-30 | `Box(b)` yields the 3×3 block starting at (3·(b/3), 3·(b%3)), row by row |
| IndexIterators.AllIsRowMajor | src/index_iterator.rs:31 | `All` yields (r, c) at position 9r + c, and every coordinate lies in the grid |
| IndexIterators.RegionInGrid | src/index_iterator.rs:20-30 | for a set with index below 9, every coordinate lies in 0..8 × 0..8 and the coordinates are pairwise distinct |
| IndexIterators.BoxOfCell | src/index_iterator.rs:22-30 | cell (r, c) is yielded by box `3(r/3) + c/3` at position `3(r%3) + c%3` |
| IndexIterators.CellOfBox | src/index_iterator.rs:22-30 | position k of box b is a cell whose box is b and whose position in it is k |
| IndexIterators.BoxesCoverGrid | src/index_iterator.rs:22-30 | the nine boxes cover each of the 81 cells exactly once |
| BooleanOperations.LazyAgreesWithEager | src/boolean_operation.rs:12-19 | the lazy and eager variants give equal results on every pair of values |
| BooleanOperations.InitialIsIdentity | src/boolean_operation.rs:12-27 | `combine(initial, x) == x` |
| BooleanOperations.ResultAbsorbs | src/boolean_operation.rs:12-27 | once the result differs from `initial`, no further `combine` changes it |
| BooleanOperations.FoldAbsorbed | src/boolean_operation.rs:12-27 | a result that left `initial` survives the rest of the fold, so the lazy early return loses nothing; `for_sets` is this fold over its region verdicts (`Propagation.FoldRegionsIsFold`) |
| BooleanOperations.FoldAnyIsExists | src/boolean_operation.rs:12-27 | the "any" fold from `initial` is true iff some result is true; `for_sets` is this fold over its region verdicts (`Propagation.FoldRegionsIsFold`) |
| BooleanOperations.FoldAllIsForall | src/boolean_operation.rs:12-27 | the "all" fold from `initial` is true iff every result is true; `for_sets` is this fold over its region verdicts (`Propagation.FoldRegionsIsFold`) |
| BoardSpec.RegionTileInRegion | src/index_iterator.rs:19-31 | the j-th coordinate of a set is a tile of the set, yielded at position j |
| BoardSpec.InRegionIsRegionTile | src/index_iterator.rs:19-31 | every tile of a set is yielded by its iterator, at position `PosIn` |
| BoardSpec.RegionBijection | src/index_iterator.rs:19-31 | a set's iterator visits exactly the tiles of the set, each once |
| BoardSpec.Regions | src/board.rs:159-178 | `for_sets` visits 27 regions, none of them `All`, all inside the grid |
| BoardSpec.KindRegion | src/board.rs:159-178 | row, column or box x of the three loops is entry 9·kind + x of the visiting order |
| BoardSpec.PossibleAfterStart | src/board.rs:203 | before any cell is examined, every digit is possible |
| BoardSpec.PossibleAfterStep | src/board.rs:206-215 | examining one more cell strikes out its single value, if it has one, and nothing else |
| BoardSpec.ReducedCell | src/board.rs:219-228 | a solved cell is kept; an unsolved cell loses every digit not in `possible` and gains none; consistency is kept |
| BoardSpec.ReducedUpToStep | src/board.rs:218-232 | rewriting region cell j extends the rewritten prefix by one, and that cell is untouched before it |
| BoardSpec.NewlySolvedUpToMeaning | src/board.rs:218-232 | the running `found_something` is true iff one of the first j region cells went from unsolved to solved |
| BoardSpec.ReduceKeeps | src/board.rs:196-235 | `reduce_possibilities` keeps the cell invariant and every solved cell |
| BoardSpec.ReduceShrinks | src/board.rs:196-235 | possibilities only ever lose entries |
| BoardSpec.ReduceFrame | src/board.rs:196-235 | cells outside the region, and solved cells, do not change |
| BoardSpec.ReduceEliminates | src/board.rs:196-235 | afterwards no cell of the region that was unsolved keeps a digit that was the single value of a region cell at the start |
| BoardSpec.ReduceEmptiesUnflaggedSingle | src/board.rs:205-228 | an unsolved region cell with a single possibility strikes its own digit out of `possible` and is left with no possibility, still unsolved |
| BoardSpec.ReduceAt | src/board.rs:196-235 | each region tile is rewritten against the digits left possible by the whole region; other tiles are kept |
| BoardSpec.ReduceResultIsProgress | src/board.rs:196-235 | `reduce_possibilities` returns true iff some cell went from unsolved to solved |
| BoardSpec.SolvedSetKeeps | src/board.rs:295-314 | `check_solved_set` keeps the cell invariant and every solved cell |
| BoardSpec.SolvedSetFromSame | src/board.rs:295-314 | the rechecks of `check_solved_set` change only `solved` flags |
| BoardSpec.SolvedSetFromFlag | src/board.rs:295-314 | what `check_solved_set` returns depends only on the single values of the region's cells |
| BoardSpec.SolvedFlagMeaning | src/board.rs:295-314 | from a faithful loop state, the flag is true iff every value is a single and the values are pairwise distinct |
| BoardSpec.ClashNeverSolved | src/board.rs:295-314 | once two solved cells of a row, column or box hold the same digit, no board that keeps the solved cells has all 27 regions solved |
| BoardSpec.SolvedSetMeaning | src/board.rs:295-314 | `check_solved_set` returns true iff every region cell has exactly one possibility and those digits are pairwise distinct; the possibilities are unchanged |
| Propagation.HiddenSingleMeaning | src/board.rs:250-270 | the inner scan of `check_single_location` returns the only region position that allows the digit, and `None` for none or several |
| Propagation.HiddenSingleIsOnly | src/board.rs:250-270 | the scan returns position j iff j is the only region position that allows the digit |
| Propagation.HiddenSingleAtFlags | src/board.rs:250-275 | cell m is a hidden single for digit d iff it is unsolved and its position is the only one that allows d |
| Propagation.PlacementFrom | src/board.rs:245-289 | a placement is an unsolved tile of the grid with a digit at or after the starting one |
| Propagation.PlacementStep | src/board.rs:245-289 | a digit without a hidden single moves the search on; one with a hidden single stops it there |
| Propagation.PlacementMeaning | src/board.rs:245-289 | the digit loop finds nothing iff no digit has a hidden single in the region; otherwise it finds a hidden single of the lowest such digit |
| Propagation.SingleLocationMeaning | src/board.rs:240-292 | returns false iff the region has no hidden single, and then the board is unchanged; returns true when an unsolved cell that was the only candidate for d now holds `new_single_digit(d)` |
| Propagation.PlacingKeeps | src/board.rs:273-277 | placing a solved cell over an unsolved one keeps the invariant |
| Propagation.SingleLocationKeeps | src/board.rs:240-292 | `check_single_location` keeps the cell invariant and every solved cell |
| Propagation.RegionKeeps | src/board.rs:196-314 | each of the three region checks keeps the cell invariant and every solved cell |
| Propagation.RegionProgress | src/board.rs:196-292 | `reduce_possibilities` and `check_single_location` return true iff some cell became solved |
| Propagation.FoldKeeps | src/board.rs:153-181 | every `for_sets` pass from any region keeps the cell invariant and every solved cell |
| Propagation.ForSetsKeeps | src/board.rs:153-181 | `for_sets` keeps the cell invariant and every solved cell |
| Propagation.FoldAnyIsProgress | src/board.rs:153-181 | with "any", `for_sets` returns true iff some cell became solved |
| Propagation.SolvedSetStep | src/board.rs:173-177 | one `check_solved_set` step of an "all" fold combines the region's verdict, returns early exactly when lazy and false, and keeps possibilities |
| Propagation.FoldAllIsSolved | src/board.rs:153-181 | with "all", the remaining fold is true iff the result so far and every later region are solved |
| Propagation.FoldRegionsAbsorbed | src/board.rs:157-180 | once the result of `for_sets` has left `initial`, the remaining regions leave it as it is |
| Propagation.FoldLazyAgrees | src/board.rs:157-180 | from any region and any result so far, the lazy operation with its early return gives the same result as the eager one |
| Propagation.ForSetsLazyAgrees | src/board.rs:157-180 | `for_sets` returns the same result with `OrLazy` as with `Or`, and with `AndLazy` as with `And` |
| Propagation.FoldRegionsIsFold | src/board.rs:157-180 | from any region and any result so far, the result of `for_sets` is the fold of `combine` over the region verdicts in visiting order, with or without the lazy early return |
| Propagation.ForSetsVerdicts | src/board.rs:153-181 | with every region check run in visiting order on the tiles the earlier ones left, `for_sets` with `Or`/`OrLazy` is true iff one of them returns true, and with `And`/`AndLazy` iff all of them do |
| Propagation.ForSetsSolvedIsBoardSolved | src/board.rs:63 | `for_sets(check_solved_set, AndLazy)` is true iff all 27 regions are solved, and keeps possibilities |
| Propagation.StepKeeps | src/board.rs:187-189 | one pass of the propagation loop keeps the cell invariant and every solved cell |
| Propagation.StepIsProgress | src/board.rs:187-189 | one pass reports true iff it solved some cell |
| Propagation.ProgressRaisesCount | src/board.rs:183-193 | keeping solved cells never lowers the number of solved cells, and progress raises it: the termination measure of the loop |
| Propagation.LoopKeeps | src/board.rs:183-193 | `reduce_and_check_singles_loop` keeps the cell invariant and every solved cell |
| Propagation.LoopIsProgress | src/board.rs:183-193 | the loop returns true iff it solved some cell |
| Propagation.LoopEndsStalled | src/board.rs:183-193 | the loop ends on a board whose last pass found nothing |
| Fixpoints.PossibleNarrows | src/board.rs:205-215 | a digit no region cell holds as its single value stays so after narrowing |
| Fixpoints.SettledAfterNarrowing | src/board.rs:196-235 | a region with no reduction left keeps that property under narrowing |
| Fixpoints.SettledHasNoUnflaggedSingle | src/board.rs:196-235 | in a region with no reduction left, no unsolved cell is down to one possibility |
| Fixpoints.SettledReduceIsNoop | src/board.rs:196-235 | `reduce_possibilities` of a region with no reduction left changes nothing and returns false |
| Fixpoints.ReduceStalledFacts | src/board.rs:196-235 | a `reduce_possibilities` that returns false only narrows the tiles and leaves its region with no reduction left |
| Fixpoints.FoldReduceStalled | src/board.rs:187-188 | reducing every region with `Or` and getting false narrows the board and leaves no reduction in any of the 27 regions |
| Fixpoints.FoldReduceSettled | src/board.rs:187-188 | on a board with no reduction left, reducing every region with `Or` changes nothing and returns false |
| Fixpoints.FoldSingleLocationStalled | src/board.rs:189 | `check_single_location` over every region with `Or` returning false changes nothing, and no region has a hidden single |
| Fixpoints.StepStalls | src/board.rs:186-190 | after a pass that reports nothing, no region can be reduced, none has a hidden single, and the next pass changes nothing and reports nothing |
| Fixpoints.LoopIdempotent | src/board.rs:183-193 | the loop reaches a fixpoint: no region can be reduced, none has a hidden single, one more pass finds nothing, and running the loop again changes nothing and returns false |
| Fixpoints.LoopOnSolvedBoard | src/board.rs:183-193 | on a board whose cells are all solved the loop changes nothing and returns false |
| Fixpoints.SolvedSetOnSolvedBoard | src/board.rs:295-314 | on a board whose cells are all solved, `for_sets(check_solved_set, AndLazy)` changes nothing and is true iff every row, column and box holds distinct digits |
| Search.ScanFromNone | src/board.rs:79-104 | from a faithful state, the scan chooses no cell iff every cell is solved |
| Search.ScanFromChoice | src/board.rs:79-104 | from a faithful state, the chosen cell is unsolved, strictly fewer than every unsolved cell before it, and stopped the scan at 2 or 0 or is no more than every unsolved cell after it |
| Search.ScanChoice | src/board.rs:79-104 | the guess scan finds a cell iff some cell is unsolved, and the cell it finds has the fewest possibilities (strictly fewer than earlier cells) unless the scan stopped at 2 or 0 |
| Search.GuessKeeps | src/board.rs:107-123 | the snapshot and the guessed board both keep the invariant and every solved cell |
| Search.PushSnapshot | src/board.rs:114-115 | pushing a snapshot that excludes the digit tried keeps the stack faithful |
| Search.PopSnapshot | src/board.rs:130 | the popped snapshot keeps what held at the start and the rest of the stack stays faithful |
| Boards.CellOf | src/board.rs:25-30 | '.' becomes a cell with every digit possible; a digit becomes a solved cell with that single index |
| Boards.Board.constructor | src/board.rs:21-37 | cell (r, c) of the input lands at `tiles[9r + c]`, and every tile is consistent |
| Boards.Board.Set | src/board.rs:50-52 | replaces the tile at `9r + c` and nothing else; `get` then returns the new cell |
| Boards.Board.IterDigits | src/board.rs:317-319 | the cells yielded are those at the coordinates `iter_indices(set)` yields, in order |
| Boards.Board.PossibleDigits | src/board.rs:201-215 | the first loop leaves `possible` as the digits that are no region cell's single value |
| Boards.Board.ReduceTile | src/board.rs:219-231 | one cell of the second loop is intersected with `possible` (when unsolved), rechecked, and its newly-solved flag returned |
| Boards.Board.ReducePossibilities | src/board.rs:196-235 | the new tiles and the flag are those of `ReduceSpec` |
| Boards.Board.CheckSolvedSet | src/board.rs:295-314 | the new tiles and the flag are those of `SolvedSetSpec` |
| Boards.Board.FindSingleLocation | src/board.rs:250-270 | the inner scan returns the position `HiddenSingle` gives |
| Boards.Board.FindPlacement | src/board.rs:245-289 | the digit loop finds a placement iff `PlacementFrom` does, and the same tile and digit |
| Boards.Board.PlaceAndReduce | src/board.rs:276-285 | the tile becomes `new_single_digit(d)`, then every region is reduced with `And` |
| Boards.Board.CheckSingleLocation | src/board.rs:240-292 | the new tiles and the flag are those of `SingleLocationSpec` |
| Boards.Board.ApplyRegionFn | src/board.rs:153-156 | the call `func(self, set)` gives the tiles and flag of `RegionSpec` |
| Boards.Board.VisitRegion | src/board.rs:160-163 | one combine step on region i gives the tiles, result and early-return flag of `RegionStep` |
| Boards.Board.VisitKind | src/board.rs:159-178 | one of the three loops of `for_sets` either returns the final result or hands on to the next loop |
| Boards.Board.ForSets | src/board.rs:153-181 | the new tiles and the result are those of `ForSetsSpec` |
| Boards.Board.ReduceAndCheckSinglesLoop | src/board.rs:183-193 | the new tiles and `found_something_ever` are those of `LoopSpec` |
| Boards.Board.ReduceAndCheckSolved | src/board.rs:135-147 | propagation then the solved check: the invariant is kept and the result is true iff all 27 regions are solved |
| Boards.Board.ScanForGuess | src/board.rs:79-104 | the location and index chosen are the cell `Scan` picks and its lowest possible digit; both are left unchanged when no cell is unsolved |
| Boards.Board.MakeGuess | src/board.rs:107-124 | the snapshot is the board with the digit struck out of the cell, and the board then holds `new_single_digit(index)` there |
| Boards.Board.PushGuess | src/board.rs:107-124 | pushes the old board with `index` struck out at `location`, records the guess `(location, index)`, and leaves `new_single_digit(index)` at `location` on that snapshot; the invariant and the stack stay faithful |
| Boards.Board.GuessOrBacktrack | src/board.rs:77-132 | guessing or popping keeps the invariant and the stack faithful; when the stack runs dry it is empty; otherwise, for the depth `k` it returned to, the stack is its first `k` snapshots plus the board scanned (the old board, or snapshot `k`) with the guess struck out, and the guess is the scanned cell with the fewest possibilities and its lowest possible digit |
| Boards.Board.Solve | src/board.rs:55-149 | every solved cell stays as it was and every cell stays consistent; when it reports `Solved`, all 27 regions are solved; a board already fully and correctly solved is reported `Solved` and left as it was; a board with two equal solved cells in one region is never reported `Solved` |

## Left out

- Board rendering (`src/board.rs:328-355`) and cell rendering (`src/cell.rs:88-97`) are text output only and are not modelled.
- `Default for Cell` (`src/cell.rs:82-86`) only calls `Cell::new`, so `Cells.New` stands for it.
- The `DEBUG` printing branches in `src/board.rs` write diagnostics only and are not modelled.
- `src/main.rs` is not part of this model. It is the command-line entry point, with puzzle literals and timing.
- `src/puzzle_generator.rs` is not part of this model. It uses random sampling and calls board operations (`fast_solve`, `is_solved`, an N×N constructor) that the modelled `board.rs` does not have.
- `src/location.rs` is not part of this model.
- `src/digit_set.rs` is modelled only as the `DigitSet` datatype. Its `Display` impl is text output.
- `src/digit_iterator.rs` is not part of this model. Its constructor takes three arguments, which does not match its use in `iter_digits`. `iter_digits(set)` is therefore modelled directly, as `get` over the coordinates of `iter_indices(set)` (`Boards.Board.IterDigits`).
- `board.rs` names the combinators `Or`, `OrLazy`, `And` and `AndLazy`, but `boolean_operation.rs` names them `Any`, `AnyLazy`, `All` and `AllLazy`. The model reads `Or` as `Any` and `And` as `All`.
- `IndexIterator::new` does not appear in `index_iterator.rs`. It is modelled as it is used in `iter_indices`: a fresh iterator with `current = 0`.
- `get_mut` has no member of its own. Each in-place change through it is modelled as a `Get`, an update of the cell value, and a `Set`. A `Cell` is a `Copy` value.
- `Boards.Board.Solve`: the outer loop of `solve` can run without bound.
  - The model adds a `fuel` parameter that bounds its rounds and returns `OutOfFuel` when the fuel runs out.
  - Termination of the search is therefore not modelled, and only partial correctness is proved.
- `Boards.Board.Solve`: `states_before_guesses.pop().unwrap()` panics on an empty stack. The model returns `StackExhausted` instead.
- `Boards.Board.Get`, `Boards.Board.Set`: `get` and `set` index `tiles[r*9 + c]` and panic when that is past the end (`src/board.rs:40-52`). The model requires the index in range instead; every call in the model stays in range.
- `Boards.ValidChar`: `new_single_char` panics on a character other than '1'..'9' (`to_digit(10).unwrap()`, or the subtraction for '0'). Those characters are therefore excluded by the precondition of `Board::new`.
- Region indices of 9 or more are not modelled: the region operations require `ValidSet`, and `for_sets` only ever passes indices 0..8.
  - `Row(r)` and `Box(b)` with an index of 9 or more reach past the 81 tiles at their first access and panic.
  - `Col(c)` with `c` of 9 or more reaches tile `9r + c`, which stays inside the tiles for the first rows. So `check_single_location` can leave its cell loop through the `break` (`src/board.rs:267`), and `check_solved_set` can return early (`src/board.rs:303`), before any access panics.
- `usize` arithmetic is modelled with unbounded naturals. Every value involved stays below 82, so no overflow is possible.
- The region checks return plain booleans. They report neither a cell left with no possibility nor a digit with no candidate cell. The model follows the code: such a contradiction surfaces only when `solve` finds no guess, or as a board that never passes `check_solved_set`.
- `BoardSpec.ReduceEmptiesUnflaggedSingle`: a cell down to one possibility is meant to be flagged solved (`check_newly_solved`, `src/cell.rs:53-72`), but `reduce_possibilities` does not do this for an unsolved cell whose one possibility was never flagged. Its first loop strikes that digit out of `possible` (`src/board.rs:206-215`), and its second loop then removes the digit from the cell itself (`src/board.rs:219-228`), leaving it empty and unsolved. The model follows the code.
  - Such a cell can appear in a snapshot: a guess strikes its digit out of a two-possibility cell (`src/board.rs:112`) before the board is pushed.
  - Whether `solve` can hand such a board to the reduction is not proved. After a `pop`, the guess scan normally picks such a cell first.
- In `solve`, `guess_location` and `guess_index` are declared outside the inner loop, so after a backtrack they keep their old values. `ScanForGuess` takes them in and hands them back to match.
