/**
 * `Board`: the 81 tiles of a 9×9 grid, updated in place by the region
 * checks, the propagation loop and the guessing search of `solve`.
 */
module Boards {
  import opened Wrappers
  import opened Cells
  import opened DigitSets
  import opened IndexIterators
  import opened BoardSpec
  import opened Propagation
  import opened Search
  import opened Fixpoints
  import BO = BooleanOperations

  /** A character `Board::new` accepts: '.' for an empty cell or a digit '1'..'9'. */
  predicate ValidChar(ch: char) {
    ch == '.' || '1' <= ch <= '9'
  }

  /** Nine rows of nine accepted characters. */
  predicate ValidInput(input: seq<seq<char>>) {
    |input| == 9 && forall r :: 0 <= r < 9 ==> |input[r]| == 9 && forall c :: 0 <= c < 9 ==> ValidChar(input[r][c])
  }

  /** The cell `Board::new` makes of one character. */
  function CellOf(ch: char): (c: Cell)
    requires ValidChar(ch)
    ensures Consistent(c)
    ensures ch == '.' ==> !c.solved && forall i :: 0 <= i < 9 ==> c.possibilities[i]
    ensures ch != '.' ==> c.solved && GetSingleIndex(c) == Some(ch as int - '1' as int)
  {
    if ch == '.' then New() else NewSingleChar(ch)
  }

  /** Tile m below 9*r + c is at row m / 9, column m % 9. */
  lemma Split9(r: nat, c: nat)
    requires c < 9
    ensures (9 * r + c) / 9 == r && (9 * r + c) % 9 == c && TileIndex((r, c)) == 9 * r + c
  {
  }

  /** The first `n` tiles `Board::new` has pushed, each the cell of its character. */
  ghost predicate CellsRead(input: seq<seq<char>>, ts: seq<Cell>, n: nat)
    requires ValidInput(input) && n <= 81
  {
    |ts| == n && forall m :: 0 <= m < n ==> ts[m] == CellOf(input[m / 9][m % 9])
  }

  /** Pushing the cell of (r, c) as tile 9*r + c extends the tiles read by one. */
  lemma CellsReadPush(input: seq<seq<char>>, ts: seq<Cell>, r: nat, c: nat)
    requires ValidInput(input) && r < 9 && c < 9 && CellsRead(input, ts, 9 * r + c)
    ensures CellsRead(input, ts + [CellOf(input[r][c])], 9 * r + c + 1)
  {
    Split9(r, c);
    var ts' := ts + [CellOf(input[r][c])];
    assert forall m :: 0 <= m < 9 * r + c ==> ts'[m] == ts[m];
  }

  /** How `solve` ends: solved, or the snapshot stack ran dry (a panic in `pop().unwrap()`), or out of rounds. */
  datatype Outcome = Solved | StackExhausted | OutOfFuel

  class Board {
    var tiles: seq<Cell>

    /** The class invariant: 81 tiles, every solved cell with exactly one possibility. */
    ghost predicate Valid()
      reads this
    {
      ValidTiles(tiles)
    }

    /**
     * `Board::new`: the rows are read in order, each cell from its character,
     * so that cell (r, c) lands at `tiles[r*9 + c]`.
     */
    constructor (input: seq<seq<char>>)
      requires ValidInput(input)
      ensures Valid()
      ensures forall r, c :: 0 <= r < 9 && 0 <= c < 9 ==> tiles[TileIndex((r, c))] == CellOf(input[r][c])
    {
      var ts: seq<Cell> := [];
      for r := 0 to 9
        invariant CellsRead(input, ts, 9 * r)
      {
        for c := 0 to 9
          invariant CellsRead(input, ts, 9 * r + c)
        {
          CellsReadPush(input, ts, r, c);
          ts := ts + [CellOf(input[r][c])];
        }
      }
      forall r, c | 0 <= r < 9 && 0 <= c < 9
        ensures ts[TileIndex((r, c))] == CellOf(input[r][c])
      {
        Split9(r, c);
      }
      tiles := ts;
    }

    /** `get`: the cell at (r, c), that is `tiles[r*9 + c]`. */
    function Get(loc: (nat, nat)): Cell
      reads this
      requires TileIndex(loc) < |tiles|
    {
      tiles[TileIndex(loc)]
    }

    /** `set`: replaces the cell at (r, c) and nothing else. */
    method Set(loc: (nat, nat), input: Cell)
      modifies this
      requires TileIndex(loc) < |tiles|
      ensures tiles == old(tiles)[TileIndex(loc) := input]
      ensures Get(loc) == input
    {
      tiles := tiles[TileIndex(loc) := input];
    }

    /**
     * The first loop of `reduce_possibilities`: the digits not yet the single
     * value of a region cell.
     */
    method PossibleDigits(ds: DigitSet) returns (possible: seq<bool>)
      requires |tiles| == 81 && ValidSet(ds)
      ensures possible == PossibleAfter(tiles, ds, Len(ds))
    {
      possible := [true, true, true, true, true, true, true, true, true];
      PossibleAfterStart(tiles, ds);
      var cells := IterDigits(ds);
      for j := 0 to Len(ds)
        invariant possible == PossibleAfter(tiles, ds, j)
      {
        var cell := cells[j];
        PossibleAfterStep(tiles, ds, j);
        match GetSingleIndex(cell)
        case Some(d) => possible := possible[d := false];
        case None =>
      }
    }

    /** `iter_digits(set)`: `get` of each coordinate `iter_indices(set)` yields, in order. */
    method IterDigits(ds: DigitSet) returns (cells: seq<Cell>)
      requires |tiles| == 81 && ValidSet(ds)
      ensures cells == RegionCells(tiles, ds)
    {
      var locs := Enumerate(ds);
      cells := [];
      for j := 0 to Len(ds)
        invariant cells == RegionCells(tiles, ds)[..j]
      {
        assert TileIndex(locs[j]) == RegionTile(ds, j);
        var cell := Get(locs[j]);
        cells := cells + [cell];
      }
    }

    /** `reduce_possibilities(set)`. */
    method ReducePossibilities(ds: DigitSet) returns (found: bool)
      modifies this
      requires |tiles| == 81 && ValidSet(ds)
      ensures (tiles, found) == ReduceSpec(old(tiles), ds)
    {
      var possible := PossibleDigits(ds);
      var locs := Enumerate(ds);
      ghost var t0 := tiles;
      ReducedUpToStart(t0, ds, possible);
      found := false;
      for j := 0 to Len(ds)
        invariant tiles == ReducedUpTo(t0, ds, possible, j)
        invariant found == NewlySolvedUpTo(t0, ds, possible, j)
      {
        ReducedUpToStep(t0, ds, possible, j);
        assert TileIndex(locs[j]) == RegionTile(ds, j);
        var newlySolved := ReduceTile(locs[j], possible);
        found := found || newlySolved;
      }
    }

    /** The body of the second loop of `reduce_possibilities`, on the cell at `loc`. */
    method ReduceTile(loc: (nat, nat), possible: seq<bool>) returns (newlySolved: bool)
      modifies this
      requires |tiles| == 81 && TileIndex(loc) < 81 && |possible| == 9
      ensures tiles == old(tiles)[TileIndex(loc) := ReducedCell(old(tiles)[TileIndex(loc)], possible)]
      ensures newlySolved == NewlySolvedBy(old(tiles)[TileIndex(loc)], possible)
    {
      var cell := Get(loc);
      if !cell.solved {
        cell := cell.(possibilities := Intersect(cell.possibilities, possible));
      }
      var after;
      newlySolved, after := CheckNewlySolved(cell);
      Set(loc, after);
    }

    /** `check_solved_set(set)`. */
    method CheckSolvedSet(ds: DigitSet) returns (result: bool)
      modifies this
      requires |tiles| == 81 && ValidSet(ds)
      ensures (tiles, result) == SolvedSetSpec(old(tiles), ds)
    {
      var locs := Enumerate(ds);
      var used := [false, false, false, false, false, false, false, false, false];
      var allSolved := true;
      for j := 0 to Len(ds)
        invariant |tiles| == 81 && |used| == 9
        invariant SolvedSetFrom(tiles, ds, j, used, allSolved) == SolvedSetSpec(old(tiles), ds)
      {
        SolvedSetFromStep(tiles, ds, j, used, allSolved);
        var loc := locs[j];
        var _, after := CheckNewlySolved(Get(loc));
        Set(loc, after);
        match GetSingleIndex(after)
        case Some(d) =>
          if used[d] {
            return false;
          }
          used := used[d := true];
        case None =>
          allSolved := false;
      }
      result := allSolved;
    }

    /** `check_single_location(set)`: places the first hidden single of the region, if any. */
    method CheckSingleLocation(ds: DigitSet) returns (result: bool)
      modifies this
      requires |tiles| == 81 && ValidSet(ds)
      ensures (tiles, result) == SingleLocationSpec(old(tiles), ds)
      decreases 1, 0
    {
      var placement := FindPlacement(ds);
      SingleLocationCases(tiles, ds);
      if placement.None? {
        return false;
      }
      var (location, neededDigit) := placement.value;
      PlaceAndReduce(location, neededDigit);
      result := true;
    }

    /**
     * The digit loop of `check_single_location` up to its early return: the
     * first digit that only one region cell allows, where that cell is unsolved.
     */
    method FindPlacement(ds: DigitSet) returns (placement: Option<((nat, nat), nat)>)
      requires |tiles| == 81 && ValidSet(ds)
      ensures placement.None? <==> PlacementFrom(tiles, ds, 0).None?
      ensures placement.Some? ==>
        && TileIndex(placement.value.0) < 81
        && (TileIndex(placement.value.0), placement.value.1) == PlacementFrom(tiles, ds, 0).value
    {
      var locs := Enumerate(ds);
      for neededDigit := 0 to 9
        invariant PlacementFrom(tiles, ds, neededDigit) == PlacementFrom(tiles, ds, 0)
      {
        var possibleLocation := FindSingleLocation(ds, locs, neededDigit);
        if possibleLocation.Some? {
          var location := locs[possibleLocation.value];
          assert TileIndex(location) == RegionTile(ds, possibleLocation.value);
          if !Get(location).solved {
            return Some((location, neededDigit));
          }
        }
      }
      placement := None;
    }

    /** The productive branch of `check_single_location`: place digit `d` at `loc`, then reduce every region. */
    method PlaceAndReduce(loc: (nat, nat), d: nat)
      modifies this
      requires |tiles| == 81 && TileIndex(loc) < 81 && d < 9
      ensures tiles == ForSetsSpec(Reduce, BO.All, old(tiles)[TileIndex(loc) := NewSingleDigit(d)]).0
      decreases 0, 5
    {
      var solved := NewSingleDigit(d);
      Set(loc, solved);
      var _ := ForSets(Reduce, BO.All);
    }

    /**
     * The inner loop of `check_single_location`: the only region position
     * whose cell allows `neededDigit`, or `None` for none or several.
     */
    method FindSingleLocation(ds: DigitSet, locs: seq<(nat, nat)>, neededDigit: nat) returns (possibleLocation: Option<nat>)
      requires |tiles| == 81 && ValidSet(ds) && locs == Indices(ds) && neededDigit < 9
      ensures possibleLocation == HiddenSingle(tiles, ds, neededDigit)
    {
      ghost var bs := DigitFlags(tiles, ds, neededDigit);
      possibleLocation := None;
      var j := 0;
      while j < Len(ds)
        invariant j <= Len(ds)
        invariant SingleTrueFrom(bs, j, possibleLocation) == HiddenSingle(tiles, ds, neededDigit)
      {
        var cell := Get(locs[j]);
        assert cell.possibilities[neededDigit] == bs[j];
        if cell.possibilities[neededDigit] {
          if possibleLocation.None? {
            possibleLocation := Some(j);
          } else {
            possibleLocation := None;
            break;
          }
        }
        j := j + 1;
      }
    }

    /** `func(self, set)` for the function `for_sets` was passed. */
    method ApplyRegionFn(f: RegionFn, ds: DigitSet) returns (result: bool)
      modifies this
      requires |tiles| == 81 && ValidSet(ds)
      ensures (tiles, result) == RegionSpec(f, old(tiles), ds)
      decreases Rank(f), 1
    {
      match f
      case Reduce => result := ReducePossibilities(ds);
      case SingleLocation => result := CheckSingleLocation(ds);
      case SolvedSet => result := CheckSolvedSet(ds);
    }

    /** `for_sets(func, operation)`: rows, then columns, then boxes. */
    method ForSets(f: RegionFn, op: BO.BooleanOperation) returns (result: bool)
      modifies this
      requires |tiles| == 81
      ensures (tiles, result) == ForSetsSpec(f, op, old(tiles))
      decreases Rank(f), 4
    {
      ghost var spec := ForSetsSpec(f, op, tiles);
      FoldIsStart(f, op, tiles);
      var stop;
      result, stop := VisitKind(f, op, 0, BO.Initial(op), spec);
      if stop {
        return;
      }
      result, stop := VisitKind(f, op, 1, result, spec);
      if stop {
        return;
      }
      result, stop := VisitKind(f, op, 2, result, spec);
      if !stop {
        FoldIsEnd(f, op, tiles, result, spec);
      }
    }

    /**
     * One of the three loops of `for_sets`: over the rows (`kind` 0), the
     * columns (1) or the boxes (2), and whether a lazy operation returned in
     * it; `spec` is where the remaining loops end.
     */
    method VisitKind(f: RegionFn, op: BO.BooleanOperation, kind: nat, acc: bool, ghost spec: (seq<Cell>, bool))
      returns (result: bool, stop: bool)
      modifies this
      requires |tiles| == 81 && kind < 3
      requires FoldIs(f, op, tiles, acc, 9 * kind, spec)
      ensures |tiles| == 81
      ensures stop ==> spec == (tiles, result)
      ensures !stop ==> FoldIs(f, op, tiles, result, 9 * kind + 9, spec)
      decreases Rank(f), 3
    {
      result, stop := acc, false;
      for x := 0 to 9
        invariant |tiles| == 81
        invariant !stop && FoldIs(f, op, tiles, result, 9 * kind + x, spec)
      {
        var ds := KindRegion(kind, x);
        ghost var t, a := tiles, result;
        result, stop := VisitRegion(f, op, ds, 9 * kind + x, result);
        FoldIsStep(f, op, t, a, 9 * kind + x, spec);
        if stop {
          return;
        }
      }
    }

    /**
     * One statement `result = operation.combine(result, func(self, set))` of
     * `for_sets`, and whether a lazy operation returns right after it.
     */
    method VisitRegion(f: RegionFn, op: BO.BooleanOperation, ds: DigitSet, i: nat, acc: bool) returns (result: bool, stop: bool)
      modifies this
      requires |tiles| == 81 && i < 27 && Regions()[i] == ds
      ensures (tiles, result, stop) == RegionStep(f, op, old(tiles), acc, i)
      decreases Rank(f), 2
    {
      var x := ApplyRegionFn(f, ds);
      result := BO.Combine(op, acc, x);
      stop := BO.IsLazy(op) && result != BO.Initial(op);
    }

    /** `reduce_and_check_singles_loop`. */
    method ReduceAndCheckSinglesLoop() returns (foundSomethingEver: bool)
      modifies this
      requires |tiles| == 81
      ensures (tiles, foundSomethingEver) == LoopSpec(old(tiles))
    {
      foundSomethingEver := false;
      var foundSomethingNow := true;
      while foundSomethingNow
        invariant |tiles| == 81
        invariant foundSomethingNow ==>
          LoopSpec(tiles).0 == LoopSpec(old(tiles)).0 &&
          (LoopSpec(old(tiles)).1 <==> foundSomethingEver || LoopSpec(tiles).1)
        invariant !foundSomethingNow ==> (tiles, foundSomethingEver) == LoopSpec(old(tiles))
        decreases 81 - SolvedCount(tiles) + (if foundSomethingNow then 1 else 0)
      {
        ghost var before := tiles;
        StepIsProgress(before);
        StepKeeps(before);
        ProgressRaisesCount(before, StepSpec(before).0);
        foundSomethingNow := ForSets(Reduce, BO.Any);
        if !foundSomethingNow {
          foundSomethingNow := ForSets(SingleLocation, BO.Any);
        }
        assert (tiles, foundSomethingNow) == StepSpec(before);
        foundSomethingEver := foundSomethingEver || foundSomethingNow;
      }
    }
  
    /**
     * The step `solve` repeats: `reduce_and_check_singles_loop`, then
     * `for_sets(check_solved_set, AndLazy)`.
     */
    method ReduceAndCheckSolved() returns (solved: bool)
      modifies this
      requires |tiles| == 81
      ensures (tiles, solved) == ForSetsSpec(SolvedSet, BO.AllLazy, LoopSpec(old(tiles)).0)
      ensures Keeps(old(tiles), tiles)
      ensures solved <==> BoardSolved(tiles)
    {
      ghost var t := tiles;
      var _ := ReduceAndCheckSinglesLoop();
      ghost var l := tiles;
      solved := ForSets(SolvedSet, BO.AllLazy);
      LoopKeeps(t);
      ForSetsKeeps(SolvedSet, BO.AllLazy, l);
      KeepsTransitive(t, l, tiles);
      ForSetsSolvedIsBoardSolved(l);
      BoardSolvedAlike(l, tiles);
    }

    /**
     * The scan of `solve` for the unsolved cell with the fewest possibilities
     * and its lowest possible digit; `guessLocation` and `guessIndex` keep
     * the values they came in with when no cell is unsolved.
     */
    method ScanForGuess(guessLocation0: Option<(nat, nat)>, guessIndex0: Option<nat>)
      returns (guessLocation: Option<(nat, nat)>, guessIndex: Option<nat>)
      requires |tiles| == 81
      ensures Scan(tiles).None? ==> guessLocation == guessLocation0 && guessIndex == guessIndex0
      ensures Scan(tiles).Some? ==>
        && guessLocation == Some(At(All, Scan(tiles).value))
        && TileIndex(guessLocation.value) == Scan(tiles).value
        && guessIndex == FirstTrue(tiles[Scan(tiles).value].possibilities)
    {
      var locs := Enumerate(All);
      guessLocation, guessIndex := guessLocation0, guessIndex0;
      var minPossibilities := 10;
      ghost var best: Option<nat> := None;
      var k := 0;
      while k < 81
        invariant k <= 81
        invariant ScanFrom(tiles, k, minPossibilities, best) == Scan(tiles)
        invariant best.None? ==> guessLocation == guessLocation0 && guessIndex == guessIndex0
        invariant best.Some? ==> && best.value < 81 && guessLocation == Some(At(All, best.value))
                                 && TileIndex(At(All, best.value)) == best.value
                                 && guessIndex == FirstTrue(tiles[best.value].possibilities)
      {
        var location := locs[k];
        assert TileIndex(location) == k;
        var cell := Get(location);
        var currentPossibilities := NumPossibilities(cell);
        if !cell.solved && currentPossibilities < minPossibilities {
          minPossibilities := currentPossibilities;
          guessLocation := Some(location);
          guessIndex := FirstTrue(cell.possibilities);
          best := Some(k);
          if minPossibilities == 2 || minPossibilities == 0 {
            break;
          }
        }
        k := k + 1;
      }
    }

    /**
     * Making a guess: strike the digit out of the cell, keep that board as
     * the snapshot to return to, then put `new_single_digit(index)` in the cell.
     */
    method MakeGuess(location: (nat, nat), index: nat) returns (snapshot: seq<Cell>)
      modifies this
      requires |tiles| == 81 && TileIndex(location) < 81 && index < 9
      ensures snapshot == old(tiles)[TileIndex(location) := Cleared(old(tiles)[TileIndex(location)], index)]
      ensures tiles == snapshot[TileIndex(location) := NewSingleDigit(index)]
    {
      var cell := Get(location);
      cell := cell.(possibilities := cell.possibilities[index := false]);
      Set(location, cell);
      snapshot := tiles;
      var solved := NewSingleDigit(index);
      Set(location, solved);
    }

    /**
     * `solve`: propagate, and while the board is not solved, guess at the
     * cell with the fewest possibilities, returning to the last snapshot when
     * no guess is left. Every round is paid for with one unit of `fuel`.
     */
    method Solve(fuel: nat) returns (outcome: Outcome)
      modifies this
      requires Valid()
      ensures Valid() && Keeps(old(tiles), tiles)
      ensures outcome == Solved ==> BoardSolved(tiles)
      ensures AllSolved(old(tiles)) && BoardSolved(old(tiles)) ==> outcome == Solved && tiles == old(tiles)
      ensures outcome == Solved ==> forall k: nat, a: nat, b: nat :: !Clash(old(tiles), k, a, b)
    {
      ghost var t0 := tiles;
      var solved := ReduceAndCheckSolved();
      if AllSolved(t0) {
        LoopOnSolvedBoard(t0);
        SolvedSetOnSolvedBoard(t0);
      }
      if solved {
        ClashNeverSolved(t0, tiles);
        return Solved;
      }
      var statesBeforeGuesses: seq<seq<Cell>> := [];
      ghost var tried: seq<(nat, nat)> := [];
      var remaining := fuel;
      while !solved
        invariant |tiles| == 81 && Keeps(t0, tiles)
        invariant Stacked(t0, statesBeforeGuesses, tried)
        invariant solved ==> BoardSolved(tiles)
        decreases remaining
      {
        if remaining == 0 {
          return OutOfFuel;
        }
        remaining := remaining - 1;
        var exhausted;
        ghost var returnedTo: nat;
        statesBeforeGuesses, tried, exhausted, returnedTo := GuessOrBacktrack(statesBeforeGuesses, tried, t0);
        if exhausted {
          return StackExhausted;
        }
        ghost var t := tiles;
        solved := ReduceAndCheckSolved();
        KeepsTransitive(t0, t, tiles);
      }
      ClashNeverSolved(t0, tiles);
      outcome := Solved;
    }

    /**
     * The inner loop of `solve`: scan for a guess and make it, or, when the
     * scan finds none, return to the last snapshot and scan again;
     * `exhausted` when no snapshot is left to return to.
     */
    method GuessOrBacktrack(states: seq<seq<Cell>>, ghost tried: seq<(nat, nat)>, ghost t0: seq<Cell>)
      returns (states': seq<seq<Cell>>, ghost tried': seq<(nat, nat)>, exhausted: bool, ghost k: nat)
      modifies this
      requires |t0| == 81 && |tiles| == 81 && Keeps(t0, tiles) && Stacked(t0, states, tried)
      ensures |tiles| == 81 && Keeps(t0, tiles) && Stacked(t0, states', tried')
      ensures !exhausted ==> Committed(tiles, states', tried')
      ensures exhausted ==> states' == [] && tried' == []
      ensures !exhausted ==> k <= |states|
      ensures !exhausted ==>
        GuessedFrom(if k == |states| then old(tiles) else states[k], states, tried, k, states', tried', tiles)
    {
      states', tried' := states, tried;
      k := |states|;
      var guessLocation: Option<(nat, nat)> := None;
      var guessIndex: Option<nat> := None;
      while guessLocation.None? || guessIndex.None?
        invariant |tiles| == 81 && Keeps(t0, tiles) && Stacked(t0, states', tried')
        invariant k <= |states|
        invariant guessLocation.None? || guessIndex.None? ==>
          && states' == states[..k] && tried' == tried[..k]
          && tiles == if k == |states| then old(tiles) else states[k]
        invariant guessLocation.Some? && guessIndex.Some? ==>
          && Committed(tiles, states', tried')
          && GuessedFrom(if k == |states| then old(tiles) else states[k], states, tried, k, states', tried', tiles)
        decreases |states'| + (if guessLocation.None? || guessIndex.None? then 2 else 0)
      {
        ghost var t := tiles;
        guessLocation, guessIndex := ScanForGuess(guessLocation, guessIndex);
        if guessLocation.Some? && guessIndex.Some? {
          ScanChoice(t);
          states', tried' := PushGuess(guessLocation.value, guessIndex.value, states', tried', t0);
        } else {
          if |states'| == 0 {
            return states', tried', true, k;
          }
          PopSnapshot(t0, states', tried');
          tiles := states'[|states'| - 1];
          states' := states'[..|states'| - 1];
          tried' := tried'[..|tried'| - 1];
          k := k - 1;
          assert states' == states[..k] && tried' == tried[..k];
        }
      }
      exhausted := false;
    }

    /** The productive branch of the inner loop: push the snapshot and commit to the guess. */
    method PushGuess(location: (nat, nat), index: nat, states: seq<seq<Cell>>, ghost tried: seq<(nat, nat)>, ghost t0: seq<Cell>)
      returns (states': seq<seq<Cell>>, ghost tried': seq<(nat, nat)>)
      modifies this
      requires |t0| == 81 && |tiles| == 81 && Keeps(t0, tiles) && Stacked(t0, states, tried)
      requires TileIndex(location) < 81 && index < 9 && !tiles[TileIndex(location)].solved
      ensures |tiles| == 81 && Keeps(t0, tiles) && Stacked(t0, states', tried')
      ensures Committed(tiles, states', tried')
      ensures |states'| == |states| + 1 && states'[..|states|] == states
      ensures states' == states + [old(tiles)[TileIndex(location) := Cleared(old(tiles)[TileIndex(location)], index)]]
      ensures tried' == tried + [(TileIndex(location), index)]
      ensures tiles == states'[|states|][TileIndex(location) := NewSingleDigit(index)]
    {
      ghost var t := tiles;
      var snapshot := MakeGuess(location, index);
      GuessKeeps(t, TileIndex(location), index);
      KeepsTransitive(t0, t, snapshot);
      KeepsTransitive(t0, t, tiles);
      PushSnapshot(t0, states, tried, snapshot, (TileIndex(location), index));
      states' := states + [snapshot];
      tried' := tried + [(TileIndex(location), index)];
    }
  }
}
