/**
 * What `reduce_and_check_singles_loop` leaves behind: a board on which no
 * region can be reduced any further and no region has a hidden single, so
 * that running the loop again changes nothing and reports nothing.
 */
module Fixpoints {
  import opened Wrappers
  import opened Cells
  import opened DigitSets
  import opened IndexIterators
  import opened BoardSpec
  import opened Propagation
  import BO = BooleanOperations

  /**
   * No reduction is left in the region: every digit an unsolved cell of the
   * region still allows is the single value of no cell of the region.
   */
  ghost predicate RegionSettled(t: seq<Cell>, ds: DigitSet)
    requires |t| == 81 && ValidSet(ds)
  {
    forall m, d :: 0 <= m < 81 && InRegion(ds, m) && !t[m].solved && 0 <= d < 9 && t[m].possibilities[d] ==>
      PossibleAfter(t, ds, Len(ds))[d]
  }

  /** No row, column or box can be reduced any further. */
  ghost predicate Settled(t: seq<Cell>)
    requires |t| == 81
  {
    forall k :: 0 <= k < 27 ==> RegionSettled(t, Regions()[k])
  }

  /** No row, column or box has a hidden single. */
  ghost predicate NoHiddenSingles(t: seq<Cell>)
    requires |t| == 81
  {
    forall k :: 0 <= k < 27 ==> NoHiddenSingleIn(t, Regions()[k], 0, 9)
  }

  /**
   * `t'` differs from `t` only by lost possibilities that solve nothing and
   * create no new single value.
   */
  ghost predicate Narrows(t: seq<Cell>, t': seq<Cell>)
    requires |t| == 81 && |t'| == 81
  {
    forall m :: 0 <= m < 81 ==>
      && t'[m].solved == t[m].solved
      && (forall d :: 0 <= d < 9 && t'[m].possibilities[d] ==> t[m].possibilities[d])
      && (GetSingleIndex(t'[m]).Some? ==> GetSingleIndex(t'[m]) == GetSingleIndex(t[m]))
  }

  lemma NarrowsTransitive(t: seq<Cell>, t': seq<Cell>, t'': seq<Cell>)
    requires |t| == 81 && |t'| == 81 && |t''| == 81
    requires Narrows(t, t') && Narrows(t', t'')
    ensures Narrows(t, t'')
  {
  }

  /** A digit still possible for the region stays possible after narrowing. */
  lemma PossibleNarrows(t: seq<Cell>, t': seq<Cell>, ds: DigitSet, d: nat)
    requires |t| == 81 && |t'| == 81 && ValidSet(ds) && d < 9
    requires Narrows(t, t') && PossibleAfter(t, ds, Len(ds))[d]
    ensures PossibleAfter(t', ds, Len(ds))[d]
  {
    forall j | 0 <= j < Len(ds)
      ensures GetSingleIndex(t'[RegionTile(ds, j)]) != Some(d)
    {
      assert GetSingleIndex(t[RegionTile(ds, j)]) != Some(d);
    }
  }

  /** Narrowing keeps a region settled. */
  lemma SettledAfterNarrowing(t: seq<Cell>, t': seq<Cell>, ds: DigitSet)
    requires |t| == 81 && |t'| == 81 && ValidSet(ds)
    requires Narrows(t, t') && RegionSettled(t, ds)
    ensures RegionSettled(t', ds)
  {
    forall m, d | 0 <= m < 81 && InRegion(ds, m) && !t'[m].solved && 0 <= d < 9 && t'[m].possibilities[d]
      ensures PossibleAfter(t', ds, Len(ds))[d]
    {
      PossibleNarrows(t, t', ds, d);
    }
  }

  /** In a settled region no unsolved cell is down to one possibility. */
  lemma SettledHasNoUnflaggedSingle(t: seq<Cell>, ds: DigitSet, m: nat)
    requires |t| == 81 && ValidSet(ds) && m < 81 && InRegion(ds, m) && !t[m].solved
    requires RegionSettled(t, ds)
    ensures NumPossibilities(t[m]) != 1
  {
    InRegionIsRegionTile(ds, m);
    forall d | 0 <= d < 9 && t[m].possibilities[d]
      ensures GetSingleIndex(t[m]) != Some(d)
    {
      assert PossibleAfter(t, ds, Len(ds))[d];
    }
    GetSingleIndexMeaning(t[m]);
    SingleIndexIffOnePossibility(t[m]);
  }

  /** `reduce_possibilities` of a settled region changes nothing and returns false. */
  lemma SettledReduceIsNoop(t: seq<Cell>, ds: DigitSet)
    requires |t| == 81 && ValidSet(ds) && RegionSettled(t, ds)
    ensures ReduceSpec(t, ds) == (t, false)
  {
    var t' := ReduceSpec(t, ds).0;
    var possible := PossibleAfter(t, ds, Len(ds));
    forall m | 0 <= m < 81
      ensures t'[m] == t[m]
    {
      ReduceAt(t, ds, m);
      if InRegion(ds, m) && !t[m].solved {
        SettledHasNoUnflaggedSingle(t, ds, m);
        assert Intersect(t[m].possibilities, possible) == t[m].possibilities;
      }
    }
    assert t' == t;
    ReduceResultIsProgress(t, ds);
  }

  /** A `reduce_possibilities` that returns false only narrows the tiles and leaves the region settled. */
  lemma ReduceStalledFacts(t: seq<Cell>, ds: DigitSet)
    requires |t| == 81 && ValidSet(ds) && !ReduceSpec(t, ds).1
    ensures Narrows(t, ReduceSpec(t, ds).0)
    ensures RegionSettled(ReduceSpec(t, ds).0, ds)
  {
    var t' := ReduceSpec(t, ds).0;
    ReduceResultIsProgress(t, ds);
    ReduceShrinks(t, ds);
    ReduceFrame(t, ds);
    forall m | 0 <= m < 81
      ensures GetSingleIndex(t'[m]).Some? ==> GetSingleIndex(t'[m]) == GetSingleIndex(t[m])
    {
      ReduceAt(t, ds, m);
      if InRegion(ds, m) && !t[m].solved {
        assert !t'[m].solved;
        SingleIndexIffOnePossibility(t'[m]);
      }
    }
    forall m, d | 0 <= m < 81 && InRegion(ds, m) && !t'[m].solved && 0 <= d < 9 && t'[m].possibilities[d]
      ensures PossibleAfter(t', ds, Len(ds))[d]
    {
      ReduceAt(t, ds, m);
      PossibleNarrows(t, t', ds, d);
    }
  }

  /** An `Or` fold of reductions from region `i` that returns false narrows the tiles and settles every region. */
  lemma {:induction false} FoldReduceStalled(t: seq<Cell>, i: nat)
    requires |t| == 81 && i <= 27
    requires forall k :: 0 <= k < i ==> RegionSettled(t, Regions()[k])
    requires !FoldRegions(Reduce, BO.Any, t, false, i).1
    ensures Narrows(t, FoldRegions(Reduce, BO.Any, t, false, i).0)
    ensures Settled(FoldRegions(Reduce, BO.Any, t, false, i).0)
    decreases 27 - i
  {
    if i < 27 {
      var ds := Regions()[i];
      var x := ReduceSpec(t, ds);
      if x.1 {
        FoldRegionsAbsorbed(Reduce, BO.Any, x.0, true, i + 1);
        assert false;
      }
      ReduceStalledFacts(t, ds);
      forall k | 0 <= k < i
        ensures RegionSettled(x.0, Regions()[k])
      {
        SettledAfterNarrowing(t, x.0, Regions()[k]);
      }
      FoldReduceStalled(x.0, i + 1);
      NarrowsTransitive(t, x.0, FoldRegions(Reduce, BO.Any, x.0, false, i + 1).0);
    }
  }

  /** On a settled board the `Or` fold of reductions changes nothing and returns false. */
  lemma {:induction false} FoldReduceSettled(t: seq<Cell>, i: nat)
    requires |t| == 81 && i <= 27 && Settled(t)
    ensures FoldRegions(Reduce, BO.Any, t, false, i) == (t, false)
    decreases 27 - i
  {
    if i < 27 {
      SettledReduceIsNoop(t, Regions()[i]);
      FoldReduceSettled(t, i + 1);
    }
  }

  /** One region of an `Or` fold: its result is or-ed in and the fold goes on from its tiles. */
  lemma AnyFoldStep(f: RegionFn, t: seq<Cell>, acc: bool, i: nat)
    requires |t| == 81 && i < 27
    ensures var x := RegionSpec(f, t, Regions()[i]);
      FoldRegions(f, BO.Any, t, acc, i) == FoldRegions(f, BO.Any, x.0, acc || x.1, i + 1)
  {
  }

  /** No region from `i` on has a hidden single. */
  ghost predicate NoHiddenSinglesFrom(t: seq<Cell>, i: nat)
    requires |t| == 81
  {
    forall k :: i <= k < 27 ==> NoHiddenSingleIn(t, Regions()[k], 0, 9)
  }

  /** An `Or` fold of `check_single_location` from region `i` that returns false changes nothing. */
  lemma {:induction false} FoldSingleLocationStalled(t: seq<Cell>, i: nat)
    requires |t| == 81 && i <= 27 && !FoldRegions(SingleLocation, BO.Any, t, false, i).1
    ensures FoldRegions(SingleLocation, BO.Any, t, false, i).0 == t
    ensures NoHiddenSinglesFrom(t, i)
    decreases 27 - i
  {
    if i < 27 {
      var ds := Regions()[i];
      var x := RegionSpec(SingleLocation, t, ds);
      AnyFoldStep(SingleLocation, t, false, i);
      if x.1 {
        FoldRegionsAbsorbed(SingleLocation, BO.Any, x.0, true, i + 1);
        assert false;
      }
      SingleLocationMeaning(t, ds);
      FoldSingleLocationStalled(t, i + 1);
    }
  }

  /** A pass that reports nothing leaves a settled board without hidden singles, on which the next pass does nothing. */
  lemma StepStalls(t: seq<Cell>)
    requires |t| == 81 && !StepSpec(t).1
    ensures Settled(StepSpec(t).0) && NoHiddenSingles(StepSpec(t).0)
    ensures StepSpec(StepSpec(t).0) == (StepSpec(t).0, false)
  {
    var a := ForSetsSpec(Reduce, BO.Any, t);
    FoldReduceStalled(t, 0);
    FoldSingleLocationStalled(a.0, 0);
    FoldReduceSettled(a.0, 0);
  }

  /**
   * `reduce_and_check_singles_loop` reaches a fixpoint: its board is settled
   * and has no hidden single, a further pass finds nothing, and the loop run
   * again changes nothing and returns false.
   */
  lemma LoopIdempotent(t: seq<Cell>)
    requires |t| == 81
    ensures Settled(LoopSpec(t).0) && NoHiddenSingles(LoopSpec(t).0)
    ensures StepSpec(LoopSpec(t).0) == (LoopSpec(t).0, false)
    ensures LoopSpec(LoopSpec(t).0) == (LoopSpec(t).0, false)
  {
    var last := LoopEndsStalled(t);
    StepStalls(last);
  }

  /** Every cell of the board is solved. */
  ghost predicate AllSolved(t: seq<Cell>)
    requires |t| == 81
  {
    forall m :: 0 <= m < 81 ==> t[m].solved
  }

  /** On a board whose cells are all solved the loop changes nothing and returns false. */
  lemma LoopOnSolvedBoard(t: seq<Cell>)
    requires |t| == 81 && AllSolved(t)
    ensures LoopSpec(t) == (t, false)
  {
    var r := LoopSpec(t);
    LoopKeeps(t);
    forall m | 0 <= m < 81
      ensures r.0[m] == t[m]
    {
      assert t[m].solved;
    }
    assert r.0 == t;
    LoopIsProgress(t);
    assert !Progress(t, r.0);
  }

  /**
   * On a board whose cells are all solved `check_solved_set` changes nothing,
   * and the board counts as solved iff every row, column and box holds distinct digits.
   */
  lemma SolvedSetOnSolvedBoard(t: seq<Cell>)
    requires |t| == 81 && AllSolved(t)
    ensures ForSetsSpec(SolvedSet, BO.AllLazy, t).0 == t
    ensures ForSetsSpec(SolvedSet, BO.AllLazy, t).1 <==> BoardSolved(t)
  {
    ForSetsKeeps(SolvedSet, BO.AllLazy, t);
    var c := ForSetsSpec(SolvedSet, BO.AllLazy, t).0;
    assert forall m :: 0 <= m < 81 ==> c[m] == t[m];
    ForSetsSolvedIsBoardSolved(t);
  }
}
