/**
 * `check_single_location`, `for_sets` and `reduce_and_check_singles_loop`
 * as functions of the 81 tiles, with what they return and what they keep.
 */
module Propagation {
  import opened Wrappers
  import opened Cells
  import opened DigitSets
  import opened IndexIterators
  import opened BoardSpec
  import BO = BooleanOperations

  /** The region checks `for_sets` is called with. */
  datatype RegionFn = Reduce | SingleLocation | SolvedSet

  /** `check_single_location` calls `for_sets` again, but only with `reduce_possibilities`. */
  function Rank(f: RegionFn): nat {
    if f == SingleLocation then 1 else 0
  }

  // ---------------------------------------------------------------- check_single_location

  /** Which cells of the region, in iteration order, still allow digit index `d`. */
  function DigitFlags(t: seq<Cell>, ds: DigitSet, d: nat): (bs: seq<bool>)
    requires |t| == 81 && ValidSet(ds) && d < 9
    ensures |bs| == Len(ds)
    ensures forall j :: 0 <= j < Len(ds) ==> bs[j] == t[RegionTile(ds, j)].possibilities[d]
  {
    seq(Len(ds), j requires 0 <= j < Len(ds) => t[RegionTile(ds, j)].possibilities[d])
  }

  /**
   * The inner scan of `check_single_location`: the first region position
   * allowing `d`, given up (`None`) as soon as a second one is met.
   */
  function HiddenSingle(t: seq<Cell>, ds: DigitSet, d: nat): (r: Option<nat>)
    requires |t| == 81 && ValidSet(ds) && d < 9
    ensures r.Some? ==> r.value < Len(ds)
  {
    SingleTrueFrom(DigitFlags(t, ds, d), 0, None)
  }

  /** The scan finds the only region position allowing `d`, and `None` for none or several. */
  lemma HiddenSingleMeaning(t: seq<Cell>, ds: DigitSet, d: nat)
    requires |t| == 81 && ValidSet(ds) && d < 9
    ensures HiddenSingle(t, ds, d).Some? ==> OnlyTrue(DigitFlags(t, ds, d), HiddenSingle(t, ds, d).value)
    ensures HiddenSingle(t, ds, d).None? ==> forall k :: !OnlyTrue(DigitFlags(t, ds, d), k)
  {
    SingleTrueFromMeaning(DigitFlags(t, ds, d), 0, None);
  }

  /**
   * The outer loop of `check_single_location` from digit index `d`: the
   * first digit whose single location is an unsolved cell, as (tile, digit).
   */
  function PlacementFrom(t: seq<Cell>, ds: DigitSet, d: nat): (r: Option<(nat, nat)>)
    requires |t| == 81 && ValidSet(ds) && d <= 9
    ensures r.Some? ==> r.value.0 < 81 && d <= r.value.1 < 9 && !t[r.value.0].solved
    decreases 9 - d
  {
    if d == 9 then None
    else
      match HiddenSingle(t, ds, d)
      case Some(j) =>
        if !t[RegionTile(ds, j)].solved then Some((RegionTile(ds, j), d))
        else PlacementFrom(t, ds, d + 1)
      case None => PlacementFrom(t, ds, d + 1)
  }

  /**
   * `check_single_location(set)`: the digit found is placed as a solved cell,
   * every region is reduced (with eager `And`), and the result is true;
   * without a placement nothing changes and the result is false.
   */
  function SingleLocationSpec(t: seq<Cell>, ds: DigitSet): (r: (seq<Cell>, bool))
    requires |t| == 81 && ValidSet(ds)
    ensures |r.0| == 81
    decreases 1, 0, 0
  {
    match PlacementFrom(t, ds, 0)
    case Some((m, d)) => (ForSetsSpec(Reduce, BO.All, t[m := NewSingleDigit(d)]).0, true)
    case None => (t, false)
  }

  /** The two outcomes of `check_single_location`, one placement at a time. */
  lemma SingleLocationCases(t: seq<Cell>, ds: DigitSet)
    requires |t| == 81 && ValidSet(ds)
    ensures PlacementFrom(t, ds, 0).None? ==> SingleLocationSpec(t, ds) == (t, false)
    ensures PlacementFrom(t, ds, 0).Some? ==>
      var (m, d) := PlacementFrom(t, ds, 0).value;
      SingleLocationSpec(t, ds) == (ForSetsSpec(Reduce, BO.All, t[m := NewSingleDigit(d)]).0, true)
  {
  }

  /** Placing a solved cell over an unsolved one keeps the cell invariant and every solved cell. */
  lemma PlacingKeeps(t: seq<Cell>, m: nat, d: nat)
    requires |t| == 81 && m < 81 && d < 9 && !t[m].solved
    ensures Keeps(t, t[m := NewSingleDigit(d)])
  {
  }

  // ---------------------------------------------------------------- for_sets

  /** One call `func(self, set)`: the new tiles and the returned flag. */
  function RegionSpec(f: RegionFn, t: seq<Cell>, ds: DigitSet): (r: (seq<Cell>, bool))
    requires |t| == 81 && ValidSet(ds)
    ensures |r.0| == 81
    decreases Rank(f), 1, 0
  {
    match f
    case Reduce => ReduceSpec(t, ds)
    case SingleLocation => SingleLocationSpec(t, ds)
    case SolvedSet => SolvedSetSpec(t, ds)
  }

  /**
   * One statement `result = operation.combine(result, func(self, set))` of
   * `for_sets` on region `i`: the new tiles, the new result, and whether a
   * lazy operation returns right after it because the result left `initial`.
   */
  function RegionStep(f: RegionFn, op: BO.BooleanOperation, t: seq<Cell>, acc: bool, i: nat): (r: (seq<Cell>, bool, bool))
    requires |t| == 81 && i < 27
    ensures |r.0| == 81
    decreases Rank(f), 1, 1
  {
    var x := RegionSpec(f, t, Regions()[i]);
    var acc' := BO.Combine(op, acc, x.1);
    (x.0, acc', BO.IsLazy(op) && acc' != BO.Initial(op))
  }

  /** The loops of `for_sets` from region `i` of rows, columns, boxes, with `acc` the result so far. */
  function FoldRegions(f: RegionFn, op: BO.BooleanOperation, t: seq<Cell>, acc: bool, i: nat): (r: (seq<Cell>, bool))
    requires |t| == 81 && i <= 27
    ensures |r.0| == 81
    decreases Rank(f), 2, 27 - i
  {
    if i == 27 then (t, acc)
    else
      var s := RegionStep(f, op, t, acc, i);
      if s.2 then (s.0, s.1) else FoldRegions(f, op, s.0, s.1, i + 1)
  }

  /** The loops of `for_sets`, run from region `i` with `acc` the result so far, end in `r`. */
  ghost predicate FoldIs(f: RegionFn, op: BO.BooleanOperation, t: seq<Cell>, acc: bool, i: nat, r: (seq<Cell>, bool))
    requires |t| == 81 && i <= 27
  {
    FoldRegions(f, op, t, acc, i) == r
  }

  /** `for_sets` starts the loops at region 0 with `initial`. */
  lemma FoldIsStart(f: RegionFn, op: BO.BooleanOperation, t: seq<Cell>)
    requires |t| == 81
    ensures FoldIs(f, op, t, BO.Initial(op), 0, ForSetsSpec(f, op, t))
  {
  }

  /** After region 26 the loops return what they have. */
  lemma FoldIsEnd(f: RegionFn, op: BO.BooleanOperation, t: seq<Cell>, acc: bool, r: (seq<Cell>, bool))
    requires |t| == 81 && FoldIs(f, op, t, acc, 27, r)
    ensures r == (t, acc)
  {
  }

  /** One region further: the loops either return right after region `i` or go on from `i + 1`. */
  lemma FoldIsStep(f: RegionFn, op: BO.BooleanOperation, t: seq<Cell>, acc: bool, i: nat, r: (seq<Cell>, bool))
    requires |t| == 81 && i < 27 && FoldIs(f, op, t, acc, i, r)
    ensures var s := RegionStep(f, op, t, acc, i);
      if s.2 then r == (s.0, s.1) else FoldIs(f, op, s.0, s.1, i + 1, r)
  {
  }

  /** `for_sets(func, operation)`: the new tiles and the combined result. */
  function ForSetsSpec(f: RegionFn, op: BO.BooleanOperation, t: seq<Cell>): (r: (seq<Cell>, bool))
    requires |t| == 81
    ensures |r.0| == 81
    decreases Rank(f), 3, 0
  {
    FoldRegions(f, op, t, BO.Initial(op), 0)
  }

  /** Once the result has left `initial` it stays as it is, whatever the remaining regions return. */
  lemma {:induction false} FoldRegionsAbsorbed(f: RegionFn, op: BO.BooleanOperation, t: seq<Cell>, acc: bool, i: nat)
    requires |t| == 81 && i <= 27 && acc != BO.Initial(op)
    ensures FoldRegions(f, op, t, acc, i).1 == acc
    decreases 27 - i
  {
    if i < 27 {
      var s := RegionStep(f, op, t, acc, i);
      BO.ResultAbsorbs(op, acc, RegionSpec(f, t, Regions()[i]).1);
      if !s.2 {
        FoldRegionsAbsorbed(f, op, s.0, s.1, i + 1);
      }
    }
  }

  /** The early return of a lazy operation gives the result the eager one would. */
  lemma {:induction false} FoldLazyAgrees(f: RegionFn, lazy: BO.BooleanOperation, eager: BO.BooleanOperation, t: seq<Cell>, acc: bool, i: nat)
    requires |t| == 81 && i <= 27
    requires (lazy, eager) == (BO.AnyLazy, BO.Any) || (lazy, eager) == (BO.AllLazy, BO.All)
    ensures FoldRegions(f, lazy, t, acc, i).1 == FoldRegions(f, eager, t, acc, i).1
    decreases 27 - i
  {
    if i < 27 {
      var x := RegionSpec(f, t, Regions()[i]);
      BO.LazyAgreesWithEager(acc, x.1);
      var acc' := BO.Combine(eager, acc, x.1);
      if acc' != BO.Initial(eager) {
        FoldRegionsAbsorbed(f, eager, x.0, acc', i + 1);
      } else {
        FoldLazyAgrees(f, lazy, eager, x.0, acc', i + 1);
      }
    }
  }

  /** `for_sets` returns the same result with `OrLazy` as with `Or`, and with `AndLazy` as with `And`. */
  lemma ForSetsLazyAgrees(f: RegionFn, t: seq<Cell>)
    requires |t| == 81
    ensures ForSetsSpec(f, BO.AnyLazy, t).1 == ForSetsSpec(f, BO.Any, t).1
    ensures ForSetsSpec(f, BO.AllLazy, t).1 == ForSetsSpec(f, BO.All, t).1
  {
    FoldLazyAgrees(f, BO.AnyLazy, BO.Any, t, false, 0);
    FoldLazyAgrees(f, BO.AllLazy, BO.All, t, true, 0);
  }

  /**
   * What the region checks from region `i` on return when every one of them
   * runs, in visiting order, each on the tiles the ones before it left.
   */
  function RegionVerdicts(f: RegionFn, t: seq<Cell>, i: nat): (vs: seq<bool>)
    requires |t| == 81 && i <= 27
    ensures |vs| == 27 - i
    decreases 27 - i
  {
    if i == 27 then []
    else
      var x := RegionSpec(f, t, Regions()[i]);
      [x.1] + RegionVerdicts(f, x.0, i + 1)
  }

  /** The result of `for_sets` from region `i` is the fold of `combine` over the region verdicts, early return or not. */
  lemma {:induction false} FoldRegionsIsFold(f: RegionFn, op: BO.BooleanOperation, t: seq<Cell>, acc: bool, i: nat)
    requires |t| == 81 && i <= 27
    ensures FoldRegions(f, op, t, acc, i).1 == BO.Fold(op, acc, RegionVerdicts(f, t, i))
    decreases 27 - i
  {
    if i < 27 {
      var x := RegionSpec(f, t, Regions()[i]);
      var acc' := BO.Combine(op, acc, x.1);
      var vs := RegionVerdicts(f, t, i);
      assert vs[0] == x.1 && vs[1..] == RegionVerdicts(f, x.0, i + 1);
      if BO.IsLazy(op) && acc' != BO.Initial(op) {
        BO.FoldAbsorbed(op, acc', vs[1..]);
      } else {
        FoldRegionsIsFold(f, op, x.0, acc', i + 1);
      }
    }
  }

  /**
   * `for_sets` with an "any" operation is true iff some region check returns
   * true, and with an "all" operation iff every one does.
   */
  lemma ForSetsVerdicts(f: RegionFn, op: BO.BooleanOperation, t: seq<Cell>)
    requires |t| == 81
    ensures ForSetsSpec(f, op, t).1 == BO.Fold(op, BO.Initial(op), RegionVerdicts(f, t, 0))
    ensures (op == BO.Any || op == BO.AnyLazy) ==>
      (ForSetsSpec(f, op, t).1 <==> exists j :: 0 <= j < 27 && RegionVerdicts(f, t, 0)[j])
    ensures (op == BO.All || op == BO.AllLazy) ==>
      (ForSetsSpec(f, op, t).1 <==> forall j :: 0 <= j < 27 ==> RegionVerdicts(f, t, 0)[j])
  {
    var vs := RegionVerdicts(f, t, 0);
    FoldRegionsIsFold(f, op, t, BO.Initial(op), 0);
    if op == BO.Any || op == BO.AnyLazy {
      BO.FoldAnyIsExists(op, vs);
    } else {
      BO.FoldAllIsForall(op, vs);
    }
  }

  // ---------------------------------------------------------------- what they keep

  lemma SingleLocationKeeps(t: seq<Cell>, ds: DigitSet)
    requires |t| == 81 && ValidSet(ds)
    ensures Keeps(t, SingleLocationSpec(t, ds).0)
    decreases 1, 0, 0
  {
    match PlacementFrom(t, ds, 0)
    case Some((m, d)) =>
      var t' := t[m := NewSingleDigit(d)];
      PlacingKeeps(t, m, d);
      ForSetsKeeps(Reduce, BO.All, t');
      KeepsTransitive(t, t', ForSetsSpec(Reduce, BO.All, t').0);
    case None =>
  }

  /** Every check keeps the cell invariant and every solved cell. */
  lemma RegionKeeps(f: RegionFn, t: seq<Cell>, ds: DigitSet)
    requires |t| == 81 && ValidSet(ds)
    ensures Keeps(t, RegionSpec(f, t, ds).0)
    decreases Rank(f), 1, 0
  {
    match f
    case Reduce => ReduceKeeps(t, ds);
    case SingleLocation => SingleLocationKeeps(t, ds);
    case SolvedSet => SolvedSetKeeps(t, ds);
  }

  lemma {:induction false} FoldKeeps(f: RegionFn, op: BO.BooleanOperation, t: seq<Cell>, acc: bool, i: nat)
    requires |t| == 81 && i <= 27
    ensures Keeps(t, FoldRegions(f, op, t, acc, i).0)
    decreases Rank(f), 2, 27 - i
  {
    if i < 27 {
      var x := RegionSpec(f, t, Regions()[i]);
      var acc' := BO.Combine(op, acc, x.1);
      RegionKeeps(f, t, Regions()[i]);
      if !(BO.IsLazy(op) && acc' != BO.Initial(op)) {
        FoldKeeps(f, op, x.0, acc', i + 1);
        KeepsTransitive(t, x.0, FoldRegions(f, op, x.0, acc', i + 1).0);
      }
    }
  }

  /** `for_sets` keeps the cell invariant and every solved cell. */
  lemma ForSetsKeeps(f: RegionFn, op: BO.BooleanOperation, t: seq<Cell>)
    requires |t| == 81
    ensures Keeps(t, ForSetsSpec(f, op, t).0)
    decreases Rank(f), 3, 0
  {
    FoldKeeps(f, op, t, BO.Initial(op), 0);
  }

  // ---------------------------------------------------------------- what they promise

  /**
   * Digit index `d` has exactly one possible cell in the region, cell `m`,
   * and that cell is not solved yet: a hidden single to be placed.
   */
  ghost predicate HiddenSingleAt(t: seq<Cell>, ds: DigitSet, d: nat, m: nat)
    requires |t| == 81 && d < 9
  {
    && m < 81 && InRegion(ds, m) && !t[m].solved && t[m].possibilities[d]
    && forall m' :: 0 <= m' < 81 && InRegion(ds, m') && m' != m ==> !t[m'].possibilities[d]
  }

  /** Cell `m` is a hidden single iff it is unsolved and its position is the only one whose flag is set. */
  lemma HiddenSingleAtFlags(t: seq<Cell>, ds: DigitSet, d: nat, m: nat)
    requires |t| == 81 && ValidSet(ds) && d < 9 && m < 81 && InRegion(ds, m)
    ensures HiddenSingleAt(t, ds, d, m) <==> !t[m].solved && OnlyTrue(DigitFlags(t, ds, d), PosIn(ds, m))
  {
    var bs := DigitFlags(t, ds, d);
    var j := PosIn(ds, m);
    InRegionIsRegionTile(ds, m);
    if HiddenSingleAt(t, ds, d, m) {
      forall k | 0 <= k < Len(ds) && k != j
        ensures !bs[k]
      {
        RegionTileInRegion(ds, k);
      }
    }
    if !t[m].solved && OnlyTrue(bs, j) {
      forall m' | 0 <= m' < 81 && InRegion(ds, m') && m' != m
        ensures !t[m'].possibilities[d]
      {
        InRegionIsRegionTile(ds, m');
        assert !bs[PosIn(ds, m')];
      }
    }
  }

  /** The inner scan returns position `j` iff `j` is the only region position allowing `d`. */
  lemma HiddenSingleIsOnly(t: seq<Cell>, ds: DigitSet, d: nat, j: nat)
    requires |t| == 81 && ValidSet(ds) && d < 9
    ensures HiddenSingle(t, ds, d) == Some(j) <==> OnlyTrue(DigitFlags(t, ds, d), j)
  {
    HiddenSingleMeaning(t, ds, d);
  }

  /** The scan of `check_single_location` finds exactly the hidden singles. */
  lemma HiddenSingleAtIff(t: seq<Cell>, ds: DigitSet, d: nat, m: nat)
    requires |t| == 81 && ValidSet(ds) && d < 9 && m < 81 && InRegion(ds, m)
    ensures HiddenSingleAt(t, ds, d, m) <==> HiddenSingle(t, ds, d) == Some(PosIn(ds, m)) && !t[m].solved
  {
    HiddenSingleAtFlags(t, ds, d, m);
    HiddenSingleIsOnly(t, ds, d, PosIn(ds, m));
  }

  /** No cell of the region is a hidden single for digit index `d`. */
  ghost predicate NoHiddenSingle(t: seq<Cell>, ds: DigitSet, d: nat)
    requires |t| == 81 && d < 9
  {
    forall m :: 0 <= m < 81 && InRegion(ds, m) ==> !HiddenSingleAt(t, ds, d, m)
  }

  /** One digit of the outer loop: a hidden single stops it, otherwise it moves on. */
  lemma PlacementStep(t: seq<Cell>, ds: DigitSet, d: nat)
    requires |t| == 81 && ValidSet(ds) && d < 9
    ensures NoHiddenSingle(t, ds, d) ==> PlacementFrom(t, ds, d) == PlacementFrom(t, ds, d + 1)
    ensures !NoHiddenSingle(t, ds, d) ==>
      PlacementFrom(t, ds, d).Some? && PlacementFrom(t, ds, d).value.1 == d &&
      HiddenSingleAt(t, ds, d, PlacementFrom(t, ds, d).value.0)
  {
    var h := HiddenSingle(t, ds, d);
    if h.Some? && !t[RegionTile(ds, h.value)].solved {
      var m := RegionTile(ds, h.value);
      RegionTileInRegion(ds, h.value);
      HiddenSingleAtIff(t, ds, d, m);
    } else {
      forall m | 0 <= m < 81 && InRegion(ds, m)
        ensures !HiddenSingleAt(t, ds, d, m)
      {
        HiddenSingleAtIff(t, ds, d, m);
        InRegionIsRegionTile(ds, m);
      }
    }
  }

  /** No digit index in `lo` .. `hi` - 1 has a hidden single in the region. */
  ghost predicate NoHiddenSingleIn(t: seq<Cell>, ds: DigitSet, lo: nat, hi: nat)
    requires |t| == 81 && hi <= 9
  {
    forall d :: lo <= d < hi ==> NoHiddenSingle(t, ds, d)
  }

  /** Peeling the lowest digit off `NoHiddenSingleIn`. */
  lemma NoHiddenSingleInStep(t: seq<Cell>, ds: DigitSet, lo: nat, hi: nat)
    requires |t| == 81 && lo < hi <= 9
    ensures NoHiddenSingleIn(t, ds, lo, hi) <==> NoHiddenSingle(t, ds, lo) && NoHiddenSingleIn(t, ds, lo + 1, hi)
  {
  }

  /**
   * The outer loop from digit `d` finds nothing iff no later digit has a
   * hidden single; what it finds is a hidden single of the lowest such digit.
   */
  lemma {:induction false} PlacementMeaning(t: seq<Cell>, ds: DigitSet, d: nat)
    requires |t| == 81 && ValidSet(ds) && d <= 9
    ensures PlacementFrom(t, ds, d).None? <==> NoHiddenSingleIn(t, ds, d, 9)
    ensures PlacementFrom(t, ds, d).Some? ==>
      var (m, d') := PlacementFrom(t, ds, d).value;
      HiddenSingleAt(t, ds, d', m) && NoHiddenSingleIn(t, ds, d, d')
    decreases 9 - d
  {
    if d < 9 {
      PlacementMeaning(t, ds, d + 1);
      PlacementStep(t, ds, d);
      NoHiddenSingleInStep(t, ds, d, 9);
      var r := PlacementFrom(t, ds, d);
      if r.Some? && r.value.1 > d {
        NoHiddenSingleInStep(t, ds, d, r.value.1);
      }
    }
  }

  /**
   * `check_single_location` returns false iff the region has no hidden single,
   * and then changes nothing; when it returns true, a hidden single `d` at `m`
   * (of the lowest such digit) now holds exactly that digit.
   */
  lemma SingleLocationMeaning(t: seq<Cell>, ds: DigitSet)
    requires |t| == 81 && ValidSet(ds)
    ensures !SingleLocationSpec(t, ds).1 <==> NoHiddenSingleIn(t, ds, 0, 9)
    ensures !SingleLocationSpec(t, ds).1 ==> SingleLocationSpec(t, ds).0 == t
    ensures SingleLocationSpec(t, ds).1 ==>
      var (m, d) := PlacementFrom(t, ds, 0).value;
      && HiddenSingleAt(t, ds, d, m)
      && NoHiddenSingleIn(t, ds, 0, d)
      && SingleLocationSpec(t, ds).0[m] == NewSingleDigit(d)
  {
    PlacementMeaning(t, ds, 0);
    if PlacementFrom(t, ds, 0).Some? {
      var (m, d) := PlacementFrom(t, ds, 0).value;
      var t' := t[m := NewSingleDigit(d)];
      ForSetsKeeps(Reduce, BO.All, t');
      assert t'[m].solved;
    }
  }

  /** Progress from `t` to `t''` iff progress from `t` to `t'` or from `t'` to `t''`, when both steps keep solved cells. */
  lemma ProgressCompose(t: seq<Cell>, t': seq<Cell>, t'': seq<Cell>)
    requires |t| == 81 && |t'| == 81 && |t''| == 81
    requires SolvedFrozen(t, t') && SolvedFrozen(t', t'')
    ensures Progress(t, t'') <==> Progress(t, t') || Progress(t', t'')
  {
    if Progress(t, t') {
      var m :| 0 <= m < 81 && !t[m].solved && t'[m].solved;
      assert t''[m].solved;
    }
    if Progress(t', t'') {
      var m :| 0 <= m < 81 && !t'[m].solved && t''[m].solved;
      assert !t[m].solved;
    }
  }

  /** `reduce_possibilities` and `check_single_location` return true iff some cell became solved. */
  lemma RegionProgress(f: RegionFn, t: seq<Cell>, ds: DigitSet)
    requires |t| == 81 && ValidSet(ds) && f != SolvedSet
    ensures RegionSpec(f, t, ds).1 <==> Progress(t, RegionSpec(f, t, ds).0)
  {
    if f == Reduce {
      ReduceResultIsProgress(t, ds);
    } else {
      SingleLocationMeaning(t, ds);
      if SingleLocationSpec(t, ds).1 {
        var (m, d) := PlacementFrom(t, ds, 0).value;
        assert !t[m].solved && NewSingleDigit(d).solved;
      }
    }
  }

  /** With "any", `for_sets` of a progress-reporting check returns true iff some cell became solved. */
  lemma {:induction false} FoldAnyIsProgress(f: RegionFn, op: BO.BooleanOperation, t: seq<Cell>, acc: bool, i: nat)
    requires |t| == 81 && i <= 27 && f != SolvedSet && (op == BO.Any || op == BO.AnyLazy)
    ensures FoldRegions(f, op, t, acc, i).1 <==> acc || Progress(t, FoldRegions(f, op, t, acc, i).0)
    decreases 27 - i
  {
    if i < 27 {
      var x := RegionSpec(f, t, Regions()[i]);
      RegionProgress(f, t, Regions()[i]);
      var acc' := acc || x.1;
      RegionKeeps(f, t, Regions()[i]);
      if !(BO.IsLazy(op) && acc') {
        FoldAnyIsProgress(f, op, x.0, acc', i + 1);
        FoldKeeps(f, op, x.0, acc', i + 1);
        ProgressCompose(t, x.0, FoldRegions(f, op, x.0, acc', i + 1).0);
      }
    }
  }

  /** Regions `i` .. 26 of `Regions()` are all solved. */
  ghost predicate SolvedFrom(t: seq<Cell>, i: nat)
    requires |t| == 81
  {
    forall k :: i <= k < 27 ==> RegionSolved(t, Regions()[k])
  }

  /** Peeling the first region off `SolvedFrom`. */
  lemma SolvedFromStep(t: seq<Cell>, i: nat)
    requires |t| == 81 && i < 27
    ensures SolvedFrom(t, i) <==> RegionSolved(t, Regions()[i]) && SolvedFrom(t, i + 1)
  {
  }

  /** Boards with the same possibilities have the same solved regions. */
  lemma SolvedFromAlike(t: seq<Cell>, t': seq<Cell>, i: nat)
    requires |t| == 81 && |t'| == 81 && SamePossibilities(t, t')
    ensures SolvedFrom(t, i) <==> SolvedFrom(t', i)
  {
    forall k | i <= k < 27
      ensures RegionSolved(t, Regions()[k]) == RegionSolved(t', Regions()[k])
    {
      SinglesOfSamePossibilities(t, t', Regions()[k]);
    }
  }

  /** One region of `for_sets(check_solved_set)` with "all": the flag folds in whether the region is solved. */
  lemma SolvedSetStep(op: BO.BooleanOperation, t: seq<Cell>, acc: bool, i: nat)
    requires |t| == 81 && i < 27 && (op == BO.All || op == BO.AllLazy)
    ensures var s := RegionStep(SolvedSet, op, t, acc, i);
      && (s.1 <==> acc && RegionSolved(t, Regions()[i]))
      && SamePossibilities(t, s.0)
      && (s.2 <==> BO.IsLazy(op) && !s.1)
  {
    assert RegionSpec(SolvedSet, t, Regions()[i]) == SolvedSetSpec(t, Regions()[i]);
    SolvedSetMeaning(t, Regions()[i]);
  }

  /** With "all", `for_sets(check_solved_set)` is true iff every remaining region is solved; possibilities stay. */
  lemma {:induction false} FoldAllIsSolved(op: BO.BooleanOperation, t: seq<Cell>, acc: bool, i: nat)
    requires |t| == 81 && i <= 27 && (op == BO.All || op == BO.AllLazy)
    ensures FoldRegions(SolvedSet, op, t, acc, i).1 <==> acc && SolvedFrom(t, i)
    ensures SamePossibilities(t, FoldRegions(SolvedSet, op, t, acc, i).0)
    decreases 27 - i
  {
    if i < 27 {
      var r := FoldRegions(SolvedSet, op, t, acc, i);
      FoldIsStep(SolvedSet, op, t, acc, i, r);
      var s := RegionStep(SolvedSet, op, t, acc, i);
      SolvedSetStep(op, t, acc, i);
      SolvedFromStep(t, i);
      if !s.2 {
        FoldAllIsSolved(op, s.0, s.1, i + 1);
        SolvedFromAlike(t, s.0, i + 1);
        SamePossibilitiesTransitive(t, s.0, r.0);
      }
    }
  }

  /** Whether the board is solved depends only on the possibilities, not on the `solved` flags. */
  lemma BoardSolvedAlike(t: seq<Cell>, t': seq<Cell>)
    requires |t| == 81 && |t'| == 81 && SamePossibilities(t, t')
    ensures BoardSolved(t) <==> BoardSolved(t')
  {
    forall i | 0 <= i < 27
      ensures RegionSolved(t, Regions()[i]) <==> RegionSolved(t', Regions()[i])
    {
      SinglesOfSamePossibilities(t, t', Regions()[i]);
    }
  }

  /** `for_sets(check_solved_set, AndLazy)` is true iff every row, column and box is solved. */
  lemma ForSetsSolvedIsBoardSolved(t: seq<Cell>)
    requires |t| == 81
    ensures ForSetsSpec(SolvedSet, BO.AllLazy, t).1 <==> BoardSolved(t)
    ensures SamePossibilities(t, ForSetsSpec(SolvedSet, BO.AllLazy, t).0)
  {
    FoldAllIsSolved(BO.AllLazy, t, true, 0);
  }

  // ---------------------------------------------------------------- reduce_and_check_singles_loop

  /**
   * One pass of the loop body: every region is reduced with `Or`; only if
   * that solved nothing are the hidden singles looked for, again with `Or`.
   */
  function StepSpec(t: seq<Cell>): (r: (seq<Cell>, bool))
    requires |t| == 81
    ensures |r.0| == 81
  {
    var a := ForSetsSpec(Reduce, BO.Any, t);
    if a.1 then a else ForSetsSpec(SingleLocation, BO.Any, a.0)
  }

  /** A pass keeps the cell invariant and every solved cell. */
  lemma StepKeeps(t: seq<Cell>)
    requires |t| == 81
    ensures Keeps(t, StepSpec(t).0)
  {
    var a := ForSetsSpec(Reduce, BO.Any, t);
    ForSetsKeeps(Reduce, BO.Any, t);
    if !a.1 {
      ForSetsKeeps(SingleLocation, BO.Any, a.0);
      KeepsTransitive(t, a.0, ForSetsSpec(SingleLocation, BO.Any, a.0).0);
    }
  }

  /** A pass reports true iff it solved some cell. */
  lemma StepIsProgress(t: seq<Cell>)
    requires |t| == 81
    ensures StepSpec(t).1 <==> Progress(t, StepSpec(t).0)
  {
    FoldAnyIsProgress(Reduce, BO.Any, t, false, 0);
    var a := ForSetsSpec(Reduce, BO.Any, t);
    ForSetsKeeps(Reduce, BO.Any, t);
    if !a.1 {
      FoldAnyIsProgress(SingleLocation, BO.Any, a.0, false, 0);
      ForSetsKeeps(SingleLocation, BO.Any, a.0);
      ProgressCompose(t, a.0, ForSetsSpec(SingleLocation, BO.Any, a.0).0);
    }
  }

  /** The solved flags of the board, in tile order. */
  function SolvedFlags(t: seq<Cell>): (fs: seq<bool>)
    requires |t| == 81
    ensures |fs| == 81 && forall m :: 0 <= m < 81 ==> fs[m] == t[m].solved
  {
    seq(81, m requires 0 <= m < 81 => t[m].solved)
  }

  /** The number of solved cells. */
  function SolvedCount(t: seq<Cell>): (n: nat)
    requires |t| == 81
    ensures n <= 81
  {
    Count(SolvedFlags(t))
  }

  /** Keeping solved cells never lowers the count of solved cells; progress raises it. */
  lemma ProgressRaisesCount(t: seq<Cell>, t': seq<Cell>)
    requires |t| == 81 && |t'| == 81 && SolvedFrozen(t, t')
    ensures SolvedCount(t) <= SolvedCount(t')
    ensures Progress(t, t') ==> SolvedCount(t) < SolvedCount(t')
  {
    var a, b := SolvedFlags(t), SolvedFlags(t');
    CountMonotone(a, b);
    if Progress(t, t') {
      var m :| 0 <= m < 81 && !t[m].solved && t'[m].solved;
      assert !a[m] && b[m];
    }
  }

  /**
   * `reduce_and_check_singles_loop`: passes are repeated while one reports
   * progress; the result says whether any pass did. It terminates because
   * every productive pass solves one more of the 81 cells.
   */
  function LoopSpec(t: seq<Cell>): (r: (seq<Cell>, bool))
    requires |t| == 81
    ensures |r.0| == 81
    decreases 81 - SolvedCount(t)
  {
    var s := StepSpec(t);
    if s.1 then
      StepIsProgress(t);
      StepKeeps(t);
      ProgressRaisesCount(t, s.0);
      (LoopSpec(s.0).0, true)
    else s
  }

  /** The loop keeps the cell invariant and every solved cell. */
  lemma {:induction false} LoopKeeps(t: seq<Cell>)
    requires |t| == 81
    ensures Keeps(t, LoopSpec(t).0)
    decreases 81 - SolvedCount(t)
  {
    var s := StepSpec(t);
    StepKeeps(t);
    if s.1 {
      StepIsProgress(t);
      ProgressRaisesCount(t, s.0);
      LoopKeeps(s.0);
      KeepsTransitive(t, s.0, LoopSpec(s.0).0);
    }
  }

  /** The loop returns true iff it solved some cell. */
  lemma {:induction false} LoopIsProgress(t: seq<Cell>)
    requires |t| == 81
    ensures LoopSpec(t).1 <==> Progress(t, LoopSpec(t).0)
    decreases 81 - SolvedCount(t)
  {
    var s := StepSpec(t);
    StepIsProgress(t);
    StepKeeps(t);
    if s.1 {
      ProgressRaisesCount(t, s.0);
      LoopKeeps(s.0);
      ProgressCompose(t, s.0, LoopSpec(s.0).0);
    }
  }

  /** The loop stops only after a pass, from some board `last`, that found nothing. */
  lemma {:induction false} LoopEndsStalled(t: seq<Cell>) returns (last: seq<Cell>)
    requires |t| == 81
    ensures |last| == 81 && StepSpec(last) == (LoopSpec(t).0, false)
    decreases 81 - SolvedCount(t)
  {
    var s := StepSpec(t);
    if s.1 {
      StepIsProgress(t);
      StepKeeps(t);
      ProgressRaisesCount(t, s.0);
      last := LoopEndsStalled(s.0);
    } else {
      last := t;
    }
  }
}
