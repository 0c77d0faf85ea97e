/**
 * The algorithms of `Board` as functions of the 81 tiles: what each method
 * leaves behind and what it returns. The class in `Boards` is proved to
 * compute exactly these; the lemmas here say what they mean.
 */
module BoardSpec {
  import opened Wrappers
  import opened Cells
  import opened DigitSets
  import opened IndexIterators
  import BO = BooleanOperations

  /** `get`/`set` address cell (r, c) as `tiles[r*9 + c]`. */
  function TileIndex(loc: (nat, nat)): nat {
    loc.0 * 9 + loc.1
  }

  /** 81 tiles, each keeping the cell invariant. */
  ghost predicate ValidTiles(t: seq<Cell>) {
    |t| == 81 && forall m :: 0 <= m < 81 ==> Consistent(t[m])
  }

  /** The tile behind the `j`-th coordinate of a set. */
  function RegionTile(ds: DigitSet, j: nat): (m: nat)
    requires ValidSet(ds) && j < Len(ds)
    ensures m < 81
  {
    RegionInGrid(ds);
    TileIndex(At(ds, j))
  }

  /** Tile `m` belongs to the set. */
  predicate InRegion(ds: DigitSet, m: nat) {
    match ds
    case Row(r) => m / 9 == r
    case Col(c) => m % 9 == c
    case Box(b) => BoxOf(m / 9, m % 9) == b
    case All => true
  }

  /** The position at which the set's iterator yields tile `m`. */
  function PosIn(ds: DigitSet, m: nat): nat {
    match ds
    case Row(_) => m % 9
    case Col(_) => m / 9
    case Box(_) => PosInBox(m / 9, m % 9)
    case All => m
  }

  /** The `j`-th coordinate of a set is a tile of the set, yielded at position `j`. */
  lemma RegionTileInRegion(ds: DigitSet, j: nat)
    requires ValidSet(ds) && j < Len(ds)
    ensures InRegion(ds, RegionTile(ds, j)) && PosIn(ds, RegionTile(ds, j)) == j
  {
    RegionInGrid(ds);
    if ds.Box? {
      var (r, c) := At(ds, j);
      BoxesCoverGrid(r, c);
      assert RegionTile(ds, j) / 9 == r && RegionTile(ds, j) % 9 == c;
    }
  }

  /** Every tile of a set is yielded by its iterator, at position `PosIn`. */
  lemma InRegionIsRegionTile(ds: DigitSet, m: nat)
    requires ValidSet(ds) && m < 81 && InRegion(ds, m)
    ensures PosIn(ds, m) < Len(ds) && RegionTile(ds, PosIn(ds, m)) == m
  {
    if ds.Box? {
      BoxesCoverGrid(m / 9, m % 9);
    }
  }

  /** A set's iterator visits exactly the tiles of the set, each once. */
  lemma RegionBijection(ds: DigitSet)
    requires ValidSet(ds)
    ensures forall j :: 0 <= j < Len(ds) ==>
      InRegion(ds, RegionTile(ds, j)) && PosIn(ds, RegionTile(ds, j)) == j
    ensures forall m :: 0 <= m < 81 && InRegion(ds, m) ==>
      PosIn(ds, m) < Len(ds) && RegionTile(ds, PosIn(ds, m)) == m
  {
    forall j | 0 <= j < Len(ds)
      ensures InRegion(ds, RegionTile(ds, j)) && PosIn(ds, RegionTile(ds, j)) == j
    {
      RegionTileInRegion(ds, j);
    }
    forall m | 0 <= m < 81 && InRegion(ds, m)
      ensures PosIn(ds, m) < Len(ds) && RegionTile(ds, PosIn(ds, m)) == m
    {
      InRegionIsRegionTile(ds, m);
    }
  }

  /** The regions `for_sets` visits, in order: rows 0..8, columns 0..8, boxes 0..8. */
  function Regions(): (rs: seq<DigitSet>)
    ensures |rs| == 27
    ensures forall i :: 0 <= i < 27 ==> ValidSet(rs[i]) && rs[i] != All
  {
    seq(27, i requires 0 <= i < 27 => if i < 9 then Row(i) else if i < 18 then Col(i - 9) else Box(i - 18))
  }

  /** Row, column or box `x` for `kind` 0, 1 or 2: entry `9 * kind + x` of the visiting order. */
  function KindRegion(kind: nat, x: nat): (ds: DigitSet)
    requires kind < 3 && x < 9
    ensures ds == Regions()[9 * kind + x]
  {
    if kind == 0 then Row(x) else if kind == 1 then Col(x) else Box(x)
  }

  /** The region's cells in iteration order: the tile at every coordinate of the set. */
  function RegionCells(t: seq<Cell>, ds: DigitSet): (cs: seq<Cell>)
    requires |t| == 81 && ValidSet(ds)
    ensures |cs| == Len(ds)
    ensures forall j :: 0 <= j < Len(ds) ==> TileIndex(At(ds, j)) < 81 && cs[j] == t[TileIndex(At(ds, j))]
  {
    seq(Len(ds), j requires 0 <= j < Len(ds) => t[RegionTile(ds, j)])
  }

  // ---------------------------------------------------------------- reduce_possibilities

  /**
   * The `possible` array once the first `n` cells of the region were examined:
   * a digit stays possible iff none of them has it as its single value.
   */
  function PossibleAfter(t: seq<Cell>, ds: DigitSet, n: nat): (p: seq<bool>)
    requires |t| == 81 && ValidSet(ds) && n <= Len(ds)
    ensures |p| == 9
  {
    seq(9, d requires 0 <= d < 9 => forall j :: 0 <= j < n ==> GetSingleIndex(t[RegionTile(ds, j)]) != Some(d))
  }

  /** Before any cell is examined every digit is still possible. */
  lemma PossibleAfterStart(t: seq<Cell>, ds: DigitSet)
    requires |t| == 81 && ValidSet(ds)
    ensures PossibleAfter(t, ds, 0) == [true, true, true, true, true, true, true, true, true]
  {
  }

  /** Examining one more cell strikes out its single value, if it has one, and nothing else. */
  lemma PossibleAfterStep(t: seq<Cell>, ds: DigitSet, n: nat)
    requires |t| == 81 && ValidSet(ds) && n < Len(ds)
    ensures GetSingleIndex(t[RegionTile(ds, n)]).Some? ==>
      PossibleAfter(t, ds, n + 1) == PossibleAfter(t, ds, n)[GetSingleIndex(t[RegionTile(ds, n)]).value := false]
    ensures GetSingleIndex(t[RegionTile(ds, n)]).None? ==> PossibleAfter(t, ds, n + 1) == PossibleAfter(t, ds, n)
  {
    var o := GetSingleIndex(t[RegionTile(ds, n)]);
    var a, b := PossibleAfter(t, ds, n + 1), PossibleAfter(t, ds, n);
    forall d | 0 <= d < 9
      ensures a[d] <==> b[d] && o != Some(d)
    {
      if b[d] && o != Some(d) {
        forall j | 0 <= j < n + 1
          ensures GetSingleIndex(t[RegionTile(ds, j)]) != Some(d)
        {
          if j < n {
            assert !(GetSingleIndex(t[RegionTile(ds, j)]) == Some(d));
          }
        }
      }
    }
  }

  /** The possibilities of `p` that `possible` still allows. */
  function Intersect(p: Possibilities, possible: seq<bool>): (q: Possibilities)
    requires |possible| == 9
    ensures forall i :: 0 <= i < 9 ==> (q[i] <==> p[i] && possible[i])
  {
    seq(9, i requires 0 <= i < 9 => p[i] && possible[i])
  }

  /** What `reduce_possibilities` makes of one region cell. */
  function ReducedCell(c: Cell, possible: seq<bool>): (r: Cell)
    requires |possible| == 9
    ensures c.solved ==> r == c
    ensures Consistent(c) ==> Consistent(r)
    ensures forall i :: 0 <= i < 9 && r.possibilities[i] ==> c.possibilities[i]
    ensures !c.solved ==> forall i :: 0 <= i < 9 && !possible[i] ==> !r.possibilities[i]
  {
    Rechecked(if c.solved then c else c.(possibilities := Intersect(c.possibilities, possible)))
  }

  /** The cell goes from unsolved to solved under the reduction. */
  predicate NewlySolvedBy(c: Cell, possible: seq<bool>)
    requires |possible| == 9
  {
    !c.solved && ReducedCell(c, possible).solved
  }

  /** `reduce_possibilities(set)`: the new tiles and the returned flag. */
  function ReduceSpec(t: seq<Cell>, ds: DigitSet): (r: (seq<Cell>, bool))
    requires |t| == 81 && ValidSet(ds)
    ensures |r.0| == 81
  {
    var possible := PossibleAfter(t, ds, Len(ds));
    (ReducedUpTo(t, ds, possible, Len(ds)), NewlySolvedUpTo(t, ds, possible, Len(ds)))
  }

  /** The tiles once the second loop of `reduce_possibilities` has rewritten the first `j` region cells. */
  function ReducedUpTo(t: seq<Cell>, ds: DigitSet, possible: seq<bool>, j: nat): (r: seq<Cell>)
    requires |t| == 81 && ValidSet(ds) && |possible| == 9 && j <= Len(ds)
    ensures |r| == 81
  {
    seq(81, m requires 0 <= m < 81 => if InRegion(ds, m) && PosIn(ds, m) < j then ReducedCell(t[m], possible) else t[m])
  }

  /** Rewriting region cell `j` extends the prefix by one; before that the cell is untouched. */
  lemma ReducedUpToStep(t: seq<Cell>, ds: DigitSet, possible: seq<bool>, j: nat)
    requires |t| == 81 && ValidSet(ds) && |possible| == 9 && j < Len(ds)
    ensures ReducedUpTo(t, ds, possible, j)[RegionTile(ds, j)] == t[RegionTile(ds, j)]
    ensures ReducedUpTo(t, ds, possible, j + 1) ==
      ReducedUpTo(t, ds, possible, j)[RegionTile(ds, j) := ReducedCell(t[RegionTile(ds, j)], possible)]
  {
    var mj := RegionTile(ds, j);
    RegionTileInRegion(ds, j);
    var a, b := ReducedUpTo(t, ds, possible, j + 1), ReducedUpTo(t, ds, possible, j)[mj := ReducedCell(t[mj], possible)];
    forall m | 0 <= m < 81
      ensures a[m] == b[m]
    {
      if m != mj && InRegion(ds, m) {
        InRegionIsRegionTile(ds, m);
      }
    }
  }

  /** With no cell rewritten yet, the tiles are those of the start. */
  lemma ReducedUpToStart(t: seq<Cell>, ds: DigitSet, possible: seq<bool>)
    requires |t| == 81 && ValidSet(ds) && |possible| == 9
    ensures ReducedUpTo(t, ds, possible, 0) == t
  {
    var a := ReducedUpTo(t, ds, possible, 0);
    assert forall m :: 0 <= m < 81 ==> a[m] == t[m];
  }

  /** Some cell among the first `j` of the region goes from unsolved to solved under the reduction. */
  function NewlySolvedUpTo(t: seq<Cell>, ds: DigitSet, possible: seq<bool>, j: nat): (b: bool)
    requires |t| == 81 && ValidSet(ds) && |possible| == 9 && j <= Len(ds)
  {
    if j == 0 then false
    else NewlySolvedUpTo(t, ds, possible, j - 1) || NewlySolvedBy(t[RegionTile(ds, j - 1)], possible)
  }

  /** The running flag is true iff one of the first `j` region cells goes from unsolved to solved. */
  lemma {:induction false} NewlySolvedUpToMeaning(t: seq<Cell>, ds: DigitSet, possible: seq<bool>, j: nat)
    requires |t| == 81 && ValidSet(ds) && |possible| == 9 && j <= Len(ds)
    ensures NewlySolvedUpTo(t, ds, possible, j) <==> exists k :: 0 <= k < j && NewlySolvedBy(t[RegionTile(ds, k)], possible)
  {
    if j > 0 {
      NewlySolvedUpToMeaning(t, ds, possible, j - 1);
    }
  }

  /** A solved cell is left exactly as it was. */
  ghost predicate SolvedFrozen(t: seq<Cell>, t': seq<Cell>)
    requires |t| == 81 && |t'| == 81
  {
    forall m :: 0 <= m < 81 && t[m].solved ==> t'[m] == t[m]
  }

  /** What every operation keeps: the cell invariant, and every solved cell as it was. */
  ghost predicate Keeps(t: seq<Cell>, t': seq<Cell>)
    requires |t| == 81 && |t'| == 81
  {
    (ValidTiles(t) ==> ValidTiles(t')) && SolvedFrozen(t, t')
  }

  lemma KeepsTransitive(t: seq<Cell>, t': seq<Cell>, t'': seq<Cell>)
    requires |t| == 81 && |t'| == 81 && |t''| == 81
    requires Keeps(t, t') && Keeps(t', t'')
    ensures Keeps(t, t'')
  {
  }

  /** `reduce_possibilities` keeps the cell invariant and every solved cell. */
  lemma ReduceKeeps(t: seq<Cell>, ds: DigitSet)
    requires |t| == 81 && ValidSet(ds)
    ensures Keeps(t, ReduceSpec(t, ds).0)
  {
  }

  /** Some cell went from unsolved to solved. */
  ghost predicate Progress(t: seq<Cell>, t': seq<Cell>)
    requires |t| == 81 && |t'| == 81
  {
    exists m :: 0 <= m < 81 && !t[m].solved && t'[m].solved
  }

  /** Possibilities only ever lose entries. */
  lemma ReduceShrinks(t: seq<Cell>, ds: DigitSet)
    requires |t| == 81 && ValidSet(ds)
    ensures var t' := ReduceSpec(t, ds).0;
      forall m, i :: 0 <= m < 81 && 0 <= i < 9 && t'[m].possibilities[i] ==> t[m].possibilities[i]
  {
  }

  /** Cells outside the region, and solved cells, do not change. */
  lemma ReduceFrame(t: seq<Cell>, ds: DigitSet)
    requires |t| == 81 && ValidSet(ds)
    ensures forall m :: 0 <= m < 81 && !InRegion(ds, m) ==> ReduceSpec(t, ds).0[m] == t[m]
    ensures SolvedFrozen(t, ReduceSpec(t, ds).0)
  {
  }

  /**
   * Afterwards no cell of the region that was unsolved keeps a digit that
   * was the single value of some region cell at the start.
   */
  lemma ReduceEliminates(t: seq<Cell>, ds: DigitSet, j: nat, m: nat)
    requires |t| == 81 && ValidSet(ds) && j < Len(ds) && m < 81
    requires InRegion(ds, m) && !t[m].solved
    requires GetSingleIndex(t[RegionTile(ds, j)]).Some?
    ensures !ReduceSpec(t, ds).0[m].possibilities[GetSingleIndex(t[RegionTile(ds, j)]).value]
  {
    var d := GetSingleIndex(t[RegionTile(ds, j)]).value;
    InRegionIsRegionTile(ds, m);
    assert !PossibleAfter(t, ds, Len(ds))[d];
  }

  /**
   * An unsolved region cell with a single possibility strikes that digit out
   * of `possible` itself, so the reduction leaves it with no possibility at
   * all, still unsolved.
   */
  lemma ReduceEmptiesUnflaggedSingle(t: seq<Cell>, ds: DigitSet, m: nat)
    requires |t| == 81 && ValidSet(ds) && m < 81
    requires InRegion(ds, m) && !t[m].solved && NumPossibilities(t[m]) == 1
    ensures forall d :: 0 <= d < 9 ==> !ReduceSpec(t, ds).0[m].possibilities[d]
    ensures !ReduceSpec(t, ds).0[m].solved
  {
    var c' := ReduceSpec(t, ds).0[m];
    SingleIndexIffOnePossibility(t[m]);
    GetSingleIndexMeaning(t[m]);
    InRegionIsRegionTile(ds, m);
    ReduceEliminates(t, ds, PosIn(ds, m), m);
    ReduceShrinks(t, ds);
    ReduceAt(t, ds, m);
    SingleIndexIffOnePossibility(c');
    GetSingleIndexMeaning(c');
  }

  /** One tile after `reduce_possibilities`: rewritten if it is in the region, as it was otherwise. */
  lemma ReduceAt(t: seq<Cell>, ds: DigitSet, m: nat)
    requires |t| == 81 && ValidSet(ds) && m < 81
    ensures ReduceSpec(t, ds).0[m] == if InRegion(ds, m) then ReducedCell(t[m], PossibleAfter(t, ds, Len(ds))) else t[m]
  {
    if InRegion(ds, m) {
      InRegionIsRegionTile(ds, m);
    }
  }

  /** `reduce_possibilities` returns true iff some cell of the region became solved. */
  lemma ReduceResultIsProgress(t: seq<Cell>, ds: DigitSet)
    requires |t| == 81 && ValidSet(ds)
    ensures ReduceSpec(t, ds).1 <==> Progress(t, ReduceSpec(t, ds).0)
  {
    var possible := PossibleAfter(t, ds, Len(ds));
    var t' := ReduceSpec(t, ds).0;
    NewlySolvedUpToMeaning(t, ds, possible, Len(ds));
    if Progress(t, t') {
      var m :| 0 <= m < 81 && !t[m].solved && t'[m].solved;
      ReduceAt(t, ds, m);
      InRegionIsRegionTile(ds, m);
      var j := PosIn(ds, m);
      assert NewlySolvedBy(t[RegionTile(ds, j)], possible);
    }
    if ReduceSpec(t, ds).1 {
      var j :| 0 <= j < Len(ds) && NewlySolvedBy(t[RegionTile(ds, j)], possible);
      var m := RegionTile(ds, j);
      RegionTileInRegion(ds, j);
      ReduceAt(t, ds, m);
      assert !t[m].solved && t'[m].solved;
    }
  }

  // ---------------------------------------------------------------- check_solved_set

  /** Every single value is a digit index. */
  predicate DigitsBelow9(s: seq<Option<nat>>) {
    forall j :: 0 <= j < |s| && s[j].Some? ==> s[j].value < 9
  }

  /** The single values of the region's cells, in iteration order. */
  function Singles(t: seq<Cell>, ds: DigitSet): (s: seq<Option<nat>>)
    requires |t| == 81 && ValidSet(ds)
    ensures |s| == Len(ds) && DigitsBelow9(s)
  {
    seq(Len(ds), j requires 0 <= j < Len(ds) => GetSingleIndex(t[RegionTile(ds, j)]))
  }

  /** Every entry is a single value, and the values are pairwise distinct. */
  ghost predicate DistinctSingles(s: seq<Option<nat>>) {
    && (forall j :: 0 <= j < |s| ==> s[j].Some?)
    && (forall j1, j2 :: 0 <= j1 < |s| && 0 <= j2 < |s| && j1 != j2 ==> s[j1] != s[j2])
  }

  /** Every region cell has exactly one possibility, and those digits are pairwise distinct. */
  ghost predicate RegionSolved(t: seq<Cell>, ds: DigitSet)
    requires |t| == 81 && ValidSet(ds)
  {
    DistinctSingles(Singles(t, ds))
  }

  /** All 27 regions are solved: what `for_sets(check_solved_set, AndLazy)` checks. */
  ghost predicate BoardSolved(t: seq<Cell>)
    requires |t| == 81
  {
    forall i :: 0 <= i < 27 ==> RegionSolved(t, Regions()[i])
  }

  /** Two distinct solved cells `a` and `b` of region `k` hold the same single value. */
  ghost predicate Clash(t: seq<Cell>, k: nat, a: nat, b: nat)
    requires |t| == 81
  {
    && k < 27 && a < 81 && b < 81 && a != b
    && InRegion(Regions()[k], a) && InRegion(Regions()[k], b)
    && t[a].solved && t[b].solved && GetSingleIndex(t[a]) == GetSingleIndex(t[b])
  }

  /** Once two solved cells of a region clash, no board that keeps the solved cells is solved. */
  lemma ClashNeverSolved(t: seq<Cell>, t': seq<Cell>)
    requires |t| == 81 && |t'| == 81 && SolvedFrozen(t, t')
    ensures forall k: nat, a: nat, b: nat :: Clash(t, k, a, b) ==> !BoardSolved(t')
  {
    forall k: nat, a: nat, b: nat | Clash(t, k, a, b)
      ensures !BoardSolved(t')
    {
      var ds := Regions()[k];
      InRegionIsRegionTile(ds, a);
      InRegionIsRegionTile(ds, b);
      var s := Singles(t', ds);
      assert s[PosIn(ds, a)] == s[PosIn(ds, b)];
      assert !RegionSolved(t', ds);
    }
  }

  /** The two boards agree on every possibility; they may differ in `solved` flags. */
  ghost predicate SamePossibilities(t: seq<Cell>, t': seq<Cell>)
    requires |t| == 81 && |t'| == 81
  {
    forall m :: 0 <= m < 81 ==> t[m].possibilities == t'[m].possibilities
  }

  lemma SamePossibilitiesTransitive(t: seq<Cell>, t': seq<Cell>, t'': seq<Cell>)
    requires |t| == 81 && |t'| == 81 && |t''| == 81
    requires SamePossibilities(t, t') && SamePossibilities(t', t'')
    ensures SamePossibilities(t, t'')
  {
  }

  /**
   * The loop of `check_solved_set` from position `j`, with the `used` array
   * and the `all_solved` flag reached so far: every visited cell is rechecked
   * in place, and a repeated digit returns false at once.
   */
  function SolvedSetFrom(t: seq<Cell>, ds: DigitSet, j: nat, used: seq<bool>, allSolved: bool): (r: (seq<Cell>, bool))
    requires |t| == 81 && ValidSet(ds) && j <= Len(ds) && |used| == 9
    ensures |r.0| == 81
    decreases Len(ds) - j
  {
    if j == Len(ds) then (t, allSolved)
    else
      var m := RegionTile(ds, j);
      var c := Rechecked(t[m]);
      var t' := t[m := c];
      match GetSingleIndex(c)
      case Some(d) =>
        if used[d] then (t', false) else SolvedSetFrom(t', ds, j + 1, used[d := true], allSolved)
      case None => SolvedSetFrom(t', ds, j + 1, used, false)
  }

  /** `check_solved_set(set)`: the new tiles and the returned flag. */
  function SolvedSetSpec(t: seq<Cell>, ds: DigitSet): (r: (seq<Cell>, bool))
    requires |t| == 81 && ValidSet(ds)
    ensures |r.0| == 81
  {
    SolvedSetFrom(t, ds, 0, [false, false, false, false, false, false, false, false, false], true)
  }

  /** `check_solved_set` keeps the cell invariant and every solved cell. */
  lemma SolvedSetKeeps(t: seq<Cell>, ds: DigitSet)
    requires |t| == 81 && ValidSet(ds)
    ensures Keeps(t, SolvedSetSpec(t, ds).0)
  {
    SolvedSetFromKeeps(t, ds, 0, [false, false, false, false, false, false, false, false, false], true);
  }

  /** Rechecking one cell keeps the cell invariant and leaves solved cells alone. */
  lemma RecheckKeeps(t: seq<Cell>, m: nat)
    requires |t| == 81 && m < 81
    ensures Keeps(t, t[m := Rechecked(t[m])])
  {
    var t' := t[m := Rechecked(t[m])];
    if ValidTiles(t) {
      forall m' | 0 <= m' < 81
        ensures Consistent(t'[m'])
      {
        if m' == m {
          RecheckedConsistentIdempotent(t[m]);
        }
      }
    }
  }

  /** Rechecking cells keeps the cell invariant and leaves solved cells alone. */
  lemma {:induction false} SolvedSetFromKeeps(t: seq<Cell>, ds: DigitSet, j: nat, used: seq<bool>, allSolved: bool)
    requires |t| == 81 && ValidSet(ds) && j <= Len(ds) && |used| == 9
    ensures Keeps(t, SolvedSetFrom(t, ds, j, used, allSolved).0)
    decreases Len(ds) - j
  {
    if j < Len(ds) {
      var m := RegionTile(ds, j);
      var t' := t[m := Rechecked(t[m])];
      SolvedSetFromStep(t, ds, j, used, allSolved);
      RecheckKeeps(t, m);
      var o := GetSingleIndex(t[m]);
      if !(o.Some? && used[o.value]) {
        SolvedSetFromKeeps(t', ds, j + 1, Mark(used, o), allSolved && o.Some?);
        KeepsTransitive(t, t', SolvedSetFrom(t', ds, j + 1, Mark(used, o), allSolved && o.Some?).0);
      }
    }
  }

  /** Rechecking cells changes only `solved` flags. */
  lemma {:induction false} SolvedSetFromSame(t: seq<Cell>, ds: DigitSet, j: nat, used: seq<bool>, allSolved: bool)
    requires |t| == 81 && ValidSet(ds) && j <= Len(ds) && |used| == 9
    ensures SamePossibilities(t, SolvedSetFrom(t, ds, j, used, allSolved).0)
    decreases Len(ds) - j
  {
    if j < Len(ds) {
      var m := RegionTile(ds, j);
      var t' := t[m := Rechecked(t[m])];
      SolvedSetFromStep(t, ds, j, used, allSolved);
      RecheckKeepsPossibilities(t, t, m);
      var o := GetSingleIndex(t[m]);
      if !(o.Some? && used[o.value]) {
        SolvedSetFromSame(t', ds, j + 1, Mark(used, o), allSolved && o.Some?);
        SamePossibilitiesTransitive(t, t', SolvedSetFrom(t', ds, j + 1, Mark(used, o), allSolved && o.Some?).0);
      }
    }
  }

  /** Boards with the same possibilities have the same single values. */
  lemma SinglesOfSamePossibilities(t: seq<Cell>, t': seq<Cell>, ds: DigitSet)
    requires |t| == 81 && |t'| == 81 && ValidSet(ds) && SamePossibilities(t, t')
    ensures Singles(t, ds) == Singles(t', ds)
    ensures RegionSolved(t, ds) == RegionSolved(t', ds)
  {
    assert forall j :: 0 <= j < Len(ds) ==> t[RegionTile(ds, j)].possibilities == t'[RegionTile(ds, j)].possibilities;
  }

  /** The loop state of `check_solved_set` after the first `j` cells of the region. */
  ghost predicate SolvedSetState(s: seq<Option<nat>>, j: nat, used: seq<bool>, allSolved: bool)
    requires j <= |s| && |used| == 9
  {
    && (forall d :: 0 <= d < 9 ==> (used[d] <==> exists k :: 0 <= k < j && s[k] == Some(d)))
    && (forall k1, k2 :: 0 <= k1 < j && 0 <= k2 < j && k1 != k2 && s[k1].Some? ==> s[k1] != s[k2])
    && (allSolved <==> forall k :: 0 <= k < j ==> s[k].Some?)
  }

  /** The `used` array after visiting a cell with single value `o`. */
  function Mark(used: seq<bool>, o: Option<nat>): (u: seq<bool>)
    requires |used| == 9 && (o.Some? ==> o.value < 9)
    ensures |u| == 9
    ensures forall d :: 0 <= d < 9 ==> (u[d] <==> used[d] || o == Some(d))
  {
    if o.Some? then used[o.value := true] else used
  }

  /** Visiting one more cell with no repeated digit keeps the loop state faithful. */
  lemma SolvedSetStateNext(s: seq<Option<nat>>, j: nat, used: seq<bool>, allSolved: bool)
    requires j < |s| && |used| == 9 && (s[j].Some? ==> s[j].value < 9)
    requires SolvedSetState(s, j, used, allSolved)
    requires s[j].Some? ==> !used[s[j].value]
    ensures SolvedSetState(s, j + 1, Mark(used, s[j]), allSolved && s[j].Some?)
  {
    var u := Mark(used, s[j]);
    forall d | 0 <= d < 9
      ensures u[d] <==> exists k :: 0 <= k < j + 1 && s[k] == Some(d)
    {
      if exists k :: 0 <= k < j + 1 && s[k] == Some(d) {
        var k :| 0 <= k < j + 1 && s[k] == Some(d);
        if k < j {
          assert used[d];
        }
      }
    }
  }

  /** Rechecking cell `m` keeps the possibilities of every cell. */
  lemma RecheckKeepsPossibilities(t0: seq<Cell>, t: seq<Cell>, m: nat)
    requires |t0| == 81 && |t| == 81 && m < 81 && SamePossibilities(t0, t)
    ensures SamePossibilities(t0, t[m := Rechecked(t[m])])
  {
    var t' := t[m := Rechecked(t[m])];
    forall m' | 0 <= m' < 81
      ensures t0[m'].possibilities == t'[m'].possibilities
    {
      if m' != m {
        assert t'[m'] == t[m'];
      }
    }
  }

  /** One step of `check_solved_set` past a cell whose digit is not yet used. */
  lemma SolvedSetFromStep(t: seq<Cell>, ds: DigitSet, j: nat, used: seq<bool>, allSolved: bool)
    requires |t| == 81 && ValidSet(ds) && j < Len(ds) && |used| == 9
    ensures var m := RegionTile(ds, j);
      var o := GetSingleIndex(t[m]);
      SolvedSetFrom(t, ds, j, used, allSolved) ==
        if o.Some? && used[o.value] then (t[m := Rechecked(t[m])], false)
        else SolvedSetFrom(t[m := Rechecked(t[m])], ds, j + 1, Mark(used, o), allSolved && o.Some?)
  {
  }

  /**
   * The flag the loop of `check_solved_set` returns, read off the single
   * values alone: false at a repeated digit, otherwise `all_solved`.
   */
  function SolvedFlagFrom(s: seq<Option<nat>>, j: nat, used: seq<bool>, allSolved: bool): bool
    requires j <= |s| && |used| == 9 && DigitsBelow9(s)
    decreases |s| - j
  {
    if j == |s| then allSolved
    else if s[j].Some? && used[s[j].value] then false
    else SolvedFlagFrom(s, j + 1, Mark(used, s[j]), allSolved && s[j].Some?)
  }

  /** The flag of `check_solved_set` depends only on the single values of the cells. */
  lemma {:induction false} SolvedSetFromFlag(t0: seq<Cell>, t: seq<Cell>, ds: DigitSet, j: nat, used: seq<bool>, allSolved: bool)
    requires |t0| == 81 && |t| == 81 && ValidSet(ds) && j <= Len(ds) && |used| == 9
    requires SamePossibilities(t0, t)
    ensures SolvedSetFrom(t, ds, j, used, allSolved).1 == SolvedFlagFrom(Singles(t0, ds), j, used, allSolved)
    decreases Len(ds) - j
  {
    if j < Len(ds) {
      var m := RegionTile(ds, j);
      var o := GetSingleIndex(t[m]);
      assert o == Singles(t0, ds)[j];
      SolvedSetFromStep(t, ds, j, used, allSolved);
      if !(o.Some? && used[o.value]) {
        RecheckKeepsPossibilities(t0, t, m);
        SolvedSetFromFlag(t0, t[m := Rechecked(t[m])], ds, j + 1, Mark(used, o), allSolved && o.Some?);
      }
    }
  }

  /** A repeated digit at position `j` means the values are not distinct. */
  lemma RepeatedDigitNotDistinct(s: seq<Option<nat>>, j: nat, used: seq<bool>, allSolved: bool)
    requires j < |s| && |used| == 9 && DigitsBelow9(s)
    requires SolvedSetState(s, j, used, allSolved)
    requires s[j].Some? && used[s[j].value]
    ensures !DistinctSingles(s)
  {
    var k :| 0 <= k < j && s[k] == Some(s[j].value);
    assert s[k] == s[j];
  }

  /** From a faithful loop state, the flag is true iff the values are all singles and distinct. */
  lemma {:induction false} SolvedFlagMeaning(s: seq<Option<nat>>, j: nat, used: seq<bool>, allSolved: bool)
    requires j <= |s| && |used| == 9 && DigitsBelow9(s)
    requires SolvedSetState(s, j, used, allSolved)
    ensures SolvedFlagFrom(s, j, used, allSolved) <==> DistinctSingles(s)
    decreases |s| - j
  {
    if j < |s| {
      if s[j].Some? && used[s[j].value] {
        RepeatedDigitNotDistinct(s, j, used, allSolved);
      } else {
        SolvedSetStateNext(s, j, used, allSolved);
        SolvedFlagMeaning(s, j + 1, Mark(used, s[j]), allSolved && s[j].Some?);
      }
    }
  }

  /**
   * `check_solved_set` returns true iff every region cell has exactly one
   * possibility and those digits are pairwise distinct; it changes only `solved` flags.
   */
  lemma SolvedSetMeaning(t: seq<Cell>, ds: DigitSet)
    requires |t| == 81 && ValidSet(ds)
    ensures SolvedSetSpec(t, ds).1 <==> RegionSolved(t, ds)
    ensures SamePossibilities(t, SolvedSetSpec(t, ds).0)
  {
    var used := [false, false, false, false, false, false, false, false, false];
    SolvedSetFromFlag(t, t, ds, 0, used, true);
    SolvedFlagMeaning(Singles(t, ds), 0, used, true);
    SolvedSetFromSame(t, ds, 0, [false, false, false, false, false, false, false, false, false], true);
  }
}
