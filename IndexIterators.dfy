/**
 * The coordinates a `DigitSet` covers, and the iterator that yields them one
 * `next` call at a time.
 */
module IndexIterators {
  import opened Wrappers
  import opened DigitSets

  /** How many coordinates a set covers before `next` returns `None`. */
  function Len(ds: DigitSet): nat {
    if ds == All then 81 else 9
  }

  /** The sets whose coordinates all lie inside the grid. */
  predicate ValidSet(ds: DigitSet) {
    match ds
    case Row(r) => r < 9
    case Col(c) => c < 9
    case Box(b) => b < 9
    case All => true
  }

  /** The coordinate `next` returns when `current` is the given value. */
  function At(ds: DigitSet, current: nat): (nat, nat)
    requires current < Len(ds)
  {
    match ds
    case Row(row) => (row, current)
    case Col(col) => (current, col)
    case Box(boxIndex) =>
      var startRow := 3 * (boxIndex / 3);
      var startCol := 3 * (boxIndex % 3);
      (startRow + current / 3, startCol + current % 3)
    case All => (current / 9, current % 9)
  }

  /** Every coordinate of a set, in iteration order. */
  function Indices(ds: DigitSet): (s: seq<(nat, nat)>)
    ensures |s| == Len(ds)
    ensures forall k :: 0 <= k < |s| ==> s[k] == At(ds, k)
  {
    seq(Len(ds), k requires 0 <= k < Len(ds) => At(ds, k))
  }

  /** The box that contains cell (r, c), boxes numbered row-major. */
  function BoxOf(r: nat, c: nat): nat {
    3 * (r / 3) + c / 3
  }

  /** The position of cell (r, c) inside its box, row-major. */
  function PosInBox(r: nat, c: nat): nat {
    3 * (r % 3) + c % 3
  }

  /** A row yields (r, 0) … (r, 8) and a column (0, c) … (8, c), in order. */
  lemma RowAndColumnOrder(r: nat, c: nat)
    ensures Indices(Row(r)) == [(r, 0), (r, 1), (r, 2), (r, 3), (r, 4), (r, 5), (r, 6), (r, 7), (r, 8)]
    ensures Indices(Col(c)) == [(0, c), (1, c), (2, c), (3, c), (4, c), (5, c), (6, c), (7, c), (8, c)]
  {
  }

  /** A box yields its 3×3 block, starting at (3·(b/3), 3·(b%3)), row by row. */
  lemma BoxOrder(b: nat)
    ensures var r, c := 3 * (b / 3), 3 * (b % 3);
      Indices(Box(b)) == [(r, c), (r, c + 1), (r, c + 2),
                          (r + 1, c), (r + 1, c + 1), (r + 1, c + 2),
                          (r + 2, c), (r + 2, c + 1), (r + 2, c + 2)]
  {
  }

  /** `All` yields every cell exactly once, in row-major order. */
  lemma AllIsRowMajor()
    ensures forall k :: 0 <= k < 81 ==> At(All, k).0 < 9 && At(All, k).1 < 9
    ensures forall r: nat, c: nat {:trigger At(All, 9 * r + c)} :: r < 9 && c < 9 ==> At(All, 9 * r + c) == (r, c)
  {
  }

  /** The coordinates of a set inside the grid lie in 0..8 × 0..8 and are pairwise distinct. */
  lemma {:induction false} RegionInGrid(ds: DigitSet)
    requires ValidSet(ds)
    ensures forall k :: 0 <= k < Len(ds) ==> At(ds, k).0 < 9 && At(ds, k).1 < 9
    ensures forall k1, k2 :: 0 <= k1 < Len(ds) && 0 <= k2 < Len(ds) && k1 != k2 ==> At(ds, k1) != At(ds, k2)
  {
    match ds
    case Row(_) =>
    case Col(_) =>
    case Box(b) =>
      forall k1, k2 | 0 <= k1 < 9 && 0 <= k2 < 9 && At(ds, k1) == At(ds, k2)
        ensures k1 == k2
      {
        assert k1 / 3 == k2 / 3 && k1 % 3 == k2 % 3;
      }
    case All =>
  }

  /** Dividing 3·q + t by 3, for a digit t < 3. */
  lemma Split3(q: nat, t: nat)
    requires t < 3
    ensures (3 * q + t) / 3 == q && (3 * q + t) % 3 == t
  {
  }

  /** A coordinate below 9 is three times its third plus its remainder, both below 3. */
  lemma Digits3(x: nat)
    requires x < 9
    ensures x / 3 < 3 && x % 3 < 3 && 3 * (x / 3) + x % 3 == x
  {
  }

  /** Taking the box and position of (r, c) apart again gives back r and c. */
  lemma BoxArith(r: nat, c: nat)
    requires r < 9 && c < 9
    ensures var b, k := 3 * (r / 3) + c / 3, 3 * (r % 3) + c % 3;
      3 * (b / 3) + k / 3 == r && 3 * (b % 3) + k % 3 == c
  {
    Digits3(r);
    Digits3(c);
    Split3(r / 3, c / 3);
    Split3(r % 3, c % 3);
  }

  /** Cell (r, c) is at position `PosInBox(r, c)` of box `BoxOf(r, c)`. */
  lemma BoxOfCell(r: nat, c: nat)
    requires r < 9 && c < 9
    ensures BoxOf(r, c) < 9 && PosInBox(r, c) < 9
    ensures At(Box(BoxOf(r, c)), PosInBox(r, c)) == (r, c)
  {
    Digits3(r);
    Digits3(c);
    BoxArith(r, c);
  }

  /** Position k of box b is a cell whose box is b and whose position in it is k. */
  lemma CellOfBox(b: nat, k: nat)
    requires b < 9 && k < 9
    ensures BoxOf(At(Box(b), k).0, At(Box(b), k).1) == b
    ensures PosInBox(At(Box(b), k).0, At(Box(b), k).1) == k
  {
    Split3(b / 3, k / 3);
    Split3(b % 3, k % 3);
  }

  /** The nine boxes cover each of the 81 cells exactly once. */
  lemma BoxesCoverGrid(r: nat, c: nat)
    requires r < 9 && c < 9
    ensures BoxOf(r, c) < 9 && PosInBox(r, c) < 9
    ensures At(Box(BoxOf(r, c)), PosInBox(r, c)) == (r, c)
    ensures forall b: nat, k: nat :: b < 9 && k < 9 && At(Box(b), k) == (r, c) ==> b == BoxOf(r, c) && k == PosInBox(r, c)
  {
    BoxOfCell(r, c);
    forall b: nat, k: nat | b < 9 && k < 9 && At(Box(b), k) == (r, c)
      ensures b == BoxOf(r, c) && k == PosInBox(r, c)
    {
      CellOfBox(b, k);
    }
  }

  /** `IndexIterator`: the set being walked and the next position to yield. */
  class IndexIterator {
    var digitSet: DigitSet
    var current: nat

    /** `IndexIterator::new(set)`, as `Board::iter_indices` builds it. */
    constructor (ds: DigitSet)
      ensures this.digitSet == ds && current == 0
    {
      this.digitSet := ds;
      current := 0;
    }

    /** `next`: the coordinate at `current`, then `current` moves on; `None` once exhausted. */
    method Next() returns (item: Option<(nat, nat)>)
      modifies this`current
      ensures old(current) < Len(digitSet) ==> item == Some(At(digitSet, old(current))) && current == old(current) + 1
      ensures old(current) >= Len(digitSet) ==> item.None? && current == old(current)
    {
      if (current >= 9 && digitSet != All) || (digitSet == All && current >= 81) {
        item := None;
      } else {
        item := Some(At(digitSet, current));
        current := current + 1;
      }
    }
  }

  /** Drains a fresh iterator over `ds`: what a `for location in iter_indices(set)` loop visits. */
  method Enumerate(ds: DigitSet) returns (items: seq<(nat, nat)>)
    ensures items == Indices(ds)
  {
    var it := new IndexIterator(ds);
    items := [];
    while true
      invariant it.digitSet == ds && it.current == |items| <= Len(ds)
      invariant items == Indices(ds)[..|items|]
      decreases Len(ds) - it.current
    {
      var next := it.Next();
      if next.None? {
        break;
      }
      items := items + [next.value];
    }
  }
}
