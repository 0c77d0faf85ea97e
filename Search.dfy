/**
 * The guessing half of `Board::solve`: which cell the minimum-remaining-values
 * scan settles on, and what making a guess does to the tiles.
 */
module Search {
  import opened Wrappers
  import opened Cells
  import opened BoardSpec

  /**
   * The scan of `solve` over all 81 tiles in row-major order, from tile `k`,
   * with `min` the fewest possibilities seen so far and `best` the tile that
   * had them: an unsolved tile with fewer possibilities takes over, and a
   * count of 2 or 0 ends the scan at once.
   */
  function ScanFrom(t: seq<Cell>, k: nat, min: nat, best: Option<nat>): (r: Option<nat>)
    requires |t| == 81 && k <= 81
    ensures r.Some? ==> r.value < 81
    ensures best.Some? && best.value < 81 ==> r.Some?
    decreases 81 - k
  {
    if k == 81 then (if best.Some? && best.value < 81 then best else None)
    else if !t[k].solved && NumPossibilities(t[k]) < min then
      if NumPossibilities(t[k]) == 2 || NumPossibilities(t[k]) == 0 then Some(k)
      else ScanFrom(t, k + 1, NumPossibilities(t[k]), Some(k))
    else ScanFrom(t, k + 1, min, best)
  }

  /** The tile the scan of `solve` chooses, starting with `min_possibilities = 10`. */
  function Scan(t: seq<Cell>): (r: Option<nat>)
    requires |t| == 81
    ensures r.Some? ==> r.value < 81
  {
    ScanFrom(t, 0, 10, None)
  }

  /** Tile `m` may be chosen: unsolved, and strictly fewer possibilities than every unsolved tile before it. */
  ghost predicate FirstWithFewest(t: seq<Cell>, m: nat)
    requires |t| == 81
  {
    && m < 81 && !t[m].solved
    && forall k :: 0 <= k < m && !t[k].solved ==> NumPossibilities(t[k]) > NumPossibilities(t[m])
  }

  /** Where the scan stands after tile `k`: what `min` and `best` hold. */
  ghost predicate GuessScanState(t: seq<Cell>, k: nat, min: nat, best: Option<nat>)
    requires |t| == 81 && k <= 81
  {
    match best
    case None => min == 10 && forall k' :: 0 <= k' < k ==> t[k'].solved
    case Some(b) =>
      && b < k && FirstWithFewest(t, b) && min == NumPossibilities(t[b])
      && min != 0 && min != 2
      && forall k' :: b < k' < k && !t[k'].solved ==> NumPossibilities(t[k']) >= min
  }

  /** From a faithful state, the scan picks `None` only on a board with no unsolved tile left. */
  lemma {:induction false} ScanFromNone(t: seq<Cell>, k: nat, min: nat, best: Option<nat>)
    requires |t| == 81 && k <= 81 && GuessScanState(t, k, min, best)
    ensures ScanFrom(t, k, min, best).None? <==> forall m :: 0 <= m < 81 ==> t[m].solved
    decreases 81 - k
  {
    if k < 81 {
      if !(!t[k].solved && NumPossibilities(t[k]) < min) {
        if best.None? {
          assert t[k].solved;
          assert forall k' :: 0 <= k' < k + 1 ==> t[k'].solved;
        }
        ScanFromNone(t, k + 1, min, best);
      }
    }
  }

  /**
   * From a faithful state, the tile the scan picks is unsolved, has strictly
   * fewer possibilities than every unsolved tile before it, and either ended
   * the scan with a count of 2 or 0 or has no more than any unsolved tile after it.
   */
  lemma {:induction false} ScanFromChoice(t: seq<Cell>, k: nat, min: nat, best: Option<nat>)
    requires |t| == 81 && k <= 81 && GuessScanState(t, k, min, best)
    ensures var r := ScanFrom(t, k, min, best);
      r.Some? ==> && FirstWithFewest(t, r.value)
                  && (|| NumPossibilities(t[r.value]) == 2 || NumPossibilities(t[r.value]) == 0
                      || forall k' :: r.value < k' < 81 && !t[k'].solved ==> NumPossibilities(t[k']) >= NumPossibilities(t[r.value]))
    decreases 81 - k
  {
    if k < 81 {
      var n := NumPossibilities(t[k]);
      if !t[k].solved && n < min {
        assert FirstWithFewest(t, k) by {
          if best.Some? {
            forall k' | 0 <= k' < k && !t[k'].solved
              ensures NumPossibilities(t[k']) > n
            {
              if k' < best.value {
                assert NumPossibilities(t[k']) > min;
              } else if k' > best.value {
                assert NumPossibilities(t[k']) >= min;
              }
            }
          }
        }
        if n != 2 && n != 0 {
          ScanFromChoice(t, k + 1, n, Some(k));
        }
      } else {
        assert GuessScanState(t, k + 1, min, best) by {
          if best.None? {
            assert t[k].solved;
            assert forall k' :: 0 <= k' < k + 1 ==> t[k'].solved;
          }
        }
        ScanFromChoice(t, k + 1, min, best);
      }
    }
  }

  /**
   * The scan of `solve` finds a tile iff some tile is unsolved; the tile is
   * unsolved, has strictly fewer possibilities than every unsolved tile
   * scanned before it, and either stopped the scan with a count of 2 or 0 or
   * has no more possibilities than any unsolved tile after it.
   */
  lemma ScanChoice(t: seq<Cell>)
    requires |t| == 81
    ensures Scan(t).None? <==> forall m :: 0 <= m < 81 ==> t[m].solved
    ensures Scan(t).Some? ==> var m := Scan(t).value;
      && FirstWithFewest(t, m)
      && (|| NumPossibilities(t[m]) == 2 || NumPossibilities(t[m]) == 0
          || forall k :: m < k < 81 && !t[k].solved ==> NumPossibilities(t[k]) >= NumPossibilities(t[m]))
  {
    ScanFromNone(t, 0, 10, None);
    ScanFromChoice(t, 0, 10, None);
  }

  /** The guessed cell with digit `d` struck out (`cell.possibilities[index] = false`). */
  function Cleared(c: Cell, d: nat): (r: Cell)
    requires d < 9
    ensures !r.possibilities[d] && r.solved == c.solved
    ensures forall i :: 0 <= i < 9 && i != d ==> r.possibilities[i] == c.possibilities[i]
  {
    c.(possibilities := c.possibilities[d := false])
  }

  /**
   * Guessing digit `d` at an unsolved tile `m`: the snapshot (that tile with
   * `d` struck out) and the board with the tile replaced by
   * `new_single_digit(d)` both keep the cell invariant and every solved cell.
   */
  lemma GuessKeeps(t: seq<Cell>, m: nat, d: nat)
    requires |t| == 81 && m < 81 && d < 9 && !t[m].solved
    ensures Keeps(t, t[m := Cleared(t[m], d)])
    ensures Keeps(t, t[m := Cleared(t[m], d)][m := NewSingleDigit(d)])
  {
    var s := t[m := Cleared(t[m], d)];
    assert forall k :: 0 <= k < 81 && k != m ==> s[k] == t[k];
    assert forall k :: 0 <= k < 81 && k != m ==> s[m := NewSingleDigit(d)][k] == t[k];
  }

  /**
   * An entry of `states_before_guesses`: a board that keeps what held at the
   * start, on which the tile of the guess `g` (tile, digit) is unsolved and
   * no longer allows the digit tried.
   */
  ghost predicate Snapshot(t0: seq<Cell>, s: seq<Cell>, g: (nat, nat))
    requires |t0| == 81
  {
    |s| == 81 && Keeps(t0, s) && g.0 < 81 && g.1 < 9 && !s[g.0].solved && !s[g.0].possibilities[g.1]
  }

  /** The stack of snapshots, each paired with the guess (tile, digit) made right after it was pushed. */
  ghost predicate Stacked(t0: seq<Cell>, states: seq<seq<Cell>>, tried: seq<(nat, nat)>)
    requires |t0| == 81
  {
    |tried| == |states| && forall i :: 0 <= i < |states| ==> Snapshot(t0, states[i], tried[i])
  }

  /** Pushing a snapshot that excludes the digit tried keeps the stack faithful. */
  lemma PushSnapshot(t0: seq<Cell>, states: seq<seq<Cell>>, tried: seq<(nat, nat)>, s: seq<Cell>, g: (nat, nat))
    requires |t0| == 81 && Stacked(t0, states, tried) && Snapshot(t0, s, g)
    ensures Stacked(t0, states + [s], tried + [g])
  {
    assert forall i :: 0 <= i < |states| ==> (states + [s])[i] == states[i] && (tried + [g])[i] == tried[i];
  }

  /** Returning to the last snapshot: it keeps what held at the start, and the rest of the stack stays faithful. */
  lemma PopSnapshot(t0: seq<Cell>, states: seq<seq<Cell>>, tried: seq<(nat, nat)>)
    requires |t0| == 81 && Stacked(t0, states, tried) && |states| > 0
    ensures |states[|states| - 1]| == 81 && Keeps(t0, states[|states| - 1])
    ensures Stacked(t0, states[..|states| - 1], tried[..|tried| - 1])
  {
    assert Snapshot(t0, states[|states| - 1], tried[|tried| - 1]);
  }

  /** The board is the last snapshot with the tile of the last guess replaced by the digit tried. */
  ghost predicate Committed(t: seq<Cell>, states: seq<seq<Cell>>, tried: seq<(nat, nat)>) {
    && |states| > 0 && |tried| == |states|
    && var g := tried[|tried| - 1];
       g.0 < |states[|states| - 1]| && g.1 < 9 && t == states[|states| - 1][g.0 := NewSingleDigit(g.1)]
  }
  /**
   * The guess made on `base` after returning to the `k`-th snapshot (or to
   * none, with `k` the depth of the stack): the scan found a cell with a
   * possible digit, the stack is its first `k` entries plus `base` with that
   * digit struck out, and the board holds the digit at that cell.
   */
  ghost predicate GuessedFrom(base: seq<Cell>, states: seq<seq<Cell>>, tried: seq<(nat, nat)>, k: nat,
                              states': seq<seq<Cell>>, tried': seq<(nat, nat)>, t: seq<Cell>)
    requires |base| == 81
  {
    && k <= |states| && k <= |tried|
    && Scan(base).Some?
    && var m := Scan(base).value;
       && FirstTrue(base[m].possibilities).Some?
       && var d := FirstTrue(base[m].possibilities).value;
          && states' == states[..k] + [base[m := Cleared(base[m], d)]]
          && tried' == tried[..k] + [(m, d)]
          && t == states'[k][m := NewSingleDigit(d)]
  }

}
