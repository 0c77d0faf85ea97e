/**
 * A Sudoku cell of the 9×9 solver: nine possibility flags, one per digit
 * (index 0 stands for digit 1), and a cached `solved` flag.
 */
module Cells {
  import opened Wrappers

  /** The nine possibility flags of a cell (`[bool; 9]`). */
  type Possibilities = p: seq<bool> | |p| == 9
    witness [true, true, true, true, true, true, true, true, true]

  datatype Cell = Cell(possibilities: Possibilities, solved: bool)

  /** Number of `true` entries of `bs`, counted from the front. */
  function Count(bs: seq<bool>): (n: nat)
    ensures n <= |bs|
  {
    if bs == [] then 0
    else
      Count(bs[..|bs| - 1]) + (if bs[|bs| - 1] then 1 else 0)
  }

  /** `i` is the one and only `true` entry of `bs`. */
  ghost predicate OnlyTrue(bs: seq<bool>, i: int) {
    0 <= i < |bs| && bs[i] && forall j :: 0 <= j < |bs| && j != i ==> !bs[j]
  }

  /**
   * The scan of `get_single_index` from position `i`, where `out` is the
   * single `true` position seen so far: a second `true` ends the scan with `None`.
   */
  function SingleTrueFrom(bs: seq<bool>, i: nat, out: Option<nat>): (r: Option<nat>)
    requires i <= |bs|
    ensures r.Some? ==> (r.value < |bs| || r == out)
    decreases |bs| - i
  {
    if i == |bs| then out
    else if bs[i] then
      if out.None? then SingleTrueFrom(bs, i + 1, Some(i))
      else None
    else SingleTrueFrom(bs, i + 1, out)
  }

  /** The scan state after the first `i` entries: `out` is the only `true` among them, if any. */
  ghost predicate ScanState(bs: seq<bool>, i: nat, out: Option<nat>)
    requires i <= |bs|
  {
    && (out.None? ==> forall j :: 0 <= j < i ==> !bs[j])
    && (out.Some? ==> out.value < i && bs[out.value] && forall j :: 0 <= j < i && j != out.value ==> !bs[j])
  }

  /** From a faithful scan state, the scan finds the only `true` entry, and `None` when there is none or several. */
  lemma {:induction false} SingleTrueFromMeaning(bs: seq<bool>, i: nat, out: Option<nat>)
    requires i <= |bs| && ScanState(bs, i, out)
    ensures SingleTrueFrom(bs, i, out).Some? ==> OnlyTrue(bs, SingleTrueFrom(bs, i, out).value)
    ensures SingleTrueFrom(bs, i, out).None? ==> forall k :: !OnlyTrue(bs, k)
    decreases |bs| - i
  {
    if i < |bs| {
      if bs[i] && out.None? {
        SingleTrueFromMeaning(bs, i + 1, Some(i));
      } else if !bs[i] {
        SingleTrueFromMeaning(bs, i + 1, out);
      }
    }
  }

  /** The lowest `true` position of `bs` at or after `i`. */
  function FirstTrueFrom(bs: seq<bool>, i: nat): (r: Option<nat>)
    requires i <= |bs|
    ensures r.Some? ==> i <= r.value < |bs| && bs[r.value]
                        && forall j :: i <= j < r.value ==> !bs[j]
    ensures r.None? ==> forall j :: i <= j < |bs| ==> !bs[j]
    decreases |bs| - i
  {
    if i == |bs| then None
    else if bs[i] then Some(i)
    else FirstTrueFrom(bs, i + 1)
  }

  /**
   * The first possible digit of a set of possibilities
   * (`iter().enumerate().filter(..).map(..).next()` in `solve`).
   */
  function FirstTrue(bs: seq<bool>): (r: Option<nat>)
    ensures r.Some? ==> r.value < |bs| && bs[r.value] && forall j :: 0 <= j < r.value ==> !bs[j]
    ensures r.None? ==> forall j :: 0 <= j < |bs| ==> !bs[j]
  {
    FirstTrueFrom(bs, 0)
  }

  /** `Cell::new`: every digit still possible, not solved. */
  function New(): (c: Cell)
    ensures forall i :: 0 <= i < 9 ==> c.possibilities[i]
    ensures !c.solved
    ensures NumPossibilities(c) == 9 && GetSingleIndex(c).None?
  {
    var c := Cell([true, true, true, true, true, true, true, true, true], false);
    assert c.possibilities[0] && c.possibilities[1];
    CountAllTrue(c.possibilities);
    GetSingleIndexMeaning(c);
    c
  }

  /** `Cell::new_single_digit`: only digit index `input` possible, solved. */
  function NewSingleDigit(input: nat): (c: Cell)
    requires input < 9
    ensures OnlyTrue(c.possibilities, input)
    ensures c.solved
    ensures Consistent(c) && GetSingleIndex(c) == Some(input)
  {
    var c := Cell(seq(9, i => i == input), true);
    OnlyTrueCount(c.possibilities, input);
    SingleIndexIsOnlyTrue(c, input);
    c
  }

  /** `Cell::new_single_char`: the cell of the given digit character '1'..'9'. */
  function NewSingleChar(input: char): (c: Cell)
    requires '1' <= input <= '9'
    ensures c == NewSingleDigit(input as int - '1' as int)
    ensures OnlyTrue(c.possibilities, input as int - '0' as int - 1)
    ensures Consistent(c) && GetSingleIndex(c) == Some(input as int - '1' as int)
  {
    var digit := input as int - '0' as int;
    Cell(seq(9, i => i == digit - 1), true)
  }

  /** `Cell::get_single_index`: the digit index, if exactly one is possible. */
  function GetSingleIndex(c: Cell): (r: Option<nat>)
    ensures r.Some? ==> r.value < 9
  {
    SingleTrueFrom(c.possibilities, 0, None)
  }

  /** `get_single_index` returns the only possible digit, and `None` for zero or several. */
  lemma GetSingleIndexMeaning(c: Cell)
    ensures GetSingleIndex(c).Some? ==> OnlyTrue(c.possibilities, GetSingleIndex(c).value)
    ensures GetSingleIndex(c).None? ==> forall k :: !OnlyTrue(c.possibilities, k)
  {
    SingleTrueFromMeaning(c.possibilities, 0, None);
  }

  /** `Cell::num_possibilities`: the number of digits still possible. */
  function NumPossibilities(c: Cell): (n: nat)
    ensures n <= 9
  {
    Count(c.possibilities)
  }

  /** What `check_newly_solved` leaves behind: an unsolved cell is flagged iff one digit is left. */
  function Rechecked(c: Cell): (r: Cell)
    ensures r.possibilities == c.possibilities
    ensures c.solved ==> r == c
    ensures !c.solved ==> Consistent(r) && (r.solved <==> NumPossibilities(c) == 1)
  {
    if c.solved then c else c.(solved := NumPossibilities(c) == 1)
  }

  /** The cell invariant: a cell flagged solved has exactly one possibility. */
  ghost predicate Consistent(c: Cell) {
    c.solved ==> NumPossibilities(c) == 1
  }

  /**
   * `Cell::check_newly_solved`: on an unsolved cell, scans the flags (stopping
   * at a second `true`) and sets `solved` iff exactly one digit is possible.
   */
  method CheckNewlySolved(c: Cell) returns (newly: bool, after: Cell)
    ensures c.solved ==> !newly && after == c
    ensures !c.solved ==> newly == (NumPossibilities(c) == 1) && after == c.(solved := newly)
    ensures after == Rechecked(c) && after.possibilities == c.possibilities
    ensures newly == NewlySolved(c)
  {
    if c.solved {
      return false, c;
    }
    var p := c.possibilities;
    var solved := false;
    var i := 0;
    while i < 9
      invariant 0 <= i <= 9
      invariant Count(p[..i]) <= 1
      invariant solved == (Count(p[..i]) == 1)
    {
      assert p[..i + 1][..i] == p[..i];
      if !solved && p[i] {
        solved := true;
      } else if solved && p[i] {
        CountPrefixBound(p, i + 1);
        solved := false;
        break;
      }
      i := i + 1;
    }
    assert i == 9 ==> p[..i] == p;
    newly := solved;
    after := c.(solved := solved);
  }

  /** Appending to the front part of a sequence never lowers the count of the whole. */
  lemma {:induction false} CountPrefixBound(bs: seq<bool>, i: nat)
    requires i <= |bs|
    ensures Count(bs[..i]) <= Count(bs)
    decreases |bs| - i
  {
    if i < |bs| {
      assert bs[..i + 1][..i] == bs[..i];
      CountPrefixBound(bs, i + 1);
    } else {
      assert bs[..i] == bs;
    }
  }

  /** `Count` is the multiplicity of `true`. */
  lemma {:induction false} CountIsMultiplicity(bs: seq<bool>)
    ensures Count(bs) == multiset(bs)[true]
    decreases |bs|
  {
    if bs != [] {
      assert bs == bs[..|bs| - 1] + [bs[|bs| - 1]];
      CountIsMultiplicity(bs[..|bs| - 1]);
    }
  }

  /** With every entry `true`, the count is the length. */
  lemma {:induction false} CountAllTrue(bs: seq<bool>)
    requires forall i :: 0 <= i < |bs| ==> bs[i]
    ensures Count(bs) == |bs|
    decreases |bs|
  {
    if bs != [] {
      CountAllTrue(bs[..|bs| - 1]);
    }
  }

  /** Turning entries on only raises the count, strictly when one entry is turned on. */
  lemma {:induction false} CountMonotone(a: seq<bool>, b: seq<bool>)
    requires |a| == |b| && forall i :: 0 <= i < |a| && a[i] ==> b[i]
    ensures Count(a) <= Count(b)
    ensures (exists i :: 0 <= i < |a| && !a[i] && b[i]) ==> Count(a) < Count(b)
    decreases |a|
  {
    if a != [] {
      var n := |a| - 1;
      var a', b' := a[..n], b[..n];
      assert forall i :: 0 <= i < n ==> a'[i] == a[i] && b'[i] == b[i];
      CountMonotone(a', b');
      if exists i :: 0 <= i < |a| && !a[i] && b[i] {
        var i :| 0 <= i < |a| && !a[i] && b[i];
        if i < n {
          assert !a'[i] && b'[i];
        }
      }
    }
  }

  /** The scan of `get_single_index` finds a digit iff the count is exactly one. */
  lemma {:induction false} SingleTrueFromCount(bs: seq<bool>, i: nat, out: Option<nat>)
    requires i <= |bs| && ScanState(bs, i, out)
    requires Count(bs[..i]) == if out.None? then 0 else 1
    ensures SingleTrueFrom(bs, i, out).Some? <==> Count(bs) == 1
    decreases |bs| - i
  {
    if i == |bs| {
      assert bs[..i] == bs;
    } else {
      assert bs[..i + 1][..i] == bs[..i];
      if bs[i] && out.Some? {
        CountPrefixBound(bs, i + 1);
      } else if bs[i] {
        SingleTrueFromCount(bs, i + 1, Some(i));
      } else {
        SingleTrueFromCount(bs, i + 1, out);
      }
    }
  }

  /** `get_single_index` returns a digit iff `num_possibilities` is one. */
  lemma SingleIndexIffOnePossibility(c: Cell)
    ensures GetSingleIndex(c).Some? <==> NumPossibilities(c) == 1
  {
    assert c.possibilities[..0] == [];
    SingleTrueFromCount(c.possibilities, 0, None);
  }

  /** `get_single_index` returns exactly the index of the only possible digit. */
  lemma SingleIndexIsOnlyTrue(c: Cell, i: nat)
    ensures GetSingleIndex(c) == Some(i) <==> OnlyTrue(c.possibilities, i)
  {
    var r := GetSingleIndex(c);
    GetSingleIndexMeaning(c);
    if OnlyTrue(c.possibilities, i) && r.Some? {
      assert c.possibilities[i] && c.possibilities[r.value];
    }
  }

  /** `check_newly_solved` flags an unsolved cell iff exactly one of its digits is possible. */
  lemma RecheckedMeaning(c: Cell)
    ensures !c.solved ==> (Rechecked(c).solved <==> exists i :: 0 <= i < 9 && OnlyTrue(c.possibilities, i))
  {
    SingleIndexIffOnePossibility(c);
    GetSingleIndexMeaning(c);
  }

  /** A single true entry gives a count of one. */
  lemma OnlyTrueCount(bs: seq<bool>, i: nat)
    requires OnlyTrue(bs, i)
    ensures Count(bs) == 1
  {
    assert bs[..0] == [];
    SingleTrueFromMeaning(bs, 0, None);
    SingleTrueFromCount(bs, 0, None);
  }

  /** The result of `check_newly_solved`: the cell was unsolved and has one digit left. */
  function NewlySolved(c: Cell): (b: bool)
    ensures b ==> Rechecked(c).solved && !c.solved
  {
    !c.solved && NumPossibilities(c) == 1
  }

  /** `check_newly_solved` leaves every cell consistent and is idempotent: a second call reports nothing new. */
  lemma RecheckedConsistentIdempotent(c: Cell)
    ensures Consistent(Rechecked(c)) || (c.solved && !Consistent(c))
    ensures Rechecked(Rechecked(c)) == Rechecked(c)
    ensures !NewlySolved(Rechecked(c))
    ensures Rechecked(c).possibilities == c.possibilities
  {
  }
}
