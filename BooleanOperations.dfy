/**
 * The combinator `for_sets` folds region results with: "any" (or) and "all"
 * (and), each in an eager and a lazy (short-circuiting) variant.
 */
module BooleanOperations {
  datatype BooleanOperation = Any | AnyLazy | All | AllLazy

  /** `combine`: `|`/`||` for the "any" variants, `&`/`&&` for the "all" variants. */
  function Combine(op: BooleanOperation, current: bool, next: bool): bool {
    match op
    case Any => current || next
    case AnyLazy => current || next
    case All => current && next
    case AllLazy => current && next
  }

  /** `initial`: the value the fold starts from. */
  function Initial(op: BooleanOperation): bool {
    match op
    case Any | AnyLazy => false
    case All | AllLazy => true
  }

  /** The variants for which `for_sets` returns as soon as the result leaves `initial`. */
  predicate IsLazy(op: BooleanOperation) {
    op == AnyLazy || op == AllLazy
  }

  /** Lazy and eager variants agree on every pair of values. */
  lemma LazyAgreesWithEager(current: bool, next: bool)
    ensures Combine(AnyLazy, current, next) == Combine(Any, current, next)
    ensures Combine(AllLazy, current, next) == Combine(All, current, next)
  {
  }

  /** `initial` is an identity of `combine`. */
  lemma InitialIsIdentity(op: BooleanOperation, x: bool)
    ensures Combine(op, Initial(op), x) == x
  {
  }

  /** Once the result differs from `initial`, no further `combine` changes it. */
  lemma ResultAbsorbs(op: BooleanOperation, current: bool, x: bool)
    requires current != Initial(op)
    ensures Combine(op, current, x) == current
  {
  }

  /** The fold of `combine` over a list of results, as `for_sets` computes it eagerly. */
  function Fold(op: BooleanOperation, acc: bool, xs: seq<bool>): bool
    decreases |xs|
  {
    if xs == [] then acc else Fold(op, Combine(op, acc, xs[0]), xs[1..])
  }

  /** An absorbed result survives the rest of the fold: the early return loses nothing. */
  lemma {:induction false} FoldAbsorbed(op: BooleanOperation, acc: bool, xs: seq<bool>)
    requires acc != Initial(op)
    ensures Fold(op, acc, xs) == acc
    decreases |xs|
  {
    if xs != [] {
      FoldAbsorbed(op, Combine(op, acc, xs[0]), xs[1..]);
    }
  }

  /** The "any" fold from `initial` is true iff some result is true. */
  lemma {:induction false} FoldAnyIsExists(op: BooleanOperation, xs: seq<bool>)
    requires op == Any || op == AnyLazy
    ensures Fold(op, false, xs) <==> exists i :: 0 <= i < |xs| && xs[i]
    decreases |xs|
  {
    if xs != [] {
      if xs[0] {
        FoldAbsorbed(op, true, xs[1..]);
      } else {
        FoldAnyIsExists(op, xs[1..]);
        assert forall i :: 1 <= i < |xs| ==> xs[i] == xs[1..][i - 1];
      }
    }
  }

  /** The "all" fold from `initial` is true iff every result is true. */
  lemma {:induction false} FoldAllIsForall(op: BooleanOperation, xs: seq<bool>)
    requires op == All || op == AllLazy
    ensures Fold(op, true, xs) <==> forall i :: 0 <= i < |xs| ==> xs[i]
    decreases |xs|
  {
    if xs != [] {
      if !xs[0] {
        FoldAbsorbed(op, false, xs[1..]);
      } else {
        FoldAllIsForall(op, xs[1..]);
        assert forall i :: 1 <= i < |xs| ==> xs[i] == xs[1..][i - 1];
      }
    }
  }
}
