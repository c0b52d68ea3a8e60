/** A nullable value and a fallible value. */
module Wrappers {

  /** A Go pointer field, a nullable SQL column or a comma-ok map read. */
  datatype Option<+T> = None | Some(value: T)

  /** A Go (value, error) pair. */
  datatype Result<+T, +E> = Success(value: T) | Failure(error: E)

  /** The context of a loop is alive before each of its first n steps. */
  ghost predicate Uncancelled(cancelled: nat -> bool, n: nat) {
    forall k | 0 <= k < n :: !cancelled(k)
  }

  lemma StillUncancelled(cancelled: nat -> bool, n: nat)
    requires Uncancelled(cancelled, n) && !cancelled(n)
    ensures Uncancelled(cancelled, n + 1)
  {
  }
}
