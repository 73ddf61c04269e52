/** Failure-carrying datatypes and other small definitions shared by every module. */
module Wrappers {
  datatype Option<+T> = None | Some(value: T)

  datatype Result<+T, +E> = Ok(value: T) | Err(error: E)

  newtype Byte = b: int | 0 <= b < 256

  type Bytes = seq<Byte>

  const INT64_LIMIT: nat := 0x8000_0000_0000_0000

  /** Durations are in nanoseconds. */
  const SECOND: nat := 1_000_000_000

  function Min(a: nat, b: nat): nat {
    if a < b then a else b
  }

  function Max(a: int, b: int): int {
    if a < b then b else a
  }

  ghost predicate Distinct<T>(xs: seq<T>) {
    forall i, j | 0 <= i < j < |xs| :: xs[i] != xs[j]
  }

  lemma SubsetSize<T>(a: set<T>, b: set<T>)
    requires a <= b
    ensures |a| <= |b|
  {
    assert b == a + (b - a);
  }
}
