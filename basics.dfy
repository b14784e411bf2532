/** Failure-compatible wrappers shared by the whole model. */
module Basics {

  datatype Option<+T> = None | Some(value: T)

  datatype Result<+R, +E> = Success(value: R) | Failure(error: E)

  function Min(a: nat, b: nat): nat {
    if a <= b then a else b
  }

  /** A sequence is its first `n` elements followed by the rest. */
  lemma SplitAt<T>(s: seq<T>, n: nat)
    requires n <= |s|
    ensures s == s[..n] + s[n..]
  {
  }
}
