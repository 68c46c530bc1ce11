/** What several modules share. */
module Basics {

  type Byte = b: int | 0 <= b < 256

  datatype Option<T> = None | Some(value: T)

  /** The numbers below n, each once. */
  ghost predicate IsPermutation(s: seq<nat>, n: nat)
  {
    && |s| == n
    && (forall i :: 0 <= i < n ==> s[i] < n)
    && (forall x: nat :: x in s <==> x < n)
    && (forall i, j :: 0 <= i < j < n ==> s[i] != s[j])
  }
}
