/** Sequences of one repeated element: zero bytes, padding, leading zero digits. */
module Sequences {

  function Repeat<T>(x: T, n: nat): (s: seq<T>)
    ensures |s| == n
    ensures forall i | 0 <= i < n :: s[i] == x
  {
    seq(n, _ => x)
  }
}
