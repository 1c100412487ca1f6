/** Sequence helpers shared by the model. */
module Sequences {
  /** Read from the end back to the start (std::ranges::reverse). */
  function Reversed<T>(p: seq<T>): (r: seq<T>)
    ensures |r| == |p| && forall i :: 0 <= i < |p| ==> r[i] == p[|p| - 1 - i]
  {
    seq(|p|, i requires 0 <= i < |p| => p[|p| - 1 - i])
  }
}
