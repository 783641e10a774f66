/** Sequence helpers shared by the Big-O examples: integer ranges, reversal and sums. */
module Sequences {

  /** The larger of two integers (JavaScript's Math.max on integers). */
  function Max(a: int, b: int): int
  {
    if a < b then b else a
  }

  /** The smaller of two integers (JavaScript's Math.min on integers). */
  function Min(a: int, b: int): int
  {
    if a < b then a else b
  }

  /** The integers lo, lo + 1, ..., hi - 1 in ascending order; empty when hi <= lo. */
  function Interval(lo: int, hi: int): (r: seq<int>)
    ensures |r| == Max(0, hi - lo)
    ensures forall k :: 0 <= k < |r| ==> r[k] == lo + k
    decreases hi - lo
  {
    if hi <= lo then [] else Interval(lo, hi - 1) + [hi - 1]
  }

  /** The elements of s in the opposite order. */
  function Reversed<T>(s: seq<T>): (r: seq<T>)
    ensures |r| == |s|
    ensures forall k :: 0 <= k < |s| ==> r[k] == s[|s| - 1 - k]
  {
    if s == [] then [] else Reversed(s[1..]) + [s[0]]
  }

  /** The sum of the elements of s, taken from the left. */
  function Sum(s: seq<int>): int
  {
    if s == [] then 0 else Sum(s[..|s| - 1]) + s[|s| - 1]
  }
}
