/** Python's slices, clamped to the sequence. */
module Slicing {

  function Min(a: nat, b: nat): nat
  {
    if a <= b then a else b
  }

  /** `s[lo:hi]` for bounds that are not negative. */
  function Slice<T>(s: seq<T>, lo: nat, hi: nat): (r: seq<T>)
    ensures |r| <= |s| && (hi <= |s| ==> |r| == if lo < hi then hi - lo else 0)
  {
    var to := Min(hi, |s|);
    if lo < to then s[lo..to] else []
  }
}
