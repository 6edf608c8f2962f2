/** Rounding to the nearest integer, ties to even, as lrintf and nearest_int do. */
module Rounding {
  function Nearest(x: real): int {
    var f := x.Floor;
    var d := x - f as real;
    if d < 0.5 then f else if d > 0.5 then f + 1 else if f % 2 == 0 then f else f + 1
  }

  function Abs(x: real): real {
    if x < 0.0 then -x else x
  }

  lemma NearestClose(x: real)
    ensures Abs(x - Nearest(x) as real) <= 0.5
  {
  }

  lemma NearestOfInt(k: int)
    ensures Nearest(k as real) == k
  {
  }

  /** Rounding keeps integer bounds. */
  lemma NearestBetween(x: real, lo: int, hi: int)
    requires lo as real <= x <= hi as real
    ensures lo <= Nearest(x) <= hi
  {
  }

  /** Products by name, so that their laws can be used one at a time. */
  function Prod(x: real, s: real): real {
    x * s
  }

  lemma ProdMinus(x: real, k: real, s: real)
    ensures Prod(x - k, s) == Prod(x, s) - Prod(k, s)
  {
  }

  lemma HalfTimes(d: real, s: real)
    requires -0.5 <= d <= 0.5 && s > 0.0
    ensures -(s / 2.0) <= d * s <= s / 2.0
  {
  }

  lemma ProdHalf(d: real, s: real)
    requires -0.5 <= d <= 0.5 && s > 0.0
    ensures -(s / 2.0) <= Prod(d, s) <= s / 2.0
  {
    HalfTimes(d, s);
  }

  lemma Cancel(v: real, s: real)
    requires s > 0.0
    ensures Prod(v / s, s) == v
  {
  }

  lemma CancelBack(x: real, s: real)
    requires s > 0.0
    ensures Prod(x, s) / s == x
  {
    assert x * s / s == x;
  }
}
