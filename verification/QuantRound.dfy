/** Rounding a group without weights: when its values come back within half a step. */
module QuantRound {
  import opened Rounding
  import opened Quant
  import opened QuantSearch

  /** Rounding with clamping is within a half exactly for numbers between -1/2 and qmax + 1/2. */
  lemma ClampClose(t: real, qmax: int)
    requires qmax >= 0
    ensures Abs(t - Clamp(Nearest(t), qmax) as real) <= 0.5 <==> -0.5 <= t <= qmax as real + 0.5
  {
    var k := Nearest(t);
    NearestClose(t);
    if k < 0 {
      assert k as real <= -1.0;
    } else if k > qmax {
      assert k as real >= qmax as real + 1.0;
    }
    hide Nearest;
  }

  lemma HalfOf(d: real, s: real)
    requires s > 0.0
    ensures Abs(d * s) <= s / 2.0 <==> Abs(d) <= 0.5
  {
    if Abs(d) <= 0.5 {
      AtMost(d, 0.5, s);
      AtMost(-0.5, d, s);
      assert -0.5 * s == -(s / 2.0) && 0.5 * s == s / 2.0;
    } else if d > 0.5 {
      MoreThan(d, 0.5, s);
    } else {
      MoreThan(-0.5, d, s);
    }
  }

  lemma AtMost(a: real, b: real, s: real)
    requires s > 0.0 && a <= b
    ensures a * s <= b * s
  {
  }

  lemma MoreThan(a: real, b: real, s: real)
    requires s > 0.0 && a > b
    ensures a * s > b * s
  {
  }

  /** One value is within half a step exactly when, in steps from the zero-point, it is in range. */
  lemma CloseInUnits(x: real, s: real, zp: int, qmax: int)
    requires s > 0.0 && qmax >= 0
    ensures Abs(x - Deq(CodeOf(x, s, zp, qmax), zp, s)) <= s / 2.0 <==> -0.5 <= Units(x, s, zp) <= qmax as real + 0.5
  {
    var t, k := Units(x, s, zp), CodeOf(x, s, zp, qmax);
    assert k == Clamp(Nearest(t), qmax);
    hide Units, CodeOf, Nearest, Deq, Clamp;
    InUnits(x, s, zp, k);
    HalfOf(t - k as real, s);
    ClampClose(t, qmax);
  }

  /** The zero-point of a group that is not constant. */
  function ZeroOf(lo: real, s: real, qmax: int): int
    requires s > 0.0
  {
    Clamp(Nearest(-lo / s), qmax)
  }

  lemma Monotone(x: real, y: real, s: real, zp: int)
    requires s > 0.0 && x <= y
    ensures Units(x, s, zp) <= Units(y, s, zp)
  {
    var inv := 1.0 / s;
    assert inv > 0.0;
    AtMost(x, y, inv);
  }

  /** In steps, hi is qmax above lo, and lo is its distance from zero less the zero-point. */
  lemma Ends(lo: real, hi: real, s: real, zp: int, qmax: int)
    requires qmax > 0 && lo < hi && s > 0.0 && s == (hi - lo) / qmax as real
    ensures Units(lo, s, zp) == zp as real - (-lo / s)
    ensures Units(hi, s, zp) == Units(lo, s, zp) + qmax as real
  {
    var inv, m := 1.0 / s, qmax as real;
    assert m * s == hi - lo;
    Product(m, s, inv);
    assert (hi - lo) * inv == m;
    assert hi * inv - lo * inv == (hi - lo) * inv;
    Product(-lo / s, s, inv);
    assert (-lo / s) * s == -lo;
  }

  lemma Product(m: real, s: real, inv: real)
    requires s > 0.0 && inv == 1.0 / s
    ensures (m * s) * inv == m
  {
    assert s * inv == 1.0;
    assert (m * s) * inv == m * (s * inv);
  }

  lemma Fractions(lo: real, hi: real, s: real, qmax: int)
    requires qmax > 0 && s > 0.0 && s == (hi - lo) / qmax as real
    ensures -0.5 <= -lo / s <==> lo <= s / 2.0
    ensures -lo / s <= qmax as real + 0.5 <==> -hi <= s / 2.0
  {
    var v, m := -lo / s, qmax as real;
    assert v * s == -lo && m * s == hi - lo;
    Compare(-0.5, v, s);
    Compare(v, m + 0.5, s);
    assert (m + 0.5) * s == m * s + s / 2.0;
    assert -0.5 * s == -(s / 2.0);
  }

  lemma Compare(a: real, b: real, s: real)
    requires s > 0.0
    ensures a <= b <==> a * s <= b * s
  {
    if a <= b { AtMost(a, b, s); } else { MoreThan(a, b, s); }
  }

  ghost predicate AllClose(x: seq<real>, s: real, zp: int, qmax: int)
    requires s > 0.0
  {
    forall i :: 0 <= i < |x| ==> Abs(x[i] - Deq(CodeOf(x[i], s, zp, qmax), zp, s)) <= s / 2.0
  }

  /** A group comes back within half a step exactly when it does not lie more than half a step
      above zero, nor more than half a step below. */
  lemma HalfStepExactly(x: seq<real>, lo: real, hi: real, qmax: int)
    requires qmax > 0 && |x| > 0 && Bounds(x, |x|, lo, hi) && lo < hi
    ensures var s := InitScale(lo, hi, qmax);
      s > 0.0 && (AllClose(x, s, ZeroOf(lo, s, qmax), qmax) <==> lo <= s / 2.0 && -hi <= s / 2.0)
  {
    InitScalePositive(lo, hi, qmax);
    var s := InitScale(lo, hi, qmax);
    var v, zp := -lo / s, ZeroOf(lo, s, qmax);
    Ends(lo, hi, s, zp, qmax);
    Fractions(lo, hi, s, qmax);
    ClampClose(v, qmax);
    assert zp == Clamp(Nearest(v), qmax);
    hide Units, CodeOf, Deq, Nearest, Clamp, ZeroOf, InitScale;
    CloseInUnits(lo, s, zp, qmax);
    CloseInUnits(hi, s, zp, qmax);
    forall i | 0 <= i < |x|
      ensures Units(lo, s, zp) <= Units(x[i], s, zp) <= Units(hi, s, zp)
      ensures Abs(x[i] - Deq(CodeOf(x[i], s, zp, qmax), zp, s)) <= s / 2.0 <==>
        -0.5 <= Units(x[i], s, zp) <= qmax as real + 0.5 {
      Monotone(lo, x[i], s, zp);
      Monotone(x[i], hi, s, zp);
      CloseInUnits(x[i], s, zp, qmax);
    }
  }

  /** A group of equal values comes back exactly. */
  lemma ConstantExact(v: real, qmax: int)
    requires qmax > 0
    ensures var s := InitScale(v, v, qmax);
      s > 0.0 && Deq(CodeOf(v, s, if v < 0.0 then qmax else 0, qmax), if v < 0.0 then qmax else 0, s) == v
  {
    InitScalePositive(v, v, qmax);
    var s, m := InitScale(v, v, qmax), qmax as real;
    var inv := 1.0 / s;
    if v != 0.0 {
      assert m * s == Abs(v);
      Product(m, s, inv);
      assert Abs(v) * inv == m;
      if v < 0.0 {
        assert v * inv == -(Abs(v) * inv);
        NearestOfInt(0);
      } else {
        NearestOfInt(qmax);
      }
    } else {
      NearestOfInt(0);
    }
  }

  /** The group part of ds4q_write_q3_k_block_asym_g64 (qmax 7) and of its two-bit twin (qmax 3). */
  method RoundGroup(x: seq<real>, qmax: int) returns (scale: real, zp: int, q: array<int>)
    requires |x| > 0 && qmax > 0
    ensures scale > 0.0 && 0 <= zp <= qmax && fresh(q) && q.Length == |x| && InRange(q[..], qmax)
    ensures forall lo, hi :: Bounds(x, |x|, lo, hi) ==> Faithful(x, lo, hi, scale, zp, q[..], qmax)
  {
    var lo, hi := x[0], x[0];
    var i := 1;
    while i < |x|
      invariant 1 <= i <= |x| && Bounds(x, i, lo, hi)
    {
      if x[i] < lo { lo := x[i]; }
      if x[i] > hi { hi := x[i]; }
      i := i + 1;
    }
    scale, zp := 1.0, 0;
    if hi != lo {
      scale := (hi - lo) / qmax as real;
      InitScalePositive(lo, hi, qmax);
      zp := Nearest(-lo / scale);
      zp := if zp < 0 then 0 else if zp > qmax then qmax else zp;
    } else if hi != 0.0 {
      InitScalePositive(lo, hi, qmax);
      scale := Abs(hi) / qmax as real;
      zp := if hi > 0.0 then 0 else qmax;
    }
    q := new int[|x|](_ => 0);
    Assign(x, scale, zp, qmax, q);
    Rendered(x, lo, hi, scale, zp, q[..], qmax);
    forall lo', hi' | Bounds(x, |x|, lo', hi') ensures Faithful(x, lo', hi', scale, zp, q[..], qmax) {
      BoundsUnique(x, lo, hi, lo', hi');
    }
  }

  /** The values come back within half a step just when the group straddles zero, give or take half a
      step; a constant group comes back exactly. */
  ghost predicate Faithful(x: seq<real>, lo: real, hi: real, s: real, zp: int, q: seq<int>, qmax: int)
    requires qmax > 0 && |q| == |x|
  {
    && s == InitScale(lo, hi, qmax)
    && (lo < hi ==>
      ((forall i :: 0 <= i < |x| ==> Abs(x[i] - Deq(q[i], zp, s)) <= s / 2.0) <==> lo <= s / 2.0 && -hi <= s / 2.0))
    && (lo == hi ==> forall i :: 0 <= i < |x| ==> Deq(q[i], zp, s) == x[i])
  }

  lemma Rendered(x: seq<real>, lo: real, hi: real, s: real, zp: int, q: seq<int>, qmax: int)
    requires qmax > 0 && |x| > 0 && |q| == |x| && Bounds(x, |x|, lo, hi) && s == InitScale(lo, hi, qmax) && s > 0.0
    requires Quant.Rounded(x, q, zp, s, qmax, |x|)
    requires zp == if lo < hi then ZeroOf(lo, s, qmax) else if hi < 0.0 then qmax else 0
    ensures Faithful(x, lo, hi, s, zp, q, qmax)
  {
    hide Deq, CodeOf, ZeroOf, InitScale;
    if lo < hi {
      HalfStepExactly(x, lo, hi, qmax);
    } else {
      ConstantExact(hi, qmax);
    }
  }
}
