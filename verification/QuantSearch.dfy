/** The search over zero-points with alternating assignment of codes and refit of the scale. */
module QuantSearch {
  import opened Rounding
  import opened Quant

  datatype Weights = NoWeights | Weights(w: seq<real>)

  /** lo and hi are the smallest and the largest of the first n values. */
  ghost predicate Bounds(x: seq<real>, n: nat, lo: real, hi: real) {
    && n <= |x| && (forall i :: 0 <= i < n ==> lo <= x[i] <= hi)
    && (exists i :: 0 <= i < |x| && x[i] == lo) && (exists i :: 0 <= i < |x| && x[i] == hi)
  }

  lemma BoundsUnique(x: seq<real>, lo: real, hi: real, lo': real, hi': real)
    requires Bounds(x, |x|, lo, hi) && Bounds(x, |x|, lo', hi')
    ensures lo == lo' && hi == hi'
  {
  }

  function WeightSum(w: seq<real>, n: nat): real
    requires n <= |w|
  {
    if n == 0 then 0.0 else WeightSum(w, n - 1) + Weight(w[n - 1])
  }

  /** The scale the search starts from. */
  function InitScale(lo: real, hi: real, qmax: int): real
    requires qmax > 0
  {
    if hi != lo then (hi - lo) / qmax as real else if hi != 0.0 then Abs(hi) / qmax as real else 1.0
  }

  lemma InitScalePositive(lo: real, hi: real, qmax: int)
    requires qmax > 0 && lo <= hi
    ensures InitScale(lo, hi, qmax) > 0.0
  {
    Positive(hi - lo, qmax as real);
    Positive(Abs(hi), qmax as real);
  }

  lemma Positive(a: real, b: real)
    requires b > 0.0
    ensures a > 0.0 ==> a / b > 0.0
  {
  }

  /** No codes and no zero-point at the scale `from` do better. */
  ghost predicate AtLeastAsGood(x: seq<real>, w: seq<real>, q: seq<int>, zp: int, scale: real, z: int, from: real,
                                qmax: int)
    requires |x| == |w| == |q|
  {
    forall c: seq<int> :: |c| == |x| && InRange(c, qmax) ==> Err(x, w, q, zp, scale, |x|) <= Err(x, w, c, z, from, |x|)
  }

  // ---- What the rounds compute -------------------------------------------------------------------

  /** Every value rounded to the scale. */
  function Codes(x: seq<real>, s: real, zp: int, qmax: int): (q: seq<int>)
    requires s > 0.0 && qmax > 0
    ensures |q| == |x| && InRange(q, qmax)
  {
    seq(|x|, i requires 0 <= i < |x| => CodeOf(x[i], s, zp, qmax))
  }

  /** The scale refitted to the codes rounded to s, unless that is impossible. */
  function Refit(x: seq<real>, w: seq<real>, s: real, zp: int, qmax: int): (r: real)
    requires s > 0.0 && qmax > 0 && |w| == |x|
    ensures r > 0.0
  {
    var q := Codes(x, s, zp, qmax);
    var a, b := Numer(x, w, q, zp, |x|), Denom(w, q, zp, |x|);
    if b > EPS && a / b > 0.0 then a / b else s
  }

  /** The scale after k rounds from s. */
  function ScaleAfter(x: seq<real>, w: seq<real>, s: real, zp: int, qmax: int, k: nat): (r: real)
    requires s > 0.0 && qmax > 0 && |w| == |x|
    ensures r > 0.0
  {
    if k == 0 then s else Refit(x, w, ScaleAfter(x, w, s, zp, qmax, k - 1), zp, qmax)
  }

  const ROUNDS: nat := 4

  /** The error that is left for a zero-point: codes of the last round, scale refitted to them. */
  function ErrAfter(x: seq<real>, w: seq<real>, s: real, zp: int, qmax: int): real
    requires s > 0.0 && qmax > 0 && |w| == |x|
  {
    Err(x, w, Codes(x, ScaleAfter(x, w, s, zp, qmax, ROUNDS - 1), zp, qmax), zp, ScaleAfter(x, w, s, zp, qmax, ROUNDS),
        |x|)
  }

  /** A refit that was possible gives the best of all scales for the codes. */
  lemma RefitBest(x: seq<real>, w: seq<real>, s: real, zp: int, qmax: int)
    requires s > 0.0 && qmax > 0 && |w| == |x|
    ensures var q, r := Codes(x, s, zp, qmax), Refit(x, w, s, zp, qmax);
      && Err(x, w, q, zp, r, |x|) <= Err(x, w, q, zp, s, |x|)
      && (BestScale(x, w, q, zp, r) || Denom(w, q, zp, |x|) <= EPS || Numer(x, w, q, zp, |x|) <= 0.0)
  {
    var q := Codes(x, s, zp, qmax);
    var a, b := Numer(x, w, q, zp, |x|), Denom(w, q, zp, |x|);
    hide Err, Numer, Denom, Codes;
    if b > EPS {
      forall t ensures Err(x, w, q, zp, a / b, |x|) <= Err(x, w, q, zp, t, |x|) { RefitBetter(x, w, q, zp, t, |x|); }
      Positive(a, b);
    }
  }

  /** No other scale does better for the codes. */
  ghost predicate BestScale(x: seq<real>, w: seq<real>, q: seq<int>, zp: int, scale: real)
    requires |x| == |w| == |q|
  {
    forall s {:trigger Err(x, w, q, zp, s, |x|)} :: Err(x, w, q, zp, scale, |x|) <= Err(x, w, q, zp, s, |x|)
  }

  /** The end of the rounds is at least as good as any codes at the scale of any round. */
  lemma {:induction false} RoundsBetter(x: seq<real>, w: seq<real>, s: real, zp: int, qmax: int, k: nat, c: seq<int>)
    requires s > 0.0 && qmax > 0 && |w| == |x| == |c| && k < ROUNDS && InRange(c, qmax)
    ensures ErrAfter(x, w, s, zp, qmax) <= Err(x, w, c, zp, ScaleAfter(x, w, s, zp, qmax, k), |x|)
    decreases ROUNDS - k
  {
    var t := ScaleAfter(x, w, s, zp, qmax, k);
    var q := Codes(x, t, zp, qmax);
    AssignBetter(x, w, q, c, zp, t, qmax, |x|);
    RefitBest(x, w, t, zp, qmax);
    hide Err, Codes, Refit, InRange;
    if k + 1 < ROUNDS { RoundsBetter(x, w, s, zp, qmax, k + 1, q); }
  }

  method Assign(x: seq<real>, scale: real, zp: int, qmax: int, q: array<int>)
    requires scale > 0.0 && qmax > 0 && q.Length == |x|
    modifies q
    ensures Rounded(x, q[..], zp, scale, qmax, |x|) && InRange(q[..], qmax)
  {
    hide Nearest, Shifted, Inverse;
    var inv := if scale != 0.0 then Inverse(scale) else 0.0;
    var i := 0;
    while i < |x|
      invariant 0 <= i <= |x|
      invariant forall j :: 0 <= j < i ==> q[j] == CodeOf(x[j], scale, zp, qmax)
    {
      var k := Nearest(Shifted(x[i], inv, zp));
      q[i] := if k < 0 then 0 else if k > qmax then qmax else k;
      i := i + 1;
    }
  }

  method Sums(x: seq<real>, w: seq<real>, q: array<int>, zp: int) returns (numer: real, denom: real)
    requires |x| == |w| == q.Length
    ensures numer == Numer(x, w, q[..], zp, |x|) && denom == Denom(w, q[..], zp, |x|)
  {
    numer, denom := 0.0, 0.0;
    var i := 0;
    while i < |x|
      invariant 0 <= i <= |x|
      invariant numer == Numer(x, w, q[..], zp, i) && denom == Denom(w, q[..], zp, i)
    {
      var wi := if w[i] > 0.0 then w[i] else 0.0;
      var a := (q[i] - zp) as real;
      numer := numer + wi * x[i] * a;
      denom := denom + wi * a * a;
      i := i + 1;
    }
  }

  method Error(x: seq<real>, w: seq<real>, q: array<int>, zp: int, scale: real) returns (err: real)
    requires |x| == |w| == q.Length
    ensures err == Err(x, w, q[..], zp, scale, |x|)
  {
    err := 0.0;
    var i := 0;
    while i < |x|
      invariant 0 <= i <= |x| && err == Err(x, w, q[..], zp, scale, i)
    {
      var wi := if w[i] > 0.0 then w[i] else 0.0;
      var deq := (q[i] - zp) as real * scale;
      var d := x[i] - deq;
      err := err + wi * Square(d);
      i := i + 1;
    }
  }

  /** One iteration: round to the scale, then refit the scale unless that is impossible. */
  method Improve(x: seq<real>, w: seq<real>, scale: real, zp: int, qmax: int, q: array<int>) returns (next: real)
    requires scale > 0.0 && qmax > 0 && |x| == |w| == q.Length
    modifies q
    ensures q[..] == Codes(x, scale, zp, qmax) && next == Refit(x, w, scale, zp, qmax)
  {
    hide InRange, Numer, Denom, CodeOf;
    Assign(x, scale, zp, qmax, q);
    assert q[..] == Codes(x, scale, zp, qmax);
    var numer, denom := Sums(x, w, q, zp);
    next := scale;
    if denom > EPS {
      var r := numer / denom;
      if r > 0.0 { next := r; }
    }
  }

  method PickForZero(x: seq<real>, w: seq<real>, initScale: real, zp: int, qmax: int, q: array<int>)
    returns (scale: real)
    requires initScale > 0.0 && qmax > 0 && |x| == |w| == q.Length
    modifies q
    ensures scale == ScaleAfter(x, w, initScale, zp, qmax, ROUNDS)
    ensures q[..] == Codes(x, ScaleAfter(x, w, initScale, zp, qmax, ROUNDS - 1), zp, qmax)
  {
    scale := initScale;
    var iter := 0;
    while iter < 4
      invariant 0 <= iter <= 4 && scale == ScaleAfter(x, w, initScale, zp, qmax, iter)
      invariant iter > 0 ==> q[..] == Codes(x, ScaleAfter(x, w, initScale, zp, qmax, iter - 1), zp, qmax)
    {
      hide Codes, Refit;
      scale := Improve(x, w, scale, zp, qmax, q);
      iter := iter + 1;
    }
  }

  method Range(x: seq<real>, ws: Weights) returns (lo: real, hi: real, wsum: real)
    requires |x| > 0 && (ws.Weights? ==> |ws.w| == |x|)
    ensures Bounds(x, |x|, lo, hi) && lo <= hi
    ensures wsum == if ws.Weights? then WeightSum(ws.w, |x|) else 0.0
  {
    lo, hi, wsum := x[0], x[0], 0.0;
    var i := 0;
    while i < |x|
      invariant 0 <= i <= |x| && Bounds(x, i, lo, hi) && lo <= x[0] <= hi
      invariant wsum == if ws.Weights? then WeightSum(ws.w, i) else 0.0
    {
      if x[i] < lo { lo := x[i]; }
      if x[i] > hi { hi := x[i]; }
      wsum := wsum + if ws.Weights? && ws.w[i] > 0.0 then ws.w[i] else 0.0;
      i := i + 1;
    }
  }

  /** The group is what the rounds from the scale `from` leave for its zero-point, and no zero-point
      leaves less; of equals it is the first. */
  ghost predicate Picked(x: seq<real>, w: seq<real>, from: real, qmax: int, zp: int, scale: real, q: seq<int>)
    requires from > 0.0 && qmax > 0 && |w| == |x|
  {
    && 0 <= zp <= qmax && scale == ScaleAfter(x, w, from, zp, qmax, ROUNDS)
    && q == Codes(x, ScaleAfter(x, w, from, zp, qmax, ROUNDS - 1), zp, qmax)
    && forall z :: 0 <= z <= qmax ==>
         ErrAfter(x, w, from, zp, qmax) <= ErrAfter(x, w, from, z, qmax) &&
           (z < zp ==> ErrAfter(x, w, from, zp, qmax) < ErrAfter(x, w, from, z, qmax))
  }

  /** It is at least as good as any codes at the scale of any round for any zero-point, and its scale is
      the best for its codes where a refit is possible. */
  lemma PickedWell(x: seq<real>, w: seq<real>, from: real, qmax: int, zp: int, scale: real, q: seq<int>)
    requires from > 0.0 && qmax > 0 && |w| == |x| && Picked(x, w, from, qmax, zp, scale, q)
    ensures |q| == |x| && InRange(q, qmax) && scale > 0.0
    ensures forall z, k: nat :: 0 <= z <= qmax && k < ROUNDS ==>
      AtLeastAsGood(x, w, q, zp, scale, z, ScaleAfter(x, w, from, z, qmax, k), qmax)
    ensures BestScale(x, w, q, zp, scale) || Denom(w, q, zp, |x|) <= EPS || Numer(x, w, q, zp, |x|) <= 0.0
  {
    RefitBest(x, w, ScaleAfter(x, w, from, zp, qmax, ROUNDS - 1), zp, qmax);
    assert Err(x, w, q, zp, scale, |x|) == ErrAfter(x, w, from, zp, qmax);
    hide Err, Codes, Refit, InRange, ErrAfter, ScaleAfter, Numer, Denom;
    forall z, k: nat, c: seq<int> | 0 <= z <= qmax && k < ROUNDS && |c| == |x| && InRange(c, qmax)
      ensures Err(x, w, q, zp, scale, |x|) <= Err(x, w, c, z, ScaleAfter(x, w, from, z, qmax, k), |x|)
    {
      RoundsBetter(x, w, from, z, qmax, k, c);
    }
  }

  /** ds4q_pick_weighted_asym_group. */
  method PickGroup(x: seq<real>, ws: Weights, qmax: int) returns (ok: bool, scale: real, zp: int, q: seq<int>)
    requires |x| > 0 && qmax > 0 && (ws.Weights? ==> |ws.w| == |x|)
    ensures ok <==> ws.Weights? && WeightSum(ws.w, |x|) > EPS
    ensures ok ==> scale > 0.0 && 0 <= zp <= qmax && |q| == |x| && InRange(q, qmax)
    ensures ok ==> forall lo, hi :: Bounds(x, |x|, lo, hi) ==>
      InitScale(lo, hi, qmax) > 0.0 && Picked(x, ws.w, InitScale(lo, hi, qmax), qmax, zp, scale, q)
    ensures ok ==> forall lo, hi, z, k: nat :: Bounds(x, |x|, lo, hi) && 0 <= z <= qmax && k < ROUNDS ==>
      InitScale(lo, hi, qmax) > 0.0 &&
      AtLeastAsGood(x, ws.w, q, zp, scale, z, ScaleAfter(x, ws.w, InitScale(lo, hi, qmax), z, qmax, k), qmax)
    ensures ok ==>
      BestScale(x, ws.w, q, zp, scale) || Denom(ws.w, q, zp, |x|) <= EPS || Numer(x, ws.w, q, zp, |x|) <= 0.0
  {
    var lo, hi, wsum := Range(x, ws);
    if ws.NoWeights? || wsum <= EPS { return false, 1.0, 0, []; }
    var initScale := 1.0;
    if hi != lo {
      initScale := (hi - lo) / qmax as real;
    } else if hi != 0.0 {
      initScale := Abs(hi) / qmax as real;
    }
    InitScalePositive(lo, hi, qmax);
    scale, zp, q := BestOfZeros(x, ws.w, initScale, qmax);
    ok := true;
    PickedWell(x, ws.w, initScale, qmax, zp, scale, q);
    hide Picked, AtLeastAsGood, ScaleAfter, InRange, BestScale, Numer, Denom;
    forall lo', hi' | Bounds(x, |x|, lo', hi') ensures lo' == lo && hi' == hi { BoundsUnique(x, lo, hi, lo', hi'); }
  }

  /** The loop over the zero-points. */
  method BestOfZeros(x: seq<real>, w: seq<real>, initScale: real, qmax: int)
    returns (scale: real, bestZp: int, best: seq<int>)
    requires |x| > 0 && qmax > 0 && |w| == |x| && initScale > 0.0
    ensures Picked(x, w, initScale, qmax, bestZp, scale, best)
  {
    var bestErr, bestScale := 0.0, 1.0;
    bestZp, best := 0, [];
    var qtmp := new int[|x|](_ => 0);
    var zp := 0;
    hide Codes, ScaleAfter, Err;
    while zp <= qmax
      invariant 0 <= zp <= qmax + 1
      invariant zp > 0 ==> 0 <= bestZp < zp && bestScale == ScaleAfter(x, w, initScale, bestZp, qmax, ROUNDS)
      invariant zp > 0 ==> best == Codes(x, ScaleAfter(x, w, initScale, bestZp, qmax, ROUNDS - 1), bestZp, qmax)
      invariant zp > 0 ==> bestErr == ErrAfter(x, w, initScale, bestZp, qmax)
      invariant forall z :: 0 <= z < zp ==>
        bestErr <= ErrAfter(x, w, initScale, z, qmax) && (z < bestZp ==> bestErr < ErrAfter(x, w, initScale, z, qmax))
    {
      var s := PickForZero(x, w, initScale, zp, qmax, qtmp);
      var err := Error(x, w, qtmp, zp, s);
      assert err == ErrAfter(x, w, initScale, zp, qmax);
      if zp == 0 || err < bestErr {
        bestErr, bestScale, bestZp, best := err, s, zp, qtmp[..];
      }
      zp := zp + 1;
    }
    scale := bestScale;
  }
}
