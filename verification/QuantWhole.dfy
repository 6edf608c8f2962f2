/** From the values of a block to the values the engine decodes. */
module QuantWhole {
  import opened Rounding
  import opened Quant
  import opened QuantSearch
  import opened QuantRound
  import opened QuantPack
  import opened QuantBlock

  /** The values of group g. */
  function Part<T>(x: seq<T>, g: nat): (r: seq<T>)
    requires |x| == 256 && g < 4
    ensures |r| == GROUP
  {
    x[g * GROUP..g * GROUP + GROUP]
  }

  /** A group comes back within half a step just when it straddles zero, give or take half a step, and
      exactly when it is constant. */
  ghost predicate Back(x: seq<real>, y: seq<real>, qmax: int)
    requires |x| == |y| && qmax > 0
  {
    forall lo, hi :: Bounds(x, |x|, lo, hi) ==> BackIn(x, y, lo, hi, InitScale(lo, hi, qmax))
  }

  ghost predicate BackIn(x: seq<real>, y: seq<real>, lo: real, hi: real, s: real)
    requires |x| == |y|
  {
    && (lo < hi ==> ((forall i :: 0 <= i < |x| ==> Abs(x[i] - y[i]) <= s / 2.0) <==> lo <= s / 2.0 && -hi <= s / 2.0))
    && (lo == hi ==> y == x)
  }

  /** Groups around zero, as the recipe expects them, come back within half a step. */
  lemma BackAroundZero(x: seq<real>, y: seq<real>, lo: real, hi: real, qmax: int, i: nat)
    requires |x| == |y| && qmax > 0 && Back(x, y, qmax) && Bounds(x, |x|, lo, hi) && lo <= 0.0 <= hi && i < |x|
    ensures Abs(x[i] - y[i]) <= InitScale(lo, hi, qmax) / 2.0
  {
    InitScalePositive(lo, hi, qmax);
    assert BackIn(x, y, lo, hi, InitScale(lo, hi, qmax));
    hide InitScale;
  }

  /** y is what the group's codes decode to. */
  ghost predicate DecodesTo(group: Group, y: seq<real>) {
    |group.q| == |y| && forall i :: 0 <= i < |y| ==> y[i] == Deq(group.q[i], group.zp, group.scale)
  }

  lemma FaithfulBack(x: seq<real>, group: Group, y: seq<real>, qmax: int)
    requires |x| == |y| == |group.q| && qmax > 0 && DecodesTo(group, y)
    requires forall lo, hi :: Bounds(x, |x|, lo, hi) ==> Faithful(x, lo, hi, group.scale, group.zp, group.q, qmax)
    ensures Back(x, y, qmax)
  {
    hide Deq, InitScale;
    forall lo, hi | Bounds(x, |x|, lo, hi) ensures BackIn(x, y, lo, hi, InitScale(lo, hi, qmax)) {
      assert Faithful(x, lo, hi, group.scale, group.zp, group.q, qmax);
    }
  }

  /** The engine's decoding of a written block. */
  method WriteAndDecode(kind: Kind, gs: seq<Group>) returns (y: array<real>)
    requires Fits(kind, gs)
    ensures fresh(y) && y.Length == 256 && forall g: nat :: g < 4 ==> DecodesTo(gs[g], Part(y[..], g))
  {
    var bytes, scales := new bv8[kind.Size()](_ => 0), new real[4](_ => 0.0);
    y := new real[256](_ => 0.0);
    WriteBlock(kind, gs, bytes, scales);
    DecodeBlock(kind, bytes, scales, y);
    forall g: nat | g < 4 ensures DecodesTo(gs[g], Part(y[..], g)) {
      GroupBack(kind, bytes[..], scales[..], y[..], g, gs[g]);
    }
  }

  lemma GroupBack(kind: Kind, bytes: seq<bv8>, scales: seq<real>, y: seq<real>, g: nat, group: Group)
    requires HasGroup(kind, bytes, scales, g, group) && |y| == 256 && |group.q| == GROUP && g < 4
    requires |bytes| == kind.Size() && |scales| == 4
    requires Decoded(kind, bytes, scales, y, g, GROUP)
    ensures DecodesTo(group, Part(y, g))
  {
    hide Deq, HasGroup, Decoded;
    forall i: nat | i < GROUP ensures Part(y, g)[i] == Deq(group.q[i], group.zp, group.scale) {
      RoundTrip(kind, bytes, scales, y, g, group, i);
    }
  }

  /** ds4q_write_q3_k_block_asym_g64 or its two-bit twin, and what the engine reads of it. */
  method RoundBlock(kind: Kind, x: seq<real>) returns (y: array<real>)
    requires |x| == 256
    ensures fresh(y) && y.Length == 256 && forall g: nat :: g < 4 ==> Back(Part(x, g), Part(y[..], g), kind.QMax())
  {
    var gs: seq<Group> := [];
    for g := 0 to 4
      invariant |gs| == g
      invariant forall h: nat :: h < g ==> Rounds(kind, Part(x, h), gs[h])
    {
      hide *;
      var group := RoundPart(kind, Part(x, g));
      gs := gs + [group];
    }
    AllFit(kind, x, gs);
    y := WriteAndDecode(kind, gs);
    forall g: nat | g < 4 ensures Back(Part(x, g), Part(y[..], g), kind.QMax()) {
      assert Rounds(kind, Part(x, g), gs[g]);
      FaithfulBack(Part(x, g), gs[g], Part(y[..], g), kind.QMax());
    }
  }

  ghost predicate FitsOne(kind: Kind, group: Group) {
    0 <= group.zp <= kind.QMax() && |group.q| == GROUP && InRange(group.q, kind.QMax())
  }

  ghost predicate Rounds(kind: Kind, x: seq<real>, group: Group) {
    && FitsOne(kind, group) && |x| == GROUP
    && forall lo, hi :: Bounds(x, |x|, lo, hi) ==> Faithful(x, lo, hi, group.scale, group.zp, group.q, kind.QMax())
  }

  lemma AllFit(kind: Kind, x: seq<real>, gs: seq<Group>)
    requires |x| == 256 && |gs| == 4 && forall h: nat :: h < 4 ==> Rounds(kind, Part(x, h), gs[h])
    ensures Fits(kind, gs)
  {
    forall g | 0 <= g < 4 ensures FitsOne(kind, gs[g]) {
      assert Rounds(kind, Part(x, g), gs[g]);
    }
  }

  method RoundPart(kind: Kind, x: seq<real>) returns (group: Group)
    requires |x| == GROUP
    ensures Rounds(kind, x, group)
  {
    var scale, zp, q := RoundGroup(x, kind.QMax());
    group := Group(scale, zp, q[..]);
  }

  /** The weighted squared error of decoded values. */
  function Loss(x: seq<real>, w: seq<real>, y: seq<real>, n: nat): real
    requires n <= |x| && n <= |w| && n <= |y|
  {
    if n == 0 then 0.0 else Loss(x, w, y, n - 1) + Weight(w[n - 1]) * Square(x[n - 1] - y[n - 1])
  }

  lemma {:induction false} LossIsErr(x: seq<real>, w: seq<real>, group: Group, y: seq<real>, n: nat)
    requires |x| == |w| == |y| && n <= |x| && DecodesTo(group, y)
    ensures Loss(x, w, y, n) == Err(x, w, group.q, group.zp, group.scale, n)
  {
    hide Deq, Square, Weight;
    if n > 0 { LossIsErr(x, w, group, y, n - 1); }
  }

  /** No zero-point and no codes at the scale of any of the rounds lose less. */
  ghost predicate LosesLeast(x: seq<real>, w: seq<real>, y: seq<real>, qmax: int)
    requires |x| == |w| == |y| && qmax > 0
  {
    forall lo, hi :: Bounds(x, |x|, lo, hi) ==>
      InitScale(lo, hi, qmax) > 0.0 && LosesLeastFrom(x, w, y, InitScale(lo, hi, qmax), qmax)
  }

  ghost predicate LosesLeastFrom(x: seq<real>, w: seq<real>, y: seq<real>, from: real, qmax: int)
    requires |x| == |w| == |y| && qmax > 0 && from > 0.0
  {
    forall z, k: nat :: 0 <= z <= qmax && k < ROUNDS ==> LosesNoMore(x, w, y, from, z, k, qmax)
  }

  /** Codes for the zero-point z at the scale of round k lose at least as much. */
  ghost predicate LosesNoMore(x: seq<real>, w: seq<real>, y: seq<real>, from: real, z: int, k: nat, qmax: int)
    requires |x| == |w| == |y| && qmax > 0 && from > 0.0
  {
    forall c: seq<int> :: |c| == |x| && InRange(c, qmax) ==>
      Loss(x, w, y, |x|) <= Err(x, w, c, z, ScaleAfter(x, w, from, z, qmax, k), |x|)
  }

  /** No zero-point and no codes at the scale of any of the rounds do better. */
  ghost predicate Beats(x: seq<real>, w: seq<real>, group: Group, from: real, qmax: int)
    requires |x| == |w| == |group.q| && qmax > 0 && from > 0.0
  {
    forall z, k: nat :: 0 <= z <= qmax && k < ROUNDS ==>
      AtLeastAsGood(x, w, group.q, group.zp, group.scale, z, ScaleAfter(x, w, from, z, qmax, k), qmax)
  }

  ghost predicate Picks(kind: Kind, x: seq<real>, w: seq<real>, group: Group) {
    && FitsOne(kind, group) && |x| == |w| == GROUP
    && if WeightSum(w, |w|) > EPS then
         forall lo, hi :: Bounds(x, |x|, lo, hi) ==>
           InitScale(lo, hi, kind.QMax()) > 0.0 && Beats(x, w, group, InitScale(lo, hi, kind.QMax()), kind.QMax())
       else Rounds(kind, x, group)
  }

  /** One group of the weighted writers: without weights to go by it is rounded. */
  method PickPart(kind: Kind, x: seq<real>, w: seq<real>) returns (group: Group)
    requires |x| == |w| == GROUP
    ensures Picks(kind, x, w, group)
  {
    var ok, scale, zp, q := PickGroup(x, Weights(w), kind.QMax());
    if ok {
      group := Group(scale, zp, q);
    } else {
      group := RoundPart(kind, x);
    }
  }

  lemma BeatsLoses(x: seq<real>, w: seq<real>, group: Group, y: seq<real>, from: real, qmax: int)
    requires |x| == |w| == |group.q| == |y| && qmax > 0 && from > 0.0 && Beats(x, w, group, from, qmax)
    requires Loss(x, w, y, |x|) == Err(x, w, group.q, group.zp, group.scale, |x|)
    ensures LosesLeastFrom(x, w, y, from, qmax)
  {
    hide Err, Loss, InRange, ScaleAfter;
    forall z, k: nat | 0 <= z <= qmax && k < ROUNDS ensures LosesNoMore(x, w, y, from, z, k, qmax) {
      assert AtLeastAsGood(x, w, group.q, group.zp, group.scale, z, ScaleAfter(x, w, from, z, qmax, k), qmax);
    }
  }

  lemma PicksLeast(kind: Kind, x: seq<real>, w: seq<real>, group: Group, y: seq<real>)
    requires Picks(kind, x, w, group) && |y| == |x| && DecodesTo(group, y)
    ensures if WeightSum(w, |w|) > EPS then LosesLeast(x, w, y, kind.QMax()) else Back(x, y, kind.QMax())
  {
    if WeightSum(w, |w|) > EPS {
      LossIsErr(x, w, group, y, |x|);
      hide Beats, LosesLeastFrom, Loss, Err, DecodesTo, FitsOne;
      forall lo, hi | Bounds(x, |x|, lo, hi)
        ensures InitScale(lo, hi, kind.QMax()) > 0.0
        ensures LosesLeastFrom(x, w, y, InitScale(lo, hi, kind.QMax()), kind.QMax())
      {
        BeatsLoses(x, w, group, y, InitScale(lo, hi, kind.QMax()), kind.QMax());
      }
    } else {
      FaithfulBack(x, group, y, kind.QMax());
    }
  }

  /** ds4q_write_q3_k_block_asym_g64_weighted or its two-bit twin, and what the engine reads of it. */
  method WeightedBlock(kind: Kind, x: seq<real>, w: seq<real>) returns (y: array<real>)
    requires |x| == |w| == 256
    ensures fresh(y) && y.Length == 256
    ensures forall g: nat :: g < 4 ==>
      if WeightSum(Part(w, g), GROUP) > EPS then LosesLeast(Part(x, g), Part(w, g), Part(y[..], g), kind.QMax())
      else Back(Part(x, g), Part(y[..], g), kind.QMax())
  {
    var gs: seq<Group> := [];
    for g := 0 to 4
      invariant |gs| == g
      invariant forall h: nat :: h < g ==> Picks(kind, Part(x, h), Part(w, h), gs[h])
    {
      hide *;
      var group := PickPart(kind, Part(x, g), Part(w, g));
      gs := gs + [group];
    }
    forall g | 0 <= g < 4 ensures FitsOne(kind, gs[g]) {
      assert Picks(kind, Part(x, g), Part(w, g), gs[g]);
    }
    y := WriteAndDecode(kind, gs);
    forall g: nat | g < 4
      ensures
        if WeightSum(Part(w, g), GROUP) > EPS then LosesLeast(Part(x, g), Part(w, g), Part(y[..], g), kind.QMax())
        else Back(Part(x, g), Part(y[..], g), kind.QMax()) {
      PicksLeast(kind, Part(x, g), Part(w, g), gs[g], Part(y[..], g));
    }
  }
}
