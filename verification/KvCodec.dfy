/** Cache rows as signed bytes with one scale for every group of elements, over the reals. */
module KvCodec {
  import opened Basics
  import opened Rounding

  /** A float as the encoder sees it: infinities and NaN are stored as zero. */
  datatype Float = Finite(v: real) | NotFinite

  function Val(f: Float): real {
    if f.Finite? then f.v else 0.0
  }

  function Vals(src: seq<Float>): (v: seq<real>)
    ensures |v| == |src| && forall i :: 0 <= i < |src| ==> v[i] == Val(src[i])
  {
    seq(|src|, i requires 0 <= i < |src| => Val(src[i]))
  }

  /** The largest magnitude of v[a..b]. */
  function MaxAbs(v: seq<real>, a: nat, b: nat): (m: real)
    requires a <= b <= |v|
    ensures m >= 0.0 && forall i :: a <= i < b ==> Abs(v[i]) <= m
    ensures m > 0.0 ==> exists i :: a <= i < b && Abs(v[i]) == m
    decreases b - a
  {
    if a == b then 0.0 else
      var rest := MaxAbs(v, a, b - 1);
      if Abs(v[b - 1]) > rest then Abs(v[b - 1]) else rest
  }

  function ScaleOf(m: real): real {
    if m > 0.0 then m / 127.0 else 1.0
  }

  /** Where group g begins: g * group. */
  function Start(g: nat, group: nat): nat {
    if g == 0 then 0 else Start(g - 1, group) + group
  }

  lemma {:induction false} StartIs(g: nat, group: nat)
    ensures Start(g, group) == g * group
  {
    if g > 0 {
      StartIs(g - 1, group);
      assert g * group == (g - 1) * group + group;
    }
  }

  function End(g: nat, group: nat, elems: nat): (e: nat)
    ensures e <= elems
  {
    if Start(g, group) + group > elems then elems else Start(g, group) + group
  }

  lemma {:induction false} StartGrows(g: nat, h: nat, group: nat)
    requires g <= h
    ensures Start(g, group) <= Start(h, group)
  {
    if g < h { StartGrows(g, h - 1, group); }
  }

  /** Every group begins inside the row, and the last one reaches its end. */
  lemma GroupInside(g: nat, group: nat, elems: nat)
    requires group > 0
    ensures g < Groups(elems, group) <==> Start(g, group) < elems
  {
    StartIs(g, group);
    Rounded(g, group, elems);
  }

  lemma Rounded(g: nat, group: nat, elems: nat)
    requires group > 0
    ensures g < (elems + group - 1) / group <==> g * group < elems
  {
    var n := (elems + group - 1) / group;
    assert elems + group - 1 == n * group + (elems + group - 1) % group;
    if g < n {
      Times(g + 1, n, group);
    } else {
      Times(n, g, group);
    }
  }

  lemma Times(a: nat, b: nat, k: nat)
    requires a <= b
    ensures a * k <= b * k
  {
  }

  lemma Bounds(g: nat, group: nat, elems: nat)
    requires group > 0 && g < Groups(elems, group)
    ensures g * group == Start(g, group) <= elems
    ensures End(g, group, elems) == if g * group + group > elems then elems else g * group + group
  {
    GroupInside(g, group, elems);
    StartIs(g, group);
  }

  predicate InGroup(g: nat, i: nat, group: nat, elems: nat) {
    g < Groups(elems, group) && Start(g, group) <= i < End(g, group, elems)
  }

  /** Every element is in a group. */
  lemma GroupOf(i: nat, group: nat, elems: nat) returns (g: nat)
    requires group > 0 && i < elems
    ensures InGroup(g, i, group, elems)
  {
    g := i / group;
    StartIs(g, group);
    GroupInside(g, group, elems);
  }

  function GroupMax(v: seq<real>, group: nat, g: nat): real
    requires Start(g, group) <= |v|
  {
    MaxAbs(v, Start(g, group), End(g, group, |v|))
  }

  function Clamp(k: int): int {
    if k > 127 then 127 else if k < -127 then -127 else k
  }

  function Code(v: real, scale: real): int
    requires scale > 0.0
  {
    Clamp(Nearest(v / scale))
  }

  function Value(k: int, scale: real): real {
    Prod(k as real, scale)
  }

  /** What a row becomes: a scale for every group and a signed byte for every element. */
  datatype Row = Row(scales: seq<real>, codes: seq<int>)

  ghost predicate Shaped(r: Row, elems: nat, group: nat) {
    group > 0 && |r.scales| == Groups(elems, group) && |r.codes| == elems
  }

  ghost predicate Encodes(r: Row, v: seq<real>, group: nat) {
    Shaped(r, |v|, group) && forall g: nat :: g < |r.scales| ==> EncodesGroup(r, v, group, g, r.scales[g])
  }

  /** Group g has its scale and the codes that go with it. */
  ghost predicate EncodesGroup(r: Row, v: seq<real>, group: nat, g: nat, scale: real) {
    && |r.codes| == |v| && Start(g, group) <= |v| && scale == ScaleOf(GroupMax(v, group, g))
    && Coded(r.codes, v, Start(g, group), End(g, group, |v|), scale)
  }

  ghost predicate Coded(codes: seq<int>, v: seq<real>, from: nat, to: nat, scale: real)
    requires to <= |v| == |codes|
  {
    forall i :: from <= i < to ==> scale > 0.0 && codes[i] == Code(v[i], scale)
  }

  ghost predicate Decodes(v: seq<real>, r: Row, group: nat) {
    Shaped(r, |v|, group) && forall g: nat :: g < |r.scales| ==>
      Scaled(v, r.codes, Start(g, group), End(g, group, |v|), r.scales[g])
  }

  ghost predicate Scaled(v: seq<real>, codes: seq<int>, from: nat, to: nat, scale: real)
    requires to <= |v| == |codes|
  {
    forall i :: from <= i < to ==> v[i] == Value(codes[i], scale)
  }

  /** payload_encode_kv_row_i8_grouped. */
  method EncodeRow(src: array<Float>, group: nat, scales: array<real>, q: array<int>)
    requires group > 0 && scales.Length == Groups(src.Length, group) && q.Length == src.Length
    modifies scales, q
    ensures Encodes(Row(scales[..], q[..]), Vals(src[..]), group)
    ensures Row(scales[..], q[..]) == EncodeOf(Vals(src[..]), group)
  {
    ghost var v := Vals(src[..]);
    hide Groups, GroupMax, EncodesGroup;
    var elems := src.Length;
    var g := 0;
    while g < scales.Length
      invariant 0 <= g <= scales.Length
      invariant forall h: nat :: h < g ==> EncodesGroup(Row(scales[..], q[..]), v, group, h, scales[h])
    {
      hide *;
      Bounds(g, group, elems);
      ghost var was := Row(scales[..], q[..]);
      var begin := g * group;
      var end := if begin + group > elems then elems else begin + group;
      var maxAbs := LargestIn(src, begin, end);
      var scale := if maxAbs > 0.0 then maxAbs / 127.0 else 1.0;
      ScaleIs(maxAbs, scale);
      scales[g] := scale;
      EncodeGroup(src, begin, end, scale, q);
      NowEncoded(Row(scales[..], q[..]), v, group, g);
      OthersStay(was, Row(scales[..], q[..]), v, group, g);
      g := g + 1;
    }
    EncodedOnce(v, Row(scales[..], q[..]), group);
  }

  method LargestIn(src: array<Float>, begin: nat, end: nat) returns (maxAbs: real)
    requires begin <= end <= src.Length
    ensures maxAbs == MaxAbs(Vals(src[..]), begin, end)
  {
    maxAbs := 0.0;
    var i := begin;
    while i < end
      invariant begin <= i <= end
      invariant maxAbs == MaxAbs(Vals(src[..]), begin, i)
    {
      if src[i].Finite? && Abs(src[i].v) > maxAbs { maxAbs := Abs(src[i].v); }
      i := i + 1;
    }
  }

  method EncodeGroup(src: array<Float>, begin: nat, end: nat, scale: real, q: array<int>)
    requires begin <= end <= src.Length == q.Length && scale > 0.0
    modifies q
    ensures Coded(q[..], Vals(src[..]), begin, end, scale)
    ensures forall i :: 0 <= i < q.Length && !(begin <= i < end) ==> q[i] == old(q[i])
  {
    var i := begin;
    while i < end
      invariant begin <= i <= end
      invariant Coded(q[..], Vals(src[..]), begin, i, scale)
      invariant forall i :: 0 <= i < q.Length && !(begin <= i < end) ==> q[i] == old(q[i])
    {
      var x := if src[i].Finite? then src[i].v else 0.0;
      var qi := Nearest(x / scale);
      if qi > 127 { qi := 127; }
      if qi < -127 { qi := -127; }
      q[i] := qi;
      i := i + 1;
    }
  }

  lemma ScaleIs(m: real, s: real)
    requires s == (if m > 0.0 then m / 127.0 else 1.0)
    ensures s == ScaleOf(m) > 0.0
  {
  }

  lemma NowEncoded(r: Row, v: seq<real>, group: nat, g: nat)
    requires |r.codes| == |v| && Start(g, group) <= |v| && g < |r.scales|
    requires r.scales[g] == ScaleOf(MaxAbs(v, Start(g, group), End(g, group, |v|)))
    requires Coded(r.codes, v, Start(g, group), End(g, group, |v|), r.scales[g])
    ensures EncodesGroup(r, v, group, g, r.scales[g])
  {
  }

  lemma OthersStay(was: Row, now: Row, v: seq<real>, group: nat, g: nat)
    requires |was.scales| == |now.scales| && |was.codes| == |now.codes| == |v| && g < |now.scales|
    requires now.scales == was.scales[g := now.scales[g]]
    requires forall i :: 0 <= i < |v| && !(Start(g, group) <= i < End(g, group, |v|)) ==> now.codes[i] == was.codes[i]
    ensures forall h: nat :: h < g && EncodesGroup(was, v, group, h, was.scales[h]) ==>
      EncodesGroup(now, v, group, h, now.scales[h])
  {
    hide ScaleOf, Code;
    forall h: nat | h < g && EncodesGroup(was, v, group, h, was.scales[h])
      ensures EncodesGroup(now, v, group, h, now.scales[h])
    {
      StartGrows(h + 1, g, group);
      assert Coded(now.codes, v, Start(h, group), End(h, group, |v|), now.scales[h]);
    }
  }

  /** payload_decode_kv_row_i8_grouped. */
  method DecodeRow(scales: array<real>, q: array<int>, group: nat, dst: array<real>)
    requires group > 0 && scales.Length == Groups(dst.Length, group) && q.Length == dst.Length
    requires dst != scales
    modifies dst
    ensures Decodes(dst[..], Row(scales[..], q[..]), group)
    ensures dst[..] == DecodeOf(Row(scales[..], q[..]), group)
  {
    hide Groups;
    var elems := dst.Length;
    var g := 0;
    while g < scales.Length
      invariant 0 <= g <= scales.Length
      invariant DecodedTo(dst[..], q[..], scales[..], group, g)
    {
      hide *;
      Bounds(g, group, elems);
      ghost var was := dst[..];
      var begin := g * group;
      var end := if begin + group > elems then elems else begin + group;
      DecodeGroup(q, begin, end, scales[g], dst);
      DecodedMore(was, dst[..], q[..], scales[..], group, g);
      g := g + 1;
    }
    DecodedOnce(dst[..], Row(scales[..], q[..]), group);
  }

  /** The groups up to n are decoded. */
  ghost predicate DecodedTo(v: seq<real>, codes: seq<int>, scales: seq<real>, group: nat, n: nat) {
    |v| == |codes| && n <= |scales| && forall h: nat :: h < n ==>
      Scaled(v, codes, Start(h, group), End(h, group, |v|), scales[h])
  }

  lemma DecodedMore(was: seq<real>, now: seq<real>, codes: seq<int>, scales: seq<real>, group: nat, g: nat)
    requires |was| == |now| && g < |scales| && DecodedTo(was, codes, scales, group, g)
    requires forall i :: 0 <= i < |now| && !(Start(g, group) <= i < End(g, group, |now|)) ==> now[i] == was[i]
    requires Scaled(now, codes, Start(g, group), End(g, group, |now|), scales[g])
    ensures DecodedTo(now, codes, scales, group, g + 1)
  {
    hide Value;
    forall h: nat | h < g ensures Scaled(now, codes, Start(h, group), End(h, group, |now|), scales[h]) {
      StartGrows(h + 1, g, group);
      assert Scaled(was, codes, Start(h, group), End(h, group, |now|), scales[h]);
    }
  }

  method DecodeGroup(q: array<int>, begin: nat, end: nat, scale: real, dst: array<real>)
    requires begin <= end <= dst.Length == q.Length
    modifies dst
    ensures Scaled(dst[..], q[..], begin, end, scale)
    ensures forall i :: 0 <= i < dst.Length && !(begin <= i < end) ==> dst[i] == old(dst[i])
  {
    var i := begin;
    while i < end
      invariant begin <= i <= end
      invariant Scaled(dst[..], q[..], begin, i, scale)
      invariant forall i :: 0 <= i < dst.Length && !(begin <= i < end) ==> dst[i] == old(dst[i])
    {
      dst[i] := q[i] as real * scale;
      i := i + 1;
    }
  }

  /** A value no larger than the group's largest is stored within half a step, without clamping. */
  lemma CodeClose(v: real, m: real)
    requires Abs(v) <= m
    ensures Code(v, ScaleOf(m)) == Nearest(v / ScaleOf(m))
    ensures Abs(v - Value(Code(v, ScaleOf(m)), ScaleOf(m))) <= m / 254.0
  {
    if m > 0.0 {
      Quotient(v, m);
      RoundedClose(v, m / 127.0);
    } else {
      NearestOfInt(0);
    }
    hide Nearest;
  }

  lemma RoundedClose(v: real, s: real)
    requires s > 0.0 && -127.0 <= v / s <= 127.0
    ensures Code(v, s) == Nearest(v / s) && Abs(v - Value(Nearest(v / s), s)) <= s / 2.0
  {
    var x := v / s;
    NearestBetween(x, -127, 127);
    NearestClose(x);
    hide Nearest;
    FromSteps(v, s, x, Nearest(x));
  }

  /** A value within half of k steps is within half a step of what k stands for. */
  lemma FromSteps(v: real, s: real, x: real, k: int)
    requires s > 0.0 && x == v / s && Abs(x - k as real) <= 0.5
    ensures Abs(v - Value(k, s)) <= s / 2.0
  {
    hide Prod;
    Cancel(v, s);
    ProdMinus(x, k as real, s);
    ProdHalf(x - k as real, s);
  }

  lemma Quotient(v: real, m: real)
    requires m > 0.0 && Abs(v) <= m
    ensures -127.0 <= v / (m / 127.0) <= 127.0
  {
    var s := m / 127.0;
    assert 127.0 * s == m;
    var q := v / s;
    assert q * s == v;
    Larger(q, 127.0, s);
    Larger(-127.0, q, s);
  }

  lemma Larger(q: real, k: real, s: real)
    requires s > 0.0
    ensures q > k ==> q * s > k * s
  {
  }

  lemma CodeBounded(v: real, scale: real)
    requires scale > 0.0
    ensures -127 <= Code(v, scale) <= 127
  {
  }

  /** A decoded element is within max/254 of the original, where max is the largest of its group. */
  lemma WithinHalfStep(v: seq<real>, r: Row, back: seq<real>, group: nat, g: nat, i: nat)
    requires Encodes(r, v, group) && Decodes(back, r, group)
    requires InGroup(g, i, group, |v|)
    ensures |back| == |v| && Abs(v[i] - back[i]) <= GroupMax(v, group, g) / 254.0
  {
    assert EncodesGroup(r, v, group, g, r.scales[g]) &&
      Scaled(back, r.codes, Start(g, group), End(g, group, |v|), r.scales[g]);
    CodeClose(v[i], GroupMax(v, group, g));
    hide Code, Value, ScaleOf, GroupMax;
  }

  /** Encoding what was decoded gives the same scales and the same codes again. */
  lemma EncodingAgain(v: seq<real>, r: Row, back: seq<real>, again: Row, group: nat)
    requires Encodes(r, v, group) && Decodes(back, r, group) && Encodes(again, back, group)
    ensures again == r
  {
    hide Code, Value, ScaleOf, GroupMax, Groups;
    forall g: nat | g < |r.scales| ensures again.scales[g] == r.scales[g] {
      SameMax(v, r, back, group, g);
      assert EncodesGroup(r, v, group, g, r.scales[g]) && EncodesGroup(again, back, group, g, again.scales[g]);
    }
    forall i: nat | i < |v| ensures again.codes[i] == r.codes[i] {
      var g := GroupOf(i, group, |v|);
      assert EncodesGroup(r, v, group, g, r.scales[g]) && EncodesGroup(again, back, group, g, again.scales[g]);
      assert Scaled(back, r.codes, Start(g, group), End(g, group, |v|), r.scales[g]);
      CodeBounded(v[i], r.scales[g]);
      SameCode(r.codes[i], r.scales[g]);
    }
  }

  lemma SameCode(k: int, s: real)
    requires s > 0.0 && -127 <= k <= 127
    ensures Code(Value(k, s), s) == k
  {
    hide Prod, Nearest;
    CancelBack(k as real, s);
    NearestOfInt(k);
  }

  /** The largest element of a group comes back as it was, and no other comes back larger. */
  lemma SameMax(v: seq<real>, r: Row, back: seq<real>, group: nat, g: nat)
    requires Encodes(r, v, group) && Decodes(back, r, group) && g < |r.scales|
    ensures Start(g, group) <= |v| == |back| && GroupMax(back, group, g) == GroupMax(v, group, g)
  {
    var s := r.scales[g];
    assert EncodesGroup(r, v, group, g, s);
    var m, a, b := GroupMax(v, group, g), Start(g, group), End(g, group, |v|);
    var n := GroupMax(back, group, g);
    assert Scaled(back, r.codes, a, b, s);
    forall i | a <= i < b ensures Abs(back[i]) <= m && (Abs(v[i]) == m ==> Abs(back[i]) == m) {
      MagnitudeKept(v[i], m);
    }
    assert n > 0.0 ==> exists i :: a <= i < b && Abs(back[i]) == n;
    assert m > 0.0 ==> exists i :: a <= i < b && Abs(v[i]) == m;
    hide Code, Value, ScaleOf, GroupMax;
  }

  lemma MagnitudeKept(v: real, m: real)
    requires Abs(v) <= m
    ensures Abs(Value(Code(v, ScaleOf(m)), ScaleOf(m))) <= m
    ensures Abs(v) == m ==> Abs(Value(Code(v, ScaleOf(m)), ScaleOf(m))) == m
  {
    if m > 0.0 {
      var s := ScaleOf(m);
      CodeBounded(v, s);
      InRange(Code(v, s), s);
      AtTheEnds(v, m, s);
      assert 127.0 * s == m;
    } else {
      NearestOfInt(0);
    }
  }

  lemma InRange(k: int, s: real)
    requires s > 0.0 && -127 <= k <= 127
    ensures Abs(Value(k, s)) <= 127.0 * s
  {
    var x := k as real;
    NotLarger(x, 127.0, s);
    NotLarger(-127.0, x, s);
    assert -127.0 * s <= x * s <= 127.0 * s;
    assert Value(k, s) == x * s;
  }

  lemma NotLarger(q: real, k: real, s: real)
    requires s > 0.0 && q <= k
    ensures q * s <= k * s
  {
  }

  lemma AtTheEnds(v: real, m: real, s: real)
    requires m > 0.0 && s == m / 127.0
    ensures v == m ==> Code(v, s) == 127
    ensures v == -m ==> Code(v, s) == -127
  {
    assert Value(127, s) == m && Value(-127, s) == -m;
    SameCode(127, s);
    SameCode(-127, s);
  }

  /** The encoded row as a function: what EncodeRow writes. */
  function EncodeOf(v: seq<real>, group: nat): (r: Row)
    requires group > 0
    ensures Shaped(r, |v|, group)
  {
    Row(seq(Groups(|v|, group), g requires 0 <= g < Groups(|v|, group) => ScaleAt(v, group, g)),
        seq(|v|, i requires 0 <= i < |v| => CodeIn(v, group, i)))
  }

  function ScaleAt(v: seq<real>, group: nat, g: nat): (s: real)
    ensures s > 0.0
  {
    if Start(g, group) <= |v| then ScaleOf(GroupMax(v, group, g)) else 1.0
  }

  function CodeIn(v: seq<real>, group: nat, i: nat): int
    requires group > 0 && i < |v|
  {
    Code(v[i], ScaleAt(v, group, i / group))
  }

  function DecodeOf(r: Row, group: nat): (v: seq<real>)
    requires group > 0
    ensures |v| == |r.codes|
  {
    seq(|r.codes|, i requires 0 <= i < |r.codes| =>
      Value(r.codes[i], if i / group < |r.scales| then r.scales[i / group] else 1.0))
  }

  lemma GroupIndex(i: nat, g: nat, group: nat)
    requires group > 0 && Start(g, group) <= i < Start(g, group) + group
    ensures i / group == g
  {
    StartIs(g, group);
    SameQuotient(i, g, group);
  }

  lemma SameQuotient(i: nat, g: nat, k: nat)
    requires k > 0 && g * k <= i < g * k + k
    ensures i / k == g
  {
    var q := i / k;
    assert i == q * k + i % k;
    if q < g { Times(q + 1, g, k); } else if g < q { Times(g + 1, q, k); }
  }

  lemma EncodeOfEncodes(v: seq<real>, group: nat)
    requires group > 0
    ensures Encodes(EncodeOf(v, group), v, group)
  {
    var r := EncodeOf(v, group);
    hide Code, ScaleOf, Groups, GroupMax;
    forall g: nat | g < |r.scales| ensures EncodesGroup(r, v, group, g, r.scales[g]) {
      GroupInside(g, group, |v|);
      forall i | Start(g, group) <= i < End(g, group, |v|) ensures r.codes[i] == Code(v[i], r.scales[g]) {
        GroupIndex(i, g, group);
      }
    }
  }

  lemma DecodeOfDecodes(r: Row, elems: nat, group: nat)
    requires Shaped(r, elems, group)
    ensures Decodes(DecodeOf(r, group), r, group)
  {
    var v := DecodeOf(r, group);
    hide Value, Groups;
    forall g: nat | g < |r.scales| ensures Scaled(v, r.codes, Start(g, group), End(g, group, |v|), r.scales[g]) {
      forall i | Start(g, group) <= i < End(g, group, |v|) ensures v[i] == Value(r.codes[i], r.scales[g]) {
        GroupIndex(i, g, group);
      }
    }
  }

  /** A row has one encoded form. */
  lemma EncodedOnce(v: seq<real>, r: Row, group: nat)
    requires Encodes(r, v, group)
    ensures r == EncodeOf(v, group)
  {
    var e := EncodeOf(v, group);
    EncodeOfEncodes(v, group);
    hide Code, ScaleOf, GroupMax, Groups, EncodeOf;
    forall g: nat | g < |r.scales| ensures r.scales[g] == e.scales[g] {
      assert EncodesGroup(r, v, group, g, r.scales[g]) && EncodesGroup(e, v, group, g, e.scales[g]);
    }
    forall i: nat | i < |v| ensures r.codes[i] == e.codes[i] {
      var g := GroupOf(i, group, |v|);
      assert EncodesGroup(r, v, group, g, r.scales[g]) && EncodesGroup(e, v, group, g, e.scales[g]);
    }
  }

  lemma DecodedOnce(v: seq<real>, r: Row, group: nat)
    requires Decodes(v, r, group)
    ensures v == DecodeOf(r, group)
  {
    var d := DecodeOf(r, group);
    DecodeOfDecodes(r, |v|, group);
    hide Value, Groups, DecodeOf;
    forall i: nat | i < |v| ensures v[i] == d[i] {
      var g := GroupOf(i, group, |v|);
      assert Scaled(v, r.codes, Start(g, group), End(g, group, |v|), r.scales[g]);
      assert Scaled(d, r.codes, Start(g, group), End(g, group, |v|), r.scales[g]);
    }
  }

  lemma CodesInRange(v: seq<real>, group: nat)
    requires group > 0
    ensures forall i :: 0 <= i < |v| ==> -127 <= EncodeOf(v, group).codes[i] <= 127
  {
  }
}
