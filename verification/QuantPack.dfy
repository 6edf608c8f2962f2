/** Three-bit and two-bit codes in bytes: shifting and masking on 8-bit words. */
module CodeWords {
  /** A small number as a word, for shift counts. */
  function WordOf(i: nat): (w: bv8)
    requires i < 8
    ensures w < 8
  {
    if i < 4 then (if i < 2 then (if i == 0 then 0 else 1) else if i == 2 then 2 else 3)
    else (if i < 6 then (if i == 4 then 4 else 5) else if i == 6 then 6 else 7)
  }

  function IntOf(w: bv8): (i: nat)
    ensures i < 8
  {
    if w == 0 then 0 else if w == 1 then 1 else if w == 2 then 2 else if w == 3 then 3
    else if w == 4 then 4 else if w == 5 then 5 else if w == 6 then 6 else 7
  }

  lemma WordOfInt(i: nat)
    requires i < 8
    ensures IntOf(WordOf(i)) == i && WordOf(i) & 7 == WordOf(i)
    ensures i < 4 ==> WordOf(i) < 4 && WordOf(i) & 3 == WordOf(i)
  {
  }

  lemma WordOrder(i: nat, j: nat)
    requires i < 8 && j < 8
    ensures WordOf(i) < WordOf(j) <==> i < j
    ensures WordOf(i) <= WordOf(j) <==> i <= j
    ensures i + 3 <= j ==> WordOf(i) + 3 <= WordOf(j)
    ensures i + 3 == j ==> WordOf(j) == WordOf(i) + 3
    ensures i > 5 && i <= j + 5 ==> WordOf(i) <= WordOf(j) + 5
    ensures i > 5 && j + 5 == i ==> WordOf(j) == WordOf(i) - 5
    ensures WordOf(i) > 5 <==> i > 5
  {
  }

  /** The three bits from s on of byte b, and of the byte c after it if they run over. */
  function Take3(b: bv8, c: bv8, s: bv8): bv8
    requires s < 8
  {
    (if s > 5 then (b >> s) | (c << (8 - s)) else b >> s) & 7
  }

  function Put(b: bv8, q: bv8, s: bv8): bv8
    requires s < 8
  {
    b | (q << s)
  }

  function Spill(c: bv8, q: bv8, s: bv8): bv8
    requires 0 < s < 8
  {
    c | (q >> (8 - s))
  }

  lemma OwnBits(b: bv8, q: bv8, s: bv8)
    requires s < 8 && q < 8 && b >> s == 0
    ensures s <= 5 ==> forall c :: Take3(Put(b, q, s), c, s) == q
    ensures s > 5 ==> Take3(Put(b, q, s), Spill(0, q, s), s) == q
  {
  }

  lemma LowerBits(b: bv8, q: bv8, s: bv8, t: bv8, c: bv8, d: bv8)
    requires s < 8 && t < 8 && t + 3 <= s
    ensures Take3(Put(b, q, s), c, t) == Take3(b, d, t)
  {
  }

  lemma SpilledBits(a: bv8, b: bv8, q: bv8, s: bv8, t: bv8)
    requires s < 8 && 5 < t < 8 && t <= s + 5
    ensures Take3(a, Put(b, q, s), t) == Take3(a, b, t)
  {
  }

  lemma ClearAbove(b: bv8, q: bv8, s: bv8)
    requires s < 8 && q < 8 && b >> s == 0
    ensures s < 5 ==> Put(b, q, s) >> (s + 3) == 0
    ensures s > 5 ==> Spill(0, q, s) >> (s - 5) == 0
  {
  }

  function Take2(b: bv8, s: bv8): bv8
    requires s < 8
  {
    (b >> s) & 3
  }

  lemma TwoBits(b: bv8, q: bv8, s: bv8, t: bv8)
    requires s < 7 && t < 8 && q < 4 && b >> s == 0
    ensures Take2(Put(b, q, s), s) == q
    ensures t + 2 <= s ==> Take2(Put(b, q, s), t) == Take2(b, t)
    ensures s < 6 ==> Put(b, q, s) >> (s + 2) == 0
  {
  }
}

/** The packed payload of a group, written into a block and read back by the engine. */
module QuantPack {
  import opened CodeWords
  import opened Quant

  /** Byte i of the payload at off, zero past the end. */
  function ByteAt(y: seq<bv8>, i: nat): bv8 {
    if i < |y| then y[i] else 0
  }

  /** q3_get. */
  function Q3Get(p: seq<bv8>, i: nat): bv8 {
    Take3(ByteAt(p, i * 3 / 8), ByteAt(p, i * 3 / 8 + 1), WordOf(i * 3 % 8))
  }

  /** Nothing is written from bit n on. */
  ghost predicate ClearFrom(p: seq<bv8>, n: nat) {
    && (n / 8 < |p| ==> p[n / 8] >> WordOf(n % 8) == 0)
    && forall i :: n / 8 < i < |p| ==> p[i] == 0
  }

  /** The payload with one more code at bit n. */
  function Put3(p: seq<bv8>, n: nat, q: bv8): (r: seq<bv8>)
    requires n / 8 < |p| && (n % 8 > 5 ==> n / 8 + 1 < |p|)
    ensures |r| == |p|
  {
    var b, s := n / 8, n % 8;
    var r := p[b := Put(p[b], q, WordOf(s))];
    if s > 5 then (WordOrder(s, s); r[b + 1 := Spill(p[b + 1], q, WordOf(s))]) else r
  }

  lemma Bits(i: nat, k: nat)
    requires i < k
    ensures i * 3 / 8 <= k * 3 / 8
    ensures i * 3 / 8 == k * 3 / 8 ==> i * 3 % 8 + 3 <= k * 3 % 8
    ensures i * 3 / 8 + 1 == k * 3 / 8 && i * 3 % 8 > 5 ==> i * 3 % 8 <= k * 3 % 8 + 5
  {
  }

  lemma NextBit(n: nat)
    ensures n % 8 < 5 ==> (n + 3) / 8 == n / 8 && (n + 3) % 8 == n % 8 + 3
    ensures n % 8 >= 5 ==> (n + 3) / 8 == n / 8 + 1 && (n + 3) % 8 == n % 8 - 5
  {
  }

  lemma PutOwn(p: seq<bv8>, k: nat, q: bv8)
    requires k * 3 / 8 < |p| && (k * 3 % 8 > 5 ==> k * 3 / 8 + 1 < |p|)
    requires ClearFrom(p, k * 3) && q < 8
    ensures Q3Get(Put3(p, k * 3, q), k) == q
  {
    var b, s := k * 3 / 8, k * 3 % 8;
    WordOrder(s, s);
    OwnBits(p[b], q, WordOf(s));
    hide Take3, Put, Spill, WordOf;
  }

  lemma PutOther(p: seq<bv8>, i: nat, k: nat, q: bv8)
    requires i < k && k * 3 / 8 < |p| && (k * 3 % 8 > 5 ==> k * 3 / 8 + 1 < |p|)
    ensures Q3Get(Put3(p, k * 3, q), i) == Q3Get(p, i)
  {
    var b, s, c, t := k * 3 / 8, k * 3 % 8, i * 3 / 8, i * 3 % 8;
    Bits(i, k);
    WordOrder(t, s);
    var r := Put3(p, k * 3, q);
    hide Take3, Put, Spill, WordOf;
    if c == b {
      LowerBits(p[b], q, WordOf(s), WordOf(t), ByteAt(r, c + 1), ByteAt(p, c + 1));
    } else if c + 1 == b {
      assert r[c] == p[c];
      if t > 5 {
        SpilledBits(p[c], p[b], q, WordOf(s), WordOf(t));
      } else {
        NoSpill(p[c], p[b], r[b], WordOf(t));
      }
    }
  }

  lemma NoSpill(a: bv8, b: bv8, c: bv8, t: bv8)
    requires t <= 5
    ensures Take3(a, b, t) == Take3(a, c, t)
  {
  }

  lemma PutClear(p: seq<bv8>, n: nat, q: bv8)
    requires n / 8 < |p| && (n % 8 > 5 ==> n / 8 + 1 < |p|)
    requires ClearFrom(p, n) && q < 8
    ensures ClearFrom(Put3(p, n, q), n + 3)
  {
    var b, s := n / 8, n % 8;
    NextBit(n);
    if s < 5 { WordOrder(s, s + 3); } else if s > 5 { WordOrder(s, s - 5); }
    ClearAbove(p[b], q, WordOf(s));
    hide Take3, Put, Spill, WordOf;
  }

  const GROUP: nat := 64
  const ZP_OFF: nat := 8
  const QS_OFF: nat := 12

  /** Each code of the group is read back from the payload. */
  ghost predicate Reads3(p: seq<bv8>, q: seq<int>, n: nat) {
    n <= |q| && forall i: nat :: i < n ==> 0 <= q[i] < 8 && Q3Get(p, i) == WordOf(q[i])
  }

  /** The packing loop of ds4q_write_q3_k_block_asym_g64, for one group. */
  method PackGroup3(q: seq<int>, y: array<bv8>, off: nat)
    requires |q| == GROUP && InRange(q, 7) && off + 24 <= y.Length
    requires forall i :: off <= i < off + 24 ==> y[i] == 0
    modifies y
    ensures Reads3(y[off..off + 24], q, GROUP)
    ensures forall i :: 0 <= i < y.Length && !(off <= i < off + 24) ==> y[i] == old(y[i])
  {
    var bit, i := 0, 0;
    while i < GROUP
      invariant 0 <= i <= GROUP && bit == i * 3
      invariant ClearFrom(y[off..off + 24], bit) && Reads3(y[off..off + 24], q, i)
      invariant forall j :: 0 <= j < y.Length && !(off <= j < off + 24) ==> y[j] == old(y[j])
    {
      Inside(i);
      Packed(y[off..off + 24], q, i);
      WriteCode(q[i], y, off, bit);
      i, bit := i + 1, bit + 3;
    }
  }

  method WriteCode(q: int, y: array<bv8>, off: nat, bit: nat)
    requires 0 <= q < 8 && off + 24 <= y.Length && bit / 8 < 24 && (bit % 8 > 5 ==> bit / 8 + 1 < 24)
    modifies y
    ensures y[off..off + 24] == Put3(old(y[off..off + 24]), bit, WordOf(q))
    ensures forall j :: 0 <= j < y.Length && !(off <= j < off + 24) ==> y[j] == old(y[j])
  {
    ghost var was := y[off..off + 24];
    var byte, shift := bit / 8, bit % 8;
    hide WordOf, Put, Spill;
    y[off + byte] := Put(y[off + byte], WordOf(q), WordOf(shift));
    assert y[off..off + 24] == was[byte := Put(was[byte], WordOf(q), WordOf(shift))];
    if shift > 5 {
      WordOrder(shift, shift);
      y[off + byte + 1] := Spill(y[off + byte + 1], WordOf(q), WordOf(shift));
    }
  }

  /** 64 codes of three bits take 24 bytes, and none of them runs past the end. */
  lemma Inside(i: nat)
    requires i < GROUP
    ensures i * 3 / 8 < 24 && (i * 3 % 8 > 5 ==> i * 3 / 8 + 1 < 24)
  {
  }

  lemma Packed(p: seq<bv8>, q: seq<int>, k: nat)
    requires |p| == 24 && |q| == GROUP && InRange(q, 7) && k < GROUP
    requires ClearFrom(p, k * 3) && Reads3(p, q, k)
    requires k * 3 / 8 < 24 && (k * 3 % 8 > 5 ==> k * 3 / 8 + 1 < 24)
    ensures ClearFrom(Put3(p, k * 3, WordOf(q[k])), k * 3 + 3)
    ensures Reads3(Put3(p, k * 3, WordOf(q[k])), q, k + 1)
  {
    var w := WordOf(q[k]);
    WordOrder(q[k], q[k]);
    hide Put3, Q3Get, ClearFrom, WordOf;
    PutOwn(p, k, w);
    PutClear(p, k * 3, w);
    forall i: nat | i < k ensures Q3Get(Put3(p, k * 3, w), i) == Q3Get(p, i) {
      PutOther(p, i, k, w);
    }
  }

  /** q3_get on the payload at off. */
  method ReadCode3(y: array<bv8>, off: nat, i: nat) returns (v: bv8)
    requires off + 24 <= y.Length && i < GROUP
    ensures v == Q3Get(y[off..off + 24], i)
  {
    Inside(i);
    var bit := i * 3;
    var byte, shift := bit / 8, bit % 8;
    hide WordOf, Take3;
    WordOrder(shift, shift);
    var next := if shift > 5 then y[off + byte + 1] else 0;
    ghost var p := y[off..off + 24];
    assert ByteAt(p, byte) == y[off + byte];
    if shift <= 5 {
      NoSpill(y[off + byte], next, ByteAt(p, byte + 1), WordOf(shift));
    } else {
      assert ByteAt(p, byte + 1) == next;
    }
    v := Take3(y[off + byte], next, WordOf(shift));
  }

  /** The code read by the two-bit decoder. */
  function Q2Get(p: seq<bv8>, i: nat): bv8 {
    Take2(ByteAt(p, i / 4), WordOf(i % 4 * 2))
  }

  ghost predicate Reads2(p: seq<bv8>, q: seq<int>, n: nat) {
    n <= |q| && forall i: nat :: i < n ==> 0 <= q[i] < 4 && Q2Get(p, i) == WordOf(q[i])
  }

  ghost predicate ClearFrom2(p: seq<bv8>, k: nat) {
    && (k / 4 < |p| ==> p[k / 4] >> WordOf(k % 4 * 2) == 0)
    && forall i :: k / 4 < i < |p| ==> p[i] == 0
  }

  /** The packing loop of ds4q_write_q2_k_block_asym_g64, for one group. */
  method PackGroup2(q: seq<int>, y: array<bv8>, off: nat)
    requires |q| == GROUP && InRange(q, 3) && off + 16 <= y.Length
    requires forall i :: off <= i < off + 16 ==> y[i] == 0
    modifies y
    ensures Reads2(y[off..off + 16], q, GROUP)
    ensures forall i :: 0 <= i < y.Length && !(off <= i < off + 16) ==> y[i] == old(y[i])
  {
    var i := 0;
    while i < GROUP
      invariant 0 <= i <= GROUP
      invariant ClearFrom2(y[off..off + 16], i) && Reads2(y[off..off + 16], q, i)
      invariant forall j :: 0 <= j < y.Length && !(off <= j < off + 16) ==> y[j] == old(y[j])
    {
      ghost var p := y[off..off + 16];
      Packed2(p, q, i);
      hide *;
      var w := Put(y[off + i / 4], WordOf(q[i]), WordOf(i % 4 * 2));
      y[off + i / 4] := w;
      assert y[off..off + 16] == p[i / 4 := w];
      i := i + 1;
    }
  }

  lemma Packed2(p: seq<bv8>, q: seq<int>, k: nat)
    requires |p| == 16 && |q| == GROUP && InRange(q, 3) && k < GROUP
    requires ClearFrom2(p, k) && Reads2(p, q, k)
    ensures 0 <= q[k] < 4
    ensures var r := p[k / 4 := Put(p[k / 4], WordOf(q[k]), WordOf(k % 4 * 2))];
      ClearFrom2(r, k + 1) && Reads2(r, q, k + 1)
  {
    var b, s := p[k / 4], k % 4 * 2;
    WordOfInt(q[k]);
    var w := WordOf(q[k]);
    var r := p[k / 4 := Put(b, w, WordOf(s))];
    ShiftOrder(s);
    TwoBits(b, w, WordOf(s), 0);
    assert k % 4 < 3 ==> (k + 1) / 4 == k / 4 && (k + 1) % 4 == k % 4 + 1;
    assert k % 4 == 3 ==> (k + 1) / 4 == k / 4 + 1 && (k + 1) % 4 == 0;
    forall i: nat | i < k ensures Q2Get(r, i) == Q2Get(p, i) {
      var t := i % 4 * 2;
      assert i / 4 == k / 4 ==> i % 4 < k % 4;
      ShiftOrder(t);
      if i / 4 == k / 4 {
        ShiftsApart(t, s);
        TwoBits(b, w, WordOf(s), WordOf(t));
      }
    }
    hide Put, Take2, WordOf;
  }

  lemma ShiftOrder(s: nat)
    requires s < 7 && s % 2 == 0
    ensures WordOf(s) < 7 && (s < 6 ==> WordOf(s) < 6 && WordOf(s + 2) == WordOf(s) + 2)
  {
  }

  lemma ShiftsApart(t: nat, s: nat)
    requires t + 2 <= s < 7 && s % 2 == 0 && t % 2 == 0
    ensures WordOf(t) + 2 <= WordOf(s)
  {
  }

  method ReadCode2(y: array<bv8>, off: nat, i: nat) returns (v: bv8)
    requires off + 16 <= y.Length && i < GROUP
    ensures v == Q2Get(y[off..off + 16], i)
  {
    hide WordOf, Take2;
    v := Take2(y[off + i / 4], WordOf(i % 4 * 2));
  }
}

/** Whole blocks: four groups with their scales, zero-points and payloads. */
module QuantBlock {
  import opened CodeWords
  import opened QuantPack
  import opened Quant

  /** The two block layouts: 110 bytes with payloads of 24, and 84 bytes with payloads of 16. */
  datatype Kind = Q3 | Q2 {
    function Payload(): nat { if this.Q3? then 24 else 16 }
    function QMax(): int { if this.Q3? then 7 else 3 }
    function Size(): nat { if this.Q3? then 110 else 84 }
    function Mask(): bv8 { if this.Q3? then 7 else 3 }
    function At(g: nat): nat { QS_OFF + g * this.Payload() }
  }

  datatype Group = Group(scale: real, zp: int, q: seq<int>)

  ghost predicate Fits(kind: Kind, gs: seq<Group>) {
    |gs| == 4 && forall g :: 0 <= g < 4 ==>
      0 <= gs[g].zp <= kind.QMax() && |gs[g].q| == GROUP && InRange(gs[g].q, kind.QMax())
  }

  function Get(kind: Kind, p: seq<bv8>, i: nat): bv8 {
    if kind.Q3? then Q3Get(p, i) else Q2Get(p, i)
  }

  ghost predicate Reads(kind: Kind, p: seq<bv8>, q: seq<int>) {
    if kind.Q3? then Reads3(p, q, GROUP) else Reads2(p, q, GROUP)
  }

  /** Group g is in the block. */
  ghost predicate HasGroup(kind: Kind, y: seq<bv8>, scales: seq<real>, g: nat, group: Group) {
    && g < 4 && |y| == kind.Size() && |scales| == 4 && 0 <= group.zp <= kind.QMax()
    && scales[g] == group.scale && y[ZP_OFF + g] == WordOf(group.zp)
    && Reads(kind, y[kind.At(g)..kind.At(g) + kind.Payload()], group.q)
  }

  /** The block writers; the scales are kept beside the bytes, not in them as half floats. */
  method WriteBlock(kind: Kind, gs: seq<Group>, y: array<bv8>, scales: array<real>)
    requires Fits(kind, gs) && y.Length == kind.Size() && scales.Length == 4
    modifies y, scales
    ensures forall g: nat :: g < 4 ==> HasGroup(kind, y[..], scales[..], g, gs[g])
    ensures forall i :: kind.At(4) <= i < y.Length ==> y[i] == 0
  {
    forall i | 0 <= i < y.Length { y[i] := 0; }
    var g := 0;
    while g < 4
      invariant 0 <= g <= 4
      invariant forall h: nat :: h < g ==> HasGroup(kind, y[..], scales[..], h, gs[h])
      invariant forall i :: kind.At(g) <= i < y.Length ==> y[i] == 0
    {
      ghost var was, old' := y[..], scales[..];
      WriteGroup(kind, gs[g], g, y, scales);
      Others(kind, was, old', y[..], scales[..], gs, g);
      g := g + 1;
    }
  }

  method WriteGroup(kind: Kind, group: Group, g: nat, y: array<bv8>, scales: array<real>)
    requires g < 4 && y.Length == kind.Size() && scales.Length == 4
    requires 0 <= group.zp <= kind.QMax() && |group.q| == GROUP && InRange(group.q, kind.QMax())
    requires forall i :: kind.At(g) <= i < y.Length ==> y[i] == 0
    modifies y, scales
    ensures HasGroup(kind, y[..], scales[..], g, group)
    ensures scales[..] == old(scales[..])[g := group.scale]
    ensures forall i :: 0 <= i < y.Length && i != ZP_OFF + g && !(kind.At(g) <= i < kind.At(g + 1)) ==>
      y[i] == old(y[i])
  {
    hide WordOf, Q3Get, Q2Get;
    scales[g] := group.scale;
    y[ZP_OFF + g] := WordOf(group.zp);
    if kind.Q3? {
      PackGroup3(group.q, y, kind.At(g));
    } else {
      PackGroup2(group.q, y, kind.At(g));
    }
    assert y[..][kind.At(g)..kind.At(g) + kind.Payload()] == y[kind.At(g)..kind.At(g) + kind.Payload()];
  }

  /** Writing group g leaves the groups before it as they were. */
  lemma Others(kind: Kind, was: seq<bv8>, before: seq<real>, now: seq<bv8>, scales: seq<real>, gs: seq<Group>, g: nat)
    requires |was| == |now| == kind.Size() && |before| == |scales| == |gs| == 4 && g < 4
    requires scales == before[g := scales[g]]
    requires forall i :: 0 <= i < |now| && i != ZP_OFF + g && !(kind.At(g) <= i < kind.At(g + 1)) ==> now[i] == was[i]
    requires forall h: nat :: h < g ==> HasGroup(kind, was, before, h, gs[h])
    ensures forall h: nat :: h < g ==> HasGroup(kind, now, scales, h, gs[h])
  {
    forall h: nat | h < g ensures HasGroup(kind, now, scales, h, gs[h]) {
      assert HasGroup(kind, was, before, h, gs[h]);
      var a, b := kind.At(h), kind.At(h) + kind.Payload();
      assert now[a..b] == was[a..b];
      hide Reads, WordOf;
    }
  }

  function ValueAt(kind: Kind, y: seq<bv8>, scales: seq<real>, g: nat, i: nat): real
    requires |y| == kind.Size() && |scales| == 4 && g < 4
  {
    Deq(IntOf(Get(kind, y[kind.At(g)..kind.At(g) + kind.Payload()], i)), IntOf(y[ZP_OFF + g] & kind.Mask()), scales[g])
  }

  ghost predicate Decoded(kind: Kind, y: seq<bv8>, scales: seq<real>, dst: seq<real>, g: nat, n: nat)
    requires |y| == kind.Size() && |scales| == 4 && g < 4 && g * GROUP + n <= |dst|
  {
    forall i: nat {:trigger ValueAt(kind, y, scales, g, i)} :: i < n ==>
      dst[g * GROUP + i] == ValueAt(kind, y, scales, g, i)
  }

  lemma DecodedKept(kind: Kind, y: seq<bv8>, scales: seq<real>, was: seq<real>, now: seq<real>, g: nat)
    requires |y| == kind.Size() && |scales| == 4 && g < 4 && |was| == |now| == 256
    requires forall h: nat :: h < g ==> Decoded(kind, y, scales, was, h, GROUP)
    requires forall i :: 0 <= i < |now| && !(g * GROUP <= i < g * GROUP + GROUP) ==> now[i] == was[i]
    ensures forall h: nat :: h < g ==> Decoded(kind, y, scales, now, h, GROUP)
  {
    hide ValueAt;
    forall h: nat, i: nat | h < g && i < GROUP ensures now[h * GROUP + i] == ValueAt(kind, y, scales, h, i) {
      assert Decoded(kind, y, scales, was, h, GROUP);
    }
  }

  /** sf37_q3_asym_block_decode and sf37_q2_asym_block_decode. */
  method DecodeBlock(kind: Kind, y: array<bv8>, scales: array<real>, dst: array<real>)
    requires y.Length == kind.Size() && scales.Length == 4 && dst.Length == 256 && dst != scales
    modifies dst
    ensures forall g: nat :: g < 4 ==> Decoded(kind, y[..], scales[..], dst[..], g, GROUP)
  {
    hide IntOf, Get, Deq, Decoded;
    var g := 0;
    while g < 4
      invariant 0 <= g <= 4
      invariant forall h: nat :: h < g ==> Decoded(kind, y[..], scales[..], dst[..], h, GROUP)
    {
      ghost var was := dst[..];
      DecodeGroup(kind, y, scales, g, dst);
      DecodedKept(kind, y[..], scales[..], was, dst[..], g);
      g := g + 1;
    }
  }

  method DecodeGroup(kind: Kind, y: array<bv8>, scales: array<real>, g: nat, dst: array<real>)
    requires y.Length == kind.Size() && scales.Length == 4 && dst.Length == 256 && dst != scales && g < 4
    modifies dst
    ensures Decoded(kind, y[..], scales[..], dst[..], g, GROUP)
    ensures forall i :: 0 <= i < dst.Length && !(g * GROUP <= i < g * GROUP + GROUP) ==> dst[i] == old(dst[i])
  {
    hide IntOf, Q3Get, Q2Get, Deq;
    var zp := IntOf(y[ZP_OFF + g] & kind.Mask());
    var a, b := kind.At(g), kind.At(g) + kind.Payload();
    assert y[..][a..b] == y[a..b];
    var i := 0;
    while i < GROUP
      invariant 0 <= i <= GROUP && Decoded(kind, y[..], scales[..], dst[..], g, i)
      invariant forall i :: 0 <= i < dst.Length && !(g * GROUP <= i < g * GROUP + GROUP) ==> dst[i] == old(dst[i])
    {
      var v;
      if kind.Q3? {
        v := ReadCode3(y, a, i);
      } else {
        v := ReadCode2(y, a, i);
      }
      dst[g * GROUP + i] := Deq(IntOf(v), zp, scales[g]);
      i := i + 1;
    }
  }

  /** The engine decodes what the quantizer wrote: every code, less the zero-point, times the scale. */
  lemma RoundTrip(kind: Kind, y: seq<bv8>, scales: seq<real>, dst: seq<real>, g: nat, group: Group, i: nat)
    requires HasGroup(kind, y, scales, g, group) && |dst| == 256 && Decoded(kind, y, scales, dst, g, GROUP)
    requires i < GROUP && |group.q| == GROUP
    ensures dst[g * GROUP + i] == Deq(group.q[i], group.zp, group.scale)
  {
    WordOfInt(group.zp);
    hide WordOf, Q3Get, Q2Get, Deq;
    assert 0 <= group.q[i] < 8;
    WordOfInt(group.q[i]);
    assert dst[g * GROUP + i] == ValueAt(kind, y, scales, g, i);
    hide IntOf;
  }
}
