/** Disjoint bits may be joined with either of the two ors. */
module OrForms {
  lemma Choice(x: bv32, y: bv32, z: bv32)
    ensures (x & y) | (!x & z) == (x & y) ^ (!x & z)
  {
  }

  lemma Majority(x: bv32, y: bv32, z: bv32)
    ensures (x & y) | (x & z) | (y & z) == (x & y) ^ (x & z) ^ (y & z)
  {
  }
}

/** The bit operations of SHA-1 on 32-bit words, section 4.1.1 of FIPS 180-4, and the forms the code uses. */
module Sha1Words {
  import OrForms

  function Rol(v: bv32, n: bv32): bv32
    requires 0 < n < 32
  {
    (v << n) | (v >> (32 - n))
  }

  function Ch(x: bv32, y: bv32, z: bv32): bv32 {
    (x & y) ^ (!x & z)
  }

  function Parity(x: bv32, y: bv32, z: bv32): bv32 {
    x ^ y ^ z
  }

  function Maj(x: bv32, y: bv32, z: bv32): bv32 {
    (x & y) ^ (x & z) ^ (y & z)
  }

  /** Taking the union instead of the exclusive or makes no difference. */
  lemma ChForms(x: bv32, y: bv32, z: bv32)
    ensures ChUnion(x, y, z) == Ch(x, y, z)
  {
    OrForms.Choice(x, y, z);
  }

  lemma MajForms(x: bv32, y: bv32, z: bv32)
    ensures MajUnion(x, y, z) == Maj(x, y, z)
  {
    OrForms.Majority(x, y, z);
  }

  function ChUnion(x: bv32, y: bv32, z: bv32): bv32 {
    (x & y) | (!x & z)
  }

  function MajUnion(x: bv32, y: bv32, z: bv32): bv32 {
    (x & y) | (x & z) | (y & z)
  }

  function Xor4(a: bv32, b: bv32, c: bv32, d: bv32): bv32 {
    a ^ b ^ c ^ d
  }

  function Sum5(a: bv32, b: bv32, c: bv32, d: bv32, e: bv32): bv32 {
    a + b + c + d + e
  }

  function Plus(a: bv32, b: bv32): bv32 {
    a + b
  }

  function BigEndian(b0: bv8, b1: bv8, b2: bv8, b3: bv8): bv32 {
    ((b0 as bv32) << 24) | ((b1 as bv32) << 16) | ((b2 as bv32) << 8) | (b3 as bv32)
  }

  function Bytes4(w: bv32): (b: seq<bv8>)
    ensures |b| == 4
  {
    [(w >> 24) as bv8, ((w >> 16) & 0xff) as bv8, ((w >> 8) & 0xff) as bv8, (w & 0xff) as bv8]
  }
}

/** Buffered SHA-1 is the SHA-1 of everything that was put in, sections 5.1.1 and 6.1.2 of FIPS 180-4. */
module Sha1 {
  import opened Sha1Words

  const U64: nat := 0x1_0000_0000_0000_0000

  datatype Five = Five(a: bv32, b: bv32, c: bv32, d: bv32, e: bv32)

  const INITIAL: Five := Five(0x67452301, 0xefcdab89, 0x98badcfe, 0x10325476, 0xc3d2e1f0)

  /** The message schedule. */
  function W(block: seq<bv8>, t: nat): bv32
    requires |block| == 64 && t < 80
  {
    if t < 16 then BigEndian(block[4 * t], block[4 * t + 1], block[4 * t + 2], block[4 * t + 3])
    else Rol(Xor4(W(block, t - 3), W(block, t - 8), W(block, t - 14), W(block, t - 16)), 1)
  }

  function K(t: nat): bv32 {
    if t < 20 then 0x5a827999 else if t < 40 then 0x6ed9eba1 else if t < 60 then 0x8f1bbcdc else 0xca62c1d6
  }

  function F(t: nat, x: bv32, y: bv32, z: bv32): bv32 {
    if t < 20 then Ch(x, y, z) else if t < 40 then Parity(x, y, z) else if t < 60 then Maj(x, y, z) else Parity(x, y, z)
  }

  function Round(v: Five, t: nat, w: bv32): Five {
    Five(Sum5(Rol(v.a, 5), F(t, v.b, v.c, v.d), v.e, K(t), w), v.a, Rol(v.b, 30), v.c, v.d)
  }

  function Rounds(v: Five, block: seq<bv8>, n: nat): Five
    requires |block| == 64 && n <= 80
  {
    if n == 0 then v else Round(Rounds(v, block, n - 1), n - 1, W(block, n - 1))
  }

  function Compress(h: Five, block: seq<bv8>): Five
    requires |block| == 64
  {
    var v := Rounds(h, block, 80);
    Five(Plus(h.a, v.a), Plus(h.b, v.b), Plus(h.c, v.c), Plus(h.d, v.d), Plus(h.e, v.e))
  }

  /** The hash value after the whole blocks of m. */
  function Blocks(m: seq<bv8>): Five
    requires |m| % 64 == 0
    decreases |m|
  {
    if m == [] then INITIAL else Compress(Blocks(m[..|m| - 64]), m[|m| - 64..])
  }

  function Zeros(n: nat): (z: seq<bv8>)
    ensures |z| == n
  {
    seq(n, _ => 0)
  }

  function ByteOf(n: nat): bv8
    requires n < 256
  {
    n as bv8
  }

  /** A number modulo 2^64, the highest byte first. */
  function Length64(n: nat): (b: seq<bv8>)
    ensures |b| == 8
  {
    seq(8, i requires 0 <= i < 8 => LengthByte(n, 7 - i))
  }

  function LengthByte(n: nat, i: nat): bv8 {
    ByteOf(n / Power256(i) % 256)
  }

  function Power256(i: nat): (p: nat)
    ensures p > 0
  {
    if i == 0 then 1 else 256 * Power256(i - 1)
  }

  /** The least number of zeros after the one bit that leaves room for the length. */
  function PadZeros(n: nat): (k: nat)
    ensures k < 64 && (n + 1 + k) % 64 == 56
  {
    if n % 64 <= 55 then 55 - n % 64 else 119 - n % 64
  }

  /** Section 5.1.1 of FIPS 180-4; a length in bits from 2^64 on, which the standard does not have, is
      taken modulo 2^64. */
  function Padded(m: seq<bv8>): (p: seq<bv8>)
    ensures |p| % 64 == 0
  {
    m + [0x80] + Zeros(PadZeros(|m|)) + Length64(8 * |m|)
  }

  function Digest(h: Five): seq<bv8> {
    Bytes4(h.a) + Bytes4(h.b) + Bytes4(h.c) + Bytes4(h.d) + Bytes4(h.e)
  }

  function Sha1(m: seq<bv8>): seq<bv8> {
    Digest(Blocks(Padded(m)))
  }

  class Sha1Ctx {
    var h: Five
    var bytes: nat
    const block: array<bv8>
    var used: nat
    ghost var msg: seq<bv8>

    ghost predicate Valid()
      reads this, block
    {
      && block.Length == 64 && used < 64 && bytes == |msg| % U64
      && Buffered(h, block[..], used, msg)
    }

    /** sha1_init. */
    constructor ()
      ensures Valid() && msg == [] && fresh(block)
    {
      h := INITIAL;
      bytes, used, msg := 0, 0, [];
      block := new bv8[64](_ => 0);
    }

    /** sha1_transform. */
    method Transform()
      requires block.Length == 64
      modifies this`h
      ensures h == Compress(old(h), block[..])
    {
      hide Rol, Xor4, BigEndian, Sum5, Plus, Ch, Parity, Maj, ChUnion, MajUnion, Compress;
      ghost var b := block[..];
      var w := Schedule();
      var v := h;
      var i := 0;
      while i < 80
        invariant 0 <= i <= 80 && v == Rounds(h, b, i) && h == old(h) && b == block[..]
        invariant forall t :: 0 <= t < 80 ==> w[t] == W(b, t)
      {
        ChForms(v.b, v.c, v.d);
        MajForms(v.b, v.c, v.d);
        var f, k;
        if i < 20 {
          f, k := ChUnion(v.b, v.c, v.d), 0x5a827999;
        } else if i < 40 {
          f, k := Parity(v.b, v.c, v.d), 0x6ed9eba1;
        } else if i < 60 {
          f, k := MajUnion(v.b, v.c, v.d), 0x8f1bbcdc;
        } else {
          f, k := Parity(v.b, v.c, v.d), 0xca62c1d6;
        }
        var tmp := Sum5(Rol(v.a, 5), f, v.e, k, w[i]);
        v := Five(tmp, v.a, Rol(v.b, 30), v.c, v.d);
        i := i + 1;
      }
      h := Five(Plus(h.a, v.a), Plus(h.b, v.b), Plus(h.c, v.c), Plus(h.d, v.d), Plus(h.e, v.e));
      CompressIs(old(h), b);
    }

    /** memcpy into the buffer after the bytes it holds. */
    method Fill(p: seq<bv8>)
      requires block.Length == 64 && used + |p| <= 64
      modifies block
      ensures block[..] == old(block[..used]) + p + old(block[used + |p|..])
    {
      forall k | 0 <= k < |p| { block[used + k] := p[k]; }
    }

    /** One round of the loop of sha1_update: as much as the buffer takes. */
    method Absorb(p: seq<bv8>)
      requires block.Length == 64 && used < 64 && Buffered(h, block[..], used, msg) && 0 < |p| <= 64 - used
      modifies this`h, this`used, this`msg, block
      ensures block.Length == 64 && used < 64 && Buffered(h, block[..], used, msg) && msg == old(msg) + p
    {
      hide *;
      ghost var was := block[..];
      assert was[..used] == block[..used] && was[used + |p|..] == block[used + |p|..];
      Taken(h, was, used, msg, p);
      Fill(p);
      used, msg := used + |p|, msg + p;
      if used == 64 {
        Transform();
        used := 0;
      }
    }

    method Update(p: seq<bv8>)
      requires Valid()
      modifies this, block
      ensures Valid() && msg == old(msg) + p
    {
      Wrapped(|msg|, |p|);
      bytes := (bytes + |p|) % U64;
      ghost var m, total := msg, bytes;
      assert total == |m + p| % U64;
      hide Buffered;
      var i := 0;
      while i < |p|
        invariant 0 <= i <= |p| && block.Length == 64 && used < 64 && Buffered(h, block[..], used, msg)
        invariant msg == m + p[..i] && bytes == total
        decreases |p| - i
      {
        hide *;
        var n := if 64 - used > |p| - i then |p| - i else 64 - used;
        Absorb(p[i..i + n]);
        Further(m, p, i, n);
        i := i + n;
      }
      assert p[..|p|] == p;
    }

    /** sha1_final: the one bit, zeros until the length fits, and the length in bits. */
    method Final() returns (out: seq<bv8>)
      requires Valid()
      modifies this, block
      ensures out == Sha1(old(msg))
    {
      ghost var m := msg;
      var bits := bytes * 8 % U64;
      BitsWrapped(|m|);
      Pad();
      var len := Length64(bits);
      PaddedIs(m);
      UsedIs(h, block[..], used, msg);
      hide Valid, Length64;
      Update(len);
      out := Digest(h);
      Finished(h, block[..], used, m, msg);
    }

    /** The loop ends after the least number of zeros, fewer than 64. */
    method Pad()
      requires Valid()
      modifies this, block
      ensures Valid() && msg == old(msg) + [0x80] + Zeros(PadZeros(old(|msg|)))
    {
      hide Valid, PadZeros, Zeros;
      ghost var m, k := msg, 0;
      Update([0x80]);
      NoZeros(m + [0x80]);
      UsedNow(m, 0);
      while used != 56
        invariant Valid() && 0 <= k <= PadZeros(|m|) && msg == m + [0x80] + Zeros(k) && used == UsedAfter(|m|, k)
        decreases PadZeros(|m|) - k
      {
        hide *;
        LeastZeros(|m|, k);
        Update([0]);
        OneZero(m + [0x80], k);
        k := k + 1;
        UsedNow(m, k);
      }
      LeastZeros(|m|, k);
    }

    lemma UsedNow(m: seq<bv8>, k: nat)
      requires Valid() && msg == m + [0x80] + Zeros(k)
      ensures used == UsedAfter(|m|, k)
    {
      UsedIs(h, block[..], used, msg);
    }

    method Schedule() returns (w: array<bv32>)
      requires block.Length == 64
      ensures fresh(w) && w.Length == 80 && forall t :: 0 <= t < 80 ==> w[t] == W(block[..], t)
    {
      hide Rol, Xor4, BigEndian;
      w := new bv32[80](_ => 0);
      var i := 0;
      while i < 16
        invariant 0 <= i <= 16
        invariant forall t :: 0 <= t < i ==> w[t] == W(block[..], t)
      {
        w[i] := BigEndian(block[i * 4], block[i * 4 + 1], block[i * 4 + 2], block[i * 4 + 3]);
        i := i + 1;
      }
      while i < 80
        invariant 16 <= i <= 80
        invariant forall t :: 0 <= t < i ==> w[t] == W(block[..], t)
      {
        w[i] := Rol(Xor4(w[i - 3], w[i - 8], w[i - 14], w[i - 16]), 1);
        i := i + 1;
      }
    }
  }

  lemma UsedIs(h: Five, block: seq<bv8>, used: nat, msg: seq<bv8>)
    requires Buffered(h, block, used, msg)
    ensures used == |msg| % 64
  {
    var q := (|msg| - used) / 64;
    assert |msg| == 64 * q + used;
  }

  lemma LeastZeros(n: nat, k: nat)
    requires k <= PadZeros(n)
    ensures UsedAfter(n, k) == 56 <==> k == PadZeros(n)
  {
  }

  /** How full the buffer is after n bytes, the one bit and k zeros. */
  function UsedAfter(n: nat, k: nat): nat {
    (n + 1 + k) % 64
  }

  lemma NoZeros(a: seq<bv8>)
    ensures a + Zeros(0) == a
  {
  }

  lemma OneZero(a: seq<bv8>, k: nat)
    ensures a + Zeros(k) + [0] == a + Zeros(k + 1)
  {
  }

  lemma PaddedIs(m: seq<bv8>)
    ensures Padded(m) == (m + [0x80] + Zeros(PadZeros(|m|))) + Length64(8 * |m|)
  {
  }

  /** When whole blocks are in, the buffer is empty and the hash is that of all of them. */
  lemma Finished(h: Five, block: seq<bv8>, used: nat, m: seq<bv8>, msg: seq<bv8>)
    requires Buffered(h, block, used, msg)
    ensures msg == Padded(m) ==> Digest(h) == Sha1(m)
  {
    UsedIs(h, block, used, msg);
    if msg == Padded(m) {
      assert msg[..|msg|] == msg;
    }
    hide Padded, Digest, Blocks;
  }

  function Concat(chunks: seq<seq<bv8>>): seq<bv8> {
    if chunks == [] then [] else Concat(chunks[..|chunks| - 1]) + chunks[|chunks| - 1]
  }

  /** However the input is cut into calls of sha1_update, the digest is that of all of it. */
  method HashChunks(chunks: seq<seq<bv8>>) returns (out: seq<bv8>)
    ensures out == Sha1(Concat(chunks))
  {
    var c := new Sha1Ctx();
    var i := 0;
    while i < |chunks|
      invariant 0 <= i <= |chunks| && c.Valid() && fresh(c) && fresh(c.block) && c.msg == Concat(chunks[..i])
    {
      assert chunks[..i + 1][..i] == chunks[..i];
      hide Sha1Ctx.Valid;
      c.Update(chunks[i]);
      i := i + 1;
    }
    assert chunks[..|chunks|] == chunks;
    hide Sha1Ctx.Valid, Sha1;
    out := c.Final();
  }

  /** The counter of bytes wraps at 2^64, and the eight bytes of the length in bits do not notice. */
  lemma BitsWrapped(n: nat)
    ensures Length64(n % U64 * 8 % U64) == Length64(8 * n)
  {
    var bits := 8 * n;
    assert n % U64 * 8 % U64 == bits % U64;
    forall i: nat | i < 8 ensures LengthByte(bits % U64, i) == LengthByte(bits, i) {
      LowByte(bits, i);
    }
  }

  lemma Multiple(c: nat, k: int)
    ensures (k <= 0 ==> c * k <= 0) && (k >= 1 ==> c * k >= c)
  {
  }

  lemma QuotientIs(n: nat, p: nat, x: nat, e: nat)
    requires e < p && n == p * x + e
    ensures n / p == x
  {
    var y, f := n / p, n % p;
    assert n == p * y + f;
    assert p * (y - x) == e - f && p * (x - y) == f - e;
    Multiple(p, y - x);
    Multiple(p, x - y);
  }

  /** A multiple of 256 p more does not change the byte above p. */
  lemma SameByte(n: nat, p: nat, k: nat, r: nat)
    requires p > 0 && n == p * (256 * k) + r
    ensures n / p % 256 == r / p % 256
  {
    var d, e := r / p, r % p;
    assert r == p * d + e;
    assert p * (256 * k) + p * d == p * (256 * k + d);
    QuotientIs(n, p, 256 * k + d, e);
  }

  /** U64 is 256 p times a power. */
  lemma PowersOf256(i: nat) returns (c: nat)
    requires i < 8
    ensures U64 == Power256(i) * (256 * c)
  {
    assert Power256(1) == 0x100 && Power256(2) == 0x1_0000 && Power256(3) == 0x100_0000;
    assert Power256(4) == 0x1_0000_0000 && Power256(5) == 0x100_0000_0000 && Power256(6) == 0x1_0000_0000_0000;
    assert Power256(7) == 0x100_0000_0000_0000;
    match i {
      case 0 => c := 0x100_0000_0000_0000;
      case 1 => c := 0x1_0000_0000_0000;
      case 2 => c := 0x100_0000_0000;
      case 3 => c := 0x1_0000_0000;
      case 4 => c := 0x100_0000;
      case 5 => c := 0x1_0000;
      case 6 => c := 0x100;
      case 7 => c := 1;
    }
  }

  lemma LowByte(n: nat, i: nat)
    requires i < 8
    ensures LengthByte(n % U64, i) == LengthByte(n, i)
  {
    var c := PowersOf256(i);
    Regrouped(n, Power256(i), c);
    hide Power256;
    SameByte(n, Power256(i), c * (n / U64), n % U64);
  }

  lemma Regrouped(n: nat, p: nat, c: nat)
    requires U64 == p * (256 * c)
    ensures n == p * (256 * (c * (n / U64))) + n % U64
  {
    var q := n / U64;
    assert n == U64 * q + n % U64;
    Associate(p, c, q);
  }

  lemma Associate(p: nat, c: nat, q: nat)
    ensures p * (256 * c) * q == p * (256 * (c * q))
  {
  }

  lemma Further(m: seq<bv8>, p: seq<bv8>, i: nat, n: nat)
    requires i + n <= |p|
    ensures (m + p[..i]) + p[i..i + n] == m + p[..i + n]
  {
  }

  lemma Wrapped(a: nat, b: nat)
    ensures (a % U64 + b) % U64 == (a + b) % U64
  {
  }

  /** The buffer with some more bytes: still less than a block, or a block that goes to the hash. */
  lemma Taken(h: Five, block: seq<bv8>, used: nat, msg: seq<bv8>, p: seq<bv8>)
    requires Buffered(h, block, used, msg) && 0 < |p| <= 64 - used
    ensures |block| == 64
    ensures var now := block[..used] + p + block[used + |p|..];
      |now| == 64 &&
      if used + |p| < 64 then Buffered(h, now, used + |p|, msg + p) else Buffered(Compress(h, now), now, 0, msg + p)
  {
    hide Compress, Blocks;
    if used + |p| < 64 { TakenPart(h, block, used, msg, p); } else { TakenWhole(h, block, used, msg, p); }
  }

  lemma TakenPart(h: Five, block: seq<bv8>, used: nat, msg: seq<bv8>, p: seq<bv8>)
    requires Buffered(h, block, used, msg) && 0 < |p| < 64 - used
    ensures Buffered(h, block[..used] + p + block[used + |p|..], used + |p|, msg + p)
  {
    var now, whole, all := block[..used] + p + block[used + |p|..], |msg| - used, msg + p;
    hide Blocks;
    assert |all| - (used + |p|) == whole && all[..whole] == msg[..whole];
    assert all[whole..] == msg[whole..] + p == now[..used + |p|];
  }

  lemma TakenWhole(h: Five, block: seq<bv8>, used: nat, msg: seq<bv8>, p: seq<bv8>)
    requires Buffered(h, block, used, msg) && |p| == 64 - used
    ensures var now := block[..used] + p + block[used + |p|..];
      |now| == 64 && Buffered(Compress(h, now), now, 0, msg + p)
  {
    var now, whole, all := block[..used] + p + block[used + |p|..], |msg| - used, msg + p;
    hide Compress;
    assert now == block[..used] + p && all[..whole] == msg[..whole] && all[whole..] == now;
    BlocksMore(all);
    assert all[..|all|] == all && now[..0] == all[|all|..];
    hide Blocks;
  }

  lemma BlocksMore(all: seq<bv8>)
    requires |all| >= 64 && |all| % 64 == 0
    ensures Blocks(all) == Compress(Blocks(all[..|all| - 64]), all[|all| - 64..])
  {
    hide Compress;
  }

  lemma CompressIs(h: Five, block: seq<bv8>)
    requires |block| == 64
    ensures var v := Rounds(h, block, 80);
      Compress(h, block) == Five(Plus(h.a, v.a), Plus(h.b, v.b), Plus(h.c, v.c), Plus(h.d, v.d), Plus(h.e, v.e))
  {
    hide Plus, Rounds;
  }

  /** The hash of the whole blocks so far, and the rest of the message in the buffer. */
  ghost predicate Buffered(h: Five, block: seq<bv8>, used: nat, msg: seq<bv8>) {
    && |block| == 64 && used < 64 && used <= |msg| && (|msg| - used) % 64 == 0
    && block[..used] == msg[|msg| - used..] && h == Blocks(msg[..|msg| - used])
  }
}
