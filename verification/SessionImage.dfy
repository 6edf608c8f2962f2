/** Saving a session as bytes and loading it again, possibly into rings of other sizes. */
module SessionImage {
  import opened Basics
  import opened Bytes
  import opened KvTheory
  import opened KvSession

  /** The two halves of a cache row. */
  datatype KV<T> = KV(k: T, v: T)

  /** How a value is stored: `size` bytes. */
  datatype Codec<!T> = Codec(size: nat, enc: T -> seq<Byte>, dec: seq<Byte> -> T)

  ghost predicate Fixed<T(!new)>(c: Codec<T>) {
    forall t {:trigger c.enc(t)} :: |c.enc(t)| == c.size
  }

  /** Floats copied as they are. */
  ghost predicate Exact<T(!new)>(c: Codec<T>) {
    Fixed(c) && forall t {:trigger c.enc(t)} :: c.dec(c.enc(t)) == t
  }

  /** In memory, or in a file with rows of bytes and a scale for every 64 of them. */
  datatype Kind = Snapshot | Payload

  const SNAPSHOT_MAGIC: nat := 0x37334653
  const SNAPSHOT_VERSION: nat := 2
  const PAYLOAD_MAGIC: nat := 0x37375053
  const PAYLOAD_VERSION: nat := 3
  const KV_I8_GROUPED: nat := 1
  const KV_GROUP: nat := 64

  datatype Dims = Dims(kvHeads: nat, headDim: nat, vocab: nat, embd: nat)

  /** payload_encoded_kv_row_bytes */
  function EncodedRow(elems: nat, group: nat): nat {
    Groups(elems, group) * 4 + elems
  }

  function Header(kind: Kind, d: Dims, layers: nat, ctx: nat, n: nat, live: nat, backend: nat): seq<nat> {
    var elems := d.kvHeads * d.headDim;
    var common := [ctx, n, live, layers, d.kvHeads, d.headDim, d.vocab, d.embd, backend];
    match kind
    case Snapshot => [SNAPSHOT_MAGIC, SNAPSHOT_VERSION] + common
    case Payload =>
      [PAYLOAD_MAGIC, PAYLOAD_VERSION] + common +
        [KV_I8_GROUPED, KV_GROUP, Groups(elems, KV_GROUP), EncodedRow(elems, KV_GROUP)]
  }

  /** What a session puts into an image. */
  datatype Saved<T, V, G> = Saved(ctx: nat, toks: seq<nat>, logits: G, hidden: V, rows: seq<seq<KV<T>>>)
  {
    function Counts(): (c: seq<nat>)
      ensures |c| == |rows| && forall il :: 0 <= il < |c| ==> c[il] == |rows[il]|
    {
      seq(|rows|, il requires 0 <= il < |rows| => |rows[il]|)
    }
  }

  function RowBytes<T>(c: Codec<T>, rows: seq<KV<T>>): seq<Byte> {
    if rows == [] then [] else c.enc(rows[0].k) + (c.enc(rows[0].v) + RowBytes(c, rows[1..]))
  }

  function LayerBytes<T>(c: Codec<T>, layers: seq<seq<KV<T>>>): seq<Byte> {
    if layers == [] then [] else RowBytes(c, layers[0]) + LayerBytes(c, layers[1..])
  }

  datatype Codecs<!T, !V, !G> = Codecs(row: Codec<T>, vec: Codec<V>, logits: Codec<G>)

  /** Everything in the image fits its 32-bit words. */
  predicate Small<T, V, G>(kind: Kind, d: Dims, src: Saved<T, V, G>) {
    && AreSmall(Header(kind, d, |src.rows|, src.ctx, |src.toks|, |src.toks|, 1))
    && AreSmall(src.Counts()) && AreSmall(src.toks)
  }

  predicate AreSmall(ws: seq<nat>) {
    forall i :: 0 <= i < |ws| ==> ws[i] < U32
  }

  function Image<T, V, G>(kind: Kind, d: Dims, cs: Codecs<T, V, G>, src: Saved<T, V, G>): seq<Byte>
    requires Small(kind, d, src)
  {
    HeadThen(kind, d, src, Words(src.toks) + AfterTokens(cs, src))
  }

  function HeadThen<T, V, G>(kind: Kind, d: Dims, src: Saved<T, V, G>, rest: seq<Byte>): seq<Byte>
    requires Small(kind, d, src)
  {
    Words(Header(kind, d, |src.rows|, src.ctx, |src.toks|, |src.toks|, 1)) + (Words(src.Counts()) + rest)
  }

  function Sum(counts: seq<nat>): nat {
    if counts == [] then 0 else counts[0] + Sum(counts[1..])
  }

  /** sf37_session_snapshot_bytes and sf37_session_payload_bytes */
  function Predicted<T, V, G>(kind: Kind, cs: Codecs<T, V, G>, n: nat, counts: seq<nat>): nat {
    (if kind.Snapshot? then 11 else 15) * 4 + |counts| * 4 + n * 4 + cs.logits.size + cs.vec.size +
      Sum(counts) * 2 * cs.row.size
  }

  lemma {:induction false} RowBytesSize<T(!new)>(c: Codec<T>, rows: seq<KV<T>>)
    requires Fixed(c)
    ensures |RowBytes(c, rows)| == |rows| * 2 * c.size
  {
    if rows != [] {
      RowBytesSize(c, rows[1..]);
      assert |rows| * 2 * c.size == 2 * c.size + (|rows| - 1) * 2 * c.size;
    }
  }

  lemma {:induction false} LayerBytesSize<T(!new)>(c: Codec<T>, layers: seq<seq<KV<T>>>, counts: seq<nat>)
    requires Fixed(c) && |counts| == |layers| && forall il :: 0 <= il < |layers| ==> counts[il] == |layers[il]|
    ensures |LayerBytes(c, layers)| == Sum(counts) * 2 * c.size
  {
    if layers != [] {
      LayerBytesSize(c, layers[1..], counts[1..]);
      RowBytesSize(c, layers[0]);
      Distribute(counts[0], Sum(counts[1..]), c.size);
    }
  }

  lemma Distribute(a: nat, b: nat, s: nat)
    ensures (a + b) * 2 * s == a * 2 * s + b * 2 * s
  {
  }

  /** The image is as long as predicted. */
  lemma ImageSize<T(!new), V(!new), G(!new)>(kind: Kind, d: Dims, cs: Codecs<T, V, G>, src: Saved<T, V, G>)
    requires Small(kind, d, src) && Fixed(cs.row) && Fixed(cs.vec) && Fixed(cs.logits)
    ensures |Image(kind, d, cs, src)| == Predicted(kind, cs, |src.toks|, src.Counts())
  {
    LayerBytesSize(cs.row, src.rows, src.Counts());
    assert |cs.logits.enc(src.logits)| == cs.logits.size && |cs.vec.enc(src.hidden)| == cs.vec.size;
  }

  // ---- Saving -------------------------------------------------------------------------------

  /** session_layer_live_kv_rows on the GPU path */
  function LiveRows(n: nat, ctx: nat, cap: nat): nat {
    Min(Min(n, ctx), cap)
  }

  /** The last `count` positions before n, from their slots in a ring. */
  function RingRows<R>(buf: seq<R>, n: nat, count: nat): (r: seq<R>)
    requires |buf| > 0 && count <= n
    ensures |r| == count
  {
    seq(count, i requires 0 <= i < count => buf[(n - count + i) % |buf|])
  }

  function AsWords(toks: seq<Token>): (r: seq<nat>)
    requires forall i :: 0 <= i < |toks| ==> toks[i] >= 0
    ensures |r| == |toks| && forall i :: 0 <= i < |toks| ==> r[i] == toks[i]
  {
    seq(|toks|, i requires 0 <= i < |toks| => toks[i])
  }

  function SavedOf<T, V, G>(ctx: nat, caps: seq<nat>, slots: Slots<KV<T>>, toks: seq<nat>, logits: G,
                            hidden: V): (src: Saved<T, V, G>)
    requires Sized(slots, caps)
  {
    Saved(ctx, toks, logits, hidden,
          seq(|caps|, il requires 0 <= il < |caps| => RingRows(slots[il], |toks|, LiveRows(|toks|, ctx, caps[il]))))
  }

  ghost predicate Savable<T, V, G>(s: Session<V, KV<T>, G>, kind: Kind, d: Dims)
    reads s, s.rings
  {
    && s.Sane() && s.valid && |s.checkpoint| <= s.ctx &&
      (forall i :: 0 <= i < |s.checkpoint| ==> 0 <= s.checkpoint[i] < s.vocab)
    && Small(kind, d, SavedOf(s.ctx, s.caps, s.slots, AsWords(s.checkpoint), s.logits, s.hidden))
  }

  /** The next part of `all` fits, and after it the rest is still to come. */
  lemma NextPart(out: seq<Byte>, part: seq<Byte>, rest: seq<Byte>, before: seq<Byte>, all: seq<Byte>)
    requires out + (part + rest) == before + all
    ensures |out| + |part| <= |before| + |all| && (out + part) + rest == before + all
  {
    assert (out + part) + rest == out + (part + rest);
  }

  /** One row: K, then V. Reading either from the device, or writing it to the file, may fail. */
  method SaveRow<T>(c: Codec<T>, row: KV<T>, w: Writer, steady: bool) returns (ok: bool, failed: bool)
    modifies w`out
    ensures failed ==> !ok && !steady
    ensures var b := c.enc(row.k) + c.enc(row.v);
      !failed && |old(w.out)| + |b| <= w.cap ==> ok && w.out == old(w.out) + b
  {
    failed :| failed ==> !steady;
    if failed { return false, true; }
    ok := w.Write(c.enc(row.k));
    if !ok { return; }
    assert w.out + c.enc(row.v) == old(w.out) + (c.enc(row.k) + c.enc(row.v));
    failed :| failed ==> !steady;
    if failed { return false, true; }
    ok := w.Write(c.enc(row.v));
  }

  lemma RowBytesNext<T>(c: Codec<T>, rows: seq<KV<T>>, r: nat)
    requires r < |rows|
    ensures RowBytes(c, rows[r..]) == (c.enc(rows[r].k) + c.enc(rows[r].v)) + RowBytes(c, rows[r + 1..])
  {
    assert rows[r..][0] == rows[r] && rows[r..][1..] == rows[r + 1..];
  }

  /** One layer's rows, oldest first. */
  method SaveLayer<T>(ring: array<KV<T>>, c: Codec<T>, n: nat, count: nat, w: Writer, steady: bool)
    returns (ok: bool, failed: bool)
    requires ring.Length > 0 && count <= n
    modifies w`out
    ensures failed ==> !ok && !steady
    ensures var b := RowBytes(c, RingRows(ring[..], n, count));
      !failed && |old(w.out)| + |b| <= w.cap ==> ok && w.out == old(w.out) + b
  {
    ghost var rows, before := RingRows(ring[..], n, count), w.out;
    ghost var all := RowBytes(c, rows);
    hide RowBytes;
    assert rows[0..] == rows;
    failed := false;
    for r := 0 to count
      invariant !failed
      invariant |before| + |all| <= w.cap ==> w.out + RowBytes(c, rows[r..]) == before + all
    {
      RowBytesNext(c, rows, r);
      var row := ring[(n - count + r) % ring.Length];
      assert row == rows[r];
      if w.out + RowBytes(c, rows[r..]) == before + all {
        NextPart(w.out, c.enc(row.k) + c.enc(row.v), RowBytes(c, rows[r + 1..]), before, all);
      }
      ok, failed := SaveRow(c, row, w, steady);
      if !ok { return; }
    }
    ok := true;
    NoRows(c, rows, count);
  }

  lemma NoRows<T>(c: Codec<T>, rows: seq<KV<T>>, r: nat)
    requires r == |rows|
    ensures RowBytes(c, rows[r..]) == []
  {
  }

  lemma LayerBytesNext<T>(c: Codec<T>, layers: seq<seq<KV<T>>>, il: nat)
    requires il <= |layers|
    ensures il < |layers| ==> LayerBytes(c, layers[il..]) == RowBytes(c, layers[il]) + LayerBytes(c, layers[il + 1..])
    ensures il == |layers| ==> LayerBytes(c, layers[il..]) == []
  {
    if il < |layers| { assert layers[il..][0] == layers[il] && layers[il..][1..] == layers[il + 1..]; }
  }

  /** The rows of all layers. */
  method SaveLayers<T, V, G>(s: Session<V, KV<T>, G>, c: Codec<T>, w: Writer, ghost rows: seq<seq<KV<T>>>)
    returns (ok: bool, failed: bool)
    requires s.Sane() && |rows| == |s.caps|
    requires forall il {:trigger rows[il]} :: 0 <= il < |rows| ==>
      rows[il] == RingRows(s.slots[il], |s.checkpoint|, LiveRows(|s.checkpoint|, s.ctx, s.caps[il]))
    modifies w`out
    ensures failed ==> !ok && !s.steady
    ensures var b := LayerBytes(c, rows); !failed && |old(w.out)| + |b| <= w.cap ==> ok && w.out == old(w.out) + b
  {
    ghost var before, all := w.out, LayerBytes(c, rows);
    hide LayerBytes, RowBytes;
    var layers := |s.caps|;
    assert rows[0..] == rows;
    failed := false;
    for il := 0 to layers
      invariant !failed
      invariant |before| + |all| <= w.cap ==> w.out + LayerBytes(c, rows[il..]) == before + all
    {
      LayerBytesNext(c, rows, il);
      var n := |s.checkpoint|;
      var count := LiveRows(n, s.ctx, s.caps[il]);
      assert s.rings[il][..] == s.slots[il];
      assert rows[il] == RingRows(s.rings[il][..], n, count);
      if w.out + LayerBytes(c, rows[il..]) == before + all {
        NextPart(w.out, RowBytes(c, rows[il]), LayerBytes(c, rows[il + 1..]), before, all);
      }
      ok, failed := SaveLayer(s.rings[il], c, n, count, w, s.steady);
      if !ok { return; }
    }
    ok := true;
    LayerBytesNext(c, rows, layers);
  }

  /** sf37_session_save_snapshot and sf37_session_save_payload: into a buffer of the predicted
      size the image always fits and fills it, unless the device or the file fails. */
  method Save<T(!new), V(!new), G(!new)>(s: Session<V, KV<T>, G>, kind: Kind, d: Dims, cs: Codecs<T, V, G>)
    returns (ok: bool, failed: bool, w: Writer)
    requires Savable(s, kind, d) && Fixed(cs.row) && Fixed(cs.vec) && Fixed(cs.logits)
    ensures fresh(w) && ok == !failed && (failed ==> !s.steady)
    ensures ok ==> |w.out| == w.cap && w.out == Image(kind, d, cs, SavedBy(s))
  {
    var n := |s.checkpoint|;
    var counts := seq(|s.caps|, il requires 0 <= il < |s.caps| => LiveRows(n, s.ctx, s.caps[il]));
    ghost var src := SavedOf(s.ctx, s.caps, s.slots, AsWords(s.checkpoint), s.logits, s.hidden);
    assert counts == src.Counts();
    ImageSize(kind, d, cs, src);
    w := new Writer(Predicted(kind, cs, n, counts));
    ok, failed := SaveParts(s, Header(kind, d, |s.caps|, s.ctx, n, n, 1), counts, AsWords(s.checkpoint), cs, w,
      src.rows);
  }

  /** The parts of the image one after the other. */
  method SaveParts<T, V, G>(s: Session<V, KV<T>, G>, h: seq<nat>, counts: seq<nat>, toks: seq<nat>, cs: Codecs<T, V, G>,
                            w: Writer,
                            ghost rows: seq<seq<KV<T>>>) returns (ok: bool, failed: bool)
    requires s.Sane() && AreSmall(h) && AreSmall(counts) && AreSmall(toks) && w.out == [] && |rows| == |s.caps|
    requires forall il {:trigger rows[il]} :: 0 <= il < |rows| ==>
      rows[il] == RingRows(s.slots[il], |s.checkpoint|, LiveRows(|s.checkpoint|, s.ctx, s.caps[il]))
    requires 4 * |h| + 4 * |counts| + 4 * |toks| + |cs.logits.enc(s.logits)| + |cs.vec.enc(s.hidden)| +
      |LayerBytes(cs.row, rows)| <= w.cap
    modifies w`out
    ensures ok == !failed && (failed ==> !s.steady)
    ensures ok ==>
      w.out ==
        Words(h) +
        (Words(counts) + (Words(toks) + (cs.logits.enc(s.logits) + (cs.vec.enc(s.hidden) + LayerBytes(cs.row, rows)))))
  {
    ghost var e, f, g := cs.logits.enc(s.logits), cs.vec.enc(s.hidden), LayerBytes(cs.row, rows);
    hide RingRows, LayerBytes, Sized, CapsOk;
    failed :| failed ==> !s.steady;
    if failed { return false, true; }
    ok := w.WriteWords(h);
    ok := w.WriteWords(counts);
    ok := w.WriteWords(toks);
    ok := w.Write(cs.logits.enc(s.logits));
    ok := w.Write(cs.vec.enc(s.hidden));
    ok, failed := SaveLayers(s, cs.row, w, rows);
    if failed { return; }
    Reassociate(Words(h), Words(counts), Words(toks), e, f, g);
  }

  lemma Reassociate(a: seq<Byte>, b: seq<Byte>, c: seq<Byte>, d: seq<Byte>, e: seq<Byte>, f: seq<Byte>)
    ensures [] + a + b + c + d + e + f == a + (b + (c + (d + (e + f))))
  {
  }

  // ---- Loading ------------------------------------------------------------------------------

  /** A value after it went through its stored form. */
  function Stored<T>(c: Codec<T>, row: KV<T>): KV<T> {
    KV(c.dec(c.enc(row.k)), c.dec(c.enc(row.v)))
  }

  function StoredRows<T>(c: Codec<T>, rows: seq<KV<T>>): (r: seq<KV<T>>)
    ensures |r| == |rows|
  {
    seq(|rows|, i requires 0 <= i < |rows| => Stored(c, rows[i]))
  }

  lemma SplitEqual(a: seq<Byte>, b: seq<Byte>, c: seq<Byte>, d: seq<Byte>)
    requires a + b == c + d && |a| == |c|
    ensures a == c && b == d
  {
    assert a == (a + b)[..|a|] && c == (c + d)[..|c|];
    assert b == (a + b)[|a|..] && d == (c + d)[|c|..];
  }

  /** A stored value of known size. */
  method ReadValue<T(!new)>(r: Reader, c: Codec<T>, v0: T, ghost t: T, ghost rest: seq<Byte>) returns (ok: bool, v: T)
    requires r.Valid() && Fixed(c)
    modifies r`pos
    ensures r.Valid() && (ok <==> c.size <= |old(r.Rest())|)
    ensures ok ==> r.Rest() == old(r.Rest())[c.size..] && v == c.dec(old(r.Rest())[..c.size])
    ensures old(r.Rest()) == c.enc(t) + rest ==> ok && v == c.dec(c.enc(t)) && r.Rest() == rest
  {
    ghost var r0 := r.Rest();
    var b;
    ok, b := r.Read(c.size);
    v := if ok then c.dec(b) else v0;
    assert |c.enc(t)| == c.size;
    if r0 == c.enc(t) + rest { SplitEqual(b, r.Rest(), c.enc(t), rest); }
  }

  /** The row that the bytes begin with. */
  function RowIn<T>(c: Codec<T>, b: seq<Byte>): KV<T>
    requires 2 * c.size <= |b|
  {
    KV(c.dec(b[..c.size]), c.dec(b[c.size..][..c.size]))
  }

  /** The first n rows of the bytes. */
  ghost function RowsIn<T>(c: Codec<T>, b: seq<Byte>, n: nat): (rows: seq<KV<T>>)
    requires RowsSize(c, n) <= |b|
    ensures |rows| == n
  {
    if n == 0 then [] else
      RowsSizeMore(c, n - 1, n);
      RowsIn(c, b, n - 1) + [RowIn(c, b[RowsSize(c, n - 1)..])]
  }

  lemma NextRow<T>(c: Codec<T>, b: seq<Byte>, n: nat)
    requires RowsSize(c, n + 1) <= |b|
    ensures RowsSize(c, n + 1) == RowsSize(c, n) + 2 * c.size
    ensures RowsIn(c, b, n + 1) == RowsIn(c, b, n) + [RowIn(c, b[RowsSize(c, n)..])]
    ensures b[RowsSize(c, n)..][2 * c.size..] == b[RowsSize(c, n + 1)..]
  {
    RowsSizeMore(c, n, n + 1);
    hide RowsSize;
  }

  method ReadRow<T(!new)>(r: Reader, c: Codec<T>, v0: KV<T>, ghost row: KV<T>, ghost rest: seq<Byte>)
    returns (ok: bool, kv: KV<T>)
    requires r.Valid() && Fixed(c)
    modifies r`pos
    ensures r.Valid() && (ok <==> 2 * c.size <= |old(r.Rest())|)
    ensures ok ==> kv == RowIn(c, old(r.Rest())) && r.Rest() == old(r.Rest())[2 * c.size..]
    ensures old(r.Rest()) == (c.enc(row.k) + c.enc(row.v)) + rest ==> ok && kv == Stored(c, row) && r.Rest() == rest
  {
    ghost var r0 := r.Rest();
    assert (c.enc(row.k) + c.enc(row.v)) + rest == c.enc(row.k) + (c.enc(row.v) + rest);
    var k, v;
    kv := v0;
    ok, k := ReadValue(r, c, v0.k, row.k, c.enc(row.v) + rest);
    if !ok { return; }
    ok, v := ReadValue(r, c, v0.v, row.v, rest);
    kv := KV(k, v);
  }

  /** One row into its slot. */
  method LoadRow<T(!new), V, G>(s: Session<V, KV<T>, G>, il: nat, first: nat, i: nat, r: Reader, c: Codec<T>,
                                ghost row: KV<T>, ghost rest: seq<Byte>) returns (ok: bool, failed: bool)
    requires s.Sane() && il < |s.caps| && i < s.caps[il] && r.Valid() && Fixed(c)
    modifies r`pos, s.rings[il], s`slots
    ensures s.Sane() && r.Valid() && |old(s.slots)| == |s.slots| && s.slots == old(s.slots)[il := s.slots[il]]
    ensures SameFrom(old(s.slots)[il], s.slots[il], first + i + 1) && (failed ==> !ok && !s.steady)
    ensures !failed ==> (ok <==> 2 * c.size <= |old(r.Rest())|)
    ensures ok ==> r.Rest() == old(r.Rest())[2 * c.size..]
    ensures ok ==>
      RingRows(s.slots[il], first + i + 1, i + 1) ==
        RingRows(old(s.slots)[il], first + i, i) + [RowIn(c, old(r.Rest()))]
    ensures !failed && old(r.Rest()) == (c.enc(row.k) + c.enc(row.v)) + rest ==> ok && r.Rest() == rest
    ensures !failed && old(r.Rest()) == (c.enc(row.k) + c.enc(row.v)) + rest ==>
      RingRows(s.slots[il], first + i + 1, i + 1) == RingRows(old(s.slots)[il], first + i, i) + [Stored(c, row)]
  {
    var kv := s.rings[il][0];
    failed := false;
    ok, kv := ReadRow(r, c, kv, row, rest);
    if !ok { return; }
    failed :| failed ==> !s.steady;
    if failed { return false, true; }
    RingAppend(s.slots[il], first, i, kv);
    SlotBelow(first + i, s.caps[il]);
    s.StoreRow(il, first + i, kv);
    failed :| failed ==> !s.steady;
    ok := !failed;
  }

  /** The slots from n on are the same in both rings. */
  ghost predicate SameFrom<R>(a: seq<R>, b: seq<R>, n: nat) {
    |a| == |b| && forall j {:trigger b[j]} :: n <= j < |a| ==> a[j] == b[j]
  }

  lemma SlotBelow(p: nat, cap: nat)
    requires cap > 0
    ensures p % cap <= p
  {
    assert p == cap * (p / cap) + p % cap;
  }

  /** The bytes of n rows. */
  function RowsSize<T>(c: Codec<T>, n: nat): nat {
    n * 2 * c.size
  }

  lemma RowsSizeMore<T>(c: Codec<T>, i: nat, n: nat)
    requires i <= n
    ensures RowsSize(c, 0) == 0 && RowsSize(c, i + 1) == RowsSize(c, i) + 2 * c.size
    ensures RowsSize(c, i) <= RowsSize(c, n) && (i < n ==> RowsSize(c, i + 1) <= RowsSize(c, n))
  {
    Distribute(i, 1, c.size);
    Distribute(i, n - i, c.size);
    if i < n { Distribute(i + 1, n - i - 1, c.size); }
  }

  /** The rows of one layer go to the slots of the last positions before n. */
  method LoadLayer<T(!new), V, G>(s: Session<V, KV<T>, G>, il: nat, n: nat, count: nat, r: Reader, c: Codec<T>,
                                  ghost rows: seq<KV<T>>, ghost rest: seq<Byte>) returns (ok: bool, failed: bool)
    requires s.Sane() && il < |s.caps| && count <= n && count <= s.caps[il] && r.Valid() && Fixed(c) && |rows| == count
    modifies r`pos, s.rings[il], s`slots
    ensures s.Sane() && r.Valid() && |old(s.slots)| == |s.slots| && s.slots == old(s.slots)[il := s.slots[il]]
    ensures SameFrom(old(s.slots)[il], s.slots[il], n) && (failed ==> !ok && !s.steady)
    ensures !failed ==> (ok <==> RowsSize(c, count) <= |old(r.Rest())|)
    ensures ok ==> r.Rest() == old(r.Rest())[RowsSize(c, count)..]
    ensures ok ==> RingRows(s.slots[il], n, count) == RowsIn(c, old(r.Rest()), count)
    ensures !failed && old(r.Rest()) == RowBytes(c, rows) + rest ==>
      ok && RingRows(s.slots[il], n, count) == StoredRows(c, rows) && r.Rest() == rest
  {
    hide RowBytes, Fixed, CapsOk, StoredRows, RingRows, RowsSize, RowIn, RowsIn;
    RowsSizeMore(c, 0, count);
    NoRowsIn(c, r.Rest());
    ghost var good, all := r.Rest() == RowBytes(c, rows) + rest, r.Rest();
    ghost var slots0 := s.slots;
    assert rows[0..] == rows && rows[..0] == [] && |s.slots| == |s.caps|;
    NoneYet(s.slots[il], n - count, c);
    failed := false;
    for i := 0 to count
      invariant s.Sane() && r.Valid() && |slots0| == |s.slots| && s.slots == slots0[il := s.slots[il]]
      invariant !failed && SameFrom(slots0[il], s.slots[il], n)
      invariant RowsSize(c, i) <= |all| && r.Rest() == all[RowsSize(c, i)..]
      invariant RingRows(s.slots[il], n - count + i, i) == RowsIn(c, all, i)
      invariant good ==> r.Rest() == RowBytes(c, rows[i..]) + rest
      invariant good ==> RingRows(s.slots[il], n - count + i, i) == StoredRows(c, rows[..i])
    {
      RowBytesNext(c, rows, i);
      StoredAppend(c, rows, i);
      RowsSizeMore(c, i, count);
      ghost var later := RowBytes(c, rows[i + 1..]) + rest;
      if good { Regroup(r.Rest(), c.enc(rows[i].k) + c.enc(rows[i].v), RowBytes(c, rows[i + 1..]), rest); }
      ok, failed := LoadRow(s, il, n - count, i, r, c, rows[i], later);
      if !ok { return; }
      NextRow(c, all, i);
    }
    ok := true;
    NoRows(c, rows, count);
    assert rows[..count] == rows;
  }

  lemma NoRowsIn<T>(c: Codec<T>, b: seq<Byte>)
    ensures RowsSize(c, 0) == 0 && RowsIn(c, b, 0) == [] && b[0..] == b
  {
  }

  lemma Regroup(all: seq<Byte>, a: seq<Byte>, b: seq<Byte>, c: seq<Byte>)
    requires all == (a + b) + c
    ensures all == a + (b + c)
  {
  }

  lemma NoneYet<T>(buf: seq<KV<T>>, n: nat, c: Codec<T>)
    requires |buf| > 0
    ensures RingRows(buf, n, 0) == [] && StoredRows(c, []) == []
  {
  }

  lemma StoredAppend<T>(c: Codec<T>, rows: seq<KV<T>>, i: nat)
    requires i < |rows|
    ensures StoredRows(c, rows[..i + 1]) == StoredRows(c, rows[..i]) + [Stored(c, rows[i])]
  {
  }

  /** One more position in a ring that has a slot left for it. */
  lemma RingAppend<R>(buf: seq<R>, first: nat, i: nat, r: R)
    requires i < |buf|
    ensures RingRows(buf[(first + i) % |buf| := r], first + i + 1, i + 1) == RingRows(buf, first + i, i) + [r]
  {
    var buf' := buf[(first + i) % |buf| := r];
    var l, k := RingRows(buf', first + i + 1, i + 1), RingRows(buf, first + i, i) + [r];
    forall q | 0 <= q < |l| ensures l[q] == k[q] {
      if q < i && (first + q) % |buf| == (first + i) % |buf| { SameSlot(first + q, first + i, |buf|); }
    }
  }

  lemma SumNone<T>(c: Codec<T>, counts: seq<nat>)
    ensures RowsSize(c, Sum(counts[..0])) == 0
  {
  }

  lemma {:induction false} SumSplit(counts: seq<nat>, il: nat)
    requires il < |counts|
    ensures Sum(counts[..il + 1]) == Sum(counts[..il]) + counts[il] && Sum(counts[..il + 1]) <= Sum(counts)
  {
    if il > 0 {
      SumSplit(counts[1..], il - 1);
      assert counts[1..][..il] == counts[..il + 1][1..] && counts[1..][..il - 1] == counts[..il][1..];
    } else {
      assert counts[..1][1..] == [];
    }
  }

  /** One layer more is read, and no more than all. */
  lemma SumMore<T>(c: Codec<T>, counts: seq<nat>, il: nat)
    requires il < |counts|
    ensures var before := Sum(counts[..il]);
      && RowsSize(c, Sum(counts[..il + 1])) == RowsSize(c, before) + RowsSize(c, counts[il])
      && RowsSize(c, Sum(counts[..il + 1])) <= RowsSize(c, Sum(counts))
  {
    hide *;
    SumSplit(counts, il);
    RowsSizeAdd(c, Sum(counts[..il]), counts[il]);
    RowsSizeAdd(c, Sum(counts[..il + 1]), Sum(counts) - Sum(counts[..il + 1]));
  }

  lemma RowsSizeAdd<T>(c: Codec<T>, a: nat, b: nat)
    ensures RowsSize(c, a + b) == RowsSize(c, a) + RowsSize(c, b)
  {
    Distribute(a, b, c.size);
  }

  /** Layer il holds its rows of the bytes. */
  ghost predicate LayerRead<T>(slot: seq<KV<T>>, n: nat, counts: seq<nat>, il: nat, c: Codec<T>, b: seq<Byte>)
    requires il < |counts|
  {
    var at := RowsSize(c, Sum(counts[..il]));
    && |slot| > 0 && counts[il] <= n && at + RowsSize(c, counts[il]) <= |b|
    && RingRows(slot, n, counts[il]) == RowsIn(c, b[at..], counts[il])
  }

  ghost predicate LayersRead<T>(slots: Slots<KV<T>>, n: nat, counts: seq<nat>, c: Codec<T>, b: seq<Byte>, k: nat) {
    k <= |counts| && k <= |slots| && forall il {:trigger slots[il]} :: 0 <= il < k ==>
      LayerRead(slots[il], n, counts, il, c, b)
  }

  lemma NextLayer<T>(was: Slots<KV<T>>, slots: Slots<KV<T>>, n: nat, counts: seq<nat>, il: nat, c: Codec<T>,
                     b: seq<Byte>)
    requires il < |counts| && |slots| == |was| == |counts| && LayersRead(was, n, counts, c, b, il)
    requires slots == was[il := slots[il]] && |slots[il]| > 0 && counts[il] <= n
    requires RowsSize(c, Sum(counts[..il])) + RowsSize(c, counts[il]) <= |b|
    requires RingRows(slots[il], n, counts[il]) == RowsIn(c, b[RowsSize(c, Sum(counts[..il]))..], counts[il])
    ensures LayersRead(slots, n, counts, c, b, il + 1)
    ensures RowsSize(c, Sum(counts[..il + 1])) <= |b|
    ensures b[RowsSize(c, Sum(counts[..il]))..][RowsSize(c, counts[il])..] == b[RowsSize(c, Sum(counts[..il + 1]))..]
  {
    SumMore(c, counts, il);
    hide Sum, RowsSize, RowsIn, RingRows, LayerRead;
    IsLayerRead(slots[il], n, counts, il, c, b);
  }

  lemma IsLayerRead<T>(slot: seq<KV<T>>, n: nat, counts: seq<nat>, il: nat, c: Codec<T>, b: seq<Byte>)
    requires il < |counts| && |slot| > 0 && counts[il] <= n
    requires RowsSize(c, Sum(counts[..il])) + RowsSize(c, counts[il]) <= |b|
    requires RingRows(slot, n, counts[il]) == RowsIn(c, b[RowsSize(c, Sum(counts[..il]))..], counts[il])
    ensures LayerRead(slot, n, counts, il, c, b)
  {
    hide Sum, RowsSize, RowsIn, RingRows;
  }

  /** The rows of all layers. */
  method LoadLayers<T(!new), V, G>(s: Session<V, KV<T>, G>, n: nat, counts: seq<nat>, r: Reader, c: Codec<T>,
                                   ghost rows: seq<seq<KV<T>>>,
                                   ghost tail: seq<Byte>) returns (ok: bool, failed: bool)
    requires s.Sane() && |counts| == |s.caps| && r.Valid() && Fixed(c)
    requires forall il :: 0 <= il < |counts| ==> counts[il] <= n && counts[il] <= s.caps[il]
    modifies r`pos, s.rings, s`slots
    ensures s.Sane() && r.Valid() && AllSameFrom(old(s.slots), s.slots, n) && (failed ==> !ok && !s.steady)
    ensures !failed ==> (ok <==> RowsSize(c, Sum(counts)) <= |old(r.Rest())|)
    ensures ok ==> |r.Rest()| == |old(r.Rest())| - RowsSize(c, Sum(counts))
    ensures ok ==> LayersRead(s.slots, n, counts, c, old(r.Rest()), |counts|)
    ensures !failed && Counted(rows, counts) && old(r.Rest()) == LayerBytes(c, rows) + tail ==>
      ok && r.Rest() == tail && Arrived(s.slots, n, c, rows, |rows|)
  {
    ghost var good := Counted(rows, counts) && r.Rest() == LayerBytes(c, rows) + tail;
    ghost var slots0, all := s.slots, r.Rest();
    var layers := |s.caps|;
    assert rows[0..] == rows && counts[..layers] == counts;
    hide LayerBytes, RowBytes, Fixed, RingRows, StoredRows, CapsOk, RowsSize, Sum, RowsIn, LayersRead;
    SumNone(c, counts);
    NoLayers(s.slots, n, counts, c, all);
    failed := false;
    for il := 0 to layers
      invariant s.Sane() && r.Valid() && !failed && AllSameFrom(slots0, s.slots, n)
      invariant RowsSize(c, Sum(counts[..il])) <= |all| && r.Rest() == all[RowsSize(c, Sum(counts[..il]))..]
      invariant LayersRead(s.slots, n, counts, c, all, il)
      invariant (good ==> r.Rest() == LayerBytes(c, rows[il..]) + tail && Arrived(s.slots, n, c, rows, il))
    {
      SumMore(c, counts, il);
      ghost var row, later := s.slots[il][0], [];
      ghost var these := seq(counts[il], _ => row);
      if good {
        LayerBytesNext(c, rows, il);
        these, later := rows[il], LayerBytes(c, rows[il + 1..]) + tail;
        Regroup(r.Rest(), RowBytes(c, rows[il]), LayerBytes(c, rows[il + 1..]), tail);
      }
      ghost var was := s.slots;
      ok, failed := LoadLayer(s, il, n, counts[il], r, c, these, later);
      if !ok { return; }
      NextLayer(was, s.slots, n, counts, il, c, all);
    }
    ok := true;
    if good { LayerBytesNext(c, rows, layers); }
  }

  lemma NoLayers<T>(slots: Slots<KV<T>>, n: nat, counts: seq<nat>, c: Codec<T>, b: seq<Byte>)
    ensures LayersRead(slots, n, counts, c, b, 0) && b[0..] == b
  {
  }

  ghost predicate AllSameFrom<R>(a: Slots<R>, b: Slots<R>, n: nat) {
    |a| == |b| && forall il {:trigger b[il]} :: 0 <= il < |a| ==> SameFrom(a[il], b[il], n)
  }

  ghost predicate Counted<T>(rows: seq<seq<KV<T>>>, counts: seq<nat>) {
    |rows| == |counts| && forall il {:trigger rows[il]} :: 0 <= il < |rows| ==> |rows[il]| == counts[il]
  }

  /** The first k layers hold the stored rows for the last positions before n. */
  ghost predicate Arrived<T>(slots: Slots<KV<T>>, n: nat, c: Codec<T>, rows: seq<seq<KV<T>>>, k: nat) {
    && k <= |rows| && k <= |slots|
    && forall il {:trigger rows[il]} :: 0 <= il < k ==>
         |slots[il]| > 0 && |rows[il]| <= n && RingRows(slots[il], n, |rows[il]|) == StoredRows(c, rows[il])
  }

  // ---- What a load accepts ---------------------------------------------------------------------

  /** The rows counted for a layer are enough for it and fit its ring. */
  predicate CountOk(full: bool, window: nat, cap: nat, live: nat, rows: nat) {
    rows <= live && (if full then rows == live else rows >= Min(live, window)) && rows <= cap
  }

  /** The row counts of all layers; a loop with an early exit. */
  method CheckCounts<V, R, G>(m: Model<V, R, G>, caps: seq<nat>, live: nat, counts: seq<nat>) returns (ok: bool)
    requires |counts| == |caps|
    ensures ok <==>
      forall il {:trigger counts[il]} :: 0 <= il < |counts| ==>
      CountOk(m.full(il), m.window, caps[il], live, counts[il])
  {
    for il := 0 to |caps|
      invariant forall l {:trigger counts[l]} :: 0 <= l < il ==> CountOk(m.full(l), m.window, caps[l], live, counts[l])
    {
      if !CountOk(m.full(il), m.window, caps[il], live, counts[il]) { return false; }
    }
    return true;
  }

  function HeaderSize(kind: Kind): nat {
    if kind.Snapshot? then 11 else 15
  }

  /** The header words fit this build and this session. */
  predicate HeaderOk(kind: Kind, d: Dims, layers: nat, ctx: nat, h: seq<nat>)
    requires |h| == HeaderSize(kind)
  {
    && (if kind.Snapshot? then h[2] == ctx else h[2] <= ctx)
    && h[3] <= ctx && h[4] <= h[3] && h[4] == Min(h[3], h[2])
    && h[5] == layers && h[6] == d.kvHeads && h[7] == d.headDim && h[8] == d.vocab && h[9] == d.embd
    && (kind.Payload? ==>
          h[11] == KV_I8_GROUPED && h[12] == KV_GROUP && h[13] == Groups(h[6] * h[7], h[12]) &&
            h[14] == EncodedRow(h[6] * h[7], h[12]))
  }

  predicate MagicOk(kind: Kind, h: seq<nat>)
    requires |h| == HeaderSize(kind)
  {
    if kind.Snapshot? then h[0] == SNAPSHOT_MAGIC && h[1] == SNAPSHOT_VERSION
    else h[0] == PAYLOAD_MAGIC && h[1] == PAYLOAD_VERSION
  }

  /** What was saved fits a session with these sizes. */
  ghost predicate Loadable<T, V, G>(kind: Kind, d: Dims, m: Model<V, KV<T>, G>, ctx: nat, caps: seq<nat>,
                                    src: Saved<T, V, G>) {
    && Small(kind, d, src) && |src.rows| == m.layers == |caps|
    && (if kind.Snapshot? then src.ctx == ctx else src.ctx <= ctx) && |src.toks| <= src.ctx
    && (forall i :: 0 <= i < |src.toks| ==> src.toks[i] < d.vocab)
    && forall il {:trigger src.rows[il]} :: 0 <= il < |src.rows| ==>
         CountOk(m.full(il), m.window, caps[il], |src.toks|, |src.rows[il]|)
  }

  /** The bytes begin with n words that are tokens. */
  predicate TokensOk(b: seq<Byte>, n: nat, vocab: nat) {
    4 * n <= |b| && forall i :: 0 <= i < n ==> WordAt(b, i) < vocab
  }

  /** The tokens, each checked against the vocabulary. */
  method ReadTokens(r: Reader, n: nat, vocab: nat, ghost toks: seq<nat>, ghost rest: seq<Byte>)
    returns (ok: bool, vs: seq<nat>)
    requires r.Valid() && AreSmall(toks)
    modifies r`pos
    ensures r.Valid() && (ok ==> |vs| == n && forall i :: 0 <= i < n ==> vs[i] < vocab)
    ensures ok <==> TokensOk(old(r.Rest()), n, vocab)
    ensures ok ==> r.Rest() == old(r.Rest())[4 * n..] && forall i :: 0 <= i < n ==> vs[i] == WordAt(old(r.Rest()), i)
    ensures |toks| == n && old(r.Rest()) == Words(toks) + rest && (forall i :: 0 <= i < n ==> toks[i] < vocab) ==>
      ok && vs == toks && r.Rest() == rest
  {
    ok, vs := r.ReadWords(n, toks, rest);
    if !ok { return; }
    for i := 0 to n
      invariant forall k :: 0 <= k < i ==> vs[k] < vocab
    {
      if vs[i] >= vocab { return false, vs; }
    }
  }

  // ---- What the bytes must say, word by word -------------------------------------------------

  function HeadWords(kind: Kind): nat {
    match kind
    case Snapshot => 11
    case Payload => 15
  }

  /** Magic number and version. */
  predicate TagSays(kind: Kind, b: seq<Byte>)
    requires |b| >= 4 * HeadWords(kind)
  {
    match kind
    case Snapshot => WordAt(b, 0) == 0x37334653 && WordAt(b, 1) == 2
    case Payload => WordAt(b, 0) == 0x37375053 && WordAt(b, 1) == 3
  }

  /** The context it was saved with, the tokens and the rows that were live. */
  predicate LengthsSay(kind: Kind, ctx: nat, b: seq<Byte>)
    requires |b| >= 4 * HeadWords(kind)
  {
    var saved, n, live := WordAt(b, 2), WordAt(b, 3), WordAt(b, 4);
    && (if kind.Snapshot? then saved == ctx else saved <= ctx)
    && n <= ctx && live == (if n < saved then n else saved)
  }

  /** Layers, heads, head size, vocabulary and embedding of the model, and the format of a payload's rows. */
  predicate ShapeSays(kind: Kind, d: Dims, layers: nat, b: seq<Byte>)
    requires |b| >= 4 * HeadWords(kind)
  {
    && WordAt(b, 5) == layers && WordAt(b, 6) == d.kvHeads && WordAt(b, 7) == d.headDim
    && WordAt(b, 8) == d.vocab && WordAt(b, 9) == d.embd
    && (kind.Payload? ==>
          var elems := d.kvHeads * d.headDim;
          && WordAt(b, 11) == 1 && WordAt(b, 12) == 64 && WordAt(b, 13) == (elems + 63) / 64
          && WordAt(b, 14) == WordAt(b, 13) * 4 + elems)
  }

  /** The rows of layer il: all live ones of a full layer, at least a window of a sliding one, and no
      more than the ring takes. */
  predicate CountSays<V, R, G>(kind: Kind, m: Model<V, R, G>, caps: seq<nat>, il: nat, b: seq<Byte>)
    requires il < |caps| && |b| >= 4 * (HeadWords(kind) + |caps|)
  {
    var rows, live := WordAt(b, HeadWords(kind) + il), WordAt(b, 4);
    && rows <= live && rows <= caps[il]
    && (if m.full(il) then rows == live else rows >= live || rows >= m.window)
  }

  predicate HeadSays<V, R, G>(kind: Kind, d: Dims, m: Model<V, R, G>, ctx: nat, caps: seq<nat>, b: seq<Byte>) {
    && |b| >= 4 * (HeadWords(kind) + |caps|) && TagSays(kind, b) && LengthsSay(kind, ctx, b)
    && ShapeSays(kind, d, |caps|, b) && forall il :: 0 <= il < |caps| ==> CountSays(kind, m, caps, il, b)
  }

  function CountsIn(kind: Kind, layers: nat, b: seq<Byte>): (c: seq<nat>)
    requires |b| >= 4 * (HeadWords(kind) + layers)
    ensures |c| == layers && forall il :: 0 <= il < layers ==> c[il] == WordAt(b, HeadWords(kind) + il)
  {
    if layers == 0 then [] else CountsIn(kind, layers - 1, b) + [WordAt(b, HeadWords(kind) + layers - 1)]
  }

  /** The head says what it must, the tokens are in the vocabulary, and the vectors and rows end with the
      bytes. */
  predicate Acceptable<T, V, G>(kind: Kind, d: Dims, m: Model<V, KV<T>, G>, ctx: nat, caps: seq<nat>, vocab: nat,
                                cs: Codecs<T, V, G>, b: seq<Byte>) {
    && HeadSays(kind, d, m, ctx, caps, b)
    && var head, n := 4 * (HeadWords(kind) + |caps|), WordAt(b, 3);
       && TokensOk(b[head..], n, vocab)
       && |b| == head + 4 * n + cs.logits.size + cs.vec.size + Sum(CountsIn(kind, |caps|, b)) * 2 * cs.row.size
  }

  /** The words of the head read in turn. */
  lemma HeadIs<V, R, G>(kind: Kind, d: Dims, m: Model<V, R, G>, ctx: nat, caps: seq<nat>, b: seq<Byte>, h: seq<nat>,
                        counts: seq<nat>)
    requires |h| == HeaderSize(kind) && 4 * (|h| + |caps|) <= |b| && |counts| == |caps|
    requires forall i :: 0 <= i < |h| ==> h[i] == WordAt(b, i)
    requires forall il :: 0 <= il < |caps| ==> counts[il] == WordAt(b[4 * |h|..], il)
    ensures HeadSays(kind, d, m, ctx, caps, b) <==> HeadOk(kind, d, m, ctx, caps, h, counts)
    ensures counts == CountsIn(kind, |caps|, b)
  {
    forall il | 0 <= il < |caps| ensures counts[il] == WordAt(b, HeadWords(kind) + il) { WordAfter(b, |h|, il); }
    hide WordAt;
    TagIs(kind, b, h);
    ShapeIs(kind, d, |caps|, ctx, b, h);
    forall il | 0 <= il < |caps|
      ensures CountSays(kind, m, caps, il, b) <==> CountOk(m.full(il), m.window, caps[il], h[4], counts[il]) {
    }
    hide CountSays, CountOk, TagSays, LengthsSay, ShapeSays, MagicOk, HeaderOk;
  }

  lemma TagIs(kind: Kind, b: seq<Byte>, h: seq<nat>)
    requires |h| == HeaderSize(kind) && 4 * |h| <= |b| && forall i :: 0 <= i < |h| ==> h[i] == WordAt(b, i)
    ensures TagSays(kind, b) <==> MagicOk(kind, h)
  {
    hide WordAt;
  }

  lemma ShapeIs(kind: Kind, d: Dims, layers: nat, ctx: nat, b: seq<Byte>, h: seq<nat>)
    requires |h| == HeaderSize(kind) && 4 * |h| <= |b| && forall i :: 0 <= i < |h| ==> h[i] == WordAt(b, i)
    ensures LengthsSay(kind, ctx, b) && ShapeSays(kind, d, layers, b) <==> HeaderOk(kind, d, layers, ctx, h)
  {
    hide WordAt;
  }

  lemma HeadTooShort<V, R, G>(kind: Kind, d: Dims, m: Model<V, R, G>, ctx: nat, caps: seq<nat>, b: seq<Byte>)
    ensures HeaderSize(kind) == HeadWords(kind)
    ensures HeadSays(kind, d, m, ctx, caps, b) ==>
      |b| >= 4 * HeadWords(kind) && |b[4 * HeadWords(kind)..]| >= 4 * |caps|
  {
  }

  /** What a saved head is read as. */
  lemma HeadGoes<T, V, G>(kind: Kind, d: Dims, m: Model<V, KV<T>, G>, ctx: nat, caps: seq<nat>, src: Saved<T, V, G>,
                          rest: seq<Byte>)
    requires Loadable(kind, d, m, ctx, caps, src)
    ensures var h, c := Header(kind, d, |src.rows|, src.ctx, |src.toks|, |src.toks|, 1), src.Counts();
      && |h| == HeaderSize(kind) && |c| == |caps| && AreSmall(h) && AreSmall(c)
      && HeadThen(kind, d, src, rest) == Words(h) + (Words(c) + rest)
      && h[3] == |src.toks| && HeadOk(kind, d, m, ctx, caps, h, c)
  {
    hide Words;
  }

  /** What the code checks of the words it read. */
  ghost predicate HeadOk<V, R, G>(kind: Kind, d: Dims, m: Model<V, R, G>, ctx: nat, caps: seq<nat>, h: seq<nat>,
                                  counts: seq<nat>)
    requires |h| == HeaderSize(kind) && |counts| == |caps|
  {
    && MagicOk(kind, h) && HeaderOk(kind, d, |caps|, ctx, h)
    && forall il {:trigger counts[il]} :: 0 <= il < |counts| ==>
      CountOk(m.full(il), m.window, caps[il], h[4], counts[il])
  }

  /** Magic number, version, sizes and row counts. */
  method CheckHead<V, R, G>(m: Model<V, R, G>, ctx: nat, caps: seq<nat>, kind: Kind, d: Dims, h: seq<nat>,
                            counts: seq<nat>) returns (ok: bool, n: nat)
    requires |h| == HeaderSize(kind) && |counts| == |caps|
    ensures ok <==> HeadOk(kind, d, m, ctx, caps, h, counts)
    ensures n == h[3]
    ensures (ok ==> n <= ctx && forall il :: 0 <= il < |caps| ==> counts[il] <= n && counts[il] <= caps[il])
  {
    n := h[3];
    if !MagicOk(kind, h) || !HeaderOk(kind, d, |caps|, ctx, h) { return false, n; }
    ok := CheckCounts(m, caps, h[4], counts);
  }

  /** The words before the tokens, and what they must say. */
  method LoadHead<T, V, G>(m: Model<V, KV<T>, G>, ctx: nat, caps: seq<nat>, kind: Kind, d: Dims, r: Reader,
                           ghost src: Saved<T, V, G>, ghost rest: seq<Byte>)
    returns (ok: bool, n: nat, counts: seq<nat>)
    requires r.Valid() && |caps| == m.layers
    modifies r`pos
    ensures r.Valid() && (ok <==> HeadSays(kind, d, m, ctx, caps, old(r.Rest())))
    ensures ok ==> HeadRead(kind, |caps|, old(r.Rest()), n, counts, r.Rest())
    ensures ok ==>
      n <= ctx && |counts| == |caps| && forall il :: 0 <= il < |caps| ==> counts[il] <= n && counts[il] <= caps[il]
    ensures Loadable(kind, d, m, ctx, caps, src) && old(r.Rest()) == HeadThen(kind, d, src, rest) ==>
      ok && n == |src.toks| && counts == src.Counts() && r.Rest() == rest
  {
    ghost var b := r.Rest();
    ghost var good := Loadable(kind, d, m, ctx, caps, src) && b == HeadThen(kind, d, src, rest);
    ghost var h0, c0 := [], [];
    if good {
      HeadGoes(kind, d, m, ctx, caps, src, rest);
      h0, c0 := Header(kind, d, |src.rows|, src.ctx, |src.toks|, |src.toks|, 1), src.Counts();
    }
    n, counts := 0, [];
    hide *;
    HeadTooShort(kind, d, m, ctx, caps, b);
    var h;
    ok, h := r.ReadWords(HeaderSize(kind), h0, Words(c0) + rest);
    if !ok { return; }
    ok, counts := r.ReadWords(|caps|, c0, rest);
    if !ok { return; }
    HeadIs(kind, d, m, ctx, caps, b, h, counts);
    ok, n := CheckHead(m, ctx, caps, kind, d, h, counts);
    TailOfHead(kind, |caps|, b, n, counts);
  }

  /** The number of tokens, the row counts and what is left after the head. */
  ghost predicate HeadRead(kind: Kind, layers: nat, b: seq<Byte>, n: nat, counts: seq<nat>, rest: seq<Byte>) {
    && |b| >= 4 * (HeadWords(kind) + layers) && n == WordAt(b, 3) && counts == CountsIn(kind, layers, b)
    && rest == b[4 * (HeadWords(kind) + layers)..]
  }

  lemma TailOfHead(kind: Kind, layers: nat, b: seq<Byte>, n: nat, counts: seq<nat>)
    requires |b| >= 4 * (HeadWords(kind) + layers) && n == WordAt(b, 3) && counts == CountsIn(kind, layers, b)
    ensures HeadRead(kind, layers, b, n, counts, b[4 * HeadWords(kind)..][4 * layers..])
  {
    hide CountsIn, WordAt;
  }

  /** sf37_session_load_snapshot and sf37_session_load_payload. `src` stands for whatever the bytes may
      have been saved from and `tail` for what follows it; `lows`, `reach` and `told` are what the
      caller can prove about the rings and the logits afterwards. */
  method Load<T(!new), V(!new), G(!new)>(s: Session<V, KV<T>, G>, kind: Kind, d: Dims, cs: Codecs<T, V, G>,
                                         bytes: seq<Byte>,
                                         ghost src: Saved<T, V, G>, ghost tail: seq<Byte>,
                                         ghost lows: seq<nat>, ghost reach: nat, ghost told: seq<Token>)
    returns (ok: bool, failed: bool)
    requires s.Sane() && Fixed(cs.row) && Fixed(cs.vec) && Fixed(cs.logits) && d.vocab == s.vocab
    modifies s, s.rings
    ensures s.Sane() && (!ok ==> s.checkpoint == old(s.checkpoint) && s.lows == old(s.lows) && s.reach == old(s.reach))
    ensures !ok && s.valid ==> old(s.valid) && s.slots == old(s.slots)
    ensures ok ==> s.valid && |s.checkpoint| <= s.ctx && s.lows == lows && s.reach == reach && s.told == told
    ensures !ok ==> s.told == [] || (s.told == old(s.told) && s.logits == old(s.logits))
    ensures ok ==> forall i :: 0 <= i < |s.checkpoint| ==> 0 <= s.checkpoint[i] < s.vocab
    ensures failed ==> !ok && !s.steady
    ensures !failed ==> (ok <==> Acceptable(kind, d, s.m, s.ctx, s.caps, s.vocab, cs, bytes))
    ensures ok ==> Adopted(kind, s, cs, bytes)
    ensures Comes(kind, d, s, cs, bytes, src, tail) && ok ==> Loaded(s, cs, src)
    ensures Comes(kind, d, s, cs, bytes, src, tail) && !failed ==> (ok <==> tail == [])
    ensures Comes(kind, d, s, cs, bytes, src, tail) && !failed && !ok && kind.Snapshot? ==>
      !s.valid && Arrived(s.slots, |src.toks|, cs.row, src.rows, |src.rows|) &&
        AllSameFrom(old(s.slots), s.slots, |src.toks|)
  {
    hide *;
    ghost var good := Comes(kind, d, s, cs, bytes, src, tail);
    ghost var toks, rest := if good then src.toks else [], [];
    NoToks();
    SaneSizes(s);
    if good { rest := ImageThen(kind, d, s, cs, bytes, src, tail); }
    var r := new Reader(bytes);
    var n, counts, vs;
    failed :| failed ==> !s.steady;
    if failed { return false, true; }
    ok, n, counts := LoadHead(s.m, s.ctx, s.caps, kind, d, r, src, rest);
    ghost var body := r.Rest();
    AcceptedWhen(kind, d, s.m, s.ctx, s.caps, cs, bytes, ok, n, counts, body);
    if !ok || (kind.Payload? && |bytes| != Predicted(kind, cs, n, counts)) { return false, false; }
    ok, failed, vs := LoadBody(s, n, counts, r, cs, src, toks, tail);
    r.Left();
    if !ok || r.pos != |bytes| { return false, failed; }
    Adopt(s, vs, lows, reach, told);
    IsAdopted(kind, s, cs, bytes, n, counts, body);
    if good { IsLoaded(s, cs, src); }
  }

  lemma NoToks()
    ensures AreSmall([])
  {
  }

  lemma SaneSizes<V, R, G>(s: Session<V, R, G>)
    requires s.Sane()
    ensures |s.caps| == |s.rings| == s.m.layers
  {
  }

  /** The session has the tokens, the vectors and the rows of the bytes. */
  ghost predicate Adopted<T, V, G>(kind: Kind, s: Session<V, KV<T>, G>, cs: Codecs<T, V, G>, b: seq<Byte>)
    reads s`checkpoint, s`logits, s`hidden, s`slots
  {
    && |b| >= 4 * (HeadWords(kind) + |s.caps|) && |s.checkpoint| == WordAt(b, 3)
    && BodyRead(s, cs, s.checkpoint, CountsIn(kind, |s.caps|, b), b[4 * (HeadWords(kind) + |s.caps|)..])
  }

  lemma IsAdopted<T, V, G>(kind: Kind, s: Session<V, KV<T>, G>, cs: Codecs<T, V, G>, b: seq<Byte>, n: nat,
                           counts: seq<nat>, rest: seq<Byte>)
    requires HeadRead(kind, |s.caps|, b, n, counts, rest) && |s.checkpoint| == n
    requires BodyRead(s, cs, s.checkpoint, counts, rest)
    ensures Adopted(kind, s, cs, b)
  {
    hide BodyRead, WordAt, CountsIn;
  }

  /** After the head: the tokens, and the number of bytes. */
  lemma AcceptedWhen<T, V, G>(kind: Kind, d: Dims, m: Model<V, KV<T>, G>, ctx: nat, caps: seq<nat>,
                              cs: Codecs<T, V, G>, b: seq<Byte>, ok: bool, n: nat, counts: seq<nat>, rest: seq<Byte>)
    requires ok <==> HeadSays(kind, d, m, ctx, caps, b)
    requires ok ==> HeadRead(kind, |caps|, b, n, counts, rest)
    ensures Acceptable(kind, d, m, ctx, caps, d.vocab, cs, b) ==> ok
    ensures ok ==> |b| == |rest| + 4 * (HeadWords(kind) + |caps|)
    ensures ok ==> (|rest| == BodySize(cs, n, counts) <==> |b| == Predicted(kind, cs, n, counts))
    ensures ok ==>
      (Acceptable(kind, d, m, ctx, caps, d.vocab, cs, b) <==>
      TokensOk(rest, n, d.vocab) && |rest| == BodySize(cs, n, counts))
  {
    hide TokensOk, HeadSays, CountsIn, Sum, WordAt;
  }

  /** The bytes are an image that the session takes, and then `tail`. */
  ghost predicate Comes<T, V, G>(kind: Kind, d: Dims, s: Session<V, KV<T>, G>, cs: Codecs<T, V, G>, bytes: seq<Byte>,
                                 src: Saved<T, V, G>, tail: seq<Byte>) {
    Loadable(kind, d, s.m, s.ctx, s.caps, src) && bytes == Image(kind, d, cs, src) + tail
  }

  lemma ImageThen<T(!new), V(!new), G(!new)>(kind: Kind, d: Dims, s: Session<V, KV<T>, G>, cs: Codecs<T, V, G>,
                                             bytes: seq<Byte>, src: Saved<T, V, G>, tail: seq<Byte>)
    returns (rest: seq<Byte>)
    requires Comes(kind, d, s, cs, bytes, src, tail) && Fixed(cs.row) && Fixed(cs.vec) && Fixed(cs.logits)
    ensures Loadable(kind, d, s.m, s.ctx, s.caps, src) && Small(kind, d, src) && AreSmall(src.toks)
    ensures bytes == HeadThen(kind, d, src, rest)
    ensures |bytes| == Predicted(kind, cs, |src.toks|, src.Counts()) + |tail|
    ensures BodyNext(rest, |src.toks|, src.Counts(), cs, src, src.toks, d.vocab, tail)
  {
    rest := Words(src.toks) + (AfterTokens(cs, src) + tail);
    ImageSize(kind, d, cs, src);
    hide Words, AfterTokens, Predicted, Header;
  }

  method Adopt<V, R, G>(s: Session<V, R, G>, vs: seq<nat>, ghost lows: seq<nat>, ghost reach: nat,
                        ghost told: seq<Token>)
    requires s.Sane()
    modifies s`checkpoint, s`valid, s`lows, s`reach, s`told
    ensures s.Sane() && s.checkpoint == vs && s.valid && s.lows == lows && s.reach == reach && s.told == told
  {
    s.checkpoint, s.valid, s.lows, s.reach, s.told := vs, true, lows, reach, told;
  }

  lemma IsLoaded<T, V, G>(s: Session<V, KV<T>, G>, cs: Codecs<T, V, G>, src: Saved<T, V, G>)
    requires s.checkpoint == src.toks && VectorsLoaded(s, cs, src)
    requires Arrived(s.slots, |src.toks|, cs.row, src.rows, |src.rows|)
    ensures Loaded(s, cs, src)
  {
  }

  /** Tokens, vectors and rows. */
  method LoadBody<T(!new), V(!new), G(!new)>(s: Session<V, KV<T>, G>, n: nat, counts: seq<nat>, r: Reader,
                                             cs: Codecs<T, V, G>,
                                             ghost src: Saved<T, V, G>, ghost toks: seq<nat>, ghost tail: seq<Byte>)
    returns (ok: bool, failed: bool, vs: seq<nat>)
    requires s.Sane() && r.Valid() && Fixed(cs.row) && Fixed(cs.vec) && Fixed(cs.logits) && AreSmall(toks)
    requires |counts| == |s.caps| && forall il :: 0 <= il < |counts| ==> counts[il] <= n && counts[il] <= s.caps[il]
    modifies r`pos, s`logits, s`told, s`hidden, s`valid, s`slots, s.rings
    ensures s.told == [] || (s.told == old(s.told) && s.logits == old(s.logits))
    ensures s.Sane() && r.Valid() && (ok ==> |vs| == n && forall i :: 0 <= i < n ==> vs[i] < s.vocab)
    ensures AllSameFrom(old(s.slots), s.slots, n) && (failed ==> !ok && !s.steady)
    ensures !failed ==> (ok <==> TokensOk(old(r.Rest()), n, s.vocab) && BodySize(cs, n, counts) <= |old(r.Rest())|)
    ensures ok ==> |r.Rest()| == |old(r.Rest())| - BodySize(cs, n, counts) && BodyRead(s, cs, vs, counts, old(r.Rest()))
    ensures !failed && BodyNext(old(r.Rest()), n, counts, cs, src, toks, s.vocab, tail) ==>
      ok && vs == toks && r.Rest() == tail && Arrived(s.slots, n, cs.row, src.rows, |src.rows|) &&
        VectorsLoaded(s, cs, src)
    ensures if ok then !s.valid else s.valid ==> old(s.valid) && s.slots == old(s.slots)
  {
    hide LayerBytes, Words, Fixed, AfterTokens, Sized, CapsOk, RingRows, StoredRows, Arrived, Counted, LayersRead;
    failed := false;
    ok, vs := ReadTokens(r, n, s.vocab, toks, AfterTokens(cs, src) + tail);
    if !ok { return; }
    ok, failed := LoadVectors(s, cs, r, src, tail);
    if !ok { return; }
    s.valid := false;
    ok, failed := LoadLayers(s, n, counts, r, cs.row, src.rows, tail);
    if !ok { return; }
    failed :| failed ==> !s.steady;
    ok := !failed;
  }

  /** The bytes of n tokens, the vectors and the rows. */
  function BodySize<T, V, G>(cs: Codecs<T, V, G>, n: nat, counts: seq<nat>): nat {
    4 * n + cs.logits.size + cs.vec.size + RowsSize(cs.row, Sum(counts))
  }

  /** The tokens are the words that the bytes begin with, the vectors what the next bytes decode to, and
      the rings hold what the others decode to. */
  ghost predicate BodyRead<T, V, G>(s: Session<V, KV<T>, G>, cs: Codecs<T, V, G>, vs: seq<Token>, counts: seq<nat>,
                                    b: seq<Byte>)
    reads s`logits, s`hidden, s`slots
  {
    && 4 * |vs| <= |b| && (forall i :: 0 <= i < |vs| ==> vs[i] == WordAt(b, i))
    && var rest := b[4 * |vs|..];
       && VectorsRead(s, cs, rest)
       && LayersRead(s.slots, |vs|, counts, cs.row, rest[cs.logits.size..][cs.vec.size..], |counts|)
  }

  ghost predicate BodyNext<T, V, G>(rest: seq<Byte>, n: nat, counts: seq<nat>, cs: Codecs<T, V, G>, src: Saved<T, V, G>,
                                    toks: seq<nat>, vocab: nat,
                                    tail: seq<Byte>)
    requires AreSmall(toks)
  {
    && rest == Words(toks) + (AfterTokens(cs, src) + tail) && |toks| == n &&
      (forall i :: 0 <= i < n ==> toks[i] < vocab)
    && Counted(src.rows, counts)
  }

  ghost predicate VectorsLoaded<T, V, G>(s: Session<V, KV<T>, G>, cs: Codecs<T, V, G>, src: Saved<T, V, G>)
    reads s`logits, s`hidden
  {
    s.logits == cs.logits.dec(cs.logits.enc(src.logits)) && s.hidden == cs.vec.dec(cs.vec.enc(src.hidden))
  }

  function AfterTokens<T, V, G>(cs: Codecs<T, V, G>, src: Saved<T, V, G>): seq<Byte> {
    cs.logits.enc(src.logits) + (cs.vec.enc(src.hidden) + LayerBytes(cs.row, src.rows))
  }

  /** The vectors are what the bytes decode to. */
  ghost predicate VectorsRead<T, V, G>(s: Session<V, KV<T>, G>, cs: Codecs<T, V, G>, b: seq<Byte>)
    reads s`logits, s`hidden
  {
    && cs.logits.size + cs.vec.size <= |b| && s.logits == cs.logits.dec(b[..cs.logits.size])
    && s.hidden == cs.vec.dec(b[cs.logits.size..][..cs.vec.size])
  }

  method LoadVectors<T(!new), V(!new), G(!new)>(s: Session<V, KV<T>, G>, cs: Codecs<T, V, G>, r: Reader,
                                                ghost src: Saved<T, V, G>,
                                                ghost tail: seq<Byte>) returns (ok: bool, failed: bool)
    requires r.Valid() && Fixed(cs.vec) && Fixed(cs.logits)
    modifies r`pos, s`logits, s`told, s`hidden
    ensures r.Valid() && (s.told == [] || (s.told == old(s.told) && s.logits == old(s.logits)))
    ensures (failed ==> !ok && !s.steady) && (!failed ==> (ok <==> cs.logits.size + cs.vec.size <= |old(r.Rest())|))
    ensures ok ==> VectorsRead(s, cs, old(r.Rest()))
    ensures ok ==> r.Rest() == old(r.Rest())[cs.logits.size..][cs.vec.size..]
    ensures !failed && old(r.Rest()) == AfterTokens(cs, src) + tail ==>
      ok && r.Rest() == LayerBytes(cs.row, src.rows) + tail && VectorsLoaded(s, cs, src)
  {
    ghost var e, f, g := cs.logits.enc(src.logits), cs.vec.enc(src.hidden), LayerBytes(cs.row, src.rows) + tail;
    assert AfterTokens(cs, src) + tail == e + (f + g);
    var logits, hidden;
    failed := false;
    ok, logits := ReadValue(r, cs.logits, s.logits, src.logits, f + g);
    if !ok { return; }
    s.logits, s.told := logits, [];
    failed :| failed ==> !s.steady;
    if failed { return false, true; }
    ok, hidden := ReadValue(r, cs.vec, s.hidden, src.hidden, g);
    if !ok { return; }
    s.hidden := hidden;
  }

  /** The session holds what was saved, each part after it went through its stored form. */
  ghost predicate Loaded<T, V, G>(s: Session<V, KV<T>, G>, cs: Codecs<T, V, G>, src: Saved<T, V, G>)
    reads s
  {
    s.checkpoint == src.toks && VectorsLoaded(s, cs, src) && Arrived(s.slots, |src.toks|, cs.row, src.rows, |src.rows|)
  }

  // ---- Save, then load ------------------------------------------------------------------------------

  /** What layer il of the loaded session still has. */
  function LoadedLows(caps: seq<nat>, lows: seq<nat>, n: nat, ctx: nat): (r: seq<nat>)
    requires |lows| == |caps|
    ensures |r| == |caps|
  {
    seq(|caps|, il requires 0 <= il < |caps| => Max(lows[il], n - LiveRows(n, ctx, caps[il])))
  }

  lemma ExactRows<T(!new)>(c: Codec<T>, rows: seq<KV<T>>)
    requires Exact(c)
    ensures StoredRows(c, rows) == rows
  {
    forall i | 0 <= i < |rows| ensures Stored(c, rows[i]) == rows[i] {
      assert c.dec(c.enc(rows[i].k)) == rows[i].k && c.dec(c.enc(rows[i].v)) == rows[i].v;
    }
  }

  /** Every session that can be saved is accepted by a session for the same model whose context is as
      long and whose rings take the saved rows. */
  lemma SavedIsLoadable<T, V, G>(m: Model<V, KV<T>, G>, kind: Kind, d: Dims, ctx: nat, caps: seq<nat>, chunkMax: nat,
                                 src: Saved<T, V, G>,
                                 slots: Slots<KV<T>>, ctx': nat, caps': seq<nat>)
    requires CapsOk(m, ctx, caps, chunkMax) && Sized(slots, caps) && |src.toks| <= ctx && Small(kind, d, src)
    requires src == SavedOf(ctx, caps, slots, src.toks, src.logits, src.hidden)
    requires |caps'| == m.layers && (if kind.Snapshot? then ctx' == ctx else ctx' >= ctx)
    requires forall il :: 0 <= il < |caps| ==> LiveRows(|src.toks|, ctx, caps[il]) <= caps'[il]
    requires forall i :: 0 <= i < |src.toks| ==> src.toks[i] < d.vocab
    ensures Loadable(kind, d, m, ctx', caps', src)
  {
    forall il | 0 <= il < |src.rows| ensures CountOk(m.full(il), m.window, caps'[il], |src.toks|, |src.rows[il]|) {
      assert |src.rows[il]| == LiveRows(|src.toks|, ctx, caps[il]);
      assert caps[il] == ctx || chunkMax + m.window <= caps[il] + 1;
    }
  }

  /** Position p, found in both rings. */
  lemma SamePosition<R>(a: seq<R>, b: seq<R>, n: nat, count: nat, p: nat)
    requires |a| > 0 && |b| > 0 && count <= n && n - count <= p < n && RingRows(a, n, count) == RingRows(b, n, count)
    ensures a[p % |a|] == b[p % |b|]
  {
    var i := p - (n - count);
    assert RingRows(a, n, count)[i] == RingRows(b, n, count)[i];
  }

  /** Rings that hold the same last rows keep the same positions of the checkpoint. */
  lemma LoadedKeeps<V, R, G>(m: Model<V, R, G>, ctx: nat, caps: seq<nat>, slots: Slots<R>, lows: seq<nat>,
                             toks: seq<Token>,
                             chunkMax: nat, ctx': nat, caps': seq<nat>, slots': Slots<R>)
    requires CapsOk(m, ctx, caps, chunkMax) && Kept(m, caps, slots, toks, lows) && Ready(m, ctx, caps, |toks|, lows)
    requires Sized(slots', caps') && |caps'| == m.layers && |toks| <= ctx'
    requires forall il {:trigger slots'[il]} :: 0 <= il < |caps| ==>
      RingRows(slots'[il], |toks|, LiveRows(|toks|, ctx, caps[il])) ==
        RingRows(slots[il], |toks|, LiveRows(|toks|, ctx, caps[il]))
    ensures var lows' := LoadedLows(caps, lows, |toks|, ctx);
      Kept(m, caps', slots', toks, lows') && Ready(m, ctx', caps', |toks|, lows')
  {
    var lows', n := LoadedLows(caps, lows, |toks|, ctx), |toks|;
    forall il | 0 <= il < |caps'|
      ensures KeptLayer(m, caps', slots', toks, il, lows'[il]) && lows'[il] <= Start(m, il, n)
    {
      var count := LiveRows(n, ctx, caps[il]);
      assert lows[il] <= Start(m, il, n) && lows'[il] == Max(lows[il], n - count);
      assert caps[il] == ctx || chunkMax + m.window <= caps[il] + 1;
      forall p | lows'[il] <= p < n ensures Holds(m, caps', slots', toks, il, p) {
        assert slots'[il] == slots'[il];
        SamePosition(slots'[il], slots[il], n, count, p);
        assert Holds(m, caps, slots, toks, il, p);
      }
    }
  }

  /** The bytes of half a cache row: floats in a snapshot, signed bytes and scales in a payload. */
  function RowWidth(kind: Kind, d: Dims): nat {
    var elems := d.kvHeads * d.headDim;
    if kind.Snapshot? then elems * 4 else EncodedRow(elems, KV_GROUP)
  }

  /** The parts have the sizes that the dimensions give them. */
  predicate Widths<T, V, G>(kind: Kind, d: Dims, cs: Codecs<T, V, G>) {
    cs.row.size == RowWidth(kind, d) && cs.vec.size == d.embd * 4 && cs.logits.size == d.vocab * 4
  }

  function ImageBytes(kind: Kind, d: Dims, n: nat, counts: seq<nat>): nat {
    (if kind.Snapshot? then 11 else 15) * 4 + |counts| * 4 + n * 4 + d.vocab * 4 + d.embd * 4 +
      Sum(counts) * 2 * RowWidth(kind, d)
  }

  /** What session s saves. */
  ghost function SavedBy<T, V, G>(s: Session<V, KV<T>, G>): (src: Saved<T, V, G>)
    requires s.Sane() && forall i :: 0 <= i < |s.checkpoint| ==> s.checkpoint[i] >= 0
    reads s, s.rings
  {
    SavedOf(s.ctx, s.caps, s.slots, AsWords(s.checkpoint), s.logits, s.hidden)
  }

  /** The retained rows of b are those of a, each after it went through its stored form. */
  ghost predicate RowsStored<T, V, G>(c: Codec<T>, a: Session<V, KV<T>, G>, b: Session<V, KV<T>, G>)
    requires a.Sane() && b.Sane() && |b.caps| == |a.caps|
    reads a, a.rings, b, b.rings
  {
    forall il :: 0 <= il < |a.caps| ==>
      var n := |a.checkpoint|; var count := LiveRows(n, a.ctx, a.caps[il]);
      RingRows(b.slots[il], n, count) == StoredRows(c, RingRows(a.slots[il], n, count))
  }

  /** Session b can take what session a saves. */
  ghost predicate Takes<T, V, G>(b: Session<V, KV<T>, G>, a: Session<V, KV<T>, G>, kind: Kind, d: Dims)
    reads a, a.rings, b, b.rings
  {
    && Savable(a, kind, d) && b.Sane() && a.m == b.m && a.vocab == b.vocab == d.vocab
    && a != b && (forall i, j :: 0 <= i < |a.rings| && 0 <= j < |b.rings| ==> a.rings[i] != b.rings[j])
    && (if kind.Snapshot? then b.ctx == a.ctx else b.ctx >= a.ctx) && |a.caps| == |b.caps|
    && forall il :: 0 <= il < |a.caps| ==> LiveRows(|a.checkpoint|, a.ctx, a.caps[il]) <= b.caps[il]
  }

  /** Any image that is saved is accepted unless the device or the file fails, has the predicted size
      and is read to its end; tokens, logits and hidden come back as they were and every retained row in
      its stored form. */
  method SaveThenRestore<T(!new), V(!new), G(!new)>(a: Session<V, KV<T>, G>, b: Session<V, KV<T>, G>, kind: Kind,
                                                    d: Dims, cs: Codecs<T, V, G>,
                                                    ghost lows: seq<nat>, ghost reach: nat)
    returns (ok: bool, failed: bool, bytes: seq<Byte>)
    requires Takes(b, a, kind, d) && Fixed(cs.row) && Exact(cs.vec) && Exact(cs.logits) && Widths(kind, d, cs)
    modifies b, b.rings
    ensures ok == !failed && b.Sane() && Savable(a, kind, d) && |b.caps| == |a.caps|
    ensures a.steady && b.steady ==> ok
    ensures ok ==> b.valid && b.lows == lows && b.reach == reach
    ensures ok ==> b.checkpoint == a.checkpoint && b.logits == a.logits && b.told == a.told && b.hidden == a.hidden
    ensures ok ==>
      bytes == Image(kind, d, cs, SavedBy(a)) && |bytes| == ImageBytes(kind, d, |a.checkpoint|, SavedBy(a).Counts())
    ensures ok ==> RowsStored(cs.row, a, b)
  {
    hide *;
    TakesFacts(a, b, kind, d);
    TakenImage(a, b, kind, d, cs);
    var w;
    ok, failed, w := Save(a, kind, d, cs);
    bytes := w.out;
    if !ok { return; }
    ghost var src := SavedBy(a);
    WholeImage(kind, d, b, cs, src);
    ok, failed := Load(b, kind, d, cs, bytes, src, [], lows, reach, a.told);
    if ok { Restored(a, b, cs, src); }
  }

  lemma WholeImage<T, V, G>(kind: Kind, d: Dims, s: Session<V, KV<T>, G>, cs: Codecs<T, V, G>, src: Saved<T, V, G>)
    requires Loadable(kind, d, s.m, s.ctx, s.caps, src) && Small(kind, d, src)
    ensures Comes(kind, d, s, cs, Image(kind, d, cs, src), src, [])
  {
    hide Image, Loadable;
  }

  lemma TakenImage<T(!new), V(!new), G(!new)>(a: Session<V, KV<T>, G>, b: Session<V, KV<T>, G>, kind: Kind, d: Dims,
                                              cs: Codecs<T, V, G>)
    requires Takes(b, a, kind, d) && Fixed(cs.row) && Exact(cs.vec) && Exact(cs.logits) && Widths(kind, d, cs)
    ensures Savable(a, kind, d) && Small(kind, d, SavedBy(a)) && Loadable(kind, d, b.m, b.ctx, b.caps, SavedBy(a))
    ensures |Image(kind, d, cs, SavedBy(a))| == ImageBytes(kind, d, |a.checkpoint|, SavedBy(a).Counts())
    ensures Fixed(cs.vec) && Fixed(cs.logits) && b.vocab == d.vocab
  {
    hide *;
    TakesFacts(a, b, kind, d);
    ExactIsFixed(cs.vec);
    ExactIsFixed(cs.logits);
    ImageSize(kind, d, cs, SavedBy(a));
    SizeIs(kind, d, cs, |a.checkpoint|, SavedBy(a).Counts());
    SavedIsLoadable(a.m, kind, d, a.ctx, a.caps, a.prefillCap, SavedBy(a), a.slots, b.ctx, b.caps);
  }

  lemma ExactIsFixed<T(!new)>(c: Codec<T>)
    ensures Exact(c) ==> Fixed(c)
  {
  }

  lemma SizeIs<T, V, G>(kind: Kind, d: Dims, cs: Codecs<T, V, G>, n: nat, counts: seq<nat>)
    ensures Widths(kind, d, cs) ==> Predicted(kind, cs, n, counts) == ImageBytes(kind, d, n, counts)
  {
    hide RowWidth, Sum;
  }

  lemma TakesFacts<T, V, G>(a: Session<V, KV<T>, G>, b: Session<V, KV<T>, G>, kind: Kind, d: Dims)
    requires Takes(b, a, kind, d)
    ensures Savable(a, kind, d) && b.m == a.m && a.Sane() && b.Sane() && b.vocab == d.vocab
    ensures a != b && forall i, j :: 0 <= i < |a.rings| && 0 <= j < |b.rings| ==> a.rings[i] != b.rings[j]
    ensures (forall i :: 0 <= i < |a.checkpoint| ==> a.checkpoint[i] >= 0)
    ensures CapsOk(a.m, a.ctx, a.caps, a.prefillCap) && Sized(a.slots, a.caps) && |a.checkpoint| <= a.ctx
    ensures Small(kind, d, SavedBy(a))
    ensures SavedBy(a) == SavedOf(a.ctx, a.caps, a.slots, SavedBy(a).toks, SavedBy(a).logits, SavedBy(a).hidden)
    ensures |SavedBy(a).toks| == |a.checkpoint| && forall i :: 0 <= i < |a.checkpoint| ==> SavedBy(a).toks[i] < d.vocab
    ensures |b.caps| == a.m.layers == |a.caps| && (if kind.Snapshot? then b.ctx == a.ctx else b.ctx >= a.ctx)
    ensures forall il :: 0 <= il < |a.caps| ==> LiveRows(|a.checkpoint|, a.ctx, a.caps[il]) <= b.caps[il]
  {
    hide LiveRows, RingRows, Small, Predicted;
  }

  lemma Restored<T(!new), V(!new), G(!new)>(a: Session<V, KV<T>, G>, b: Session<V, KV<T>, G>, cs: Codecs<T, V, G>,
                                            src: Saved<T, V, G>)
    requires a.Sane() && b.Sane() && a.m == b.m && |a.caps| == |b.caps| && Exact(cs.vec) && Exact(cs.logits)
    requires (forall i :: 0 <= i < |a.checkpoint| ==> a.checkpoint[i] >= 0) && src == SavedBy(a) && Loaded(b, cs, src)
    ensures b.checkpoint == a.checkpoint && b.logits == a.logits && b.hidden == a.hidden && RowsStored(cs.row, a, b)
  {
    hide RingRows, StoredRows, Exact;
    VectorsBack(cs, src);
    assert AsWords(a.checkpoint) == a.checkpoint;
    forall il | 0 <= il < |a.caps|
      ensures RingRows(b.slots[il], |a.checkpoint|, LiveRows(|a.checkpoint|, a.ctx, a.caps[il])) ==
        StoredRows(cs.row, RingRows(a.slots[il], |a.checkpoint|, LiveRows(|a.checkpoint|, a.ctx, a.caps[il]))) {
      assert src.rows[il] == RingRows(a.slots[il], |a.checkpoint|, LiveRows(|a.checkpoint|, a.ctx, a.caps[il]));
    }
  }

  lemma VectorsBack<T(!new), V(!new), G(!new)>(cs: Codecs<T, V, G>, src: Saved<T, V, G>)
    requires Exact(cs.vec) && Exact(cs.logits)
    ensures cs.vec.dec(cs.vec.enc(src.hidden)) == src.hidden && cs.logits.dec(cs.logits.enc(src.logits)) == src.logits
  {
  }

  /** Some length from which nothing was lost to forward writes. */
  lemma SomeReach(caps: seq<nat>, lows: seq<nat>, n: nat) returns (reach: nat)
    requires |lows| == |caps|
    ensures n <= reach && Forward(caps, lows, reach)
  {
    reach := n;
    for il := 0 to |caps|
      invariant n <= reach && forall l :: 0 <= l < il ==> lows[l] + caps[l] <= reach
    {
      if reach < lows[il] + caps[il] { reach := lows[il] + caps[il]; }
    }
  }

  /** A snapshot loaded into another session, with rings of other sizes if they suffice, makes it the
      same session: its next token is evaluated as from a cold start. */
  method SaveThenLoad<T(!new), V(!new), G(!new)>(a: Session<V, KV<T>, G>, b: Session<V, KV<T>, G>, d: Dims,
                                                 cs: Codecs<T, V, G>)
    returns (ok: bool, failed: bool)
    requires Takes(b, a, Snapshot, d) && a.Valid() && Exact(cs.row) && Exact(cs.vec) && Exact(cs.logits)
    requires Widths(Snapshot, d, cs)
    modifies b, b.rings
    ensures ok == !failed && b.Sane() && a.Valid() && (a.steady && b.steady ==> ok)
    ensures ok ==> b.Valid() && b.valid && b.checkpoint == a.checkpoint && b.logits == a.logits && b.hidden == a.hidden
    ensures ok && a.Belongs() ==> b.Belongs() && b.told == a.told
    ensures ok ==> forall il :: 0 <= il < |a.caps| ==>
      var n := |a.checkpoint|; var count := LiveRows(n, a.ctx, a.caps[il]);
      |b.slots| == |a.slots| && |b.slots[il]| > 0 && RingRows(b.slots[il], n, count) == RingRows(a.slots[il], n, count)
  {
    ghost var lows := LoadedLows(a.caps, a.lows, |a.checkpoint|, a.ctx);
    ghost var reach := SomeReach(b.caps, lows, |a.checkpoint|);
    var bytes;
    ok, failed, bytes := SaveThenRestore(a, b, Snapshot, d, cs, lows, reach);
    if !ok { return; }
    forall il | 0 <= il < |a.caps|
      ensures RingRows(b.slots[il], |a.checkpoint|, LiveRows(|a.checkpoint|, a.ctx, a.caps[il])) ==
        RingRows(a.slots[il], |a.checkpoint|, LiveRows(|a.checkpoint|, a.ctx, a.caps[il])) {
      ExactRows(cs.row, RingRows(a.slots[il], |a.checkpoint|, LiveRows(|a.checkpoint|, a.ctx, a.caps[il])));
    }
    LoadedKeeps(a.m, a.ctx, a.caps, a.slots, a.lows, a.checkpoint, a.prefillCap, b.ctx, b.caps, b.slots);
  }

  // ---- Saving again what was loaded -----------------------------------------------------------------

  /** Storing what comes back stores the same bytes. */
  ghost predicate Stable<T>(c: Codec<T>, row: KV<T>) {
    c.enc(Stored(c, row).k) == c.enc(row.k) && c.enc(Stored(c, row).v) == c.enc(row.v)
  }

  ghost predicate StableRows<T>(c: Codec<T>, layers: seq<seq<KV<T>>>) {
    forall il, i :: 0 <= il < |layers| && 0 <= i < |layers[il]| ==> Stable(c, layers[il][i])
  }

  lemma {:induction false} SameRowBytes<T>(c: Codec<T>, rows: seq<KV<T>>)
    requires forall i :: 0 <= i < |rows| ==> Stable(c, rows[i])
    ensures RowBytes(c, StoredRows(c, rows)) == RowBytes(c, rows)
  {
    if rows != [] {
      SameRowBytes(c, rows[1..]);
      assert StoredRows(c, rows)[1..] == StoredRows(c, rows[1..]);
    }
  }

  lemma {:induction false} SameLayerBytes<T>(c: Codec<T>, a: seq<seq<KV<T>>>, b: seq<seq<KV<T>>>)
    requires |a| == |b| && StableRows(c, a) && forall il :: 0 <= il < |a| ==> b[il] == StoredRows(c, a[il])
    ensures LayerBytes(c, b) == LayerBytes(c, a)
  {
    if a != [] {
      assert forall i :: 0 <= i < |a[0]| ==> Stable(c, a[0][i]);
      SameRowBytes(c, a[0]);
      assert forall il :: 0 <= il < |a[1..]| ==> a[1..][il] == a[il + 1];
      SameLayerBytes(c, a[1..], b[1..]);
    }
  }

  /** Two sessions with the same tokens, vectors and rows up to storing save the same bytes. */
  lemma SameImage<T, V, G>(kind: Kind, d: Dims, cs: Codecs<T, V, G>, a: Saved<T, V, G>, b: Saved<T, V, G>)
    requires Small(kind, d, a) && a.ctx == b.ctx && a.toks == b.toks && a.logits == b.logits && a.hidden == b.hidden
    requires |a.rows| == |b.rows|
    requires StableRows(cs.row, a.rows)
    requires forall il :: 0 <= il < |a.rows| ==> b.rows[il] == StoredRows(cs.row, a.rows[il])
    ensures Small(kind, d, b) && Image(kind, d, cs, b) == Image(kind, d, cs, a)
  {
    SameLayerBytes(cs.row, a.rows, b.rows);
    assert b.Counts() == a.Counts();
    hide Header, Words, LayerBytes, StableRows, StoredRows;
  }

  /** Saving the restored session writes the image it was restored from. */
  method SaveRestoreSave<T(!new), V(!new), G(!new)>(a: Session<V, KV<T>, G>, b: Session<V, KV<T>, G>, kind: Kind,
                                                    d: Dims, cs: Codecs<T, V, G>)
    returns (ok: bool, failed: bool, bytes: seq<Byte>, again: seq<Byte>)
    requires Takes(b, a, kind, d) && Fixed(cs.row) && Exact(cs.vec) && Exact(cs.logits) && Widths(kind, d, cs)
    requires b.ctx == a.ctx && b.caps == a.caps && StableRows(cs.row, SavedBy(a).rows)
    modifies b, b.rings
    ensures ok == !failed && b.Sane() && Savable(a, kind, d) && (a.steady && b.steady ==> ok)
    ensures ok ==> again == bytes && |bytes| == ImageBytes(kind, d, |a.checkpoint|, SavedBy(a).Counts())
    ensures ok ==> b.checkpoint == a.checkpoint && b.logits == a.logits && b.hidden == a.hidden
    ensures ok ==> RowsStored(cs.row, a, b)
  {
    again := [];
    ok, failed, bytes := SaveThenRestore(a, b, kind, d, cs, [], 0);
    if !ok { return; }
    SavableAgain(a, b, kind, d, cs);
    hide *;
    ExactIsFixed(cs.vec);
    ExactIsFixed(cs.logits);
    var w;
    ok, failed, w := Save(b, kind, d, cs);
    again := w.out;
  }

  lemma SavableAgain<T, V, G>(a: Session<V, KV<T>, G>, b: Session<V, KV<T>, G>, kind: Kind, d: Dims,
                              cs: Codecs<T, V, G>)
    requires Savable(a, kind, d) && b.Sane() && b.valid && b.ctx == a.ctx && b.caps == a.caps && b.vocab == a.vocab
    requires b.checkpoint == a.checkpoint && b.logits == a.logits && b.hidden == a.hidden && RowsStored(cs.row, a, b)
    requires StableRows(cs.row, SavedBy(a).rows)
    ensures Savable(b, kind, d)
    ensures Image(kind, d, cs, SavedOf(b.ctx, b.caps, b.slots, AsWords(b.checkpoint), b.logits, b.hidden)) ==
      Image(kind, d, cs, SavedBy(a))
  {
    hide Image, StableRows, Small, RingRows, StoredRows;
    SameImage(kind, d, cs, SavedBy(a), SavedBy(b));
  }
}
