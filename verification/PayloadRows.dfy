/** Payload files: cache rows stored as signed bytes with a scale for every 64 of them. */
module PayloadRows {
  import opened Basics
  import opened Bytes
  import opened Rounding
  import opened KvTheory
  import opened KvSession
  import opened SessionImage
  import KvCodec

  function Floats(v: seq<real>): (f: seq<KvCodec.Float>)
    ensures |f| == |v| && forall i :: 0 <= i < |f| ==> f[i] == KvCodec.Finite(v[i])
  {
    seq(|v|, i requires 0 <= i < |v| => KvCodec.Finite(v[i]))
  }

  function Encoded(row: seq<KvCodec.Float>): KvCodec.Row {
    KvCodec.EncodeOf(KvCodec.Vals(row), KV_GROUP)
  }

  // ---- The bytes of a row: the scales as floats, then the codes as signed bytes -------------------------

  function SignedByte(k: int): Byte {
    if 0 <= k < 128 then k else if -128 <= k < 0 then k + 256 else 0
  }

  function Signed(b: Byte): int {
    if b < 128 then b else b - 256
  }

  function ScaleBytes(f: Codec<real>, scales: seq<real>): seq<Byte> {
    if scales == [] then [] else f.enc(scales[0]) + ScaleBytes(f, scales[1..])
  }

  function CodeBytes(codes: seq<int>): (b: seq<Byte>)
    ensures |b| == |codes|
  {
    seq(|codes|, i requires 0 <= i < |codes| => SignedByte(codes[i]))
  }

  function LaidOut(f: Codec<real>, r: KvCodec.Row): seq<Byte> {
    ScaleBytes(f, r.scales) + CodeBytes(r.codes)
  }

  function ReadScales(f: Codec<real>, b: seq<Byte>, n: nat): seq<real> {
    if n == 0 || |b| < f.size then [] else [f.dec(b[..f.size])] + ReadScales(f, b[f.size..], n - 1)
  }

  function ReadCodes(b: seq<Byte>, from: nat, n: nat): seq<int> {
    if |b| < from + n then [] else seq(n, i requires 0 <= i < n => Signed(b[from + i]))
  }

  function ReadRowBytes(f: Codec<real>, elems: nat, b: seq<Byte>): KvCodec.Row {
    KvCodec.Row(ReadScales(f, b, Groups(elems, KV_GROUP)), ReadCodes(b, Groups(elems, KV_GROUP) * 4, elems))
  }

  function Fit(b: seq<Byte>, size: nat): (r: seq<Byte>)
    ensures |r| == size
  {
    if |b| == size then b else seq(size, _ => 0)
  }

  /** The layout of rows of `elems` elements, with f for a float of four bytes. */
  function RowCodec(f: Codec<real>, elems: nat): Codec<KvCodec.Row> {
    var size := EncodedRow(elems, KV_GROUP);
    Codec(size, (r: KvCodec.Row) => Fit(LaidOut(f, r), size), (b: seq<Byte>) => ReadRowBytes(f, elems, b))
  }

  lemma {:induction false} ScalesBack(f: Codec<real>, scales: seq<real>, rest: seq<Byte>)
    requires Fixed(f) && f.size == 4 && forall g :: 0 <= g < |scales| ==> f.dec(f.enc(scales[g])) == scales[g]
    ensures |ScaleBytes(f, scales)| == 4 * |scales|
    ensures ReadScales(f, ScaleBytes(f, scales) + rest, |scales|) == scales
  {
    if scales != [] {
      ScalesBack(f, scales[1..], rest);
      var b := ScaleBytes(f, scales) + rest;
      assert |f.enc(scales[0])| == 4 && f.dec(f.enc(scales[0])) == scales[0];
      assert b[..4] == f.enc(scales[0]) && b[4..] == ScaleBytes(f, scales[1..]) + rest;
    }
  }

  /** The row comes back from its bytes if its codes are signed bytes and its scales floats. */
  lemma RowBack(f: Codec<real>, elems: nat, r: KvCodec.Row)
    requires Fixed(f) && f.size == 4 && KvCodec.Shaped(r, elems, KV_GROUP)
    requires forall g :: 0 <= g < |r.scales| ==> f.dec(f.enc(r.scales[g])) == r.scales[g]
    requires forall i :: 0 <= i < elems ==> -127 <= r.codes[i] <= 127
    ensures RowCodec(f, elems).enc(r) == LaidOut(f, r) && RowCodec(f, elems).dec(LaidOut(f, r)) == r
  {
    ScalesBack(f, r.scales, CodeBytes(r.codes));
    CodesBack(ScaleBytes(f, r.scales), r.codes);
    hide ScaleBytes, ReadScales, CodeBytes, ReadCodes, Fixed;
  }

  lemma SignBack(k: int)
    requires -128 <= k < 128
    ensures Signed(SignedByte(k)) == k
  {
  }

  lemma CodesBack(front: seq<Byte>, codes: seq<int>)
    requires forall i :: 0 <= i < |codes| ==> -127 <= codes[i] <= 127
    ensures ReadCodes(front + CodeBytes(codes), |front|, |codes|) == codes
  {
    var b, n := front + CodeBytes(codes), |front|;
    var back := ReadCodes(b, n, |codes|);
    assert |back| == |codes|;
    forall i | 0 <= i < |codes| ensures back[i] == codes[i] {
      assert b[n + i] == CodeBytes(codes)[i] == SignedByte(codes[i]);
      assert back[i] == Signed(b[n + i]);
      SignBack(codes[i]);
    }
  }

  /** A row of `elems` elements whose scales f stores as they are. */
  ghost predicate Storable(f: Codec<real>, elems: nat, row: seq<KvCodec.Float>) {
    |row| == elems && forall g: nat :: g < |Encoded(row).scales| ==>
      f.dec(f.enc(Encoded(row).scales[g])) == Encoded(row).scales[g]
  }

  lemma StorableKept(f: Codec<real>, elems: nat, row: seq<KvCodec.Float>)
    requires Fixed(f) && f.size == 4 && Storable(f, elems, row)
    ensures Kept(RowCodec(f, elems), row)
  {
    var r := Encoded(row);
    KvCodec.CodesInRange(KvCodec.Vals(row), KV_GROUP);
    hide Fixed, LaidOut, KvCodec.EncodeOf, RowCodec;
    RowBack(f, elems, r);
  }

  ghost predicate AllStorable(f: Codec<real>, elems: nat, layers: seq<seq<KV<Row>>>) {
    forall il, i :: 0 <= il < |layers| && 0 <= i < |layers[il]| ==>
      Storable(f, elems, layers[il][i].k) && Storable(f, elems, layers[il][i].v)
  }

  lemma AllStorableKept(f: Codec<real>, elems: nat, layers: seq<seq<KV<Row>>>)
    requires Fixed(f) && f.size == 4 && AllStorable(f, elems, layers)
    ensures AllKept(RowCodec(f, elems), layers) && Fixed(RowCodec(f, elems))
  {
    forall il, i | 0 <= il < |layers| && 0 <= i < |layers[il]|
      ensures Kept(RowCodec(f, elems), layers[il][i].k) && Kept(RowCodec(f, elems), layers[il][i].v)
    {
      StorableKept(f, elems, layers[il][i].k);
      StorableKept(f, elems, layers[il][i].v);
    }
    var c := RowCodec(f, elems);
    forall r ensures |c.enc(r)| == c.size { assert c.enc(r) == Fit(LaidOut(f, r), c.size); }
  }

  /** Rows through the int8 form; `raw` lays the scales and the bytes out. */
  function Int8(raw: Codec<KvCodec.Row>): Codec<seq<KvCodec.Float>> {
    Codec(raw.size, (row: seq<KvCodec.Float>) => raw.enc(Encoded(row)),
      (b: seq<Byte>) => Floats(KvCodec.DecodeOf(raw.dec(b), KV_GROUP)))
  }

  /** The layout gives back the scales and bytes of this row. */
  ghost predicate Kept(raw: Codec<KvCodec.Row>, row: seq<KvCodec.Float>) {
    raw.dec(raw.enc(Encoded(row))) == Encoded(row)
  }

  lemma ValsOfFloats(v: seq<real>)
    ensures KvCodec.Vals(Floats(v)) == v
  {
  }

  function Restored(raw: Codec<KvCodec.Row>, row: seq<KvCodec.Float>): seq<KvCodec.Float> {
    Int8(raw).dec(Int8(raw).enc(row))
  }

  lemma RestoredIs(raw: Codec<KvCodec.Row>, row: seq<KvCodec.Float>)
    requires Kept(raw, row)
    ensures Restored(raw, row) == Floats(KvCodec.DecodeOf(Encoded(row), KV_GROUP))
    ensures KvCodec.Encodes(Encoded(row), KvCodec.Vals(row), KV_GROUP)
    ensures KvCodec.Decodes(KvCodec.Vals(Restored(raw, row)), Encoded(row), KV_GROUP)
  {
    var v, r := KvCodec.Vals(row), Encoded(row);
    KvCodec.EncodeOfEncodes(v, KV_GROUP);
    KvCodec.DecodeOfDecodes(r, |row|, KV_GROUP);
    ValsOfFloats(KvCodec.DecodeOf(r, KV_GROUP));
    hide KvCodec.EncodeOf, KvCodec.DecodeOf, KvCodec.Encodes, KvCodec.Decodes;
  }

  /** Every element of every group comes back within the 254th part of the group's largest. */
  ghost predicate Close(row: seq<KvCodec.Float>, back: seq<KvCodec.Float>) {
    && |back| == |row|
    && forall g: nat, i: nat {:trigger KvCodec.InGroup(g, i, KV_GROUP, |row|)} :: KvCodec.InGroup(g, i, KV_GROUP,
      |row|) ==>
         back[i].Finite? &&
           Abs(KvCodec.Val(row[i]) - back[i].v) <= KvCodec.GroupMax(KvCodec.Vals(row), KV_GROUP, g) / 254.0
  }

  lemma RestoredClose(raw: Codec<KvCodec.Row>, row: seq<KvCodec.Float>)
    requires Kept(raw, row)
    ensures Close(row, Restored(raw, row))
  {
    RestoredIs(raw, row);
    var v, r, back := KvCodec.Vals(row), Encoded(row), Restored(raw, row);
    hide KvCodec.GroupMax, KvCodec.Encodes, KvCodec.Decodes, Encoded;
    forall g: nat, i: nat | KvCodec.InGroup(g, i, KV_GROUP, |row|)
      ensures back[i].Finite? && Abs(v[i] - back[i].v) <= KvCodec.GroupMax(v, KV_GROUP, g) / 254.0 {
      KvCodec.WithinHalfStep(v, r, KvCodec.Vals(back), KV_GROUP, g, i);
    }
  }

  /** Storing a restored row stores the same bytes. */
  lemma RestoredStable(raw: Codec<KvCodec.Row>, row: seq<KvCodec.Float>)
    requires Kept(raw, row)
    ensures Int8(raw).enc(Restored(raw, row)) == Int8(raw).enc(row)
  {
    RestoredIs(raw, row);
    var back := KvCodec.Vals(Restored(raw, row));
    KvCodec.EncodeOfEncodes(back, KV_GROUP);
    hide KvCodec.Encodes, KvCodec.Decodes, KvCodec.EncodeOf;
    KvCodec.EncodingAgain(KvCodec.Vals(row), Encoded(row), back, Encoded(Restored(raw, row)), KV_GROUP);
  }

  type Row = seq<KvCodec.Float>

  ghost predicate AllKept(raw: Codec<KvCodec.Row>, layers: seq<seq<KV<Row>>>) {
    forall il, i :: 0 <= il < |layers| && 0 <= i < |layers[il]| ==>
      Kept(raw, layers[il][i].k) && Kept(raw, layers[il][i].v)
  }

  lemma AllStable(raw: Codec<KvCodec.Row>, layers: seq<seq<KV<Row>>>)
    requires AllKept(raw, layers)
    ensures StableRows(Int8(raw), layers)
  {
    forall il, i | 0 <= il < |layers| && 0 <= i < |layers[il]| ensures Stable(Int8(raw), layers[il][i]) {
      RestoredStable(raw, layers[il][i].k);
      RestoredStable(raw, layers[il][i].v);
    }
  }

  ghost predicate AllClose(a: seq<KV<Row>>, b: seq<KV<Row>>) {
    |a| == |b| && forall i :: 0 <= i < |a| ==> Close(a[i].k, b[i].k) && Close(a[i].v, b[i].v)
  }

  lemma StoredClose(raw: Codec<KvCodec.Row>, rows: seq<KV<Row>>)
    requires forall i :: 0 <= i < |rows| ==> Kept(raw, rows[i].k) && Kept(raw, rows[i].v)
    ensures AllClose(rows, StoredRows(Int8(raw), rows))
  {
    forall i | 0 <= i < |rows|
      ensures Close(rows[i].k, StoredRows(Int8(raw), rows)[i].k) && Close(rows[i].v, StoredRows(Int8(raw), rows)[i].v)
    {
      RestoredClose(raw, rows[i].k);
      RestoredClose(raw, rows[i].v);
    }
    hide Close;
  }

  lemma WidthsOf<V, G>(f: Codec<real>, d: Dims, vec: Codec<V>, logits: Codec<G>)
    requires vec.size == d.embd * 4 && logits.size == d.vocab * 4
    ensures Widths(Payload, d, Codecs(Int8(RowCodec(f, d.kvHeads * d.headDim)), vec, logits))
  {
  }

  /** A payload saved and loaded into another session: accepted, of the predicted size, with tokens,
      logits and hidden as they were and every retained row within the 254th part of its groups' largest. */
  method PayloadThenLoad<V(!new), G(!new)>(a: Session<V, KV<Row>, G>, b: Session<V, KV<Row>, G>, d: Dims,
                                           f: Codec<real>,
                                           vec: Codec<V>, logits: Codec<G>)
    returns (ok: bool, failed: bool, bytes: seq<Byte>)
    requires Takes(b, a, Payload, d) && Fixed(f) && f.size == 4 && Exact(vec) && Exact(logits)
    requires vec.size == d.embd * 4 && logits.size == d.vocab * 4
    requires AllStorable(f, d.kvHeads * d.headDim, SavedBy(a).rows)
    modifies b, b.rings
    ensures ok == !failed && b.Sane() && Savable(a, Payload, d) && (a.steady && b.steady ==> ok)
    ensures ok ==> b.valid && b.checkpoint == a.checkpoint && b.logits == a.logits && b.hidden == a.hidden
    ensures ok ==> |bytes| == ImageBytes(Payload, d, |a.checkpoint|, SavedBy(a).Counts()) && RowsClose(a, b)
  {
    var raw := RowCodec(f, d.kvHeads * d.headDim);
    AllStorableKept(f, d.kvHeads * d.headDim, SavedBy(a).rows);
    WidthsOf(f, d, vec, logits);
    FixedInt8(raw);
    hide RowCodec, AllStorable, AllKept, Widths, Int8;
    ok, failed, bytes := SaveThenRestore(a, b, Payload, d, Codecs(Int8(raw), vec, logits), [], 0);
    if ok { AllRowsClose(raw, a, b); }
  }

  /** Saving the loaded session again writes the same file. */
  method PayloadAgain<V(!new), G(!new)>(a: Session<V, KV<Row>, G>, b: Session<V, KV<Row>, G>, d: Dims,
                                        f: Codec<real>,
                                        vec: Codec<V>, logits: Codec<G>)
    returns (ok: bool, failed: bool, bytes: seq<Byte>, again: seq<Byte>)
    requires Takes(b, a, Payload, d) && Fixed(f) && f.size == 4 && Exact(vec) && Exact(logits)
    requires vec.size == d.embd * 4 && logits.size == d.vocab * 4
    requires AllStorable(f, d.kvHeads * d.headDim, SavedBy(a).rows)
    requires b.ctx == a.ctx && b.caps == a.caps
    modifies b, b.rings
    ensures ok == !failed && b.Sane() && Savable(a, Payload, d) && (a.steady && b.steady ==> ok)
    ensures ok ==> again == bytes && b.checkpoint == a.checkpoint
    ensures ok ==> |bytes| == ImageBytes(Payload, d, |a.checkpoint|, SavedBy(a).Counts())
  {
    var raw := RowCodec(f, d.kvHeads * d.headDim);
    AllStorableKept(f, d.kvHeads * d.headDim, SavedBy(a).rows);
    WidthsOf(f, d, vec, logits);
    FixedInt8(raw);
    hide RowCodec, AllStorable, AllKept, Widths, Int8;
    AllStable(raw, SavedBy(a).rows);
    ok, failed, bytes, again := SaveRestoreSave(a, b, Payload, d, Codecs(Int8(raw), vec, logits));
  }

  ghost predicate RowsClose<V, G>(a: Session<V, KV<Row>, G>, b: Session<V, KV<Row>, G>)
    reads a, a.rings, b, b.rings
  {
    && a.Sane() && b.Sane() && |b.caps| == |a.caps|
    && forall il :: 0 <= il < |a.caps| ==>
         var n := |a.checkpoint|; var count := LiveRows(n, a.ctx, a.caps[il]);
         AllClose(RingRows(a.slots[il], n, count), RingRows(b.slots[il], n, count))
  }

  lemma AllRowsClose<V, G>(raw: Codec<KvCodec.Row>, a: Session<V, KV<Row>, G>, b: Session<V, KV<Row>, G>)
    requires a.Sane() && b.Sane() && |b.caps| == |a.caps| && RowsStored(Int8(raw), a, b)
    requires (forall i :: 0 <= i < |a.checkpoint| ==> a.checkpoint[i] >= 0) && AllKept(raw, SavedBy(a).rows)
    ensures RowsClose(a, b)
  {
    hide AllClose, RingRows, StoredRows;
    forall il | 0 <= il < |a.caps|
      ensures AllClose(RingRows(a.slots[il], |a.checkpoint|, LiveRows(|a.checkpoint|, a.ctx, a.caps[il])),
        RingRows(b.slots[il], |a.checkpoint|, LiveRows(|a.checkpoint|, a.ctx, a.caps[il]))) {
      var rows := SavedBy(a).rows[il];
      assert rows == RingRows(a.slots[il], |a.checkpoint|, LiveRows(|a.checkpoint|, a.ctx, a.caps[il]));
      StoredClose(raw, rows);
    }
  }

  lemma FixedInt8(raw: Codec<KvCodec.Row>)
    requires Fixed(raw)
    ensures Fixed(Int8(raw))
  {
    var c := Int8(raw);
    forall row ensures |c.enc(row)| == c.size {
      assert c.enc(row) == raw.enc(Encoded(row));
    }
  }
}
