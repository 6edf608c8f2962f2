/** The quantizer's writer: planning the layout, and writing exactly what was planned. */
module GgufWriter {
  import opened Basics
  import opened Bytes
  import opened GgufFormat

  const IMATRIX_FILE: Str := [113, 117, 97, 110, 116, 105, 122, 101, 46, 105, 109, 97, 116, 114, 105, 120, 46, 102, 105,
    108, 101]
  const IMATRIX_ENTRIES: Str := [113, 117, 97, 110, 116, 105, 122, 101, 46, 105, 109, 97, 116, 114, 105, 120, 46, 101,
    110, 116, 114, 105, 101, 115, 95, 99, 111, 117, 110, 116]
  const IMATRIX_DATASET: Str := [113, 117, 97, 110, 116, 105, 122, 101, 46, 105, 109, 97, 116, 114, 105, 120, 46, 100,
    97, 116, 97, 115, 101, 116]
  const IMATRIX_CHUNKS: Str := [113, 117, 97, 110, 116, 105, 122, 101, 46, 105, 109, 97, 116, 114, 105, 120, 46, 99,
    104, 117, 110, 107, 115, 95, 99, 111, 117, 110, 116]

  datatype Imatrix = Off | On(file: Str, dataset: Option<Str>, entries: nat, chunks: int)

  /** What is taken from the template file: its records without those of an earlier run. */
  datatype Template = Template(version: nat, kvs: seq<KV>, alignment: nat, tensors: seq<Shape>)

  datatype Shape = Shape(name: Str, dims: seq<nat>)

  predicate ShapeOk(s: Shape) {
    |s.name| < U64 && 1 <= |s.dims| <= 4 && forall i :: 0 <= i < |s.dims| ==> s.dims[i] < U64
  }

  predicate TemplateOk(t: Template) {
    && t.version < U32 && KvsOk(t.kvs) && |t.kvs| + 4 < U64 && |t.tensors| < U64 && t.alignment == Aligned(t.kvs)
    && forall i :: 0 <= i < |t.tensors| ==> ShapeOk(t.tensors[i])
  }

  predicate ImatrixOk(im: Imatrix) {
    im.On? ==> |im.file| < U64 && (im.dataset.Some? ==> |im.dataset.value| < U64) && im.entries < U64 && im.chunks < U32
  }

  /** The records about the imatrix of this run. */
  function ImatrixKvs(im: Imatrix): (kvs: seq<KV>)
    requires ImatrixOk(im)
    ensures KvsOk(kvs) && |kvs| <= 4 && forall i :: 0 <= i < |kvs| ==> kvs[i].key != ALIGNMENT_KEY
  {
    if im.Off? then [] else
      [KV(IMATRIX_FILE, Text(im.file)), KV(IMATRIX_ENTRIES, Scalar(UINT64, Word64(im.entries)))]
      + (if im.dataset.Some? then [KV(IMATRIX_DATASET, Text(im.dataset.value))] else [])
      + (if im.chunks > 0 then [KV(IMATRIX_CHUNKS, Scalar(UINT64, Word64(im.chunks)))] else [])
  }

  /** gguf_string_size. */
  function TextSize(s: Str): nat {
    8 + |s|
  }

  /** extra_imatrix_kv_size, added up beforehand, is what write_imatrix_kvs writes. */
  method ExtraSize(im: Imatrix) returns (n: nat)
    requires ImatrixOk(im)
    ensures n == |EncKvs(ImatrixKvs(im))|
  {
    if im.Off? { return 0; }
    n := TextSize(IMATRIX_FILE) + 4 + TextSize(im.file);
    n := n + TextSize(IMATRIX_ENTRIES) + 4 + 8;
    if im.dataset.Some? { n := n + TextSize(IMATRIX_DATASET) + 4 + TextSize(im.dataset.value); }
    if im.chunks > 0 { n := n + TextSize(IMATRIX_CHUNKS) + 4 + 8; }
    ExtraSplit(im);
  }

  function ExtraCount(im: Imatrix): nat {
    if im.Off? then 0 else 2 + (if im.dataset.Some? then 1 else 0) + (if im.chunks > 0 then 1 else 0)
  }

  lemma ExtraSplit(im: Imatrix)
    requires ImatrixOk(im) && im.On?
    ensures EncKvs(ImatrixKvs(im)) == ExtraBytes(im)
  {
    var a := [KV(IMATRIX_FILE, Text(im.file)), KV(IMATRIX_ENTRIES, Scalar(UINT64, Word64(im.entries)))];
    var b := if im.dataset.Some? then [KV(IMATRIX_DATASET, Text(im.dataset.value))] else [];
    var c := if im.chunks > 0 then [KV(IMATRIX_CHUNKS, Scalar(UINT64, Word64(im.chunks)))] else [];
    assert a == [a[0]] + [a[1]] && ImatrixKvs(im) == a + b + c;
    hide EncKv, EncKvs, ImatrixKvs;
    EncKvsMore(a + b, c);
    EncKvsMore(a, b);
    EncKvsMore([a[0]], [a[1]]);
    EncOne(a[0]);
    EncOne(a[1]);
    if b != [] { EncOne(b[0]); } else { EncNone(); }
    if c != [] { EncOne(c[0]); } else { EncNone(); }
  }

  lemma EncOne(kv: KV)
    requires KvOk(kv)
    ensures EncKvs([kv]) == EncKv(kv)
  {
    assert [kv][1..] == [];
    hide EncKv;
  }

  lemma EncNone()
    ensures EncKvs([]) == []
  {
  }

  function ExtraBytes(im: Imatrix): Str
    requires ImatrixOk(im) && im.On?
  {
    ((EncKv(KV(IMATRIX_FILE, Text(im.file))) + EncKv(KV(IMATRIX_ENTRIES, Scalar(UINT64, Word64(im.entries)))))
     + (if im.dataset.Some? then EncKv(KV(IMATRIX_DATASET, Text(im.dataset.value))) else []))
    + (if im.chunks > 0 then EncKv(KV(IMATRIX_CHUNKS, Scalar(UINT64, Word64(im.chunks)))) else [])
  }

  datatype Context = Context(tensors: seq<Tensor>, extra: nat, alignment: nat, tensorBytes: nat, metaSize: nat,
    dataOffset: nat)

  /** Where the padded tensors up to n end. */
  function EndOf(ts: seq<Tensor>, n: nat, align: nat): nat
    requires n <= |ts| && align > 0
  {
    if n == 0 then 0 else EndOf(ts, n - 1, align) + Pad(ts[n - 1].size, align)
  }

  ghost predicate LaidOut(ts: seq<Tensor>, align: nat) {
    align > 0 && forall i: nat :: i < |ts| ==> ts[i].offset == EndOf(ts, i, align)
  }

  /** The tool writes the type, and a row is whole blocks of it. */
  predicate Plannable(s: Shape, ttype: nat) {
    |s.dims| > 0 && Writable(ttype) && s.dims[0] % BlockOf(ttype) == 0
  }

  /** The planned tensor: the shape of the template, the type of the policy. */
  ghost predicate Planned(t: Tensor, s: Shape, ttype: nat) {
    && t.name == s.name && t.dims == s.dims && t.ttype == ttype && ShapeOk(s) && Plannable(s, ttype)
    && t.size == TensorBytes(ttype, s.dims)
  }

  /** build_output_context; the tool gives up on a type it cannot write or a row that is not whole blocks. */
  method BuildOutputContext(t: Template, types: seq<nat>, im: Imatrix) returns (ok: bool, out: Context)
    requires TemplateOk(t) && ImatrixOk(im) && |types| == |t.tensors|
    ensures ok <==> forall i :: 0 <= i < |types| ==> Plannable(t.tensors[i], types[i])
    ensures ok ==> |out.tensors| == |t.tensors| && AllPlanned(out.tensors, t.tensors, types)
    ensures ok ==>
      out.alignment == t.alignment && LaidOut(out.tensors, t.alignment) &&
      out.tensorBytes == EndOf(out.tensors, |out.tensors|, t.alignment)
    ensures ok && TensorsOk(out.tensors) ==> out.metaSize == |Meta(t.version, t.kvs + ImatrixKvs(im), out.tensors)|
    ensures ok ==> out.extra == |ImatrixKvs(im)| && out.dataOffset == Pad(out.metaSize, t.alignment)
  {
    var ts, info, off;
    ok, ts, info, off := PlanTensors(t, types);
    out := Context([], 0, t.alignment, 0, 0, 0);
    if !ok { return; }
    var extraSize := ExtraSize(im);
    var kvRaw := EncKvs(t.kvs);
    EncKvsMore(t.kvs, ImatrixKvs(im));
    var metaSize := 4 + 4 + 8 + 8 + |kvRaw| + extraSize + info;
    out := Context(ts, ExtraCount(im), t.alignment, off, metaSize, Pad(metaSize, t.alignment));
    MetaLength(t.version, t.kvs + ImatrixKvs(im), ts);
    hide Pad, EncKvs, EncTensors, EndOf, Meta, LaidOut, Planned;
  }

  lemma MetaLength(version: nat, kvs: seq<KV>, ts: seq<Tensor>)
    requires version < U32 && KvsOk(kvs) && |kvs| < U64 && |ts| < U64
    ensures TensorsOk(ts) ==> |Meta(version, kvs, ts)| == 4 + 4 + 8 + 8 + |EncKvs(kvs)| + |EncTensors(ts)|
  {
  }

  ghost predicate AllPlanned(ts: seq<Tensor>, shapes: seq<Shape>, types: seq<nat>) {
    |ts| <= |shapes| == |types| && forall j :: 0 <= j < |ts| ==> Planned(ts[j], shapes[j], types[j])
  }

  lemma PlannedMore(ts: seq<Tensor>, t: Tensor, shapes: seq<Shape>, types: seq<nat>)
    requires AllPlanned(ts, shapes, types) && |ts| < |shapes| && Planned(t, shapes[|ts|], types[|ts|])
    ensures AllPlanned(ts + [t], shapes, types)
  {
    hide Planned;
  }

  method PlanTensor(s: Shape, ttype: nat, off: nat) returns (ok: bool, dst: Tensor)
    requires ShapeOk(s)
    ensures ok == Plannable(s, ttype)
    ensures ok ==> Planned(dst, s, ttype) && dst.offset == off && dst.name == s.name && dst.dims == s.dims
  {
    dst := Tensor(s.name, s.dims, ttype, 0, off);
    if !Writable(ttype) { return false, dst; }
    if s.dims[0] % BlockOf(ttype) != 0 { return false, dst; }
    dst := dst.(size := TensorBytes(ttype, s.dims));
    ok := true;
  }

  method PlanTensors(t: Template, types: seq<nat>) returns (ok: bool, ts: seq<Tensor>, info: nat, off: nat)
    requires |types| == |t.tensors| && t.alignment > 0 && forall i :: 0 <= i < |t.tensors| ==> ShapeOk(t.tensors[i])
    ensures ok <==> forall i :: 0 <= i < |types| ==> Plannable(t.tensors[i], types[i])
    ensures ok ==> |ts| == |t.tensors| && AllPlanned(ts, t.tensors, types)
    ensures ok ==> LaidOut(ts, t.alignment) && off == EndOf(ts, |ts|, t.alignment)
    ensures ok && TensorsOk(ts) ==> info == |EncTensors(ts)|
  {
    ts, info, off := [], 0, 0;
    var i := 0;
    while i < |t.tensors|
      invariant 0 <= i <= |t.tensors| && |ts| == i && off == EndOf(ts, i, t.alignment) && LaidOut(ts, t.alignment)
      invariant AllPlanned(ts, t.tensors, types)
      invariant TensorsOk(ts) ==> info == |EncTensors(ts)|
    {
      hide *;
      var s, ty := t.tensors[i], types[i];
      assert ShapeOk(s);
      var dst;
      ok, dst := PlanTensor(s, ty, off);
      if !ok { return; }
      var size := dst.size;
      LaidOutMore(ts, dst, t.alignment);
      InfoMore(ts, dst);
      PlannedMore(ts, dst, t.tensors, types);
      ts := ts + [dst];
      off := off + Pad(size, t.alignment);
      info := info + (8 + |s.name|) + 4 + |s.dims| * 8 + 4 + 8;
      i := i + 1;
    }
    ok := true;
  }

  lemma {:induction false} SameEnd(a: seq<Tensor>, b: seq<Tensor>, n: nat, align: nat)
    requires n <= |a| && align > 0
    ensures EndOf(a + b, n, align) == EndOf(a, n, align)
  {
    hide Pad;
    if n > 0 { SameEnd(a, b, n - 1, align); }
  }

  lemma LaidOutMore(ts: seq<Tensor>, t: Tensor, align: nat)
    requires LaidOut(ts, align) && t.offset == EndOf(ts, |ts|, align)
    ensures LaidOut(ts + [t], align) && EndOf(ts + [t], |ts| + 1, align) == EndOf(ts, |ts|, align) + Pad(t.size, align)
  {
    hide Pad;
    forall i: nat | i <= |ts| ensures EndOf(ts + [t], i, align) == EndOf(ts, i, align) {
      SameEnd(ts, [t], i, align);
    }
  }

  lemma InfoMore(ts: seq<Tensor>, t: Tensor)
    ensures TensorsOk(ts + [t]) ==>
      TensorsOk(ts) && |EncTensors(ts + [t])| == |EncTensors(ts)| + (8 + |t.name|) + 4 + |t.dims| * 8 + 4 + 8
  {
    if TensorsOk(ts + [t]) {
      assert forall i :: 0 <= i < |ts| ==> (ts + [t])[i] == ts[i];
      assert (ts + [t])[|ts|] == t;
      EncTensorsMore(ts, [t]);
      assert [t][1..] == [];
    }
  }

  /** Sums of multiples are multiples. */
  lemma SumOfMultiples(a: nat, b: nat, n: nat)
    requires n > 0 && a % n == 0 && b % n == 0
    ensures (a + b) % n == 0
  {
    var p, q := a / n, b / n;
    assert a == p * n && b == q * n;
    assert a + b == (p + q) * n;
    MultipleOf(p + q, n);
  }

  lemma {:induction false} EndAligned(ts: seq<Tensor>, n: nat, align: nat)
    requires n <= |ts| && align > 0
    ensures EndOf(ts, n, align) % align == 0
  {
    if n > 0 {
      EndAligned(ts, n - 1, align);
      PadUp(ts[n - 1].size, align);
      SumOfMultiples(EndOf(ts, n - 1, align), Pad(ts[n - 1].size, align), align);
    }
  }

  lemma {:induction false} EndGrows(ts: seq<Tensor>, m: nat, n: nat, align: nat)
    requires m <= n <= |ts| && align > 0
    ensures EndOf(ts, m, align) <= EndOf(ts, n, align)
    ensures m < n ==> EndOf(ts, m, align) + ts[m].size <= EndOf(ts, n, align)
  {
    if m < n {
      EndGrows(ts, m, n - 1, align);
      PadUp(ts[n - 1].size, align);
      hide Pad;
    }
  }

  lemma EndNext(ts: seq<Tensor>, i: nat, align: nat)
    requires i < |ts| && align > 0
    ensures EndOf(ts, 0, align) == 0 && EndOf(ts, i + 1, align) < EndOf(ts, i, align) + ts[i].size + align
  {
    PadUp(ts[i].size, align);
  }

  /** Every extent is aligned, ends before the next one begins, and lies inside the data part. */
  lemma Extents(ts: seq<Tensor>, align: nat, i: nat, j: nat)
    requires LaidOut(ts, align) && i < j <= |ts|
    ensures ts[i].offset % align == 0
    ensures ts[i].offset + ts[i].size <= EndOf(ts, |ts|, align)
    ensures j < |ts| ==> ts[i].offset + ts[i].size <= ts[j].offset
  {
    EndAligned(ts, i, align);
    EndGrows(ts, i, j, align);
    EndGrows(ts, i, |ts|, align);
    hide EndOf, Pad;
  }

  /** The first extent begins the data part, and after each less than an alignment is left free. */
  lemma ExtentsTight(ts: seq<Tensor>, align: nat, i: nat)
    requires LaidOut(ts, align) && i < |ts|
    ensures i == 0 ==> ts[i].offset == 0
    ensures (if i + 1 < |ts| then ts[i + 1].offset else EndOf(ts, |ts|, align)) < ts[i].offset + ts[i].size + align
  {
    hide *;
    OffsetIs(ts, align, 0);
    OffsetIs(ts, align, i);
    EndNext(ts, i, align);
    if i + 1 < |ts| { OffsetIs(ts, align, i + 1); }
  }

  lemma OffsetIs(ts: seq<Tensor>, align: nat, i: nat)
    requires LaidOut(ts, align) && i < |ts|
    ensures align > 0 && ts[i].offset == EndOf(ts, i, align)
  {
  }

  ghost predicate SizesMatch(ts: seq<Tensor>, data: seq<Str>) {
    |data| == |ts| && forall i :: 0 <= i < |ts| ==> |data[i]| == ts[i].size
  }

  lemma {:induction false} PayloadLength(ts: seq<Tensor>, data: seq<Str>, align: nat, n: nat)
    requires align > 0 && SizesMatch(ts, data) && n <= |ts|
    ensures |Payload(data[..n], align)| == EndOf(ts, n, align)
  {
    if n > 0 {
      PayloadLength(ts, data, align, n - 1);
      PayloadMore(data, n, align);
      hide Payload, Pad;
    }
  }

  /** The string d is in p from a on. */
  ghost predicate HasAt(p: Str, a: nat, d: Str) {
    a + |d| <= |p| && p[a..a + |d|] == d
  }

  lemma HasLeft(p: Str, q: Str, a: nat, d: Str)
    requires HasAt(p, a, d)
    ensures HasAt(p + q, a, d)
  {
  }

  lemma HasRight(p: Str, q: Str, a: nat, d: Str)
    requires HasAt(q, a, d)
    ensures HasAt(p + q, |p| + a, d)
  {
  }

  lemma HasNext(p: Str, d: Str, z: Str)
    ensures HasAt(p + (d + z), |p|, d)
  {
  }

  /** In the data part tensor i is where its offset says. */
  lemma {:induction false} PayloadAt(ts: seq<Tensor>, data: seq<Str>, align: nat, n: nat, i: nat)
    requires LaidOut(ts, align) && SizesMatch(ts, data) && i < n <= |ts|
    ensures HasAt(Payload(data[..n], align), ts[i].offset, data[i])
  {
    hide *;
    LastOffset(ts, data, align, n);
    if i < n - 1 {
      PayloadAt(ts, data, align, n - 1, i);
      PayloadKeeps(data, align, n, ts[i].offset, data[i]);
    } else {
      PayloadLength(ts, data, align, n - 1);
      PayloadLast(data, align, n);
    }
  }

  lemma PayloadKeeps(data: seq<Str>, align: nat, n: nat, a: nat, d: Str)
    requires 0 < n <= |data| && align > 0 && HasAt(Payload(data[..n - 1], align), a, d)
    ensures HasAt(Payload(data[..n], align), a, d)
  {
    hide *;
    PayloadMore(data, n, align);
    HasLeft(Payload(data[..n - 1], align), data[n - 1] + Zeros(Pad(|data[n - 1]|, align) - |data[n - 1]|), a, d);
  }

  lemma PayloadLast(data: seq<Str>, align: nat, n: nat)
    requires 0 < n <= |data| && align > 0
    ensures HasAt(Payload(data[..n], align), |Payload(data[..n - 1], align)|, data[n - 1])
  {
    hide *;
    PayloadMore(data, n, align);
    HasNext(Payload(data[..n - 1], align), data[n - 1], Zeros(Pad(|data[n - 1]|, align) - |data[n - 1]|));
  }

  lemma LastOffset(ts: seq<Tensor>, data: seq<Str>, align: nat, n: nat)
    requires LaidOut(ts, align) && SizesMatch(ts, data) && 0 < n <= |ts|
    ensures align > 0 && |data| == |ts| && ts[n - 1].offset == EndOf(ts, n - 1, align)
    ensures |data[n - 1]| == ts[n - 1].size
  {
  }

  lemma PayloadMore(data: seq<Str>, n: nat, align: nat)
    requires 0 < n <= |data| && align > 0
    ensures |data[n - 1]| <= Pad(|data[n - 1]|, align)
    ensures Payload(data[..n], align) ==
      Payload(data[..n - 1], align) + (data[n - 1] + Zeros(Pad(|data[n - 1]|, align) - |data[n - 1]|))
  {
    assert data[..n][..n - 1] == data[..n - 1] && data[..n][n - 1] == data[n - 1];
    PadUp(|data[n - 1]|, align);
  }

  /** A file being written from front to back. */
  class OutFile {
    var out: Str

    constructor ()
      ensures out == []
    {
      out := [];
    }

    method Put(s: Str)
      modifies this
      ensures out == old(out) + s
    {
      out := out + s;
    }

    /** write_padding, in pieces of at most 4096 zeros. */
    method PutZeros(n: nat)
      modifies this
      ensures out == old(out) + Zeros(n)
    {
      var left := n;
      while left > 0
        invariant 0 <= left <= n && out == old(out) + Zeros(n - left)
      {
        var chunk := if left < 4096 then left else 4096;
        Put(Zeros(chunk));
        assert Zeros(n - left) + Zeros(chunk) == Zeros(n - (left - chunk));
        left := left - chunk;
      }
    }

    /** write_gguf_string. */
    method PutText(s: Str)
      requires |s| < U64
      modifies this
      ensures out == old(out) + Text64(s)
    {
      Put(Word64(|s|));
      if |s| > 0 { Put(s); }
    }

    method PutKvText(key: Str, value: Str)
      requires |key| < U64 && |value| < U64
      modifies this
      ensures out == old(out) + EncKv(KV(key, Text(value)))
    {
      hide Text64;
      PutText(key);
      Put(Word(STRING));
      PutText(value);
    }

    method PutKvNumber(key: Str, value: nat)
      requires |key| < U64 && value < U64
      modifies this
      ensures out == old(out) + EncKv(KV(key, Scalar(UINT64, Word64(value))))
    {
      hide Text64, Word64;
      PutText(key);
      Put(Word(UINT64));
      Put(Word64(value));
    }
  }

  /** write_imatrix_kvs. */
  method WriteImatrix(im: Imatrix, fp: OutFile)
    requires ImatrixOk(im)
    modifies fp
    ensures fp.out == old(fp.out) + EncKvs(ImatrixKvs(im))
  {
    if im.Off? { return; }
    ExtraSplit(im);
    hide EncKvs, EncKv, ImatrixKvs;
    ghost var o := fp.out;
    fp.PutKvText(IMATRIX_FILE, im.file);
    fp.PutKvNumber(IMATRIX_ENTRIES, im.entries);
    if im.dataset.Some? { fp.PutKvText(IMATRIX_DATASET, im.dataset.value); }
    if im.chunks > 0 { fp.PutKvNumber(IMATRIX_CHUNKS, im.chunks); }
    Regroup4(o, EncKv(KV(IMATRIX_FILE, Text(im.file))), EncKv(KV(IMATRIX_ENTRIES, Scalar(UINT64, Word64(im.entries)))),
             if im.dataset.Some? then EncKv(KV(IMATRIX_DATASET, Text(im.dataset.value))) else [],
             if im.chunks > 0 then EncKv(KV(IMATRIX_CHUNKS, Scalar(UINT64, Word64(im.chunks)))) else []);
  }

  lemma Regroup4(o: Str, a: Str, b: Str, c: Str, d: Str)
    ensures o + (((a + b) + c) + d) == (((o + a) + b) + c) + d
    ensures c == [] ==> ((o + a) + b) + c == (o + a) + b
    ensures d == [] ==> (((o + a) + b) + c) + d == ((o + a) + b) + c
  {
  }

  method WriteDims(dims: seq<nat>, fp: OutFile)
    requires forall i :: 0 <= i < |dims| ==> dims[i] < U64
    modifies fp
    ensures fp.out == old(fp.out) + EncDims(dims)
  {
    ghost var o := fp.out;
    var j := 0;
    while j < |dims|
      invariant 0 <= j <= |dims| && fp.out + EncDims(dims[j..]) == o + EncDims(dims)
    {
      assert dims[j..][1..] == dims[j + 1..];
      hide Word64;
      ghost var was := fp.out;
      fp.Put(Word64(dims[j]));
      assert fp.out + EncDims(dims[j + 1..]) == was + (Word64(dims[j]) + EncDims(dims[j + 1..]));
      j := j + 1;
    }
  }

  method WriteInfos(ts: seq<Tensor>, fp: OutFile)
    requires TensorsOk(ts)
    modifies fp
    ensures fp.out == old(fp.out) + EncTensors(ts)
  {
    ghost var o := fp.out;
    var i := 0;
    while i < |ts|
      invariant 0 <= i <= |ts| && fp.out + EncTensors(ts[i..]) == o + EncTensors(ts)
    {
      assert ts[i..][1..] == ts[i + 1..];
      assert TensorOk(ts[i]);
      ghost var was := fp.out;
      hide EncTensor, TensorOk;
      WriteInfo(ts[i], fp);
      assert fp.out + EncTensors(ts[i + 1..]) == was + (EncTensor(ts[i]) + EncTensors(ts[i + 1..]));
      i := i + 1;
    }
  }

  method WriteInfo(t: Tensor, fp: OutFile)
    requires TensorOk(t)
    modifies fp
    ensures fp.out == old(fp.out) + EncTensor(t)
  {
    hide Text64, Word64, EncDims;
    fp.PutText(t.name);
    fp.Put(Word(|t.dims|));
    WriteDims(t.dims, fp);
    fp.Put(Word(t.ttype));
    fp.Put(Word64(t.offset));
  }

  method WriteData(ts: seq<Tensor>, data: seq<Str>, align: nat, fp: OutFile) returns (ok: bool)
    requires |data| == |ts| && align > 0
    modifies fp
    ensures ok <==> SizesMatch(ts, data)
    ensures ok ==> fp.out == old(fp.out) + Payload(data, align)
  {
    ghost var o := fp.out;
    var i := 0;
    while i < |ts|
      invariant 0 <= i <= |ts| && fp.out == o + Payload(data[..i], align)
      invariant forall j :: 0 <= j < i ==> |data[j]| == ts[j].size
    {
      if |data[i]| != ts[i].size { return false; }
      assert data[..i + 1][..i] == data[..i];
      PadUp(|data[i]|, align);
      hide Pad;
      fp.Put(data[i]);
      fp.PutZeros(Pad(|data[i]|, align) - |data[i]|);
      i := i + 1;
    }
    assert data[..|data|] == data;
    ok := true;
  }

  /** write_full_gguf. */
  method WriteFull(t: Template, ctx: Context, im: Imatrix, data: seq<Str>, fp: OutFile) returns (ok: bool)
    requires TemplateOk(t) && ImatrixOk(im) && TensorsOk(ctx.tensors) && |ctx.tensors| == |t.tensors| == |data|
    requires ctx.extra == |ImatrixKvs(im)| && ctx.alignment == t.alignment
    requires ctx.dataOffset == Pad(ctx.metaSize, t.alignment)
    requires ctx.metaSize == |Meta(t.version, t.kvs + ImatrixKvs(im), ctx.tensors)| && fp.out == []
    modifies fp
    ensures ok <==> SizesMatch(ctx.tensors, data)
    ensures ok ==> fp.out == Image(t.version, t.kvs + ImatrixKvs(im), ctx.tensors, t.alignment, data)
  {
    WriteMeta(t, ctx, im, fp);
    PadUp(ctx.metaSize, ctx.alignment);
    ghost var m := fp.out;
    assert |m| == ctx.metaSize;
    var room := ctx.dataOffset - |fp.out|;
    if room < 0 { return false; }
    assert Image(t.version, t.kvs + ImatrixKvs(im), ctx.tensors, t.alignment, data) ==
      m + (Zeros(room) + Payload(data, t.alignment));
    Regroup3(m, Zeros(room), Payload(data, t.alignment));
    hide *;
    fp.PutZeros(room);
    ok := WriteData(ctx.tensors, data, ctx.alignment, fp);
  }

  lemma Regroup3(a: Str, b: Str, c: Str)
    ensures a + (b + c) == (a + b) + c
  {
  }

  method WriteMeta(t: Template, ctx: Context, im: Imatrix, fp: OutFile)
    requires TemplateOk(t) && ImatrixOk(im) && TensorsOk(ctx.tensors) && |ctx.tensors| == |t.tensors|
    requires ctx.extra == |ImatrixKvs(im)| && fp.out == []
    modifies fp
    ensures fp.out == Meta(t.version, t.kvs + ImatrixKvs(im), ctx.tensors)
  {
    hide *;
    MetaIs(t, ctx.tensors, im);
    WriteHead(t.version, |t.tensors|, |t.kvs| + ctx.extra, fp);
    WriteRecords(t.kvs, ctx.tensors, im, fp);
  }

  method WriteRecords(kvs: seq<KV>, ts: seq<Tensor>, im: Imatrix, fp: OutFile)
    requires KvsOk(kvs) && ImatrixOk(im) && TensorsOk(ts)
    modifies fp
    ensures fp.out == old(fp.out) + ((EncKvs(kvs) + EncKvs(ImatrixKvs(im))) + EncTensors(ts))
  {
    hide *;
    Regroup(fp.out, EncKvs(kvs), EncKvs(ImatrixKvs(im)), EncTensors(ts));
    fp.Put(EncKvs(kvs));
    WriteImatrix(im, fp);
    WriteInfos(ts, fp);
  }

  lemma Regroup(h: Str, a: Str, b: Str, c: Str)
    ensures h + ((a + b) + c) == ((h + a) + b) + c
  {
  }

  method WriteHead(version: nat, nTensors: nat, nKvs: nat, fp: OutFile)
    requires version < U32 && nTensors < U64 && nKvs < U64 && fp.out == []
    modifies fp
    ensures fp.out == Head(version, nTensors, nKvs)
  {
    hide Word, Word64;
    fp.Put(MAGIC);
    fp.Put(Word(version));
    fp.Put(Word64(nTensors));
    fp.Put(Word64(nKvs));
  }

  lemma MetaIs(t: Template, ts: seq<Tensor>, im: Imatrix)
    requires TemplateOk(t) && ImatrixOk(im) && TensorsOk(ts) && |ts| == |t.tensors|
    ensures t.version < U32 && |t.tensors| < U64 && |t.kvs| + |ImatrixKvs(im)| == |t.kvs + ImatrixKvs(im)| < U64
    ensures KvsOk(t.kvs)
    ensures Meta(t.version, t.kvs + ImatrixKvs(im), ts) ==
      Head(t.version, |ts|, |t.kvs + ImatrixKvs(im)|) + ((EncKvs(t.kvs) + EncKvs(ImatrixKvs(im))) + EncTensors(ts))
  {
    EncKvsMore(t.kvs, ImatrixKvs(im));
    hide EncKvs, EncTensors, Head, ImatrixKvs, KvsOk;
  }
}
