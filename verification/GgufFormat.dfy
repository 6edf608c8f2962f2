/** The layout of a model file: metadata records, tensor records, and tensor data at aligned offsets. */
module GgufFormat {
  import opened Bytes

  const U64: nat := 0x1_0000_0000_0000_0000
  const MAGIC: Str := [71, 71, 85, 70]
  const UINT32: nat := 4
  const STRING: nat := 8
  const ARRAY: nat := 9
  const UINT64: nat := 10
  const ALIGNMENT_KEY: Str := [103, 101, 110, 101, 114, 97, 108, 46, 97, 108, 105, 103, 110, 109, 101, 110, 116]

  function Word64(v: nat): (b: Str)
    requires v < U64
    ensures |b| == 8
  {
    Word(v % U32) + Word(v / U32)
  }

  function Text64(s: Str): (b: Str)
    requires |s| < U64
    ensures |b| == 8 + |s|
  {
    Word64(|s|) + s
  }

  /** gguf_scalar_size of the writer and gguf_value_size of the reader. */
  function ScalarSize(t: nat): nat {
    if t == 0 || t == 1 || t == 7 then 1
    else if t == 2 || t == 3 then 2
    else if 4 <= t <= 6 then 4
    else if 10 <= t <= 12 then 8
    else 0
  }

  /** The metadata values that the writer copies: it refuses arrays of arrays. */
  datatype Value = Scalar(t: nat, raw: Str) | Text(s: Str) | Scalars(t: nat, n: nat, raw: Str) | Texts(items: seq<Str>)

  datatype KV = KV(key: Str, value: Value)

  predicate ValueOk(v: Value) {
    match v
    case Scalar(t, raw) => ScalarSize(t) > 0 && |raw| == ScalarSize(t)
    case Text(s) => |s| < U64
    case Scalars(t, n, raw) => ScalarSize(t) > 0 && n * ScalarSize(t) < U64 && |raw| == n * ScalarSize(t)
    case Texts(items) => |items| < U64 && forall i :: 0 <= i < |items| ==> |items[i]| < U64
  }

  function TypeOf(v: Value): (t: nat)
    requires ValueOk(v)
    ensures t < U32
  {
    match v
    case Scalar(t, _) => t
    case Text(_) => STRING
    case Scalars(_, _, _) => ARRAY
    case Texts(_) => ARRAY
  }

  function EncTexts(items: seq<Str>): Str
    requires forall i :: 0 <= i < |items| ==> |items[i]| < U64
  {
    if items == [] then [] else Text64(items[0]) + EncTexts(items[1..])
  }

  function EncValue(v: Value): Str
    requires ValueOk(v)
  {
    match v
    case Scalar(_, raw) => raw
    case Text(s) => Text64(s)
    case Scalars(t, n, raw) => Word(t) + (Word64(n) + raw)
    case Texts(items) => Word(STRING) + (Word64(|items|) + EncTexts(items))
  }

  predicate KvOk(kv: KV) {
    |kv.key| < U64 && ValueOk(kv.value)
  }

  predicate KvsOk(kvs: seq<KV>) {
    forall i :: 0 <= i < |kvs| ==> KvOk(kvs[i])
  }

  function EncKv(kv: KV): Str
    requires KvOk(kv)
  {
    Text64(kv.key) + (Word(TypeOf(kv.value)) + EncValue(kv.value))
  }

  function EncKvs(kvs: seq<KV>): Str
    requires KvsOk(kvs)
  {
    if kvs == [] then [] else EncKv(kvs[0]) + EncKvs(kvs[1..])
  }

  lemma {:induction false} EncKvsMore(a: seq<KV>, b: seq<KV>)
    requires KvsOk(a) && KvsOk(b)
    ensures EncKvs(a + b) == EncKvs(a) + EncKvs(b)
  {
    hide EncKv;
    if a == [] {
      assert a + b == b;
    } else {
      EncKvsMore(a[1..], b);
      assert (a + b)[1..] == a[1..] + b && (a + b)[0] == a[0];
    }
  }

  /** The alignment in force after the records: the last one given that is not zero. */
  function Aligned(kvs: seq<KV>): (a: nat)
    ensures a > 0
  {
    if kvs == [] then 32 else
      var kv := kvs[|kvs| - 1];
      if kv.key == ALIGNMENT_KEY && kv.value.Scalar? && kv.value.t == UINT32 && |kv.value.raw| == 4 &&
        Unword(kv.value.raw) != 0 then
        Unword(kv.value.raw)
      else Aligned(kvs[..|kvs| - 1])
  }

  /** Block size and block bytes of the tensor types that are written. */
  function BlockOf(t: nat): nat {
    if t == 8 then 32 else if t == 10 || t == 11 || t == 12 || t == 16 then 256 else 1
  }

  function BytesOf(t: nat): nat {
    if t == 0 || t == 26 then 4 else if t == 1 || t == 30 then 2 else if t == 8 then 34
    else if t == 10 then 84 else if t == 11 then 110 else if t == 12 then 144 else if t == 16 then 66 else 0
  }

  predicate Writable(t: nat) {
    t in {0, 1, 8, 10, 11, 12, 16, 26, 30}
  }

  /** The types the engine reads. */
  predicate Supported(t: nat) {
    t in {0, 1, 8, 10, 11, 30}
  }

  function Product(dims: seq<nat>): nat {
    if dims == [] then 1 else Product(dims[..|dims| - 1]) * dims[|dims| - 1]
  }

  /** tensor_nbytes of the writer: the bytes of a row times the other dimensions. */
  function TensorBytes(t: nat, dims: seq<nat>): nat
    requires |dims| > 0
  {
    if |dims| == 1 then dims[0] / BlockOf(t) * BytesOf(t) else TensorBytes(t, dims[..|dims| - 1]) * dims[|dims| - 1]
  }

  datatype Tensor = Tensor(name: Str, dims: seq<nat>, ttype: nat, size: nat, offset: nat)

  predicate TensorOk(t: Tensor) {
    && |t.name| < U64 && 1 <= |t.dims| <= 4 && (forall i :: 0 <= i < |t.dims| ==> t.dims[i] < U64)
    && t.ttype < U32 && t.offset < U64
  }

  predicate TensorsOk(ts: seq<Tensor>) {
    forall i :: 0 <= i < |ts| ==> TensorOk(ts[i])
  }

  function EncDims(dims: seq<nat>): (b: Str)
    requires forall i :: 0 <= i < |dims| ==> dims[i] < U64
    ensures |b| == 8 * |dims|
  {
    if dims == [] then [] else Word64(dims[0]) + EncDims(dims[1..])
  }

  function EncTensor(t: Tensor): (b: Str)
    requires TensorOk(t)
    ensures |b| == 8 + |t.name| + 4 + 8 * |t.dims| + 4 + 8
  {
    Text64(t.name) + (Word(|t.dims|) + (EncDims(t.dims) + (Word(t.ttype) + Word64(t.offset))))
  }

  function EncTensors(ts: seq<Tensor>): Str
    requires TensorsOk(ts)
  {
    if ts == [] then [] else EncTensor(ts[0]) + EncTensors(ts[1..])
  }

  function Pad(x: nat, n: nat): nat
    requires n > 0
  {
    (x + n - 1) / n * n
  }

  /** Padding rounds up to the next multiple. */
  lemma PadUp(x: nat, n: nat)
    requires n > 0
    ensures x <= Pad(x, n) < x + n && Pad(x, n) % n == 0
  {
    var k := (x + n - 1) / n;
    assert x + n - 1 == k * n + (x + n - 1) % n;
    MultipleOf(k, n);
  }

  lemma MultipleOf(k: nat, n: nat)
    requires n > 0
    ensures k * n % n == 0
  {
    var q, r := k * n / n, k * n % n;
    assert k * n == q * n + r;
    assert (k - q) * n == r;
    AtLeastOne(k - q, n);
  }

  lemma AtLeastOne(a: int, n: int)
    requires n > 0
    ensures a >= 1 ==> a * n >= n
    ensures a <= -1 ==> a * n <= -n
  {
  }

  function Zeros(n: nat): (z: Str)
    ensures |z| == n
  {
    seq(n, _ => 0)
  }

  /** The tensor data one after the other, each padded to the alignment. */
  function Payload(data: seq<Str>, align: nat): Str
    requires align > 0
  {
    if data == [] then [] else
      var d := data[|data| - 1];
      PadUp(|d|, align);
      Payload(data[..|data| - 1], align) + (d + Zeros(Pad(|d|, align) - |d|))
  }

  function Head(version: nat, nTensors: nat, nKvs: nat): (b: Str)
    requires version < U32 && nTensors < U64 && nKvs < U64
    ensures |b| == 24
  {
    MAGIC + (Word(version) + (Word64(nTensors) + Word64(nKvs)))
  }

  function Meta(version: nat, kvs: seq<KV>, ts: seq<Tensor>): Str
    requires version < U32 && KvsOk(kvs) && TensorsOk(ts) && |kvs| < U64 && |ts| < U64
  {
    Head(version, |ts|, |kvs|) + (EncKvs(kvs) + EncTensors(ts))
  }

  function Image(version: nat, kvs: seq<KV>, ts: seq<Tensor>, align: nat, data: seq<Str>): Str
    requires version < U32 && KvsOk(kvs) && TensorsOk(ts) && |kvs| < U64 && |ts| < U64 && align > 0
  {
    var m := Meta(version, kvs, ts);
    PadUp(|m|, align);
    m + (Zeros(Pad(|m|, align) - |m|) + Payload(data, align))
  }

  lemma {:induction false} EncTensorsMore(a: seq<Tensor>, b: seq<Tensor>)
    requires TensorsOk(a) && TensorsOk(b)
    ensures EncTensors(a + b) == EncTensors(a) + EncTensors(b)
  {
    hide EncTensor;
    if a == [] {
      assert a + b == b;
    } else {
      EncTensorsMore(a[1..], b);
      assert (a + b)[1..] == a[1..] + b && (a + b)[0] == a[0];
    }
  }
}
