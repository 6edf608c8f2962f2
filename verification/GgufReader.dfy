/** The engine's reader of model files, and what it recovers from what the writer wrote. */
module GgufReader {
  import opened Bytes
  import opened GgufFormat
  import opened GgufWriter

  const VERSION: nat := 3
  const MAX_DIMS: nat := 8
  /** The size of a file is a signed 64-bit number. */
  const MAX_FILE: nat := 0x7FFF_FFFF_FFFF_FFFF

  datatype Found = Found(name: Str, dims: seq<nat>, ttype: nat, nbytes: nat, relOffset: nat)

  datatype Model = Model(kvs: seq<(Str, nat)>, tensors: seq<Found>, alignment: nat, dataOffset: nat)

  /** cursor_u64; when the file goes on with the word w, it is read. */
  method ReadU64(c: Reader, ghost w: nat, ghost rest: Str) returns (ok: bool, v: nat)
    requires c.Valid() && w < U64
    modifies c`pos
    ensures c.Valid() && ok == (8 <= |old(c.Rest())|) && v < U64
    ensures ok ==> v == Unword64(old(c.Rest())[..8]) && c.Rest() == old(c.Rest())[8..]
    ensures old(c.Rest()) == Word64(w) + rest ==> ok && v == w && c.Rest() == rest
  {
    var s;
    ghost var was := c.Rest();
    ok, s := c.Read(8);
    v := if ok then Unword64(s) else 0;
    Word64Back(w);
    hide Word64, Unword64;
    assert was == Word64(w) + rest ==> was[..8] == Word64(w) && was[8..] == rest;
    assert ok ==> was[..8] == s && was[8..] == c.Rest();
  }

  function Unword64(b: Str): (v: nat)
    requires |b| == 8
    ensures v < U64
  {
    Unword(b[..4]) + U32 * Unword(b[4..])
  }

  lemma Word64Back(w: nat)
    requires w < U64
    ensures Unword64(Word64(w)) == w
  {
    WordRoundTrip(w % U32);
    WordRoundTrip(w / U32);
    assert Word64(w)[..4] == Word(w % U32) && Word64(w)[4..] == Word(w / U32);
    hide Word, Unword;
  }

  /** cursor_u32. */
  method ReadU32(c: Reader, ghost w: nat, ghost rest: Str) returns (ok: bool, v: nat)
    requires c.Valid() && w < U32
    modifies c`pos
    ensures c.Valid() && ok == (4 <= |old(c.Rest())|) && v < U32
    ensures ok ==> v == WordAt(old(c.Rest()), 0) && c.Rest() == old(c.Rest())[4..]
    ensures old(c.Rest()) == Word(w) + rest ==> ok && v == w && c.Rest() == rest
  {
    hide Word;
    ok, v := c.ReadWord();
  }

  /** cursor_string. */
  method ReadText(c: Reader, ghost s: Str, ghost rest: Str) returns (ok: bool, out: Str)
    requires c.Valid() && |s| < U64
    modifies c`pos
    ensures c.Valid()
    ensures old(c.Rest()) == Text64(s) + rest ==> ok && out == s && c.Rest() == rest
  {
    hide Word64;
    ghost var was := c.Rest();
    assert was == Text64(s) + rest ==> was == Word64(|s|) + (s + rest);
    var n;
    out := [];
    ok, n := ReadU64(c, |s|, s + rest);
    if !ok { return; }
    ghost var mid := c.Rest();
    ok, out := c.Read(n);
    assert mid == s + rest && n == |s| ==> mid[..n] == s && mid[n..] == rest;
    assert ok ==> mid[..n] == out && mid[n..] == c.Rest();
  }

  /** cursor_skip. */
  method Skip(c: Reader, n: nat, ghost raw: Str, ghost rest: Str) returns (ok: bool)
    requires c.Valid()
    modifies c`pos
    ensures c.Valid()
    ensures old(c.Rest()) == raw + rest && |raw| == n ==> ok && c.Rest() == rest
  {
    ghost var was := c.Rest();
    var s;
    ok, s := c.Read(n);
    assert was == raw + rest && |raw| == n ==> was[n..] == rest;
    assert ok ==> was[n..] == c.Rest();
  }

  /** How many levels of skip_value a value needs. */
  function Height(v: Value): nat {
    if v.Texts? then 1 else 0
  }

  ghost predicate Begins(c: Reader, v: Value, rest: Str)
    requires ValueOk(v)
    reads c
  {
    c.Valid() && c.Rest() == EncValue(v) + rest
  }

  /** skip_value: any value that the writer copies is skipped exactly. */
  method SkipValue(c: Reader, ttype: nat, depth: nat, ghost v: Value, ghost rest: Str) returns (ok: bool)
    requires c.Valid() && ValueOk(v)
    modifies c`pos
    ensures c.Valid()
    ensures old(Begins(c, v, rest)) && TypeOf(v) == ttype && depth + Height(v) <= 2 ==> ok && c.Rest() == rest
    decreases 3 - depth
  {
    if depth > 2 { return false; }
    if ttype == STRING {
      ghost var s := if v.Text? then v.s else [];
      var out;
      ok, out := ReadText(c, s, rest);
      return;
    }
    if ttype == ARRAY {
      ok := SkipArray(c, depth, v, rest);
      return;
    }
    var size := ScalarSize(ttype);
    if size == 0 { return false; }
    ok := Skip(c, size, if v.Scalar? then v.raw else [], rest);
  }

  method SkipArray(c: Reader, depth: nat, ghost v: Value, ghost rest: Str) returns (ok: bool)
    requires c.Valid() && ValueOk(v) && depth <= 2
    modifies c`pos
    ensures c.Valid()
    ensures old(Begins(c, v, rest)) && TypeOf(v) == ARRAY && depth + Height(v) <= 2 ==> ok && c.Rest() == rest
    decreases 3 - depth, 0
  {
    hide *;
    ghost var good := Begins(c, v, rest) && TypeOf(v) == ARRAY && depth + Height(v) <= 2;
    ghost var (t, n', body) := ArrayParts(v);
    ArrayStart(c, v, rest);
    ArrayKind(v, depth);
    var elem, n;
    ok, elem := ReadU32(c, t, Word64(n') + (body + rest));
    if !ok { return; }
    ok, n := ReadU64(c, n', body + rest);
    if !ok { return; }
    var size := ScalarSize(elem);
    if size > 0 {
      ok := SkipScalars(c, n, size, body, rest);
      return;
    }
    ok := SkipItems(c, elem, n, depth, ItemsOf(v), rest);
  }

  ghost function ItemsOf(v: Value): (items: seq<Str>)
    requires ValueOk(v)
    ensures forall i :: 0 <= i < |items| ==> |items[i]| < U64
  {
    if v.Texts? then v.items else []
  }

  lemma ArrayStart(c: Reader, v: Value, rest: Str)
    requires c.Valid() && ValueOk(v)
    ensures Begins(c, v, rest) && TypeOf(v) == ARRAY ==>
      c.Rest() == Word(ArrayParts(v).0) + (Word64(ArrayParts(v).1) + (ArrayParts(v).2 + rest))
  {
    hide Word, Word64, EncValue, ArrayParts;
  }

  lemma ArrayKind(v: Value, depth: nat)
    requires ValueOk(v)
    ensures var (t, n, body) := ArrayParts(v); TypeOf(v) == ARRAY && ScalarSize(t) > 0 ==>
      |body| == n * ScalarSize(t) < U64
    ensures var (t, n, body) := ArrayParts(v); TypeOf(v) == ARRAY && ScalarSize(t) == 0 ==>
      t == STRING && n == |ItemsOf(v)| && body == EncTexts(ItemsOf(v)) && (depth + Height(v) <= 2 ==> depth <= 1)
  {
    hide EncTexts;
  }

  method SkipScalars(c: Reader, n: nat, size: nat, ghost raw: Str, ghost rest: Str) returns (ok: bool)
    requires c.Valid()
    modifies c`pos
    ensures c.Valid()
    ensures |raw| == n * size < U64 && old(c.Rest()) == raw + rest ==> ok && c.Rest() == rest
  {
    if n * size >= U64 { return false; }
    ok := Skip(c, n * size, raw, rest);
  }

  /** The element type, the count and the rest of an array's bytes. */
  ghost function ArrayParts(v: Value): (r: (nat, nat, Str))
    requires ValueOk(v)
    ensures r.0 < U32 && r.1 < U64
    ensures TypeOf(v) == ARRAY ==> EncValue(v) == Word(r.0) + (Word64(r.1) + r.2)
    ensures v.Scalars? ==> r.0 == v.t && r.1 == v.n && r.2 == v.raw
    ensures v.Texts? ==> r.0 == STRING && r.1 == |v.items| && r.2 == EncTexts(v.items)
  {
    match v
    case Scalars(t, n, raw) => (t, if n < U64 then n else 0, raw)
    case Texts(items) => (STRING, |items|, EncTexts(items))
    case _ => (0, 0, [])
  }

  method SkipItems(c: Reader, elem: nat, n: nat, depth: nat, ghost items: seq<Str>, ghost rest: Str) returns (ok: bool)
    requires c.Valid() && depth <= 2 && forall i :: 0 <= i < |items| ==> |items[i]| < U64
    modifies c`pos
    ensures c.Valid()
    ensures elem == STRING && depth <= 1 && n == |items| && old(c.Rest()) == EncTexts(items) + rest ==>
      ok && c.Rest() == rest
    decreases 3 - depth, 0, 0
  {
    ghost var good := elem == STRING && depth <= 1 && n == |items| && c.Rest() == EncTexts(items) + rest;
    var i := 0;
    while i < n
      invariant 0 <= i <= n && c.Valid()
      invariant good ==> c.Rest() == EncTexts(items[i..]) + rest
    {
      hide *;
      ghost var s := if i < |items| then items[i] else [];
      ghost var after := if i < |items| then EncTexts(items[i + 1..]) + rest else [];
      NextText(c, items, i, s, after, rest, good);
      ok := SkipValue(c, elem, depth + 1, Text(s), after);
      if !ok { return; }
      i := i + 1;
    }
    ok := true;
  }

  lemma NextText(c: Reader, items: seq<Str>, i: nat, s: Str, after: Str, rest: Str, good: bool)
    requires c.Valid() && (forall i :: 0 <= i < |items| ==> |items[i]| < U64) && (good ==> i < |items|)
    requires s == (if i < |items| then items[i] else [])
    requires after == if i < |items| then EncTexts(items[i + 1..]) + rest else []
    ensures ValueOk(Text(s)) && TypeOf(Text(s)) == STRING && Height(Text(s)) == 0
    ensures good && c.Rest() == EncTexts(items[i..]) + rest ==> Begins(c, Text(s), after)
  {
    if good { OneText(items, i, rest); }
    hide EncTexts, Text64;
  }

  lemma OneText(items: seq<Str>, i: nat, rest: Str)
    requires i < |items| && forall i :: 0 <= i < |items| ==> |items[i]| < U64
    ensures EncTexts(items[i..]) + rest == Text64(items[i]) + (EncTexts(items[i + 1..]) + rest)
  {
    assert items[i..][1..] == items[i + 1..];
    hide Text64;
  }

  /** One metadata record: its key, its type, and the alignment in force after it. */
  method ReadKv(c: Reader, alignment: nat, ghost kv: KV, ghost rest: Str)
    returns (ok: bool, key: Str, ttype: nat, next: nat)
    requires c.Valid() && KvOk(kv) && alignment > 0
    modifies c`pos
    ensures c.Valid() && next > 0
    ensures old(c.Rest()) == EncKv(kv) + rest ==>
      ok && c.Rest() == rest && key == kv.key && ttype == TypeOf(kv.value) && next == AlignedBy(kv, alignment)
  {
    hide Text64, Word, EncValue;
    ghost var good := c.Rest() == EncKv(kv) + rest;
    ghost var value := EncValue(kv.value) + rest;
    assert good ==> c.Rest() == Text64(kv.key) + (Word(TypeOf(kv.value)) + value);
    ttype, next := 0, alignment;
    ok, key := ReadText(c, kv.key, Word(TypeOf(kv.value)) + value);
    if !ok { return; }
    ok, ttype := ReadU32(c, TypeOf(kv.value), value);
    if !ok { return; }
    assert good ==> c.Rest() == value && key == kv.key && ttype == TypeOf(kv.value);
    if key == ALIGNMENT_KEY && ttype == UINT32 {
      next := PeekAlignment(c, alignment, kv.value, rest);
    }
    ok := SkipValue(c, ttype, 0, kv.value, rest);
  }

  function AlignedBy(kv: KV, alignment: nat): nat {
    if kv.key == ALIGNMENT_KEY && kv.value.Scalar? && kv.value.t == UINT32 && |kv.value.raw| == 4 &&
      Unword(kv.value.raw) != 0 then
      Unword(kv.value.raw)
    else alignment
  }

  /** The alignment is read with a copy of the cursor. */
  method PeekAlignment(c: Reader, alignment: nat, ghost v: Value, ghost rest: Str) returns (next: nat)
    requires c.Valid() && ValueOk(v) && alignment > 0
    ensures next > 0
    ensures c.Rest() == EncValue(v) + rest && TypeOf(v) == UINT32 ==> next == AlignedBy(KV(ALIGNMENT_KEY, v), alignment)
  {
    next := alignment;
    if |c.bytes| - c.pos >= 4 {
      var b := c.bytes[c.pos..c.pos + 4];
      assert c.Rest() == EncValue(v) + rest && TypeOf(v) == UINT32 ==> c.Rest()[..4] == v.raw == b;
      if Unword(b) != 0 { next := Unword(b); }
    }
  }

  method ReadKvs(c: Reader, n: nat, ghost kvs: seq<KV>, ghost rest: Str)
    returns (ok: bool, found: seq<(Str, nat)>, alignment: nat)
    requires c.Valid() && KvsOk(kvs)
    modifies c`pos
    ensures c.Valid() && alignment > 0 && (ok ==> |found| == n)
    ensures n == |kvs| && old(c.Rest()) == EncKvs(kvs) + rest ==>
      ok && c.Rest() == rest && alignment == Aligned(kvs) && FoundKvs(found, kvs)
  {
    ghost var good := n == |kvs| && c.Rest() == EncKvs(kvs) + rest;
    found, alignment := [], 32;
    var i := 0;
    while i < n
      invariant 0 <= i <= n && c.Valid() && alignment > 0 && |found| == i
      invariant good ==>
        c.Rest() == EncKvs(kvs[i..]) + rest && alignment == Aligned(kvs[..i]) && FoundKvs(found, kvs[..i])
    {
      hide *;
      ghost var kv := if i < |kvs| then kvs[i] else KV([], Text([]));
      ghost var after := if i < |kvs| then EncKvs(kvs[i + 1..]) + rest else [];
      NextKv(kvs, i, kv, found, rest, good);
      var key, ttype;
      ok, key, ttype, alignment := ReadKv(c, alignment, kv, after);
      if !ok { return; }
      found := found + [(key, ttype)];
      i := i + 1;
    }
    ok := true;
    assert good ==> kvs[..n] == kvs && kvs[n..] == [];
  }

  ghost predicate FoundKvs(found: seq<(Str, nat)>, kvs: seq<KV>) {
    |found| == |kvs| && forall i :: 0 <= i < |kvs| ==> KvOk(kvs[i]) && found[i] == (kvs[i].key, TypeOf(kvs[i].value))
  }

  lemma NextKv(kvs: seq<KV>, i: nat, kv: KV, found: seq<(Str, nat)>, rest: Str, good: bool)
    requires KvsOk(kvs) && (good ==> i < |kvs|) && kv == if i < |kvs| then kvs[i] else KV([], Text([]))
    ensures KvOk(kv)
    ensures good ==> EncKvs(kvs[i..]) + rest == EncKv(kv) + (EncKvs(kvs[i + 1..]) + rest)
    ensures good ==> Aligned(kvs[..i + 1]) == AlignedBy(kv, Aligned(kvs[..i]))
    ensures good && FoundKvs(found, kvs[..i]) ==> FoundKvs(found + [(kv.key, TypeOf(kv.value))], kvs[..i + 1])
  {
    if good {
      FirstKv(kvs, i, rest);
      assert kvs[..i + 1][..i] == kvs[..i] && kvs[..i + 1][i] == kv;
      hide EncKv, EncKvs, ValueOk;
    }
  }

  lemma FirstKv(kvs: seq<KV>, i: nat, rest: Str)
    requires KvsOk(kvs) && i < |kvs|
    ensures EncKvs(kvs[i..]) + rest == EncKv(kvs[i]) + (EncKvs(kvs[i + 1..]) + rest)
  {
    assert kvs[i..][1..] == kvs[i + 1..] && kvs[i..][0] == kvs[i];
    hide EncKv, ValueOk;
  }

  method ReadDims(c: Reader, n: nat, ghost dims: seq<nat>, ghost rest: Str) returns (ok: bool, out: seq<nat>)
    requires c.Valid() && forall i :: 0 <= i < |dims| ==> dims[i] < U64
    modifies c`pos
    ensures c.Valid() && (ok ==> |out| == n)
    ensures n == |dims| && old(c.Rest()) == EncDims(dims) + rest ==> ok && c.Rest() == rest && out == dims
  {
    ghost var good := n == |dims| && c.Rest() == EncDims(dims) + rest;
    out := [];
    var d := 0;
    while d < n
      invariant 0 <= d <= n && c.Valid() && |out| == d
      invariant good ==> c.Rest() == EncDims(dims[d..]) + rest && out == dims[..d]
    {
      hide Word64;
      if good {
        assert dims[d..][1..] == dims[d + 1..];
        assert EncDims(dims[d..]) + rest == Word64(dims[d]) + (EncDims(dims[d + 1..]) + rest);
      }
      var v;
      ok, v := ReadU64(c, if d < |dims| then dims[d] else 0, if d < |dims| then EncDims(dims[d + 1..]) + rest else []);
      if !ok { return; }
      out := out + [v];
      d := d + 1;
    }
    ok := true;
  }

  /** tensor_nbytes of the reader: 0 if the type or the shape is not supported, and failure on overflow. */
  method EngineBytes(ttype: nat, dims: seq<nat>) returns (n: nat)
    ensures EngineReads(ttype, dims) ==> n == TensorBytes(ttype, dims) > 0
    ensures n > 0 ==> EngineReads(ttype, dims)
  {
    if !Supported(ttype) || |dims| == 0 || |dims| > MAX_DIMS { return 0; }
    var elems := 1;
    var i := 0;
    while i < |dims|
      invariant 0 <= i <= |dims| && elems == Product(dims[..i]) < U64
    {
      assert dims[..i + 1][..i] == dims[..i];
      if elems * dims[i] >= U64 {
        TooBig(dims, i + 1);
        return 0;
      }
      elems := elems * dims[i];
      i := i + 1;
    }
    assert dims[..|dims|] == dims;
    n := BytesFromElems(ttype, dims, elems);
  }

  method BytesFromElems(ttype: nat, dims: seq<nat>, elems: nat) returns (n: nat)
    requires Supported(ttype) && 0 < |dims| <= MAX_DIMS && elems == Product(dims) < U64
    ensures EngineReads(ttype, dims) ==> n == TensorBytes(ttype, dims) > 0
    ensures n > 0 ==> EngineReads(ttype, dims)
  {
    var block, bytes := BlockOf(ttype), BytesOf(ttype);
    if dims[0] % block != 0 || elems % block != 0 {
      Blocks(ttype, dims);
      return 0;
    }
    Blocks(ttype, dims);
    n := elems / block * bytes;
    if n >= U64 { n := 0; }
  }

  /** What the engine reads: its own types, whole blocks in a row, and sizes that fit 64 bits. */
  ghost predicate EngineReads(ttype: nat, dims: seq<nat>) {
    && Supported(ttype) && 0 < |dims| <= MAX_DIMS && dims[0] % BlockOf(ttype) == 0
    && 0 < Product(dims) < U64 && TensorBytes(ttype, dims) < U64
  }

  /** A product that is too large at some point is too large, or zero, at the end. */
  lemma {:induction false} TooBig(dims: seq<nat>, i: nat)
    requires i <= |dims| && Product(dims[..i]) >= U64
    ensures Product(dims) == 0 || Product(dims) >= U64
  {
    if i == |dims| {
      assert dims[..i] == dims;
    } else {
      var init := dims[..|dims| - 1];
      assert init[..i] == dims[..i];
      TooBig(init, i);
      ProductGrows(Product(init), dims[|dims| - 1]);
    }
  }

  lemma ProductGrows(a: nat, b: nat)
    ensures b > 0 ==> a * b >= a
    ensures a == 0 || b == 0 ==> a * b == 0
  {
  }

  /** The writer's bytes of a row times the rows are the reader's blocks times the bytes of a block. */
  lemma Blocks(ttype: nat, dims: seq<nat>)
    requires Supported(ttype) && |dims| > 0
    ensures dims[0] % BlockOf(ttype) == 0 ==>
      Product(dims) % BlockOf(ttype) == 0 && TensorBytes(ttype, dims) == Product(dims) / BlockOf(ttype) * BytesOf(ttype)
    ensures dims[0] % BlockOf(ttype) == 0 ==> (TensorBytes(ttype, dims) > 0 <==> Product(dims) > 0)
  {
    if dims[0] % BlockOf(ttype) == 0 {
      var k := CountBlocks(ttype, dims);
      var b := BlockOf(ttype);
      MultipleOf(k, b);
      Quotient(k, b);
    }
  }

  lemma Quotient(k: nat, b: nat)
    requires b > 0
    ensures k * b / b == k
  {
    MultipleOf(k, b);
    var q := k * b / b;
    assert (k - q) * b == 0;
    AtLeastOne(k - q, b);
  }

  lemma {:induction false} CountBlocks(ttype: nat, dims: seq<nat>) returns (k: nat)
    requires |dims| > 0 && dims[0] % BlockOf(ttype) == 0
    ensures Product(dims) == k * BlockOf(ttype) && TensorBytes(ttype, dims) == k * BytesOf(ttype)
  {
    var b := BlockOf(ttype);
    if |dims| == 1 {
      k := dims[0] / b;
      assert dims[..0] == [] && Product(dims) == 1 * dims[0];
    } else {
      var last := dims[|dims| - 1];
      var k' := CountBlocks(ttype, dims[..|dims| - 1]);
      k := k' * last;
      Swap(k', last, b);
      Swap(k', last, BytesOf(ttype));
    }
  }

  lemma Swap(a: nat, b: nat, c: nat)
    ensures a * c * b == a * b * c
  {
  }

  ghost predicate Matches(f: Found, t: Tensor) {
    f.name == t.name && f.dims == t.dims && f.ttype == t.ttype && f.relOffset == t.offset && f.nbytes == t.size
  }

  /** What was planned for the tensor: its size is that of its type and shape. */
  ghost predicate Sized(t: Tensor) {
    TensorOk(t) && t.size == TensorBytes(t.ttype, t.dims)
  }

  /** The reader supports the tensor, and its size is that of its type and shape. */
  ghost predicate Measured(f: Found) {
    EngineReads(f.ttype, f.dims) && f.nbytes == TensorBytes(f.ttype, f.dims) > 0
  }

  /** One tensor record; the reader gives up on a tensor it does not support. */
  method ReadTensor(c: Reader, ghost t: Tensor, ghost rest: Str) returns (ok: bool, f: Found)
    requires c.Valid() && Sized(t)
    modifies c`pos
    ensures c.Valid() && (ok ==> Measured(f))
    ensures old(c.Rest()) == EncTensor(t) + rest ==>
      (ok <==> EngineReads(t.ttype, t.dims)) && (ok ==> c.Rest() == rest && Matches(f, t))
  {
    hide Text64, Word, Word64, EncDims, EngineReads, TensorBytes;
    ghost var good := c.Rest() == EncTensor(t) + rest;
    ghost var r3 := Word64(t.offset) + rest;
    ghost var r2 := Word(t.ttype) + r3;
    ghost var r1 := EncDims(t.dims) + r2;
    assert good ==> c.Rest() == Text64(t.name) + (Word(|t.dims|) + r1);
    f := Found([], [], 0, 0, 0);
    var name, ndim, dims, ttype, off;
    ok, name := ReadText(c, t.name, Word(|t.dims|) + r1);
    if !ok { return; }
    ok, ndim := ReadU32(c, |t.dims|, r1);
    if !ok { return; }
    if ndim == 0 || ndim > MAX_DIMS { return false, f; }
    ok, dims := ReadDims(c, ndim, t.dims, r2);
    if !ok { return; }
    ok, ttype := ReadU32(c, t.ttype, r3);
    if !ok { return; }
    ok, off := ReadU64(c, t.offset, rest);
    if !ok { return; }
    var n := EngineBytes(ttype, dims);
    if n == 0 { return false, f; }
    f := Found(name, dims, ttype, n, off);
  }

  ghost predicate AllSized(ts: seq<Tensor>) {
    forall i :: 0 <= i < |ts| ==> Sized(ts[i])
  }

  ghost predicate AllRead(ts: seq<Tensor>) {
    forall i :: 0 <= i < |ts| ==> EngineReads(ts[i].ttype, ts[i].dims)
  }

  ghost predicate AllMatch(fs: seq<Found>, ts: seq<Tensor>) {
    |fs| == |ts| && forall i :: 0 <= i < |ts| ==> Matches(fs[i], ts[i])
  }

  method ReadTensors(c: Reader, n: nat, ghost ts: seq<Tensor>, ghost rest: Str) returns (ok: bool, fs: seq<Found>)
    requires c.Valid() && TensorsOk(ts) && AllSized(ts)
    modifies c`pos
    ensures c.Valid() && (ok ==> |fs| == n && forall i :: 0 <= i < n ==> Measured(fs[i]))
    ensures n == |ts| && old(c.Rest()) == EncTensors(ts) + rest ==>
      (ok <==> AllRead(ts)) && (ok ==> c.Rest() == rest && AllMatch(fs, ts))
  {
    ghost var good := n == |ts| && c.Rest() == EncTensors(ts) + rest;
    fs := [];
    var i := 0;
    while i < n
      invariant 0 <= i <= n && c.Valid() && |fs| == i && forall k :: 0 <= k < i ==> Measured(fs[k])
      invariant good ==> c.Rest() == EncTensors(ts[i..]) + rest && AllRead(ts[..i]) && AllMatch(fs, ts[..i])
    {
      hide *;
      ghost var t := if i < |ts| then ts[i] else Tensor([], [0], 0, 0, 0);
      ghost var after := if i < |ts| then EncTensors(ts[i + 1..]) + rest else [];
      NextTensor(ts, i, t, fs, rest, good);
      var f;
      ok, f := ReadTensor(c, t, after);
      if !ok { return; }
      NextMatch(ts, i, t, fs, f, good);
      fs := fs + [f];
      i := i + 1;
    }
    ok := true;
    assert good ==> ts[..n] == ts && ts[n..] == [];
  }

  lemma NextTensor(ts: seq<Tensor>, i: nat, t: Tensor, fs: seq<Found>, rest: Str, good: bool)
    requires TensorsOk(ts) && AllSized(ts) && (good ==> i < |ts|)
    requires t == if i < |ts| then ts[i] else Tensor([], [0], 0, 0, 0)
    ensures Sized(t) && TensorOk(t)
    ensures i < |ts| ==> TensorsOk(ts[i + 1..]) && TensorsOk(ts[i..])
    ensures good ==> EncTensors(ts[i..]) + rest == EncTensor(t) + (EncTensors(ts[i + 1..]) + rest)
    ensures good && !EngineReads(t.ttype, t.dims) ==> !AllRead(ts)
  {
    hide EngineReads, EncTensor;
    if i < |ts| {
      assert ts[i..][1..] == ts[i + 1..] && ts[i..][0] == t;
    }
  }

  lemma NextMatch(ts: seq<Tensor>, i: nat, t: Tensor, fs: seq<Found>, f: Found, good: bool)
    requires good ==> i < |ts| && t == ts[i]
    ensures good && AllRead(ts[..i]) && EngineReads(t.ttype, t.dims) ==> AllRead(ts[..i + 1])
    ensures good && AllMatch(fs, ts[..i]) && Matches(f, t) ==> AllMatch(fs + [f], ts[..i + 1])
  {
    hide EngineReads, Matches;
    if good {
      assert ts[..i + 1] == ts[..i] + [t];
    }
  }

  /** A file as the writer lays it out. */
  datatype Plan = Plan(version: nat, kvs: seq<KV>, ts: seq<Tensor>, data: seq<Str>)

  /** The records of the plan can be written. */
  ghost predicate TableOk(p: Plan) {
    p.version < U32 && KvsOk(p.kvs) && |p.kvs| < U64 && TensorsOk(p.ts) && AllSized(p.ts) && |p.ts| < U64
  }

  ghost predicate PlanOk(p: Plan) {
    TableOk(p) && LaidOut(p.ts, Aligned(p.kvs)) && SizesMatch(p.ts, p.data)
  }

  ghost function FileOf(p: Plan): Str
    requires PlanOk(p)
  {
    Image(p.version, p.kvs, p.ts, Aligned(p.kvs), p.data)
  }

  ghost function DataOffset(p: Plan): nat
    requires TableOk(p)
  {
    Pad(|Meta(p.version, p.kvs, p.ts)|, Aligned(p.kvs))
  }

  /** Every tensor's data is where the reader will look for it. */
  lemma DataThere(p: Plan, i: nat)
    requires PlanOk(p) && i < |p.ts|
    ensures HasAt(FileOf(p), DataOffset(p) + p.ts[i].offset, p.data[i]) && |p.data[i]| == p.ts[i].size
  {
    hide *;
    Parts(p, i);
    var z := Zeros(DataOffset(p) - |Meta(p.version, p.kvs, p.ts)|);
    PayloadAt(p.ts, p.data, Aligned(p.kvs), |p.ts|, i);
    Deep(Meta(p.version, p.kvs, p.ts), z, Payload(p.data, Aligned(p.kvs)), p.ts[i].offset, p.data[i]);
  }

  lemma Parts(p: Plan, i: nat)
    requires PlanOk(p) && i < |p.ts|
    ensures TableOk(p) && p.version < U32 && KvsOk(p.kvs) && TensorsOk(p.ts) && |p.kvs| < U64 && |p.ts| < U64
    ensures |Meta(p.version, p.kvs, p.ts)| <= DataOffset(p) && LaidOut(p.ts, Aligned(p.kvs)) && SizesMatch(p.ts, p.data)
    ensures FileOf(p) ==
      Meta(p.version, p.kvs, p.ts) +
      (Zeros(DataOffset(p) - |Meta(p.version, p.kvs, p.ts)|) + Payload(p.data, Aligned(p.kvs)))
    ensures |p.data| == |p.ts| && |p.data[i]| == p.ts[i].size && p.data[..|p.ts|] == p.data
  {
    PadUp(|Meta(p.version, p.kvs, p.ts)|, Aligned(p.kvs));
    hide Meta, Payload, Pad, Aligned;
  }

  lemma Deep(m: Str, z: Str, p: Str, a: nat, d: Str)
    requires HasAt(p, a, d)
    ensures HasAt(m + (z + p), |m| + |z| + a, d)
  {
    HasRight(z, p, a, d);
    HasRight(m, z + p, |z| + a, d);
    hide HasAt;
  }

  /** gguf_open after the counts: the records, and where the data begins. */
  method ReadRecords(c: Reader, nTensors: nat, nKvs: nat, ghost p: Plan, ghost rest: Str) returns (ok: bool, g: Model)
    requires c.Valid() && TableOk(p)
    modifies c`pos
    ensures c.Valid() && (ok ==> |g.kvs| == nKvs && |g.tensors| == nTensors && g.alignment > 0)
    ensures ok ==> g.dataOffset % g.alignment == 0 && forall i :: 0 <= i < |g.tensors| ==> Measured(g.tensors[i])
    ensures nTensors == |p.ts| && nKvs == |p.kvs| && old(c.Rest()) == EncKvs(p.kvs) + (EncTensors(p.ts) + rest) ==>
      (ok <==> AllRead(p.ts)) &&
      (ok ==> Recovered(g, p) && c.Rest() == rest && g.dataOffset == Pad(c.pos, Aligned(p.kvs)))
  {
    hide Measured, KvsOk, TensorsOk, AllSized, LaidOut, SizesMatch, EncKvs, EncTensors, AllRead, Aligned, Pad;
    hide FoundKvs, AllMatch;
    g := Model([], [], 32, 0);
    var kvs, alignment, ts;
    ok, kvs, alignment := ReadKvs(c, nKvs, p.kvs, EncTensors(p.ts) + rest);
    if !ok { return; }
    ok, ts := ReadTensors(c, nTensors, p.ts, rest);
    if !ok { return; }
    PadUp(c.pos, alignment);
    g := Model(kvs, ts, alignment, Pad(c.pos, alignment));
  }

  ghost predicate Recovered(g: Model, p: Plan) {
    FoundKvs(g.kvs, p.kvs) && AllMatch(g.tensors, p.ts) && g.alignment == Aligned(p.kvs)
  }

  /** abs_offset, in 64 bits. */
  function AbsOffset(dataOffset: nat, relOffset: nat): nat {
    (dataOffset + relOffset) % U64
  }

  /** The data of every tensor lies where the reader looks for it. */
  ghost predicate HasData(g: Model, bytes: Str, p: Plan) {
    |g.tensors| == |p.ts| == |p.data| && forall i: nat :: i < |p.ts| ==>
      HasAt(bytes, AbsOffset(g.dataOffset, g.tensors[i].relOffset), p.data[i])
  }

  ghost predicate Inside(g: Model, size: nat) {
    forall i :: 0 <= i < |g.tensors| ==> AbsOffset(g.dataOffset, g.tensors[i].relOffset) + g.tensors[i].nbytes <= size
  }

  /** The same of the records of a plan. */
  ghost predicate Reaches(p: Plan, size: nat)
    requires TableOk(p)
  {
    forall i :: 0 <= i < |p.ts| ==> AbsOffset(DataOffset(p), p.ts[i].offset) + p.ts[i].size <= size
  }

  /** What the reader has made sure of, whatever the bytes: magic and version, as many records and tensors
      as the head says, only tensors that it supports, and all their data inside the file. */
  ghost predicate Checked(g: Model, bytes: Str) {
    && |bytes| >= 32 && HeadSays(bytes, VERSION, |g.tensors|, |g.kvs|)
    && g.alignment > 0 && g.dataOffset % g.alignment == 0
    && (forall i :: 0 <= i < |g.tensors| ==> Measured(g.tensors[i])) && Inside(g, |bytes|)
  }

  /** Magic, version and counts. */
  ghost predicate HeadSays(b: Str, version: nat, nTensors: nat, nKvs: nat) {
    && |b| >= 24 && b[..4] == MAGIC && Unword(b[4..8]) == version
    && Unword64(b[8..16]) == nTensors && Unword64(b[16..24]) == nKvs
  }

  /** gguf_open. A file that begins with the records of the plan is refused exactly when the version is not
      3, the file is shorter than 32 bytes, a tensor has a type or size that the reader does not support, or
      a tensor does not lie inside the file; otherwise the records, the names, shapes, types, sizes and
      offsets of the tensors are recovered. */
  method Open(bytes: Str, ghost p: Plan, ghost rest: Str) returns (ok: bool, g: Model)
    requires TableOk(p) && |bytes| <= MAX_FILE
    ensures ok ==> Checked(g, bytes)
    ensures bytes == Meta(p.version, p.kvs, p.ts) + rest ==>
      (ok <==> |bytes| >= 32 && p.version == VERSION && AllRead(p.ts) && Reaches(p, |bytes|)) &&
      (ok ==> Recovered(g, p) && g.dataOffset == DataOffset(p))
  {
    g := Model([], [], 32, 0);
    if |bytes| < 32 { return false, g; }
    hide *;
    Start(p, rest);
    var c := new Reader(bytes);
    var version, nTensors, nKvs;
    ok, version, nTensors, nKvs := ReadHead(c, p.version, |p.ts|, |p.kvs|, EncKvs(p.kvs) + (EncTensors(p.ts) + rest));
    if !ok { return; }
    if version != VERSION { return false, g; }
    ok, g := ReadRecords(c, nTensors, nKvs, p, rest);
    if !ok { return; }
    AtTheEnd(c, p, rest);
    ok := InBounds(g, |bytes|);
    Judged(bytes, g, p);
  }

  /** The padding and the data. */
  ghost function Tail(p: Plan): Str
    requires PlanOk(p)
  {
    var m := Meta(p.version, p.kvs, p.ts);
    PadUp(|m|, Aligned(p.kvs));
    Zeros(Pad(|m|, Aligned(p.kvs)) - |m|) + Payload(p.data, Aligned(p.kvs))
  }

  lemma Start(p: Plan, rest: Str)
    requires TableOk(p)
    ensures p.version < U32 && |p.ts| < U64 && |p.kvs| < U64 && KvsOk(p.kvs) && TensorsOk(p.ts)
    ensures Meta(p.version, p.kvs, p.ts) + rest ==
      Head(p.version, |p.ts|, |p.kvs|) + (EncKvs(p.kvs) + (EncTensors(p.ts) + rest))
  {
    var h, k, t := Head(p.version, |p.ts|, |p.kvs|), EncKvs(p.kvs), EncTensors(p.ts);
    assert Meta(p.version, p.kvs, p.ts) == h + (k + t);
    hide *;
    RegroupTail(h, k, t, rest);
  }

  lemma RegroupTail(h: Str, k: Str, t: Str, z: Str)
    ensures (h + (k + t)) + z == h + (k + (t + z))
  {
  }

  method ReadHead(c: Reader, ghost v: nat, ghost nT: nat, ghost nK: nat, ghost rest: Str)
    returns (ok: bool, version: nat, nTensors: nat, nKvs: nat)
    requires c.Valid() && v < U32 && nT < U64 && nK < U64
    modifies c`pos
    ensures c.Valid() && (ok ==> HeadSays(old(c.Rest()), version, nTensors, nKvs))
    ensures old(c.Rest()) == Head(v, nT, nK) + rest ==>
      ok && version == v && nTensors == nT && nKvs == nK && c.Rest() == rest
  {
    hide Word, Word64;
    ghost var good := c.Rest() == Head(v, nT, nK) + rest;
    ghost var r3 := Word64(nK) + rest;
    ghost var r2 := Word64(nT) + r3;
    ghost var r1 := Word(v) + r2;
    ghost var was := c.Rest();
    assert good ==> was == MAGIC + r1;
    version, nTensors, nKvs := 0, 0, 0;
    var magic;
    ok, magic := c.Read(4);
    if !ok { return; }
    assert magic == was[..4] && c.Rest() == was[4..];
    assert good ==> magic == MAGIC && c.Rest() == r1;
    if magic != MAGIC { return false, 0, 0, 0; }
    ok, version := ReadU32(c, v, r2);
    if !ok { return; }
    ok, nTensors := ReadU64(c, nT, r3);
    if !ok { return; }
    ok, nKvs := ReadU64(c, nK, rest);
    if ok { HeadParts(was); }
  }

  lemma HeadParts(b: Str)
    requires |b| >= 24
    ensures WordAt(b[4..], 0) == Unword(b[4..8])
    ensures b[4..][4..][..8] == b[8..16] && b[4..][4..][8..][..8] == b[16..24]
  {
    assert b[4..][0..4] == b[4..8];
  }

  /** With the rest left to read, the cursor stands at the end of the metadata. */
  lemma AtTheEnd(c: Reader, p: Plan, rest: Str)
    requires c.Valid() && TableOk(p)
    ensures c.bytes == Meta(p.version, p.kvs, p.ts) + rest && c.Rest() == rest ==>
      Pad(c.pos, Aligned(p.kvs)) == DataOffset(p)
  {
    hide Meta, Pad, Aligned;
  }

  /** Every tensor lies inside the file. */
  method InBounds(g: Model, size: nat) returns (ok: bool)
    ensures ok <==> Inside(g, size)
  {
    var i := 0;
    while i < |g.tensors|
      invariant 0 <= i <= |g.tensors|
      invariant forall j :: 0 <= j < i ==>
        AbsOffset(g.dataOffset, g.tensors[j].relOffset) + g.tensors[j].nbytes <= size
    {
      var abs := AbsOffset(g.dataOffset, g.tensors[i].relOffset);
      if abs > size || g.tensors[i].nbytes > size - abs { return false; }
      i := i + 1;
    }
    ok := true;
  }

  lemma Judged(bytes: Str, g: Model, p: Plan)
    requires TableOk(p)
    ensures Recovered(g, p) && g.dataOffset == DataOffset(p) ==> (Inside(g, |bytes|) <==> Reaches(p, |bytes|))
    ensures g.alignment > 0 && g.dataOffset % g.alignment == 0 ==>
      |bytes| >= 32 && HeadSays(bytes, VERSION, |g.tensors|, |g.kvs|) && Inside(g, |bytes|) ==>
      (forall i :: 0 <= i < |g.tensors| ==> Measured(g.tensors[i])) ==>
      Checked(g, bytes)
  {
    hide AbsOffset, HeadSays, Measured, FoundKvs, DataOffset, TableOk;
  }

  /** A file of the writer that is cut off at `size` bytes still holds all tensors if and only if the data
      of each ends before. */
  lemma CutOff(p: Plan, size: nat)
    requires PlanOk(p) && |FileOf(p)| <= MAX_FILE
    ensures Reaches(p, size) <==> forall i :: 0 <= i < |p.ts| ==> DataOffset(p) + p.ts[i].offset + p.ts[i].size <= size
  {
    assert TableOk(p);
    hide FileOf, DataOffset, PlanOk, TableOk, AbsOffset, HasAt;
    forall i: nat | i < |p.ts| ensures AbsOffset(DataOffset(p), p.ts[i].offset) == DataOffset(p) + p.ts[i].offset {
      AbsAt(p, i);
    }
  }

  lemma AbsAt(p: Plan, i: nat)
    requires PlanOk(p) && |FileOf(p)| <= MAX_FILE && i < |p.ts|
    ensures TableOk(p) && |p.data| == |p.ts| && |p.data[i]| == p.ts[i].size
    ensures AbsOffset(DataOffset(p), p.ts[i].offset) == DataOffset(p) + p.ts[i].offset
    ensures HasAt(FileOf(p), DataOffset(p) + p.ts[i].offset, p.data[i])
    ensures DataOffset(p) + p.ts[i].offset + p.ts[i].size <= |FileOf(p)|
  {
    hide *;
    Parts(p, i);
    DataThere(p, i);
    NoWrap(FileOf(p), DataOffset(p), p.ts[i].offset, p.data[i]);
  }

  lemma NoWrap(file: Str, a: nat, b: nat, d: Str)
    requires HasAt(file, a + b, d) && |file| <= MAX_FILE
    ensures a + b + |d| <= |file| && AbsOffset(a, b) == a + b
  {
  }

  /** A written file holds all tensors, and the data of each lies where the reader looks for it. */
  lemma AllThere(g: Model, p: Plan)
    requires PlanOk(p) && |FileOf(p)| <= MAX_FILE
    ensures Reaches(p, |FileOf(p)|)
    ensures Recovered(g, p) && g.dataOffset == DataOffset(p) ==> HasData(g, FileOf(p), p)
  {
    assert TableOk(p) && |p.data| == |p.ts|;
    hide FileOf, DataOffset, PlanOk, TableOk, AbsOffset, HasAt, FoundKvs;
    forall i: nat | i < |p.ts|
      ensures HasAt(FileOf(p), AbsOffset(DataOffset(p), p.ts[i].offset), p.data[i])
      ensures AbsOffset(DataOffset(p), p.ts[i].offset) + p.ts[i].size <= |FileOf(p)| {
      AbsAt(p, i);
    }
  }

  lemma Whole(p: Plan)
    requires PlanOk(p)
    ensures TableOk(p) && FileOf(p) == Meta(p.version, p.kvs, p.ts) + Tail(p)
  {
  }

  /** The records of the imatrix leave the alignment as it was. */
  lemma {:induction false} AlignmentKept(kvs: seq<KV>, more: seq<KV>)
    requires forall i :: 0 <= i < |more| ==> more[i].key != ALIGNMENT_KEY
    ensures Aligned(kvs + more) == Aligned(kvs)
  {
    if more == [] {
      assert kvs + more == kvs;
    } else {
      AlignmentKept(kvs, more[..|more| - 1]);
      assert (kvs + more)[..|kvs + more| - 1] == kvs + more[..|more| - 1];
    }
  }

  /** The tool can write the tensor in this type, and the data is as long as it must be. */
  predicate Writes(s: Shape, ttype: nat, data: Str) {
    Plannable(s, ttype) && |data| == TensorBytes(ttype, s.dims)
  }

  /** The bytes of all tensors, each padded. */
  function DataBytes(shapes: seq<Shape>, types: seq<nat>, align: nat): nat
    requires |shapes| == |types| && align > 0
  {
    if shapes == [] then 0 else
      var k := |shapes| - 1;
      DataBytes(shapes[..k], types[..k], align) +
        (if Plannable(shapes[k], types[k]) then Pad(TensorBytes(types[k], shapes[k].dims), align) else 0)
  }

  lemma {:induction false} DataEnd(ts: seq<Tensor>, shapes: seq<Shape>, types: seq<nat>, align: nat, n: nat)
    requires AllPlanned(ts, shapes, types) && n <= |ts| && align > 0
    ensures EndOf(ts, n, align) == DataBytes(shapes[..n], types[..n], align)
  {
    if n > 0 {
      DataEnd(ts, shapes, types, align, n - 1);
      assert shapes[..n][..n - 1] == shapes[..n - 1] && types[..n][..n - 1] == types[..n - 1];
      assert Planned(ts[n - 1], shapes[n - 1], types[n - 1]);
      hide Pad, TensorBytes;
    }
  }

  lemma DataMatches(ts: seq<Tensor>, shapes: seq<Shape>, types: seq<nat>, data: seq<Str>)
    requires AllPlanned(ts, shapes, types) && |ts| == |shapes| == |data|
    ensures SizesMatch(ts, data) <==> forall i :: 0 <= i < |types| ==> Writes(shapes[i], types[i], data[i])
    ensures forall i :: 0 <= i < |types| ==> Plannable(shapes[i], types[i])
  {
    hide TensorBytes;
    forall i | 0 <= i < |ts|
      ensures Plannable(shapes[i], types[i]) && ts[i].size == TensorBytes(types[i], shapes[i].dims) {
      assert Planned(ts[i], shapes[i], types[i]);
    }
  }

  /** Writing the planned file and opening it. The tool refuses it exactly when it cannot write a type, the
      data has another length, or the offsets do not fit 64 bits; the engine then refuses the file or
      finds everything that was written. */
  method WriteThenOpen(t: Template, types: seq<nat>, im: Imatrix, data: seq<Str>)
    returns (written: bool, accepted: bool, bytes: Str, g: Model, ghost p: Plan)
    requires TemplateOk(t) && ImatrixOk(im) && |types| == |t.tensors| == |data|
    ensures written ==>
      PlanOk(p) && bytes == FileOf(p) && p.version == t.version && p.kvs == t.kvs + ImatrixKvs(im) && p.data == data
    ensures written ==> |p.ts| == |types| && AllPlanned(p.ts, t.tensors, types)
    ensures written <==>
      (forall i :: 0 <= i < |types| ==> Writes(t.tensors[i], types[i], data[i]))
      && DataBytes(t.tensors, types, t.alignment) < U64
    ensures written ==> (accepted <==> 32 <= |bytes| <= MAX_FILE && t.version == VERSION && AllRead(p.ts))
    ensures written && accepted ==> Recovered(g, p) && HasData(g, bytes, p)
  {
    written, accepted, bytes, g := false, false, [], Model([], [], 32, 0);
    p := Plan(0, [], [], []);
    var ok, ctx := BuildOutputContext(t, types, im);
    if !ok { return; }
    DataEnd(ctx.tensors, t.tensors, types, t.alignment, |types|);
    assert t.tensors[..|types|] == t.tensors && types[..|types|] == types;
    if ctx.tensorBytes >= U64 { return; }
    Fitting(t, types, im, ctx);
    DataMatches(ctx.tensors, t.tensors, types, data);
    hide *;
    var fp := new OutFile();
    written := WriteFull(t, ctx, im, data, fp);
    if !written { return; }
    bytes := fp.out;
    p := Plan(t.version, t.kvs + ImatrixKvs(im), ctx.tensors, data);
    ImageOfPlan(t, im, ctx, types, data, p);
    if |bytes| > MAX_FILE { return; }
    Whole(p);
    accepted, g := Open(bytes, p, Tail(p));
    AllThere(g, p);
  }

  lemma Fitting(t: Template, types: seq<nat>, im: Imatrix, ctx: Context)
    requires TemplateOk(t) && ImatrixOk(im) && |types| == |t.tensors| == |ctx.tensors|
    requires AllPlanned(ctx.tensors, t.tensors, types)
    requires LaidOut(ctx.tensors, t.alignment) && EndOf(ctx.tensors, |ctx.tensors|, t.alignment) < U64
    ensures TensorsOk(ctx.tensors) && AllSized(ctx.tensors)
  {
    var ts := ctx.tensors;
    hide EndOf, TensorBytes, Aligned, ImatrixKvs;
    forall i: nat | i < |ts| ensures TensorOk(ts[i]) && Sized(ts[i]) {
      assert Planned(ts[i], t.tensors[i], types[i]);
      EndGrows(ts, i, |ts|, t.alignment);
    }
  }

  lemma ImageOfPlan(t: Template, im: Imatrix, ctx: Context, types: seq<nat>, data: seq<Str>, p: Plan)
    requires TemplateOk(t) && ImatrixOk(im) && TensorsOk(ctx.tensors) && AllSized(ctx.tensors)
    requires |ctx.tensors| == |t.tensors|
    requires LaidOut(ctx.tensors, t.alignment) && SizesMatch(ctx.tensors, data)
    requires p == Plan(t.version, t.kvs + ImatrixKvs(im), ctx.tensors, data)
    ensures PlanOk(p) && FileOf(p) == Image(t.version, t.kvs + ImatrixKvs(im), ctx.tensors, t.alignment, data)
    ensures p.kvs == t.kvs + ImatrixKvs(im) && p.ts == ctx.tensors
  {
    AlignmentKept(t.kvs, ImatrixKvs(im));
    hide ImatrixKvs, Aligned, Image, LaidOut, SizesMatch, AllSized, TensorsOk;
  }
}
