/** The flat buffer is the node: adding an edge, removing one and storing a value in place do to the
    decoded node what they do to the node of the tree. */
module RaxLayout {
  import opened Basics
  import opened RaxKeys
  import opened RaxTheory
  import opened RaxSteps
  import opened RaxReshape
  import opened RaxBits
  import opened RaxFlat

  /** What the eight bytes of a cell point to, as a node or as a value. */
  datatype Pointers = Pointers(node: Cell -> RaxNode, value: Cell -> Value)

  function SlotOf(p: Pointers, bits: set<nat>, i: nat, cell: Cell): Slot {
    if i in bits then Inline(p.value(cell)) else Child(p.node(cell))
  }

  function SlotsOf(p: Pointers, bits: set<nat>, cells: seq<Cell>): (s: seq<Slot>)
    ensures |s| == |cells| && forall i :: 0 <= i < |s| ==> s[i] == SlotOf(p, bits, i, cells[i])
  {
    seq(|cells|, i requires 0 <= i < |cells| => SlotOf(p, bits, i, cells[i]))
  }

  function ValueOf(p: Pointers, v: Option<Cell>): Value {
    if v.Some? then p.value(v.value) else 0
  }

  /** The node that the buffer holds. */
  ghost function Decoded(p: Pointers, f: FlatNode, prefix: Key): N
    requires f.Len() <= f.mem.Length
    reads f, f.mem
  {
    N(f.iskey, ValueOf(p, f.Value()), f.iscompr, Bits(f.bitmap), f.Edges(), SlotsOf(p, Bits(f.bitmap), f.Slots()),
      prefix)
  }

  /** An inline value in slot 12 that would move out of the bitmap's reach goes to a node of its own. */
  function Spilled(x: N, pos: nat, leaf: RaxNode): N
    requires forall b :: b in x.bits ==> b < |x.slots|
  {
    if pos <= 12 && 12 in x.bits then Materialized(x, 12, leaf) else x
  }

  lemma InsertedBits(bits: set<nat>, pos: nat)
    ensures pos <= 12 ==> BitsAfterInsert(bits - {12}, pos) == BitsAfterInsert(bits, pos)
  {
  }

  lemma InsertedSlots(p: Pointers, bits: set<nat>, cells: seq<Cell>, pos: nat, cell: Cell)
    requires pos <= |cells| && forall b :: b in bits ==> b < |cells| && b < INLINE_SLOTS
    requires pos <= 12 ==> 12 !in bits
    ensures SlotsOf(p, BitsAfterInsert(bits, pos), InsertAt(cells, pos, cell)) ==
      InsertAt(SlotsOf(p, bits, cells), pos, Child(p.node(cell)))
  {
    var now := BitsAfterInsert(bits, pos);
    forall i: nat | i <= |cells| ensures SlotOf(p, now, i, InsertAt(cells, pos, cell)[i]) ==
      InsertAt(SlotsOf(p, bits, cells), pos, Child(p.node(cell)))[i] {
      assert i in now <==> i < INLINE_SLOTS && BitComesFrom(bits, pos, i);
    }
  }

  lemma SpilledSlots(p: Pointers, bits: set<nat>, cells: seq<Cell>, leaf: Cell)
    requires 12 < |cells| && 12 in bits
    ensures SlotsOf(p, bits - {12}, cells[12 := leaf]) == SlotsOf(p, bits, cells)[12 := Child(p.node(leaf))]
  {
  }

  lemma DecodedParts(p: Pointers, f: FlatNode, prefix: Key)
    requires f.Valid()
    ensures f.Len() <= f.mem.Length && f.size <= f.mem.Length && |f.Edges()| == f.size
    ensures |f.Slots()| == Cells(f.iscompr, f.size)
    ensures Decoded(p, f, prefix) ==
      N(f.iskey, ValueOf(p, f.Value()), f.iscompr, Bits(f.bitmap), f.Edges(), SlotsOf(p, Bits(f.bitmap), f.Slots()),
      prefix)
    ensures forall b :: b in Bits(f.bitmap) ==> b < |f.Slots()|
    ensures !f.iscompr ==> |f.Slots()| == f.size
  {
    FirstAtLeast(f.size);
    hide Bits, CellsOf;
  }

  lemma WithEdgeRest(x: N, pos: nat, leaf: RaxNode, c: Byte, s: Slot)
    requires pos <= |x.data| == |x.slots| && forall b :: b in x.bits ==> b < |x.slots|
    ensures var y := WithEdge(Spilled(x, pos, leaf), pos, c, s);
      y == N(x.iskey, x.value, x.iscompr, y.bits, y.data, y.slots, x.prefix)
  {
    hide InsertAt, BitsAfterInsert;
  }

  /** raxAddChild on the buffer is the tree's new edge. */
  method AddEdge(p: Pointers, f: FlatNode, prefix: Key, c: Byte, cell: Cell, leaf: Cell) returns (pos: nat)
    requires f.Valid() && !f.iscompr && Sorted(f.Edges()) && c !in f.Edges() && |cell| == 8 && |leaf| == 8
    modifies f`mem, f`size, f`bitmap
    ensures f.Valid() && pos <= old(f.size) && Sorted(f.Edges())
    ensures Decoded(p, f, prefix) ==
      WithEdge(Spilled(old(Decoded(p, f, prefix)), pos, p.node(leaf)), pos, c, Child(p.node(cell)))
  {
    hide *;
    DecodedParts(p, f, prefix);
    ghost var x, cells, bm := Decoded(p, f, prefix), f.Slots(), f.bitmap;
    pos := f.AddChild(c, cell, leaf);
    DecodedParts(p, f, prefix);
    AddedIs(p, x, bm, cells, pos, c, cell, leaf);
    WithEdgeRest(x, pos, p.node(leaf), c, Child(p.node(cell)));
  }

  lemma AddedIs(p: Pointers, x: N, bitmap: bv16, cells: seq<Cell>, pos: nat, c: Byte, cell: Cell, leaf: Cell)
    requires pos <= |x.data| == |cells| && x.bits == Bits(bitmap) && x.slots == SlotsOf(p, x.bits, cells)
    requires forall b :: b in x.bits ==> b < |cells|
    ensures var y := WithEdge(Spilled(x, pos, p.node(leaf)), pos, c, Child(p.node(cell)));
      y.bits == BitsAfterInsert(x.bits, pos) &&
      y.slots == SlotsOf(p, y.bits, InsertAt(Spill(cells, bitmap, pos, leaf), pos, cell)) &&
      y.data == InsertAt(x.data, pos, c)
  {
    assert 12 in x.bits <==> Bit(bitmap, 12);
    hide Bit;
    assert forall b :: b in x.bits ==> b < INLINE_SLOTS;
    InsertedBits(x.bits, pos);
    if pos <= 12 && 12 in x.bits {
      SpilledSlots(p, x.bits, cells, leaf);
      InsertedSlots(p, x.bits - {12}, cells[12 := leaf], pos, cell);
    } else {
      InsertedSlots(p, x.bits, cells, pos, cell);
    }
    hide BitsAfterInsert, InsertAt;
  }

  lemma OnePlace(e: Key, i: nat, j: nat, c: Byte)
    requires i < j <= |e| && Sorted(InsertAt(e, i, c))
    ensures !Sorted(InsertAt(e, j, c))
  {
    var a, b := InsertAt(e, i, c), InsertAt(e, j, c);
    assert a[i] < a[i + 1] && b[i] == a[i + 1] && b[j] == a[i];
  }

  lemma SamePlace(e: Key, i: nat, j: nat, c: Byte)
    requires i <= |e| && j <= |e| && Sorted(InsertAt(e, i, c)) && Sorted(InsertAt(e, j, c))
    ensures i == j
  {
    if i < j { OnePlace(e, i, j, c); }
    if j < i { OnePlace(e, j, i, c); }
  }

  lemma MarkedSlots(p: Pointers, bits: set<nat>, cells: seq<Cell>, pos: nat)
    requires pos < |cells|
    ensures SlotsOf(p, bits + {pos}, cells) == SlotsOf(p, bits, cells)[pos := Inline(p.value(cells[pos]))]
  {
  }

  lemma InlineIs(p: Pointers, x: N, pos: nat, c: Byte, a: Slot, v: Value)
    requires pos <= |x.data| && pos <= |x.slots| && a.Child?
    ensures var y, z := WithEdge(x, pos, c, a), WithEdge(x, pos, c, Inline(v));
      z.bits == y.bits + {pos} && pos < |y.slots| && z.slots == y.slots[pos := Inline(v)] &&
        z == y.(bits := z.bits, slots := z.slots)
  {
  }

  lemma SpilledSizes(x: N, pos: nat, leaf: RaxNode)
    requires forall b :: b in x.bits ==> b < |x.slots|
    ensures var y := Spilled(x, pos, leaf); |y.data| == |x.data| && |y.slots| == |x.slots|
  {
  }

  /** The edge to a value: raxAddChildNoAlloc, the value in the new field and its bit set, if the bitmap
      reaches that far. */
  method AddInlineEdge(p: Pointers, f: FlatNode, prefix: Key, c: Byte, cell: Cell, leaf: Cell)
    returns (done: bool, pos: nat)
    requires f.Valid() && !f.iscompr && Sorted(f.Edges()) && c !in f.Edges() && |cell| == 8 && |leaf| == 8
    modifies f`mem, f`size, f`bitmap
    ensures f.Valid() && pos <= old(f.size) && Sorted(f.Edges()) && Sorted(InsertAt(old(f.Edges()), pos, c))
    ensures done == (pos < 13)
    ensures Decoded(p, f, prefix) ==
      if done then WithEdge(Spilled(old(Decoded(p, f, prefix)), pos, p.node(leaf)), pos, c, Inline(p.value(cell)))
      else old(Decoded(p, f, prefix))
  {
    hide *;
    done := false;
    DecodedParts(p, f, prefix);
    ghost var x, cells, bm, e := Decoded(p, f, prefix), f.Slots(), f.bitmap, f.Edges();
    pos := f.FindChildPos(c);
    if pos >= 13 { return; }
    ghost var place := pos;
    pos := f.AddChild(c, cell, leaf);
    SamePlace(e, place, pos, c);
    DecodedParts(p, f, prefix);
    AddedIs(p, x, bm, cells, pos, c, cell, leaf);
    WithEdgeRest(x, pos, p.node(leaf), c, Child(p.node(cell)));
    ghost var cells', bits' := f.Slots(), Bits(f.bitmap);
    f.MarkInline(pos);
    DecodedParts(p, f, prefix);
    MarkedSlots(p, bits', cells', pos);
    SpilledSizes(x, pos, p.node(leaf));
    InlineIs(p, Spilled(x, pos, p.node(leaf)), pos, c, Child(p.node(cell)), p.value(cell));
    done := true;
  }

  lemma RemovedSlots(p: Pointers, bits: set<nat>, cells: seq<Cell>, pos: nat)
    requires pos < |cells| && forall b :: b in bits ==> b < |cells| && b < INLINE_SLOTS
    ensures SlotsOf(p, BitsAfterRemove(bits, pos), RemoveAt(cells, pos)) == RemoveAt(SlotsOf(p, bits, cells), pos)
  {
    var now := BitsAfterRemove(bits, pos);
    forall i: nat | i < |cells| - 1
      ensures SlotOf(p, now, i, RemoveAt(cells, pos)[i]) == RemoveAt(SlotsOf(p, bits, cells), pos)[i]
    {
      assert i in now <==> i < INLINE_SLOTS && BitMovesFrom(bits, pos, i);
    }
  }

  /** raxRemoveChildAtPtr on the buffer is the tree's node without the slot. */
  method RemoveEdge(p: Pointers, f: FlatNode, prefix: Key, i: nat)
    requires f.Valid() && i < Cells(f.iscompr, f.size) && (f.iscompr ==> f.size > 0)
    modifies f, f.mem
    ensures f.Valid() && Decoded(p, f, prefix) == WithoutSlot(old(Decoded(p, f, prefix)), i)
  {
    ghost var x := Decoded(p, f, prefix);
    if !f.iscompr { RemovedSlots(p, Bits(f.bitmap), f.Slots(), i); }
    hide Bits, BitsAfterRemove, RemoveAt;
    f.RemoveChild(i);
  }

  /** raxSetData on the buffer is the tree's node as a key with the value. */
  method StoreValue(p: Pointers, f: FlatNode, prefix: Key, v: Option<Cell>)
    requires f.Valid() && Length(f.iscompr, f.size, v.Some?) <= f.mem.Length && (v.Some? ==> |v.value| == 8)
    modifies f`iskey, f`isnull, f.mem
    ensures f.Valid() && Decoded(p, f, prefix) == WithData(old(Decoded(p, f, prefix)), ValueOf(p, v))
  {
    ghost var was := f.mem[..];
    FirstAtLeast(f.size);
    f.SetData(v);
    ghost var l := First(f.size) + 8 * Cells(f.iscompr, f.size);
    SamePrefix(was, f.mem[..], l, f.size, First(f.size), Cells(f.iscompr, f.size));
  }

  lemma SamePrefix(a: seq<Byte>, b: seq<Byte>, l: nat, n: nat, first: nat, cells: nat)
    requires l <= |a| == |b| && a[..l] == b[..l] && n <= first && first + 8 * cells <= l
    ensures a[..n] == b[..n] && CellsOf(a, first, cells) == CellsOf(b, first, cells)
  {
    assert a[..n] == a[..l][..n] && b[..n] == b[..l][..n];
    forall i: nat | i < cells ensures a[first + 8 * i..first + 8 * i + 8] == b[first + 8 * i..first + 8 * i + 8] {
      assert a[first + 8 * i..first + 8 * i + 8] == a[..l][first + 8 * i..first + 8 * i + 8];
      assert b[first + 8 * i..first + 8 * i + 8] == b[..l][first + 8 * i..first + 8 * i + 8];
    }
  }
}
