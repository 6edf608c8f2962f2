/** Radix-tree nodes as they lie in memory: edge bytes, padding, child cells and the value cell,
    edited in place with memmove. Offsets count from the byte after the four-byte header. */
module RaxFlat {
  import opened Basics
  import opened RaxKeys
  import opened RaxSteps
  import opened RaxReshape
  import opened RaxWords
  import opened RaxBits

  /** The eight bytes of one stored pointer. */
  type Cell = seq<Byte>

  /** raxPadding: the cells start at addresses divisible by eight. */
  function Pad(n: nat): nat {
    var r := (n + 4) % 8;
    if r == 0 then 0 else 8 - r
  }

  /** Offset of the first cell of a node with n edge bytes. */
  function First(n: nat): nat {
    n + Pad(n)
  }

  function Cells(iscompr: bool, n: nat): nat {
    if iscompr then 1 else n
  }

  /** raxNodeCurrentLength, without the header. */
  function Length(iscompr: bool, n: nat, hasValue: bool): nat {
    First(n) + 8 * Cells(iscompr, n) + (if hasValue then 8 else 0)
  }

  lemma ModStep(m: nat)
    ensures (m + 1) % 8 == if m % 8 == 7 then 0 else m % 8 + 1
  {
  }

  lemma FirstAtLeast(n: nat)
    ensures First(0) == 4 && First(n) >= 4
  {
    if n < 4 { assert First(1) == First(2) == First(3) == 4; }
  }

  /** One more edge byte moves the cells by nothing or by one cell. */
  lemma FirstStep(n: nat)
    ensures n <= First(n) && n + 1 <= First(n + 1)
    ensures First(n + 1) == if (n + 4) % 8 == 0 then First(n) + 8 else First(n)
  {
    ModStep(n + 4);
  }

  /** One edge byte less: the cells move down by one cell when the last edge byte was followed by
      nothing but padding. */
  lemma FirstBack(n: nat)
    requires n > 0
    ensures First(n - 1) == First(n) - (if (n + 4) % 8 == 1 then 8 else 0) && n <= First(n) && n <= First(n - 1) + 1
  {
    FirstStep(n - 1);
    ModStep(n + 3);
  }

  // ---- Moving bytes -----------------------------------------------------------------------

  /** m' is m after memmove of n bytes from src to dst. */
  ghost predicate IsMove(m: seq<Byte>, m': seq<Byte>, dst: nat, src: nat, n: nat) {
    && |m'| == |m| && dst + n <= |m| && src + n <= |m|
    && forall k {:trigger m'[k]} :: 0 <= k < |m| ==> m'[k] == if dst <= k < dst + n then m[k - dst + src] else m[k]
  }

  /** What is below the target of a move stays, and any part of it arrives. */
  lemma MovePart(m: seq<Byte>, m': seq<Byte>, dst: nat, src: nat, n: nat, off: nat, len: nat)
    requires IsMove(m, m', dst, src, n) && off + len <= n
    ensures Same(m, 0, m', 0, dst) && Same(m, src + off, m', dst + off, len)
  {
  }

  method Memmove(mem: array<Byte>, dst: nat, src: nat, n: nat)
    requires dst + n <= mem.Length && src + n <= mem.Length
    modifies mem
    ensures IsMove(old(mem[..]), mem[..], dst, src, n)
  {
    forall k | 0 <= k < n {
      mem[dst + k] := mem[src + k];
    }
  }

  /** m' from offset dst on has what m has from src on, for n bytes. */
  ghost predicate Same(m: seq<Byte>, src: nat, m': seq<Byte>, dst: nat, n: nat) {
    && src + n <= |m| && dst + n <= |m'|
    && forall k {:trigger m'[k]} :: dst <= k < dst + n ==> m'[k] == m[k - dst + src]
  }

  function CellAt(m: seq<Byte>, first: nat, i: nat): Cell
    requires first + 8 * i + 8 <= |m|
  {
    m[first + 8 * i..first + 8 * i + 8]
  }

  function CellsOf(m: seq<Byte>, first: nat, count: nat): seq<Cell>
    requires first + 8 * count <= |m|
  {
    seq(count, i requires 0 <= i < count => CellAt(m, first, i))
  }

  // ---- Opening a gap for one more edge -------------------------------------------------------

  /** m' has the cells of m, and the value cell, in their new places; the edge bytes did not move. */
  ghost predicate CellsOpened(m: seq<Byte>, m': seq<Byte>, n: nat, f: nat, f1: nat, hasValue: bool, pos: nat) {
    && pos <= n && |m'| == |m| && Same(m, 0, m', 0, n)
    && Same(m, f, m', f1, 8 * pos) && Same(m, f + 8 * pos, m', f1 + 8 * (pos + 1), 8 * (n - pos))
    && (hasValue ==> Same(m, f + 8 * n, m', f1 + 8 * (n + 1), 8))
  }

  /** raxAddChildNoAlloc: the value cell goes to the new end and the later cells make room for one.
      The cells start at f and will start at f1. */
  method OpenLater(mem: array<Byte>, n: nat, f: nat, f1: nat, hasValue: bool, pos: nat)
    requires pos <= n <= f <= f1 && n < f1 && f1 + 8 * (n + 1) + (if hasValue then 8 else 0) <= mem.Length
    modifies mem
    ensures Same(old(mem[..]), 0, mem[..], 0, f + 8 * pos)
    ensures Same(old(mem[..]), f + 8 * pos, mem[..], f1 + 8 * (pos + 1), 8 * (n - pos))
    ensures hasValue ==> Same(old(mem[..]), f + 8 * n, mem[..], f1 + 8 * (n + 1), 8)
  {
    var value := if hasValue then 8 else 0;
    var curlen, newlen := f + 8 * n + value, f1 + 8 * (n + 1) + value;
    if hasValue { Memmove(mem, newlen - 8, curlen - 8, 8); }
    var shift, src := newlen - curlen - 8, f + 8 * pos;
    Memmove(mem, src + shift + 8, src, 8 * (n - pos));
  }

  /** Then the earlier cells move if the padding changed. */
  method OpenCells(mem: array<Byte>, n: nat, f: nat, f1: nat, hasValue: bool, pos: nat)
    requires pos <= n <= f <= f1 && n < f1 && f1 + 8 * (n + 1) + (if hasValue then 8 else 0) <= mem.Length
    modifies mem
    ensures CellsOpened(old(mem[..]), mem[..], n, f, f1, hasValue, pos)
  {
    OpenLater(mem, n, f, f1, hasValue, pos);
    if f1 > f { Memmove(mem, f1, f, 8 * pos); }
  }

  /** And the later edge bytes make room for c. */
  method OpenEdges(mem: array<Byte>, n: nat, pos: nat, c: Byte)
    requires pos <= n < mem.Length
    modifies mem
    ensures Same(old(mem[..]), 0, mem[..], 0, pos) && mem[pos] == c
    ensures Same(old(mem[..]), pos, mem[..], pos + 1, n - pos)
    ensures Same(old(mem[..]), n + 1, mem[..], n + 1, mem.Length - n - 1)
  {
    Memmove(mem, pos + 1, pos, n - pos);
    mem[pos] := c;
  }

  // ---- Closing the gap of a removed edge ---------------------------------------------------

  /** raxRemoveChildAtPtr: the later edge bytes move down by one. */
  method CloseEdges(mem: array<Byte>, n: nat, pos: nat)
    requires pos < n <= mem.Length
    modifies mem
    ensures Same(old(mem[..]), 0, mem[..], 0, pos) && Same(old(mem[..]), pos + 1, mem[..], pos, n - pos - 1)
    ensures Same(old(mem[..]), n, mem[..], n, mem.Length - n)
  {
    Memmove(mem, pos, pos + 1, n - pos - 1);
  }

  /** The cells will start at f0: the earlier ones move if the padding changed. */
  method CloseEarlier(mem: array<Byte>, f: nat, f0: nat, pos: nat)
    requires f0 <= f && f + 8 * pos <= mem.Length
    modifies mem
    ensures Same(old(mem[..]), 0, mem[..], 0, f0) && Same(old(mem[..]), f, mem[..], f0, 8 * pos)
    ensures Same(old(mem[..]), f0 + 8 * pos, mem[..], f0 + 8 * pos, mem.Length - f0 - 8 * pos)
  {
    var shift := f - f0;
    if shift > 0 { Memmove(mem, f - shift, f, 8 * pos); }
  }

  /** Then the later ones and the value cell close the gap. */
  method CloseLater(mem: array<Byte>, n: nat, f: nat, f0: nat, hasValue: bool, pos: nat)
    requires pos < n && f0 <= f && f + 8 * n + (if hasValue then 8 else 0) <= mem.Length
    modifies mem
    ensures Same(old(mem[..]), 0, mem[..], 0, f0 + 8 * pos)
    ensures Same(old(mem[..]), f + 8 * (pos + 1), mem[..], f0 + 8 * pos, 8 * (n - pos - 1))
    ensures hasValue ==> Same(old(mem[..]), f + 8 * n, mem[..], f0 + 8 * (n - 1), 8)
  {
    hide *;
    ghost var m0 := mem[..];
    var tail, valuelen := 8 * (n - pos - 1), if hasValue then 8 else 0;
    var dst, src := f0 + 8 * pos, f + 8 * (pos + 1);
    Memmove(mem, dst, src, tail + valuelen);
    MovePart(m0, mem[..], dst, src, tail + valuelen, 0, tail);
    assert src + tail == f + 8 * n && dst + tail == f0 + 8 * (n - 1);
    if hasValue { MovePart(m0, mem[..], dst, src, tail + valuelen, tail, 8); }
  }

  method CloseCells(mem: array<Byte>, n: nat, f: nat, f0: nat, hasValue: bool, pos: nat)
    requires pos < n <= f && n <= f0 + 1 && f0 <= f && f + 8 * n + (if hasValue then 8 else 0) <= mem.Length
    modifies mem
    ensures Same(old(mem[..]), 0, mem[..], 0, n - 1) && Same(old(mem[..]), f, mem[..], f0, 8 * pos)
    ensures Same(old(mem[..]), f + 8 * (pos + 1), mem[..], f0 + 8 * pos, 8 * (n - pos - 1))
    ensures hasValue ==> Same(old(mem[..]), f + 8 * n, mem[..], f0 + 8 * (n - 1), 8)
  {
    CloseEarlier(mem, f, f0, pos);
    CloseLater(mem, n, f, f0, hasValue, pos);
  }

  // ---- What the moves do to edges and cells -----------------------------------------------------

  /** All of m for a node with n edges is found in m', with room for edge c and its cell at pos. */
  ghost predicate Gap(m: seq<Byte>, m': seq<Byte>, n: nat, f: nat, f1: nat, hasValue: bool, pos: nat, c: Byte) {
    && pos <= n && pos < |m'|
    && Same(m, 0, m', 0, pos) && m'[pos] == c && Same(m, pos, m', pos + 1, n - pos)
    && Same(m, f, m', f1, 8 * pos) && Same(m, f + 8 * pos, m', f1 + 8 * (pos + 1), 8 * (n - pos))
    && (hasValue ==> Same(m, f + 8 * n, m', f1 + 8 * (n + 1), 8))
  }

  /** The moves on the reallocated node. */
  method OpenGap(mem: array<Byte>, n: nat, f: nat, f1: nat, hasValue: bool, pos: nat, c: Byte)
    requires pos <= n <= f <= f1 && n < f1 && f1 + 8 * (n + 1) + (if hasValue then 8 else 0) <= mem.Length
    modifies mem
    ensures Gap(old(mem[..]), mem[..], n, f, f1, hasValue, pos, c)
  {
    OpenCells(mem, n, f, f1, hasValue, pos);
    OpenEdges(mem, n, pos, c);
  }

  lemma GapEdges(m: seq<Byte>, m': seq<Byte>, n: nat, f: nat, f1: nat, hasValue: bool, pos: nat, c: Byte)
    requires Gap(m, m', n, f, f1, hasValue, pos, c) && n <= |m| && n < |m'|
    ensures m'[..n + 1] == InsertAt(m[..n], pos, c)
  {
    forall k | 0 <= k < n + 1 ensures m'[..n + 1][k] == InsertAt(m[..n], pos, c)[k] {
      assert m'[k] == if k < pos then m[k] else if k == pos then c else m[k - 1];
    }
  }

  lemma GapCell(m: seq<Byte>, m': seq<Byte>, n: nat, f: nat, f1: nat, hasValue: bool, pos: nat, c: Byte, i: nat)
    requires Gap(m, m', n, f, f1, hasValue, pos, c) && f + 8 * n <= |m| && f1 + 8 * (n + 1) <= |m'| && i < n
    ensures CellAt(m', f1, if i < pos then i else i + 1) == CellAt(m, f, i)
  {
    SameCell(m, f + 8 * i, m', f1 + 8 * (if i < pos then i else i + 1), m[f + 8 * i..f + 8 * i + 8]);
  }

  lemma GapCells(m: seq<Byte>, m': seq<Byte>, n: nat, f: nat, f1: nat, hasValue: bool, pos: nat, c: Byte)
    requires Gap(m, m', n, f, f1, hasValue, pos, c) && f + 8 * n <= |m| && f1 + 8 * (n + 1) <= |m'|
    ensures RemoveAt(CellsOf(m', f1, n + 1), pos) == CellsOf(m, f, n)
  {
    hide Same;
    forall i | 0 <= i < n ensures RemoveAt(CellsOf(m', f1, n + 1), pos)[i] == CellsOf(m, f, n)[i] {
      GapCell(m, m', n, f, f1, hasValue, pos, c, i);
    }
  }

  lemma Narrowed(m0: seq<Byte>, m1: seq<Byte>, m2: seq<Byte>, n: nat, f: nat, f0: nat, v: bool, pos: nat)
    requires pos < n <= f && n <= f0 + 1 && f0 <= f && f + 8 * n + (if v then 8 else 0) <= |m0|
    requires |m1| == |m0| && Same(m0, 0, m1, 0, pos) && Same(m0, pos + 1, m1, pos, n - pos - 1)
    requires Same(m0, n, m1, n, |m0| - n)
    requires |m2| == |m0| && Same(m1, 0, m2, 0, n - 1) && Same(m1, f, m2, f0, 8 * pos)
    requires Same(m1, f + 8 * (pos + 1), m2, f0 + 8 * pos, 8 * (n - pos - 1))
    requires v ==> Same(m1, f + 8 * n, m2, f0 + 8 * (n - 1), 8)
    ensures m2[..n - 1] == RemoveAt(m0[..n], pos)
    ensures CellsOf(m2, f0, n - 1) == RemoveAt(CellsOf(m0, f, n), pos)
    ensures v ==> m2[f0 + 8 * (n - 1)..f0 + 8 * (n - 1) + 8] == m0[f + 8 * n..f + 8 * n + 8]
  {
    forall k | 0 <= k < n - 1 ensures m2[..n - 1][k] == RemoveAt(m0[..n], pos)[k] {
      assert m2[k] == m1[k] && m1[k] == if k < pos then m0[k] else m0[k + 1];
    }
    var l, r := CellsOf(m2, f0, n - 1), RemoveAt(CellsOf(m0, f, n), pos);
    forall i | 0 <= i < n - 1 ensures l[i] == r[i] {
      NarrowedCell(m0, m1, m2, n, f, f0, pos, i);
    }
    if v { SameCell(m0, f + 8 * n, m2, f0 + 8 * (n - 1), m0[f + 8 * n..f + 8 * n + 8]); }
  }

  lemma NarrowedCell(m0: seq<Byte>, m1: seq<Byte>, m2: seq<Byte>, n: nat, f: nat, f0: nat, pos: nat, i: nat)
    requires pos < n <= f && n <= f0 + 1 && f0 <= f && f + 8 * n <= |m0| && i < n - 1
    requires |m1| == |m0| && Same(m0, n, m1, n, |m0| - n)
    requires |m2| == |m0| && Same(m1, f, m2, f0, 8 * pos)
    requires Same(m1, f + 8 * (pos + 1), m2, f0 + 8 * pos, 8 * (n - pos - 1))
    ensures CellAt(m2, f0, i) == CellAt(m0, f, if i < pos then i else i + 1)
  {
    var j := if i < pos then i else i + 1;
    SameCell(m0, f + 8 * j, m2, f0 + 8 * i, m0[f + 8 * j..f + 8 * j + 8]);
  }

  /** Both moves of a removal. */
  method CloseGap(mem: array<Byte>, n: nat, f: nat, f0: nat, v: bool, pos: nat)
    requires pos < n <= f && n <= f0 + 1 && f0 <= f && f + 8 * n + (if v then 8 else 0) <= mem.Length
    modifies mem
    ensures mem[..n - 1] == RemoveAt(old(mem[..n]), pos)
    ensures CellsOf(mem[..], f0, n - 1) == RemoveAt(CellsOf(old(mem[..]), f, n), pos)
    ensures v ==> mem[f0 + 8 * (n - 1)..f0 + 8 * (n - 1) + 8] == old(mem[f + 8 * n..f + 8 * n + 8])
  {
    ghost var m0 := mem[..];
    CloseEdges(mem, n, pos);
    ghost var m1 := mem[..];
    CloseCells(mem, n, f, f0, v, pos);
    Narrowed(m0, m1, mem[..], n, f, f0, v, pos);
  }

  /** Eight equal bytes are one equal cell. */
  lemma SameCell(m: seq<Byte>, src: nat, m': seq<Byte>, dst: nat, cell: Cell)
    requires src + 8 <= |m| && dst + 8 <= |m'| && m[src..src + 8] == cell
    requires forall k {:trigger m'[k]} :: dst <= k < dst + 8 ==> m'[k] == m[k - dst + src]
    ensures m'[dst..dst + 8] == cell
  {
    forall b | 0 <= b < 8 ensures m'[dst..dst + 8][b] == cell[b] {
      assert m'[dst + b] == m[dst + b - dst + src];
    }
  }

  /** memcpy of one pointer into its field. */
  method StoreCell(mem: array<Byte>, first: nat, i: nat, cell: Cell)
    requires |cell| == 8 && first + 8 * i + 8 <= mem.Length
    modifies mem
    ensures mem[..first + 8 * i] == old(mem[..first + 8 * i]) && CellAt(mem[..], first, i) == cell
    ensures mem[first + 8 * i + 8..] == old(mem[first + 8 * i + 8..])
  {
    forall k | 0 <= k < 8 { mem[first + 8 * i + k] := cell[k]; }
  }

  lemma StoredCells(m: seq<Byte>, m': seq<Byte>, first: nat, count: nat, i: nat, cell: Cell)
    requires |m'| == |m| && first + 8 * count <= |m| && i < count && CellAt(m', first, i) == cell
    requires m'[..first + 8 * i] == m[..first + 8 * i] && m'[first + 8 * i + 8..] == m[first + 8 * i + 8..]
    ensures CellsOf(m', first, count) == CellsOf(m, first, count)[i := cell]
  {
    forall j | 0 <= j < count && j != i ensures CellAt(m', first, j) == CellAt(m, first, j) {
      var a, e := first + 8 * j, first + 8 * i;
      if j < i {
        assert m'[a..a + 8] == m'[..e][a..a + 8];
        assert m[a..a + 8] == m[..e][a..a + 8];
      } else {
        assert m'[a..a + 8] == m'[e + 8..][a - e - 8..a - e];
        assert m[a..a + 8] == m[e + 8..][a - e - 8..a - e];
      }
    }
  }

  // ---- Nodes ---------------------------------------------------------------------------------

  /** rax_realloc: the bytes that fit stay. */
  method Realloc(mem: array<Byte>, len: nat) returns (m: array<Byte>)
    ensures fresh(m) && m.Length == len && Same(mem[..], 0, m[..], 0, if mem.Length < len then mem.Length else len)
  {
    m := new Byte[len];
    var n := if mem.Length < len then mem.Length else len;
    forall k | 0 <= k < n { m[k] := mem[k]; }
  }

  /** A larger copy of the node with the gap opened. */
  method GrowGap(mem: array<Byte>, n: nat, f: nat, f1: nat, v: bool, pos: nat, c: Byte) returns (m: array<Byte>)
    requires pos <= n <= f <= f1 && n < f1 && f + 8 * n + (if v then 8 else 0) <= mem.Length
    ensures fresh(m) && m.Length == f1 + 8 * (n + 1) + (if v then 8 else 0)
    ensures m[..n + 1] == InsertAt(mem[..n], pos, c)
    ensures RemoveAt(CellsOf(m[..], f1, n + 1), pos) == CellsOf(mem[..], f, n)
    ensures v ==> m[f1 + 8 * (n + 1)..f1 + 8 * (n + 1) + 8] == mem[f + 8 * n..f + 8 * n + 8]
  {
    hide *;
    m := Realloc(mem, f1 + 8 * (n + 1) + (if v then 8 else 0));
    ghost var m1 := m[..];
    OpenGap(m, n, f, f1, v, pos, c);
    Widened(mem[..], m1, m[..], n, f, f1, v, pos, c);
  }

  lemma StoredEdges(m: seq<Byte>, m': seq<Byte>, e: nat, n: nat)
    requires n <= e <= |m| && e <= |m'| && m'[..e] == m[..e]
    ensures m'[..n] == m[..n]
  {
    assert m'[..n] == m'[..e][..n] && m[..n] == m[..e][..n];
  }

  lemma StoredValue(m: seq<Byte>, m': seq<Byte>, e: nat, l: nat)
    requires |m'| == |m| && e + 8 <= l && l + 8 <= |m| && m'[e + 8..] == m[e + 8..]
    ensures m'[l..l + 8] == m[l..l + 8]
  {
    assert m'[l..l + 8] == m'[e + 8..][l - e - 8..l - e];
    assert m[l..l + 8] == m[e + 8..][l - e - 8..l - e];
  }

  lemma Widened(m0: seq<Byte>, m1: seq<Byte>, m2: seq<Byte>, n: nat, f: nat, f1: nat, v: bool, pos: nat, c: Byte)
    requires pos <= n <= f <= f1 && n < f1 && f1 + 8 * (n + 1) + (if v then 8 else 0) <= |m2|
    requires f + 8 * n + (if v then 8 else 0) <= |m0| && |m1| == |m2|
    requires Same(m0, 0, m1, 0, if |m0| < |m1| then |m0| else |m1|)
    requires Gap(m1, m2, n, f, f1, v, pos, c)
    ensures m2[..n + 1] == InsertAt(m0[..n], pos, c)
    ensures RemoveAt(CellsOf(m2, f1, n + 1), pos) == CellsOf(m0, f, n)
    ensures v ==> m2[f1 + 8 * (n + 1)..f1 + 8 * (n + 1) + 8] == m0[f + 8 * n..f + 8 * n + 8]
  {
    assert Gap(m0, m2, n, f, f1, v, pos, c);
    GapEdges(m0, m2, n, f, f1, v, pos, c);
    GapCells(m0, m2, n, f, f1, v, pos, c);
    if v { SameCell(m0, f + 8 * n, m2, f1 + 8 * (n + 1), m0[f + 8 * n..f + 8 * n + 8]); }
  }

  class FlatNode {
    var iskey: bool
    var isnull: bool
    var iscompr: bool
    var bitmap: bv16
    var size: nat
    var mem: array<Byte>

    predicate HasValue()
      reads this`iskey, this`isnull
    {
      iskey && !isnull
    }

    /** raxNodeCurrentLength, without the header. */
    function Len(): nat
      reads this
    {
      Length(iscompr, size, HasValue())
    }

    ghost predicate Valid()
      reads this, mem
    {
      && Len() <= mem.Length && bitmap < 0x2000
      && forall b :: b in Bits(bitmap) ==> b < Cells(iscompr, size)
    }

    function Edges(): Key
      requires size <= mem.Length
      reads this, mem
    {
      mem[..size]
    }

    function Slots(): seq<Cell>
      requires Len() <= mem.Length
      reads this, mem
    {
      CellsOf(mem[..], First(size), Cells(iscompr, size))
    }

    function Value(): Option<Cell>
      requires Len() <= mem.Length
      reads this, mem
    {
      if HasValue() then Some(mem[Len() - 8..Len()]) else None
    }

    /** Where the parts of a plain node are in the buffer. */
    lemma PlainView()
      requires !iscompr
      ensures var f, v := First(size), HasValue();
        && Len() == f + 8 * size + (if v then 8 else 0) && size <= f
        && (Len() <= mem.Length ==>
              && Edges() == mem[..size] && Slots() == CellsOf(mem[..], f, size)
              && Value() == if v then Some(mem[f + 8 * size..f + 8 * size + 8]) else None)
    {
      FirstStep(size);
    }

    /** Room for one more edge: everything stays in order and the new cell is not set. */
    method Widen(pos: nat, c: Byte)
      requires Len() <= mem.Length && !iscompr && pos <= size
      modifies this`mem, this`size
      ensures fresh(mem) && size == old(size) + 1 && Len() <= mem.Length
      ensures Edges() == InsertAt(old(Edges()), pos, c)
      ensures RemoveAt(Slots(), pos) == old(Slots()) && Value() == old(Value())
    {
      hide *;
      var n, v := size, HasValue();
      FirstStep(n);
      PlainView();
      mem := GrowGap(mem, n, First(n), First(n + 1), v, pos, c);
      size := n + 1;
      PlainView();
    }

    /** memcpy of a pointer into the field of slot i. */
    method SetSlot(i: nat, cell: Cell)
      requires Len() <= mem.Length && i < Cells(iscompr, size) && |cell| == 8
      modifies mem
      ensures Edges() == old(Edges()) && Value() == old(Value()) && Slots() == old(Slots())[i := cell]
    {
      ghost var m0 := mem[..];
      var f := First(size);
      FirstStep(size);
      StoreCell(mem, f, i, cell);
      StoredCells(m0, mem[..], f, Cells(iscompr, size), i, cell);
      StoredEdges(m0, mem[..], f + 8 * i, size);
      if HasValue() { StoredValue(m0, mem[..], f + 8 * i, Len() - 8); }
    }

    /** raxNodeFindChildPos */
    method FindChildPos(c: Byte) returns (pos: nat)
      requires size <= mem.Length && Sorted(Edges()) && c !in Edges()
      ensures pos <= size && Sorted(InsertAt(Edges(), pos, c))
    {
      pos := 0;
      while pos < size
        invariant pos <= size && forall k :: 0 <= k < pos ==> Edges()[k] < c
      {
        assert mem[pos] == Edges()[pos];
        if mem[pos] > c { break; }
        pos := pos + 1;
      }
      SortedInsert(Edges(), pos, c);
    }

    /** The bitmap of a node that had n slots, shifted for a new slot. */
    method OpenBit(ghost n: nat, pos: nat)
      requires bitmap < 0x2000 && pos <= n && forall b :: b in Bits(bitmap) ==> b < n
      modifies this`bitmap
      ensures bitmap < 0x2000 && Bits(bitmap) == BitsAfterInsert(old(Bits(bitmap)), pos)
      ensures forall b :: b in Bits(bitmap) ==> b < n + 1
    {
      OpenedCells(bitmap, n, pos);
      if bitmap != 0 && pos < 13 { bitmap := Opened(bitmap, WordOf(pos)); }
    }

    method CloseBit(ghost n: nat, pos: nat)
      requires bitmap < 0x2000 && pos < n && forall b :: b in Bits(bitmap) ==> b < n
      modifies this`bitmap
      ensures bitmap < 0x2000 && Bits(bitmap) == BitsAfterRemove(old(Bits(bitmap)), pos)
      ensures forall b :: b in Bits(bitmap) ==> b < n - 1
    {
      ClosedCells(bitmap, n, pos);
      if bitmap != 0 && pos < 13 { bitmap := Closed(bitmap, WordOf(pos)); }
    }

    /** The field at pos is a value: leafbitmap |= 1 << pos. */
    method MarkInline(pos: nat)
      requires Valid() && pos < Cells(iscompr, size) && pos < 13
      modifies this`bitmap
      ensures Valid() && Bits(bitmap) == old(Bits(bitmap)) + {pos}
      ensures Edges() == old(Edges()) && Slots() == old(Slots()) && Value() == old(Value())
    {
      hide First, Pad, Length, CellsOf, Bits, Marked, WordOf;
      MarkedBits(bitmap, pos);
      bitmap := Marked(bitmap, WordOf(pos));
    }

    /** raxAddChildNoAlloc: the field at pos is left for the caller. An inline value in slot 12 that
        would move to slot 13 is replaced by the node `leaf` made for it. */
    method AddChildNoAlloc(c: Byte, leaf: Cell) returns (pos: nat)
      requires Valid() && !iscompr && Sorted(Edges()) && c !in Edges() && |leaf| == 8
      modifies this`mem, this`size, this`bitmap
      ensures Valid() && fresh(mem) && pos <= old(size) && size == old(size) + 1
      ensures Edges() == InsertAt(old(Edges()), pos, c) && Sorted(Edges())
      ensures RemoveAt(Slots(), pos) == Spill(old(Slots()), old(bitmap), pos, leaf)
      ensures Value() == old(Value()) && Bits(bitmap) == BitsAfterInsert(old(Bits(bitmap)), pos)
    {
      pos := FindChildPos(c);
      var spill := pos <= 12 && Bit(bitmap, 12);
      ghost var s0 := Slots();
      SpillIs(s0, bitmap, pos, leaf, size);
      hide *;
      MakeRoom(pos, c);
      if spill { SpillLeaf(pos, leaf, s0); }
    }

    /** Room for the edge, and the bitmap shifted with the cells. */
    method MakeRoom(pos: nat, c: Byte)
      requires Valid() && !iscompr && pos <= size
      modifies this`mem, this`size, this`bitmap
      ensures Valid() && fresh(mem) && size == old(size) + 1
      ensures Edges() == InsertAt(old(Edges()), pos, c)
      ensures RemoveAt(Slots(), pos) == old(Slots()) && Value() == old(Value())
      ensures Bits(bitmap) == BitsAfterInsert(old(Bits(bitmap)), pos)
    {
      hide First, Pad, Length, CellsOf, Bits, BitsAfterInsert, Opened, InsertAt, RemoveAt;
      ghost var n := size;
      Widen(pos, c);
      OpenBit(n, pos);
    }

    /** The value that moved from slot 12 to slot 13 goes to a node of its own. */
    method SpillLeaf(pos: nat, leaf: Cell, ghost s0: seq<Cell>)
      requires Valid() && !iscompr && pos <= 12 && 13 < size && |leaf| == 8 && RemoveAt(Slots(), pos) == s0
      modifies mem
      ensures Valid() && Edges() == old(Edges()) && Value() == old(Value())
      ensures 12 < |s0| && RemoveAt(Slots(), pos) == s0[12 := leaf]
    {
      ghost var s1 := Slots();
      hide First, Pad, Length, CellsOf, Bits, RemoveAt;
      SetSlot(13, leaf);
      SpilledGap(s0, s1, pos, leaf);
    }

    /** raxAddChildNoAlloc and the store of the new field. */
    method AddChild(c: Byte, cell: Cell, leaf: Cell) returns (pos: nat)
      requires Valid() && !iscompr && Sorted(Edges()) && c !in Edges() && |cell| == 8 && |leaf| == 8
      modifies this`mem, this`size, this`bitmap
      ensures Valid() && fresh(mem) && pos <= old(size) && size == old(size) + 1
      ensures Edges() == InsertAt(old(Edges()), pos, c) && Sorted(Edges())
      ensures Slots() == InsertAt(Spill(old(Slots()), old(bitmap), pos, leaf), pos, cell)
      ensures Value() == old(Value()) && Bits(bitmap) == BitsAfterInsert(old(Bits(bitmap)), pos)
    {
      pos := AddChildNoAlloc(c, leaf);
      hide First, Pad, CellsOf, Bits, BitsAfterInsert, InsertAt, RemoveAt, Sorted, Spill;
      FilledGap(Slots(), pos, cell);
      SetSlot(pos, cell);
    }

    /** The cells of a removed edge close up. */
    method Narrow(pos: nat)
      requires Len() <= mem.Length && !iscompr && pos < size
      modifies this`size, mem
      ensures size == old(size) - 1 && Len() <= mem.Length
      ensures Edges() == RemoveAt(old(Edges()), pos)
      ensures Slots() == RemoveAt(old(Slots()), pos) && Value() == old(Value())
    {
      var n, v := size, HasValue();
      FirstBack(n);
      hide First, Pad;
      var f, shift := First(n), if (n + 4) % 8 == 1 then 8 else 0;
      var f0 := f - shift;
      assert f0 == First(n - 1) && Len() == f + 8 * n + (if v then 8 else 0);
      hide RemoveAt, CellsOf;
      CloseGap(mem, n, f, f0, v, pos);
      size := n - 1;
      assert Len() == f0 + 8 * (n - 1) + (if v then 8 else 0);
    }

    /** raxGetData */
    method GetData() returns (v: Option<Cell>)
      requires Len() <= mem.Length && iskey
      ensures v == Value()
    {
      if isnull { return None; }
      return Some(mem[Len() - 8..Len()]);
    }

    /** raxSetData; there is room for the value cell. */
    method SetData(v: Option<Cell>)
      requires Length(iscompr, size, v.Some?) <= mem.Length && (v.Some? ==> |v.value| == 8)
      modifies this`iskey, this`isnull, mem
      ensures iskey && Len() <= mem.Length && Value() == v
      ensures mem[..First(size) + 8 * Cells(iscompr, size)] == old(mem[..First(size) + 8 * Cells(iscompr, size)])
    {
      iskey, isnull := true, v.None?;
      if v.Some? {
        var l := Len() - 8;
        forall k | 0 <= k < 8 { mem[l + k] := v.value[k]; }
        assert mem[l..l + 8] == v.value;
      }
    }

    /** raxRemoveChildAtPtr: a compressed node becomes a node without children. */
    method RemoveChild(i: nat)
      requires Valid() && i < Cells(iscompr, size) && (iscompr ==> size > 0)
      modifies this, mem
      ensures Valid() && mem == old(mem) && !iscompr && iskey == old(iskey) && Value() == old(Value())
      ensures Edges() == if old(iscompr) then [] else RemoveAt(old(Edges()), i)
      ensures Slots() == if old(iscompr) then [] else RemoveAt(old(Slots()), i)
      ensures Bits(bitmap) == if old(iscompr) then {} else BitsAfterRemove(old(Bits(bitmap)), i)
    {
      if iscompr {
        RemoveOnlyChild();
      } else {
        hide First, Pad, CellsOf, Bits, BitsAfterRemove, Closed, RemoveAt;
        Narrow(i);
        CloseBit(size + 1, i);
      }
    }

    method RemoveOnlyChild()
      requires Valid() && iscompr
      modifies this, mem
      ensures Valid() && mem == old(mem) && !iscompr && iskey == old(iskey) && Value() == old(Value())
      ensures Edges() == [] && Slots() == [] && Bits(bitmap) == {}
    {
      var v := None;
      if iskey { v := GetData(); }
      FirstAtLeast(size);
      NoBits();
      isnull, iscompr, size, bitmap := false, false, 0, 0;
      hide Bits, Pad, First;
      if iskey { SetData(v); }
    }
  }

  /** The cells before the gap is opened. */
  function Spill(slots: seq<Cell>, bitmap: bv16, pos: nat, leaf: Cell): (r: seq<Cell>)
    ensures |r| == |slots|
  {
    if pos <= 12 && Bit(bitmap, 12) && 12 < |slots| then slots[12 := leaf] else slots
  }

  lemma SpillIs(slots: seq<Cell>, bitmap: bv16, pos: nat, leaf: Cell, n: nat)
    requires |slots| == n && forall b :: b in Bits(bitmap) ==> b < n
    ensures pos <= 12 && Bit(bitmap, 12) ==> 12 < n && Spill(slots, bitmap, pos, leaf) == slots[12 := leaf]
    ensures !(pos <= 12 && Bit(bitmap, 12)) ==> Spill(slots, bitmap, pos, leaf) == slots
  {
    assert Bit(bitmap, 12) ==> 12 in Bits(bitmap);
    hide Bit;
  }

  lemma SortedInsert(s: Key, pos: nat, c: Byte)
    requires Sorted(s) && c !in s && pos <= |s|
    requires (forall k :: 0 <= k < pos ==> s[k] < c) && (pos < |s| ==> s[pos] > c)
    ensures Sorted(InsertAt(s, pos, c))
  {
  }

  lemma SpilledGap(s0: seq<Cell>, s1: seq<Cell>, pos: nat, leaf: Cell)
    requires pos <= 12 < |s0| && |s1| == |s0| + 1 && RemoveAt(s1, pos) == s0
    ensures RemoveAt(s1[13 := leaf], pos) == s0[12 := leaf]
  {
    var l, r := RemoveAt(s1[13 := leaf], pos), s0[12 := leaf];
    forall i | 0 <= i < |l| ensures l[i] == r[i] {
      assert s0[i] == RemoveAt(s1, pos)[i];
    }
  }

  lemma FilledGap(s: seq<Cell>, pos: nat, cell: Cell)
    requires pos < |s|
    ensures s[pos := cell] == InsertAt(RemoveAt(s, pos), pos, cell)
  {
  }

  lemma NoBits()
    ensures Bits(0) == {}
  {
    forall b: nat | b < 13 ensures !BitAt(0, WordOf(b)) { ZeroBit(WordOf(b)); }
  }

  lemma ZeroBit(i: bv16)
    requires i < 16
    ensures !BitAt(0, i)
  {
  }

  /** The bitmap after an edge was added at pos to a node with n slots. */
  lemma OpenedCells(bm: bv16, n: nat, pos: nat)
    requires bm < 0x2000 && pos <= n && forall b :: b in Bits(bm) ==> b < n
    ensures var r := if bm != 0 && pos < 13 then Opened(bm, WordOf(pos)) else bm;
      r < 0x2000 && Bits(r) == BitsAfterInsert(Bits(bm), pos) && forall b :: b in Bits(r) ==> b < n + 1
  {
    if bm != 0 && pos < 13 { OpenedBits(bm, pos); }
    NoBits();
    assert bm == 0 || pos >= 13 ==> Bits(bm) == BitsAfterInsert(Bits(bm), pos);
  }

  lemma ClosedCells(bm: bv16, n: nat, pos: nat)
    requires bm < 0x2000 && pos < n && forall b :: b in Bits(bm) ==> b < n
    ensures var r := if bm != 0 && pos < 13 then Closed(bm, WordOf(pos)) else bm;
      r < 0x2000 && Bits(r) == BitsAfterRemove(Bits(bm), pos) && forall b :: b in Bits(r) ==> b < n - 1
  {
    if bm != 0 && pos < 13 { ClosedBits(bm, pos); }
    NoBits();
    assert bm == 0 || pos >= 13 ==> Bits(bm) == BitsAfterRemove(Bits(bm), pos);
  }
}
