/** The edits of insertion and removal, and what each does to the stored bindings. */
module RaxSteps {
  import opened Basics
  import opened RaxKeys
  import opened RaxTheory
  import opened RaxEdits

  function Empty(prefix: Key): N {
    N(false, 0, false, {}, [], [], prefix)
  }

  // ---- Values in nodes ---------------------------------------------------------

  function WithData(x: N, v: Value): N {
    x.(iskey := true, value := v)
  }

  lemma SameSlots(x: N, y: N)
    requires y.slots == x.slots && y.data == x.data && y.iscompr == x.iscompr && y.prefix == x.prefix
    ensures forall c, k :: y.Kid(c, k) <==> x.Kid(c, k)
    ensures forall i, k, v :: y.BindSlot(i, k, v) <==> x.BindSlot(i, k, v)
  {
    forall c, k ensures y.Kid(c, k) <==> x.Kid(c, k) {
      assert forall i :: y.KidSlot(i, c, k) <==> x.KidSlot(i, c, k);
    }
  }

  /** Binding `path` anew in h, whether or not it was bound there. */
  lemma RebindSet(H: Heap, M: map<Key, Value>, h: RaxNode, y: N, path: Key, v: Value)
    requires Denotes(H, M) && h in H && (path in M ==> H[h].Bind(path, M[path]))
    requires forall k, w :: y.Bind(k, w) <==> if k == path then w == v else H[h].Bind(k, w)
    ensures Rebind(M, M[path := v], H[h], H[h], y, y)
  {
  }

  /** Removing the binding of `path`. */
  lemma RebindLess(H: Heap, M: map<Key, Value>, h: RaxNode, y: N, path: Key)
    requires Denotes(H, M) && h in H && path in M && H[h].Bind(path, M[path])
    requires forall k, w :: y.Bind(k, w) <==> H[h].Bind(k, w) && k != path
    ensures Rebind(M, M - {path}, H[h], H[h], y, y)
  {
    var M' := M - {path};
    forall k | k in M ensures Binds(H[h], H[h], k, M[k]) || (k in M' && M'[k] == M[k]) {
    }
  }

  /** Exchanging nodes that bind the same keeps M. */
  lemma RebindSame(H: Heap, M: map<Key, Value>, h: RaxNode, y: N, z: N)
    requires Denotes(H, M) && h in H
    requires forall k, w :: Binds(y, z, k, w) <==> Binds(H[h], H[h], k, w)
    ensures Rebind(M, M, H[h], H[h], y, z)
  {
  }

  lemma WithDataBinds(x: N, v: Value, k: Key, w: Value)
    requires NodeOk(x)
    ensures WithData(x, v).Bind(k, w) <==> if k == x.prefix then w == v else x.Bind(k, w)
  {
    var y := WithData(x, v);
    SameSlots(x, y);
    if y.Bind(k, w) {
      var i := BindCases(y, k, w);
      assert i != -1 ==> x.BindSlot(i, k, w);
    }
    if x.Bind(k, w) {
      var i := BindCases(x, k, w);
      assert i != -1 ==> y.BindSlot(i, k, w);
    }
    if k == x.prefix && w == v { assert y.OwnBind(k, w); }
  }

  lemma TreeNode(head: RaxNode, H: Heap, holes: set<RaxNode>, M: map<Key, Value>, n: RaxNode)
    requires Tree(head, H, holes, M) && n in H
    ensures NodeOk(H[n])
  {
  }

  lemma MoreHoles(head: RaxNode, H: Heap, M: map<Key, Value>, h: RaxNode)
    requires Tree(head, H, {}, M)
    ensures Tree(head, H, {h}, M)
  {
  }

  lemma SetKeyOk(head: RaxNode, H: Heap, holes: set<RaxNode>, M: map<Key, Value>, h: RaxNode, v: Value)
    requires Tree(head, H, holes, M) && h in H
    ensures Tree(head, H[h := WithData(H[h], v)], holes - {h}, M[H[h].prefix := v])
  {
    var x, y := H[h], WithData(H[h], v);
    SameSlots(x, y);
    assert NodeOk(x) && KidsIn(x, H);
    NodeKey(head, H, M, h);
    assert x.prefix in M ==> x.OwnBind(x.prefix, M[x.prefix]);
    forall k, w ensures y.Bind(k, w) <==> if k == x.prefix then w == v else x.Bind(k, w) {
      WithDataBinds(x, v, k, w);
    }
    RebindSet(H, M, h, y, x.prefix, v);
    ChangeOk(head, H, M, h, y, M[x.prefix := v]);
  }

  lemma NoDataBinds(x: N, k: Key, w: Value)
    requires NodeOk(x)
    ensures x.(iskey := false).Bind(k, w) <==> x.Bind(k, w) && k != x.prefix
  {
    var y := x.(iskey := false);
    SameSlots(x, y);
    if y.Bind(k, w) {
      var i := BindCases(y, k, w);
      assert x.BindSlot(i, k, w);
    }
    if x.Bind(k, w) {
      var i := BindCases(x, k, w);
      assert i != -1 ==> y.BindSlot(i, k, w);
    }
  }

  lemma ClearKeyOk(head: RaxNode, H: Heap, holes: set<RaxNode>, M: map<Key, Value>, h: RaxNode)
    requires Tree(head, H, holes, M) && h in H && H[h].iskey
    ensures H[h].prefix in M && M[H[h].prefix] == H[h].value
    ensures Tree(head, H[h := H[h].(iskey := false)], holes + {h}, M - {H[h].prefix})
  {
    var x, y := H[h], H[h].(iskey := false);
    SameSlots(x, y);
    assert NodeOk(x) && KidsIn(x, H);
    NodeKey(head, H, M, h);
    assert x.OwnBind(x.prefix, x.value);
    forall k, w ensures y.Bind(k, w) <==> x.Bind(k, w) && k != x.prefix { NoDataBinds(x, k, w); }
    RebindLess(H, M, h, y, x.prefix);
    ChangeOk(head, H, M, h, y, M - {x.prefix});
  }

  function WithInline(x: N, j: nat, v: Value): N
    requires j < |x.slots|
  {
    x.(slots := x.slots[j := Inline(v)])
  }

  lemma WithInlineBinds(x: N, j: nat, v: Value, k: Key, w: Value)
    requires NodeOk(x) && j < |x.slots| && x.slots[j].Inline?
    ensures WithInline(x, j, v).Bind(k, w) <==> if k == x.At(j) then w == v else x.Bind(k, w)
  {
    var y := WithInline(x, j, v);
    LabelNonEmpty(x, j);
    if y.Bind(k, w) {
      var i := BindCases(y, k, w);
      if i == -1 {
        assert x.OwnBind(k, w);
      } else if k == x.At(j) {
        SameSlot(y, i, j, k);
      } else {
        assert x.BindSlot(i, k, w);
      }
    }
    if x.Bind(k, w) && k != x.At(j) {
      var i := BindCases(x, k, w);
      assert if i == -1 then y.OwnBind(k, w) else y.BindSlot(i, k, w);
    }
    if k == x.At(j) && w == v { assert y.BindSlot(j, k, w); }
  }

  lemma SetInlineOk(head: RaxNode, H: Heap, holes: set<RaxNode>, M: map<Key, Value>, h: RaxNode, j: nat, v: Value)
    requires Tree(head, H, holes, M) && h in H && j < |H[h].slots| && H[h].slots[j].Inline?
    ensures H[h].At(j) in M && M[H[h].At(j)] == H[h].slots[j].value
    ensures Tree(head, H[h := WithInline(H[h], j, v)], holes, M[H[h].At(j) := v])
  {
    var x, y := H[h], WithInline(H[h], j, v);
    assert NodeOk(x) && KidsIn(x, H);
    InlineKey(H, M, h, j);
    forall c, k ensures y.Kid(c, k) <==> x.Kid(c, k) {
      assert forall i :: y.KidSlot(i, c, k) <==> x.KidSlot(i, c, k);
    }
    forall k, w ensures y.Bind(k, w) <==> if k == x.At(j) then w == v else x.Bind(k, w) {
      WithInlineBinds(x, j, v, k, w);
    }
    assert x.BindSlot(j, x.At(j), x.slots[j].value);
    RebindSet(H, M, h, y, x.At(j), v);
    ChangeOk(head, H, M, h, y, M[x.At(j) := v]);
  }

  // ---- An inline value gets a node ---------------------------------------------------

  function Leaf(v: Value, prefix: Key): N {
    WithData(Empty(prefix), v)
  }

  function Materialized(x: N, j: nat, leaf: RaxNode): N
    requires j < |x.slots|
  {
    x.(bits := x.bits - {j}, slots := x.slots[j := Child(leaf)])
  }

  lemma MaterializedFacts(x: N, j: nat, leaf: RaxNode)
    requires NodeOk(x) && j < |x.slots| && x.slots[j].Inline?
    requires forall k :: !x.Kid(leaf, k)
    ensures var y, z := Materialized(x, j, leaf), Leaf(x.slots[j].value, x.At(j));
      && NodeOk(y)
      && (forall c, k :: y.Kid(c, k) || z.Kid(c, k) <==> x.Kid(c, k) || (c == leaf && k == z.prefix))
      && (forall k, w :: y.Bind(k, w) || z.Bind(k, w) <==> x.Bind(k, w))
  {
    var y, z := Materialized(x, j, leaf), Leaf(x.slots[j].value, x.At(j));
    forall c, k ensures y.Kid(c, k) || z.Kid(c, k) <==> x.Kid(c, k) || (c == leaf && k == z.prefix) {
      assert forall i :: i != j ==> (y.KidSlot(i, c, k) <==> x.KidSlot(i, c, k));
      assert !x.KidSlot(j, c, k);
      assert y.KidSlot(j, c, k) <==> c == leaf && k == z.prefix;
    }
    forall k, w ensures y.Bind(k, w) || z.Bind(k, w) <==> x.Bind(k, w) {
      assert y.OwnBind(k, w) <==> x.OwnBind(k, w);
      assert forall i :: i != j ==> (y.BindSlot(i, k, w) <==> x.BindSlot(i, k, w));
      assert !y.BindSlot(j, k, w);
      assert x.BindSlot(j, k, w) <==> z.OwnBind(k, w);
    }
  }

  function MaterializedHeap(H: Heap, h: RaxNode, j: nat, leaf: RaxNode): Heap
    requires h in H && j < |H[h].slots| && H[h].slots[j].Inline?
  {
    H[h := Materialized(H[h], j, leaf)][leaf := Leaf(H[h].slots[j].value, H[h].At(j))]
  }

  lemma MaterializeOk(head: RaxNode, H: Heap, holes: set<RaxNode>, M: map<Key, Value>,
                      h: RaxNode, j: nat, leaf: RaxNode)
    requires Tree(head, H, holes, M) && h in H && j < |H[h].slots| && H[h].slots[j].Inline? && leaf !in H
    ensures Tree(head, MaterializedHeap(H, h, j, leaf), holes, M)
    ensures |MaterializedHeap(H, h, j, leaf)| == |H| + 1
  {
    var x := H[h];
    var y, z := Materialized(x, j, leaf), Leaf(x.slots[j].value, x.At(j));
    assert NodeOk(x) && KidsIn(x, H);
    KidIsIn(H, h, leaf);
    MaterializedFacts(x, j, leaf);
    RebindSame(H, M, h, y, z);
    AddOk(head, H, M, h, y, leaf, z, M);
    assert H[h := y][leaf := z].Keys == H.Keys + {leaf};
    assert |H[h := y][leaf := z].Keys| == |H.Keys| + 1;
  }

  /** One more binding, for a key that was not there. */
  lemma RebindOne(H: Heap, M: map<Key, Value>, h: RaxNode, y: N, path: Key, v: Value)
    requires Denotes(H, M) && h in H && path !in M
    requires forall k, w :: y.Bind(k, w) <==> H[h].Bind(k, w) || (w == v && k == path)
    ensures Rebind(M, M[path := v], H[h], H[h], y, y)
  {
  }

  // ---- A new edge ------------------------------------------------------------------------

  function InsertAt<T>(s: seq<T>, pos: nat, e: T): (r: seq<T>)
    requires pos <= |s|
    ensures |r| == |s| + 1 && r[pos] == e
    ensures forall i :: 0 <= i < pos ==> r[i] == s[i]
    ensures forall i :: pos < i < |r| ==> r[i] == s[i - 1]
  {
    s[..pos] + [e] + s[pos..]
  }

  predicate BitComesFrom(bits: set<nat>, pos: nat, b: nat) {
    if b < pos then b in bits else b > pos && b - 1 in bits
  }

  /** The bitmap after a slot is opened at pos; bit 12 falls off. */
  function BitsAfterInsert(bits: set<nat>, pos: nat): set<nat> {
    set b | 0 <= b < INLINE_SLOTS && BitComesFrom(bits, pos, b)
  }

  function WithEdge(x: N, pos: nat, c: Byte, s: Slot): N
    requires pos <= |x.data| && pos <= |x.slots|
  {
    x.(data := InsertAt(x.data, pos, c),
       slots := InsertAt(x.slots, pos, s),
       bits := BitsAfterInsert(x.bits, pos) + (if s.Inline? then {pos} else {}))
  }

  /** pos is where edge c belongs among the edges of x. */
  predicate EdgePos(x: N, pos: nat, c: Byte) {
    && pos <= |x.data|
    && (forall i :: 0 <= i < pos ==> x.data[i] < c)
    && (forall i :: pos <= i < |x.data| ==> x.data[i] > c)
  }

  lemma EdgePosUnique(x: N, pos: nat, pos': nat, c: Byte)
    requires EdgePos(x, pos, c) && EdgePos(x, pos', c)
    ensures pos == pos'
  {
    var i := if pos < pos' then pos else pos';
    assert i == |x.data| || x.data[i] < c || x.data[i] > c;
  }

  predicate CanAddEdge(x: N, pos: nat, c: Byte, s: Slot) {
    && NodeOk(x) && !x.iscompr && EdgePos(x, pos, c)
    && (12 in x.bits ==> pos > 12)
    && (s.Inline? ==> pos < INLINE_SLOTS)
  }

  lemma SortedBytesBound(s: Key)
    requires Sorted(s)
    ensures |s| <= 256
  {
    if s != [] { SortedGrows(s, |s| - 1); }
  }

  lemma {:induction false} SortedGrows(s: Key, i: nat)
    requires Sorted(s) && i < |s|
    ensures s[i] >= i
  {
    if i > 0 { SortedGrows(s, i - 1); }
  }

  /** Slot i of the grown node seen from the old one; the new slot has no old index. */
  function OldSlot(pos: nat, i: int): int {
    if i < pos then i else i - 1
  }

  /** Slot i of the grown node is the new one, or a slot of the old node with its path. */
  lemma WithEdgeSlot(x: N, pos: nat, c: Byte, s: Slot, i: nat)
    requires CanAddEdge(x, pos, c, s) && i <= |x.slots|
    ensures var y := WithEdge(x, pos, c, s);
      && |y.slots| == |x.slots| + 1
      && if i == pos then y.slots[i] == s && y.At(i) == x.prefix + [c]
         else
           0 <= OldSlot(pos, i) < |x.slots| && y.slots[i] == x.slots[OldSlot(pos, i)] &&
           y.At(i) == x.At(OldSlot(pos, i))
  {
  }

  lemma WithEdgeSorted(data: Key, pos: nat, c: Byte)
    requires Sorted(data) && pos <= |data| && (forall i :: 0 <= i < pos ==> data[i] < c)
    requires (forall i :: pos <= i < |data| ==> data[i] > c)
    ensures Sorted(InsertAt(data, pos, c)) && |data| < 256
  {
    SortedBytesBound(InsertAt(data, pos, c));
  }

  lemma WithEdgeBits(x: N, pos: nat, c: Byte, s: Slot, i: nat)
    requires CanAddEdge(x, pos, c, s) && i <= |x.slots|
    ensures var y := WithEdge(x, pos, c, s); |y.slots| == |x.slots| + 1 && (y.slots[i].Inline? <==> i in y.bits)
  {
    WithEdgeSlot(x, pos, c, s, i);
    if i != pos {
      assert BitComesFrom(x.bits, pos, i) <==> x.slots[OldSlot(pos, i)].Inline?;
    }
  }

  lemma WithEdgeOk(x: N, pos: nat, c: Byte, s: Slot)
    requires CanAddEdge(x, pos, c, s)
    ensures NodeOk(WithEdge(x, pos, c, s)) && |WithEdge(x, pos, c, s).slots| == |x.slots| + 1 && NodeOk(x)
  {
    var y := WithEdge(x, pos, c, s);
    WithEdgeSorted(x.data, pos, c);
    forall i | 0 <= i < |y.slots| ensures y.slots[i].Inline? <==> i in y.bits { WithEdgeBits(x, pos, c, s, i); }
    assert forall i :: i in y.bits ==> i < INLINE_SLOTS && i < |y.slots|;
    hide InsertAt, BitsAfterInsert, Sorted;
  }

  /** Where a slot of the old node is in the grown one. */
  function NewSlot(pos: nat, i: int): int {
    if i < pos then i else i + 1
  }

  lemma WithEdgeKidSlot(x: N, pos: nat, c: Byte, s: Slot, i: nat, n: RaxNode, k: Key)
    requires CanAddEdge(x, pos, c, s) && i <= |x.slots|
    ensures var y := WithEdge(x, pos, c, s);
      y.KidSlot(i, n, k) <==>
        if i == pos then s == Child(n) && k == x.prefix + [c] else x.KidSlot(OldSlot(pos, i), n, k)
  {
    WithEdgeSlot(x, pos, c, s, i);
    hide WithEdge, CanAddEdge;
  }

  lemma WithEdgeBindSlot(x: N, pos: nat, c: Byte, s: Slot, i: nat, k: Key, v: Value)
    requires CanAddEdge(x, pos, c, s) && i <= |x.slots|
    ensures var y := WithEdge(x, pos, c, s);
      y.BindSlot(i, k, v) <==>
        if i == pos then s == Inline(v) && k == x.prefix + [c] else x.BindSlot(OldSlot(pos, i), k, v)
  {
    WithEdgeSlot(x, pos, c, s, i);
    hide WithEdge, CanAddEdge;
  }

  lemma EdgeAt(x: N, pos: nat, c: Byte, s: Slot)
    requires CanAddEdge(x, pos, c, s)
    ensures pos <= |x.slots|
  {
  }

  lemma WithEdgeKids(x: N, pos: nat, c: Byte, s: Slot, n: RaxNode, k: Key)
    requires CanAddEdge(x, pos, c, s)
    ensures WithEdge(x, pos, c, s).Kid(n, k) <==> x.Kid(n, k) || (s == Child(n) && k == x.prefix + [c])
  {
    var y := WithEdge(x, pos, c, s);
    EdgeAt(x, pos, c, s);
    WithEdgeOk(x, pos, c, s);
    hide WithEdge, CanAddEdge, NodeOk, N.At;
    if x.Kid(n, k) {
      var i := KidCases(x, n, k);
      WithEdgeKidSlot(x, pos, c, s, NewSlot(pos, i), n, k);
    }
    if y.Kid(n, k) {
      var i := KidCases(y, n, k);
      WithEdgeKidSlot(x, pos, c, s, i, n, k);
    }
    WithEdgeKidSlot(x, pos, c, s, pos, n, k);
  }

  lemma WithEdgeBinds(x: N, pos: nat, c: Byte, s: Slot, k: Key, v: Value)
    requires CanAddEdge(x, pos, c, s)
    ensures WithEdge(x, pos, c, s).Bind(k, v) <==> x.Bind(k, v) || (s == Inline(v) && k == x.prefix + [c])
  {
    var y := WithEdge(x, pos, c, s);
    EdgeAt(x, pos, c, s);
    WithEdgeOk(x, pos, c, s);
    assert y.OwnBind(k, v) <==> x.OwnBind(k, v);
    hide WithEdge, CanAddEdge, NodeOk, N.At, N.OwnBind;
    if x.Bind(k, v) {
      var i := BindCases(x, k, v);
      if i != -1 { WithEdgeBindSlot(x, pos, c, s, NewSlot(pos, i), k, v); }
    }
    if y.Bind(k, v) {
      var i := BindCases(y, k, v);
      if i != -1 { WithEdgeBindSlot(x, pos, c, s, i, k, v); }
    }
    WithEdgeBindSlot(x, pos, c, s, pos, k, v);
  }

  /** Nothing is stored along an edge the node does not have. */
  lemma MissingEdge(head: RaxNode, H: Heap, M: map<Key, Value>, h: RaxNode, c: Byte, k: Key)
    requires Shape(head, H) && Denotes(H, M) && h in H && !H[h].iscompr && c !in H[h].data
    requires H[h].prefix + [c] <= k
    ensures k !in M
  {
    var x := H[h];
    if k in M {
      assert Stored(H, k, M[k]) && NodeOk(x);
      var n: RaxNode :| n in H && H[n].Bind(k, M[k]);
      if n == h {
        var i := BindCases(x, k, M[k]);
      } else {
        var j := BelowBind(head, H, h, n, k, M[k]);
        EdgeByte(x, j, k);
      }
    }
  }

  lemma EdgeByte(x: N, j: nat, k: Key)
    requires NodeOk(x) && !x.iscompr && j < |x.slots| && x.At(j) <= k
    ensures |k| > |x.prefix| && k[|x.prefix|] == x.data[j]
  {
    assert x.At(j)[|x.prefix|] == x.data[j];
  }

  lemma AddInlineEdgeOk(head: RaxNode, H: Heap, holes: set<RaxNode>, M: map<Key, Value>,
                        h: RaxNode, pos: nat, c: Byte, v: Value)
    requires Tree(head, H, holes, M) && h in H && CanAddEdge(H[h], pos, c, Inline(v))
    ensures H[h].prefix + [c] !in M
    ensures Tree(head, H[h := WithEdge(H[h], pos, c, Inline(v))], holes - {h}, M[H[h].prefix + [c] := v])
  {
    var x, path := H[h], H[h].prefix + [c];
    var y, M' := WithEdge(x, pos, c, Inline(v)), M[path := v];
    WithEdgeOk(x, pos, c, Inline(v));
    assert KidsIn(x, H);
    forall n, k ensures y.Kid(n, k) <==> x.Kid(n, k) { WithEdgeKids(x, pos, c, Inline(v), n, k); }
    forall k, w ensures y.Bind(k, w) <==> x.Bind(k, w) || (w == v && k == path) {
      WithEdgeBinds(x, pos, c, Inline(v), k, w);
    }
    MissingEdge(head, H, M, h, c, path);
    RebindOne(H, M, h, y, path, v);
    ChangeOk(head, H, M, h, y, M');
  }

  /** The new edge leads to an empty node that still has to become a key. */
  lemma AddChildEdgeOk(head: RaxNode, H: Heap, holes: set<RaxNode>, M: map<Key, Value>,
                       h: RaxNode, pos: nat, c: Byte, child: RaxNode)
    requires Tree(head, H, holes, M) && h in H && child !in H && CanAddEdge(H[h], pos, c, Child(child))
    ensures Tree(head, H[h := WithEdge(H[h], pos, c, Child(child))][child := Empty(H[h].prefix + [c])],
                 holes - {h} + {child}, M)
  {
    var x, s := H[h], Child(child);
    var y, z := WithEdge(x, pos, c, s), Empty(x.prefix + [c]);
    WithEdgeOk(x, pos, c, s);
    assert KidsIn(x, H);
    KidIsIn(H, h, child);
    forall n, k ensures y.Kid(n, k) || z.Kid(n, k) <==> x.Kid(n, k) || (n == child && k == z.prefix) {
      WithEdgeKids(x, pos, c, s, n, k);
    }
    forall k, w ensures Binds(y, z, k, w) <==> Binds(x, x, k, w) {
      WithEdgeBinds(x, pos, c, s, k, w);
    }
    RebindSame(H, M, h, y, z);
    AddOk(head, H, M, h, y, child, z, M);
  }

  // ---- A childless node becomes a compressed one ---------------------------------------------

  function Compressed(x: N, s: Key, slot: Slot): N {
    x.(iscompr := true, data := s, slots := [slot], bits := if slot.Inline? then {0} else {})
  }

  /** Nothing is stored strictly under a childless node. */
  lemma NothingBelow(head: RaxNode, H: Heap, M: map<Key, Value>, h: RaxNode, k: Key)
    requires Shape(head, H) && Denotes(H, M) && h in H && H[h].slots == []
    requires H[h].prefix <= k && k != H[h].prefix
    ensures k !in M
  {
    if k in M {
      assert Stored(H, k, M[k]);
      var n: RaxNode :| n in H && H[n].Bind(k, M[k]);
      assert NodeOk(H[h]);
      if n == h {
        var i := BindCases(H[h], k, M[k]);
      } else {
        var j := BelowBind(head, H, h, n, k, M[k]);
      }
    }
  }

  lemma CompressedFacts(x: N, s: Key, slot: Slot)
    requires x.slots == [] && |s| >= 2
    ensures var y := Compressed(x, s, slot);
      && (forall n, k :: y.Kid(n, k) <==> slot == Child(n) && k == x.prefix + s)
      && (forall n, k :: !x.Kid(n, k))
      && (forall k, w :: x.Bind(k, w) <==> x.OwnBind(k, w))
      && (forall k, w :: y.Bind(k, w) <==> x.OwnBind(k, w) || (slot == Inline(w) && k == x.prefix + s))
  {
    var y := Compressed(x, s, slot);
    assert y.At(0) == x.prefix + s && y.slots[0] == slot;
    forall n, k ensures y.Kid(n, k) <==> slot == Child(n) && k == x.prefix + s {
      assert y.KidSlot(0, n, k) <==> slot == Child(n) && k == x.prefix + s;
    }
    forall k, w ensures y.Bind(k, w) <==> x.OwnBind(k, w) || (slot == Inline(w) && k == x.prefix + s) {
      assert y.BindSlot(0, k, w) <==> slot == Inline(w) && k == x.prefix + s;
      assert y.OwnBind(k, w) <==> x.OwnBind(k, w);
    }
  }

  lemma CompressInlineOk(head: RaxNode, H: Heap, holes: set<RaxNode>, M: map<Key, Value>,
                         h: RaxNode, s: Key, v: Value)
    requires Tree(head, H, holes, M) && h in H && H[h].slots == [] && 2 <= |s| <= MAX_SIZE
    ensures H[h].prefix + s !in M
    ensures Tree(head, H[h := Compressed(H[h], s, Inline(v))], holes - {h}, M[H[h].prefix + s := v])
  {
    var x, path := H[h], H[h].prefix + s;
    var y, M' := Compressed(x, s, Inline(v)), M[path := v];
    CompressedFacts(x, s, Inline(v));
    NothingBelow(head, H, M, h, path);
    RebindOne(H, M, h, y, path, v);
    ChangeOk(head, H, M, h, y, M');
  }

  /** The rest of s and its value hang below the hole h. */
  lemma FinishOk(head: RaxNode, H: Heap, M: map<Key, Value>, h: RaxNode, s: Key, i: nat, v: Value)
    requires Tree(head, H, {h}, M) && h in H && H[h].slots == [] && i <= |s| && 2 <= |s| - i <= MAX_SIZE
    requires H[h].prefix == s[..i]
    ensures var H' := H[h := Compressed(H[h], s[i..], Inline(v))];
      Tree(head, H', {}, M[s := v]) && |H'| == |H| && H'.Keys == H.Keys
    ensures s !in M && H[h].prefix + s[i..] == s
  {
    var H' := H[h := Compressed(H[h], s[i..], Inline(v))];
    assert s[..i] + s[i..] == s && {h} - {h} == {} && H'.Keys == H.Keys && |H'.Keys| == |H.Keys|;
    hide *;
    CompressInlineOk(head, H, {h}, M, h, s[i..], v);
  }

  lemma CompressChildOk(head: RaxNode, H: Heap, holes: set<RaxNode>, M: map<Key, Value>,
                        h: RaxNode, s: Key, child: RaxNode)
    requires Tree(head, H, holes, M) && h in H && H[h].slots == [] && 2 <= |s| <= MAX_SIZE && child !in H
    ensures Tree(head, H[h := Compressed(H[h], s, Child(child))][child := Empty(H[h].prefix + s)],
                 holes - {h} + {child}, M)
    ensures |H[h := Compressed(H[h], s, Child(child))][child := Empty(H[h].prefix + s)]| == |H| + 1
  {
    var x := H[h];
    var y, z := Compressed(x, s, Child(child)), Empty(x.prefix + s);
    CompressedFacts(x, s, Child(child));
    RebindSame(H, M, h, y, z);
    AddOk(head, H, M, h, y, child, z, M);
    assert H[h := y][child := z].Keys == H.Keys + {child};
    assert |H[h := y][child := z].Keys| == |H.Keys| + 1;
  }

  /** The hole moves from h to the child that stands for n more bytes of s. */
  lemma ExtendOk(head: RaxNode, H: Heap, M: map<Key, Value>, h: RaxNode, s: Key, i: nat, n: nat, child: RaxNode)
    requires Tree(head, H, {h}, M) && h in H && H[h].slots == [] && 2 <= n <= MAX_SIZE && child !in H
    requires i + n <= |s| && H[h].prefix == s[..i]
    ensures var H' := H[h := Compressed(H[h], s[i..i + n], Child(child))][child := Empty(H[h].prefix + s[i..i + n])];
      Tree(head, H', {child}, M) && |H'| == |H| + 1 && H'[child] == Empty(s[..i + n]) &&
        H[h].prefix + s[i..i + n] == s[..i + n]
  {
    assert s[..i] + s[i..i + n] == s[..i + n] && {h} - {h} + {child} == {child};
    hide *;
    CompressChildOk(head, H, {h}, M, h, s[i..i + n], child);
  }

  // ---- An inline value in slot 12 makes room ------------------------------------------------

  /** Opening a slot at pos would push an inline value out of the bitmap. */
  predicate Spills(x: N, pos: nat) {
    pos <= 12 && 12 in x.bits
  }

  function Spilled(H: Heap, h: RaxNode, pos: nat, leaf: RaxNode): Heap
    requires h in H && NodeOk(H[h])
  {
    if Spills(H[h], pos) then MaterializedHeap(H, h, 12, leaf) else H
  }

  lemma SpilledOk(head: RaxNode, H: Heap, holes: set<RaxNode>, M: map<Key, Value>, h: RaxNode, pos: nat, c: Byte,
                  leaf: RaxNode)
    requires Tree(head, H, holes, M) && h in H && NodeOk(H[h]) && !H[h].iscompr && EdgePos(H[h], pos, c)
    requires Spills(H[h], pos) ==> leaf !in H
    ensures var H' := Spilled(H, h, pos, leaf);
      && Tree(head, H', holes, M) && h in H' && H'[h].prefix == H[h].prefix && H'[h].data == H[h].data
      && NodeOk(H'[h]) && !H'[h].iscompr && !Spills(H'[h], pos)
      && |H'| == |H| + (if Spills(H[h], pos) then 1 else 0)
      && (forall n :: n in H' ==> n in H || n == leaf)
  {
    var H' := Spilled(H, h, pos, leaf);
    if Spills(H[h], pos) {
      MaterializeOk(head, H, holes, M, h, 12, leaf);
      assert NodeOk(H'[h]);
      assert H'.Keys == H.Keys + {leaf};
      assert |H'.Keys| == |H.Keys| + 1;
    }
  }

  lemma SpillKeepsNode(x: N, leaf: RaxNode)
    requires NodeOk(x) && !x.iscompr && 12 in x.bits
    ensures NodeOk(Materialized(x, 12, leaf))
  {
  }

  function OpenedHeap(H: Heap, h: RaxNode, pos: nat, c: Byte, s: Slot): Heap
    requires h in H && pos <= |H[h].data| && pos <= |H[h].slots|
  {
    var H1 := H[h := WithEdge(H[h], pos, c, s)];
    if s.Child? then H1[s.node := Empty(H[h].prefix + [c])] else H1
  }

  /** The heap after edge c with slot s was opened at pos, spilling slot 12 if it must. */
  function EdgeHeap(H: Heap, h: RaxNode, pos: nat, c: Byte, s: Slot, leaf: RaxNode): Heap
    requires h in H && NodeOk(H[h]) && !H[h].iscompr && pos <= |H[h].data| && (Spills(H[h], pos) ==> leaf != h)
  {
    var H1 := Spilled(H, h, pos, leaf);
    assert |H1[h].slots| == |H[h].slots| && H1[h].data == H[h].data;
    OpenedHeap(H1, h, pos, c, s)
  }

  lemma InlineEdgeOk(head: RaxNode, H: Heap, M: map<Key, Value>, h: RaxNode, pos: nat, c: Byte, v: Value, leaf: RaxNode)
    requires Tree(head, H, {h}, M) && h in H && NodeOk(H[h]) && !H[h].iscompr && EdgePos(H[h], pos, c)
    requires pos < INLINE_SLOTS && (Spills(H[h], pos) ==> leaf !in H)
    ensures var H' := EdgeHeap(H, h, pos, c, Inline(v), leaf); var k := H[h].prefix + [c];
      && k !in M && Tree(head, H', {}, M[k := v])
      && |H'| == |H| + (if Spills(H[h], pos) then 1 else 0)
      && (forall n :: n in H' ==> n in H || n == leaf)
  {
    var H1 := Spilled(H, h, pos, leaf);
    SpilledOk(head, H, {h}, M, h, pos, c, leaf);
    AddInlineEdgeOk(head, H1, {h}, M, h, pos, c, v);
    assert {h} - {h} == {};
    assert H1[h := WithEdge(H1[h], pos, c, Inline(v))].Keys == H1.Keys;
  }

  lemma ChildEdgeOk(head: RaxNode, H: Heap, M: map<Key, Value>, h: RaxNode, pos: nat, c: Byte, child: RaxNode,
                    leaf: RaxNode)
    requires Tree(head, H, {h}, M) && h in H && NodeOk(H[h]) && !H[h].iscompr && EdgePos(H[h], pos, c)
    requires child !in H && (Spills(H[h], pos) ==> leaf !in H && child != leaf)
    ensures var H' := EdgeHeap(H, h, pos, c, Child(child), leaf);
      && Tree(head, H', {child}, M)
      && |H'| == |H| + 1 + (if Spills(H[h], pos) then 1 else 0)
      && (forall n :: n in H' ==> n in H || n == leaf || n == child)
      && child in H' && H'[child] == Empty(H[h].prefix + [c])
  {
    var H1 := Spilled(H, h, pos, leaf);
    SpilledOk(head, H, {h}, M, h, pos, c, leaf);
    AddChildEdgeOk(head, H1, {h}, M, h, pos, c, child);
    assert {h} - {h} + {child} == {child};
    var H' := EdgeHeap(H, h, pos, c, Child(child), leaf);
    assert H'.Keys == H1.Keys + {child};
    assert |H'.Keys| == |H1.Keys| + 1;
  }
}
