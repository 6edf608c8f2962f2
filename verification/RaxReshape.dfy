/** Removing slots, cutting and joining chains, moving a node to a new allocation. */
module RaxReshape {
  import opened RaxKeys
  import opened RaxTheory
  import opened RaxEdits
  import opened RaxSteps

  // ---- A slot goes away ------------------------------------------------------------

  function RemoveAt<T>(s: seq<T>, pos: nat): (r: seq<T>)
    requires pos < |s|
    ensures |r| == |s| - 1
    ensures forall i :: 0 <= i < pos ==> r[i] == s[i]
    ensures forall i :: pos <= i < |r| ==> r[i] == s[i + 1]
  {
    s[..pos] + s[pos + 1..]
  }

  predicate BitMovesFrom(bits: set<nat>, pos: nat, b: nat) {
    if b < pos then b in bits else b + 1 in bits
  }

  /** The bitmap after slot pos is closed: the bits above it move down. */
  function BitsAfterRemove(bits: set<nat>, pos: nat): set<nat> {
    set b | 0 <= b < INLINE_SLOTS && BitMovesFrom(bits, pos, b)
  }

  /** raxRemoveChildAtPtr: a compressed node loses its whole edge. */
  function WithoutSlot(x: N, pos: nat): N
    requires pos < |x.slots| && (!x.iscompr ==> |x.data| == |x.slots|)
  {
    if x.iscompr then
      x.(iscompr := false, data := [], slots := [], bits := {})
    else
      x.(data := RemoveAt(x.data, pos), slots := RemoveAt(x.slots, pos), bits := BitsAfterRemove(x.bits, pos))
  }

  lemma WithoutSlotOk(x: N, pos: nat)
    requires NodeOk(x) && pos < |x.slots|
    ensures NodeOk(WithoutSlot(x, pos)) && |WithoutSlot(x, pos).slots| == |x.slots| - 1
    ensures forall i :: 0 <= i < |x.slots| - 1 ==>
      WithoutSlot(x, pos).slots[i] == x.slots[NewSlot(pos, i)] && WithoutSlot(x, pos).At(i) == x.At(NewSlot(pos, i))
  {
    var y := WithoutSlot(x, pos);
    forall i | 0 <= i < |y.slots| ensures y.slots[i].Inline? <==> i in y.bits {
      assert BitMovesFrom(x.bits, pos, i) <==> x.slots[NewSlot(pos, i)].Inline?;
    }
    forall b | b in y.bits ensures b < |y.slots| {
      assert BitMovesFrom(x.bits, pos, b);
    }
  }

  lemma WithoutSlotKidSlot(x: N, pos: nat, i: nat, n: RaxNode, k: Key)
    requires NodeOk(x) && pos < |x.slots| && i < |x.slots| - 1
    ensures WithoutSlot(x, pos).KidSlot(i, n, k) <==> x.KidSlot(NewSlot(pos, i), n, k)
  {
    WithoutSlotOk(x, pos);
    hide WithoutSlot, NodeOk;
  }

  lemma SameKid(x: N, i: int, j: int, n: RaxNode, k: Key)
    requires NodeOk(x) && x.KidSlot(i, n, k) && x.KidSlot(j, n, k)
    ensures i == j
  {
    SameSlot(x, i, j, k);
  }

  lemma KidSlotIn(x: N, i: int, n: RaxNode, k: Key)
    requires x.KidSlot(i, n, k)
    ensures 0 <= i < |x.slots| && x.Kid(n, k)
  {
  }

  lemma WithoutSlotKids(x: N, pos: nat, n: RaxNode, k: Key)
    requires NodeOk(x) && pos < |x.slots|
    ensures WithoutSlot(x, pos).Kid(n, k) <==> x.Kid(n, k) && !x.KidSlot(pos, n, k)
  {
    if x.Kid(n, k) && !x.KidSlot(pos, n, k) { KidStays(x, pos, n, k); }
    if WithoutSlot(x, pos).Kid(n, k) { KidStayed(x, pos, n, k); }
  }

  lemma KidStays(x: N, pos: nat, n: RaxNode, k: Key)
    requires NodeOk(x) && pos < |x.slots| && x.Kid(n, k) && !x.KidSlot(pos, n, k)
    ensures WithoutSlot(x, pos).Kid(n, k)
  {
    WithoutSlotOk(x, pos);
    hide WithoutSlot, NodeOk, N.At, N.KidSlot, N.Kid;
    var i := KidCases(x, n, k);
    KidSlotIn(x, i, n, k);
    WithoutSlotKidSlot(x, pos, OldSlot(pos, i), n, k);
    KidSlotIn(WithoutSlot(x, pos), OldSlot(pos, i), n, k);
  }

  lemma KidStayed(x: N, pos: nat, n: RaxNode, k: Key)
    requires NodeOk(x) && pos < |x.slots| && WithoutSlot(x, pos).Kid(n, k)
    ensures x.Kid(n, k) && !x.KidSlot(pos, n, k)
  {
    WithoutSlotOk(x, pos);
    hide WithoutSlot, NodeOk, N.At, N.KidSlot, N.Kid;
    var i := KidCases(WithoutSlot(x, pos), n, k);
    KidSlotIn(WithoutSlot(x, pos), i, n, k);
    WithoutSlotKidSlot(x, pos, i, n, k);
    KidSlotIn(x, NewSlot(pos, i), n, k);
    if x.KidSlot(pos, n, k) { SameKid(x, NewSlot(pos, i), pos, n, k); }
  }

  lemma WithoutSlotOwn(x: N, pos: nat, k: Key, v: Value)
    requires NodeOk(x) && pos < |x.slots|
    ensures WithoutSlot(x, pos).OwnBind(k, v) <==> x.OwnBind(k, v)
    ensures !(x.OwnBind(k, v) && x.BindSlot(pos, k, v))
  {
    LabelNonEmpty(x, pos);
  }

  lemma WithoutSlotKeeps(x: N, pos: nat, k: Key, v: Value)
    requires NodeOk(x) && pos < |x.slots| && x.Bind(k, v) && !x.BindSlot(pos, k, v)
    ensures WithoutSlot(x, pos).Bind(k, v)
  {
    var y := WithoutSlot(x, pos);
    WithoutSlotOk(x, pos);
    var i := BindCases(x, k, v);
    if i == -1 {
      assert y.OwnBind(k, v);
    } else {
      var i' := if i < pos then i else i - 1;
      assert y.slots[i'] == x.slots[i] && y.At(i') == x.At(i);
      assert y.BindSlot(i', k, v);
    }
  }

  lemma WithoutSlotBinds(x: N, pos: nat, k: Key, v: Value)
    requires NodeOk(x) && pos < |x.slots|
    ensures WithoutSlot(x, pos).Bind(k, v) <==> x.Bind(k, v) && !x.BindSlot(pos, k, v)
  {
    var y := WithoutSlot(x, pos);
    WithoutSlotOk(x, pos);
    WithoutSlotOwn(x, pos, k, v);
    if x.Bind(k, v) && !x.BindSlot(pos, k, v) {
      WithoutSlotKeeps(x, pos, k, v);
    }
    if y.Bind(k, v) {
      var i := BindCases(y, k, v);
      if i != -1 {
        assert x.BindSlot(NewSlot(pos, i), k, v);
        if x.BindSlot(pos, k, v) { SameSlot(x, NewSlot(pos, i), pos, k); }
      }
    }
  }

  /** Removing an inline value removes its key; h may be left childless. */
  lemma RemoveInlineOk(head: RaxNode, H: Heap, holes: set<RaxNode>, M: map<Key, Value>, h: RaxNode, pos: nat)
    requires Tree(head, H, holes, M) && h in H && pos < |H[h].slots| && H[h].slots[pos].Inline?
    requires NodeOk(H[h])
    ensures H[h].At(pos) in M && M[H[h].At(pos)] == H[h].slots[pos].value
    ensures Tree(head, H[h := WithoutSlot(H[h], pos)], holes + {h}, M - {H[h].At(pos)})
  {
    var x, path := H[h], H[h].At(pos);
    var y, M' := WithoutSlot(x, pos), M - {path};
    WithoutSlotOk(x, pos);
    InlineKey(H, M, h, pos);
    assert KidsIn(x, H);
    forall n, k ensures y.Kid(n, k) <==> x.Kid(n, k) { WithoutSlotKids(x, pos, n, k); }
    forall k, w ensures y.Bind(k, w) <==> x.Bind(k, w) && k != path {
      WithoutSlotBinds(x, pos, k, w);
      if x.Bind(k, w) && k == path {
        assert x.BindSlot(pos, k, M[path]) && x.Bind(k, M[path]);
      }
    }
    assert x.BindSlot(pos, path, M[path]) && x.Bind(path, M[path]);
    RebindLess(H, M, h, y, path);
    ChangeOk(head, H, M, h, y, M');
  }

  /** The node at slot pos of h is an empty leaf; both the slot and the node go. */
  lemma RemoveLeafOk(head: RaxNode, H: Heap, holes: set<RaxNode>, M: map<Key, Value>, h: RaxNode, pos: nat, b: RaxNode)
    requires Tree(head, H, holes, M) && h in H && pos < |H[h].slots| && H[h].slots[pos] == Child(b)
    requires b in H && H[b].slots == [] && !H[b].iskey
    requires NodeOk(H[h])
    ensures b != h && b != head
    ensures Tree(head, (H - {b})[h := WithoutSlot(H[h], pos)], holes - {b} + {h}, M)
  {
    var x := H[h];
    var y := WithoutSlot(x, pos);
    WithoutSlotOk(x, pos);
    assert KidsIn(x, H) && x.KidSlot(pos, b, x.At(pos)) && x.Kid(b, x.At(pos));
    forall n, k ensures !H[b].Kid(n, k) { assert forall i :: !H[b].KidSlot(i, n, k); }
    forall k, w ensures !H[b].Bind(k, w) { assert forall i :: !H[b].BindSlot(i, k, w); }
    forall n, k | n != b ensures y.Kid(n, k) <==> x.Kid(n, k) || H[b].Kid(n, k) {
      WithoutSlotKids(x, pos, n, k);
    }
    forall i: nat | i < |y.slots| && y.slots[i].Child? ensures y.slots[i].node in H - {b} {
      var c := y.slots[i].node;
      assert y.KidSlot(i, c, y.At(i)) && x.KidSlot(NewSlot(pos, i), c, y.At(i)) && x.Kid(c, y.At(i));
      if c == b { SameSlot(x, NewSlot(pos, i), pos, H[b].prefix); }
    }
    forall k, w ensures Binds(y, y, k, w) <==> Binds(x, H[b], k, w) {
      WithoutSlotBinds(x, pos, k, w);
    }
    RebindSame2(H, M, h, b, y);
    DropOk(head, H, M, h, y, b, M);
  }

  lemma RebindSame2(H: Heap, M: map<Key, Value>, h: RaxNode, b: RaxNode, y: N)
    requires Denotes(H, M) && h in H && b in H
    requires forall k, w :: Binds(y, y, k, w) <==> Binds(H[h], H[b], k, w)
    ensures Rebind(M, M, H[h], H[b], y, y)
  {
  }

  // ---- Cutting and joining chains ------------------------------------------------------

  /** The first j bytes of a single-child node, leading to mid. */
  function Top(x: N, j: nat, mid: RaxNode): N
    requires j <= |x.data|
  {
    x.(data := x.data[..j], iscompr := j > 1, slots := [Child(mid)], bits := {})
  }

  /** The remaining bytes, with the old child. */
  function Bottom(x: N, j: nat): N
    requires j <= |x.data|
  {
    N(false, 0, |x.data| - j > 1, x.bits, x.data[j..], x.slots, x.prefix + x.data[..j])
  }

  predicate Single(x: N) {
    |x.slots| == 1 && NodeOk(x)
  }

  lemma SingleFacts(x: N)
    requires Single(x)
    ensures x.At(0) == x.prefix + x.data
    ensures forall n, k :: x.Kid(n, k) <==> x.slots[0] == Child(n) && k == x.prefix + x.data
    ensures forall k, w :: x.Bind(k, w) <==> x.OwnBind(k, w) || (x.slots[0] == Inline(w) && k == x.prefix + x.data)
  {
    assert x.At(0) == x.prefix + x.data;
    forall n, k ensures x.Kid(n, k) <==> x.slots[0] == Child(n) && k == x.prefix + x.data {
      assert x.KidSlot(0, n, k) <==> x.slots[0] == Child(n) && k == x.prefix + x.data;
    }
    forall k, w ensures x.Bind(k, w) <==> x.OwnBind(k, w) || (x.slots[0] == Inline(w) && k == x.prefix + x.data) {
      assert x.BindSlot(0, k, w) <==> x.slots[0] == Inline(w) && k == x.prefix + x.data;
    }
  }

  lemma SplitFacts(x: N, j: nat, mid: RaxNode)
    requires Single(x) && 0 < j < |x.data|
    ensures Single(Top(x, j, mid)) && Single(Bottom(x, j))
    ensures Bottom(x, j).prefix == x.prefix + Top(x, j, mid).data
    ensures Bottom(x, j).prefix + Bottom(x, j).data == x.prefix + x.data
  {
    assert x.data[..j] + x.data[j..] == x.data;
  }

  /** Cutting a compressed node in two changes nothing that is stored. */
  lemma SplitAtOk(head: RaxNode, H: Heap, holes: set<RaxNode>, M: map<Key, Value>, h: RaxNode, j: nat, mid: RaxNode)
    requires Tree(head, H, holes, M) && h in H && mid !in H && H[h].iscompr && 0 < j < |H[h].data|
    ensures Tree(head, H[h := Top(H[h], j, mid)][mid := Bottom(H[h], j)], holes, M)
  {
    var x := H[h];
    assert NodeOk(x) && KidsIn(x, H);
    var y, z := Top(x, j, mid), Bottom(x, j);
    SplitFacts(x, j, mid);
    SingleFacts(x);
    SingleFacts(y);
    SingleFacts(z);
    forall k, w ensures Binds(y, z, k, w) <==> Binds(x, x, k, w) {
      assert y.OwnBind(k, w) <==> x.OwnBind(k, w);
    }
    RebindSame(H, M, h, y, z);
    AddOk(head, H, M, h, y, mid, z, M);
  }

  /** a and its only child b as one node. */
  function Joined(a: N, b: N): N {
    a.(iscompr := true, data := a.data + b.data, slots := b.slots, bits := b.bits)
  }

  lemma MergeOk(head: RaxNode, H: Heap, holes: set<RaxNode>, M: map<Key, Value>, a: RaxNode, b: RaxNode)
    requires Tree(head, H, holes, M) && a in H && b in H && Single(H[a]) && Single(H[b])
    requires H[a].slots[0] == Child(b) && !H[b].iskey && |H[a].data| + |H[b].data| <= MAX_SIZE
    ensures a != b && b != head
    ensures Tree(head, (H - {b})[a := Joined(H[a], H[b])], holes, M)
  {
    var x, z := H[a], H[b];
    var y := Joined(x, z);
    SingleFacts(x);
    SingleFacts(z);
    assert x.Kid(b, x.prefix + x.data);
    assert z.prefix == x.prefix + x.data && KidsIn(x, H) && KidsIn(z, H);
    assert z.prefix + z.data == x.prefix + y.data;
    SingleFacts(y);
    forall i: nat | i < |y.slots| && y.slots[i].Child? ensures y.slots[i].node in H - {b} {
      if z.slots[0] == Child(b) { OneLink(head, H, b, 0, a, 0, b); }
    }
    forall k, w ensures Binds(y, y, k, w) <==> Binds(x, z, k, w) {
      assert y.OwnBind(k, w) <==> x.OwnBind(k, w);
    }
    RebindSame2(H, M, a, b, y);
    DropOk(head, H, M, a, y, b, M);
  }

  // ---- A node moves to another allocation ------------------------------------------------

  function Relink(x: N, i: nat, h': RaxNode): N
    requires i < |x.slots|
  {
    x.(slots := x.slots[i := Child(h')])
  }

  /** The heap after h's contents are found at h' and the slot i of p follows. */
  function Moved(H: Heap, h: RaxNode, h': RaxNode, p: RaxNode, i: nat): Heap
    requires h in H && p in H && i < |H[p].slots|
  {
    (H - {h})[h' := H[h]][p := Relink(H[p], i, h')]
  }

  lemma RelinkKids(x: N, i: nat, h: RaxNode, h': RaxNode, n: RaxNode, k: Key)
    requires i < |x.slots| && x.slots[i] == Child(h)
    requires forall j :: 0 <= j < |x.slots| && x.slots[j] == Child(h) ==> j == i
    requires forall j :: 0 <= j < |x.slots| ==> x.slots[j] != Child(h')
    ensures Relink(x, i, h').Kid(n, k) <==> if n == h' then x.Kid(h, k) else x.Kid(n, k) && n != h
  {
    var y := Relink(x, i, h');
    assert y.KidSlot(i, h', k) <==> x.KidSlot(i, h, k);
    assert forall j :: j != i ==> (y.KidSlot(j, n, k) <==> x.KidSlot(j, n, k));
    if j :| y.KidSlot(j, n, k) {
      if n == h' { assert j == i; }
    }
  }

  lemma RelinkBinds(x: N, i: nat, h: RaxNode, h': RaxNode, k: Key, v: Value)
    requires i < |x.slots| && x.slots[i] == Child(h)
    ensures Relink(x, i, h').Bind(k, v) <==> x.Bind(k, v)
  {
    var y := Relink(x, i, h');
    assert y.OwnBind(k, v) <==> x.OwnBind(k, v);
    assert forall j :: y.BindSlot(j, k, v) <==> x.BindSlot(j, k, v);
  }

  /** Only one slot anywhere leads to a given node. */
  lemma OneLink(head: RaxNode, H: Heap, n: RaxNode, j: nat, p: RaxNode, i: nat, h: RaxNode)
    requires Shape(head, H) && h in H
    requires n in H && j < |H[n].slots| && H[n].slots[j] == Child(h)
    requires p in H && i < |H[p].slots| && H[p].slots[i] == Child(h)
    ensures n == p && j == i
    ensures H[p].At(i) == H[h].prefix && h != head && h != p
  {
    assert H[n].KidSlot(j, h, H[n].At(j)) && H[n].Kid(h, H[n].At(j));
    assert H[p].KidSlot(i, h, H[p].At(i)) && H[p].Kid(h, H[p].At(i));
    SameParent(head, H, n, j, p, i, H[h].prefix);
    assert NodeOk(H[p]);
    LabelNonEmpty(H[p], i);
  }

  /** The child in slot i: its path is that of the slot. */
  lemma ChildAt(head: RaxNode, H: Heap, n: RaxNode, i: nat)
    requires Shape(head, H) && n in H && i < |H[n].slots| && H[n].slots[i].Child?
    ensures var c := H[n].slots[i].node; c in H && H[c].prefix == H[n].At(i) && |H[c].prefix| > |H[n].prefix|
  {
    assert NodeOk(H[n]) && KidsIn(H[n], H);
    OneLink(head, H, n, i, n, i, H[n].slots[i].node);
    LabelNonEmpty(H[n], i);
  }

  lemma MoveShape(head: RaxNode, H: Heap, h: RaxNode, h': RaxNode, p: RaxNode, i: nat)
    requires Shape(head, H) && h in H && h' !in H
    requires p in H && i < |H[p].slots| && H[p].slots[i] == Child(h)
    ensures Shape(head, Moved(H, h, h', p, i)) && h != head && h != p
  {
    OneLink(head, H, p, i, p, i, h);
    var H' := Moved(H, h, h', p, i);
    assert KidsIn(H[p], H) && NodeOk(H[p]) && NodeOk(H[h]);
    assert NodeOk(H'[p]);
    forall n | n in H' ensures NodeOk(H'[n]) {
      if n in H { assert NodeOk(H[n]); }
    }
    forall n | n in H' ensures KidsIn(H'[n], H') {
      var o: RaxNode := if n == h' then h else n;
      assert KidsIn(H[o], H);
      forall j: nat | j < |H'[n].slots| && H'[n].slots[j].Child? ensures H'[n].slots[j].node in H' {
        if H[o].slots[j] == Child(h) { OneLink(head, H, o, j, p, i, h); }
      }
    }
    forall n, k ensures p in H' && (H'[p].Kid(n, k) <==> if n == h' then H[p].Kid(h, k) else H[p].Kid(n, k) && n != h) {
      forall j: nat | j < |H[p].slots| && H[p].slots[j] == Child(h) ensures j == i { OneLink(head, H, p, j, p, i, h); }
      RelinkKids(H[p], i, h, h', n, k);
    }
    forall n, c, k | n in H' && c in H' && H'[n].Kid(c, k) ensures c != head && H'[c].prefix == k {
      var o: RaxNode := if n == h' then h else n;
      assert KidsIn(H[o], H);
      if o != p { KidIsIn(H, o, h'); }
      assert H[o].Kid(if c == h' then h else c, k);
    }
    forall m | m in H' && m != head ensures HasParent(H', m) {
      var o: RaxNode := if m == h' then h else m;
      var q, j := Parent(head, H, o);
      assert H[q].Kid(o, H[o].prefix);
      if m == h' { OneLink(head, H, q, j, p, i, h); }
      assert H'[if q == h then h' else q].Kid(m, H'[m].prefix);
    }
  }

  /** A childless node that is no key yet stays one at its new place. */
  function MovedHoles(holes: set<RaxNode>, h: RaxNode, h': RaxNode): set<RaxNode> {
    if h in holes then holes - {h} + {h'} else holes
  }

  lemma MoveOk(head: RaxNode, H: Heap, holes: set<RaxNode>, M: map<Key, Value>,
               h: RaxNode, h': RaxNode, p: RaxNode, i: nat)
    requires Tree(head, H, holes, M) && h in H && h' !in H
    requires p in H && i < |H[p].slots| && H[p].slots[i] == Child(h)
    ensures h != head && h != p
    ensures Tree(head, Moved(H, h, h', p, i), MovedHoles(holes, h, h'), M)
  {
    MoveShape(head, H, h, h', p, i);
    var H' := Moved(H, h, h', p, i);
    forall k, v ensures H'[p].Bind(k, v) <==> H[p].Bind(k, v) { RelinkBinds(H[p], i, h, h', k, v); }
    forall n, k, v | n in H' && H'[n].Bind(k, v) ensures k in M && M[k] == v {
      assert H[if n == h' then h else n].Bind(k, v);
    }
    forall k | k in M ensures Stored(H', k, M[k]) {
      assert Stored(H, k, M[k]);
      var n: RaxNode :| n in H && H[n].Bind(k, M[k]);
      assert H'[if n == h then h' else n].Bind(k, M[k]);
    }
  }

  lemma MoveHeadShape(head: RaxNode, H: Heap, h': RaxNode)
    requires Shape(head, H) && h' !in H
    ensures Shape(h', (H - {head})[h' := H[head]])
  {
    var H' := (H - {head})[h' := H[head]];
    forall n | n in H' ensures NodeOk(H'[n]) {
      assert NodeOk(H[if n == h' then head else n]);
    }
    hide NodeOk;
    forall n | n in H' ensures KidsIn(H'[n], H') {
      var o: RaxNode := if n == h' then head else n;
      assert KidsIn(H[o], H);
      forall j: nat | j < |H[o].slots| && H[o].slots[j].Child? ensures H[o].slots[j].node in H' {
        if H[o].slots[j] == Child(head) { OneLink(head, H, o, j, o, j, head); }
      }
    }
    forall n, c, k | n in H' && c in H' && H'[n].Kid(c, k) ensures c != h' && H'[c].prefix == k {
      var o: RaxNode := if n == h' then head else n;
      assert KidsIn(H[o], H);
      KidIsIn(H, o, h');
      assert H[o].Kid(c, k);
    }
    forall m | m in H' && m != h' ensures HasParent(H', m) {
      var q, j := Parent(head, H, m);
      assert H[q].Kid(m, H[m].prefix);
      assert H'[if q == head then h' else q].Kid(m, H'[m].prefix);
    }
  }

  lemma MoveHeadOk(head: RaxNode, H: Heap, holes: set<RaxNode>, M: map<Key, Value>, h': RaxNode)
    requires Tree(head, H, holes, M) && h' !in H
    ensures Tree(h', (H - {head})[h' := H[head]], MovedHoles(holes, head, h'), M)
  {
    var H' := (H - {head})[h' := H[head]];
    MoveHeadShape(head, H, h');
    hide Shape;
    forall n, k, v | n in H' && H'[n].Bind(k, v) ensures k in M && M[k] == v {
      assert H[if n == h' then head else n].Bind(k, v);
    }
    forall k | k in M ensures Stored(H', k, M[k]) {
      assert Stored(H, k, M[k]);
      var n: RaxNode :| n in H && H[n].Bind(k, M[k]);
      assert H'[if n == head then h' else n].Bind(k, M[k]);
    }
  }
}
