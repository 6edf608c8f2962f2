/** The heap of radix-tree nodes as a value, its invariant, and the paths in it. */
module RaxTheory {
  import opened RaxKeys

  /** A stored void pointer; zero is NULL. */
  type Value = nat

  const MAX_SIZE: nat := 65535
  const INLINE_SLOTS: nat := 13

  /** What a child field holds: a node pointer, or a value stored in place. */
  datatype Slot = Child(node: RaxNode) | Inline(value: Value)

  class RaxNode {
    var iskey: bool
    var isnull: bool
    var iscompr: bool
    var leafbitmap: set<nat>
    var data: Key
    var slots: seq<Slot>
    var aux: Value

    /** raxNewNode: no key, no children yet; the caller fills the slots. */
    constructor (data: Key)
      ensures !iskey && !isnull && !iscompr && leafbitmap == {}
      ensures this.data == data && slots == []
    {
      this.iskey, this.isnull, this.iscompr := false, false, false;
      this.leafbitmap, this.data, this.slots, this.aux := {}, data, [], 0;
    }

    function GetData(): Value
      reads this
    {
      if isnull then 0 else aux
    }

    /** Becomes a key with this value; NULL is a flag and leaves the value field alone. */
    method SetData(v: Value)
      modifies this`iskey, this`isnull, this`aux
      ensures iskey && GetData() == v
    {
      iskey := true;
      if v != 0 {
        isnull, aux := false, v;
      } else {
        isnull := true;
      }
    }

    /** raxIsInlineLeaf */
    predicate IsInlineLeaf(i: int)
      reads this
    {
      0 <= i < INLINE_SLOTS && i in leafbitmap
    }

    /** The fields agree with x, whose path is only in the proof. */
    ghost predicate Is(x: N)
      reads this
    {
      && iskey == x.iskey && (iskey ==> GetData() == x.value)
      && iscompr == x.iscompr && leafbitmap == x.bits && data == x.data && slots == x.slots
    }
  }

  /** The fields of a node together with the path that leads to it. */
  datatype N = N(iskey: bool, value: Value, iscompr: bool, bits: set<nat>,
                 data: Key, slots: seq<Slot>, prefix: Key)
  {
    /** The bytes on the edge of child i. */
    function Label(i: nat): Key {
      if iscompr || i >= |data| then data else [data[i]]
    }

    function At(i: nat): Key {
      prefix + Label(i)
    }

    predicate KidSlot(i: int, c: RaxNode, k: Key) {
      0 <= i < |slots| && slots[i] == Child(c) && At(i) == k
    }

    /** Some slot on path k points to node c. */
    ghost predicate Kid(c: RaxNode, k: Key) {
      exists i :: KidSlot(i, c, k)
    }

    predicate BindSlot(i: int, k: Key, v: Value) {
      0 <= i < |slots| && slots[i] == Inline(v) && At(i) == k
    }

    predicate OwnBind(k: Key, v: Value) {
      iskey && prefix == k && value == v
    }

    /** The node stores v under k, as its own value or in one of its slots. */
    ghost predicate Bind(k: Key, v: Value) {
      OwnBind(k, v) || exists i :: BindSlot(i, k, v)
    }

  }

  type Heap = map<RaxNode, N>

  predicate NodeOk(x: N) {
    && |x.data| <= MAX_SIZE
    && (x.iscompr ==> |x.data| >= 2 && |x.slots| == 1)
    && (!x.iscompr ==> |x.slots| == |x.data| && Sorted(x.data))
    && (forall i :: i in x.bits ==> i < INLINE_SLOTS && i < |x.slots|)
    && (forall i :: 0 <= i < |x.slots| ==> (x.slots[i].Inline? <==> i in x.bits))
  }

  predicate KidsIn(x: N, H: Heap) {
    forall i :: 0 <= i < |x.slots| && x.slots[i].Child? ==> x.slots[i].node in H
  }

  ghost predicate HasParent(H: Heap, m: RaxNode)
    requires m in H
  {
    exists p :: p in H && H[p].Kid(m, H[m].prefix)
  }

  /** Every node is well formed, children carry the path of their slot, and
      every node except the head hangs from some slot. */
  ghost predicate Shape(head: RaxNode, H: Heap) {
    && head in H && H[head].prefix == []
    && (forall n {:trigger NodeOk(H[n])} :: n in H ==> NodeOk(H[n]))
    && (forall n {:trigger KidsIn(H[n], H)} :: n in H ==> KidsIn(H[n], H))
    && (forall n, c, k {:trigger H[n].Kid(c, k)} :: n in H && c in H && H[n].Kid(c, k) ==>
      c != head && H[c].prefix == k)
    && (forall m {:trigger HasParent(H, m)} :: m in H && m != head ==> HasParent(H, m))
  }

  /** Childless nodes are keys, except the head and the nodes in `holes`. */
  ghost predicate Leaves(head: RaxNode, H: Heap, holes: set<RaxNode>) {
    forall n :: n in H && H[n].slots == [] ==> H[n].iskey || n == head || n in holes
  }

  ghost predicate Stored(H: Heap, k: Key, v: Value) {
    exists n :: n in H && H[n].Bind(k, v)
  }

  /** The heap stores exactly the bindings of M. */
  ghost predicate Denotes(H: Heap, M: map<Key, Value>) {
    && (forall n, k, v {:trigger H[n].Bind(k, v)} :: n in H && H[n].Bind(k, v) ==> k in M && M[k] == v)
    && (forall k {:trigger M[k]} {:trigger k in M} :: k in M ==> Stored(H, k, M[k]))
  }

  ghost predicate Tree(head: RaxNode, H: Heap, holes: set<RaxNode>, M: map<Key, Value>) {
    Shape(head, H) && Leaves(head, H, holes) && Denotes(H, M)
  }

  // ---- Paths -------------------------------------------------------------

  lemma LabelNonEmpty(x: N, i: nat)
    requires NodeOk(x) && i < |x.slots|
    ensures |x.Label(i)| >= 1 && |x.At(i)| > |x.prefix| && x.prefix <= x.At(i)
    ensures x.At(i)[|x.prefix|] == x.data[if x.iscompr then 0 else i]
  {
  }

  /** Two slots of one node whose paths both lead towards k are the same slot. */
  lemma SameSlot(x: N, i: nat, j: nat, k: Key)
    requires NodeOk(x) && i < |x.slots| && j < |x.slots|
    requires x.At(i) <= k && x.At(j) <= k
    ensures i == j
  {
    LabelNonEmpty(x, i);
    LabelNonEmpty(x, j);
    assert k[|x.prefix|] == x.At(i)[|x.prefix|] == x.At(j)[|x.prefix|];
  }

  /** Where a node binds a key: itself (-1) or a slot, seen from the first byte after its path. */
  lemma BindCases(x: N, k: Key, v: Value) returns (i: int)
    requires NodeOk(x) && x.Bind(k, v)
    ensures i == -1 ==> x.OwnBind(k, v)
    ensures i != -1 ==> x.BindSlot(i, k, v) && x.prefix <= k && |k| > |x.prefix|
    ensures i != -1 ==> k[|x.prefix|] == x.data[if x.iscompr then 0 else i]
  {
    if x.OwnBind(k, v) {
      i := -1;
    } else {
      i :| x.BindSlot(i, k, v);
      LabelNonEmpty(x, i);
    }
  }

  lemma KidCases(x: N, c: RaxNode, k: Key) returns (i: nat)
    requires NodeOk(x) && x.Kid(c, k)
    ensures x.KidSlot(i, c, k) && x.prefix <= k && |k| > |x.prefix|
  {
    i :| x.KidSlot(i, c, k);
    LabelNonEmpty(x, i);
  }

  /** The parent slot of a node other than the head. */
  lemma Parent(head: RaxNode, H: Heap, m: RaxNode) returns (p: RaxNode, i: nat)
    requires Shape(head, H) && m in H && m != head
    ensures p in H && H[p].KidSlot(i, m, H[m].prefix)
    ensures H[p].prefix <= H[m].prefix && |H[p].prefix| < |H[m].prefix|
  {
    assert HasParent(H, m);
    p :| p in H && H[p].Kid(m, H[m].prefix);
    i := KidCases(H[p], m, H[m].prefix);
  }

  /** Whatever lies under a node's path is reached through one of its slots. */
  lemma {:induction false} Below(head: RaxNode, H: Heap, h: RaxNode, m: RaxNode) returns (i: nat)
    requires Shape(head, H) && h in H && m in H && h != m
    requires H[h].prefix <= H[m].prefix
    ensures i < |H[h].slots| && H[h].slots[i].Child? && H[h].At(i) <= H[m].prefix
    decreases |H[h].prefix| + |H[m].prefix|, 0
  {
    if m == head {
      var p, j := Parent(head, H, h);
      assert false;
    }
    var p, j := Parent(head, H, m);
    if p == h {
      i := j;
    } else if |H[h].prefix| <= |H[p].prefix| {
      i := Below(head, H, h, p);
    } else {
      i := Below(head, H, p, h);
      SameSlot(H[p], i, j, H[m].prefix);
      assert H[h].prefix == H[m].prefix;
      var q, l := Parent(head, H, h);
      SameParent(head, H, p, j, q, l, H[m].prefix);
      assert false;
    }
  }

  /** Two slots with the same path are the same slot of the same node. */
  lemma {:induction false} SameParent(head: RaxNode, H: Heap, p: RaxNode, j: nat, q: RaxNode, l: nat, k: Key)
    requires Shape(head, H) && p in H && q in H && j < |H[p].slots| && l < |H[q].slots|
    requires H[p].At(j) == k == H[q].At(l)
    ensures p == q && j == l
    decreases |H[p].prefix| + |H[q].prefix|, 1
  {
    LabelNonEmpty(H[p], j);
    LabelNonEmpty(H[q], l);
    if p == q {
      SameSlot(H[p], j, l, k);
    } else if |H[p].prefix| <= |H[q].prefix| {
      var x := H[p];
      var a := Below(head, H, p, q);
      assert false by { SameSlot(x, a, j, k); }
    } else {
      var x := H[q];
      var a := Below(head, H, q, p);
      assert false by { SameSlot(x, a, l, k); }
    }
  }

  /** A key stored elsewhere under the path of h passes through a child of h. */
  lemma BelowBind(head: RaxNode, H: Heap, h: RaxNode, n: RaxNode, k: Key, v: Value) returns (j: nat)
    requires Shape(head, H) && h in H && n in H && H[n].Bind(k, v) && n != h
    requires H[h].prefix <= k
    ensures j < |H[h].slots| && H[h].slots[j].Child? && H[h].At(j) <= k
  {
    if |H[h].prefix| <= |H[n].prefix| {
      assert H[h].prefix <= H[n].prefix;
      j := Below(head, H, h, n);
    } else {
      var x := H[n];
      var i := BindCases(x, k, v);
      BindPrefix(x, k, v);
      j := Below(head, H, n, h);
      assert false by { SameSlot(x, j, i, k); }
    }
  }

  /** A node binds a key once. */
  lemma BindOnce(x: N, k: Key, v: Value, v': Value)
    requires NodeOk(x) && x.Bind(k, v) && x.Bind(k, v')
    ensures v == v'
  {
    var i := BindCases(x, k, v);
    var j := BindCases(x, k, v');
    if i != -1 && j != -1 { SameSlot(x, i, j, k); }
  }

  lemma UniqueBind(head: RaxNode, H: Heap, n: RaxNode, n': RaxNode, k: Key, v: Value, v': Value)
    requires Shape(head, H) && n in H && n' in H && H[n].Bind(k, v) && H[n'].Bind(k, v')
    ensures n == n' && v == v'
  {
    if n == n' {
      BindOnce(H[n], k, v, v');
    } else {
      BindPrefix(H[n], k, v);
      BindPrefix(H[n'], k, v');
      var j := BelowBind(head, H, n, n', k, v');
      BindNotUnderKid(H[n], k, v, j);
      assert false;
    }
  }

  lemma BindPrefix(x: N, k: Key, v: Value)
    requires x.Bind(k, v)
    ensures x.prefix <= k
  {
  }

  lemma BindNotUnderKid(x: N, k: Key, v: Value, j: nat)
    requires NodeOk(x) && x.Bind(k, v) && j < |x.slots| && x.slots[j].Child?
    ensures !(x.At(j) <= k)
  {
    LabelNonEmpty(x, j);
    var i := BindCases(x, k, v);
    if i != -1 && x.At(j) <= k { SameSlot(x, i, j, k); }
  }

  /** The path of a node is a key exactly when the node says so, with the node's value. */
  lemma NodeKey(head: RaxNode, H: Heap, M: map<Key, Value>, h: RaxNode)
    requires Shape(head, H) && Denotes(H, M) && h in H
    ensures H[h].prefix in M <==> H[h].iskey
    ensures H[h].iskey ==> M[H[h].prefix] == H[h].value
  {
    var k := H[h].prefix;
    assert H[h].iskey ==> H[h].OwnBind(k, H[h].value) && H[h].Bind(k, H[h].value);
    if k in M {
      assert Stored(H, k, M[k]);
      var n: RaxNode :| n in H && H[n].Bind(k, M[k]);
      assert NodeOk(H[h]);
      if n != h {
        var x := H[h];
        var j := BelowBind(head, H, h, n, k, M[k]);
        assert false by { LabelNonEmpty(x, j); }
      } else {
        var i := BindCases(H[h], k, M[k]);
      }
    }
  }

  /** The path of an inline slot is a key with the value in the slot. */
  lemma InlineKey(H: Heap, M: map<Key, Value>, h: RaxNode, j: nat)
    requires Denotes(H, M) && h in H && j < |H[h].slots| && H[h].slots[j].Inline?
    ensures H[h].At(j) in M && M[H[h].At(j)] == H[h].slots[j].value
  {
    assert H[h].BindSlot(j, H[h].At(j), H[h].slots[j].value);
    assert H[h].Bind(H[h].At(j), H[h].slots[j].value);
  }
}
