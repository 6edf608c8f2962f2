/** Which key comes next, seen from a place in the tree. */
module RaxOrder {
  import opened RaxKeys
  import opened RaxTheory
  import opened RaxSteps
  import opened RaxReshape
  import opened RaxChain

  /** m is after k; with `skip` the keys that extend k do not count. */
  predicate Follows(k: Key, skip: bool, m: Key) {
    Less(k, m) && (skip ==> !(k <= m))
  }

  ghost predicate NextOf(M: map<Key, Value>, k: Key, skip: bool, m: Key) {
    && m in M && Follows(k, skip, m)
    && forall m' {:trigger m' in M} :: m' in M && Follows(k, skip, m') ==> LessEq(m, m')
  }

  ghost predicate PrevOf(M: map<Key, Value>, k: Key, m: Key) {
    && m in M && Less(m, k)
    && forall m' {:trigger m' in M} :: m' in M && Less(m', k) ==> LessEq(m', m)
  }

  /** The least and the greatest key under the path q. */
  ghost predicate FirstUnder(M: map<Key, Value>, q: Key, m: Key) {
    m in M && q <= m && forall m' {:trigger m' in M} :: m' in M && q <= m' ==> LessEq(m, m')
  }

  ghost predicate LastUnder(M: map<Key, Value>, q: Key, m: Key) {
    m in M && q <= m && forall m' {:trigger m' in M} :: m' in M && q <= m' ==> LessEq(m', m)
  }

  // ---- Keys under a node ------------------------------------------------------------

  /** A key strictly under a node goes through one of its slots. */
  lemma SlotFor(head: RaxNode, H: Heap, M: map<Key, Value>, h: RaxNode, m: Key) returns (j: nat)
    requires Shape(head, H) && Denotes(H, M) && h in H && m in M && H[h].prefix <= m && m != H[h].prefix
    ensures j < |H[h].slots| && H[h].At(j) <= m && (H[h].slots[j].Inline? ==> H[h].At(j) == m)
  {
    var x := H[h];
    assert Stored(H, m, M[m]) && NodeOk(x);
    var n: RaxNode :| n in H && H[n].Bind(m, M[m]);
    if n == h {
      var i := BindCases(x, m, M[m]);
      j := i;
    } else {
      j := BelowBind(head, H, h, n, m, M[m]);
    }
  }

  /** The first byte after the node's path decides between its slots. */
  lemma SlotByte(x: N, j: nat, m: Key)
    requires NodeOk(x) && j < |x.slots| && x.At(j) <= m
    ensures |m| > |x.prefix| && x.prefix <= m && m[|x.prefix|] == x.data[if x.iscompr then 0 else j]
    ensures Less(x.prefix, m)
  {
    LabelNonEmpty(x, j);
    assert x.At(j)[|x.prefix|] == m[|x.prefix|];
    LessExtension(x.prefix, m);
  }

  /** Keys under an earlier slot come first. */
  lemma SlotsOrdered(x: N, i: nat, j: nat, a: Key, b: Key)
    requires NodeOk(x) && i < j < |x.slots| && x.At(i) <= a && x.At(j) <= b
    ensures Less(a, b)
  {
    SlotByte(x, i, a);
    SlotByte(x, j, b);
    LessAtDivergence(x.prefix, a, b);
  }

  lemma FirstOfKey(head: RaxNode, H: Heap, M: map<Key, Value>, h: RaxNode)
    requires Tree(head, H, {}, M) && h in H && H[h].iskey
    ensures FirstUnder(M, H[h].prefix, H[h].prefix) && M[H[h].prefix] == H[h].value
    ensures H[h].slots == [] ==> LastUnder(M, H[h].prefix, H[h].prefix)
  {
    NodeKey(head, H, M, h);
    var p := H[h].prefix;
    forall m | m in M && p <= m ensures LessEq(p, m) && (H[h].slots == [] ==> m == p) {
      if m != p {
        LessExtension(p, m);
        var j := SlotFor(head, H, M, h, m);
      }
    }
  }

  lemma UnderInline(head: RaxNode, H: Heap, M: map<Key, Value>, h: RaxNode, i: nat)
    requires Tree(head, H, {}, M) && h in H && i < |H[h].slots| && H[h].slots[i].Inline?
    ensures var k := H[h].At(i); FirstUnder(M, k, k) && LastUnder(M, k, k) && M[k] == H[h].slots[i].value
  {
    var x, k := H[h], H[h].At(i);
    assert NodeOk(x);
    InlineKey(H, M, h, i);
    LabelNonEmpty(x, i);
    forall m | m in M && k <= m ensures m == k {
      var j := SlotFor(head, H, M, h, m);
      SameSlot(x, i, j, m);
    }
  }

  lemma FirstBelow(head: RaxNode, H: Heap, M: map<Key, Value>, h: RaxNode, m: Key)
    requires Tree(head, H, {}, M) && h in H && H[h].slots != [] && FirstUnder(M, H[h].At(0), m)
    ensures NextOf(M, H[h].prefix, false, m)
    ensures !H[h].iskey ==> FirstUnder(M, H[h].prefix, m)
  {
    var x := H[h];
    assert NodeOk(x);
    NodeKey(head, H, M, h);
    SlotByte(x, 0, m);
    forall m' | m' in M && x.prefix <= m' && m' != x.prefix ensures LessEq(m, m') {
      var j := SlotFor(head, H, M, h, m');
      if j > 0 { SlotsOrdered(x, 0, j, m, m'); }
    }
    forall m' | m' in M && Less(x.prefix, m') ensures LessEq(m, m') {
      LessAsymmetric(x.prefix, m');
      if !(x.prefix <= m') { LessBeyondSubtree(x.prefix, m', m); }
    }
  }

  lemma LastBelow(head: RaxNode, H: Heap, M: map<Key, Value>, h: RaxNode, m: Key)
    requires Tree(head, H, {}, M) && h in H && H[h].slots != [] && LastUnder(M, H[h].At(|H[h].slots| - 1), m)
    ensures LastUnder(M, H[h].prefix, m)
  {
    var x := H[h];
    assert NodeOk(x);
    var last := |x.slots| - 1;
    SlotByte(x, last, m);
    forall m' | m' in M && x.prefix <= m' && m' != x.prefix ensures LessEq(m', m) {
      var j := SlotFor(head, H, M, h, m');
      if j < last { SlotsOrdered(x, j, last, m', m); }
    }
  }

  lemma NothingBelow(head: RaxNode, H: Heap, M: map<Key, Value>, h: RaxNode, m: Key)
    requires Tree(head, H, {}, M) && h in H && H[h].slots == [] && m in M
    ensures Follows(H[h].prefix, false, m) <==> Follows(H[h].prefix, true, m)
  {
    var p := H[h].prefix;
    if p <= m && m != p { var j := SlotFor(head, H, M, h, m); }
    if p == m { LessIrreflexive(p); }
  }

  // ---- From one slot of a node to its neighbours ----------------------------------------

  /** t is the label of a slot of x, or a single byte that x has no edge for. */
  predicate Tail(x: N, t: Key) {
    if x.iscompr then t == x.data else |t| == 1
  }

  /** i is the first slot after t. */
  predicate SlotAfter(x: N, t: Key, i: nat) {
    && Tail(x, t) && i <= |x.slots|
    && if x.iscompr then i == 1 else
         |x.slots| == |x.data| && forall u :: 0 <= u < |x.data| ==> (x.data[u] > t[0] <==> u >= i)
  }

  /** The slots before i are those before t. */
  predicate SlotsBefore(x: N, t: Key, i: nat) {
    && Tail(x, t) && i <= |x.slots|
    && if x.iscompr then i == 0 else
         |x.slots| == |x.data| && forall u :: 0 <= u < |x.data| ==> (x.data[u] < t[0] <==> u < i)
  }

  lemma EdgeIsTail(x: N, j: nat, t: Key)
    requires !x.iscompr && j < |x.data| && |t| == 1
    ensures x.data[j] == t[0] ==> x.At(j) == x.prefix + t
  {
  }

  /** A key under the node but not under prefix + t is ordered against prefix + t by its slot. */
  lemma TailOrder(head: RaxNode, H: Heap, M: map<Key, Value>, h: RaxNode, t: Key, m: Key) returns (j: nat)
    requires Tree(head, H, {}, M) && h in H && Tail(H[h], t) && m in M && H[h].prefix <= m && m != H[h].prefix
    ensures j < |H[h].slots| && H[h].At(j) <= m
    ensures var k := H[h].prefix + t;
      if k <= m then !Less(m, k)
      else
        !H[h].iscompr && j < |H[h].data| && H[h].data[j] != t[0] && (Less(k, m) <==> t[0] < H[h].data[j]) &&
        (Less(m, k) <==> H[h].data[j] < t[0])
  {
    var x, k := H[h], H[h].prefix + t;
    assert NodeOk(x);
    j := SlotFor(head, H, M, h, m);
    SlotByte(x, j, m);
    if k <= m {
      if k != m { LessExtension(k, m); }
      if Less(m, k) { LessAsymmetric(m, k); }
    } else {
      assert !x.iscompr;
      assert m[|x.prefix|] == x.data[j] && k[|x.prefix|] == t[0];
      EdgeIsTail(x, j, t);
      LessAtDivergence(x.prefix, k, m);
      LessAtDivergence(x.prefix, m, k);
    }
  }

  lemma NextInNode(head: RaxNode, H: Heap, M: map<Key, Value>, h: RaxNode, t: Key, i: nat, m: Key)
    requires Tree(head, H, {}, M) && h in H && SlotAfter(H[h], t, i) && i < |H[h].slots| && FirstUnder(M, H[h].At(i), m)
    ensures NextOf(M, H[h].prefix + t, true, m)
  {
    var x, k := H[h], H[h].prefix + t;
    assert NodeOk(x);
    SlotByte(x, i, m);
    assert m[|x.prefix|] == x.data[i] && k[|x.prefix|] == t[0];
    LessAtDivergence(x.prefix, k, m);
    forall m' | m' in M && Follows(k, true, m') ensures LessEq(m, m') {
      if x.prefix <= m' {
        if m' == x.prefix { LessExtension(m', k); LessAsymmetric(m', k); }
        var j := TailOrder(head, H, M, h, t, m');
        if j != i { SlotsOrdered(x, i, j, m, m'); }
      } else {
        PastNode(x.prefix, k, m', m);
      }
    }
  }

  /** A key after k that is not under the prefix p of k is after everything under p. */
  lemma PastNode(p: Key, k: Key, m': Key, m: Key)
    requires p <= k && Less(k, m') && !(p <= m') && p <= m
    ensures Less(m, m')
  {
    LessTotal(p, m');
    if Less(m', p) { LessBelowSubtree(m', p, k); LessAsymmetric(k, m'); }
    LessBeyondSubtree(p, m', m);
  }

  /** With no later slot, what comes after prefix + t comes after the whole node. */
  lemma NextPastNode(head: RaxNode, H: Heap, M: map<Key, Value>, h: RaxNode, t: Key, m: Key)
    requires Tree(head, H, {}, M) && h in H && SlotAfter(H[h], t, |H[h].slots|) && m in M
    ensures Follows(H[h].prefix + t, true, m) <==> Follows(H[h].prefix, true, m)
  {
    var x, p, k := H[h], H[h].prefix, H[h].prefix + t;
    assert NodeOk(x);
    LessExtension(p, k);
    if p <= m {
      if m == p { LessAsymmetric(m, k); } else { var j := TailOrder(head, H, M, h, t, m); }
    } else {
      if Less(k, m) { LessTransitive(p, k, m); }
      if Less(p, m) { LessBeyondSubtree(p, m, k); }
      assert !(k <= m);
    }
  }

  lemma PrevInNode(head: RaxNode, H: Heap, M: map<Key, Value>, h: RaxNode, t: Key, i: nat, m: Key)
    requires Tree(head, H, {}, M) && h in H && SlotsBefore(H[h], t, i) && i > 0 && LastUnder(M, H[h].At(i - 1), m)
    ensures PrevOf(M, H[h].prefix + t, m)
  {
    var x, k := H[h], H[h].prefix + t;
    assert NodeOk(x);
    SlotByte(x, i - 1, m);
    assert m[|x.prefix|] == x.data[i - 1] && k[|x.prefix|] == t[0];
    LessAtDivergence(x.prefix, m, k);
    forall m' | m' in M && Less(m', k) ensures LessEq(m', m) {
      if x.prefix <= m' {
        if m' != x.prefix {
          var j := TailOrder(head, H, M, h, t, m');
          if j != i - 1 { SlotsOrdered(x, j, i - 1, m', m); }
        }
      } else {
        BeforeNode(x.prefix, k, m');
        LessBelowSubtree(m', x.prefix, m);
      }
    }
  }

  lemma BeforeNode(p: Key, k: Key, m': Key)
    requires p <= k && Less(m', k) && !(p <= m')
    ensures Less(m', p)
  {
    LessTotal(p, m');
    if Less(p, m') { LessBeyondSubtree(p, m', k); LessAsymmetric(k, m'); }
  }

  /** With no earlier slot, the node itself comes before prefix + t, then what is before the node. */
  lemma PrevPastNode(head: RaxNode, H: Heap, M: map<Key, Value>, h: RaxNode, t: Key)
    requires Tree(head, H, {}, M) && h in H && SlotsBefore(H[h], t, 0)
    ensures H[h].iskey ==> PrevOf(M, H[h].prefix + t, H[h].prefix)
    ensures !H[h].iskey ==> forall m :: m in M ==> (Less(m, H[h].prefix + t) <==> Less(m, H[h].prefix))
  {
    var x, p, k := H[h], H[h].prefix, H[h].prefix + t;
    assert NodeOk(x);
    LessExtension(p, k);
    NodeKey(head, H, M, h);
    forall m | m in M ensures Less(m, k) <==> Less(m, p) || m == p {
      if p <= m && m != p {
        var j := TailOrder(head, H, M, h, t, m);
        LessExtension(p, m);
        LessAsymmetric(p, m);
      } else if !(p <= m) {
        if Less(m, k) { BeforeNode(p, k, m); }
        if Less(m, p) { LessTransitive(m, p, k); }
      }
    }
  }
}
