/** Where a seek stops in the tree and which key it therefore wants. */
module RaxSeek {
  import opened RaxKeys
  import opened RaxTheory
  import opened RaxSteps
  import opened RaxWalk
  import opened RaxChain
  import opened RaxOrder

  /** A C string, read past its end. */
  function CharAt(op: string, i: nat): char {
    if i < |op| then op[i] else '\0'
  }

  predicate KnownOp(op: string) {
    CharAt(op, 0) in {'>', '<', '=', '^', '$'}
  }

  /** The keys a seek accepts. */
  predicate Wanted(op: string, ele: Key, m: Key) {
    var eq := CharAt(op, 1) == '=' && m == ele;
    match CharAt(op, 0)
    case '>' => Less(ele, m) || eq
    case '<' => Less(m, ele) || eq
    case '=' => m == ele
    case _ => true
  }

  /** Of these, "<" and "$" ask for the greatest and the others for the least. */
  ghost predicate Target(M: map<Key, Value>, op: string, ele: Key, m: Key) {
    && m in M && Wanted(op, ele, m)
    && forall m' {:trigger m' in M} :: m' in M && Wanted(op, ele, m') ==>
         if CharAt(op, 0) in {'<', '$'} then LessEq(m', m) else LessEq(m, m')
  }

  /** From k one finds the same later (earlier) keys as from ele. */
  ghost predicate SameAfter(M: map<Key, Value>, ele: Key, k: Key, skip: bool) {
    forall m {:trigger m in M} :: m in M ==> (Less(ele, m) <==> Follows(k, skip, m))
  }

  ghost predicate SameBefore(M: map<Key, Value>, ele: Key, k: Key) {
    forall m {:trigger m in M} :: m in M ==> (Less(m, ele) <==> Less(m, k))
  }

  /** The element itself is not what is asked for. */
  predicate NotExact(M: map<Key, Value>, op: string, ele: Key) {
    CharAt(op, 1) == '=' ==> ele !in M
  }

  lemma SeekUp(M: map<Key, Value>, op: string, ele: Key, k: Key, skip: bool)
    requires CharAt(op, 0) == '>' && NotExact(M, op, ele) && SameAfter(M, ele, k, skip)
    ensures forall m :: NextOf(M, k, skip, m) ==> Target(M, op, ele, m)
    ensures (forall m :: m in M ==> !Follows(k, skip, m)) ==> forall m :: m in M ==> !Wanted(op, ele, m)
  {
  }

  lemma SeekDown(M: map<Key, Value>, op: string, ele: Key, k: Key)
    requires CharAt(op, 0) == '<' && NotExact(M, op, ele) && SameBefore(M, ele, k)
    ensures forall m :: PrevOf(M, k, m) ==> Target(M, op, ele, m)
    ensures (forall m :: m in M ==> !Less(m, k)) ==> forall m :: m in M ==> !Wanted(op, ele, m)
  {
  }

  // ---- Keys that are not under p compare with ele as with p -----------------------------

  lemma Outside(p: Key, ele: Key, m: Key)
    requires p <= ele && !(p <= m)
    ensures Less(m, ele) <==> Less(m, p)
    ensures Less(ele, m) <==> Less(p, m)
  {
    LessTotal(p, m);
    if Less(m, p) {
      LessBelowSubtree(m, p, ele);
      LessAsymmetric(m, p);
      LessAsymmetric(m, ele);
    } else {
      LessBeyondSubtree(p, m, ele);
      LessAsymmetric(p, m);
      LessAsymmetric(ele, m);
    }
  }

  lemma Extends(p: Key, m: Key)
    requires p <= m
    ensures !Less(m, p) && (Less(p, m) <==> p != m)
  {
    LessIrreflexive(p);
    if p != m {
      LessExtension(p, m);
      LessAsymmetric(p, m);
    }
  }

  // ---- In front of a stored value ---------------------------------------------------------

  lemma StopAtInline(head: RaxNode, H: Heap, M: map<Key, Value>, ele: Key, w: Stop)
    requires Tree(head, H, {}, M) && StopOk(head, H, ele, w) && w.inlineLeaf && w.i < |ele|
    ensures var k := ele[..w.i];
      && ele !in M && k in M && SameAfter(M, ele, k, true) && Less(k, ele)
      && forall m :: m in M && Less(m, ele) ==> LessEq(m, k)
  {
    var k := ele[..w.i];
    StopMiss(head, H, M, ele, w);
    UnderInline(head, H, M, w.h, w.link.idx);
    Extends(k, ele);
    forall m | m in M ensures (Less(ele, m) <==> Follows(k, true, m)) && (Less(m, ele) ==> LessEq(m, k)) {
      if k <= m {
        LessTotal(m, k);
        Extends(k, m);
        assert m == k;
        LessAsymmetric(k, ele);
      } else {
        Outside(k, ele, m);
      }
    }
  }

  // ---- In a node without the next edge ------------------------------------------------------

  lemma StopAtPlain(head: RaxNode, H: Heap, M: map<Key, Value>, ele: Key, w: Stop)
    requires Tree(head, H, {}, M) && StopOk(head, H, ele, w) && !w.inlineLeaf && !H[w.h].iscompr && w.i < |ele|
    ensures var k := H[w.h].prefix + [ele[w.i]];
      ele !in M && k <= ele && SameAfter(M, ele, k, true) && SameBefore(M, ele, k)
  {
    var k := H[w.h].prefix + [ele[w.i]];
    assert k == ele[..w.i + 1];
    StopMiss(head, H, M, ele, w);
    forall m | m in M ensures (Less(ele, m) <==> Follows(k, true, m)) && (Less(m, ele) <==> Less(m, k)) {
      if k <= m {
        MissingEdge(head, H, M, w.h, ele[w.i], m);
        assert false;
      }
      Outside(k, ele, m);
    }
  }

  // ---- Inside a compressed node -----------------------------------------------------------------

  lemma EdgeAgrees(p: Key, data: Key, j: nat, m: Key)
    requires p + data <= m && j < |data|
    ensures p + data[..j] <= m && m[|p + data[..j]|] == data[j]
  {
    assert m[|p| + j] == (p + data)[|p| + j];
  }

  /** Every key under a compressed node other than its own path compares with ele by the byte at
      which ele leaves the edge, or follows ele when ele ends on the edge. */
  lemma InsideEdge(head: RaxNode, H: Heap, M: map<Key, Value>, ele: Key, w: Stop, m: Key)
    requires Tree(head, H, {}, M) && StopOk(head, H, ele, w) && !w.inlineLeaf && H[w.h].iscompr
    requires m in M && H[w.h].prefix <= m && m != H[w.h].prefix
    ensures H[w.h].prefix + H[w.h].data <= m && ele != m
    ensures var before := w.i == |ele| || ele[w.i] < H[w.h].data[w.j];
      (Less(ele, m) <==> before) && (Less(m, ele) <==> !before)
  {
    var x := H[w.h];
    assert NodeOk(x);
    var j := SlotFor(head, H, M, w.h, m);
    StopInside(head, H, ele, w);
    var q := ele[..w.i];
    EdgeAgrees(x.prefix, x.data, w.j, m);
    if w.i == |ele| {
      assert ele == q;
      Extends(ele, m);
    } else {
      LessAtDivergence(q, ele, m);
      LessAtDivergence(q, m, ele);
    }
  }

  lemma StopInCompressed(head: RaxNode, H: Heap, M: map<Key, Value>, ele: Key, w: Stop)
    requires Tree(head, H, {}, M) && StopOk(head, H, ele, w) && !w.inlineLeaf && H[w.h].iscompr
    ensures var x := H[w.h]; var k := x.prefix + x.data;
      var before := w.i == |ele| || ele[w.i] < x.data[w.j];
      && (w.i < |ele| ==> ele !in M)
      && (before ==> SameAfter(M, ele, x.prefix, false))
      && (!before ==> SameAfter(M, ele, k, true))
      && (before && w.i < |ele| ==> SameBefore(M, ele, k))
      && (w.i == |ele| && (w.j == 0 || !x.iskey) ==> SameBefore(M, ele, x.prefix))
  {
    var x := H[w.h];
    var p, k := x.prefix, x.prefix + x.data;
    assert NodeOk(x);
    NodeKey(head, H, M, w.h);
    StopInside(head, H, ele, w);
    if w.i < |ele| { StopMiss(head, H, M, ele, w); }
    assert p <= ele && p <= k;
    forall m | m in M
      ensures var before := w.i == |ele| || ele[w.i] < x.data[w.j];
        && (before ==> (Less(ele, m) <==> Less(p, m)))
        && (!before ==> (Less(ele, m) <==> Follows(k, true, m)))
        && (before && w.i < |ele| ==> (Less(m, ele) <==> Less(m, k)))
        && (w.i == |ele| && (w.j == 0 || !x.iskey) ==> (Less(m, ele) <==> Less(m, p)))
    {
      if p <= m {
        Extends(p, m);
        if m == p {
          Extends(p, ele);
          Extends(p, k);
        } else {
          InsideEdge(head, H, M, ele, w, m);
          Extends(k, m);
        }
      } else {
        Outside(p, ele, m);
        Outside(p, k, m);
      }
    }
  }

  /** The greatest key under the node is the one below ele when ele leaves its edge upwards;
      the node's own key is when ele ends on its edge. */
  lemma StopBelow(head: RaxNode, H: Heap, M: map<Key, Value>, ele: Key, w: Stop, op: string, m: Key)
    requires Tree(head, H, {}, M) && StopOk(head, H, ele, w) && !w.inlineLeaf && H[w.h].iscompr
    requires CharAt(op, 0) == '<' && NotExact(M, op, ele)
    requires if w.i < |ele| then ele[w.i] > H[w.h].data[w.j] && LastUnder(M, H[w.h].prefix, m)
             else w.j > 0 && H[w.h].iskey && m == H[w.h].prefix
    ensures Target(M, op, ele, m)
  {
    var x := H[w.h];
    var p := x.prefix;
    assert NodeOk(x);
    NodeKey(head, H, M, w.h);
    StopInside(head, H, ele, w);
    Extends(p, ele);
    assert p != ele;
    if m != p { InsideEdge(head, H, M, ele, w, m); }
    forall m' | m' in M && Less(m', ele) ensures LessEq(m', m) {
      if p <= m' {
        if m' != p { InsideEdge(head, H, M, ele, w, m'); }
      } else {
        Outside(p, ele, m');
        LessBelowSubtree(m', p, m);
      }
    }
  }
}
