/** The iterator over a radix tree: seek, next and prev with an explicit stack. */
module RaxIter {
  import opened Basics
  import opened RaxKeys
  import opened RaxTheory
  import opened RaxReshape
  import opened RaxWalk
  import opened RaxPrune
  import opened RaxChain
  import opened RaxOrder
  import opened RaxSeek
  import opened Rax

  class RaxIterator {
    const rt: Rax
    var justSeeked: bool
    var eof: bool
    var inlineLeaf: bool
    var key: Key
    var keyLen: nat
    var data: Value
    var node: RaxNode?
    var nodeChild: int
    var stack: seq<RaxNode>
    var items: nat

    /** raxStart: at the end until the first seek. */
    constructor (rt: Rax)
      ensures this.rt == rt && eof && !justSeeked && keyLen == 0
    {
      this.rt := rt;
      justSeeked, eof, inlineLeaf := false, true, false;
      key, keyLen, data, node, nodeChild, stack, items := [], 0, 0, null, -1, [], 0;
    }

    /** The current key is a prefix of the key buffer. */
    function Current(): Key
      requires keyLen <= |key|
      reads this`key, this`keyLen
    {
      key[..keyLen]
    }

    /** The fields describe a node of the tree and the nodes above it. */
    ghost predicate Stands()
      reads this`key, this`keyLen, this`node, this`nodeChild, this`stack, this`items, this`inlineLeaf, rt`H, rt`head
    {
      && keyLen <= |key| && items <= |stack| && node != null && node in rt.H
      && StackOk(rt.head, rt.H, stack[..items], node) && NodeOk(rt.H[node])
    }

    /** On a node, with its path as the key. */
    ghost predicate Here()
      reads this`key, this`keyLen, this`node, this`nodeChild, this`stack, this`items, this`inlineLeaf, rt`H, rt`head
    {
      Stands() && !inlineLeaf && Current() == rt.H[node].prefix
    }

    /** The cached index is unknown or right. */
    ghost predicate AtNode()
      reads this`key, this`keyLen, this`node, this`nodeChild, this`stack, this`items, this`inlineLeaf, rt`H, rt`head
    {
      && Here()
      && (nodeChild == -1 || (items > 0 && SlotIs(rt.H, stack[items - 1], nodeChild, node)))
    }

    /** On the value stored in slot i of the node. */
    ghost predicate AtSlot(i: nat)
      reads this`key, this`keyLen, this`node, this`nodeChild, this`stack, this`items, this`inlineLeaf, rt`H, rt`head
    {
      && Stands() && inlineLeaf && i < |rt.H[node].slots| && rt.H[node].slots[i].Inline?
      && Current() == rt.H[node].At(i) && (nodeChild == -1 || nodeChild == i)
    }

    ghost predicate OnKey()
      reads this`key, this`keyLen, this`node, this`nodeChild, this`stack, this`items, this`inlineLeaf, this`data
      reads rt`H, rt`head, rt`contents
    {
      && (if inlineLeaf then exists i :: AtSlot(i) else AtNode() && rt.H[node].iskey)
      && Current() in rt.contents && data == rt.contents[Current()]
    }

    /** At the end, or on a key of the tree with its value. */
    ghost predicate Ready()
      reads this, rt, rt.H.Keys
    {
      rt.Valid() && keyLen <= |key| && (eof || OnKey())
    }

    /** About to look for a neighbour of t in the node. */
    ghost predicate Leaving(t: Key)
      reads this`key, this`keyLen, this`node, this`nodeChild, this`stack, this`items, this`inlineLeaf, rt`H, rt`head
    {
      && Stands() && !inlineLeaf && Tail(rt.H[node], t) && Current() == rt.H[node].prefix + t
      && HintFor(rt.H[node], t, nodeChild)
    }

    /** On a place just entered from above: a stored value, or a node that is a key or has children. */
    ghost predicate Entered()
      reads this`key, this`keyLen, this`node, this`nodeChild, this`stack, this`items, this`inlineLeaf, this`data
      reads rt`H, rt`head, rt`contents
    {
      && keyLen <= |key|
      && if inlineLeaf then
           OnKey() && FirstUnder(rt.contents, Current(), Current()) && LastUnder(rt.contents, Current(), Current())
         else
           AtNode() && (rt.H[node].slots == [] ==> rt.H[node].iskey) && (rt.H[node].iskey ==> OnKey())
    }

    /** raxIteratorAddChars; what was in the buffer past the key is lost. */
    method AddChars(s: Key)
      requires keyLen <= |key|
      modifies this`key, this`keyLen
      ensures keyLen == |key| && Current() == old(Current()) + s
    {
      key := key[..keyLen] + s;
      keyLen := |key|;
    }

    /** raxStackPush */
    method Push(n: RaxNode)
      requires items <= |stack|
      modifies this`stack, this`items
      ensures items == |stack| && stack[..items] == old(stack[..items]) + [n]
    {
      stack := stack[..items] + [n];
      items := |stack|;
    }

    /** What the fields of the slot below the node are: its edge, its inline value or its child. */
    method ReadSlot(i: nat) returns (edge: Key, isInline: bool, v: Value, child: RaxNode?)
      requires rt.Valid() && Here() && i < |rt.H[node].slots|
      ensures edge == rt.H[node].Label(i) && (isInline ==> rt.H[node].slots[i] == Inline(v))
      ensures !isInline ==> child != null && rt.H[node].slots[i] == Child(child) && child in rt.H
      ensures !isInline ==> v == if rt.H[child].iskey then rt.H[child].value else 0
    {
      assert node.Is(rt.H[node]);
      edge, isInline := if node.iscompr then node.data else [node.data[i]], node.IsInlineLeaf(i);
      child, v := null, 0;
      if isInline {
        v := node.slots[i].value;
      } else {
        child := node.slots[i].node;
        assert KidsIn(rt.H[node], rt.H);
        assert child.Is(rt.H[child]);
        if child.iskey { v := child.GetData(); }
      }
    }

    /** raxIteratorEnterChild: the slot below the node the iterator is on. */
    method EnterChild(i: nat)
      requires rt.Valid() && Here() && i < |rt.H[node].slots|
      modifies this`key, this`keyLen, this`stack, this`items, this`node, this`nodeChild, this`data, this`inlineLeaf
      ensures Entered() && Current() == old(rt.H[node].At(i)) && |Current()| > old(|Current()|)
    {
      hide Tree, StackOk, NodeOk, FirstUnder, LastUnder, Rax.Valid, Rax.Partial, Rax.Agrees;
      TreeFacts(node);
      EnterOk(rt.head, rt.H, rt.contents, stack[..items], node, i);
      var edge, isInline, v, child := ReadSlot(i);
      ghost var x, up := rt.H[node], stack[..items];
      if isInline {
        EnterInline(edge, i, v);
        assert AtSlot(i);
      } else {
        EnterNode(edge, i, v, child);
        assert SlotIs(rt.H, stack[items - 1], i, child);
      }
    }

    /** raxIteratorSetInlineLeaf, after the edge was appended to the key. */
    method EnterInline(edge: Key, i: nat, v: Value)
      requires keyLen <= |key|
      modifies this`key, this`keyLen, this`nodeChild, this`data, this`inlineLeaf
      ensures keyLen <= |key| && Current() == old(Current()) + edge && nodeChild == i && data == v && inlineLeaf
    {
      AddChars(edge);
      data, nodeChild, inlineLeaf := v, i, true;
    }

    method EnterNode(edge: Key, i: nat, v: Value, child: RaxNode)
      requires keyLen <= |key| && items <= |stack| && node != null
      modifies this`key, this`keyLen, this`stack, this`items, this`node, this`nodeChild, this`data
      ensures keyLen <= |key| && Current() == old(Current()) + edge && nodeChild == i && data == v && node == child
      ensures 0 < items <= |stack| && stack[..items] == old(stack[..items]) + [old(node)]
      ensures stack[items - 1] == old(node)
    {
      AddChars(edge);
      Push(node);
      node, nodeChild, data := child, i, v;
    }

    /** Always the first child until there is a key. */
    method FirstKey()
      requires rt.Valid() && Entered()
      modifies this`key, this`keyLen, this`stack, this`items, this`node, this`nodeChild, this`data, this`inlineLeaf
      ensures OnKey() && FirstUnder(rt.contents, old(Current()), Current())
    {
      ghost var q, M := Current(), rt.contents;
      ghost var b := SomeBound(rt.H);
      hide Tree, StackOk, FirstUnder, LastUnder;
      while true
        invariant rt.Valid() && Entered()
        invariant forall m :: FirstUnder(M, Current(), m) ==> FirstUnder(M, q, m)
        decreases b - keyLen
      {
        if inlineLeaf { return; }
        NodeFacts(node, b);
        if node.iskey { return; }
        FirstOf(rt.head, rt.H, M, node);
        EnterChild(0);
      }
    }

    /** Reading the node the iterator is on. */
    lemma NodeFacts(n: RaxNode, b: nat)
      requires rt.Valid() && n in rt.H && Bounded(rt.H, b)
      ensures n.Is(rt.H[n]) && NodeOk(rt.H[n]) && |rt.H[n].prefix| <= b
      ensures rt.H[n].iskey ==> FirstUnder(rt.contents, rt.H[n].prefix, rt.H[n].prefix)
    {
      if rt.H[n].iskey { FirstOfKey(rt.head, rt.H, rt.contents, n); }
    }

    /** Into the last child of the node, if there is one. */
    method EnterLast() returns (stop: bool)
      requires rt.Valid() && AtNode() && (rt.H[node].slots == [] ==> rt.H[node].iskey)
      modifies this`key, this`keyLen, this`stack, this`items, this`node, this`nodeChild, this`data, this`inlineLeaf
      ensures rt.Valid() && keyLen <= |key|
      ensures stop ==> LastUnder(rt.contents, old(Current()), Current())
      ensures stop ==> if inlineLeaf then OnKey() else AtNode() && rt.H[node].iskey
      ensures !stop ==> AtNode() && (rt.H[node].slots == [] ==> rt.H[node].iskey) && keyLen > old(keyLen)
      ensures !stop ==> forall m :: LastUnder(rt.contents, Current(), m) ==> LastUnder(rt.contents, old(Current()), m)
    {
      hide Tree, StackOk, FirstUnder, LastUnder;
      assert node.Is(rt.H[node]) && NodeOk(rt.H[node]);
      LastOf(rt.head, rt.H, rt.contents, node);
      if |node.data| == 0 { return true; }
      EnterChild(if node.iscompr then 0 else |node.data| - 1);
      stop := inlineLeaf;
    }

    /** raxSeekGreatest: always the last child. */
    method SeekGreatest()
      requires rt.Valid() && AtNode() && (rt.H[node].slots == [] ==> rt.H[node].iskey)
      modifies this`key, this`keyLen, this`stack, this`items, this`node, this`nodeChild, this`data, this`inlineLeaf
      ensures keyLen <= |key| && LastUnder(rt.contents, old(Current()), Current())
      ensures if inlineLeaf then OnKey() else AtNode() && rt.H[node].iskey
    {
      ghost var q, M := Current(), rt.contents;
      ghost var b := SomeBound(rt.H);
      hide Tree, StackOk, FirstUnder, LastUnder;
      var stop := false;
      while !stop
        invariant rt.Valid() && keyLen <= |key|
        invariant !stop ==> AtNode() && (rt.H[node].slots == [] ==> rt.H[node].iskey)
        invariant !stop ==> forall m :: LastUnder(M, Current(), m) ==> LastUnder(M, q, m)
        invariant stop ==> LastUnder(M, q, Current()) && if inlineLeaf then OnKey() else AtNode() && rt.H[node].iskey
        decreases !stop, b - keyLen
      {
        assert |rt.H[node].prefix| <= b;
        stop := EnterLast();
      }
    }

    // ---- Going up ---------------------------------------------------------------------

    /** raxStackPop: to the parent; the key still ends with the edge we came by. */
    method Pop() returns (ghost t: Key)
      requires rt.Valid() && AtNode() && node != rt.head
      modifies this`items, this`node, this`nodeChild
      ensures Leaving(t) && Current() == old(Current()) && nodeChild == -1 && items == old(items) - 1
      ensures HintFor(rt.H[node], t, old(nodeChild)) && (!rt.H[node].iscompr ==> t[0] in rt.H[node].data)
    {
      hide Tree, Shape, StackOk, NodeOk;
      t := PopPath(rt.head, rt.H, rt.contents, stack[..items], node, nodeChild);
      ghost var up := stack[..items];
      items := items - 1;
      node, nodeChild := stack[items], -1;
      assert stack[..items] == up[..items];
    }

    /** raxIteratorDelChars: the key without the edge we came by. */
    method DropEdge(ghost t: Key)
      requires rt.Valid() && Leaving(t)
      modifies this`keyLen
      ensures Here() && old(Current()) == Current() + t && keyLen < old(keyLen)
    {
      hide Tree, Shape, StackOk;
      assert node.Is(rt.H[node]) && NodeOk(rt.H[node]);
      ghost var k, n := rt.H[node].prefix, |rt.H[node].prefix|;
      assert (k + t)[..n] == k && key[..keyLen][..n] == key[..n];
      keyLen := keyLen - (if node.iscompr then |node.data| else 1);
    }

    /** One round of the way up: to the parent unless `noup`, and the key without the last edge. */
    method StepOut(noup: bool, ghost t0: Key) returns (prevchild: Byte, prevIdx: int, ghost t: Key)
      requires rt.Valid() && if noup then Leaving(t0) else AtNode() && node != rt.head
      modifies this`items, this`node, this`nodeChild, this`keyLen
      ensures Here() && old(Current()) == Current() + t && keyLen < old(keyLen)
      ensures Tail(rt.H[node], t) && HintFor(rt.H[node], t, prevIdx) && (!rt.H[node].iscompr ==> t == [prevchild])
      ensures noup ==> t == t0 && items == old(items) && nodeChild == old(nodeChild) && node == old(node)
      ensures !noup ==> nodeChild == -1 && items == old(items) - 1
      ensures !noup && !rt.H[node].iscompr ==> prevchild in rt.H[node].data
    {
      hide Tree, StackOk, NodeOk, Stands, Rax.Valid, Rax.Partial, Rax.Agrees;
      t, prevIdx := t0, nodeChild;
      if !noup { t := Pop(); }
      prevchild := LastByte(t);
      DropEdge(t);
    }

    method LastByte(ghost t: Key) returns (c: Byte)
      requires Leaving(t)
      ensures |t| > 0 && c == t[|t| - 1] && (|t| == 1 ==> t == [c])
    {
      assert |t| > 0;
      assert Current()[|rt.H[node].prefix + t| - 1] == t[|t| - 1];
      c := key[keyLen - 1];
    }

    /** The first byte of n after c. */
    method ScanLater(n: RaxNode, c: Byte) returns (i: nat)
      requires Sorted(n.data)
      ensures i <= |n.data| && forall u :: 0 <= u < |n.data| ==> (n.data[u] > c <==> u >= i)
    {
      i := 0;
      while i < |n.data|
        invariant i <= |n.data| && forall u :: 0 <= u < i ==> n.data[u] <= c
      {
        if n.data[i] > c { break; }
        i := i + 1;
      }
    }

    /** How many bytes of n are before c. */
    method ScanEarlier(n: RaxNode, c: Byte) returns (i: nat)
      requires Sorted(n.data)
      ensures i <= |n.data| && forall u :: 0 <= u < |n.data| ==> (n.data[u] < c <==> u < i)
    {
      i := |n.data|;
      while i > 0
        invariant i <= |n.data| && forall u :: i <= u < |n.data| ==> n.data[u] >= c
      {
        if n.data[i - 1] < c { break; }
        i := i - 1;
      }
    }

    /** The first child after the byte we come from. */
    method LaterEdge(prevchild: Byte, prevIdx: int, oldNoup: bool, ghost t: Key) returns (i: nat)
      requires rt.Valid() && Here() && Tail(rt.H[node], t) && HintFor(rt.H[node], t, prevIdx)
      requires !rt.H[node].iscompr ==> t == [prevchild] && (!oldNoup ==> prevchild in rt.H[node].data)
      ensures SlotAfter(rt.H[node], t, i)
    {
      hide Tree, StackOk;
      assert node.Is(rt.H[node]);
      if node.iscompr { return 1; }
      i := |node.data|;
      if |node.data| > if oldNoup then 0 else 1 {
        if prevIdx != -1 {
          i := prevIdx + 1;
        } else {
          i := ScanLater(node, prevchild);
        }
      }
    }

    /** How many children come before the byte we come from. */
    method EarlierEdges(prevchild: Byte, prevIdx: int, oldNoup: bool, ghost t: Key) returns (i: nat)
      requires rt.Valid() && Here() && Tail(rt.H[node], t) && HintFor(rt.H[node], t, prevIdx)
      requires !rt.H[node].iscompr ==> t == [prevchild] && (!oldNoup ==> prevchild in rt.H[node].data)
      ensures SlotsBefore(rt.H[node], t, i)
    {
      hide Tree, StackOk;
      assert node.Is(rt.H[node]);
      if node.iscompr { return 0; }
      i := 0;
      if |node.data| > if oldNoup then 0 else 1 {
        if prevIdx != -1 {
          i := prevIdx;
        } else {
          i := ScanEarlier(node, prevchild);
        }
      }
    }

    /** Out of the node or of its edge t0, and the next child there if there is one. */
    method FindLater(noup: bool, ghost t0: Key) returns (found: bool, i: nat)
      requires rt.Valid() && if noup then Leaving(t0) else AtNode() && node != rt.head
      modifies this`items, this`node, this`nodeChild, this`keyLen
      ensures Here() && keyLen < old(keyLen) && (!noup ==> nodeChild == -1)
      ensures found ==> i < |rt.H[node].slots|
      ensures found ==>
        forall m :: FirstUnder(rt.contents, rt.H[node].At(i), m) ==> NextOf(rt.contents, old(Current()), true, m)
      ensures !found ==> SameNext(rt.contents, old(Current()), Current())
    {
      hide Tree, StackOk, FirstUnder, NextOf, SameNext, Follows;
      var prevchild, prevIdx; ghost var t;
      prevchild, prevIdx, t := StepOut(noup, t0);
      i := LaterEdge(prevchild, prevIdx, noup, t);
      NextAround(rt.head, rt.H, rt.contents, node, t, i);
      assert node.Is(rt.H[node]) && NodeOk(rt.H[node]);
      found := i != (if node.iscompr then 1 else |node.data|);
    }

    /** One round of the inner loop of raxIteratorNextStep: up to the parent, then into its next child. */
    method NextRound(noup: bool, ghost t0: Key) returns (found: bool)
      requires rt.Valid() && if noup then Leaving(t0) else AtNode() && node != rt.head
      modifies this`key, this`keyLen, this`stack, this`items, this`node, this`nodeChild, this`data, this`inlineLeaf
      ensures rt.Valid() && keyLen <= |key|
      ensures found ==>
        Entered() && forall m :: FirstUnder(rt.contents, Current(), m) ==> NextOf(rt.contents, old(Current()), true, m)
      ensures !found ==> AtNode() && keyLen < old(keyLen) && key == old(key) && stack == old(stack)
      ensures !found ==> SameNext(rt.contents, old(Current()), Current())
    {
      hide Tree, StackOk, FirstUnder, NextOf, LastUnder, SameNext, Follows, NodeOk, Rax.Valid, Rax.Partial, Rax.Agrees;
      var i;
      found, i := FindLater(noup, t0);
      if found {
        EnterChild(i);
      } else if noup {
        nodeChild := -1;
      }
    }

    /** The inner loop: up until there is a later child. */
    method ClimbNext(noup0: bool, ghost t0: Key) returns (found: bool)
      requires rt.Valid() && if noup0 then Leaving(t0) else AtNode()
      modifies this`key, this`keyLen, this`stack, this`items, this`node, this`nodeChild, this`data, this`inlineLeaf
      ensures found ==>
        Entered() && forall m :: FirstUnder(rt.contents, Current(), m) ==> NextOf(rt.contents, old(Current()), true, m)
      ensures !found ==> !inlineLeaf && key == old(key) && stack == old(stack)
      ensures !found ==> forall m :: m in rt.contents ==> !Follows(old(Current()), true, m)
    {
      ghost var k0, M := Current(), rt.contents;
      hide Tree, StackOk, FirstUnder, NextOf, LastUnder, Follows;
      var noup := noup0;
      while noup || node != rt.head
        invariant rt.Valid() && keyLen <= |key| && key == old(key) && stack == old(stack)
        invariant if noup then Leaving(t0) else AtNode()
        invariant SameNext(M, k0, Current())
        decreases keyLen
      {
        ghost var k := Current();
        found := NextRound(noup, t0);
        if found {
          SameNextOf(M, k0, k);
          return;
        }
        noup := false;
        SameNextTrans(M, k0, k, Current());
      }
      found := false;
      NoneAfterHead(rt.head, rt.H, M, k0);
    }

    // ---- One step ------------------------------------------------------------------------

    /** Where a step can start: on a node, on a stored value, or next to the edge t of a node. */
    ghost predicate Placed(noup: bool, t: Key)
      reads this`key, this`keyLen, this`node, this`nodeChild, this`stack, this`items, this`inlineLeaf, rt`H, rt`head
    {
      if noup then Leaving(t) else if inlineLeaf then exists i :: AtSlot(i) else AtNode()
    }

    /** A stored value is left like an edge of its node. */
    method LeaveInline(noup0: bool, ghost t0: Key) returns (noup: bool, ghost t: Key)
      requires rt.Valid() && Placed(noup0, t0)
      modifies this`inlineLeaf
      ensures !inlineLeaf && noup == (noup0 || old(inlineLeaf)) && if noup then Leaving(t) else AtNode()
    {
      hide Rax.Valid, Rax.Partial, Rax.Agrees;
      noup, t := noup0, t0;
      if inlineLeaf {
        ghost var i :| AtSlot(i);
        t := rt.H[node].Label(i);
        LabelNonEmpty(rt.H[node], i);
        inlineLeaf, noup := false, true;
      }
    }

    /** The search of raxIteratorNextStep, without the flags. */
    method Advance(noup0: bool, ghost t0: Key) returns (found: bool)
      requires rt.Valid() && Placed(noup0, t0) && keyLen <= |key|
      modifies this`key, this`keyLen, this`stack, this`items, this`node, this`nodeChild, this`data, this`inlineLeaf
      ensures found ==> OnKey() && NextOf(rt.contents, old(Current()), noup0 || old(inlineLeaf), Current())
      ensures !found ==> key == old(key) && stack == old(stack)
      ensures !found ==> forall m :: m in rt.contents ==> !Follows(old(Current()), noup0 || old(inlineLeaf), m)
    {
      hide Tree, StackOk, NextOf, FirstUnder, LastUnder, Follows, Rax.Valid, Rax.Partial, Rax.Agrees;
      var noup; ghost var t;
      noup, t := LeaveInline(noup0, t0);
      TreeFacts(node);
      if !noup {
        StartHere(rt.head, rt.H, rt.contents, node);
        if node.iscompr || |node.data| > 0 {
          EnterChild(0);
          FirstKey();
          return true;
        }
      }
      found := ClimbNext(noup, t);
      if found { FirstKey(); }
    }

    /** The search, and back to where we were when it fails. */
    method AdvanceOrStay(noup: bool, ghost t: Key) returns (found: bool)
      requires rt.Valid() && Placed(noup, t) && keyLen <= |key|
      modifies this`key, this`keyLen, this`stack, this`items, this`node, this`nodeChild, this`data, this`inlineLeaf
      ensures keyLen <= |key|
      ensures found ==> OnKey() && NextOf(rt.contents, old(Current()), noup || old(inlineLeaf), Current())
      ensures !found ==> SamePlace()
      ensures !found ==> forall m :: m in rt.contents ==> !Follows(old(Current()), noup || old(inlineLeaf), m)
    {
      var len0, items0, node0, inline0, data0, child0 := keyLen, items, node, inlineLeaf, data, nodeChild;
      hide Tree, StackOk, NextOf, Follows, Placed, Rax.Valid, Rax.Partial, Rax.Agrees;
      found := Advance(noup, t);
      if !found {
        keyLen, items, node, inlineLeaf, data, nodeChild := len0, items0, node0, inline0, data0, child0;
      }
    }

    /** raxIteratorNextStep */
    method NextStep(noup: bool, ghost t: Key)
      requires rt.Valid() && (eof || justSeeked || Placed(noup, t)) && keyLen <= |key|
      modifies this
      ensures keyLen <= |key|
      ensures old(eof || justSeeked) ==> SamePlace() && eof == old(eof) && justSeeked == old(eof && justSeeked)
      ensures !old(eof || justSeeked) ==> !justSeeked
      ensures !old(eof || justSeeked) && !eof ==>
        OnKey() && NextOf(rt.contents, old(Current()), noup || old(inlineLeaf), Current())
      ensures !old(eof || justSeeked) && eof ==>
        SamePlace() && forall m :: m in rt.contents ==> !Follows(old(Current()), noup || old(inlineLeaf), m)
    {
      hide Tree, StackOk, NextOf, Follows, Placed, Stands, Rax.Valid, Rax.Partial, Rax.Agrees;
      if eof { return; }
      if justSeeked { justSeeked := false; return; }
      var found := AdvanceOrStay(noup, t);
      eof := !found;
    }

    // ---- One step back ---------------------------------------------------------------------

    /** Out of the node or of its edge t0, and the previous child there if there is one. */
    method FindEarlier(noup: bool, ghost t0: Key) returns (found: bool, i: nat)
      requires rt.Valid() && if noup then Leaving(t0) else AtNode() && node != rt.head
      modifies this`items, this`node, this`nodeChild, this`keyLen
      ensures Here() && keyLen < old(keyLen) && (!noup ==> nodeChild == -1)
      ensures found ==> i < |rt.H[node].slots|
      ensures found ==>
        forall m :: LastUnder(rt.contents, rt.H[node].At(i), m) ==> PrevOf(rt.contents, old(Current()), m)
      ensures !found ==> if rt.H[node].iskey then PrevOf(rt.contents, old(Current()), Current())
                         else SamePrev(rt.contents, old(Current()), Current())
    {
      hide Tree, StackOk, LastUnder, PrevOf, SamePrev;
      var prevchild, prevIdx; ghost var t;
      prevchild, prevIdx, t := StepOut(noup, t0);
      var n := EarlierEdges(prevchild, prevIdx, noup, t);
      PrevAround(rt.head, rt.H, rt.contents, node, t, n);
      found, i := n > 0, if n > 0 then n - 1 else 0;
    }

    /** The node the iterator stands on is its key. */
    method TakeNodeKey()
      requires rt.Valid() && AtNode() && rt.H[node].iskey
      modifies this`data
      ensures OnKey()
    {
      assert node.Is(rt.H[node]);
      NodeKey(rt.head, rt.H, rt.contents, node);
      data := node.GetData();
    }

    /** The cached index is forgotten. */
    method ForgetChild()
      requires if inlineLeaf then OnKey() else Here()
      modifies this`nodeChild
      ensures if inlineLeaf then OnKey() else AtNode()
    {
      if inlineLeaf {
        ghost var i :| AtSlot(i);
        nodeChild := -1;
        assert AtSlot(i);
      } else {
        nodeChild := -1;
      }
    }

    /** To the greatest key of child i. */
    method TakeGreatest(i: nat, noup: bool)
      requires rt.Valid() && Here() && i < |rt.H[node].slots|
      modifies this`key, this`keyLen, this`stack, this`items, this`node, this`nodeChild, this`data, this`inlineLeaf
      ensures OnKey() && LastUnder(rt.contents, old(rt.H[node].At(i)), Current())
    {
      hide Tree, StackOk, LastUnder, FirstUnder, NodeOk, Rax.Valid, Rax.Partial, Rax.Agrees;
      EnterChild(i);
      if inlineLeaf { return; }
      SeekGreatest();
      if noup { ForgetChild(); }
      if !inlineLeaf { TakeNodeKey(); }
    }

    /** One round of raxIteratorPrevStep. */
    method PrevRound(noup: bool, ghost t0: Key) returns (found: bool)
      requires rt.Valid() && if noup then Leaving(t0) else AtNode() && node != rt.head
      modifies this`key, this`keyLen, this`stack, this`items, this`node, this`nodeChild, this`data, this`inlineLeaf
      ensures rt.Valid() && keyLen <= |key|
      ensures found ==> OnKey() && PrevOf(rt.contents, old(Current()), Current())
      ensures !found ==> AtNode() && keyLen < old(keyLen) && key == old(key) && stack == old(stack)
      ensures !found ==> SamePrev(rt.contents, old(Current()), Current())
    {
      hide Tree, StackOk, LastUnder, PrevOf, SamePrev, NodeOk, Rax.Valid, Rax.Partial, Rax.Agrees;
      var i;
      found, i := FindEarlier(noup, t0);
      TreeFacts(node);
      if found {
        TakeGreatest(i, noup);
      } else {
        if noup { ForgetChild(); }
        if node.iskey {
          TakeNodeKey();
          found := true;
        }
      }
    }

    /** The search of raxIteratorPrevStep, without the flags. */
    method Retreat(noup0: bool, ghost t0: Key) returns (found: bool)
      requires rt.Valid() && Placed(noup0, t0) && keyLen <= |key|
      modifies this`key, this`keyLen, this`stack, this`items, this`node, this`nodeChild, this`data, this`inlineLeaf
      ensures keyLen <= |key|
      ensures found ==> OnKey() && PrevOf(rt.contents, old(Current()), Current())
      ensures !found ==> key == old(key) && stack == old(stack)
      ensures !found ==> forall m :: m in rt.contents ==> !Less(m, old(Current()))
    {
      hide Tree, StackOk, PrevOf, SamePrev;
      ghost var k0, M := Current(), rt.contents;
      var noup; ghost var t;
      noup, t := LeaveInline(noup0, t0);
      SamePrevRefl(M, k0);
      while noup || node != rt.head
        invariant rt.Valid() && keyLen <= |key| && key == old(key) && stack == old(stack)
        invariant if noup then Leaving(t) else AtNode()
        invariant SamePrev(M, k0, Current())
        decreases keyLen
      {
        ghost var k := Current();
        found := PrevRound(noup, t);
        if found {
          SamePrevOf(M, k0, k);
          return;
        }
        noup := false;
        SamePrevTrans(M, k0, k, Current());
      }
      found := false;
      NoneBeforeHead(rt.head, rt.H, M, k0);
    }

    method RetreatOrStay(noup: bool, ghost t: Key) returns (found: bool)
      requires rt.Valid() && Placed(noup, t) && keyLen <= |key|
      modifies this`key, this`keyLen, this`stack, this`items, this`node, this`nodeChild, this`data, this`inlineLeaf
      ensures keyLen <= |key|
      ensures found ==> OnKey() && PrevOf(rt.contents, old(Current()), Current())
      ensures !found ==> SamePlace() && forall m :: m in rt.contents ==> !Less(m, old(Current()))
    {
      var len0, items0, node0, inline0, data0, child0 := keyLen, items, node, inlineLeaf, data, nodeChild;
      hide Tree, StackOk, PrevOf, Placed, Rax.Valid, Rax.Partial, Rax.Agrees;
      found := Retreat(noup, t);
      if !found {
        keyLen, items, node, inlineLeaf, data, nodeChild := len0, items0, node0, inline0, data0, child0;
      }
    }

    /** raxIteratorPrevStep */
    method PrevStep(noup: bool, ghost t: Key)
      requires rt.Valid() && (eof || justSeeked || Placed(noup, t)) && keyLen <= |key|
      modifies this
      ensures keyLen <= |key|
      ensures old(eof || justSeeked) ==> SamePlace() && eof == old(eof) && justSeeked == old(eof && justSeeked)
      ensures !old(eof || justSeeked) ==> !justSeeked
      ensures !old(eof || justSeeked) && !eof ==> OnKey() && PrevOf(rt.contents, old(Current()), Current())
      ensures !old(eof || justSeeked) && eof ==>
        SamePlace() && forall m :: m in rt.contents ==> !Less(m, old(Current()))
    {
      hide Tree, StackOk, PrevOf, Placed, Stands, Rax.Valid, Rax.Partial, Rax.Agrees;
      if eof { return; }
      if justSeeked { justSeeked := false; return; }
      var found := RetreatOrStay(noup, t);
      eof := !found;
    }

    twostate lemma StillOnKey()
      requires SamePlace() && old(OnKey()) && rt.H == old(rt.H) && rt.head == old(rt.head)
      requires rt.contents == old(rt.contents)
      ensures OnKey()
    {
      if inlineLeaf {
        var i :| old(AtSlot(i));
        assert AtSlot(i);
      }
    }

    /** What the tree's invariant says about its nodes. */
    lemma TreeFacts(n: RaxNode)
      requires rt.Valid()
      ensures Tree(rt.head, rt.H, {}, rt.contents) && Shape(rt.head, rt.H) && rt.Agrees()
      ensures n in rt.H ==> NodeOk(rt.H[n]) && n.Is(rt.H[n])
    {
    }

    /** A stored value has nothing below it. */
    lemma InlineNext(i: nat)
      requires rt.Valid() && AtSlot(i)
      ensures forall m :: m in rt.contents ==> (Follows(Current(), true, m) <==> Follows(Current(), false, m))
    {
      UnderInline(rt.head, rt.H, rt.contents, node, i);
      forall m | m in rt.contents && Current() <= m ensures !Less(Current(), m) {
        LessIrreflexive(m);
        if Less(Current(), m) { LessAsymmetric(Current(), m); }
      }
    }

    /** raxNext: to the least greater key, or to the end; the first call after a seek stays. */
    method Next() returns (ok: bool)
      requires Ready()
      modifies this
      ensures Ready() && ok == !eof && (old(eof) ==> eof) && keyLen <= |key|
      ensures ok ==> Current() in rt.contents && data == rt.contents[Current()]
      ensures !old(eof) && old(justSeeked) ==> ok && !justSeeked && SamePlace()
      ensures !old(eof) && !old(justSeeked) && ok ==>
        !justSeeked && NextOf(rt.contents, old(Current()), false, Current())
      ensures !old(eof) && !old(justSeeked) && !ok ==>
        SamePlace() && forall m :: m in rt.contents ==> !Less(old(Current()), m)
    {
      hide Tree, StackOk;
      if !eof && inlineLeaf {
        ghost var i :| AtSlot(i);
        InlineNext(i);
      }
      NextStep(false, []);
      if old(!eof && justSeeked) { StillOnKey(); }
      ok := !eof;
    }

    /** raxPrev: to the greatest smaller key, or to the end; the first call after a seek stays. */
    method Prev() returns (ok: bool)
      requires Ready()
      modifies this
      ensures Ready() && ok == !eof && (old(eof) ==> eof) && keyLen <= |key|
      ensures ok ==> Current() in rt.contents && data == rt.contents[Current()]
      ensures !old(eof) && old(justSeeked) ==> ok && !justSeeked && SamePlace()
      ensures !old(eof) && !old(justSeeked) && ok ==> !justSeeked && PrevOf(rt.contents, old(Current()), Current())
      ensures !old(eof) && !old(justSeeked) && !ok ==>
        SamePlace() && forall m :: m in rt.contents ==> !Less(m, old(Current()))
    {
      hide Tree, StackOk, PrevOf;
      PrevStep(false, []);
      if old(!eof && justSeeked) { StillOnKey(); }
      ok := !eof;
    }

    // ---- Seeking ------------------------------------------------------------------------------

    /** The seek ended at its target, or at the end when there is none. */
    ghost predicate Sought(op: string, ele: Key)
      reads this, rt, rt.H.Keys
    {
      && Ready() && justSeeked
      && (eof ==> forall m :: m in rt.contents ==> !Wanted(op, ele, m))
      && (!eof ==> Target(rt.contents, op, ele, Current()))
    }

    /** A step forward from a place after which the same keys come as after ele. */
    method SeekForward(op: string, ele: Key, noup: bool, ghost t: Key)
      requires rt.Valid() && keyLen <= |key| && Placed(noup, t) && !eof
      requires CharAt(op, 0) == '>' && NotExact(rt.contents, op, ele)
      requires SameAfter(rt.contents, ele, Current(), noup || inlineLeaf)
      modifies this
      ensures Sought(op, ele)
    {
      hide Tree, StackOk, Placed, Stands, SameAfter, NextOf, Follows, Wanted, Target;
      hide Rax.Valid, Rax.Partial, Rax.Agrees;
      SeekUp(rt.contents, op, ele, Current(), noup || inlineLeaf);
      justSeeked := false;
      NextStep(noup, t);
      justSeeked := true;
    }

    method SeekBackward(op: string, ele: Key, noup: bool, ghost t: Key)
      requires rt.Valid() && keyLen <= |key| && Placed(noup, t) && !eof
      requires CharAt(op, 0) == '<' && NotExact(rt.contents, op, ele)
      requires SameBefore(rt.contents, ele, Current())
      modifies this
      ensures Sought(op, ele)
    {
      hide Tree, StackOk, Placed, Stands, SameBefore, PrevOf, Wanted, Target, Rax.Valid, Rax.Partial, Rax.Agrees;
      SeekDown(rt.contents, op, ele, Current());
      justSeeked := false;
      PrevStep(noup, t);
      justSeeked := true;
    }

    /** The slot that leads to the child, and the bytes on the edge of a compressed node. */
    lemma EdgeFacts(parent: RaxNode, child: RaxNode) returns (j: nat)
      requires rt.Valid() && StepTo(rt.H, parent, child)
      ensures parent in rt.H && child in rt.H && j < |parent.slots| && parent.slots[j] == Child(child)
      ensures parent.iscompr ==> rt.H[child].prefix == rt.H[parent].prefix + parent.data
    {
      TreeFacts(parent);
      j :| j < |rt.H[parent].slots| && rt.H[parent].slots[j] == Child(child);
      hide Rax.Valid, Tree, Shape;
      ChildAt(rt.head, rt.H, parent, j);
    }

    lemma EdgeByte(parent: RaxNode, child: RaxNode, k: nat)
      requires rt.Valid() && parent in rt.H && k < |parent.slots| && parent.slots[k] == Child(child) && !parent.iscompr
      ensures k < |parent.data| && child in rt.H && rt.H[child].prefix == rt.H[parent].prefix + [parent.data[k]]
    {
      TreeFacts(parent);
      hide Rax.Valid, Tree, Shape;
      ChildAt(rt.head, rt.H, parent, k);
    }

    /** The byte on the edge of a plain node that leads to the child. */
    method EdgeTo(parent: RaxNode, child: RaxNode) returns (edge: Key)
      requires rt.Valid() && StepTo(rt.H, parent, child)
      ensures parent in rt.H && child in rt.H && rt.H[child].prefix == rt.H[parent].prefix + edge
    {
      hide *;
      ghost var j := EdgeFacts(parent, child);
      if parent.iscompr { return parent.data; }
      var k := 0;
      while parent.slots[k] != Child(child)
        invariant k <= j
        decreases j - k
      {
        k := k + 1;
      }
      EdgeByte(parent, child, k);
      return [parent.data[k]];
    }

    /** The key of the node, put together along the stack from the head down. */
    method RebuildKey()
      requires rt.Valid() && Stands() && !inlineLeaf && keyLen == 0 && nodeChild == -1
      modifies this`key, this`keyLen, this`stack, this`items
      ensures AtNode()
    {
      hide Tree, Shape, NodeOk, Rax.Valid, Rax.Partial, Rax.Agrees;
      TreeFacts(node);
      ghost var up := stack[..items];
      HeadPath(rt.head, rt.H, rt.contents, up, node);
      Push(node);
      var j := 1;
      while j < items
        invariant 1 <= j <= items == |up| + 1 && items <= |stack| && stack[..items] == up + [node]
        invariant keyLen <= |key| && stack[j - 1] in rt.H && Current() == rt.H[stack[j - 1]].prefix
      {
        StackStep(rt.head, rt.H, up, node, j);
        assert stack[j - 1] == stack[..items][j - 1] && stack[j] == stack[..items][j];
        var edge := EdgeTo(stack[j - 1], stack[j]);
        AddChars(edge);
        j := j + 1;
      }
      items := items - 1;
      assert stack[items] == (up + [node])[items] && stack[..items] == (up + [node])[..items] == up;
    }

    /** On the stored value where the walk stopped. */
    method PlaceInline(ele: Key, w: Stop)
      requires rt.Valid() && StopOk(rt.head, rt.H, ele, w) && w.inlineLeaf && At(w)
      modifies this`key, this`keyLen, this`data, this`nodeChild, this`inlineLeaf
      ensures keyLen <= |key| && OnKey() && inlineLeaf && Current() == ele[..w.i]
    {
      hide Tree, StackOk, Rax.Valid, Rax.Partial, Rax.Agrees;
      TreeFacts(node);
      StopValue(rt.head, rt.H, rt.contents, ele, w);
      assert w.h.Is(rt.H[w.h]);
      AddChars(ele[..w.i]);
      data, nodeChild, inlineLeaf := w.h.slots[w.link.idx].value, w.link.idx, true;
      assert AtSlot(w.link.idx);
    }

    /** The walk stopped in front of a stored value. */
    method SeekAtInline(op: string, ele: Key, w: Stop)
      requires rt.Valid() && StopOk(rt.head, rt.H, ele, w) && w.inlineLeaf && At(w) && CharAt(op, 0) in {'>', '<', '='}
      modifies this
      ensures Sought(op, ele)
    {
      hide Tree, StackOk, Target, Wanted, StopOk, Stands, SameAfter, SameBefore;
      InlineTargets(rt.head, rt.H, rt.contents, ele, w, op);
      PlaceInline(ele, w);
      var eq := CharAt(op, 0) == '=' || CharAt(op, 1) == '=';
      if eq && w.i == |ele| { return; }
      if CharAt(op, 0) == '=' {
        eof := true;
      } else if CharAt(op, 0) == '>' {
        SeekForward(op, ele, false, []);
      } else if w.i == |ele| {
        SeekBackward(op, ele, false, []);
      }
    }

    /** No edge of a plain node goes on: from beside the missing edge. */
    method SeekBeside(op: string, ele: Key, w: Stop)
      requires rt.Valid() && StopOk(rt.head, rt.H, ele, w) && !w.inlineLeaf && AtNode() && node == w.h
      requires nodeChild == -1
      requires !rt.H[node].iscompr && w.i < |ele| && !eof && CharAt(op, 0) in {'>', '<'}
      modifies this
      ensures Sought(op, ele)
    {
      hide Tree, StackOk, StopOk, SameAfter, SameBefore;
      ghost var t := [ele[w.i]];
      StopAtPlain(rt.head, rt.H, rt.contents, ele, w);
      AddChars([ele[w.i]]);
      assert Leaving(t);
      if CharAt(op, 0) == '<' { SeekBackward(op, ele, true, t); } else { SeekForward(op, ele, true, t); }
    }

    /** The key leaves the edge of a compressed node. */
    method SeekOffEdge(op: string, ele: Key, w: Stop)
      requires rt.Valid() && StopOk(rt.head, rt.H, ele, w) && !w.inlineLeaf && AtNode() && node == w.h
      requires nodeChild == -1
      requires rt.H[node].iscompr && w.i < |ele| && !eof && CharAt(op, 0) in {'>', '<'}
      modifies this
      ensures Sought(op, ele)
    {
      hide Tree, StackOk, SameAfter, SameBefore, Target, LastUnder, Wanted;
      assert node.Is(rt.H[node]);
      StopInCompressed(rt.head, rt.H, rt.contents, ele, w);
      var nodechar, keychar := node.data[w.j], ele[w.i];
      if CharAt(op, 0) == '>' && nodechar > keychar {
        SeekForward(op, ele, false, []);
      } else if CharAt(op, 0) == '<' && nodechar < keychar {
        SeekBelowEdge(op, ele, w);
      } else {
        ghost var t := rt.H[node].data;
        AddChars(node.data);
        assert Leaving(t);
        if CharAt(op, 0) == '>' { SeekForward(op, ele, true, t); } else { SeekBackward(op, ele, true, t); }
      }
    }

    method SeekBelowEdge(op: string, ele: Key, w: Stop)
      requires rt.Valid() && StopOk(rt.head, rt.H, ele, w) && !w.inlineLeaf && AtNode() && node == w.h
      requires rt.H[node].iscompr && w.i < |ele| && ele[w.i] > rt.H[node].data[w.j] && !eof
      requires CharAt(op, 0) == '<' && NotExact(rt.contents, op, ele)
      modifies this
      ensures Sought(op, ele)
    {
      hide Tree, StackOk, Target, LastUnder, Wanted, StopOk, Rax.Valid, Rax.Partial, Rax.Agrees;
      TreeFacts(node);
      SeekGreatest();
      StopBelow(rt.head, rt.H, rt.contents, ele, w, op, Current());
      if !inlineLeaf { TakeNodeKey(); }
      justSeeked := true;
    }

    /** The key ends at the node or on its edge. */
    method SeekAtEnd(op: string, ele: Key, w: Stop)
      requires rt.Valid() && StopOk(rt.head, rt.H, ele, w) && !w.inlineLeaf && AtNode() && node == w.h
      requires w.i == |ele| && !eof && CharAt(op, 0) in {'>', '<'} && NotExact(rt.contents, op, ele)
      modifies this
      ensures Sought(op, ele)
    {
      hide Tree, StackOk, SameAfter, SameBefore, Target, Wanted, StopOk;
      assert node.Is(rt.H[node]);
      StopAtEnd(rt.head, rt.H, rt.contents, ele, w);
      if node.iscompr && node.iskey && w.j != 0 && CharAt(op, 0) == '<' {
        SeekOwnKey(op, ele, w);
      } else if CharAt(op, 0) == '>' {
        SeekForward(op, ele, false, []);
      } else {
        SeekBackward(op, ele, false, []);
      }
    }

    /** The node is the key before an element that ends on its edge. */
    method SeekOwnKey(op: string, ele: Key, w: Stop)
      requires rt.Valid() && StopOk(rt.head, rt.H, ele, w) && !w.inlineLeaf && AtNode() && node == w.h
      requires w.i == |ele| && !eof && CharAt(op, 0) == '<' && NotExact(rt.contents, op, ele)
      requires rt.H[node].iscompr && rt.H[node].iskey && w.j > 0
      modifies this`data, this`justSeeked
      ensures Sought(op, ele)
    {
      hide Tree, StackOk, Target, Wanted, StopOk;
      StopBelow(rt.head, rt.H, rt.contents, ele, w, op, Current());
      TakeNodeKey();
      justSeeked := true;
    }

    /** The walk stopped at a node. */
    method SeekAtNode(op: string, ele: Key, w: Stop)
      requires rt.Valid() && StopOk(rt.head, rt.H, ele, w) && !w.inlineLeaf && At(w) && CharAt(op, 0) in {'>', '<', '='}
      modifies this
      ensures Sought(op, ele)
    {
      hide Tree, SameAfter, SameBefore, Target, Wanted, NodeOk, Rax.Valid, Rax.Partial, Rax.Agrees;
      TreeFacts(node);
      NodeTargets(rt.head, rt.H, rt.contents, ele, w, op);
      var eq := CharAt(op, 0) == '=' || CharAt(op, 1) == '=';
      if eq && w.i == |ele| && (!node.iscompr || w.j == 0) && node.iskey {
        AddChars(ele);
        TakeNodeKey();
      } else if CharAt(op, 0) == '=' {
        eof := true;
      } else {
        RebuildKey();
        if w.i == |ele| {
          SeekAtEnd(op, ele, w);
        } else if node.iscompr {
          SeekOffEdge(op, ele, w);
        } else {
          SeekBeside(op, ele, w);
        }
      }
    }

    lemma SoughtNothing(op: string, ele: Key)
      requires rt.Valid() && rt.numele == 0 && eof && justSeeked && keyLen <= |key|
      ensures Sought(op, ele)
    {
      assert rt.contents.Keys == {};
      hide Rax.Valid, Wanted, Target;
    }

    lemma SoughtFirst(op: string, ele: Key)
      requires CharAt(op, 0) == '^' && Sought(">=", [])
      ensures Sought(op, ele)
    {
      FirstTarget(rt.contents, op, ele);
      hide Rax.Valid, Wanted, Target, RaxIterator.OnKey;
    }

    /** raxSeek; false for an unknown operator. */
    method Seek(op: string, ele: Key) returns (ok: bool)
      requires rt.Valid()
      modifies this
      ensures ok == KnownOp(op) && (ok ==> Sought(op, ele))
      decreases CharAt(op, 0) == '^'
    {
      hide *;
      items, justSeeked, eof, inlineLeaf, keyLen, node, nodeChild := 0, true, false, false, 0, null, -1;
      Operators(op);
      if !KnownOp(op) { return false; }
      if rt.numele == 0 {
        eof := true;
        SoughtNothing(op, ele);
        return true;
      }
      if CharAt(op, 0) == '^' {
        ok := Seek(">=", []);
        SoughtFirst(op, ele);
        return;
      }
      if CharAt(op, 0) == '$' {
        SeekLast(op, ele);
        return true;
      }
      SeekKey(op, ele);
      return true;
    }

    /** A lookup, and one step from where it stops. */
    method SeekKey(op: string, ele: Key)
      requires rt.Valid() && CharAt(op, 0) in {'>', '<', '='}
      requires items == 0 && justSeeked && !eof && !inlineLeaf && keyLen == 0 && nodeChild == -1
      modifies this
      ensures Sought(op, ele)
    {
      hide Tree, Target, Wanted, Shape, Rax.Valid, Rax.Partial, Rax.Agrees;
      TreeFacts(rt.head);
      var w := rt.LowWalk(ele);
      node, stack, items := w.h, w.stack, |w.stack|;
      assert w.stack[..|w.stack|] == w.stack;
      TreeFacts(w.h);
      if w.inlineLeaf { SeekAtInline(op, ele, w); } else { SeekAtNode(op, ele, w); }
    }

    method SeekLast(op: string, ele: Key)
      requires rt.Valid() && rt.numele > 0 && CharAt(op, 0) == '$'
      requires items == 0 && justSeeked && !eof && !inlineLeaf && keyLen == 0 && nodeChild == -1
      modifies this
      ensures Sought(op, ele)
    {
      hide Tree, Shape, LastUnder, Rax.Valid, Rax.Partial, Rax.Agrees, Target, Wanted;
      TreeFacts(rt.head);
      node := rt.head;
      HeadFacts(rt.head, rt.H, rt.contents);
      NotEmpty();
      SeekGreatest();
      LastTarget(rt.contents, op, ele, Current());
      if !inlineLeaf { TakeNodeKey(); }
    }

    lemma NotEmpty()
      requires rt.Valid() && rt.numele > 0
      ensures rt.H[rt.head].slots == [] ==> rt.H[rt.head].iskey
    {
      EmptyTree(rt.head, rt.H, rt.contents);
      HasKeys(rt.contents);
    }

    /** Where raxLowWalk leaves the iterator. */
    ghost predicate At(w: Stop)
      reads this, rt
    {
      && Stands() && node == w.h && items <= |stack| && stack[..items] == w.stack && keyLen == 0 && nodeChild == -1
      && !eof && !inlineLeaf && justSeeked
    }

    /** Nothing moved. */
    twostate predicate SamePlace()
      reads this
    {
      && keyLen == old(keyLen) && items == old(items) && node == old(node) && inlineLeaf == old(inlineLeaf)
      && data == old(data) && nodeChild == old(nodeChild) && key == old(key) && stack == old(stack)
    }
  }

  /** The same keys come before k and k'. */
  ghost predicate SamePrev(M: map<Key, Value>, k: Key, k': Key) {
    forall m {:trigger m in M} :: m in M ==> (Less(m, k) <==> Less(m, k'))
  }

  lemma SamePrevTrans(M: map<Key, Value>, a: Key, b: Key, c: Key)
    requires SamePrev(M, a, b) && SamePrev(M, b, c)
    ensures SamePrev(M, a, c)
  {
  }

  lemma SamePrevRefl(M: map<Key, Value>, k: Key)
    ensures SamePrev(M, k, k)
  {
  }

  lemma SamePrevOf(M: map<Key, Value>, k: Key, k': Key)
    requires SamePrev(M, k, k')
    ensures forall m :: PrevOf(M, k', m) ==> PrevOf(M, k, m)
  {
  }

  lemma NoneBeforeHead(head: RaxNode, H: Heap, M: map<Key, Value>, k: Key)
    requires Tree(head, H, {}, M) && SamePrev(M, k, H[head].prefix)
    ensures forall m :: m in M ==> !Less(m, k)
  {
  }

  /** What the slots before t of the node h say about the previous key. */
  lemma PrevAround(head: RaxNode, H: Heap, M: map<Key, Value>, h: RaxNode, t: Key, n: nat)
    requires Tree(head, H, {}, M) && h in H && SlotsBefore(H[h], t, n)
    ensures n > 0 ==> forall m :: LastUnder(M, H[h].At(n - 1), m) ==> PrevOf(M, H[h].prefix + t, m)
    ensures n == 0 ==>
      if H[h].iskey then PrevOf(M, H[h].prefix + t, H[h].prefix) else SamePrev(M, H[h].prefix + t, H[h].prefix)
  {
    if n > 0 {
      forall m | LastUnder(M, H[h].At(n - 1), m)
        ensures PrevOf(M, H[h].prefix + t, m)
      {
        PrevInNode(head, H, M, h, t, n, m);
      }
    } else {
      PrevPastNode(head, H, M, h, t);
    }
  }

  lemma StopValue(head: RaxNode, H: Heap, M: map<Key, Value>, ele: Key, w: Stop)
    requires Tree(head, H, {}, M) && StopOk(head, H, ele, w) && w.inlineLeaf
    ensures w.h in H && NodeOk(H[w.h]) && StackOk(head, H, w.stack, w.h)
    ensures w.link.SlotLink? && w.link.node == w.h && w.link.idx < |H[w.h].slots|
    ensures w.i <= |ele| && H[w.h].At(w.link.idx) == ele[..w.i]
    ensures H[w.h].slots[w.link.idx].Inline? && ele[..w.i] in M && M[ele[..w.i]] == H[w.h].slots[w.link.idx].value
  {
    InlineKey(H, M, w.h, w.link.idx);
  }

  /** What the walk's stop in front of a stored value means for each operator. */
  lemma InlineTargets(head: RaxNode, H: Heap, M: map<Key, Value>, ele: Key, w: Stop, op: string)
    requires Tree(head, H, {}, M) && StopOk(head, H, ele, w) && w.inlineLeaf && CharAt(op, 0) in {'>', '<', '='}
    ensures w.i <= |ele|
    ensures var k := ele[..w.i]; var eq := CharAt(op, 0) == '=' || CharAt(op, 1) == '=';
      && (eq && w.i == |ele| ==> Target(M, op, ele, k))
      && (w.i < |ele| ==> NotExact(M, op, ele) && SameAfter(M, ele, k, true))
      && (w.i == |ele| ==> SameAfter(M, ele, k, true) && SameBefore(M, ele, k))
      && (w.i < |ele| && CharAt(op, 0) == '=' ==> forall m :: m in M ==> !Wanted(op, ele, m))
      && (w.i < |ele| && CharAt(op, 0) == '<' ==> Target(M, op, ele, k))
  {
    var k := ele[..w.i];
    StopValue(head, H, M, ele, w);
    if w.i == |ele| {
      assert k == ele;
      UnderInline(head, H, M, w.h, w.link.idx);
      forall m | m in M && k <= m ensures m == k {
        LessTotal(m, k);
        Extends(k, m);
      }
      Extends(k, k);
    } else {
      StopAtInline(head, H, M, ele, w);
    }
  }

  lemma Operators(op: string)
    ensures KnownOp(op) ==> CharAt(op, 0) in {'>', '<', '=', '^', '$'}
    ensures KnownOp(">=") && CharAt(">=", 0) == '>'
  {
  }

  lemma FirstTarget(M: map<Key, Value>, op: string, ele: Key)
    requires CharAt(op, 0) == '^'
    ensures forall m :: Target(M, ">=", [], m) ==> Target(M, op, ele, m)
    ensures forall m :: Wanted(">=", [], m)
  {
  }

  lemma LastTarget(M: map<Key, Value>, op: string, ele: Key, m: Key)
    requires CharAt(op, 0) == '$' && LastUnder(M, [], m)
    ensures Target(M, op, ele, m)
  {
  }

  lemma HasKeys(M: map<Key, Value>)
    requires |M| > 0
    ensures M != map[]
  {
  }

  lemma HeadFacts(head: RaxNode, H: Heap, M: map<Key, Value>)
    requires Tree(head, H, {}, M)
    ensures head in H && H[head].prefix == [] && NodeOk(H[head]) && StackOk(head, H, [], head)
  {
  }

  /** The key ends at the node, or on its edge when the node is compressed. */
  lemma StopAtEnd(head: RaxNode, H: Heap, M: map<Key, Value>, ele: Key, w: Stop)
    requires Tree(head, H, {}, M) && StopOk(head, H, ele, w) && !w.inlineLeaf && w.i == |ele|
    ensures SameAfter(M, ele, H[w.h].prefix, false)
    ensures !H[w.h].iscompr || w.j == 0 || !H[w.h].iskey ==> SameBefore(M, ele, H[w.h].prefix)
  {
    if H[w.h].iscompr {
      StopInCompressed(head, H, M, ele, w);
    } else {
      assert H[w.h].prefix == ele;
    }
  }

  /** The key itself: where the walk stopped, if anywhere. */
  lemma NodeTargets(head: RaxNode, H: Heap, M: map<Key, Value>, ele: Key, w: Stop, op: string)
    requires Tree(head, H, {}, M) && StopOk(head, H, ele, w) && !w.inlineLeaf && CharAt(op, 0) in {'>', '<', '='}
    ensures var x := H[w.h]; var eq := CharAt(op, 0) == '=' || CharAt(op, 1) == '=';
      if eq && w.i == |ele| && (!x.iscompr || w.j == 0) && x.iskey then
        x.prefix == ele && Target(M, op, ele, ele)
      else
        && (eq ==> ele !in M)
        && (CharAt(op, 0) == '=' ==> forall m :: m in M ==> !Wanted(op, ele, m))
        && NotExact(M, op, ele)
  {
    if AtKey(ele, w, H[w.h].iscompr) {
      StopHit(head, H, M, ele, w);
    } else {
      StopMiss(head, H, M, ele, w);
    }
  }

  /** The stack of a node starts at the head. */
  lemma HeadPath(head: RaxNode, H: Heap, M: map<Key, Value>, up: seq<RaxNode>, n: RaxNode)
    requires Tree(head, H, {}, M) && n in H && StackOk(head, H, up, n)
    ensures (up + [n])[0] == head && head in H && H[head].prefix == []
  {
  }

  lemma StackStep(head: RaxNode, H: Heap, up: seq<RaxNode>, n: RaxNode, j: nat)
    requires StackOk(head, H, up, n) && 1 <= j <= |up|
    ensures StepTo(H, (up + [n])[j - 1], (up + [n])[j])
  {
  }

  /** How a step forward starts on the node h: into its first child, or beyond it. */
  lemma StartHere(head: RaxNode, H: Heap, M: map<Key, Value>, h: RaxNode)
    requires Tree(head, H, {}, M) && h in H
    ensures H[h].slots != [] ==> forall m :: FirstUnder(M, H[h].At(0), m) ==> NextOf(M, H[h].prefix, false, m)
    ensures H[h].slots == [] ==> forall m :: NextOf(M, H[h].prefix, true, m) ==> NextOf(M, H[h].prefix, false, m)
    ensures H[h].slots == [] ==>
      forall m :: m in M ==> (Follows(H[h].prefix, false, m) <==> Follows(H[h].prefix, true, m))
  {
    if H[h].slots != [] {
      forall m | FirstUnder(M, H[h].At(0), m) ensures NextOf(M, H[h].prefix, false, m) { FirstBelow(head, H, M, h, m); }
    } else {
      forall m | m in M ensures Follows(H[h].prefix, false, m) <==> Follows(H[h].prefix, true, m) {
        NothingBelow(head, H, M, h, m);
      }
    }
  }

  /** The same keys come after k and after k', not counting their extensions. */
  ghost predicate SameNext(M: map<Key, Value>, k: Key, k': Key) {
    forall m {:trigger m in M} :: m in M ==> (Follows(k, true, m) <==> Follows(k', true, m))
  }

  lemma SameNextTrans(M: map<Key, Value>, a: Key, b: Key, c: Key)
    requires SameNext(M, a, b) && SameNext(M, b, c)
    ensures SameNext(M, a, c)
  {
  }

  lemma SameNextOf(M: map<Key, Value>, k: Key, k': Key)
    requires SameNext(M, k, k')
    ensures forall m :: NextOf(M, k', true, m) ==> NextOf(M, k, true, m)
  {
  }

  lemma NoneAfterHead(head: RaxNode, H: Heap, M: map<Key, Value>, k: Key)
    requires Tree(head, H, {}, M) && SameNext(M, k, H[head].prefix)
    ensures forall m :: m in M ==> !Follows(k, true, m)
  {
  }

  /** What slot i after t of the node h, or its absence, says about the next key. */
  lemma NextAround(head: RaxNode, H: Heap, M: map<Key, Value>, h: RaxNode, t: Key, i: nat)
    requires Tree(head, H, {}, M) && h in H && SlotAfter(H[h], t, i)
    ensures i < |H[h].slots| ==> forall m :: FirstUnder(M, H[h].At(i), m) ==> NextOf(M, H[h].prefix + t, true, m)
    ensures i == |H[h].slots| ==> SameNext(M, H[h].prefix + t, H[h].prefix)
  {
    if i < |H[h].slots| {
      forall m | FirstUnder(M, H[h].At(i), m)
        ensures NextOf(M, H[h].prefix + t, true, m)
      {
        NextInNode(head, H, M, h, t, i, m);
      }
    } else {
      forall m | m in M ensures Follows(H[h].prefix + t, true, m) <==> Follows(H[h].prefix, true, m) {
        NextPastNode(head, H, M, h, t, m);
      }
    }
  }

  /** The path of n is that of the top of its stack and the label of one of its slots. */
  lemma PopPath(head: RaxNode, H: Heap, M: map<Key, Value>, stack: seq<RaxNode>, n: RaxNode, hint: int) returns (t: Key)
    requires Tree(head, H, {}, M) && n in H && n != head && StackOk(head, H, stack, n)
    requires hint == -1 || (stack != [] && SlotIs(H, stack[|stack| - 1], hint, n))
    ensures stack != []
    ensures var p := stack[|stack| - 1];
      && p in H && NodeOk(H[p]) && StackOk(head, H, stack[..|stack| - 1], p)
      && Tail(H[p], t) && |t| > 0 && H[n].prefix == H[p].prefix + t && HintFor(H[p], t, hint)
      && (!H[p].iscompr ==> t[0] in H[p].data)
  {
    PopStack(head, H, stack, n);
    var p := stack[|stack| - 1];
    var j: nat :| j < |H[p].slots| && H[p].slots[j] == Child(n);
    OneLink(head, H, p, j, p, j, n);
    if hint != -1 { OneLink(head, H, p, j, p, hint, n); }
    t := H[p].Label(j);
    LabelNonEmpty(H[p], j);
  }

  lemma FirstOf(head: RaxNode, H: Heap, M: map<Key, Value>, h: RaxNode)
    requires Tree(head, H, {}, M) && h in H && H[h].slots != [] && !H[h].iskey
    ensures forall m :: FirstUnder(M, H[h].At(0), m) ==> FirstUnder(M, H[h].prefix, m)
  {
    forall m | FirstUnder(M, H[h].At(0), m) ensures FirstUnder(M, H[h].prefix, m) { FirstBelow(head, H, M, h, m); }
  }

  lemma LastOf(head: RaxNode, H: Heap, M: map<Key, Value>, h: RaxNode)
    requires Tree(head, H, {}, M) && h in H
    ensures H[h].slots == [] && H[h].iskey ==> LastUnder(M, H[h].prefix, H[h].prefix)
    ensures H[h].slots != [] ==>
      forall m :: LastUnder(M, H[h].At(|H[h].slots| - 1), m) ==> LastUnder(M, H[h].prefix, m)
  {
    if H[h].slots == [] {
      if H[h].iskey { FirstOfKey(head, H, M, h); }
    } else {
      forall m | LastUnder(M, H[h].At(|H[h].slots| - 1), m) ensures LastUnder(M, H[h].prefix, m) {
        LastBelow(head, H, M, h, m);
      }
    }
  }

  /** What is known below slot i of n. */
  lemma EnterOk(head: RaxNode, H: Heap, M: map<Key, Value>, stack: seq<RaxNode>, n: RaxNode, i: nat)
    requires Tree(head, H, {}, M) && n in H && StackOk(head, H, stack, n) && i < |H[n].slots|
    ensures var k := H[n].At(i);
      match H[n].slots[i]
      case Inline(v) => FirstUnder(M, k, k) && LastUnder(M, k, k) && k in M && M[k] == v && |k| > |H[n].prefix|
      case Child(c) =>
        && c in H && NodeOk(H[c]) && H[c].prefix == k && StackOk(head, H, stack + [n], c)
        && |k| > |H[n].prefix| && (H[c].slots == [] ==> H[c].iskey) && (H[c].iskey ==> k in M && M[k] == H[c].value)
  {
    assert NodeOk(H[n]);
    LabelNonEmpty(H[n], i);
    match H[n].slots[i]
    case Inline(v) => UnderInline(head, H, M, n, i);
    case Child(c) =>
      Descend(head, H, stack, n, i, H[n].At(i), |H[n].At(i)|);
      OneLink(head, H, n, i, n, i, c);
      NodeKey(head, H, M, c);
  }

  predicate SlotIs(H: Heap, p: RaxNode, i: int, c: RaxNode) {
    p in H && 0 <= i < |H[p].slots| && H[p].slots[i] == Child(c)
  }

  /** The cached index is unknown, not used, or that of the edge t. */
  predicate HintFor(x: N, t: Key, hint: int)
    requires Tail(x, t)
  {
    hint == -1 || x.iscompr || (0 <= hint < |x.data| && x.data[hint] == t[0])
  }
}
