/** What removal needs of the tree: climbing the stack, freeing chains, joining them again. */
module RaxPrune {
  import opened RaxKeys
  import opened RaxTheory
  import opened RaxEdits
  import opened RaxSteps
  import opened RaxReshape
  import opened RaxWalk
  import opened RaxSplit

  /** A node that is not a key and has one child can be part of a compressed chain. */
  predicate Chainable(x: N) {
    !x.iskey && |x.slots| == 1
  }

  /** The top of the stack is the parent of h; the rest is its own stack. */
  lemma PopStack(head: RaxNode, H: Heap, stack: seq<RaxNode>, h: RaxNode)
    requires Shape(head, H) && h in H && StackOk(head, H, stack, h)
    ensures stack == [] <==> h == head
    ensures stack != [] ==>
      var p := stack[|stack| - 1];
      && StepTo(H, p, h) && StackOk(head, H, stack[..|stack| - 1], p)
      && p != h && |H[p].prefix| < |H[h].prefix|
  {
    if stack != [] {
      var p, rest := stack[|stack| - 1], stack[..|stack| - 1];
      var i: nat :| i < |H[p].slots| && H[p].slots[i] == Child(h);
      OneLink(head, H, p, i, p, i, h);
      assert NodeOk(H[p]);
      LabelNonEmpty(H[p], i);
      if rest != [] {
        assert rest[|rest| - 1] == stack[|stack| - 2] && stack[|stack| - 1] == p;
      }
      forall t | 0 <= t < |rest| - 1 ensures StepTo(H, rest[t], rest[t + 1]) {
        assert rest[t] == stack[t] && rest[t + 1] == stack[t + 1];
      }
    }
  }

  /** A stack stays good when the nodes on it keep their children. */
  lemma SameStack(head: RaxNode, H: Heap, H': Heap, stack: seq<RaxNode>, h: RaxNode)
    requires StackOk(head, H, stack, h)
    requires forall n :: n in stack ==> n in H && n in H' && H'[n].slots == H[n].slots
    ensures StackOk(head, H', stack, h)
  {
    forall t | 0 <= t < |stack| ensures StepTo(H, stack[t], if t + 1 < |stack| then stack[t + 1] else h) {
    }
    forall t | 0 <= t < |stack| ensures StepTo(H', stack[t], if t + 1 < |stack| then stack[t + 1] else h) {
      assert StepTo(H, stack[t], if t + 1 < |stack| then stack[t + 1] else h);
      assert stack[t] in stack;
    }
  }

  /** Everything on the stack of h is strictly above h. */
  lemma {:induction false} StackAbove(head: RaxNode, H: Heap, stack: seq<RaxNode>, h: RaxNode, t: nat)
    requires Shape(head, H) && h in H && StackOk(head, H, stack, h) && t < |stack|
    ensures stack[t] in H && |H[stack[t]].prefix| < |H[h].prefix|
    decreases |stack|
  {
    PopStack(head, H, stack, h);
    if t < |stack| - 1 {
      StackAbove(head, H, stack[..|stack| - 1], stack[|stack| - 1], t);
    }
  }

  /** The heap once the empty leaf b under slot i of p is gone. */
  function Pruned(H: Heap, p: RaxNode, i: nat, b: RaxNode): Heap
    requires p in H && NodeOk(H[p]) && i < |H[p].slots|
  {
    (H - {b})[p := WithoutSlot(H[p], i)]
  }

  lemma PrunedOk(head: RaxNode, H: Heap, M: map<Key, Value>, p: RaxNode, i: nat, b: RaxNode)
    requires Tree(head, H, {b}, M) && p in H && NodeOk(H[p]) && i < |H[p].slots| && H[p].slots[i] == Child(b)
    requires b in H && H[b].slots == [] && !H[b].iskey
    ensures var H' := Pruned(H, p, i, b);
      && Tree(head, H', {p}, M) && |H'| == |H| - 1 && b != p
      && H'[p].prefix == H[p].prefix && H'[p].iskey == H[p].iskey && |H'[p].slots| == |H[p].slots| - 1
      && (p == head || H[p].iskey || |H[p].slots| > 1 ==> Tree(head, H', {}, M))
  {
    RemoveLeafOk(head, H, {b}, M, p, i, b);
    var H' := Pruned(H, p, i, b);
    assert {b} - {b} + {p} == {p};
    assert H'.Keys == H.Keys - {b};
    assert |H'.Keys| == |H.Keys| - 1;
    WithoutSlotOk(H[p], i);
  }

  /** After the slot is closed the stack of p is still its stack. */
  lemma PrunedStack(head: RaxNode, H: Heap, p: RaxNode, i: nat, b: RaxNode, stack: seq<RaxNode>)
    requires Shape(head, H) && p in H && NodeOk(H[p]) && i < |H[p].slots| && H[p].slots[i] == Child(b) && b in H
    requires StackOk(head, H, stack, p)
    ensures StackOk(head, Pruned(H, p, i, b), stack, p)
  {
    OneLink(head, H, p, i, p, i, b);
    LabelNonEmpty(H[p], i);
    forall n | n in stack ensures n in H && n != b && n != p {
      var t: nat :| t < |stack| && stack[t] == n;
      StackAbove(head, H, stack, p, t);
    }
    SameStack(head, H, Pruned(H, p, i, b), stack, p);
  }

  /** A chain node above the freed leaf b becomes the freed leaf itself. */
  lemma FreedUp(head: RaxNode, H: Heap, M: map<Key, Value>, stack: seq<RaxNode>, p: RaxNode, b: RaxNode)
    requires Tree(head, H, {b}, M) && p in H && H[p].slots == [Child(b)] && !H[p].iskey
    requires b in H && H[b].slots == [] && !H[b].iskey && StackOk(head, H, stack, p)
    ensures NodeOk(H[p])
    ensures var H' := Pruned(H, p, 0, b);
      && Tree(head, H', {p}, M) && |H'| == |H| - 1 && H'.Keys <= H.Keys && p in H' && H'[p].slots == [] && !H'[p].iskey
      && StackOk(head, H', stack, p)
  {
    TreeNode(head, H, {b}, M, p);
    PrunedOk(head, H, M, p, 0, b);
    PrunedStack(head, H, p, 0, b, stack);
  }

  /** The node that stays loses its slot for the freed leaf b. */
  lemma Unlinked(head: RaxNode, H: Heap, M: map<Key, Value>, stack: seq<RaxNode>, p: RaxNode, i: nat, b: RaxNode)
    requires Tree(head, H, {b}, M) && p in H && i < |H[p].slots| && H[p].slots[i] == Child(b)
    requires p == head || !Chainable(H[p])
    requires b in H && H[b].slots == [] && !H[b].iskey && StackOk(head, H, stack, p)
    ensures NodeOk(H[p])
    ensures var H' := Pruned(H, p, i, b);
      Tree(head, H', {}, M) && |H'| == |H| - 1 && H'.Keys <= H.Keys && p in H' && NodeOk(H'[p]) &&
        StackOk(head, H', stack, p)
  {
    TreeNode(head, H, {b}, M, p);
    PrunedOk(head, H, M, p, i, b);
    TreeNode(head, Pruned(H, p, i, b), {p}, M, p);
    PrunedStack(head, H, p, i, b, stack);
  }

  /** From the freed leaf b to its parent. */
  lemma Climb(head: RaxNode, H: Heap, M: map<Key, Value>, stack: seq<RaxNode>, b: RaxNode) returns (i: nat)
    requires Tree(head, H, {b}, M) && b in H && b != head && StackOk(head, H, stack, b)
    ensures stack != []
    ensures var p := stack[|stack| - 1];
      && p in H && NodeOk(H[p]) && p != b && StackOk(head, H, stack[..|stack| - 1], p)
      && i < |H[p].slots| && H[p].slots[i] == Child(b)
      && (forall k :: 0 <= k < |H[p].slots| && H[p].slots[k] == Child(b) ==> k == i)
  {
    PopStack(head, H, stack, b);
    var p := stack[|stack| - 1];
    assert NodeOk(H[p]);
    i :| 0 <= i < |H[p].slots| && H[p].slots[i] == Child(b);
    forall k | 0 <= k < |H[p].slots| && H[p].slots[k] == Child(b) ensures k == i { OneLink(head, H, p, k, p, i, b); }
  }

  /** An empty head is no hole. */
  lemma EmptyHead(head: RaxNode, H: Heap, M: map<Key, Value>, h: RaxNode)
    requires Tree(head, H, {h}, M)
    ensures h == head ==> Tree(head, H, {}, M)
  {
  }

  /** A node that is a key, has children or is the head needs no exception. */
  lemma NoHole(head: RaxNode, H: Heap, M: map<Key, Value>, h: RaxNode)
    requires Tree(head, H, {h}, M) && h in H && (H[h].iskey || H[h].slots != [] || h == head)
    ensures Tree(head, H, {}, M)
  {
  }

  /** Changing h leaves its stack alone. */
  lemma StackKept(head: RaxNode, H: Heap, stack: seq<RaxNode>, h: RaxNode, y: N)
    requires Shape(head, H) && h in H && StackOk(head, H, stack, h)
    ensures StackOk(head, H[h := y], stack, h)
  {
    forall n | n in stack ensures n in H && n != h {
      var t: nat :| t < |stack| && stack[t] == n;
      StackAbove(head, H, stack, h, t);
    }
    SameStack(head, H, H[h := y], stack, h);
  }

  /** The inline key where the walk stopped, taken out. */
  lemma InlineGone(head: RaxNode, H: Heap, M: map<Key, Value>, s: Key, w: Stop)
    requires Tree(head, H, {}, M) && StopOk(head, H, s, w) && w.inlineLeaf && w.i == |s|
    ensures NodeOk(H[w.h]) && H[w.h].At(w.link.idx) == s && s in M && |M - {s}| == |M| - 1
    ensures var y := WithoutSlot(H[w.h], w.link.idx);
      && Tree(head, H[w.h := y], {w.h}, M - {s}) && NodeOk(y) && |H[w.h := y]| == |H|
      && StackOk(head, H[w.h := y], w.stack, w.h)
  {
    var x := H[w.h];
    assert NodeOk(x) && s[..w.i] == s;
    RemoveInlineOk(head, H, {}, M, w.h, w.link.idx);
    assert {} + {w.h} == {w.h};
    Less1(M, s);
    StackKept(head, H, w.stack, w.h, WithoutSlot(x, w.link.idx));
    assert H[w.h := WithoutSlot(x, w.link.idx)].Keys == H.Keys;
    TreeNode(head, H[w.h := WithoutSlot(x, w.link.idx)], {w.h}, M - {s}, w.h);
  }

  /** The node key where the walk stopped, taken out. */
  lemma KeyGone(head: RaxNode, H: Heap, M: map<Key, Value>, s: Key, h: RaxNode, stack: seq<RaxNode>)
    requires Tree(head, H, {}, M) && h in H && H[h].iskey && H[h].prefix == s && StackOk(head, H, stack, h)
    ensures s in M && |M - {s}| == |M| - 1
    ensures var y := H[h].(iskey := false);
      && Tree(head, H[h := y], {h}, M - {s}) && NodeOk(y) && |H[h := y]| == |H| && StackOk(head, H[h := y], stack, h)
  {
    ClearKeyOk(head, H, {}, M, h);
    assert {} + {h} == {h};
    Less1(M, s);
    StackKept(head, H, stack, h, H[h].(iskey := false));
    assert H[h := H[h].(iskey := false)].Keys == H.Keys;
    TreeNode(head, H[h := H[h].(iskey := false)], {h}, M - {s}, h);
  }

  lemma Less1(M: map<Key, Value>, s: Key)
    requires s in M
    ensures |M - {s}| == |M| - 1
  {
    assert (M - {s}).Keys == M.Keys - {s};
  }
}
