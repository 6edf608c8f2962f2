/** Where a walk down the tree can stop, and what that says about the key. */
module RaxWalk {
  import opened RaxKeys
  import opened RaxTheory
  import opened RaxSteps

  /** The field that holds a node pointer: the head of the tree or a child slot. */
  datatype Link = HeadLink | SlotLink(node: RaxNode, idx: nat)

  ghost predicate LinkOk(head: RaxNode, H: Heap, link: Link, h: RaxNode) {
    match link
    case HeadLink => h == head
    case SlotLink(p, k) => p in H && k < |H[p].slots| && H[p].slots[k] == Child(h)
  }

  ghost predicate StepTo(H: Heap, p: RaxNode, c: RaxNode) {
    p in H && exists i :: 0 <= i < |H[p].slots| && H[p].slots[i] == Child(c)
  }

  /** The stack lists the ancestors of h from the head down. */
  ghost predicate StackOk(head: RaxNode, H: Heap, stack: seq<RaxNode>, h: RaxNode) {
    && (stack == [] ==> h == head)
    && (stack != [] ==> stack[0] == head && StepTo(H, stack[|stack| - 1], h))
    && (forall t :: 0 <= t < |stack| - 1 ==> StepTo(H, stack[t], stack[t + 1]))
  }

  /** What raxLowWalk reports: i bytes of the key were used, the walk stopped at h,
      reached through link, at byte j of a compressed node or in front of an inline leaf. */
  datatype Stop = Stop(i: nat, h: RaxNode, link: Link, j: nat, inlineLeaf: bool, stack: seq<RaxNode>)

  /** No edge of x continues with the key: i bytes are used, j of them on the edge of x. */
  predicate StuckAt(x: N, s: Key, i: nat, j: nat) {
    && i <= |s|
    && if x.iscompr then
         && i == |x.prefix| + j && j < |x.data| && s[|x.prefix|..i] == x.data[..j]
         && (i == |s| || s[i] != x.data[j])
       else
         j == 0 && i == |x.prefix| && (i == |s| || s[i] !in x.data)
  }

  ghost predicate StopOk(head: RaxNode, H: Heap, s: Key, w: Stop) {
    && w.h in H && w.i <= |s| && StackOk(head, H, w.stack, w.h) && H[w.h].prefix <= s
    && if w.inlineLeaf then
         && w.link.SlotLink? && w.link.node == w.h && w.link.idx < |H[w.h].slots|
         && H[w.h].slots[w.link.idx].Inline?
         && H[w.h].At(w.link.idx) == s[..w.i]
       else
         LinkOk(head, H, w.link, w.h) && StuckAt(H[w.h], s, w.i, w.j)
  }

  /** The walk used the whole key and did not stop inside a compressed node. */
  predicate AtKey(s: Key, w: Stop, iscompr: bool) {
    w.i == |s| && (w.inlineLeaf || !iscompr || w.j == 0)
  }

  lemma StopMiss(head: RaxNode, H: Heap, M: map<Key, Value>, s: Key, w: Stop)
    requires Shape(head, H) && Denotes(H, M) && StopOk(head, H, s, w) && !AtKey(s, w, H[w.h].iscompr)
    ensures s !in M
  {
    var x := H[w.h];
    if s in M {
      assert Stored(H, s, M[s]) && NodeOk(x);
      var n: RaxNode :| n in H && H[n].Bind(s, M[s]);
      var j: int;
      if n == w.h {
        j := BindCases(x, s, M[s]);
      } else {
        j := BelowBind(head, H, w.h, n, s, M[s]);
      }
      NoSlotLeadsOn(head, H, s, w, j);
    }
  }

  /** At a miss, no slot of the stopping node leads to the key and the node is not the key itself. */
  lemma NoSlotLeadsOn(head: RaxNode, H: Heap, s: Key, w: Stop, j: int)
    requires Shape(head, H) && StopOk(head, H, s, w) && !AtKey(s, w, H[w.h].iscompr)
    ensures H[w.h].prefix != s
    ensures 0 <= j < |H[w.h].slots| && H[w.h].At(j) <= s ==>
      w.inlineLeaf && j == w.link.idx && H[w.h].At(j) != s
  {
    var x := H[w.h];
    assert NodeOk(x);
    if 0 <= j < |x.slots| && x.At(j) <= s {
      LabelNonEmpty(x, j);
      if w.inlineLeaf {
        SameSlot(x, j, w.link.idx, s);
      }
    }
  }

  /** Stopped inside a compressed node: the part of its edge that matched. */
  lemma StopInside(head: RaxNode, H: Heap, s: Key, w: Stop)
    requires StopOk(head, H, s, w) && !w.inlineLeaf && H[w.h].iscompr
    ensures H[w.h].prefix + H[w.h].data[..w.j] == s[..w.i] && w.j < |H[w.h].data|
    ensures w.i < |s| ==> s[w.i] !in [H[w.h].data[w.j]]
  {
    var p := H[w.h].prefix;
    assert s[..w.i] == s[..|p|] + s[|p|..w.i];
  }

  lemma StopHit(head: RaxNode, H: Heap, M: map<Key, Value>, s: Key, w: Stop)
    requires Shape(head, H) && Denotes(H, M) && StopOk(head, H, s, w) && AtKey(s, w, H[w.h].iscompr)
    ensures w.inlineLeaf ==> s in M && M[s] == H[w.h].slots[w.link.idx].value && H[w.h].At(w.link.idx) == s
    ensures !w.inlineLeaf ==> H[w.h].prefix == s && (s in M <==> H[w.h].iskey)
    ensures !w.inlineLeaf && H[w.h].iskey ==> M[s] == H[w.h].value
  {
    if w.inlineLeaf {
      assert s[..w.i] == s;
      InlineKey(H, M, w.h, w.link.idx);
    } else {
      NodeKey(head, H, M, w.h);
    }
  }

  /** Following slot j of h, whose edge spells s[i0..i]. */
  lemma Descend(head: RaxNode, H: Heap, stack: seq<RaxNode>, h: RaxNode, j: nat, s: Key, i: nat)
    requires Shape(head, H) && h in H && StackOk(head, H, stack, h) && i <= |s|
    requires j < |H[h].slots| && H[h].slots[j].Child? && H[h].At(j) == s[..i]
    ensures var c := H[h].slots[j].node;
      && c in H && H[c].prefix == s[..i] && LinkOk(head, H, SlotLink(h, j), c)
      && StackOk(head, H, stack + [h], c)
  {
    var c := H[h].slots[j].node;
    assert KidsIn(H[h], H);
    assert H[h].KidSlot(j, c, s[..i]) && H[h].Kid(c, s[..i]);
    assert StepTo(H, h, c);
    forall t | 0 <= t < |stack| ensures StepTo(H, (stack + [h])[t], (stack + [h])[t + 1]) {
    }
  }
}
