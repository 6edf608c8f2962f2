/** The radix tree: insertion, lookup and removal on linked nodes. */
module Rax {
  import opened Basics
  import opened RaxKeys
  import opened RaxTheory
  import opened RaxEdits
  import opened RaxSteps
  import opened RaxReshape
  import opened RaxWalk
  import opened RaxSplit
  import opened RaxPrune
  import opened RaxChain

  class Rax {
    var head: RaxNode
    var numele: nat
    var numnodes: nat
    ghost var H: Heap
    ghost var contents: map<Key, Value>

    /** The allocated nodes hold what H says. */
    ghost predicate Agrees()
      reads this`H, H.Keys
    {
      forall n {:trigger H[n]} :: n in H ==> n.Is(H[n])
    }

    /** Everything but the rule on childless nodes, which the nodes in `holes` may break. */
    ghost predicate Partial(holes: set<RaxNode>)
      reads this, H.Keys
    {
      Agrees() && Tree(head, H, holes, contents) && numnodes == |H| && numele == |contents|
    }

    ghost predicate Valid()
      reads this, H.Keys
    {
      Partial({})
    }

    lemma Holds()
      requires Valid()
      ensures Agrees() && Tree(head, H, {}, contents) && numnodes == |H| && numele == |contents|
    {
    }

    lemma Restore()
      requires Agrees() && Tree(head, H, {}, contents) && numnodes == |H| && numele == |contents|
      ensures Valid()
    {
    }

    lemma NodeIs(h: RaxNode)
      requires Agrees() && h in H
      ensures h.Is(H[h])
    {
    }

    constructor ()
      ensures Valid() && contents == map[] && fresh(H.Keys)
    {
      var n := new RaxNode([]);
      head, numele, numnodes := n, 0, 1;
      H, contents := map[n := Empty([])], map[];
    }

    /** The position of edge c, or the number of edges. */
    method FindEdge(h: RaxNode, c: Byte) returns (j: nat)
      ensures j <= |h.data| && (j < |h.data| ==> h.data[j] == c) && (j == |h.data| ==> c !in h.data)
    {
      j := 0;
      while j < |h.data|
        invariant j <= |h.data| && c !in h.data[..j]
      {
        if h.data[j] == c { break; }
        j := j + 1;
      }
    }

    /** How far the bytes of d agree with s from position i on. */
    method MatchRun(d: Key, s: Key, i: nat) returns (j: nat)
      requires i <= |s|
      ensures j <= |d| && i + j <= |s| && s[i..i + j] == d[..j]
      ensures j < |d| && i + j < |s| ==> s[i + j] != d[j]
    {
      j := 0;
      while j < |d| && i + j < |s|
        invariant j <= |d| && i + j <= |s| && forall t :: 0 <= t < j ==> s[i + t] == d[t]
      {
        if d[j] != s[i + j] { break; }
        j := j + 1;
      }
    }

    /** The edge of h that the key takes from position i, or why there is none. */
    method TakeEdge(h: RaxNode, s: Key, i: nat) returns (taken: bool, i': nat, j: nat)
      requires h in H && h.Is(H[h]) && NodeOk(H[h]) && H[h].slots != [] && i < |s| && H[h].prefix == s[..i]
      ensures i <= i' <= |s|
      ensures taken ==> i < i' && j < |H[h].slots| && H[h].At(j) == s[..i']
      ensures !taken ==> StuckAt(H[h], s, i', j)
    {
      if h.iscompr {
        j := MatchRun(h.data, s, i);
        i' := i + j;
        taken := j == |h.data|;
        if taken { j := 0; }
      } else {
        j := FindEdge(h, s[i]);
        taken := j != |h.data|;
        if taken { i' := i + 1; } else { i', j := i, 0; }
      }
    }

    method LowWalk(s: Key) returns (w: Stop)
      requires Shape(head, H) && Agrees()
      ensures StopOk(head, H, s, w)
    {
      var h, i, j, taken := head, 0, 0, true;
      var link, stack: seq<RaxNode> := HeadLink, [];
      while |h.data| != 0 && i < |s|
        invariant h in H && i <= |s| && H[h].prefix == s[..i]
        invariant LinkOk(head, H, link, h) && StackOk(head, H, stack, h)
        decreases |s| - i
      {
        assert NodeOk(H[h]) && h.Is(H[h]);
        taken, i, j := TakeEdge(h, s, i);
        if !taken { return Stop(i, h, link, j, false, stack); }
        if h.IsInlineLeaf(j) { return Stop(i, h, SlotLink(h, j), 0, true, stack); }
        Descend(head, H, stack, h, j, s, i);
        link, stack, h := SlotLink(h, j), stack + [h], h.slots[j].node;
      }
      assert NodeOk(H[h]) && h.Is(H[h]);
      return Stop(i, h, link, 0, false, stack);
    }

    /** The walk, and what it says about the contents. */
    method Locate(s: Key) returns (w: Stop)
      requires Valid()
      ensures StopOk(head, H, s, w) && Located(s, w)
    {
      w := LowWalk(s);
      if AtKey(s, w, w.h.iscompr) {
        StopHit(head, H, contents, s, w);
      } else {
        StopMiss(head, H, contents, s, w);
      }
      MoreHoles(head, H, contents, w.h);
      TreeNode(head, H, {}, contents, w.h);
    }

    ghost predicate Located(s: Key, w: Stop)
      reads this, H.Keys
    {
      && w.h in H && w.h.Is(H[w.h]) && NodeOk(H[w.h]) && w.i <= |s|
      && (!AtKey(s, w, H[w.h].iscompr) ==> s !in contents)
      && (w.i == |s| && w.inlineLeaf ==>
            && w.link.SlotLink? && w.link.node == w.h && w.link.idx < |H[w.h].slots|
            && H[w.h].slots[w.link.idx].Inline?
            && s in contents && contents[s] == H[w.h].slots[w.link.idx].value)
      && (AtKey(s, w, H[w.h].iscompr) && !w.inlineLeaf ==>
           && Partial({w.h}) && H[w.h].prefix == s && (s in contents <==> H[w.h].iskey)
           && (s in contents ==> contents[s] == H[w.h].value))
      && (!w.inlineLeaf && !H[w.h].iscompr && w.i < |s| ==> Pending(s, w.i, w.h))
    }

    method Find(s: Key) returns (r: Option<Value>)
      requires Valid()
      ensures r == if s in contents then Some(contents[s]) else None
    {
      var w := Locate(s);
      if w.inlineLeaf && w.i == |s| {
        return Some(w.h.slots[w.link.idx].value);
      }
      if w.i != |s| || (w.h.iscompr && w.j != 0) || !w.h.iskey {
        return None;
      }
      return Some(w.h.GetData());
    }

    // ---- Insertion ---------------------------------------------------------------

    /** The field `link` is pointed to n. */
    method SetLink(link: Link, n: RaxNode)
      requires Agrees() && (link.SlotLink? ==> link.node in H && link.idx < |H[link.node].slots|)
      modifies this`head
      modifies if link.SlotLink? then {link.node} else {}
      ensures head == NewHead(old(head), link, n)
      ensures forall m {:trigger H[m]} :: m in H ==> m.Is(Linked(H[m], m, link, n))
    {
      match link {
        case HeadLink => head := n;
        case SlotLink(p, k) =>
          assert p.Is(H[p]);
          p.slots := p.slots[k := Child(n)];
      }
    }

    /** The allocated nodes other than n hold what H says. */
    ghost predicate AgreesBut(n: RaxNode)
      reads this`H, H.Keys
    {
      forall m {:trigger H[m]} :: m in H && m != n ==> m.Is(H[m])
    }

    /** Step 3a: split takes the place of h. */
    method Replace(h: RaxNode, link: Link, split: RaxNode)
      requires Agrees() && h in H && split !in H && !split.iskey
      requires link.SlotLink? ==> link.node in H && link.idx < |H[link.node].slots| && link.node != h
      modifies this`head, this`H, split`iskey, split`isnull, split`aux
      modifies if link.SlotLink? then {link.node} else {}
      ensures H == Relocated(old(H), link, h, split) && head == NewHead(old(head), link, split)
      ensures AgreesBut(split)
      ensures split.iskey == H[split].iskey && (split.iskey ==> split.GetData() == H[split].value)
    {
      ghost var H0 := H;
      assert h.Is(H[h]);
      if h.iskey { split.SetData(h.GetData()); }
      SetLink(link, split);
      H := Relocated(H, link, h, split);
      hide Relocated, Linked;
      forall n | n in H && n != split ensures n.Is(H[n]) { RelocatedNode(H0, link, h, split, n); }
      RelocatedNode(H0, link, h, split, split);
    }

    /** A new node with the first j bytes of h and its value, leading to `below`. */
    method CopyTop(h: RaxNode, j: nat, below: RaxNode) returns (t: RaxNode)
      requires h in H && h.Is(H[h]) && 0 < j <= |H[h].data|
      ensures fresh(t) && t.Is(Top(H[h], j, below))
    {
      t := new RaxNode(h.data[..j]);
      t.iscompr := j > 1;
      t.iskey, t.isnull := h.iskey, h.isnull;
      if h.iskey && !h.isnull { t.SetData(h.GetData()); }
      t.slots := [Child(below)];
    }

    /** Step 3b: the first j bytes of h move to a new node that leads to split. */
    method Trim(h: RaxNode, link: Link, j: nat, split: RaxNode) returns (trimmed: RaxNode)
      requires Agrees() && h in H && 0 < j < |H[h].data| && split !in H
      requires link.SlotLink? ==> link.node in H && link.idx < |H[link.node].slots| && link.node != h
      modifies this`head, this`H, this`numnodes
      modifies if link.SlotLink? then {link.node} else {}
      ensures fresh(trimmed) && H == Trimmed(old(H), link, h, j, trimmed, split)
      ensures head == NewHead(old(head), link, trimmed) && numnodes == old(numnodes) + 1
      ensures AgreesBut(split)
    {
      ghost var H0 := H;
      NodeIs(h);
      hide Trimmed, Linked, Top;
      trimmed := CopyTop(h, j, split);
      SetLink(link, trimmed);
      numnodes := numnodes + 1;
      H := Trimmed(H, link, h, j, trimmed, split);
      forall n | n in H && n != split ensures n.Is(H[n]) { TrimmedNode(H0, link, h, j, trimmed, split, n); }
    }

    method NewTail(rest: Key, next: Slot, nextInline: bool, ghost prefix: Key) returns (n: RaxNode)
      ensures fresh(n) && n.Is(N(false, 0, |rest| > 1, if nextInline then {0} else {}, rest, [next], prefix))
    {
      n := new RaxNode(rest);
      n.iscompr := |rest| > 1;
      n.leafbitmap := if nextInline then {0} else {};
      n.slots := [next];
    }

    /** Step 4a: the bytes after the first go to a postfix node with the old child. */
    method Postfix(split: RaxNode, rest: Key, next: Slot, nextInline: bool) returns (postfix: RaxNode)
      requires AgreesBut(split) && split in H && |rest| > 0 && !split.iscompr && split.leafbitmap == {}
      requires split.iskey == H[split].iskey && (split.iskey ==> split.GetData() == H[split].value)
      requires H[split].data == split.data + rest && |split.data| == 1
      requires H[split].slots == [next] && H[split].bits == if nextInline then {0} else {}
      modifies this`H, this`numnodes, split`slots
      ensures fresh(postfix) && H == Cut(old(H), split, 1, postfix) && numnodes == old(numnodes) + 1
      ensures Agrees()
    {
      postfix := NewTail(rest, next, nextInline, H[split].prefix + split.data);
      numnodes := numnodes + 1;
      split.slots := [Child(postfix)];
      H := Cut(H, split, 1, postfix);
    }

    /** Step 4b: nothing is left after the split byte; split takes the old child itself. */
    method Adopt(split: RaxNode, next: Slot, nextInline: bool)
      requires AgreesBut(split) && split in H && !split.iscompr && split.leafbitmap == {}
      requires split.iskey == H[split].iskey && (split.iskey ==> split.GetData() == H[split].value)
      requires H[split].data == split.data && |split.data| == 1 && !H[split].iscompr
      requires H[split].slots == [next] && H[split].bits == if nextInline then {0} else {}
      modifies split`slots, split`leafbitmap
      ensures Agrees()
    {
      split.slots := [next];
      if nextInline { split.leafbitmap := {0}; }
    }

    /** ALGO 1: h is a compressed node whose byte j is not the next byte of the key.
        Afterwards `split` holds that byte alone and can take another edge. */
    method SplitMismatch(h: RaxNode, link: Link, j: nat) returns (split: RaxNode, trimmed: RaxNode, postfix: RaxNode)
      requires Agrees() && h in H && H[h].iscompr && NodeOk(H[h]) && j < |H[h].data|
      requires link.SlotLink? ==> link.node in H && link.idx < |H[link.node].slots| && link.node != h
      modifies this`head, this`H, this`numnodes
      modifies H.Keys
      ensures Agrees() && fresh({split, trimmed, postfix}) && (j > 0 ==> trimmed != split)
      ensures j + 1 < |old(H[h].data)| ==> postfix != split && postfix != trimmed
      ensures H == Mismatched(old(H), link, h, j, trimmed, split, postfix)
      ensures head == NewHead(old(head), link, if j == 0 then split else trimmed)
      ensures numnodes == old(numnodes) + (if j == 0 then 0 else 1) + (if j + 1 < |old(H[h].data)| then 1 else 0)
    {
      hide *;
      SingleNode(h, j);
      ghost var H0 := H;
      var next, nextInline, rest := h.slots[0], h.IsInlineLeaf(0), h.data[j + 1..];
      split := new RaxNode([h.data[j]]);
      trimmed, postfix := split, split;
      if j == 0 {
        Replace(h, link, split);
      } else {
        trimmed := Trim(h, link, j, split);
      }
      MismatchTail(H0, link, h, j, trimmed, split);
      if |rest| > 0 {
        postfix := Postfix(split, rest, next, nextInline);
      } else {
        Adopt(split, next, nextInline);
      }
      MismatchedIs(H0, link, h, j, trimmed, split, postfix);
    }

    /** A compressed node and what it holds from byte j on. */
    lemma SingleNode(h: RaxNode, j: nat)
      requires Agrees() && h in H && H[h].iscompr && NodeOk(H[h]) && j < |H[h].data|
      ensures H[h].slots == h.slots && |h.slots| == 1 && H[h].data == h.data
      ensures h.data[j..] == [h.data[j]] + h.data[j + 1..]
      ensures H[h].bits == if h.IsInlineLeaf(0) then {0} else {}
      ensures |H[h].data| > 1
    {
      NodeIs(h);
      SingleBits(H[h]);
    }

    /** A new node with the bytes of h from j on and the child of h. */
    method CopyBottom(h: RaxNode, j: nat) returns (b: RaxNode)
      requires h in H && h.Is(H[h]) && NodeOk(H[h]) && H[h].iscompr && 0 < j < |H[h].data|
      ensures fresh(b) && b.Is(Bottom(H[h], j))
    {
      b := new RaxNode(h.data[j..]);
      b.iscompr := |h.data| - j > 1;
      b.leafbitmap := if h.IsInlineLeaf(0) then {0} else {};
      b.slots := [h.slots[0]];
    }

    method KeyedBottom(h: RaxNode, j: nat, v: Value) returns (b: RaxNode)
      requires h in H && h.Is(H[h]) && NodeOk(H[h]) && H[h].iscompr && 0 < j < |H[h].data|
      ensures fresh(b) && b.Is(WithData(Bottom(H[h], j), v))
    {
      b := CopyBottom(h, j);
      b.SetData(v);
    }

    /** ALGO 2: the key ends before byte j of h; the lower part becomes the key. */
    method SplitForKey(h: RaxNode, link: Link, j: nat, v: Value) returns (trimmed: RaxNode, postfix: RaxNode)
      requires Agrees() && h in H && H[h].iscompr && NodeOk(H[h]) && 0 < j < |H[h].data|
      requires link.SlotLink? ==> link.node in H && link.idx < |H[link.node].slots| && link.node != h
      modifies this`head, this`H, this`numnodes, this`numele, this`contents
      modifies H.Keys
      ensures Agrees() && fresh({trimmed, postfix}) && trimmed != postfix
      ensures H == KeyedSplit(old(H), link, h, j, trimmed, postfix, v)
      ensures head == NewHead(old(head), link, trimmed) && numnodes == old(numnodes) + 1
      ensures numele == old(numele) + 1 && contents == old(contents)[old(H[h].prefix + H[h].data[..j]) := v]
    {
      hide *;
      NodeIs(h);
      ghost var H0 := H;
      postfix := KeyedBottom(h, j, v);
      trimmed := Trim(h, link, j, postfix);
      Put(postfix, WithData(Bottom(H0[h], j), v));
      KeyedSplitIs(H0, link, h, j, trimmed, postfix, v);
      numele, contents := numele + 1, contents[H0[h].prefix + H0[h].data[..j] := v];
    }

    /** The node n was written to hold x. */
    ghost method Put(n: RaxNode, x: N)
      requires AgreesBut(n) && n.Is(x)
      modifies this`H
      ensures Agrees() && H == old(H)[n := x]
    {
      H := H[n := x];
    }

    /** raxMaterializeInlineLeaf */
    method MaterializeInlineLeaf(h: RaxNode, j: nat) returns (leaf: RaxNode)
      requires Agrees() && h in H && NodeOk(H[h]) && j < |H[h].slots| && H[h].slots[j].Inline?
      modifies this`H, this`numnodes, h`slots, h`leafbitmap
      ensures Agrees() && fresh(leaf) && numnodes == old(numnodes) + 1
      ensures H == MaterializedHeap(old(H), h, j, leaf)
    {
      assert h.Is(H[h]);
      leaf := new RaxNode([]);
      leaf.SetData(h.slots[j].value);
      h.slots := h.slots[j := Child(leaf)];
      if j < INLINE_SLOTS { h.leafbitmap := h.leafbitmap - {j}; }
      numnodes := numnodes + 1;
      assert h.Is(Materialized(H[h], j, leaf)) && leaf.Is(Leaf(old(h.slots[j].value), H[h].At(j)));
      hide NodeOk, RaxNode.Is, Materialized, Leaf, N.At;
      H := MaterializedHeap(H, h, j, leaf);
    }

    /** raxNodeFindChildPos */
    method FindChildPos(h: RaxNode, c: Byte) returns (pos: nat)
      requires Sorted(h.data) && c !in h.data
      ensures pos <= |h.data|
      ensures forall i :: 0 <= i < pos ==> h.data[i] < c
      ensures forall i :: pos <= i < |h.data| ==> h.data[i] > c
    {
      pos := 0;
      while pos < |h.data|
        invariant pos <= |h.data| && forall i :: 0 <= i < pos ==> h.data[i] < c
      {
        if h.data[pos] > c { break; }
        pos := pos + 1;
      }
    }

    /** Byte c and slot s are inserted at pos; what was there moves up by one. */
    method OpenSlot(h: RaxNode, pos: nat, c: Byte, s: Slot)
      requires Agrees() && h in H && NodeOk(H[h]) && !H[h].iscompr && pos <= |H[h].data|
      requires s.Child? ==> s.node !in H && s.node.Is(Empty(H[h].prefix + [c]))
      modifies this`H, this`numnodes, this`numele, this`contents, h`data, h`slots, h`leafbitmap
      ensures Agrees() && H == OpenedHeap(old(H), h, pos, c, s)
      ensures numnodes == old(numnodes) + (if s.Child? then 1 else 0)
      ensures numele == old(numele) + (if s.Inline? then 1 else 0)
      ensures contents == if s.Inline? then old(contents)[old(H[h].prefix) + [c] := s.value] else old(contents)
    {
      assert h.Is(H[h]);
      h.data := InsertAt(h.data, pos, c);
      h.slots := InsertAt(h.slots, pos, s);
      h.leafbitmap := BitsAfterInsert(h.leafbitmap, pos) + (if s.Inline? then {pos} else {});
      if s.Child? {
        numnodes := numnodes + 1;
      } else {
        numele, contents := numele + 1, contents[H[h].prefix + [c] := s.value];
      }
      H := OpenedHeap(H, h, pos, c, s);
    }

    /** raxAddChildNoAlloc and the store of the new field: edge c leads to s.
        An inline value in slot 12 that would move beyond the bitmap gets a node first. */
    method AddEdge(h: RaxNode, c: Byte, s: Slot) returns (pos: nat, spill: RaxNode)
      requires Agrees() && h in H && NodeOk(H[h]) && !H[h].iscompr && c !in H[h].data
      requires s.Child? ==> s.node !in H && s.node.Is(Empty(H[h].prefix + [c]))
      modifies this`H, this`numnodes, this`numele, this`contents, h
      ensures Agrees() && EdgePos(old(H[h]), pos, c) && if Spills(old(H[h]), pos) then fresh(spill) else spill == h
      ensures H == EdgeHeap(old(H), h, pos, c, s, spill)
      ensures numnodes == old(numnodes) + (if Spills(old(H[h]), pos) then 1 else 0) + (if s.Child? then 1 else 0)
      ensures numele == old(numele) + (if s.Inline? then 1 else 0)
      ensures contents == if s.Inline? then old(contents)[old(H[h].prefix) + [c] := s.value] else old(contents)
    {
      assert h.Is(H[h]);
      pos := FindChildPos(h, c);
      spill := h;
      if pos <= 12 && h.IsInlineLeaf(12) {
        spill := MaterializeInlineLeaf(h, 12);
        SpillKeepsNode(old(H[h]), spill);
      }
      OpenSlot(h, pos, c, s);
    }

    /** raxCompressNodeNoAlloc and the store of the child field. */
    method CompressNode(h: RaxNode, s: Key, slot: Slot)
      requires h in H && h.Is(H[h]) && NodeOk(H[h]) && H[h].slots == []
      modifies h`iscompr, h`data, h`slots, h`leafbitmap
      ensures h.Is(Compressed(H[h], s, slot))
    {
      h.iscompr, h.data, h.slots := true, s, [slot];
      if slot.Inline? { h.leafbitmap := {0}; }
    }

    /** The childless node h leads to a new empty node by the bytes s. */
    method CompressToChild(h: RaxNode, s: Key) returns (child: RaxNode)
      requires h in H && NodeOk(H[h]) && H[h].slots == [] && Agrees()
      modifies this`H, this`numnodes, h`iscompr, h`data, h`slots, h`leafbitmap
      ensures Agrees() && numnodes == old(numnodes) + 1 && fresh(child)
      ensures H == old(H)[h := Compressed(old(H[h]), s, Child(child))][child := Empty(old(H[h]).prefix + s)]
    {
      NodeIs(h);
      child := new RaxNode([]);
      assert child.Is(Empty(H[h].prefix + s));
      hide Compressed, NodeOk, Empty;
      CompressNode(h, s, Child(child));
      numnodes := numnodes + 1;
      H := H[h := Compressed(H[h], s, Child(child))][child := Empty(H[h].prefix + s)];
    }

    /** The bytes s and an inline value hang below the childless node h. */
    method CompressToValue(h: RaxNode, s: Key, v: Value)
      requires h in H && NodeOk(H[h]) && H[h].slots == [] && Agrees()
      modifies this`H, this`numele, this`contents, h`iscompr, h`data, h`slots, h`leafbitmap
      ensures Agrees() && numele == old(numele) + 1
      ensures H == old(H)[h := Compressed(old(H[h]), s, Inline(v))]
      ensures contents == old(contents)[old(H[h].prefix) + s := v]
    {
      NodeIs(h);
      var k := H[h].prefix + s;
      CompressNode(h, s, Inline(v));
      numele, contents := numele + 1, contents[k := v];
      hide Compressed, NodeOk;
      H := H[h := Compressed(H[h], s, Inline(v))];
    }

    /** h becomes a key, or takes another value. */
    method StoreData(h: RaxNode, v: Value)
      requires Agrees() && h in H
      modifies this`H, this`numele, this`contents, h`iskey, h`isnull, h`aux
      ensures Agrees() && H == old(H)[h := WithData(old(H[h]), v)]
      ensures numele == old(numele) + (if old(H[h]).iskey then 0 else 1)
      ensures contents == old(contents)[old(H[h].prefix) := v]
    {
      assert h.Is(H[h]);
      if !h.iskey { numele := numele + 1; }
      h.SetData(v);
      H, contents := H[h := WithData(H[h], v)], contents[H[h].prefix := v];
    }

    // The steps above on a whole tree.

    /** The key s is to be hung below h, which stands for its first i bytes. */
    ghost predicate Pending(s: Key, i: nat, h: RaxNode)
      reads this, H.Keys
    {
      && Partial({h}) && h in H && NodeOk(H[h]) && h.Is(H[h]) && i <= |s| && s !in contents
      && H[h].prefix == s[..i] && !H[h].iscompr && (i < |s| ==> s[i] !in H[h].data)
    }

    lemma PendingFacts(s: Key, i: nat, h: RaxNode)
      requires Pending(s, i, h)
      ensures Agrees() && Tree(head, H, {h}, contents) && numnodes == |H| && numele == |contents|
      ensures h in H && NodeOk(H[h]) && h.Is(H[h]) && i <= |s| && s !in contents
      ensures H[h].prefix == s[..i] && !H[h].iscompr && (H[h].data == [] ==> H[h].slots == [])
      ensures i < |s| ==> s[i] !in H[h].data && H[h].prefix + [s[i]] == s[..i + 1]
      ensures i + 1 == |s| ==> s[..i + 1] == s
    {
    }

    lemma PendingAt(s: Key, i: nat, h: RaxNode)
      requires Agrees() && Tree(head, H, {h}, contents) && numnodes == |H| && numele == |contents|
      requires h in H && NodeOk(H[h]) && i <= |s| && s !in contents
      requires H[h].prefix == s[..i] && !H[h].iscompr && (i < |s| ==> s[i] !in H[h].data)
      ensures Pending(s, i, h)
    {
      hide Tree, NodeOk;
      NodeIs(h);
    }

    /** A node without edges at the end of the first i bytes of s. */
    lemma PendingLeaf(s: Key, i: nat, h: RaxNode)
      requires Agrees() && Tree(head, H, {h}, contents) && numnodes == |H| && numele == |contents|
      requires i <= |s| && s !in contents && h in H && (H[h] == Empty(s[..i]) || exists v :: H[h] == Leaf(v, s[..i]))
      ensures Pending(s, i, h)
    {
      assert NodeOk(H[h]) && !H[h].iscompr && H[h].data == [] && H[h].prefix == s[..i];
      hide *;
      PendingAt(s, i, h);
    }

    method FinishCompressed(s: Key, i: nat, h: RaxNode, v: Value)
      requires Pending(s, i, h) && H[h].data == [] && 2 <= |s| - i <= MAX_SIZE
      modifies this, h
      ensures Valid() && contents == old(contents)[s := v] && H.Keys == old(H.Keys)
    {
      hide *;
      PendingFacts(s, i, h);
      ghost var head0, H0, M0 := head, H, contents;
      CompressToValue(h, s[i..], v);
      FinishOk(head0, H0, M0, h, s, i, v);
      Grown(M0, contents, s, v);
      Restore();
    }

    method ExtendCompressed(s: Key, i: nat, h: RaxNode, n: nat) returns (child: RaxNode)
      requires Pending(s, i, h) && H[h].data == [] && 2 <= n <= MAX_SIZE && i + n <= |s|
      modifies this, h
      ensures Pending(s, i + n, child) && contents == old(contents)
      ensures fresh(child) && forall n :: n in H && n !in old(H) ==> fresh(n)
    {
      hide *;
      PendingFacts(s, i, h);
      ghost var head0, H0, M0 := head, H, contents;
      child := CompressToChild(h, s[i..i + n]);
      ExtendOk(head0, H0, M0, h, s, i, n, child);
      PendingLeaf(s, i + n, child);
    }

    /** Edge c of h leads to a new empty node. */
    method AddChildEdge(h: RaxNode, c: Byte) returns (pos: nat, spill: RaxNode, child: RaxNode)
      requires Agrees() && h in H && NodeOk(H[h]) && !H[h].iscompr && c !in H[h].data
      modifies this`H, this`numnodes, this`numele, this`contents, h
      ensures Agrees() && EdgePos(old(H[h]), pos, c) && fresh(child)
      ensures if Spills(old(H[h]), pos) then fresh(spill) && spill != child else spill == h
      ensures H == EdgeHeap(old(H), h, pos, c, Child(child), spill)
      ensures numnodes == old(numnodes) + (if Spills(old(H[h]), pos) then 1 else 0) + 1
      ensures numele == old(numele) && contents == old(contents)
    {
      child := new RaxNode([]);
      assert child.Is(Empty(H[h].prefix + [c]));
      hide *;
      pos, spill := AddEdge(h, c, Child(child));
    }

    method FinishEdge(s: Key, i: nat, h: RaxNode, v: Value, ghost pos: nat)
      requires Pending(s, i, h) && i + 1 == |s| && EdgePos(H[h], pos, s[i]) && pos < INLINE_SLOTS
      modifies this, h
      ensures Valid() && contents == old(contents)[s := v]
      ensures forall n :: n in H && n !in old(H) ==> fresh(n)
    {
      hide *;
      ghost var head0, H0, M0 := head, H, contents;
      PendingFacts(s, i, h);
      var p, spill := AddEdge(h, s[i], Inline(v));
      EdgePosUnique(H0[h], p, pos, s[i]);
      InlineEdgeOk(head0, H0, M0, h, p, s[i], v, spill);
      Grown(M0, contents, s, v);
      Restore();
    }

    method ExtendEdge(s: Key, i: nat, h: RaxNode) returns (child: RaxNode)
      requires Pending(s, i, h) && i < |s|
      modifies this, h
      ensures Pending(s, i + 1, child) && contents == old(contents)
      ensures fresh(child) && forall n :: n in H && n !in old(H) ==> fresh(n)
    {
      hide *;
      ghost var head0, H0, M0 := head, H, contents;
      PendingFacts(s, i, h);
      var p, spill;
      p, spill, child := AddChildEdge(h, s[i]);
      ChildEdgeOk(head0, H0, M0, h, p, s[i], child, spill);
      PendingLeaf(s, i + 1, child);
    }

    static lemma Grown(M: map<Key, Value>, M': map<Key, Value>, k: Key, v: Value)
      requires k !in M && M' == M[k := v]
      ensures |M'| == |M| + 1
    {
    }

    method FinishKey(s: Key, h: RaxNode, v: Value)
      requires Partial({h}) && h in H && H[h].prefix == s
      modifies this, h
      ensures Valid() && contents == old(contents)[s := v] && H.Keys == old(H.Keys)
    {
      NodeKey(head, H, contents, h);
      SetKeyOk(head, H, {h}, contents, h, v);
      assert {h} - {h} == {};
      StoreData(h, v);
      assert |H.Keys| == |old(H.Keys)|;
    }

    /** One node more towards the key, or the key itself. */
    method InsertStep(s: Key, i: nat, h: RaxNode, v: Value) returns (done: bool, i': nat, h': RaxNode)
      requires Pending(s, i, h) && i < |s|
      modifies this, h
      ensures if done then Valid() && contents == old(contents)[s := v]
              else Pending(s, i', h') && contents == old(contents) && i < i' && fresh(h')
      ensures forall n :: n in H && n !in old(H) ==> fresh(n)
    {
      hide Tree;
      i', h' := i, h;
      if |h.data| == 0 && |s| - i > 1 {
        var comprsize := if |s| - i > MAX_SIZE then MAX_SIZE else |s| - i;
        done := comprsize == |s| - i;
        if done {
          FinishCompressed(s, i, h, v);
        } else {
          h' := ExtendCompressed(s, i, h, comprsize);
          i' := i + comprsize;
        }
      } else {
        var pos := FindChildPos(h, s[i]);
        done := |s| - i == 1 && pos < INLINE_SLOTS;
        if done {
          FinishEdge(s, i, h, v, pos);
        } else {
          h' := ExtendEdge(s, i, h);
          i' := i + 1;
        }
      }
    }

    /** Hangs the missing bytes s[i..] below h, the last one with the value. */
    method InsertRest(s: Key, i0: nat, h0: RaxNode, v: Value)
      requires Pending(s, i0, h0) && i0 < |s|
      modifies this, h0
      ensures Valid() && contents == old(contents)[s := v]
      ensures forall n :: n in H && n !in old(H) ==> fresh(n)
    {
      hide Tree;
      var i, h := i0, h0;
      while i < |s|
        invariant Pending(s, i, h) && contents == old(contents)
        invariant h == h0 || fresh(h)
        invariant forall n :: n in H && n !in old(H) ==> fresh(n)
        decreases |s| - i
      {
        var done;
        done, i, h := InsertStep(s, i, h, v);
        if done { return; }
      }
      assert s[..i] == s;
      FinishKey(s, h, v);
    }

    /** An inline value in the way of a longer key gets a node, and the key hangs below it. */
    method Uninline(s: Key, w: Stop) returns (leaf: RaxNode)
      requires Valid() && StopOk(head, H, s, w) && w.inlineLeaf && w.i < |s|
      modifies this, H.Keys
      ensures Pending(s, w.i, leaf) && contents == old(contents) && fresh(leaf)
      ensures forall n :: n in H && n !in old(H) ==> fresh(n)
    {
      hide *;
      ghost var head0, H0, M0 := head, H, contents;
      Holds();
      UninlineOk(head0, H0, M0, s, w);
      leaf := MaterializeInlineLeaf(w.h, w.link.idx);
      UninlinedOk(head0, H0, M0, w.h, w.link.idx, leaf);
      PendingLeaf(s, w.i, leaf);
    }

    method Split(s: Key, w: Stop) returns (split: RaxNode)
      requires Valid() && StopOk(head, H, s, w) && !w.inlineLeaf && H[w.h].iscompr && w.i < |s|
      modifies this, H.Keys
      ensures Pending(s, w.i, split) && contents == old(contents) && fresh(split)
      ensures forall n :: n in H && n !in old(H) ==> fresh(n)
    {
      hide *;
      ghost var head0, H0, M0 := head, H, contents;
      Holds();
      StopSplits(head0, H0, M0, s, w);
      var trimmed, postfix;
      split, trimmed, postfix := SplitMismatch(w.h, w.link, w.j);
      MismatchedOk(head0, H0, M0, w.link, w.h, w.j, trimmed, split, postfix);
      PendingAt(s, w.i, split);
    }

    /** The key ends inside a compressed node: the lower half becomes the key. */
    method FinishSplit(s: Key, w: Stop, v: Value)
      requires Valid() && StopOk(head, H, s, w) && !w.inlineLeaf && H[w.h].iscompr && w.i == |s| && w.j > 0
      modifies this, H.Keys
      ensures Valid() && s !in old(contents) && contents == old(contents)[s := v]
      ensures forall n :: n in H && n !in old(H) ==> fresh(n)
    {
      hide *;
      ghost var head0, H0, M0 := head, H, contents;
      Holds();
      StopSplits(head0, H0, M0, s, w);
      var trimmed, postfix := SplitForKey(w.h, w.link, w.j, v);
      KeyedSplitOk(head0, H0, M0, w.link, w.h, w.j, trimmed, postfix, v);
      Grown(M0, contents, s, v);
      Restore();
    }

    /** An inline value is replaced where it is. */
    method StoreInline(h: RaxNode, j: nat, v: Value)
      requires Agrees() && h in H && j < |H[h].slots|
      modifies this`H, this`contents, h`slots
      ensures Agrees() && H == old(H)[h := WithInline(old(H[h]), j, v)]
      ensures contents == old(contents)[old(H[h].At(j)) := v]
    {
      assert h.Is(H[h]);
      h.slots := h.slots[j := Inline(v)];
      H, contents := H[h := WithInline(H[h], j, v)], contents[H[h].At(j) := v];
    }

    method OverwriteInline(s: Key, w: Stop, v: Value)
      requires Valid() && StopOk(head, H, s, w) && w.inlineLeaf && w.i == |s|
      modifies this, w.h
      ensures Valid() && s in old(contents) && contents == old(contents)[s := v] && H.Keys == old(H.Keys)
    {
      hide Tree;
      OverwriteOk(head, H, contents, s, w, v);
      StoreInline(w.h, w.link.idx, v);
    }

    /** The walk stopped without meeting the key: it is hung where the walk stopped. */
    method InsertMissing(s: Key, w: Stop, v: Value)
      requires Valid() && StopOk(head, H, s, w) && Located(s, w) && !AtKey(s, w, H[w.h].iscompr)
      modifies this, H.Keys
      ensures Valid() && contents == old(contents)[s := v]
      ensures forall n :: n in H && n !in old(H) ==> fresh(n)
    {
      hide Tree, Shape, NodeOk, StopOk;
      if w.inlineLeaf {
        var leaf := Uninline(s, w);
        InsertRest(s, w.i, leaf, v);
      } else if w.h.iscompr && w.i != |s| {
        var split := Split(s, w);
        InsertRest(s, w.i, split, v);
      } else if w.h.iscompr {
        FinishSplit(s, w, v);
      } else {
        InsertRest(s, w.i, w.h, v);
      }
    }

    /** raxGenericInsert */
    method GenericInsert(s: Key, v: Value, overwrite: bool) returns (inserted: bool, prev: Option<Value>)
      requires Valid()
      modifies this, H.Keys
      ensures Valid() && inserted == (s !in old(contents))
      ensures prev == if s in old(contents) then Some(old(contents)[s]) else None
      ensures contents == if inserted || overwrite then old(contents)[s := v] else old(contents)
      ensures forall n :: n in H && n !in old(H) ==> fresh(n)
    {
      hide Tree;
      var w := Locate(s);
      prev := None;
      if w.i == |s| && w.inlineLeaf {
        prev := Some(w.h.slots[w.link.idx].value);
        if overwrite { OverwriteInline(s, w, v); }
        return false, prev;
      }
      if w.i == |s| && (!w.h.iscompr || w.j == 0) {
        if w.h.iskey {
          prev := Some(w.h.GetData());
          if overwrite { FinishKey(s, w.h, v); }
          return false, prev;
        }
        FinishKey(s, w.h, v);
        return true, None;
      }
      InsertMissing(s, w, v);
      return true, None;
    }

    method Insert(s: Key, v: Value) returns (inserted: bool, prev: Option<Value>)
      requires Valid()
      modifies this, H.Keys
      ensures Valid() && inserted == (s !in old(contents)) && contents == old(contents)[s := v]
      ensures prev == if s in old(contents) then Some(old(contents)[s]) else None
      ensures forall n :: n in H && n !in old(H) ==> fresh(n)
    {
      inserted, prev := GenericInsert(s, v, true);
    }

    method TryInsert(s: Key, v: Value) returns (inserted: bool, prev: Option<Value>)
      requires Valid()
      modifies this, H.Keys
      ensures Valid() && inserted == (s !in old(contents))
      ensures contents == if inserted then old(contents)[s := v] else old(contents)
      ensures prev == if s in old(contents) then Some(old(contents)[s]) else None
      ensures forall n :: n in H && n !in old(H) ==> fresh(n)
    {
      inserted, prev := GenericInsert(s, v, false);
    }

    // ---- Removal -----------------------------------------------------------------

    /** raxRemoveChildAtPtr: edge and slot i go, the bitmap follows. */
    method RemoveChildAtPtr(h: RaxNode, i: nat)
      requires h in H && h.Is(H[h]) && NodeOk(H[h]) && i < |H[h].slots|
      modifies h
      ensures h.Is(WithoutSlot(H[h], i))
    {
      if h.iscompr {
        var v := h.GetData();
        h.isnull, h.iscompr, h.data, h.slots, h.leafbitmap := false, false, [], [], {};
        if h.iskey { h.SetData(v); }
      } else {
        h.data := RemoveAt(h.data, i);
        h.slots := RemoveAt(h.slots, i);
        h.leafbitmap := BitsAfterRemove(h.leafbitmap, i);
      }
    }

    /** The key stored inline in slot i of h is deleted. */
    method DropInline(h: RaxNode, i: nat)
      requires Agrees() && h in H && NodeOk(H[h]) && i < |H[h].slots| && numele > 0
      modifies this`H, this`numele, this`contents, h
      ensures Agrees() && H == old(H)[h := WithoutSlot(old(H[h]), i)]
      ensures numele == old(numele) - 1 && contents == old(contents) - {old(H[h].At(i))}
    {
      assert h.Is(H[h]);
      RemoveChildAtPtr(h, i);
      numele := numele - 1;
      contents, H := contents - {H[h].At(i)}, H[h := WithoutSlot(H[h], i)];
    }

    /** The node h stops being a key; its stale value stays where it is. */
    method DropKey(h: RaxNode)
      requires Agrees() && h in H && numele > 0
      modifies this`H, this`numele, this`contents, h`iskey
      ensures Agrees() && H == old(H)[h := old(H[h]).(iskey := false)]
      ensures numele == old(numele) - 1 && contents == old(contents) - {old(H[h].prefix)}
    {
      assert h.Is(H[h]);
      h.iskey := false;
      numele := numele - 1;
      contents, H := contents - {H[h].prefix}, H[h := H[h].(iskey := false)];
    }

    /** raxRemoveChild: finds the field that points to b and removes it. b is freed already. */
    method DropChild(h: RaxNode, b: RaxNode, ghost i: nat)
      requires AgreesBut(b) && h in H && h != b && NodeOk(H[h]) && i < |H[h].slots| && H[h].slots[i] == Child(b)
      requires forall k :: 0 <= k < |H[h].slots| && H[h].slots[k] == Child(b) ==> k == i
      modifies this`H, h
      ensures Agrees() && H == Pruned(old(H), h, i, b)
    {
      assert h.Is(H[h]);
      var k := 0;
      while h.slots[k] != Child(b)
        invariant k <= i
        decreases i - k
      {
        k := k + 1;
      }
      RemoveChildAtPtr(h, k);
      H := Pruned(H, h, i, b);
    }

    /** The allocation of b is gone, the field of its parent still points to it. */
    ghost predicate Dangling(b: RaxNode)
      reads this, H.Keys
    {
      && AgreesBut(b) && Tree(head, H, {b}, contents) && numnodes + 1 == |H| && numele == |contents|
      && b in H && H[b].slots == [] && !H[b].iskey
    }

    /** Slot i of h, and no other, still points to b. */
    ghost predicate Hangs(h: RaxNode, i: nat, b: RaxNode)
      reads this`H, H.Keys
    {
      && h in H && h != b && h.Is(H[h]) && NodeOk(H[h]) && i < |H[h].slots| && H[h].slots[i] == Child(b)
      && forall k :: 0 <= k < |H[h].slots| && H[h].slots[k] == Child(b) ==> k == i
    }

    /** Frees h, whose only child was freed before if there was one. */
    method Free(h: RaxNode, child: RaxNode?)
      requires h in H && numnodes > 0 && if child == null then Agrees() else AgreesBut(child)
      requires child != null ==> NodeOk(H[h]) && H[h].slots == [Child(child)]
      modifies this`H, this`numnodes
      ensures AgreesBut(h) && numnodes == old(numnodes) - 1
      ensures H == if child == null then old(H) else Pruned(old(H), h, 0, child)
    {
      numnodes := numnodes - 1;
      if child != null { H := Pruned(H, h, 0, child); }
    }

    lemma DanglingFacts(b: RaxNode)
      requires Dangling(b)
      ensures AgreesBut(b) && Tree(head, H, {b}, contents) && numnodes + 1 == |H| && numele == |contents|
      ensures b in H && H[b].slots == [] && !H[b].iskey
    {
    }

    lemma DanglingAt(b: RaxNode)
      requires AgreesBut(b) && Tree(head, H, {b}, contents) && numnodes + 1 == |H| && numele == |contents|
      requires b in H && H[b].slots == [] && !H[b].iskey
      ensures Dangling(b)
    {
    }

    lemma HangsFacts(h: RaxNode, i: nat, b: RaxNode)
      requires Hangs(h, i, b)
      ensures h in H && h != b && h.Is(H[h]) && NodeOk(H[h]) && i < |H[h].slots| && H[h].slots[i] == Child(b)
      ensures forall k :: 0 <= k < |H[h].slots| && H[h].slots[k] == Child(b) ==> k == i
    {
    }

    lemma HangsAt(h: RaxNode, i: nat, b: RaxNode)
      requires AgreesBut(b) && h in H && h != b && NodeOk(H[h]) && i < |H[h].slots| && H[h].slots[i] == Child(b)
      requires forall k :: 0 <= k < |H[h].slots| && H[h].slots[k] == Child(b) ==> k == i
      ensures Hangs(h, i, b) && h.Is(H[h])
    {
    }

    lemma PartialFacts(holes: set<RaxNode>)
      requires Partial(holes)
      ensures Agrees() && Tree(head, H, holes, contents) && numnodes == |H| && numele == |contents|
    {
    }

    static lemma TwoIn(H: Heap, h: RaxNode, child: RaxNode?)
      requires h in H && (child != null ==> child in H && child != h)
      ensures |H| >= if child == null then 1 else 2
    {
      assert |H.Keys| == |H|;
      if child == null {
        assert {h} <= H.Keys;
        OneIn(H.Keys, {h});
      } else {
        assert {h, child as RaxNode} <= H.Keys;
        OneIn(H.Keys, {h, child as RaxNode});
      }
    }

    static lemma OneIn(S: set<RaxNode>, T: set<RaxNode>)
      requires T <= S
      ensures |T| <= |S|
    {
      assert S == T + (S - T);
    }

    /** The test of raxRemove and of the cleanup for a node with one edge that is no key. */
    lemma ChainTest(h: RaxNode)
      requires h in H && NodeOk(H[h]) && h.Is(H[h])
      ensures |h.data| == 1 && !h.iskey ==> Chainable(H[h])
      ensures h.data != [] ==> (h.iskey || (!h.iscompr && |h.data| != 1) <==> !Chainable(H[h]))
      ensures H[h].slots != [] ==> h.data != []
    {
    }

    /** One round of the cleanup: h is freed and the walk climbs to its parent. */
    method FreeAndClimb(h: RaxNode, child: RaxNode?, stack: seq<RaxNode>)
      returns (p: RaxNode, rest: seq<RaxNode>, stop: bool, ghost i: nat)
      requires h in H && h != head && StackOk(head, H, stack, h) && !H[h].iskey
      requires if child == null then Partial({h}) && H[h].slots == []
               else Dangling(child) && H[h].slots == [Child(child)] && h != child
      modifies this`H, this`numnodes
      ensures contents == old(contents) && head == old(head)
      ensures Dangling(h) && h in old(H) && H.Keys <= old(H.Keys) && |stack| > 0 && |rest| == |stack| - 1
      ensures Hangs(p, i, h) && StackOk(head, H, rest, p) && (stop <==> !Chainable(H[p]))
    {
      hide *;
      if child == null {
        PartialFacts({h});
        TwoIn(H, h, null);
      } else {
        DanglingFacts(child);
        TwoIn(H, h, child);
        FreedUp(head, H, contents, stack, h, child);
      }
      Free(h, child);
      i := Climb(head, H, contents, stack, h);
      p, rest := stack[|stack| - 1], stack[..|stack| - 1];
      DanglingAt(h);
      HangsAt(p, i, h);
      ChainTest(p);
      stop := p.iskey || (!p.iscompr && |p.data| != 1);
    }

    /** The freed child disappears from the node that stays. */
    method Unlink(h: RaxNode, b: RaxNode, stack: seq<RaxNode>, ghost i: nat) returns (trycompress: bool)
      requires Dangling(b) && Hangs(h, i, b)
      requires h == head || !Chainable(H[h])
      requires StackOk(head, H, stack, h)
      modifies this`H, h
      ensures Valid() && contents == old(contents) && H.Keys <= old(H.Keys)
      ensures h in H && StackOk(head, H, stack, h) && (trycompress ==> Chainable(H[h]))
    {
      hide *;
      DanglingFacts(b);
      HangsFacts(h, i, b);
      Unlinked(head, H, contents, stack, h, i, b);
      DropChild(h, b, i);
      NodeIs(h);
      ChainTest(h);
      trycompress := |h.data| == 1 && !h.iskey;
      Restore();
    }

    /** The loop of raxRemoveCleanup: frees h0 and every chain node above it. */
    method FreeChain(h0: RaxNode, stack0: seq<RaxNode>)
      returns (h: RaxNode, stack: seq<RaxNode>, child: RaxNode?, ghost i: nat)
      requires Partial({h0}) && h0 in H && H[h0].slots == [] && !H[h0].iskey && StackOk(head, H, stack0, h0)
      modifies this`H, this`numnodes
      ensures contents == old(contents) && head == old(head) && H.Keys <= old(H.Keys)
      ensures h in H && StackOk(head, H, stack, h)
      ensures child == null ==> Valid()
      ensures child != null ==>
        Dangling(child) && Hangs(h, i, child) && (h == head || !Chainable(H[h]))
    {
      hide Tree, Shape, StackOk, AgreesBut, NodeOk;
      EmptyHead(head, H, contents, h0);
      child, i := null, 0;
      h, stack := h0, stack0;
      var stop := false;
      while h != head && !stop
        invariant h in H && StackOk(head, H, stack, h) && H.Keys <= old(H.Keys)
        invariant contents == old(contents) && head == old(head)
        invariant child == null ==>
          !stop && h == h0 && Partial({h}) && H[h].slots == [] && !H[h].iskey && (h == head ==> Valid())
        invariant child != null ==> Dangling(child) && Hangs(h, i, child) && (stop <==> !Chainable(H[h]))
        decreases |stack|
      {
        var b := h;
        h, stack, stop, i := FreeAndClimb(h, child, stack);
        child := b;
      }
    }

    /** raxRemoveCleanup: frees the chain that led only to h and unlinks it. */
    method RemoveCleanup(h0: RaxNode, stack0: seq<RaxNode>) returns (h: RaxNode, stack: seq<RaxNode>, trycompress: bool)
      requires Partial({h0}) && h0 in H && H[h0].slots == [] && !H[h0].iskey && StackOk(head, H, stack0, h0)
      modifies this, H.Keys
      ensures Valid() && contents == old(contents) && H.Keys <= old(H.Keys)
      ensures h in H && StackOk(head, H, stack, h)
      ensures trycompress ==> Chainable(H[h])
    {
      hide Tree;
      var child; ghost var i;
      h, stack, child, i := FreeChain(h0, stack0);
      trycompress := false;
      if child != null {
        trycompress := Unlink(h, child, stack, i);
      }
    }

    /** Goes up while the parent belongs to the same chain. */
    method ClimbToStart(h: RaxNode, stack0: seq<RaxNode>) returns (start: RaxNode, parent: RaxNode?)
      requires Valid() && h in H && Chainable(H[h]) && StackOk(head, H, stack0, h)
      ensures start in H && Chainable(H[start])
      ensures parent == null <==> start == head
      ensures parent != null ==> StepTo(H, parent, start) && !Chainable(H[parent])
    {
      start, parent := h, null;
      var stack := stack0;
      while true
        invariant start in H && Chainable(H[start]) && StackOk(head, H, stack, start)
        decreases |stack|
      {
        PopStack(head, H, stack, start);
        if stack == [] { return start, null; }
        var p := stack[|stack| - 1];
        stack := stack[..|stack| - 1];
        assert p.Is(H[p]) && NodeOk(H[p]);
        if p.iskey || (!p.iscompr && |p.data| != 1) { return start, p; }
        start := p;
      }
    }

    /** The next node of the chain, if there is one. */
    method NextInChain(h: RaxNode) returns (next: RaxNode?)
      requires Shape(head, H) && Agrees() && h in H && h.Is(H[h]) && Chainable(H[h]) && NodeOk(H[h])
      ensures KidsIn(H[h], H)
      ensures next == null ==> H[h].slots[0].Inline? || !Chainable(H[H[h].slots[0].node])
      ensures next != null ==> next in H && next.Is(H[next]) && NodeOk(H[next]) && Chainable(H[next])
      ensures next != null ==> H[h].slots == [Child(next)] && |H[next].prefix| > |H[h].prefix|
    {
      assert KidsIn(H[h], H);
      var last := if h.iscompr then 0 else |h.data| - 1;
      if h.IsInlineLeaf(last) { return null; }
      var c := h.slots[last].node;
      OneStep(head, H, h, c);
      assert c.Is(H[c]);
      if c.iskey || (!c.iscompr && |c.data| != 1) { return null; }
      return c;
    }

    /** The counting scan: the nodes that fit one compressed node, and their bytes. */
    method ScanChain(start: RaxNode) returns (comprsize: nat, nodes: nat, ghost c: seq<RaxNode>)
      requires Valid() && start in H && Chainable(H[start])
      ensures ChainOk(H, c) && c[0] == start && nodes == |c| && comprsize == |ChainData(H, c)|
      ensures ChainEnds(H, c) || CutOff(H, c)
    {
      var h := start;
      assert h.Is(H[h]) && NodeOk(H[h]);
      comprsize, nodes, c := |h.data|, 1, [start];
      assert c[..0] == [];
      ghost var b := SomeBound(H);
      hide Tree, Shape, ChainData;
      while true
        invariant ChainOk(H, c) && c[0] == start && nodes == |c| && comprsize == |ChainData(H, c)|
        invariant h == c[|c| - 1] && h.Is(H[h])
        decreases b - |H[h].prefix|
      {
        assert Shape(head, H);
        var next := NextInChain(h);
        if next == null || comprsize + |next.data| > MAX_SIZE { return; }
        ChainExtend(H, c, next);
        h, nodes, comprsize, c := next, nodes + 1, comprsize + |next.data|, c + [next];
      }
    }

    /** memcpy into the new node; it must not run past the end. */
    static method CopyBytes(buf: array<Byte>, at: nat, d: Key)
      requires at + |d| <= buf.Length
      modifies buf
      ensures buf[..at + |d|] == old(buf[..at]) + d
    {
      for i := 0 to |d|
        invariant buf[..at] == old(buf[..at]) && buf[at..at + i] == d[..i]
      {
        buf[at + i] := d[i];
      }
    }

    /** Copies the bytes of a chain node and frees it. */
    method TakeNode(h: RaxNode, buf: array<Byte>, at: nat) returns (at': nat, slot: Slot)
      requires Agrees() && h in H && NodeOk(H[h]) && |H[h].slots| == 1 && numnodes > 0
      requires at + |H[h].data| <= buf.Length
      modifies this`numnodes, buf
      ensures Agrees() && numnodes == old(numnodes) - 1
      ensures at' == at + |H[h].data| && buf[..at'] == old(buf[..at]) + H[h].data && [slot] == H[h].slots
    {
      assert h.Is(H[h]);
      CopyBytes(buf, at, h.data);
      numnodes := numnodes - 1;
      return at + |h.data|, h.slots[if h.iscompr then 0 else |h.data| - 1];
    }

    /** One round of the populating scan: node k of the chain is copied and freed. */
    method TakeNext(h: RaxNode, buf: array<Byte>, at: nat, ghost c: seq<RaxNode>, ghost k: nat)
      returns (next: RaxNode?, at': nat, slot: Slot)
      requires Shape(head, H) && Agrees() && ChainOk(H, c) && ChainEnds(H, c) && k < |c| && h == c[k] && numnodes > 0
      requires buf.Length == |ChainData(H, c)| && at <= buf.Length && buf[..at] == ChainData(H, c[..k])
      modifies this`numnodes, buf
      ensures Agrees() && numnodes == old(numnodes) - 1 && at' <= buf.Length && buf[..at'] == ChainData(H, c[..k + 1])
      ensures next == null ==> k == |c| - 1 && [slot] == H[h].slots
      ensures next != null ==> k + 1 < |c| && next == c[k + 1]
    {
      hide *;
      ChainNode(H, c, k);
      NodeIs(h);
      next := NextInChain(h);
      if next == null { ChainLast(H, c, k); } else { ChainNext(H, c, k, next); }
      at', slot := TakeNode(h, buf, at);
    }

    /** The populating scan: copies the bytes of the chain, frees its nodes and returns the bytes
        with the slot below the last node. The buffer of comprsize bytes is filled exactly. */
    method Populate(start: RaxNode, comprsize: nat, ghost c: seq<RaxNode>) returns (data: Key, slot: Slot)
      requires Shape(head, H) && Agrees() && ChainOk(H, c) && ChainEnds(H, c) && c[0] == start
      requires comprsize == |ChainData(H, c)| && numnodes >= |c|
      modifies this`numnodes
      ensures numnodes == old(numnodes) - |c|
      ensures data == ChainData(H, c) && [slot] == H[c[|c| - 1]].slots
    {
      var buf := new Byte[comprsize];
      var size: nat, h := 0, start;
      ghost var k: nat := 0;
      hide *;
      ChainEmpty(H, c);
      assert buf[..0] == [];
      while true
        invariant Agrees() && k < |c| && h == c[k] && numnodes == old(numnodes) - k
        invariant size <= buf.Length && buf[..size] == ChainData(H, c[..k])
        decreases |c| - k
      {
        var next;
        next, size, slot := TakeNext(h, buf, size, c, k);
        if next == null { return buf[..], slot; }
        h, k := next, k + 1;
      }
    }

    /** raxFindParentLink: the field of parent that points to h. */
    method FindParentLink(parent: RaxNode, h: RaxNode) returns (i: nat)
      requires Agrees() && StepTo(H, parent, h)
      ensures i < |H[parent].slots| && H[parent].slots[i] == Child(h)
    {
      assert parent.Is(H[parent]);
      ghost var k: nat :| k < |H[parent].slots| && H[parent].slots[k] == Child(h);
      i := 0;
      while parent.slots[i] != Child(h)
        invariant i <= k
        decreases k - i
      {
        i := i + 1;
      }
    }

    /** The joined node takes the place of the chain. */
    method Install(link: Link, new': RaxNode, ghost J: Heap)
      requires Agrees() && new' !in H && new' in J && new'.Is(J[new'])
      requires link.SlotLink? ==> link.node in H && link.idx < |H[link.node].slots|
      requires forall n :: n in J && n != new' ==> n in H && J[n] == Linked(H[n], n, link, new')
      modifies this`head, this`H
      modifies if link.SlotLink? then {link.node} else {}
      ensures H == J && Agrees() && head == NewHead(old(head), link, new')
      ensures contents == old(contents) && numele == old(numele) && numnodes == old(numnodes)
    {
      SetLink(link, new');
      H := J;
    }

    /** The new node for the chain c, filled while the old nodes are freed. */
    method JoinedNode(start: RaxNode, comprsize: nat, ghost c: seq<RaxNode>, new': RaxNode)
      requires Shape(head, H) && Agrees() && ChainOk(H, c) && ChainEnds(H, c) && c[0] == start
      requires comprsize == |ChainData(H, c)| && numnodes + 1 >= |c| && new' !in H && new'.leafbitmap == {}
      requires !new'.iskey
      modifies this`numnodes, new'
      ensures contents == old(contents) && numele == old(numele)
      ensures numnodes == old(numnodes) + 1 - |c| && !new'.iskey && new'.iscompr && new'.data == ChainData(H, c)
      ensures var z := H[c[|c| - 1]]; new'.slots == z.slots && new'.leafbitmap == z.bits
    {
      ghost var last := c[|c| - 1];
      assert last in H && NodeOk(H[last]);
      numnodes := numnodes + 1;
      var data, slot := Populate(start, comprsize, c);
      new'.iscompr, new'.data, new'.slots := true, data, [slot];
      if slot.Inline? { new'.leafbitmap := {0}; }
      SingleBits(H[last]);
    }

    /** The field that holds the pointer to start. */
    method LinkTo(parent: RaxNode?, start: RaxNode) returns (link: Link)
      requires Agrees() && (if parent == null then start == head else StepTo(H, parent, start))
      ensures LinkOk(head, H, link, start)
    {
      if parent == null { return HeadLink; }
      var i := FindParentLink(parent, start);
      return SlotLink(parent, i);
    }

    method JoinNodes(start: RaxNode, parent: RaxNode?, comprsize: nat, ghost c: seq<RaxNode>)
      requires Valid() && ChainOk(H, c) && ChainEnds(H, c) && c[0] == start && |c| > 1
      requires comprsize == |ChainData(H, c)| <= MAX_SIZE
      requires if parent == null then start == head else StepTo(H, parent, start)
      modifies this, H.Keys
      ensures Valid() && contents == old(contents)
      ensures forall n :: n in H && n !in old(H) ==> fresh(n)
    {
      hide *;
      Holds();
      var link := LinkTo(parent, start);
      var new' := new RaxNode([]);
      ghost var J := Rejoined(head, H, contents, link, c, new');
      JoinedNode(start, comprsize, c, new');
      Install(link, new', J);
      Restore();
    }

    /** Joins the chain through h into one node if it has more than one. */
    method Recompress(h: RaxNode, stack: seq<RaxNode>)
      requires Valid() && KeysFit(contents) && h in H && Chainable(H[h]) && StackOk(head, H, stack, h)
      modifies this, H.Keys
      ensures Valid() && contents == old(contents)
      ensures forall n :: n in H && n !in old(H) ==> fresh(n)
    {
      var start, parent := ClimbToStart(h, stack);
      var comprsize, nodes; ghost var c;
      comprsize, nodes, c := ScanChain(start);
      NeverCutOff(head, H, contents, c);
      if nodes > 1 {
        JoinNodes(start, parent, comprsize, c);
      }
    }

    /** An inline key is deleted in its node, which may then have nothing left. */
    method RemoveInline(s: Key, w: Stop) returns (h: RaxNode, stack: seq<RaxNode>, trycompress: bool)
      requires Valid() && StopOk(head, H, s, w) && w.inlineLeaf && w.i == |s|
      modifies this, H.Keys
      ensures Valid() && contents == old(contents) - {s} && H.Keys <= old(H.Keys)
      ensures trycompress ==> h in H && Chainable(H[h]) && StackOk(head, H, stack, h)
    {
      hide Tree, Shape, StackOk;
      InlineGone(head, H, contents, s, w);
      h, stack := w.h, w.stack;
      DropInline(h, w.link.idx);
      assert h.Is(H[h]);
      if |h.data| == 0 && !h.iskey {
        h, stack, trycompress := RemoveCleanup(h, stack);
      } else {
        NoHole(head, H, contents, h);
        trycompress := |h.data| == 1 && !h.iskey;
      }
    }

    /** A node stops being a key, and goes away if it has no children. */
    method RemoveKey(s: Key, h0: RaxNode, stack0: seq<RaxNode>)
      returns (h: RaxNode, stack: seq<RaxNode>, trycompress: bool)
      requires Valid() && h0 in H && H[h0].iskey && H[h0].prefix == s && StackOk(head, H, stack0, h0)
      modifies this, H.Keys
      ensures Valid() && contents == old(contents) - {s} && H.Keys <= old(H.Keys)
      ensures trycompress ==> h in H && Chainable(H[h]) && StackOk(head, H, stack, h)
    {
      hide Tree;
      KeyGone(head, H, contents, s, h0, stack0);
      h, stack := h0, stack0;
      DropKey(h);
      assert h.Is(H[h]);
      if |h.data| == 0 {
        h, stack, trycompress := RemoveCleanup(h, stack);
      } else {
        NoHole(head, H, contents, h);
        trycompress := |h.data| == 1;
      }
    }

    /** raxRemove. The keys that stay must be at most 65535 bytes long. */
    method Remove(s: Key) returns (removed: bool, prev: Option<Value>)
      requires Valid() && (s in contents ==> KeysFit(contents - {s}))
      modifies this, H.Keys
      ensures Valid() && removed == (s in old(contents)) && contents == old(contents) - {s}
      ensures prev == if s in old(contents) then Some(old(contents)[s]) else None
      ensures forall n :: n in H && n !in old(H) ==> fresh(n)
    {
      hide Tree;
      var h, stack, trycompress;
      var w := Locate(s);
      if w.i == |s| && w.inlineLeaf {
        prev := Some(w.h.slots[w.link.idx].value);
        h, stack, trycompress := RemoveInline(s, w);
      } else if w.i != |s| || (w.h.iscompr && w.j != 0) || !w.h.iskey {
        assert contents - {s} == contents;
        return false, None;
      } else {
        prev := Some(w.h.GetData());
        h, stack, trycompress := RemoveKey(s, w.h, w.stack);
      }
      assert s in old(contents);
      if trycompress { Recompress(h, stack); }
      return true, prev;
    }
  }
}
