/** The two node splits of insertion as compositions of a move and cuts. */
module RaxSplit {
  import opened RaxKeys
  import opened RaxTheory
  import opened RaxEdits
  import opened RaxSteps
  import opened RaxReshape
  import opened RaxWalk

  function NewHead(head: RaxNode, link: Link, h': RaxNode): RaxNode {
    if link.HeadLink? then h' else head
  }

  /** The heap after h was copied to h' and the field `link` was pointed there. */
  function Relocated(H: Heap, link: Link, h: RaxNode, h': RaxNode): Heap
    requires h in H && (link.SlotLink? ==> link.node in H && link.idx < |H[link.node].slots|)
  {
    match link
    case HeadLink => (H - {h})[h' := H[h]]
    case SlotLink(p, k) => Moved(H, h, h', p, k)
  }

  /** x is the node n once the field `link` points to new'. */
  function Linked(x: N, n: RaxNode, link: Link, new': RaxNode): N {
    if link.SlotLink? && link.node == n && link.idx < |x.slots| then Relink(x, link.idx, new') else x
  }

  /** What moving h to new' leaves at another node. */
  lemma RelocatedNode(H: Heap, link: Link, h: RaxNode, new': RaxNode, n: RaxNode)
    requires h in H && new' !in H
    requires (link.SlotLink? ==> link.node in H && link.idx < |H[link.node].slots| && link.node != h)
    ensures var G := Relocated(H, link, h, new');
      && new' in G && G[new'] == H[h] && h !in G
      && (n != new' ==> (n in G <==> n in H && n != h))
      && (n in G && n != new' ==> G[n] == Linked(H[n], n, link, new'))
  {
  }

  lemma RelocateOk(head: RaxNode, H: Heap, holes: set<RaxNode>, M: map<Key, Value>, link: Link, h: RaxNode, h': RaxNode)
    requires Tree(head, H, holes, M) && h in H && h' !in H && LinkOk(head, H, link, h)
    ensures var H' := Relocated(H, link, h, h');
      && Tree(NewHead(head, link, h'), H', MovedHoles(holes, h, h'), M)
      && H'.Keys == H.Keys - {h} + {h'} && |H'| == |H| && H'[h'] == H[h]
      && LinkOk(NewHead(head, link, h'), H', link, h')
    ensures link.SlotLink? ==> link.node != h && NewHead(head, link, h') == head
  {
    var H' := Relocated(H, link, h, h');
    hide Tree, Shape, Leaves, Denotes, MovedHoles, NodeOk;
    match link {
      case HeadLink => MoveHeadOk(head, H, holes, M, h');
      case SlotLink(p, k) => MoveOk(head, H, holes, M, h, h', p, k);
    }
    assert H'.Keys == H.Keys - {h} + {h'};
    assert |H'.Keys| == |H.Keys|;
  }

  /** Cut node a after j bytes; the rest goes to b. */
  function Cut(H: Heap, a: RaxNode, j: nat, b: RaxNode): Heap
    requires a in H && j <= |H[a].data|
  {
    H[a := Top(H[a], j, b)][b := Bottom(H[a], j)]
  }

  lemma CutOk(head: RaxNode, H: Heap, M: map<Key, Value>, a: RaxNode, j: nat, b: RaxNode)
    requires Tree(head, H, {}, M) && a in H && b !in H && H[a].iscompr && 0 < j < |H[a].data|
    ensures Tree(head, Cut(H, a, j, b), {}, M) && |Cut(H, a, j, b)| == |H| + 1
    ensures Cut(H, a, j, b).Keys == H.Keys + {b}
    ensures LinkOk(head, Cut(H, a, j, b), SlotLink(a, 0), b)
  {
    SplitAtOk(head, H, {}, M, a, j, b);
    var H' := Cut(H, a, j, b);
    assert H'.Keys == H.Keys + {b};
    assert |H'.Keys| == |H.Keys| + 1;
  }

  // ---- A mismatch inside a compressed node ---------------------------------------

  /** x with its first j bytes gone: what the split node stands for until the bytes
      after the first are moved to a node of their own. */
  predicate TailOf(y: N, x: N, j: nat)
    requires j <= |x.data|
  {
    && y.prefix == x.prefix + x.data[..j] && y.data == x.data[j..] && y.slots == x.slots && y.bits == x.bits
    && (y.iscompr <==> |x.data| - j > 1)
  }

  lemma BottomIsTail(x: N, j: nat)
    requires j <= |x.data|
    ensures TailOf(Bottom(x, j), x, j)
  {
  }

  /** Replacing h by its first j bytes in `trimmed` and the rest in `split`. */
  function Trimmed(H: Heap, link: Link, h: RaxNode, j: nat, trimmed: RaxNode, split: RaxNode): Heap
    requires h in H && (link.SlotLink? ==> link.node in H && link.idx < |H[link.node].slots| && link.node != h)
    requires j <= |H[h].data| && trimmed != h && trimmed !in H
  {
    Cut(Relocated(H, link, h, trimmed), trimmed, j, split)
  }

  /** What Trimmed leaves at a node other than split. */
  lemma TrimmedNode(H: Heap, link: Link, h: RaxNode, j: nat, trimmed: RaxNode, split: RaxNode, n: RaxNode)
    requires h in H && (link.SlotLink? ==> link.node in H && link.idx < |H[link.node].slots| && link.node != h)
    requires j <= |H[h].data| && trimmed != h && trimmed !in H && n != split
    ensures var G := Trimmed(H, link, h, j, trimmed, split);
      n in G ==>
        if n == trimmed then G[n] == Top(H[h], j, split) else n in H && n != h && G[n] == Linked(H[n], n, link, trimmed)
  {
    RelocatedNode(H, link, h, trimmed, n);
    hide Relocated, Linked, Top, Bottom;
  }

  /** The split node before its own cut: what h has from byte j on. */
  lemma MismatchTail(H: Heap, link: Link, h: RaxNode, j: nat, trimmed: RaxNode, split: RaxNode)
    requires h in H && j < |H[h].data| && H[h].iscompr && |H[h].data| > 1 && split !in H && trimmed !in H
    requires (j > 0 ==> trimmed != split)
    requires link.SlotLink? ==> link.node in H && link.idx < |H[link.node].slots| && link.node != h
    ensures var H1 := if j == 0 then Relocated(H, link, h, split) else Trimmed(H, link, h, j, trimmed, split);
      && split in H1 && H1[split].data == H[h].data[j..] && H1[split].slots == H[h].slots && H1[split].bits == H[h].bits
      && (H1[split].iscompr <==> |H[h].data| - j > 1) && (j > 0 ==> !H1[split].iskey)
  {
  }

  lemma TrimmedTail(H: Heap, link: Link, h: RaxNode, j: nat, trimmed: RaxNode, split: RaxNode)
    requires h in H && j <= |H[h].data| && trimmed !in H
    requires (link.SlotLink? ==> link.node in H && link.idx < |H[link.node].slots| && link.node != h)
    ensures var H' := Trimmed(H, link, h, j, trimmed, split); split in H' && H'[split] == Bottom(H[h], j)
    ensures var H1 := Relocated(H, link, h, trimmed);
      trimmed in H1 && H1[trimmed] == H[h] && Trimmed(H, link, h, j, trimmed, split) == Cut(H1, trimmed, j, split)
  {
  }

  lemma TrimmedOk(head: RaxNode, H: Heap, M: map<Key, Value>, link: Link, h: RaxNode, j: nat, trimmed: RaxNode,
                  split: RaxNode)
    requires Tree(head, H, {}, M) && h in H && H[h].iscompr && 0 < j < |H[h].data| && LinkOk(head, H, link, h)
    requires trimmed !in H && split !in H && trimmed != split
    ensures link.SlotLink? ==> link.node != h
    ensures var H' := Trimmed(H, link, h, j, trimmed, split);
      && Tree(NewHead(head, link, trimmed), H', {}, M)
      && |H'| == |H| + 1 && H'.Keys == H.Keys - {h} + {trimmed} + {split}
      && LinkOk(NewHead(head, link, trimmed), H', SlotLink(trimmed, 0), split)
      && TailOf(H'[split], H[h], j)
  {
    assert MovedHoles({}, h, trimmed) == {};
    hide *;
    RelocateOk(head, H, {}, M, link, h, trimmed);
    CutOk(NewHead(head, link, trimmed), Relocated(H, link, h, trimmed), M, trimmed, j, split);
    TrimmedTail(H, link, h, j, trimmed, split);
    BottomIsTail(H[h], j);
  }

  lemma ReplacedOk(head: RaxNode, H: Heap, M: map<Key, Value>, link: Link, h: RaxNode, split: RaxNode)
    requires Tree(head, H, {}, M) && h in H && H[h].iscompr && LinkOk(head, H, link, h) && split !in H
    ensures link.SlotLink? ==> link.node != h
    ensures var H' := Relocated(H, link, h, split);
      && Tree(NewHead(head, link, split), H', {}, M)
      && |H'| == |H| && H'.Keys == H.Keys - {h} + {split}
      && LinkOk(NewHead(head, link, split), H', link, split)
      && TailOf(H'[split], H[h], 0)
  {
    assert NodeOk(H[h]);
    RelocateOk(head, H, {}, M, link, h, split);
    assert H[h].prefix + H[h].data[..0] == H[h].prefix && H[h].data[0..] == H[h].data;
  }

  /** The cut after the first byte, when something remains after it. */
  lemma PostfixOk(head: RaxNode, H: Heap, M: map<Key, Value>, link: Link, split: RaxNode, postfix: RaxNode)
    requires Tree(head, H, {}, M) && split in H && H[split].iscompr && postfix !in H && LinkOk(head, H, link, split)
    requires |H[split].data| > 1
    ensures var H' := Cut(H, split, 1, postfix);
      && Tree(head, H', {}, M) && |H'| == |H| + 1 && H'.Keys == H.Keys + {postfix}
      && LinkOk(head, H', link, split)
      && H'[split].prefix == H[split].prefix && H'[split].data == [H[split].data[0]] && !H'[split].iscompr
  {
    CutOk(head, H, M, split, 1, postfix);
    if link.SlotLink? && link.node == split {
      OneLink(head, H, split, link.idx, split, link.idx, split);
    }
  }

  /** The heap after the split at a mismatch in byte j of h. */
  function Mismatched(H: Heap, link: Link, h: RaxNode, j: nat, trimmed: RaxNode, split: RaxNode, postfix: RaxNode): Heap
    requires h in H && j < |H[h].data| && split !in H && (j > 0 ==> trimmed !in H && trimmed != split)
    requires link.SlotLink? ==> link.node in H && link.idx < |H[link.node].slots| && link.node != h
  {
    var H1 := if j == 0 then Relocated(H, link, h, split) else Trimmed(H, link, h, j, trimmed, split);
    if j + 1 < |H[h].data| then Cut(H1, split, 1, postfix) else H1
  }

  lemma MismatchedIs(H: Heap, link: Link, h: RaxNode, j: nat, trimmed: RaxNode, split: RaxNode, postfix: RaxNode)
    requires h in H && j < |H[h].data| && split !in H && (j > 0 ==> trimmed !in H && trimmed != split)
    requires link.SlotLink? ==> link.node in H && link.idx < |H[link.node].slots| && link.node != h
    ensures var H1 := if j == 0 then Relocated(H, link, h, split) else Trimmed(H, link, h, j, trimmed, split);
      split in H1 && |H1[split].data| == |H[h].data| - j
      && Mismatched(H, link, h, j, trimmed, split, postfix) ==
        if j + 1 < |H[h].data| then Cut(H1, split, 1, postfix) else H1
  {
  }

  lemma MismatchedOk(head: RaxNode, H: Heap, M: map<Key, Value>, link: Link, h: RaxNode, j: nat,
                     trimmed: RaxNode, split: RaxNode, postfix: RaxNode)
    requires Tree(head, H, {}, M) && h in H && H[h].iscompr && j < |H[h].data| && LinkOk(head, H, link, h)
    requires link.SlotLink? ==> link.node != h
    requires split !in H && (j > 0 ==> trimmed !in H && trimmed != split)
    requires j + 1 < |H[h].data| ==> postfix !in H && postfix != split && postfix != trimmed
    ensures var H' := Mismatched(H, link, h, j, trimmed, split, postfix);
      var head' := NewHead(head, link, if j == 0 then split else trimmed);
      && Tree(head', H', {}, M)
      && |H'| == |H| + (if j == 0 then 0 else 1) + (if j + 1 < |H[h].data| then 1 else 0)
      && (forall n :: n in H' ==> n in H || n == split || n == trimmed || n == postfix)
      && split in H' && H'[split].prefix == H[h].prefix + H[h].data[..j] && NodeOk(H'[split])
      && H'[split].data == [H[h].data[j]] && !H'[split].iscompr && Tree(head', H', {split}, M)
  {
    hide Tree;
    var head' := NewHead(head, link, if j == 0 then split else trimmed);
    var H1, link1;
    if j == 0 {
      ReplacedOk(head, H, M, link, h, split);
      H1, link1 := Relocated(H, link, h, split), link;
    } else {
      TrimmedOk(head, H, M, link, h, j, trimmed, split);
      H1, link1 := Trimmed(H, link, h, j, trimmed, split), SlotLink(trimmed, 0);
    }
    if j + 1 < |H[h].data| {
      PostfixOk(head', H1, M, link1, split, postfix);
    }
    MoreHoles(head', Mismatched(H, link, h, j, trimmed, split, postfix), M, split);
    TreeNode(head', Mismatched(H, link, h, j, trimmed, split, postfix), {}, M, split);
  }

  /** What a stop inside a compressed node means for splitting it there. */
  lemma StopSplits(head: RaxNode, H: Heap, M: map<Key, Value>, s: Key, w: Stop)
    requires Tree(head, H, {}, M) && StopOk(head, H, s, w) && !w.inlineLeaf && H[w.h].iscompr
    requires w.i < |s| || w.j > 0
    ensures s !in M && w.h in H && NodeOk(H[w.h]) && LinkOk(head, H, w.link, w.h)
    ensures w.i <= |s| && (w.i == |s| ==> s[..w.i] == s)
    ensures w.link.SlotLink? ==> w.link.node in H && w.link.idx < |H[w.link.node].slots| && w.link.node != w.h
    ensures w.j < |H[w.h].data| && H[w.h].prefix + H[w.h].data[..w.j] == s[..w.i]
    ensures w.i < |s| ==> s[w.i] !in [H[w.h].data[w.j]]
  {
    StopMiss(head, H, M, s, w);
    StopInside(head, H, s, w);
    assert NodeOk(H[w.h]);
    if w.link.SlotLink? { OneLink(head, H, w.link.node, w.link.idx, w.link.node, w.link.idx, w.h); }
  }

  // ---- A key that ends inside a compressed node -------------------------------------

  /** The heap after h was cut at byte j and the lower part became a key. */
  function KeyedSplit(H: Heap, link: Link, h: RaxNode, j: nat, trimmed: RaxNode, postfix: RaxNode, v: Value): Heap
    requires h in H && j <= |H[h].data| && trimmed !in H
    requires link.SlotLink? ==> link.node in H && link.idx < |H[link.node].slots| && link.node != h
  {
    var H1 := Trimmed(H, link, h, j, trimmed, postfix);
    H1[postfix := WithData(H1[postfix], v)]
  }

  lemma KeyedSplitIs(H: Heap, link: Link, h: RaxNode, j: nat, trimmed: RaxNode, postfix: RaxNode, v: Value)
    requires h in H && j <= |H[h].data| && trimmed !in H
    requires (link.SlotLink? ==> link.node in H && link.idx < |H[link.node].slots| && link.node != h)
    ensures KeyedSplit(H, link, h, j, trimmed, postfix, v) ==
      Trimmed(H, link, h, j, trimmed, postfix)[postfix := WithData(Bottom(H[h], j), v)]
  {
    TrimmedTail(H, link, h, j, trimmed, postfix);
    hide Trimmed, Bottom;
  }

  lemma KeyedSplitOk(head: RaxNode, H: Heap, M: map<Key, Value>, link: Link, h: RaxNode, j: nat,
                     trimmed: RaxNode, postfix: RaxNode, v: Value)
    requires Tree(head, H, {}, M) && h in H && H[h].iscompr && 0 < j < |H[h].data| && LinkOk(head, H, link, h)
    requires trimmed !in H && postfix !in H && trimmed != postfix
    ensures link.SlotLink? ==> link.node != h
    ensures var H' := KeyedSplit(H, link, h, j, trimmed, postfix, v);
      && Tree(NewHead(head, link, trimmed), H', {}, M[H[h].prefix + H[h].data[..j] := v])
      && |H'| == |H| + 1 && (forall n :: n in H' ==> n in H || n == trimmed || n == postfix)
  {
    hide Tree;
    assert {} - {postfix} == {};
    TrimmedOk(head, H, M, link, h, j, trimmed, postfix);
    var H1 := Trimmed(H, link, h, j, trimmed, postfix);
    SetKeyOk(NewHead(head, link, trimmed), H1, {}, M, postfix, v);
    assert H1[postfix := WithData(H1[postfix], v)].Keys == H1.Keys;
  }

  /** What a stop in front of an inline value means for moving that value out. */
  lemma UninlineOk(head: RaxNode, H: Heap, M: map<Key, Value>, s: Key, w: Stop)
    requires Tree(head, H, {}, M) && StopOk(head, H, s, w) && w.inlineLeaf && w.i < |s|
    ensures s !in M && w.h in H && NodeOk(H[w.h]) && w.link.SlotLink?
    ensures w.link.idx < |H[w.h].slots| && H[w.h].slots[w.link.idx].Inline? && H[w.h].At(w.link.idx) == s[..w.i]
  {
    StopMiss(head, H, M, s, w);
    assert NodeOk(H[w.h]);
  }

  lemma UninlinedOk(head: RaxNode, H: Heap, M: map<Key, Value>, h: RaxNode, j: nat, leaf: RaxNode)
    requires Tree(head, H, {}, M) && h in H && j < |H[h].slots| && H[h].slots[j].Inline? && leaf !in H
    ensures var H' := MaterializedHeap(H, h, j, leaf);
      && Tree(head, H', {leaf}, M) && |H'| == |H| + 1
      && leaf in H' && (exists v :: H'[leaf] == Leaf(v, H[h].At(j))) && forall n :: n in H' ==> n in H || n == leaf
  {
    hide Tree;
    MaterializeOk(head, H, {}, M, h, j, leaf);
    MoreHoles(head, MaterializedHeap(H, h, j, leaf), M, leaf);
    assert MaterializedHeap(H, h, j, leaf)[leaf] == Leaf(H[h].slots[j].value, H[h].At(j));
  }

  // ---- A walk that found its key ----------------------------------------------------

  lemma OverwriteOk(head: RaxNode, H: Heap, M: map<Key, Value>, s: Key, w: Stop, v: Value)
    requires Tree(head, H, {}, M) && StopOk(head, H, s, w) && w.inlineLeaf && w.i == |s|
    ensures s in M && H[w.h].At(w.link.idx) == s
    ensures var H' := H[w.h := WithInline(H[w.h], w.link.idx, v)];
      Tree(head, H', {}, M[s := v]) && |H'| == |H| && H'.Keys == H.Keys
  {
    StopHit(head, H, M, s, w);
    SetInlineOk(head, H, {}, M, w.h, w.link.idx, v);
    var H' := H[w.h := WithInline(H[w.h], w.link.idx, v)];
    assert H'.Keys == H.Keys;
    assert |H'.Keys| == |H.Keys|;
  }
}
