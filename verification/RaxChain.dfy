/** Chains of single-child nodes and what joining them into one compressed node does. */
module RaxChain {
  import opened Basics
  import opened RaxKeys
  import opened RaxTheory
  import opened RaxEdits
  import opened RaxSteps
  import opened RaxReshape
  import opened RaxWalk
  import opened RaxSplit
  import opened RaxPrune

  // ---- Paths are no longer than keys ----------------------------------------------------

  ghost predicate Bounded(H: Heap, b: nat) {
    forall n {:trigger H[n]} :: n in H ==> |H[n].prefix| <= b
  }

  lemma {:induction false} SomeBound(H: Heap) returns (b: nat)
    ensures Bounded(H, b)
    decreases |H|
  {
    if H == map[] {
      b := 0;
    } else {
      var n :| n in H;
      assert |H - {n}| < |H| by { assert (H - {n}).Keys == H.Keys - {n}; }
      var b' := SomeBound(H - {n});
      b := if |H[n].prefix| > b' then |H[n].prefix| else b';
      forall m | m in H ensures |H[m].prefix| <= b {
        if m != n { assert m in H - {n} && |(H - {n})[m].prefix| <= b'; }
      }
    }
  }

  /** Below every node of a nonempty tree there is a key, so its path is part of one. */
  lemma {:induction false} PathInKey(head: RaxNode, H: Heap, M: map<Key, Value>, n: RaxNode, b: nat) returns (k: Key)
    requires Tree(head, H, {}, M) && n in H && Bounded(H, b) && H[n].slots != []
    ensures k in M && H[n].At(0) <= k
    decreases b - |H[n].prefix|
  {
    var x := H[n];
    assert NodeOk(x) && KidsIn(x, H);
    LabelNonEmpty(x, 0);
    match x.slots[0] {
      case Inline(v) =>
        InlineKey(H, M, n, 0);
        k := x.At(0);
      case Child(c) =>
        assert x.KidSlot(0, c, x.At(0)) && x.Kid(c, x.At(0));
        assert NodeOk(H[c]);
        if H[c].slots == [] {
          NodeKey(head, H, M, c);
          k := H[c].prefix;
        } else {
          k := PathInKey(head, H, M, c, b);
          LabelNonEmpty(H[c], 0);
          PrefixTrans(H[c].prefix, H[c].At(0), k);
        }
    }
  }

  ghost predicate KeysFit(M: map<Key, Value>) {
    forall k :: k in M ==> |k| <= MAX_SIZE
  }

  /** With keys of at most 65535 bytes no path to a first child is longer. */
  lemma PathsFit(head: RaxNode, H: Heap, M: map<Key, Value>, n: RaxNode)
    requires Tree(head, H, {}, M) && KeysFit(M) && n in H && H[n].slots != []
    ensures |H[n].At(0)| <= MAX_SIZE
  {
    var b := SomeBound(H);
    var k := PathInKey(head, H, M, n, b);
  }

  lemma StoresNothing(head: RaxNode, H: Heap, k: Key, v: Value)
    requires H.Keys == {head} && H[head].slots == [] && !H[head].iskey
    ensures !Stored(H, k, v)
  {
  }

  /** The only childless node that is no key is the head of an empty tree, and an empty
      tree has no other node. */
  lemma EmptyTree(head: RaxNode, H: Heap, M: map<Key, Value>)
    requires Tree(head, H, {}, M)
    ensures M == map[] <==> H[head].slots == [] && !H[head].iskey
    ensures M == map[] ==> H.Keys == {head}
    ensures forall n :: n in H && H[n].slots == [] && !H[n].iskey ==> n == head
  {
    if H[head].slots == [] {
      forall n | n in H ensures n == head {
        if n != head { var i := Below(head, H, head, n); }
      }
      NodeKey(head, H, M, head);
      if !H[head].iskey {
        forall k ensures k !in M {
          if k in M { StoresNothing(head, H, k, M[k]); }
        }
      }
    } else {
      var b := SomeBound(H);
      var k := PathInKey(head, H, M, head, b);
    }
  }

  // ---- Chains ---------------------------------------------------------------------------

  /** Consecutive nodes, each the only child of the one before, none of them a key. */
  ghost predicate ChainOk(H: Heap, c: seq<RaxNode>) {
    && |c| > 0
    && (forall t :: 0 <= t < |c| ==> c[t] in H && Chainable(H[c[t]]) && NodeOk(H[c[t]]))
    && (forall t :: 0 <= t < |c| - 1 ==> H[c[t]].slots[0] == Child(c[t + 1]))
  }

  /** The chain cannot be continued at its lower end. */
  ghost predicate ChainEnds(H: Heap, c: seq<RaxNode>)
    requires ChainOk(H, c)
  {
    match H[c[|c| - 1]].slots[0]
    case Inline(_) => true
    case Child(x) => x in H && !Chainable(H[x])
  }

  ghost function ChainData(H: Heap, c: seq<RaxNode>): Key
    requires forall t :: 0 <= t < |c| ==> c[t] in H
  {
    if c == [] then [] else ChainData(H, c[..|c| - 1]) + H[c[|c| - 1]].data
  }

  lemma ChainDataStep(H: Heap, c: seq<RaxNode>, k: nat)
    requires k < |c| && forall t :: 0 <= t < |c| ==> c[t] in H
    ensures ChainData(H, c[..k + 1]) == ChainData(H, c[..k]) + H[c[k]].data
  {
    assert c[..k + 1][..k] == c[..k];
  }

  /** The path to the end of a chain spells the data of the chain. */
  lemma {:induction false} ChainPath(head: RaxNode, H: Heap, c: seq<RaxNode>, k: nat)
    requires Shape(head, H) && ChainOk(H, c) && k < |c|
    ensures H[c[k]].prefix == H[c[0]].prefix + ChainData(H, c[..k])
    ensures H[c[k]].At(0) == H[c[0]].prefix + ChainData(H, c[..k + 1])
  {
    if k > 0 {
      ChainPath(head, H, c, k - 1);
      var p := c[k - 1];
      assert H[p].slots[0] == Child(c[k - 1 + 1]);
      assert KidsIn(H[p], H) && H[p].KidSlot(0, c[k], H[p].At(0)) && H[p].Kid(c[k], H[p].At(0));
    }
    ChainDataStep(H, c, k);
    SingleFacts(H[c[k]]);
  }

  /** The only child of h, one step further down. */
  lemma OneStep(head: RaxNode, H: Heap, h: RaxNode, c: RaxNode)
    requires Shape(head, H) && h in H && NodeOk(H[h]) && H[h].slots == [Child(c)]
    ensures c in H && NodeOk(H[c]) && c != h && H[c].prefix == H[h].prefix + H[h].data && |H[c].prefix| > |H[h].prefix|
  {
    assert KidsIn(H[h], H) && H[h].slots[0].node == c;
    OneLink(head, H, h, 0, h, 0, c);
    SingleFacts(H[h]);
    LabelNonEmpty(H[h], 0);
  }

  lemma ChainExtend(H: Heap, c: seq<RaxNode>, next: RaxNode)
    requires ChainOk(H, c) && next in H && NodeOk(H[next]) && Chainable(H[next])
    requires H[c[|c| - 1]].slots[0] == Child(next)
    ensures ChainOk(H, c + [next]) && ChainData(H, c + [next]) == ChainData(H, c) + H[next].data
  {
    hide Chainable, NodeOk;
    var d := c + [next];
    assert d[..|d| - 1] == c && d[|d| - 1] == next;
    hide ChainData;
  }

  lemma ChainEmpty(H: Heap, c: seq<RaxNode>)
    requires ChainOk(H, c)
    ensures |c| > 0 && c[..|c|] == c && (forall t :: 0 <= t < |c| ==> c[t] in H) && ChainData(H, c[..0]) == []
  {
  }

  lemma ChainNode(H: Heap, c: seq<RaxNode>, k: nat)
    requires ChainOk(H, c) && k < |c|
    ensures c[k] in H && NodeOk(H[c[k]]) && Chainable(H[c[k]])
    ensures |H[c[k]].slots| == 1 && (!H[c[k]].iscompr ==> |H[c[k]].data| == 1)
    ensures ChainData(H, c[..k + 1]) == ChainData(H, c[..k]) + H[c[k]].data
    ensures |ChainData(H, c[..k + 1])| <= |ChainData(H, c)|
  {
    ChainDataStep(H, c, k);
    ChainDataGrows(H, c, k + 1);
  }

  lemma ChainLast(H: Heap, c: seq<RaxNode>, k: nat)
    requires ChainOk(H, c) && k < |c|
    requires H[c[k]].slots[0].Child? && H[c[k]].slots[0].node in H ==> !Chainable(H[H[c[k]].slots[0].node])
    ensures k == |c| - 1
  {
    assert k < |c| - 1 ==> H[c[k]].slots[0] == Child(c[k + 1]);
  }

  lemma ChainNext(H: Heap, c: seq<RaxNode>, k: nat, next: RaxNode)
    requires ChainOk(H, c) && ChainEnds(H, c) && k < |c|
    requires H[c[k]].slots[0] == Child(next) && next in H && Chainable(H[next])
    ensures k + 1 < |c| && next == c[k + 1]
  {
  }

  lemma SingleBits(x: N)
    requires NodeOk(x) && |x.slots| == 1
    ensures x.bits == if x.slots[0].Inline? then {0} else {}
  {
    assert x.slots[0].Inline? <==> 0 in x.bits;
    forall i | i in x.bits ensures i == 0 {}
  }

  // ---- Joining a chain --------------------------------------------------------------------

  /** The chain's first node lives at new; the next k nodes are joined into it. */
  ghost function JoinChain(G: Heap, new': RaxNode, c: seq<RaxNode>, k: nat): Heap
    requires k < |c| && new' in G && forall t :: 0 < t < |c| ==> c[t] in G && c[t] != new'
    ensures new' in JoinChain(G, new', c, k)
    decreases k
  {
    if k == 0 then G else
      var G' := JoinChain(G, new', c, k - 1);
      (G' - {c[k]})[new' := Joined(G'[new'], G[c[k]])]
  }

  /** c is a chain of G below new', which stands in for its first node. */
  ghost predicate ChainAt(G: Heap, new': RaxNode, c: seq<RaxNode>) {
    && |c| > 0 && new' in G && Chainable(G[new']) && NodeOk(G[new'])
    && (forall t :: 0 < t < |c| ==> c[t] in G && Chainable(G[c[t]]) && NodeOk(G[c[t]]) && c[t] != new')
    && (|c| > 1 ==> G[new'].slots[0] == Child(c[1]))
    && (forall t :: 0 < t < |c| - 1 ==> G[c[t]].slots[0] == Child(c[t + 1]))
    && (forall t, u :: 0 < t < u < |c| ==> c[t] != c[u])
  }

  /** J is G with the nodes c[1..k] joined into new'. */
  ghost predicate IsJoin(J: Heap, G: Heap, new': RaxNode, c: seq<RaxNode>, k: nat)
    requires k < |c| && new' in G && forall t :: 0 < t < |c| ==> c[t] in G
  {
    var z := G[if k == 0 then new' else c[k]];
    && new' in J && |J| == |G| - k
    && J[new'].data == G[new'].data + ChainData(G, c[1..k + 1]) && J[new'].prefix == G[new'].prefix
    && J[new'].slots == z.slots && J[new'].bits == z.bits && !J[new'].iskey
    && (k > 0 ==> J[new'].iscompr)
    && (forall n :: n in J ==> n in G && (n == new' || J[n] == G[n]))
    && (forall n :: n in G && (forall t :: 0 < t <= k ==> n != c[t]) ==> n in J)
  }

  lemma Inner(c: seq<RaxNode>, k: nat)
    requires 0 < k < |c|
    ensures c[1..k + 1][..k - 1] == c[1..k] && c[1..k + 1][k - 1] == c[k] && c[1..k - 1 + 1] == c[1..k]
  {
  }

  lemma JoinStep(J: Heap, G: Heap, new': RaxNode, c: seq<RaxNode>, k: nat)
    requires ChainAt(G, new', c) && 0 < k < |c| && IsJoin(J, G, new', c, k - 1)
    ensures c[k] in J && IsJoin((J - {c[k]})[new' := Joined(J[new'], G[c[k]])], G, new', c, k)
  {
    Inner(c, k);
    assert c[k] in J;
    var J' := (J - {c[k]})[new' := Joined(J[new'], G[c[k]])];
    assert J'.Keys == J.Keys - {c[k]};
    assert |J'.Keys| == |J.Keys| - 1;
  }

  lemma {:induction false} JoinChainFacts(G: Heap, new': RaxNode, c: seq<RaxNode>, k: nat)
    requires ChainAt(G, new', c) && k < |c|
    ensures IsJoin(JoinChain(G, new', c, k), G, new', c, k)
  {
    if k > 0 {
      JoinChainFacts(G, new', c, k - 1);
      JoinStep(JoinChain(G, new', c, k - 1), G, new', c, k);
    } else {
      assert c[1..1] == [];
    }
  }

  lemma {:induction false} JoinChainOk(head: RaxNode, G: Heap, M: map<Key, Value>, new': RaxNode, c: seq<RaxNode>,
                                       k: nat)
    requires Tree(head, G, {}, M) && ChainAt(G, new', c) && k < |c|
    requires |G[new'].data| + |ChainData(G, c[1..k + 1])| <= MAX_SIZE
    ensures Tree(head, JoinChain(G, new', c, k), {}, M)
  {
    hide Tree;
    if k > 0 {
      var J := JoinChain(G, new', c, k - 1);
      JoinChainFacts(G, new', c, k - 1);
      Inner(c, k);
      JoinChainOk(head, G, M, new', c, k - 1);
      assert c[k] in J;
      TreeNode(head, J, {}, M, new');
      assert J[new'].slots[0] == Child(c[k]);
      MergeOk(head, J, {}, M, new', c[k]);
    }
  }

  /** Further down the chain the paths are longer, so the nodes are all different. */
  lemma {:induction false} ChainGrows(head: RaxNode, H: Heap, c: seq<RaxNode>, t: nat, u: nat)
    requires Shape(head, H) && ChainOk(H, c) && t < u < |c|
    ensures |H[c[t]].prefix| < |H[c[u]].prefix|
    decreases u
  {
    var p := c[u - 1];
    assert H[p].slots[0] == Child(c[u - 1 + 1]);
    OneLink(head, H, p, 0, p, 0, c[u]);
    LabelNonEmpty(H[p], 0);
    if t < u - 1 { ChainGrows(head, H, c, t, u - 1); }
  }

  ghost function Recompressed(H: Heap, link: Link, c: seq<RaxNode>, new': RaxNode): Heap
    requires ChainOk(H, c) && new' !in H && (link.SlotLink? ==> link.node in H && link.idx < |H[link.node].slots|)
    requires forall t :: 0 <= t < |c| ==> (link.SlotLink? ==> link.node != c[t])
    requires forall t :: 0 < t < |c| ==> c[t] != c[0]
  {
    JoinChain(Relocated(H, link, c[0], new'), new', c, |c| - 1)
  }

  /** The nodes of a chain differ, and the field that points to the first one is in none of them. */
  lemma ChainApart(head: RaxNode, H: Heap, link: Link, c: seq<RaxNode>)
    requires Shape(head, H) && ChainOk(H, c) && LinkOk(head, H, link, c[0])
    ensures link.SlotLink? ==> link.node in H && link.idx < |H[link.node].slots|
    ensures forall t :: 0 <= t < |c| ==> (link.SlotLink? ==> link.node != c[t])
    ensures forall t, u :: 0 <= t < u < |c| ==> c[t] != c[u]
  {
    hide Shape, ChainOk, NodeOk;
    forall t, u | 0 <= t < u < |c| ensures c[t] != c[u] { ChainGrows(head, H, c, t, u); }
    if link.SlotLink? {
      LinkAbove(head, H, link, c);
      forall t | 0 <= t < |c| ensures link.node != c[t] {
        if t > 0 { ChainGrows(head, H, c, 0, t); }
      }
    }
  }

  lemma LinkAbove(head: RaxNode, H: Heap, link: Link, c: seq<RaxNode>)
    requires Shape(head, H) && ChainOk(H, c) && LinkOk(head, H, link, c[0]) && link.SlotLink?
    ensures link.node in H && link.idx < |H[link.node].slots| && |H[link.node].prefix| < |H[c[0]].prefix|
  {
    OneLink(head, H, link.node, link.idx, link.node, link.idx, c[0]);
    assert NodeOk(H[link.node]);
    LabelNonEmpty(H[link.node], link.idx);
  }

  lemma RelocatedChain(H: Heap, link: Link, c: seq<RaxNode>, new': RaxNode)
    requires ChainOk(H, c) && new' !in H && (link.SlotLink? ==> link.node in H && link.idx < |H[link.node].slots|)
    requires forall t :: 0 <= t < |c| ==> (link.SlotLink? ==> link.node != c[t])
    requires forall t, u :: 0 <= t < u < |c| ==> c[t] != c[u]
    ensures var G := Relocated(H, link, c[0], new');
      ChainAt(G, new', c) && G[new'] == H[c[0]] && forall t :: 0 < t < |c| ==> c[t] in G && G[c[t]] == H[c[t]]
  {
    hide Relocated, NodeOk;
    var G := Relocated(H, link, c[0], new');
    RelocatedNode(H, link, c[0], new', new');
    forall t | 0 < t < |c| ensures c[t] in G && G[c[t]] == H[c[t]] && c[t] != new' {
      RelocatedNode(H, link, c[0], new', c[t]);
    }
    assert |c| > 1 ==> H[c[0]].slots[0] == Child(c[0 + 1]);
  }

  lemma ChainRelocates(head: RaxNode, H: Heap, M: map<Key, Value>, link: Link, c: seq<RaxNode>, new': RaxNode)
    requires Tree(head, H, {}, M) && ChainOk(H, c) && new' !in H && LinkOk(head, H, link, c[0])
    ensures link.SlotLink? ==> link.node in H && link.idx < |H[link.node].slots|
    ensures forall t :: 0 <= t < |c| ==> (link.SlotLink? ==> link.node != c[t])
    ensures forall t :: 0 < t < |c| ==> c[t] != c[0]
    ensures var G := Relocated(H, link, c[0], new');
      && Tree(NewHead(head, link, new'), G, {}, M) && ChainAt(G, new', c) && |G| == |H|
      && G[new'] == H[c[0]] && (forall t :: 0 < t < |c| ==> G[c[t]] == H[c[t]])
  {
    assert Shape(head, H) && c[0] in H && Chainable(H[c[0]]);
    hide *;
    RelocateOk(head, H, {}, M, link, c[0], new');
    ChainApart(head, H, link, c);
    RelocatedChain(H, link, c, new');
  }

  lemma {:induction false} SameChainData(H: Heap, G: Heap, c: seq<RaxNode>)
    requires forall t :: 0 <= t < |c| ==> c[t] in H && c[t] in G && G[c[t]] == H[c[t]]
    ensures ChainData(H, c) == ChainData(G, c)
  {
    if c != [] { SameChainData(H, G, c[..|c| - 1]); }
  }

  lemma {:induction false} ChainDataSplit(H: Heap, c: seq<RaxNode>)
    requires |c| > 0 && forall t :: 0 <= t < |c| ==> c[t] in H
    ensures ChainData(H, c) == H[c[0]].data + ChainData(H, c[1..])
  {
    var n := |c| - 1;
    if n > 0 {
      ChainDataSplit(H, c[..n]);
      assert c[..n][1..] == c[1..][..n - 1] && c[1..][n - 1] == c[n];
    }
  }

  /** The chain c becomes the one compressed node new'; nothing stored changes. */
  lemma RecompressOk(head: RaxNode, H: Heap, M: map<Key, Value>, link: Link, c: seq<RaxNode>, new': RaxNode)
    requires Tree(head, H, {}, M) && ChainOk(H, c) && |c| > 1 && new' !in H && LinkOk(head, H, link, c[0])
    requires |ChainData(H, c)| <= MAX_SIZE
    ensures link.SlotLink? ==> link.node in H && link.idx < |H[link.node].slots|
    ensures forall t :: 0 <= t < |c| ==> (link.SlotLink? ==> link.node != c[t])
    ensures forall t :: 0 < t < |c| ==> c[t] != c[0]
    ensures var J := Recompressed(H, link, c, new'); var z := H[c[|c| - 1]];
      && Tree(NewHead(head, link, new'), J, {}, M) && |J| == |H| + 1 - |c|
      && new' in J && J[new'].data == ChainData(H, c) && J[new'].iscompr && !J[new'].iskey
      && J[new'].slots == z.slots && J[new'].bits == z.bits
  {
    hide Tree;
    ChainRelocates(head, H, M, link, c, new');
    var G := Relocated(H, link, c[0], new');
    SameChainData(H, G, c[1..]);
    ChainDataSplit(H, c);
    assert c[1..|c| - 1 + 1] == c[1..];
    JoinChainFacts(G, new', c, |c| - 1);
    JoinChainOk(NewHead(head, link, new'), G, M, new', c, |c| - 1);
  }

  /** Joining the chain touches no node outside it but the one that holds the link. */
  lemma RecompressedRest(head: RaxNode, H: Heap, M: map<Key, Value>, link: Link, c: seq<RaxNode>, new': RaxNode)
    requires Tree(head, H, {}, M) && ChainOk(H, c) && new' !in H && LinkOk(head, H, link, c[0])
    ensures link.SlotLink? ==> link.node in H && link.idx < |H[link.node].slots|
    ensures forall t :: 0 <= t < |c| ==> (link.SlotLink? ==> link.node != c[t])
    ensures forall t :: 0 < t < |c| ==> c[t] != c[0]
    ensures var J := Recompressed(H, link, c, new');
      forall n :: n in J && n != new' ==> n in H && J[n] == Linked(H[n], n, link, new')
  {
    ChainRelocates(head, H, M, link, c, new');
    assert c[0] in H;
    hide Tree, Relocated, ChainAt;
    var G, k := Relocated(H, link, c[0], new'), |c| - 1;
    JoinChainFacts(G, new', c, k);
    var J := JoinChain(G, new', c, k);
    hide JoinChain;
    forall n | n in J && n != new' ensures n in H && J[n] == Linked(H[n], n, link, new') {
      RelocatedNode(H, link, c[0], new', n);
    }
  }

  /** The heap after the chain c became the node new', with all that the step needs. */
  lemma Rejoined(head: RaxNode, H: Heap, M: map<Key, Value>, link: Link, c: seq<RaxNode>, new': RaxNode)
    returns (J: Heap)
    requires Tree(head, H, {}, M) && ChainOk(H, c) && |c| > 1 && new' !in H && LinkOk(head, H, link, c[0])
    requires |ChainData(H, c)| <= MAX_SIZE
    ensures Shape(head, H) && (link.SlotLink? ==> link.node in H && link.idx < |H[link.node].slots|)
    ensures Tree(NewHead(head, link, new'), J, {}, M) && |J| == |H| + 1 - |c| && |J| >= 1
    ensures var z := H[c[|c| - 1]];
      && new' in J && J[new'].data == ChainData(H, c) && J[new'].iscompr && !J[new'].iskey
      && J[new'].slots == z.slots && J[new'].bits == z.bits
    ensures forall n :: n in J && n != new' ==> n in H && J[n] == Linked(H[n], n, link, new')
  {
    RecompressOk(head, H, M, link, c, new');
    RecompressedRest(head, H, M, link, c, new');
    J := Recompressed(H, link, c, new');
    assert new' in J.Keys;
  }

  // ---- The two scans ------------------------------------------------------------------------

  /** The next node would make the compressed node longer than its size field can say. */
  ghost predicate CutOff(H: Heap, c: seq<RaxNode>)
    requires ChainOk(H, c)
  {
    match H[c[|c| - 1]].slots[0]
    case Inline(_) => false
    case Child(x) => x in H && Chainable(H[x]) && |ChainData(H, c)| + |H[x].data| > MAX_SIZE
  }

  /** When all keys fit, the counting scan is never cut off. */
  lemma NeverCutOff(head: RaxNode, H: Heap, M: map<Key, Value>, c: seq<RaxNode>)
    requires Tree(head, H, {}, M) && KeysFit(M) && ChainOk(H, c)
    ensures |ChainData(H, c)| <= MAX_SIZE && !CutOff(H, c)
  {
    ChainFits(head, H, M, c);
    match H[c[|c| - 1]].slots[0]
    case Inline(_) =>
    case Child(x) =>
      if x in H && Chainable(H[x]) {
        assert NodeOk(H[x]);
        ChainFits(head, H, M, c + [x]);
        assert (c + [x])[..|c|] == c;
      }
  }

  lemma ChainFits(head: RaxNode, H: Heap, M: map<Key, Value>, c: seq<RaxNode>)
    requires Tree(head, H, {}, M) && KeysFit(M) && ChainOk(H, c)
    ensures |ChainData(H, c)| <= MAX_SIZE
  {
    ChainPath(head, H, c, |c| - 1);
    assert c[..|c| - 1 + 1] == c;
    PathsFit(head, H, M, c[|c| - 1]);
  }

  lemma {:induction false} ChainDataGrows(H: Heap, d: seq<RaxNode>, k: nat)
    requires k <= |d| && forall t :: 0 <= t < |d| ==> d[t] in H
    ensures |ChainData(H, d[..k])| <= |ChainData(H, d)|
    decreases |d|
  {
    if k == |d| {
      assert d[..k] == d;
    } else {
      assert d[..|d| - 1][..k] == d[..k];
      ChainDataGrows(H, d[..|d| - 1], k);
    }
  }

  /** The counting scan stops at c, the populating scan runs to the end d of the chain:
      they cover the same nodes exactly when the whole chain fits a node. */
  lemma ScansAgree(H: Heap, c: seq<RaxNode>, d: seq<RaxNode>)
    requires ChainOk(H, c) && (ChainEnds(H, c) || CutOff(H, c)) && |ChainData(H, c)| <= MAX_SIZE
    requires ChainOk(H, d) && ChainEnds(H, d) && c <= d
    ensures c == d <==> |ChainData(H, d)| <= MAX_SIZE
  {
    if c != d {
      var k := |c|;
      assert c[k - 1] == d[k - 1] && H[d[k - 1]].slots[0] == Child(d[k - 1 + 1]);
      ChainDataStep(H, d, k);
      assert d[..k] == c;
      ChainDataGrows(H, d, k + 1);
    }
  }

  // ---- A key that is too long ---------------------------------------------------------------

  /** The heap after a key of 70000 bytes came into the empty tree of node r: 65535 bytes in r, and
      4465 in d with the value inline. */
  function LongKey(r: RaxNode, d: RaxNode, key: Key): Heap
    requires |key| == 70000 && r != d
  {
    var H := map[r := Empty([])];
    var H1 := H[r := Compressed(H[r], key[0..65535], Child(d))][d := Empty(H[r].prefix + key[0..65535])];
    H1[d := Compressed(H1[d], key[65535..], Inline(7))]
  }

  /** The same after key[..10] + [x] came in too: the node of r is split into 10, 1 and 65524 bytes, and
      the middle one gets the edge x. */
  function TwoKeys(r: RaxNode, c: seq<RaxNode>, key: Key, x: Byte): Heap
    requires |key| == 70000 && Fresh(r, c)
  {
    SplitLong(r, c, key);
    var H := Mismatched(LongKey(r, c[3], key), HeadLink, r, 10, c[0], c[1], c[2]);
    OpenedHeap(H, c[1], Place(key, x), x, Inline(9))
  }

  predicate Fresh(r: RaxNode, c: seq<RaxNode>) {
    |c| == 4 && r !in c && forall t, u :: 0 <= t < u < 4 ==> c[t] != c[u]
  }

  function Place(key: Key, x: Byte): nat
    requires |key| > 10
  {
    if x < key[10] then 0 else 1
  }

  /** And after it was removed again. */
  function OneLeft(r: RaxNode, c: seq<RaxNode>, key: Key, x: Byte): Heap
    requires |key| == 70000 && Fresh(r, c)
  {
    SplitLong(r, c, key);
    var H := TwoKeys(r, c, key, x);
    H[c[1] := WithoutSlot(H[c[1]], Place(key, x))]
  }

  function FourNodes(c: seq<RaxNode>, key: Key): Heap
    requires |c| == 4 && |key| == 70000
  {
    map[c[0] := N(false, 0, true, {}, key[..10], [Child(c[1])], []),
        c[1] := N(false, 0, false, {}, key[10..11], [Child(c[2])], key[..10]),
        c[2] := N(false, 0, true, {}, key[11..65535], [Child(c[3])], key[..11]),
        c[3] := N(false, 0, true, {0}, key[65535..], [Inline(7)], key[..65535])]
  }

  lemma LongKeyIs(r: RaxNode, d: RaxNode, key: Key)
    requires |key| == 70000 && r != d
    ensures LongKey(r, d, key) == map[r := N(false, 0, true, {}, key[..65535], [Child(d)], []),
                                      d := N(false, 0, true, {0}, key[65535..], [Inline(7)], key[..65535])]
  {
    assert key[0..65535] == key[..65535] && [] + key[..65535] == key[..65535];
  }

  lemma LongKeyOk(r: RaxNode, d: RaxNode, key: Key)
    requires |key| == 70000 && r != d
    ensures Tree(r, LongKey(r, d, key), {}, map[key := 7])
  {
    var H: Heap := map[r := Empty([])];
    var none: map<Key, Value> := map[];
    assert Tree(r, H, {r}, none);
    assert H[r].prefix == key[..0];
    ExtendOk(r, H, none, r, key, 0, 65535, d);
    var H1 := H[r := Compressed(H[r], key[0..65535], Child(d))][d := Empty(H[r].prefix + key[0..65535])];
    assert H1[d] == Empty(key[..65535]);
    hide Tree;
    FinishOk(r, H1, none, d, key, 65535, 7);
    assert none[key := 7] == map[key := 7];
  }

  /** The split leaves the four nodes. */
  lemma SplitLong(r: RaxNode, c: seq<RaxNode>, key: Key)
    requires |key| == 70000 && Fresh(r, c)
    ensures var H := LongKey(r, c[3], key);
      r in H && |H[r].data| == 65535 && c[0] !in H && c[1] !in H && c[2] !in H
      && Mismatched(H, HeadLink, r, 10, c[0], c[1], c[2]) == FourNodes(c, key)
  {
    var H := LongKey(r, c[3], key);
    LongKeyIs(r, c[3], key);
    var x, n := H[r], key[..65535];
    assert n[..10] == key[..10] && n[10..][..1] == key[10..11] && n[10..][1..] == key[11..65535];
    assert [] + n[..10] == key[..10] && key[..10] + n[10..][..1] == key[..11];
    var H1 := Relocated(H, HeadLink, r, c[0]);
    var H2 := Cut(H1, c[0], 10, c[1]);
    assert H2[c[1]] == N(false, 0, true, {}, n[10..], [Child(c[3])], key[..10]);
    var H3 := Cut(H2, c[1], 1, c[2]);
    assert H3.Keys == {c[0], c[1], c[2], c[3]};
    assert H3[c[2]] == N(false, 0, true, {}, key[11..65535], [Child(c[3])], key[..11]);
    assert H3 == FourNodes(c, key);
  }

  lemma EdgeComesAndGoes(x: N, pos: nat, b: Byte, v: Value)
    requires pos <= |x.data| == |x.slots| && !x.iscompr && x.bits == {}
    ensures WithoutSlot(WithEdge(x, pos, b, Inline(v)), pos) == x
  {
    var y := WithEdge(x, pos, b, Inline(v));
    assert RemoveAt(y.data, pos) == x.data && RemoveAt(y.slots, pos) == x.slots;
    assert BitsAfterRemove(y.bits, pos) == {};
  }

  lemma SplitTree(r: RaxNode, c: seq<RaxNode>, key: Key)
    requires |key| == 70000 && Fresh(r, c)
    ensures Tree(c[0], FourNodes(c, key), {}, map[key := 7])
  {
    var H := LongKey(r, c[3], key);
    LongKeyIs(r, c[3], key);
    LongKeyOk(r, c[3], key);
    SplitLong(r, c, key);
    hide Tree, Mismatched, LongKey, FourNodes;
    MismatchedOk(r, H, map[key := 7], HeadLink, r, 10, c[0], c[1], c[2]);
  }

  /** The split node with its second edge. */
  lemma EdgeTree(r: RaxNode, c: seq<RaxNode>, key: Key, x: Byte)
    requires |key| == 70000 && key[10] != x && Fresh(r, c)
    ensures Tree(c[0], TwoKeys(r, c, key, x), {}, map[key := 7][key[..10] + [x] := 9])
  {
    var H := FourNodes(c, key);
    SplitLong(r, c, key);
    SplitTree(r, c, key);
    assert H[c[1]] == N(false, 0, false, {}, key[10..11], [Child(c[2])], key[..10]) && key[10..11] == [key[10]];
    assert TwoKeys(r, c, key, x) == H[c[1] := WithEdge(H[c[1]], Place(key, x), x, Inline(9))];
    hide Tree, Mismatched, LongKey, FourNodes, TwoKeys;
    AddInlineEdgeOk(c[0], H, {}, map[key := 7], c[1], Place(key, x), x, 9);
    assert {} - {c[1]} == {};
  }

  /** Without it the nodes are the four again. */
  lemma LeftIs(r: RaxNode, c: seq<RaxNode>, key: Key, x: Byte)
    requires |key| == 70000 && key[10] != x && Fresh(r, c)
    ensures OneLeft(r, c, key, x) == FourNodes(c, key)
  {
    var H := FourNodes(c, key);
    SplitLong(r, c, key);
    assert H[c[1]] == N(false, 0, false, {}, key[10..11], [Child(c[2])], key[..10]);
    EdgeComesAndGoes(H[c[1]], Place(key, x), x, 9);
    hide Mismatched, LongKey, FourNodes, WithEdge, WithoutSlot;
    assert TwoKeys(r, c, key, x) == H[c[1] := WithEdge(H[c[1]], Place(key, x), x, Inline(9))];
    assert H[c[1] := WithEdge(H[c[1]], Place(key, x), x, Inline(9))][c[1] := H[c[1]]] == H;
  }

  /** The chain of the four nodes: the counting scan stops before the last. */
  lemma FourScans(c: seq<RaxNode>, key: Key)
    requires |key| == 70000 && |c| == 4 && forall t, u :: 0 <= t < u < 4 ==> c[t] != c[u]
    ensures var H := FourNodes(c, key);
      && ChainOk(H, c[..3]) && CutOff(H, c[..3]) && |ChainData(H, c[..3])| == 65535
      && ChainOk(H, c) && ChainEnds(H, c) && |ChainData(H, c)| == 70000
  {
    var H := FourNodes(c, key);
    assert Sorted(key[10..11]);
    assert c[..0] == [] && c[..4] == c;
    ChainDataStep(H, c, 0);
    ChainDataStep(H, c, 1);
    ChainDataStep(H, c, 2);
    ChainDataStep(H, c, 3);
    assert H[c[0]].data == key[..10] && H[c[1]].data == key[10..11];
    assert H[c[2]].data == key[11..65535] && H[c[3]].data == key[65535..];
    hide ChainData;
  }

  /** The scans differ on a tree that the code builds: a key of 70000 bytes comes in, then key[..10] + [x],
      which is removed again and leaves a node with one edge that is no key, where the chain is joined.
      The counting scan stops after 65535 bytes, and the populating scan would copy 70000. */
  lemma ScansDiffer(r: RaxNode, c: seq<RaxNode>, key: Key, x: Byte)
    requires |key| == 70000 && key[10] != x && Fresh(r, c)
    ensures Tree(r, LongKey(r, c[3], key), {}, map[key := 7])
    ensures Tree(c[0], TwoKeys(r, c, key, x), {}, map[key := 7][key[..10] + [x] := 9])
    ensures Tree(c[0], OneLeft(r, c, key, x), {}, map[key := 7]) && OneLeft(r, c, key, x) == FourNodes(c, key)
    ensures var H := OneLeft(r, c, key, x);
      && ChainOk(H, c[..3]) && CutOff(H, c[..3]) && |ChainData(H, c[..3])| == 65535
      && ChainOk(H, c) && ChainEnds(H, c) && |ChainData(H, c)| == 70000
  {
    assert |c| == 4 && r != c[3] && forall t, u :: 0 <= t < u < 4 ==> c[t] != c[u];
    hide *;
    LongKeyOk(r, c[3], key);
    SplitTree(r, c, key);
    EdgeTree(r, c, key, x);
    FourScans(c, key);
    LeftIs(r, c, key, x);
  }
}
