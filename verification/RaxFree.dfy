/** Freeing a whole tree, and runs of operations on one tree. */
module RaxFree {
  import opened Basics
  import opened RaxKeys
  import opened RaxTheory
  import opened RaxReshape
  import opened RaxChain
  import opened Rax

  /** The nodes at and below the path p. */
  ghost function Under(H: Heap, p: Key): set<RaxNode> {
    set m | m in H && p <= H[m].prefix
  }

  /** The nodes below the slots of x from i on. */
  ghost function UnderSlots(H: Heap, x: N, i: nat): set<RaxNode> {
    set m | m in H && exists j :: i <= j < |x.slots| && x.slots[j].Child? && x.At(j) <= H[m].prefix
  }

  /** The nodes below one slot. */
  ghost function UnderSlot(H: Heap, x: N, i: nat): set<RaxNode>
    requires i < |x.slots|
  {
    if x.slots[i].Child? then Under(H, x.At(i)) else {}
  }

  /** The nodes below slot i and those below the later slots are different ones. */
  lemma UnderSlotsStep(head: RaxNode, H: Heap, n: RaxNode, i: nat)
    requires Shape(head, H) && n in H && i < |H[n].slots|
    ensures var x := H[n];
      && UnderSlots(H, x, i) == UnderSlots(H, x, i + 1) + UnderSlot(H, x, i)
      && UnderSlots(H, x, i + 1) !! UnderSlot(H, x, i)
      && |UnderSlots(H, x, i)| == |UnderSlots(H, x, i + 1)| + |UnderSlot(H, x, i)|
  {
    var x := H[n];
    assert NodeOk(x);
    forall m, j: nat | m in H && i < j < |x.slots| && x.At(j) <= H[m].prefix ensures !(x.At(i) <= H[m].prefix) {
      if x.At(i) <= H[m].prefix { SameSlot(x, i, j, H[m].prefix); }
    }
    assert UnderSlots(H, x, i) == UnderSlots(H, x, i + 1) + UnderSlot(H, x, i);
  }

  /** Everything at the path of n is n itself or below one of its slots. */
  lemma UnderNode(head: RaxNode, H: Heap, n: RaxNode)
    requires Shape(head, H) && n in H
    ensures Under(H, H[n].prefix) == {n} + UnderSlots(H, H[n], 0) && n !in UnderSlots(H, H[n], 0)
    ensures |Under(H, H[n].prefix)| == 1 + |UnderSlots(H, H[n], 0)|
  {
    var x := H[n];
    assert NodeOk(x);
    forall m | m in Under(H, x.prefix) ensures m == n || m in UnderSlots(H, x, 0) {
      if m != n { var i := Below(head, H, n, m); }
    }
    forall m, j: nat | m in H && j < |x.slots| && x.At(j) <= H[m].prefix ensures x.prefix <= H[m].prefix && m != n {
      LabelNonEmpty(x, j);
    }
    assert Under(H, x.prefix) == {n} + UnderSlots(H, x, 0);
  }

  lemma UnderSlotsSome(H: Heap, x: N, i: nat)
    ensures UnderSlots(H, x, i) <= UnderSlots(H, x, 0) && |UnderSlots(H, x, i)| <= |UnderSlots(H, x, 0)|
    ensures i >= |x.slots| ==> UnderSlots(H, x, i) == {}
  {
    Smaller(UnderSlots(H, x, i), UnderSlots(H, x, 0));
  }

  /** The slots of x from i on are done: k nodes are left of k0 and the freed nodes are known. */
  ghost predicate Progress(H: Heap, x: N, i: nat, freed0: set<RaxNode>, freed: set<RaxNode>, k0: nat, k: int) {
    freed == freed0 + UnderSlots(H, x, i) && k == k0 - |UnderSlots(H, x, i)|
  }

  lemma ProgressStart(H: Heap, x: N, i: nat, freed0: set<RaxNode>, k0: nat)
    requires i == |x.slots|
    ensures Progress(H, x, i, freed0, freed0, k0, k0)
  {
    UnderSlotsSome(H, x, i);
  }

  lemma ProgressStep(head: RaxNode, H: Heap, n: RaxNode, i: nat, freed0: set<RaxNode>, freed: set<RaxNode>, k0: nat,
                     k: int)
    requires Shape(head, H) && n in H && i < |H[n].slots|
    requires freed0 !! UnderSlots(H, H[n], 0) && k0 >= |UnderSlots(H, H[n], 0)|
    requires Progress(H, H[n], i + 1, freed0, freed, k0, k)
    ensures var below := UnderSlot(H, H[n], i);
      freed !! below && k >= |below| && Progress(H, H[n], i, freed0, freed + below, k0, k - |below|)
  {
    hide UnderSlots, UnderSlot;
    UnderSlotsStep(head, H, n, i);
    UnderSlotsSome(H, H[n], i);
    UnionAssoc(freed0, UnderSlots(H, H[n], i + 1), UnderSlot(H, H[n], i));
  }

  lemma ProgressDone(H: Heap, x: N, freed0: set<RaxNode>, freed: set<RaxNode>, k0: nat, k: int)
    requires Progress(H, x, 0, freed0, freed, k0, k)
    ensures freed == freed0 + UnderSlots(H, x, 0) && k == k0 - |UnderSlots(H, x, 0)|
  {
  }

  lemma UnionAssoc(a: set<RaxNode>, b: set<RaxNode>, c: set<RaxNode>)
    ensures a + b + c == a + (b + c)
  {
  }

  lemma Smaller(a: set<RaxNode>, b: set<RaxNode>)
    requires a <= b
    ensures |a| <= |b|
  {
    assert b == a + (b - a);
  }

  /** Before the children of n are freed. */
  lemma FreeBegins(head: RaxNode, H: Heap, n: RaxNode, freed: set<RaxNode>, k: nat)
    requires Shape(head, H) && n in H && freed !! Under(H, H[n].prefix) && k >= |Under(H, H[n].prefix)|
    ensures freed !! UnderSlots(H, H[n], 0) && k >= |UnderSlots(H, H[n], 0)|
    ensures Progress(H, H[n], |H[n].slots|, freed, freed, k, k)
  {
    hide *;
    UnderNode(head, H, n);
    ProgressStart(H, H[n], |H[n].slots|, freed, k);
  }

  /** After they are freed: n is the last one. */
  lemma FreeEnds(head: RaxNode, H: Heap, n: RaxNode, freed: set<RaxNode>, freed': set<RaxNode>, k0: nat, k: int)
    requires Shape(head, H) && n in H && freed !! Under(H, H[n].prefix) && k0 >= |Under(H, H[n].prefix)|
    requires Progress(H, H[n], 0, freed, freed', k0, k)
    ensures n !in freed' && freed' + {n} == freed + Under(H, H[n].prefix) && k - 1 == k0 - |Under(H, H[n].prefix)|
  {
    hide *;
    UnderNode(head, H, n);
    ProgressDone(H, H[n], freed, freed', k0, k);
    UnionAssoc(freed, UnderSlots(H, H[n], 0), {n});
  }

  lemma ChildCount(t: Rax, n: RaxNode)
    requires Shape(t.head, t.H) && t.Agrees() && n in t.H
    ensures (if n.iscompr then 1 else |n.data|) == |t.H[n].slots|
  {
    assert n.Is(t.H[n]) && NodeOk(t.H[n]);
  }

  /** raxRecursiveFree: frees n and all below it, each node once. */
  method RecursiveFree(t: Rax, n: RaxNode, ghost freed: set<RaxNode>, ghost b: nat) returns (ghost freed': set<RaxNode>)
    requires Shape(t.head, t.H) && t.Agrees() && n in t.H && Bounded(t.H, b)
    requires freed !! Under(t.H, t.H[n].prefix) && t.numnodes >= |Under(t.H, t.H[n].prefix)|
    modifies t`numnodes
    ensures freed' == freed + Under(t.H, t.H[n].prefix)
    ensures t.numnodes == old(t.numnodes) - |Under(t.H, t.H[n].prefix)|
    decreases b - |t.H[n].prefix|, 3
  {
    hide *;
    ChildCount(t, n);
    var children := if n.iscompr then 1 else |n.data|;
    FreeBegins(t.head, t.H, n, freed, t.numnodes);
    freed' := FreeChildren(t, n, children, freed, b);
    FreeEnds(t.head, t.H, n, freed, freed', old(t.numnodes), t.numnodes);
    freed' := freed' + {n};
    t.numnodes := t.numnodes - 1;
  }

  /** The loop over the children, from the last to the first. */
  method FreeChildren(t: Rax, n: RaxNode, children: nat, ghost freed: set<RaxNode>, ghost b: nat)
    returns (ghost freed': set<RaxNode>)
    requires Shape(t.head, t.H) && t.Agrees() && n in t.H && Bounded(t.H, b) && children == |t.H[n].slots|
    requires var below := UnderSlots(t.H, t.H[n], 0); freed !! below && t.numnodes >= |below|
    requires Progress(t.H, t.H[n], children, freed, freed, t.numnodes, t.numnodes)
    modifies t`numnodes
    ensures Progress(t.H, t.H[n], 0, freed, freed', old(t.numnodes), t.numnodes)
    decreases b - |t.H[n].prefix|, 2
  {
    hide *;
    var i := children;
    freed' := freed;
    while i > 0
      invariant 0 <= i <= |t.H[n].slots| && Progress(t.H, t.H[n], i, freed, freed', old(t.numnodes), t.numnodes)
    {
      i := i - 1;
      freed' := FreeNext(t, n, i, freed, freed', old(t.numnodes), b);
    }
  }

  /** One round of the loop. */
  method FreeNext(t: Rax, n: RaxNode, i: nat, ghost freed0: set<RaxNode>, ghost freed: set<RaxNode>, ghost k0: nat,
                  ghost b: nat)
    returns (ghost freed': set<RaxNode>)
    requires Shape(t.head, t.H) && t.Agrees() && n in t.H && Bounded(t.H, b) && i < |t.H[n].slots|
    requires freed0 !! UnderSlots(t.H, t.H[n], 0) && k0 >= |UnderSlots(t.H, t.H[n], 0)|
    requires Progress(t.H, t.H[n], i + 1, freed0, freed, k0, t.numnodes)
    modifies t`numnodes
    ensures Progress(t.H, t.H[n], i, freed0, freed', k0, t.numnodes)
    decreases b - |t.H[n].prefix|, 1
  {
    hide UnderSlots, UnderSlot, Shape, Bounded, Progress, Rax.Agrees;
    ProgressStep(t.head, t.H, n, i, freed0, freed, k0, t.numnodes);
    freed' := FreeSlot(t, n, i, freed, b);
  }

  method FreeSlot(t: Rax, n: RaxNode, i: nat, ghost freed: set<RaxNode>, ghost b: nat)
    returns (ghost freed': set<RaxNode>)
    requires Shape(t.head, t.H) && t.Agrees() && n in t.H && Bounded(t.H, b) && i < |t.H[n].slots|
    requires var below := UnderSlot(t.H, t.H[n], i); freed !! below && t.numnodes >= |below|
    modifies t`numnodes
    ensures var below := UnderSlot(t.H, t.H[n], i);
      freed' == freed + below && t.numnodes == old(t.numnodes) - |below|
    decreases b - |t.H[n].prefix|, 0
  {
    assert n.Is(t.H[n]) && NodeOk(t.H[n]) && |t.H[n].prefix| <= b;
    freed' := freed;
    if !n.IsInlineLeaf(i) {
      ChildAt(t.head, t.H, n, i);
      assert |t.H[n.slots[i].node].prefix| <= b;
      freed' := RecursiveFree(t, n.slots[i].node, freed, b);
    }
  }

  /** raxFree: the node count ends at zero, which raxFreeWithCallback asserts. */
  method Free(t: Rax)
    requires t.Valid()
    modifies t`numnodes
    ensures t.numnodes == 0
  {
    ghost var b := SomeBound(t.H);
    ghost var all := Under(t.H, []);
    assert all == t.H.Keys;
    ghost var freed := RecursiveFree(t, t.head, {}, b);
  }

  // ---- Runs -----------------------------------------------------------------------

  datatype Op = InsertOp(key: Key, value: Value) | TryInsertOp(key: Key, value: Value) | RemoveOp(key: Key)

  /** What a plain map does with an operation. */
  function Next(M: map<Key, Value>, op: Op): map<Key, Value> {
    match op
    case InsertOp(k, v) => M[k := v]
    case TryInsertOp(k, v) => if k in M then M else M[k := v]
    case RemoveOp(k) => M - {k}
  }

  function After(M: map<Key, Value>, ops: seq<Op>): map<Key, Value> {
    if ops == [] then M else Next(After(M, ops[..|ops| - 1]), ops[|ops| - 1])
  }

  /** The return code and the old value that the plain map calls for. */
  function Answer(M: map<Key, Value>, op: Op): (bool, Option<Value>) {
    ((op.key in M) == op.RemoveOp?, if op.key in M then Some(M[op.key]) else None)
  }

  function Answers(M: map<Key, Value>, ops: seq<Op>): seq<(bool, Option<Value>)> {
    if ops == [] then [] else
      var before := ops[..|ops| - 1];
      Answers(M, before) + [Answer(After(M, before), ops[|ops| - 1])]
  }

  /** A removal leaves keys of at most 65535 bytes. */
  ghost predicate OpFits(M: map<Key, Value>, op: Op) {
    op.RemoveOp? && op.key in M ==> KeysFit(Next(M, op))
  }

  /** One call on the tree. */
  method Step(t: Rax, op: Op) returns (r: (bool, Option<Value>))
    requires t.Valid() && OpFits(t.contents, op)
    modifies t, t.H.Keys
    ensures t.Valid() && t.contents == Next(old(t.contents), op) && r == Answer(old(t.contents), op)
    ensures forall n :: n in t.H && n !in old(t.H) ==> fresh(n)
  {
    var done, prev;
    match op {
      case InsertOp(k, v) => done, prev := t.Insert(k, v);
      case TryInsertOp(k, v) => done, prev := t.TryInsert(k, v);
      case RemoveOp(k) => done, prev := t.Remove(k);
    }
    return (done, prev);
  }

  /** Any run of insertions and removals on a new tree answers as a plain map would and ends
      with its contents. */
  method Run(ops: seq<Op>) returns (t: Rax, answers: seq<(bool, Option<Value>)>)
    requires forall i :: 0 <= i < |ops| ==> OpFits(After(map[], ops[..i]), ops[i])
    ensures t.Valid() && fresh(t) && t.contents == After(map[], ops) && answers == Answers(map[], ops)
    ensures t.numele == |After(map[], ops)| && t.numnodes == |t.H|
  {
    t := new Rax();
    answers := [];
    hide Next, Answer, OpFits;
    for i := 0 to |ops|
      invariant t.Valid() && fresh(t) && (forall n :: n in t.H ==> fresh(n))
      invariant t.contents == After(map[], ops[..i]) && answers == Answers(map[], ops[..i])
    {
      var r := Step(t, ops[i]);
      answers := answers + [r];
      assert ops[..i + 1][..i] == ops[..i];
    }
    assert ops[..|ops|] == ops;
  }
}
