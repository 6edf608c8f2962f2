/** Walking a whole range of the tree with the iterator. */
module RaxScan {
  import opened RaxKeys
  import opened RaxTheory
  import opened RaxOrder
  import opened RaxSeek
  import opened RaxIter
  import opened Rax

  predicate Increasing(keys: seq<Key>) {
    forall i, j :: 0 <= i < j < |keys| ==> Less(keys[i], keys[j])
  }

  predicate Decreasing(keys: seq<Key>) {
    forall i, j :: 0 <= i < j < |keys| ==> Less(keys[j], keys[i])
  }

  /** values are those of keys in M. */
  predicate Values(M: map<Key, Value>, keys: seq<Key>, values: seq<Value>) {
    |values| == |keys| && forall i :: 0 <= i < |keys| ==> keys[i] in M && values[i] == M[keys[i]]
  }

  /** The keys of M from a to b. */
  ghost predicate Between(M: map<Key, Value>, keys: seq<Key>, a: Key, b: Key) {
    forall m {:trigger m in keys} :: m in keys <==> m in M && LessEq(a, m) && LessEq(m, b)
  }

  lemma BetweenStart(M: map<Key, Value>, a: Key)
    requires a in M
    ensures Between(M, [a], a, a)
  {
    forall m | m in M && LessEq(a, m) && LessEq(m, a) ensures m == a {
      if m != a { LessAsymmetric(a, m); }
    }
  }

  /** The next key extends an increasing walk by exactly itself. */
  lemma BetweenUp(M: map<Key, Value>, keys: seq<Key>, a: Key, b: Key, c: Key)
    requires Between(M, keys, a, b) && NextOf(M, b, false, c) && Increasing(keys) && LessEq(a, b)
    ensures Between(M, keys + [c], a, c) && Increasing(keys + [c]) && LessEq(a, c)
  {
    if a != b { LessTransitive(a, b, c); }
    forall m ensures m in keys + [c] <==> m in M && LessEq(a, m) && LessEq(m, c) {
      if m in keys && m != b { LessTransitive(m, b, c); }
      if m in M && LessEq(a, m) && LessEq(m, c) && m != c && !(m in keys) {
        LessTotal(m, b);
        LessAsymmetric(m, c);
      }
    }
    forall i | 0 <= i < |keys| ensures Less(keys[i], c) {
      assert keys[i] in keys;
      if keys[i] != b { LessTransitive(keys[i], b, c); }
    }
  }

  lemma BetweenDown(M: map<Key, Value>, keys: seq<Key>, a: Key, b: Key, c: Key)
    requires Between(M, keys, b, a) && PrevOf(M, b, c) && Decreasing(keys) && LessEq(b, a)
    ensures Between(M, keys + [c], c, a) && Decreasing(keys + [c]) && LessEq(c, a)
  {
    if a != b { LessTransitive(c, b, a); }
    forall m ensures m in keys + [c] <==> m in M && LessEq(c, m) && LessEq(m, a) {
      if m in keys && m != b { LessTransitive(c, b, m); }
      if m in M && LessEq(c, m) && LessEq(m, a) && m != c && !(m in keys) {
        LessTotal(m, b);
        LessAsymmetric(c, m);
      }
    }
    forall i | 0 <= i < |keys| ensures Less(c, keys[i]) {
      assert keys[i] in keys;
      if keys[i] != b { LessTransitive(c, b, keys[i]); }
    }
  }

  ghost function After(M: map<Key, Value>, b: Key): set<Key> {
    set m | m in M && Less(b, m)
  }

  ghost function Before(M: map<Key, Value>, b: Key): set<Key> {
    set m | m in M && Less(m, b)
  }

  /** Fewer keys are left after a step. */
  lemma FewerAfter(M: map<Key, Value>, b: Key, c: Key)
    requires c in M && Less(b, c)
    ensures After(M, c) < After(M, b)
  {
    forall m | m in M && Less(c, m) ensures Less(b, m) { LessTransitive(b, c, m); }
    LessIrreflexive(c);
    assert c in After(M, b) && c !in After(M, c);
  }

  lemma FewerBefore(M: map<Key, Value>, b: Key, c: Key)
    requires c in M && Less(c, b)
    ensures Before(M, c) < Before(M, b)
  {
    forall m | m in M && Less(m, c) ensures Less(m, b) { LessTransitive(m, c, b); }
    LessIrreflexive(c);
    assert c in Before(M, b) && c !in Before(M, c);
  }

  /** The walk so far: from a up (down) to b. */
  ghost predicate SoFarUp(M: map<Key, Value>, keys: seq<Key>, values: seq<Value>, a: Key, b: Key) {
    keys != [] && keys[0] == a && Increasing(keys) && Values(M, keys, values) && Between(M, keys, a, b) && LessEq(a, b)
  }

  ghost predicate SoFarDown(M: map<Key, Value>, keys: seq<Key>, values: seq<Value>, a: Key, b: Key) {
    keys != [] && keys[0] == a && Decreasing(keys) && Values(M, keys, values) && Between(M, keys, b, a) && LessEq(b, a)
  }

  lemma Starts(M: map<Key, Value>, a: Key)
    requires a in M
    ensures SoFarUp(M, [a], [M[a]], a, a) && SoFarDown(M, [a], [M[a]], a, a)
  {
    BetweenStart(M, a);
  }

  lemma StepUp(M: map<Key, Value>, keys: seq<Key>, values: seq<Value>, a: Key, b: Key, c: Key)
    requires SoFarUp(M, keys, values, a, b) && NextOf(M, b, false, c)
    ensures SoFarUp(M, keys + [c], values + [M[c]], a, c) && After(M, c) < After(M, b)
  {
    BetweenUp(M, keys, a, b, c);
    FewerAfter(M, b, c);
  }

  lemma StepDown(M: map<Key, Value>, keys: seq<Key>, values: seq<Value>, a: Key, b: Key, c: Key)
    requires SoFarDown(M, keys, values, a, b) && PrevOf(M, b, c)
    ensures SoFarDown(M, keys + [c], values + [M[c]], a, c) && Before(M, c) < Before(M, b)
  {
    BetweenDown(M, keys, a, b, c);
    FewerBefore(M, b, c);
  }

  lemma EndUp(M: map<Key, Value>, op: string, ele: Key, keys: seq<Key>, values: seq<Value>, a: Key, b: Key)
    requires SoFarUp(M, keys, values, a, b) && Target(M, op, ele, a) && forall m :: m in M ==> !Less(b, m)
    ensures WalkUp(M, op, ele, keys, values)
  {
    forall m | m in M ensures LessEq(m, b) { LessTotal(m, b); }
  }

  lemma EndDown(M: map<Key, Value>, op: string, ele: Key, keys: seq<Key>, values: seq<Value>, a: Key, b: Key)
    requires SoFarDown(M, keys, values, a, b) && Target(M, op, ele, a) && forall m :: m in M ==> !Less(m, b)
    ensures WalkDown(M, op, ele, keys, values)
  {
    forall m | m in M ensures LessEq(b, m) { LessTotal(m, b); }
  }

  /** The whole increasing walk: from the target of the seek to the greatest key. */
  ghost predicate WalkUp(M: map<Key, Value>, op: string, ele: Key, keys: seq<Key>, values: seq<Value>) {
    && Increasing(keys) && Values(M, keys, values)
    && (keys == [] ==> forall m :: m in M ==> !Wanted(op, ele, m))
    && (keys != [] ==> Target(M, op, ele, keys[0]))
    && (keys != [] ==> forall m :: m in keys <==> m in M && LessEq(keys[0], m))
  }

  ghost predicate WalkDown(M: map<Key, Value>, op: string, ele: Key, keys: seq<Key>, values: seq<Value>) {
    && Decreasing(keys) && Values(M, keys, values)
    && (keys == [] ==> forall m :: m in M ==> !Wanted(op, ele, m))
    && (keys != [] ==> Target(M, op, ele, keys[0]))
    && (keys != [] ==> forall m :: m in keys <==> m in M && LessEq(m, keys[0]))
  }

  /** The seek and the first step, which stays on the target. */
  method StartUp(it: RaxIterator, op: string, ele: Key) returns (ok: bool)
    requires it.rt.Valid() && KnownOp(op)
    modifies it
    ensures it.Ready() && ok == !it.eof && (ok ==> !it.justSeeked) && it.keyLen <= |it.key|
    ensures !ok ==> forall m :: m in it.rt.contents ==> !Wanted(op, ele, m)
    ensures ok ==> Target(it.rt.contents, op, ele, it.Current()) && it.data == it.rt.contents[it.Current()]
  {
    hide Wanted, Target, RaxIterator.OnKey, NextOf, PrevOf, Rax.Valid;
    ok := it.Seek(op, ele);
    ok := it.Next();
  }

  /** raxSeek and then raxNext until the end: every key from the target on, once, in order. */
  method CollectUp(it: RaxIterator, op: string, ele: Key) returns (keys: seq<Key>, values: seq<Value>)
    requires it.rt.Valid() && KnownOp(op)
    modifies it
    ensures it.eof && WalkUp(it.rt.contents, op, ele, keys, values)
  {
    hide RaxIterator.Ready, RaxIterator.OnKey, Rax.Valid;
    ghost var M := it.rt.contents;
    var ok := StartUp(it, op, ele);
    keys, values := [], [];
    if !ok { return; }
    ghost var a, b := it.Current(), it.Current();
    Starts(M, a);
    hide Wanted, Target, NextOf, SoFarUp, WalkUp, After;
    keys, values := [it.Current()], [it.data];
    while ok
      invariant it.Ready() && ok == !it.eof && (ok ==> !it.justSeeked) && it.keyLen <= |it.key|
      invariant (ok ==> b == it.Current())
      invariant SoFarUp(M, keys, values, a, b)
      invariant !ok ==> forall m :: m in M ==> !Less(b, m)
      decreases ok, After(M, b)
    {
      ok := it.Next();
      if ok {
        StepUp(M, keys, values, a, b, it.Current());
        keys, values, b := keys + [it.Current()], values + [it.data], it.Current();
      }
    }
    EndUp(M, op, ele, keys, values, a, b);
  }

  /** The seek and the first step, which stays on the target. */
  method StartDown(it: RaxIterator, op: string, ele: Key) returns (ok: bool)
    requires it.rt.Valid() && KnownOp(op)
    modifies it
    ensures it.Ready() && ok == !it.eof && (ok ==> !it.justSeeked) && it.keyLen <= |it.key|
    ensures !ok ==> forall m :: m in it.rt.contents ==> !Wanted(op, ele, m)
    ensures ok ==> Target(it.rt.contents, op, ele, it.Current()) && it.data == it.rt.contents[it.Current()]
  {
    hide Wanted, Target, RaxIterator.OnKey, NextOf, PrevOf, Rax.Valid;
    ok := it.Seek(op, ele);
    ok := it.Prev();
  }

  /** raxSeek and then raxPrev until the end. */
  method CollectDown(it: RaxIterator, op: string, ele: Key) returns (keys: seq<Key>, values: seq<Value>)
    requires it.rt.Valid() && KnownOp(op)
    modifies it
    ensures it.eof && WalkDown(it.rt.contents, op, ele, keys, values)
  {
    hide RaxIterator.Ready, RaxIterator.OnKey, Rax.Valid;
    ghost var M := it.rt.contents;
    var ok := StartDown(it, op, ele);
    keys, values := [], [];
    if !ok { return; }
    ghost var a, b := it.Current(), it.Current();
    Starts(M, a);
    hide Wanted, Target, PrevOf, SoFarDown, WalkDown, Before;
    keys, values := [it.Current()], [it.data];
    while ok
      invariant it.Ready() && ok == !it.eof && (ok ==> !it.justSeeked) && it.keyLen <= |it.key|
      invariant (ok ==> b == it.Current())
      invariant SoFarDown(M, keys, values, a, b)
      invariant !ok ==> forall m :: m in M ==> !Less(m, b)
      decreases ok, Before(M, b)
    {
      ok := it.Prev();
      if ok {
        StepDown(M, keys, values, a, b, it.Current());
        keys, values, b := keys + [it.Current()], values + [it.data], it.Current();
      }
    }
    EndDown(M, op, ele, keys, values, a, b);
  }
}
