/** Replacing one node, with at most one node added or dropped: what must hold of
    the nodes alone for the whole tree to stay a tree. */
module RaxEdits {
  import opened RaxKeys
  import opened RaxTheory

  ghost predicate Binds(x: N, y: N, k: Key, v: Value) {
    x.Bind(k, v) || y.Bind(k, v)
  }

  /** M becomes M' when the nodes x1 and x2 are exchanged for y1 and y2. */
  ghost predicate Rebind(M: map<Key, Value>, M': map<Key, Value>, x1: N, x2: N, y1: N, y2: N) {
    && (forall k, v {:trigger Binds(y1, y2, k, v)} :: Binds(y1, y2, k, v) ==> k in M' && M'[k] == v)
    && (forall k {:trigger k in M} :: k in M ==> Binds(x1, x2, k, M[k]) || (k in M' && M'[k] == M[k]))
    && (forall k {:trigger k in M'} :: k in M' ==>
         Binds(y1, y2, k, M'[k]) || (k in M && M[k] == M'[k] && !Binds(x1, x2, k, M[k])))
  }

  // ---- One node replaced ---------------------------------------------------

  lemma ChangeShape(head: RaxNode, H: Heap, h: RaxNode, y: N)
    requires Shape(head, H) && h in H && NodeOk(y) && y.prefix == H[h].prefix
    requires KidsIn(y, H)
    requires forall c, k :: y.Kid(c, k) <==> H[h].Kid(c, k)
    ensures Shape(head, H[h := y])
  {
    var H' := H[h := y];
    assert H'.Keys == H.Keys;
    forall n | n in H' ensures KidsIn(H'[n], H') {
      assert KidsIn(H[n], H);
    }
    forall n, c, k | n in H' && c in H' && H'[n].Kid(c, k) ensures c != head && H'[c].prefix == k {
      assert H[n].Kid(c, k);
    }
    forall m | m in H' && m != head ensures HasParent(H', m) {
      var p, i := Parent(head, H, m);
      assert H[p].Kid(m, H[m].prefix);
      assert H'[p].Kid(m, H'[m].prefix);
    }
  }

  lemma ChangeOk(head: RaxNode, H: Heap, M: map<Key, Value>, h: RaxNode, y: N, M': map<Key, Value>)
    requires Shape(head, H) && Denotes(H, M) && h in H && NodeOk(y) && y.prefix == H[h].prefix
    requires KidsIn(y, H)
    requires forall c, k :: y.Kid(c, k) <==> H[h].Kid(c, k)
    requires Rebind(M, M', H[h], H[h], y, y)
    ensures Shape(head, H[h := y]) && Denotes(H[h := y], M')
  {
    var H' := H[h := y];
    ChangeShape(head, H, h, y);
    forall n, k, v | n in H' && H'[n].Bind(k, v) ensures k in M' && M'[k] == v {
      if n == h {
        assert Binds(y, y, k, v);
      } else {
        assert H[n].Bind(k, v);
        if H[h].Bind(k, v) { UniqueBind(head, H, n, h, k, v, v); }
      }
    }
    forall k | k in M' ensures Stored(H', k, M'[k]) {
      if y.Bind(k, M'[k]) {
        assert H'[h].Bind(k, M'[k]);
      } else {
        assert Stored(H, k, M[k]);
        var n: RaxNode :| n in H && H[n].Bind(k, M[k]);
        assert H'[n].Bind(k, M'[k]);
      }
    }
  }

  // ---- One node replaced and one added ---------------------------------------

  lemma KidIsIn(H: Heap, n: RaxNode, c: RaxNode)
    requires n in H && KidsIn(H[n], H) && c !in H
    ensures forall k :: !H[n].Kid(c, k)
  {
  }

  lemma AddShape(head: RaxNode, H: Heap, h: RaxNode, y: N, c0: RaxNode, z: N)
    requires Shape(head, H) && h in H && c0 !in H && NodeOk(y) && NodeOk(z) && y.prefix == H[h].prefix
    requires KidsIn(y, H[c0 := z]) && KidsIn(z, H)
    requires forall c, k :: y.Kid(c, k) || z.Kid(c, k) <==> H[h].Kid(c, k) || (c == c0 && k == z.prefix)
    ensures Shape(head, H[h := y][c0 := z])
  {
    var H' := H[h := y][c0 := z];
    assert H'.Keys == H.Keys + {c0};
    forall n | n in H' ensures KidsIn(H'[n], H') {
      if n in H { assert KidsIn(H[n], H); }
    }
    forall n, c, k | n in H' && c in H' && H'[n].Kid(c, k) ensures c != head && H'[c].prefix == k {
      var o: RaxNode := if n in H then n else h;
      assert KidsIn(H[o], H);
      KidIsIn(H, o, c0);
      assert n != o || n == h || H[o].Kid(c, k);
      assert c == c0 || H[o].Kid(c, k);
    }
    forall m | m in H' && m != head ensures HasParent(H', m) {
      if m in H {
        var p, i := Parent(head, H, m);
        assert H[p].Kid(m, H[m].prefix);
        if p == h {
          assert H'[h].Kid(m, H'[m].prefix) || H'[c0].Kid(m, H'[m].prefix);
        } else {
          assert H'[p].Kid(m, H'[m].prefix);
        }
      } else {
        assert H'[h].Kid(m, H'[m].prefix) || H'[c0].Kid(m, H'[m].prefix);
      }
    }
  }

  lemma AddOk(head: RaxNode, H: Heap, M: map<Key, Value>, h: RaxNode, y: N, c0: RaxNode, z: N, M': map<Key, Value>)
    requires Shape(head, H) && Denotes(H, M) && h in H && c0 !in H
    requires NodeOk(y) && NodeOk(z) && y.prefix == H[h].prefix
    requires KidsIn(y, H[c0 := z]) && KidsIn(z, H)
    requires forall c, k :: y.Kid(c, k) || z.Kid(c, k) <==> H[h].Kid(c, k) || (c == c0 && k == z.prefix)
    requires Rebind(M, M', H[h], H[h], y, z)
    ensures Shape(head, H[h := y][c0 := z]) && Denotes(H[h := y][c0 := z], M')
  {
    var H' := H[h := y][c0 := z];
    AddShape(head, H, h, y, c0, z);
    forall n, k, v | n in H' && H'[n].Bind(k, v) ensures k in M' && M'[k] == v {
      if n == h || n == c0 {
        assert Binds(y, z, k, v);
      } else {
        assert H[n].Bind(k, v);
        if H[h].Bind(k, v) { UniqueBind(head, H, n, h, k, v, v); }
      }
    }
    forall k | k in M' ensures Stored(H', k, M'[k]) {
      if y.Bind(k, M'[k]) {
        assert H'[h].Bind(k, M'[k]);
      } else if z.Bind(k, M'[k]) {
        assert H'[c0].Bind(k, M'[k]);
      } else {
        assert Stored(H, k, M[k]);
        var n: RaxNode :| n in H && H[n].Bind(k, M[k]);
        assert H'[n].Bind(k, M'[k]);
      }
    }
  }

  // ---- One node replaced and one of its children dropped -----------------------

  lemma DropShape(head: RaxNode, H: Heap, h: RaxNode, y: N, b: RaxNode)
    requires Shape(head, H) && h in H && b in H && b != h && b != head && NodeOk(y) && y.prefix == H[h].prefix
    requires KidsIn(y, H - {b}) && H[h].Kid(b, H[b].prefix)
    requires forall c, k :: c != b ==> (y.Kid(c, k) <==> H[h].Kid(c, k) || H[b].Kid(c, k))
    ensures Shape(head, (H - {b})[h := y])
  {
    var H' := (H - {b})[h := y];
    assert H'.Keys == H.Keys - {b};
    forall n | n in H' ensures KidsIn(H'[n], H') {
      if n != h {
        assert KidsIn(H[n], H);
        if i: nat :| i < |H[n].slots| && H[n].slots[i] == Child(b) {
          assert H[n].KidSlot(i, b, H[n].At(i));
          assert H[n].Kid(b, H[n].At(i));
          var j :| H[h].KidSlot(j, b, H[b].prefix);
          SameParent(head, H, n, i, h, j, H[b].prefix);
          assert false;
        }
      }
    }
    forall n, c, k | n in H' && c in H' && H'[n].Kid(c, k) ensures c != head && H'[c].prefix == k {
      if n == h {
        assert H[h].Kid(c, k) || H[b].Kid(c, k);
      } else {
        assert H[n].Kid(c, k);
      }
    }
    forall m | m in H' && m != head ensures HasParent(H', m) {
      var p, i := Parent(head, H, m);
      assert H[p].Kid(m, H[m].prefix);
      assert H'[if p == b then h else p].Kid(m, H'[m].prefix);
    }
  }

  lemma DropOk(head: RaxNode, H: Heap, M: map<Key, Value>, h: RaxNode, y: N, b: RaxNode, M': map<Key, Value>)
    requires Shape(head, H) && Denotes(H, M) && h in H && b in H && b != h && b != head
    requires NodeOk(y) && y.prefix == H[h].prefix
    requires KidsIn(y, H - {b}) && H[h].Kid(b, H[b].prefix)
    requires forall c, k :: c != b ==> (y.Kid(c, k) <==> H[h].Kid(c, k) || H[b].Kid(c, k))
    requires Rebind(M, M', H[h], H[b], y, y)
    ensures Shape(head, (H - {b})[h := y]) && Denotes((H - {b})[h := y], M')
  {
    var H' := (H - {b})[h := y];
    DropShape(head, H, h, y, b);
    forall n, k, v | n in H' && H'[n].Bind(k, v) ensures k in M' && M'[k] == v {
      if n == h {
        assert Binds(y, y, k, v);
      } else {
        assert H[n].Bind(k, v);
        if H[h].Bind(k, v) { UniqueBind(head, H, n, h, k, v, v); }
        if H[b].Bind(k, v) { UniqueBind(head, H, n, b, k, v, v); }
      }
    }
    forall k | k in M' ensures Stored(H', k, M'[k]) {
      if y.Bind(k, M'[k]) {
        assert H'[h].Bind(k, M'[k]);
      } else {
        assert Stored(H, k, M[k]);
        var n: RaxNode :| n in H && H[n].Bind(k, M[k]);
        assert H'[n].Bind(k, M'[k]);
      }
    }
  }
}
