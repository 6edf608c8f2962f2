/** What the key/value caches of a session must hold for the next token to see what a cold
    evaluation of the checkpoint would have computed. */
module KvTheory {
  import opened Basics

  type Token = int

  /** The network, left open: embedding, key/value row of a layer, a layer's output from the rows
      it attends to, and the logits. */
  datatype Model<!V, !R, !G> = Model(
    layers: nat,
    window: nat,
    full: nat -> bool,
    embed: Token -> V,
    row: (nat, nat, V) -> R,
    mix: (nat, nat, V, seq<R>) -> V,
    out: V -> G)

  /** The first position that layer il attends to from position p. */
  function Start<V, R, G>(m: Model<V, R, G>, il: nat, p: nat): nat {
    if m.full(il) || p + 1 <= m.window then 0 else p + 1 - m.window
  }

  // ---- Cold evaluation ------------------------------------------------------------------

  /** The hidden vector that enters layer il at position p when toks is evaluated from nothing. */
  ghost function Hidden<V, R, G>(m: Model<V, R, G>, toks: seq<Token>, il: nat, p: nat): V
    requires p < |toks|
    decreases il, 1
  {
    if il == 0 then m.embed(toks[p])
    else m.mix(il - 1, p, Hidden(m, toks, il - 1, p), Attended(m, toks, il - 1, p))
  }

  ghost function RowAt<V, R, G>(m: Model<V, R, G>, toks: seq<Token>, il: nat, p: nat): R
    requires p < |toks|
    decreases il, 2
  {
    m.row(il, p, Hidden(m, toks, il, p))
  }

  /** The rows layer il attends to from position p. */
  ghost function Attended<V, R, G>(m: Model<V, R, G>, toks: seq<Token>, il: nat, p: nat): seq<R>
    requires p < |toks|
    decreases il, 3
  {
    var s := Start(m, il, p);
    seq(p + 1 - s, i requires 0 <= i < p + 1 - s => RowAt(m, toks, il, s + i))
  }

  ghost function ColdLogits<V, R, G>(m: Model<V, R, G>, toks: seq<Token>): G
    requires toks != []
  {
    m.out(Hidden(m, toks, m.layers, |toks| - 1))
  }

  /** What happens at a position depends on the tokens up to it only. */
  lemma {:induction false} Causal<V, R, G>(m: Model<V, R, G>, a: seq<Token>, b: seq<Token>, il: nat, p: nat)
    requires p < |a| && p < |b| && a[..p + 1] == b[..p + 1]
    ensures Hidden(m, a, il, p) == Hidden(m, b, il, p)
    ensures RowAt(m, a, il, p) == RowAt(m, b, il, p)
    decreases il
  {
    if il == 0 {
      assert a[p] == a[..p + 1][p] == b[..p + 1][p] == b[p];
    } else {
      var l0 := il - 1;
      Causal(m, a, b, l0, p);
      var s := Start(m, l0, p);
      forall q | s <= q <= p ensures RowAt(m, a, l0, q) == RowAt(m, b, l0, q) {
        assert a[..q + 1] == a[..p + 1][..q + 1] && b[..q + 1] == b[..p + 1][..q + 1];
        Causal(m, a, b, l0, q);
      }
      var l, r := Attended(m, a, l0, p), Attended(m, b, l0, p);
      forall i | 0 <= i < |l| ensures l[i] == r[i] {
        assert RowAt(m, a, l0, s + i) == RowAt(m, b, l0, s + i);
      }
      assert l == r;
    }
  }

  // ---- Rings ------------------------------------------------------------------------------------

  type Slots<R> = seq<seq<R>>

  /** The slot of position p in layer il. */
  function At<R>(caps: seq<nat>, il: nat, p: nat): nat
    requires il < |caps| && caps[il] > 0
  {
    p % caps[il]
  }

  predicate Sized<R>(slots: Slots<R>, caps: seq<nat>) {
    |slots| == |caps| && forall il {:trigger slots[il]} {:trigger caps[il]} :: 0 <= il < |caps| ==>
      caps[il] > 0 && |slots[il]| == caps[il]
  }

  ghost predicate Holds<V, R, G>(m: Model<V, R, G>, caps: seq<nat>, slots: Slots<R>, toks: seq<Token>, il: nat, p: nat)
    requires Sized(slots, caps) && il < |caps| && p < |toks|
  {
    slots[il][At<R>(caps, il, p)] == RowAt(m, toks, il, p)
  }

  /** In layer il every position from `low` on is in its slot. */
  ghost predicate KeptLayer<V, R, G>(m: Model<V, R, G>, caps: seq<nat>, slots: Slots<R>, toks: seq<Token>, il: nat,
                                     low: nat)
    requires Sized(slots, caps) && il < |caps|
  {
    forall p {:trigger Holds(m, caps, slots, toks, il, p)} :: low <= p < |toks| ==> Holds(m, caps, slots, toks, il, p)
  }

  /** The layers before k have seen the tokens `ahead`, the others only toks. */
  ghost predicate KeptTo<V, R, G>(m: Model<V, R, G>, caps: seq<nat>, slots: Slots<R>, toks: seq<Token>,
                                  ahead: seq<Token>, k: nat, lows: seq<nat>) {
    && Sized(slots, caps) && |caps| == m.layers == |lows|
    && forall il {:trigger lows[il]} ::
         0 <= il < |caps| ==>
           if il < k then KeptLayer(m, caps, slots, ahead, il, lows[il])
           else KeptLayer(m, caps, slots, toks, il, lows[il])
  }

  ghost predicate Kept<V, R, G>(m: Model<V, R, G>, caps: seq<nat>, slots: Slots<R>, toks: seq<Token>, lows: seq<nat>) {
    KeptTo(m, caps, slots, toks, toks, 0, lows)
  }

  /** A ring holds the whole context, or a window and the longest chunk. */
  predicate CapsOk<V, R, G>(m: Model<V, R, G>, ctx: nat, caps: seq<nat>, chunkMax: nat) {
    && ctx > 0 && m.window > 0 && chunkMax > 0 && |caps| == m.layers
    && forall il {:trigger caps[il]} :: 0 <= il < |caps| ==>
         caps[il] == ctx || (!m.full(il) && chunkMax + m.window <= caps[il] + 1)
  }

  /** The next token, at position n, finds all it attends to when layer il keeps the positions from
      lows[il] on. */
  predicate Ready<V, R, G>(m: Model<V, R, G>, ctx: nat, caps: seq<nat>, n: nat, lows: seq<nat>) {
    && n <= ctx && |lows| == |caps|
    && forall il {:trigger lows[il]} :: 0 <= il < |caps| ==> lows[il] <= Start(m, il, n)
  }

  /** What is still kept once the positions before top are written. */
  function Raised(lows: seq<nat>, caps: seq<nat>, top: nat): (r: seq<nat>)
    requires |lows| == |caps|
    ensures |r| == |caps|
  {
    seq(|caps|, il requires 0 <= il < |caps| => if top > caps[il] then Max(lows[il], top - caps[il]) else lows[il])
  }

  /** No position from n on was ever written: a layer has lost no more than the writes before n took. */
  predicate Forward(caps: seq<nat>, lows: seq<nat>, n: nat) {
    |lows| == |caps| && forall il :: 0 <= il < |caps| ==> lows[il] == 0 || lows[il] + caps[il] <= n
  }

  lemma StillForward(caps: seq<nat>, lows: seq<nat>, n: nat, top: nat)
    requires Forward(caps, lows, n)
    ensures Forward(caps, Raised(lows, caps, top), Max(n, top))
  {
  }

  /** A chunk of at most chunkMax tokens leaves the rows that its own first query and the token
      after it need. */
  lemma ReadyAfter<V, R, G>(m: Model<V, R, G>, ctx: nat, caps: seq<nat>, chunkMax: nat, n: nat, c: nat, lows: seq<nat>)
    requires CapsOk(m, ctx, caps, chunkMax) && Ready(m, ctx, caps, n, lows) && 0 < c <= chunkMax && n + c <= ctx
    ensures var r := Raised(lows, caps, n + c);
      && Ready(m, ctx, caps, n, r) && Ready(m, ctx, caps, n + c, r)
      && forall il :: 0 <= il < |caps| ==> r[il] <= Start(m, il, n) && n + c <= r[il] + caps[il] && lows[il] <= r[il]
  {
    var r := Raised(lows, caps, n + c);
    forall il | 0 <= il < |caps|
      ensures r[il] <= Start(m, il, n) <= Start(m, il, n + c) && n + c <= r[il] + caps[il] && lows[il] <= r[il]
    {
      assert lows[il] <= Start(m, il, n);
      assert caps[il] == ctx || chunkMax + m.window <= caps[il] + 1;
    }
  }

  // ---- Writing and reading rows -----------------------------------------------------------------

  function Put<R>(slots: Slots<R>, caps: seq<nat>, il: nat, p: nat, r: R): Slots<R>
    requires Sized(slots, caps) && il < |caps|
  {
    slots[il := slots[il][At<R>(caps, il, p) := r]]
  }

  lemma SameSlot(p: nat, q: nat, cap: nat)
    requires cap > 0 && p < q && p % cap == q % cap
    ensures p + cap <= q
  {
    var a, b := p / cap, q / cap;
    assert p == cap * a + p % cap && q == cap * b + q % cap;
    assert cap * (b - a) == q - p;
    Multiple(cap, b - a);
  }

  lemma Multiple(c: nat, k: int)
    ensures (k <= 0 ==> c * k <= 0) && (k >= 1 ==> c * k >= c)
  {
  }

  /** The row of position q goes to its slot: it overwrites only what is a ring behind it. */
  lemma PutNext<V, R, G>(m: Model<V, R, G>, caps: seq<nat>, slots: Slots<R>, toks: seq<Token>, il: nat, q: nat, r: R,
                         low: nat)
    requires Sized(slots, caps) && il < |caps| && q < |toks| && q < low + caps[il] && r == RowAt(m, toks, il, q)
    requires KeptLayer(m, caps, slots, toks[..q], il, low)
    ensures KeptLayer(m, caps, Put(slots, caps, il, q, r), toks[..q + 1], il, low)
  {
    var slots', a, b := Put(slots, caps, il, q, r), toks[..q], toks[..q + 1];
    assert b[..q + 1] == toks[..q + 1];
    Causal(m, toks, b, il, q);
    forall p | low <= p < |b| ensures Holds(m, caps, slots', b, il, p) {
      if p < q {
        assert Holds(m, caps, slots, a, il, p);
        assert a[..p + 1] == b[..p + 1];
        Causal(m, a, b, il, p);
        if At<R>(caps, il, p) == At<R>(caps, il, q) { SameSlot(p, q, caps[il]); }
      }
    }
  }

  /** Rows may be lost when more is written, and fewer tokens need fewer rows. */
  lemma KeptLess<V, R, G>(m: Model<V, R, G>, caps: seq<nat>, slots: Slots<R>, toks: seq<Token>, il: nat, low: nat,
                          n: nat, low': nat)
    requires Sized(slots, caps) && il < |caps| && KeptLayer(m, caps, slots, toks, il, low) && n <= |toks| && low <= low'
    ensures KeptLayer(m, caps, slots, toks[..n], il, low')
  {
    forall p | low' <= p < n ensures Holds(m, caps, slots, toks[..n], il, p) {
      assert Holds(m, caps, slots, toks, il, p);
      assert toks[..n][..p + 1] == toks[..p + 1];
      Causal(m, toks, toks[..n], il, p);
    }
  }

  /** What layer il attends to from position p, read from its ring. */
  ghost function Fetched<V, R, G>(m: Model<V, R, G>, caps: seq<nat>, slots: Slots<R>, il: nat, p: nat): seq<R>
    requires Sized(slots, caps) && il < |caps|
  {
    var s := Start(m, il, p);
    seq(p + 1 - s, i requires 0 <= i < p + 1 - s => slots[il][At<R>(caps, il, s + i)])
  }

  lemma FetchOk<V, R, G>(m: Model<V, R, G>, caps: seq<nat>, slots: Slots<R>, toks: seq<Token>, il: nat, p: nat,
                         low: nat)
    requires Sized(slots, caps) && il < |caps| && p < |toks| && low <= Start(m, il, p)
    requires KeptLayer(m, caps, slots, toks, il, low)
    ensures Fetched(m, caps, slots, il, p) == Attended(m, toks, il, p)
  {
    var s := Start(m, il, p);
    var l, r := Fetched(m, caps, slots, il, p), Attended(m, toks, il, p);
    forall i | 0 <= i < |l| ensures l[i] == r[i] {
      assert Holds(m, caps, slots, toks, il, s + i);
    }
  }

  // ---- One layer's step seen from all layers ---------------------------------------------------------

  /** Layer il went from one kept state to another; the other layers were not touched. */
  lemma LayerStep<V, R, G>(m: Model<V, R, G>, caps: seq<nat>, slots: Slots<R>, slots': Slots<R>, toks: seq<Token>,
                           ahead: seq<Token>, il: nat, lows: seq<nat>)
    requires KeptTo(m, caps, slots, toks, ahead, il, lows) && il < |caps| && Sized(slots', caps)
    requires forall l :: 0 <= l < |caps| && l != il ==> slots'[l] == slots[l]
    ensures KeptLayer(m, caps, slots', ahead, il, lows[il]) ==> KeptTo(m, caps, slots', toks, ahead, il + 1, lows)
    ensures KeptLayer(m, caps, slots', toks, il, lows[il]) ==> KeptTo(m, caps, slots', toks, ahead, il, lows)
  {
    forall l | 0 <= l < |caps| && l != il
      ensures
        if l < il then KeptLayer(m, caps, slots', ahead, l, lows[l])
        else KeptLayer(m, caps, slots', toks, l, lows[l])
    {
      OtherLayer(m, caps, slots, slots', if l < il then ahead else toks, l, lows[l]);
    }
  }

  lemma OtherLayer<V, R, G>(m: Model<V, R, G>, caps: seq<nat>, slots: Slots<R>, slots': Slots<R>, toks: seq<Token>,
                            l: nat, low: nat)
    requires Sized(slots, caps) && Sized(slots', caps) && l < |caps| && slots'[l] == slots[l]
    requires KeptLayer(m, caps, slots, toks, l, low)
    ensures KeptLayer(m, caps, slots', toks, l, low)
  {
    forall p | low <= p < |toks| ensures Holds(m, caps, slots', toks, l, p) {
      assert Holds(m, caps, slots, toks, l, p);
    }
  }

  /** Given up before the last layer: the tokens before the attempt are still kept. */
  lemma Abandoned<V, R, G>(m: Model<V, R, G>, caps: seq<nat>, slots: Slots<R>, toks: seq<Token>, ahead: seq<Token>,
                           k: nat, lows: seq<nat>)
    requires KeptTo(m, caps, slots, toks, ahead, k, lows) && toks <= ahead
    ensures Kept(m, caps, slots, toks, lows)
  {
    assert ahead[..|toks|] == toks;
    forall il | 0 <= il < |caps| ensures KeptLayer(m, caps, slots, toks, il, lows[il]) {
      if il < k { KeptLess(m, caps, slots, ahead, il, lows[il], |toks|, lows[il]); }
    }
  }

  /** All layers done. */
  lemma Completed<V, R, G>(m: Model<V, R, G>, caps: seq<nat>, slots: Slots<R>, toks: seq<Token>, ahead: seq<Token>,
                           lows: seq<nat>)
    requires KeptTo(m, caps, slots, toks, ahead, |caps|, lows)
    ensures Kept(m, caps, slots, ahead, lows)
  {
  }

  /** A step begins: more is about to be written. */
  lemma Begun<V, R, G>(m: Model<V, R, G>, caps: seq<nat>, slots: Slots<R>, toks: seq<Token>, ahead: seq<Token>,
                       lows: seq<nat>, lows': seq<nat>)
    requires Kept(m, caps, slots, toks, lows) && |lows'| == |lows|
    requires forall il :: 0 <= il < |lows| ==> lows[il] <= lows'[il]
    ensures KeptTo(m, caps, slots, toks, ahead, 0, lows')
  {
    assert toks[..|toks|] == toks;
    forall il | 0 <= il < |caps| ensures KeptLayer(m, caps, slots, toks, il, lows'[il]) {
      assert lows[il] <= lows'[il];
      KeptLess(m, caps, slots, toks, il, lows[il], |toks|, lows'[il]);
    }
  }

  lemma KeptPrefix<V, R, G>(m: Model<V, R, G>, caps: seq<nat>, slots: Slots<R>, toks: seq<Token>, lows: seq<nat>,
                            n: nat)
    requires Kept(m, caps, slots, toks, lows) && n <= |toks|
    ensures Kept(m, caps, slots, toks[..n], lows)
  {
    forall il | 0 <= il < |caps| ensures KeptLayer(m, caps, slots, toks[..n], il, lows[il]) {
      KeptLess(m, caps, slots, toks, il, lows[il], n, lows[il]);
    }
  }

  lemma LogitsOf<V, R, G>(m: Model<V, R, G>, toks: seq<Token>)
    requires toks != []
    ensures ColdLogits(m, toks) == m.out(Hidden(m, toks, m.layers, |toks| - 1))
  {
  }

  /** Nothing needs to be kept for an empty checkpoint. */
  lemma Nothing<V, R, G>(m: Model<V, R, G>, ctx: nat, caps: seq<nat>, slots: Slots<R>)
    requires Sized(slots, caps) && |caps| == m.layers
    ensures var zeros := seq(|caps|, _ => 0); Kept(m, caps, slots, [], zeros) && Ready(m, ctx, caps, 0, zeros)
  {
  }

  // ---- What an evaluation computes from whatever is in the slots ------------------------------------

  /** The hidden vector that enters layer k when `token` is evaluated at position pos on these slots. */
  ghost function Warm<V, R, G>(m: Model<V, R, G>, caps: seq<nat>, slots: Slots<R>, token: Token, pos: nat, k: nat): V
    requires Sized(slots, caps) && k <= |caps|
  {
    if k == 0 then m.embed(token) else
      var x := Warm(m, caps, slots, token, pos, k - 1);
      m.mix(k - 1, pos, x, Fetched(m, caps, Put(slots, caps, k - 1, pos, m.row(k - 1, pos, x)), k - 1, pos))
  }

  /** The slots once the first k layers have stored the token's row. */
  ghost function WarmSlots<V, R, G>(m: Model<V, R, G>, caps: seq<nat>, slots: Slots<R>, token: Token, pos: nat,
                                    k: nat): (r: Slots<R>)
    requires Sized(slots, caps) && k <= |caps|
    ensures Sized(r, caps) && forall l :: k <= l < |caps| ==> r[l] == slots[l]
  {
    if k == 0 then slots else
      Put(WarmSlots(m, caps, slots, token, pos, k - 1), caps, k - 1, pos,
        m.row(k - 1, pos, Warm(m, caps, slots, token, pos, k - 1)))
  }

  lemma WarmNone<V, R, G>(m: Model<V, R, G>, caps: seq<nat>, slots: Slots<R>, token: Token, pos: nat)
    requires Sized(slots, caps)
    ensures WarmSlots(m, caps, slots, token, pos, 0) == slots && Warm(m, caps, slots, token, pos, 0) == m.embed(token)
  {
  }

  /** One layer more. */
  lemma WarmStep<V, R, G>(m: Model<V, R, G>, caps: seq<nat>, slots: Slots<R>, token: Token, pos: nat, k: nat)
    requires Sized(slots, caps) && k < |caps|
    ensures var now := WarmSlots(m, caps, slots, token, pos, k); var x := Warm(m, caps, slots, token, pos, k);
      var next := Put(now, caps, k, pos, m.row(k, pos, x));
      && WarmSlots(m, caps, slots, token, pos, k + 1) == next
      && Warm(m, caps, slots, token, pos, k + 1) == m.mix(k, pos, x, Fetched(m, caps, next, k, pos))
  {
    var now, x := WarmSlots(m, caps, slots, token, pos, k), Warm(m, caps, slots, token, pos, k);
    SameFetch(m, caps, Put(now, caps, k, pos, m.row(k, pos, x)), Put(slots, caps, k, pos, m.row(k, pos, x)), k, pos);
  }

  lemma SameFetch<V, R, G>(m: Model<V, R, G>, caps: seq<nat>, a: Slots<R>, b: Slots<R>, il: nat, pos: nat)
    requires Sized(a, caps) && Sized(b, caps) && il < |caps| && a[il] == b[il]
    ensures Fetched(m, caps, a, il, pos) == Fetched(m, caps, b, il, pos)
  {
  }

  /** With the needed rows in place the evaluation is the cold one, and its rows join them. */
  lemma {:induction false} WarmKept<V, R, G>(m: Model<V, R, G>, caps: seq<nat>, slots: Slots<R>, toks: seq<Token>,
                                             token: Token, k: nat, top: seq<nat>)
    requires KeptTo(m, caps, slots, toks, toks + [token], 0, top) && k <= |caps|
    requires forall il :: 0 <= il < |caps| ==> top[il] <= Start(m, il, |toks|) && |toks| + 1 <= top[il] + caps[il]
    ensures var ahead, n := toks + [token], |toks|;
      && KeptTo(m, caps, WarmSlots(m, caps, slots, token, n, k), toks, ahead, k, top)
      && Warm(m, caps, slots, token, n, k) == Hidden(m, ahead, k, n)
  {
    if k > 0 {
      WarmKept(m, caps, slots, toks, token, k - 1, top);
      WarmStep(m, caps, slots, token, |toks|, k - 1);
      hide WarmSlots, Warm, KeptTo;
      LayerKept(m, caps, WarmSlots(m, caps, slots, token, |toks|, k - 1), toks, toks + [token], k - 1, top);
    }
  }

  /** Layer il stores the row of the next token and attends. */
  lemma LayerKept<V, R, G>(m: Model<V, R, G>, caps: seq<nat>, slots: Slots<R>, toks: seq<Token>, ahead: seq<Token>,
                           il: nat, top: seq<nat>)
    requires KeptTo(m, caps, slots, toks, ahead, il, top) && il < |caps| && toks <= ahead && |ahead| == |toks| + 1
    requires top[il] <= Start(m, il, |toks|) && |toks| + 1 <= top[il] + caps[il]
    ensures var slots' := Put(slots, caps, il, |toks|, RowAt(m, ahead, il, |toks|));
      KeptTo(m, caps, slots', toks, ahead, il + 1, top) &&
        Fetched(m, caps, slots', il, |toks|) == Attended(m, ahead, il, |toks|)
  {
    var n := |toks|;
    var slots' := Put(slots, caps, il, n, RowAt(m, ahead, il, n));
    assert ahead[..n] == toks && ahead[..n + 1] == ahead;
    assert KeptLayer(m, caps, slots, toks, il, top[il]);
    PutNext(m, caps, slots, ahead, il, n, RowAt(m, ahead, il, n), top[il]);
    LayerStep(m, caps, slots, slots', toks, ahead, il, top);
    FetchOk(m, caps, slots', ahead, il, n, top[il]);
  }

  /** The evaluation may stop after any layer: the tokens before it are kept all the same. */
  lemma WarmEnds<V, R, G>(m: Model<V, R, G>, caps: seq<nat>, slots: Slots<R>, toks: seq<Token>, token: Token, k: nat,
                          top: seq<nat>)
    requires KeptTo(m, caps, slots, toks, toks + [token], 0, top) && k <= |caps|
    requires forall il :: 0 <= il < |caps| ==> top[il] <= Start(m, il, |toks|) && |toks| + 1 <= top[il] + caps[il]
    ensures var slots' := WarmSlots(m, caps, slots, token, |toks|, k);
      Kept(m, caps, slots', toks, top) && (k == m.layers ==> Kept(m, caps, slots', toks + [token], top))
    ensures |caps| == m.layers
    ensures k == m.layers ==> m.out(Warm(m, caps, slots, token, |toks|, k)) == ColdLogits(m, toks + [token])
  {
    var slots' := WarmSlots(m, caps, slots, token, |toks|, k);
    WarmKept(m, caps, slots, toks, token, k, top);
    assert |caps| == m.layers;
    hide Warm, WarmSlots, KeptLayer, Hidden;
    Abandoned(m, caps, slots', toks, toks + [token], k, top);
    if k == m.layers { Completed(m, caps, slots', toks, toks + [token], top); }
  }

  // ---- Exactly when the evaluation is the cold one -----------------------------------------------------

  /** In layer il everything that the token after toks attends to is in its slot. */
  ghost predicate SeesPast<V, R, G>(m: Model<V, R, G>, caps: seq<nat>, slots: Slots<R>, toks: seq<Token>, il: nat)
    requires Sized(slots, caps) && il < |caps|
  {
    KeptLayer(m, caps, slots, toks, il, Start(m, il, |toks|))
  }

  /** A network whose outputs tell everything that went into them. */
  ghost predicate Telling<V(!new), R(!new), G(!new)>(m: Model<V, R, G>) {
    && (forall s, t :: m.embed(s) == m.embed(t) ==> s == t)
    && (forall il, p, q, x, y :: m.row(il, p, x) == m.row(il, q, y) ==> p == q && x == y)
    && (forall il, p, q, x, y, a, b :: m.mix(il, p, x, a) == m.mix(il, q, y, b) ==> p == q && x == y && a == b)
    && (forall x, y :: m.out(x) == m.out(y) ==> x == y)
  }

  datatype Term = Tok(t: Token) | RowOf(il: nat, p: nat, x: Term) | MixOf(il: nat, p: nat, x: Term, rows: seq<Term>)

  /** The network that only writes down what it was given. */
  function Recorder(layers: nat, window: nat, full: nat -> bool): Model<Term, Term, Term> {
    Model(layers, window, full, t => Tok(t), (il, p, x) => RowOf(il, p, x), (il, p, x, rows) => MixOf(il, p, x, rows),
      x => x)
  }

  lemma RecorderTells(layers: nat, window: nat, full: nat -> bool)
    ensures Telling(Recorder(layers, window, full))
  {
    var m := Recorder(layers, window, full);
    forall s, t | m.embed(s) == m.embed(t) ensures s == t { assert Tok(s) == Tok(t); }
    forall il, p, q, x, y | m.row(il, p, x) == m.row(il, q, y)
      ensures p == q && x == y
    {
      assert RowOf(il, p, x) == RowOf(il, q, y);
    }
    forall il, p, q, x, y, a, b | m.mix(il, p, x, a) == m.mix(il, q, y, b)
      ensures p == q && x == y && a == b
    {
      assert MixOf(il, p, x, a) == MixOf(il, q, y, b);
    }
  }

  /** The query at position n and the token before it never share a slot. */
  predicate Wide<V, R, G>(m: Model<V, R, G>, caps: seq<nat>, n: nat) {
    forall il {:trigger caps[il]} :: 0 <= il < |caps| ==> caps[il] > 0 && n < Start(m, il, n) + caps[il]
  }

  lemma RingsAreWide<V, R, G>(m: Model<V, R, G>, ctx: nat, caps: seq<nat>, chunkMax: nat, n: nat)
    requires CapsOk(m, ctx, caps, chunkMax) && n < ctx
    ensures Wide(m, caps, n)
  {
    forall il | 0 <= il < |caps| ensures caps[il] > 0 && n < Start(m, il, n) + caps[il] {
      assert caps[il] == ctx || (!m.full(il) && chunkMax + m.window <= caps[il] + 1);
    }
  }

  /** The query at position n reads the cold row of p if and only if it is in its slot. */
  lemma ReadExact<V, R, G>(m: Model<V, R, G>, caps: seq<nat>, slots: Slots<R>, toks: seq<Token>, token: Token, il: nat,
                           p: nat)
    requires Sized(slots, caps) && il < |caps| && p <= |toks| < p + caps[il]
    ensures var ahead, n := toks + [token], |toks|;
      Put(slots, caps, il, n, RowAt(m, ahead, il, n))[il][At<R>(caps, il, p)] == RowAt(m, ahead, il, p) <==>
        p == n || Holds(m, caps, slots, toks, il, p)
  {
    if p < |toks| {
      var ahead := toks + [token];
      assert ahead[..p + 1] == toks[..p + 1];
      Causal(m, ahead, toks, il, p);
      if At<R>(caps, il, p) == At<R>(caps, il, |toks|) { SameSlot(p, |toks|, caps[il]); }
    }
  }

  /** Layer il of the evaluation attends to the cold rows if and only if they are in their slots. */
  lemma FetchExact<V, R, G>(m: Model<V, R, G>, caps: seq<nat>, slots: Slots<R>, toks: seq<Token>, token: Token, il: nat)
    requires Sized(slots, caps) && il < |caps| && |toks| < Start(m, il, |toks|) + caps[il]
    ensures var ahead, n := toks + [token], |toks|;
      Fetched(m, caps, Put(slots, caps, il, n, RowAt(m, ahead, il, n)), il, n) == Attended(m, ahead, il, n) <==>
        SeesPast(m, caps, slots, toks, il)
  {
    var ahead, n, s := toks + [token], |toks|, Start(m, il, |toks|);
    var slots' := Put(slots, caps, il, n, RowAt(m, ahead, il, n));
    var l, r := Fetched(m, caps, slots', il, n), Attended(m, ahead, il, n);
    hide Put, RowAt, Start, At;
    forall i | 0 <= i < |l| ensures l[i] == r[i] <==> s + i == n || Holds(m, caps, slots, toks, il, s + i) {
      ReadExact(m, caps, slots, toks, token, il, s + i);
    }
    hide Fetched, Attended, Holds;
    if SeesPast(m, caps, slots, toks, il) {
      forall i | 0 <= i < |l| ensures l[i] == r[i] {
        assert s + i < n ==> Holds(m, caps, slots, toks, il, s + i);
      }
      assert l == r;
    }
    if l == r {
      forall p | s <= p < n
        ensures Holds(m, caps, slots, toks, il, p)
      {
        assert l[p - s] == r[p - s] && s + (p - s) == p;
      }
    }
  }

  lemma {:induction false} WarmSees<V, R, G>(m: Model<V, R, G>, caps: seq<nat>, slots: Slots<R>, toks: seq<Token>,
                                             token: Token, k: nat)
    requires Sized(slots, caps) && k <= |caps| && Wide(m, caps, |toks|)
    requires forall il :: 0 <= il < k ==> SeesPast(m, caps, slots, toks, il)
    ensures Warm(m, caps, slots, token, |toks|, k) == Hidden(m, toks + [token], k, |toks|)
  {
    if k > 0 {
      WarmSees(m, caps, slots, toks, token, k - 1);
      assert caps[k - 1] > 0;
      FetchExact(m, caps, slots, toks, token, k - 1);
    }
  }

  lemma {:induction false} WarmTells<V(!new), R(!new), G(!new)>(m: Model<V, R, G>, caps: seq<nat>, slots: Slots<R>,
          toks: seq<Token>, token: Token, k: nat)
    requires Sized(slots, caps) && k <= |caps| && Wide(m, caps, |toks|) && Telling(m)
    requires Warm(m, caps, slots, token, |toks|, k) == Hidden(m, toks + [token], k, |toks|)
    ensures forall il :: 0 <= il < k ==> SeesPast(m, caps, slots, toks, il)
  {
    if k > 0 {
      assert caps[k - 1] > 0;
      MixTells(m, k - 1, |toks|);
      WarmTells(m, caps, slots, toks, token, k - 1);
      FetchExact(m, caps, slots, toks, token, k - 1);
    }
  }

  lemma MixTells<V(!new), R(!new), G(!new)>(m: Model<V, R, G>, il: nat, p: nat)
    requires Telling(m)
    ensures forall q, x, y, a, b :: m.mix(il, p, x, a) == m.mix(il, q, y, b) ==> p == q && x == y && a == b
  {
  }

  lemma FirstRow<V(!new), R(!new), G(!new)>(m: Model<V, R, G>, a: seq<Token>, b: seq<Token>, p: nat)
    requires p < |a| && p < |b|
    ensures Telling(m) && RowAt(m, a, 0, p) == RowAt(m, b, 0, p) ==> a[p] == b[p]
  {
    assert RowAt(m, a, 0, p) == m.row(0, p, m.embed(a[p])) && RowAt(m, b, 0, p) == m.row(0, p, m.embed(b[p]));
  }

  /** A full first layer sees every token, so different texts have different vectors above it. */
  lemma {:induction false} HiddenTells<V(!new), R(!new), G(!new)>(m: Model<V, R, G>, a: seq<Token>, b: seq<Token>,
          k: nat)
    requires Telling(m) && m.full(0) && k > 0 && a != [] && b != []
    requires Hidden(m, a, k, |a| - 1) == Hidden(m, b, k, |b| - 1)
    ensures a == b
  {
    var p, q := |a| - 1, |b| - 1;
    MixTells(m, k - 1, p);
    if k > 1 {
      HiddenTells(m, a, b, k - 1);
    } else {
      var l, r := Attended(m, a, 0, p), Attended(m, b, 0, q);
      assert p == q && l == r;
      forall i: nat | i <= p ensures a[i] == b[i] {
        assert l[i] == RowAt(m, a, 0, i) && r[i] == RowAt(m, b, 0, i);
        FirstRow(m, a, b, i);
      }
    }
  }

  lemma ColdTells<V(!new), R(!new), G(!new)>(m: Model<V, R, G>, a: seq<Token>, b: seq<Token>)
    requires Telling(m) && m.layers > 0 && m.full(0) && a != [] && b != []
    ensures ColdLogits(m, a) == ColdLogits(m, b) <==> a == b
  {
    if ColdLogits(m, a) == ColdLogits(m, b) { HiddenTells(m, a, b, m.layers); }
  }

  /** The logits after one more token are the cold ones when every layer sees what it needs, and for
      a network that tells its inputs only then. */
  lemma WarmExact<V(!new), R(!new), G(!new)>(m: Model<V, R, G>, caps: seq<nat>, slots: Slots<R>, toks: seq<Token>,
                                             token: Token)
    requires Sized(slots, caps) && |caps| == m.layers && Wide(m, caps, |toks|)
    ensures var warm, cold := m.out(Warm(m, caps, slots, token, |toks|, m.layers)), ColdLogits(m, toks + [token]);
      var sees := forall il :: 0 <= il < |caps| ==> SeesPast(m, caps, slots, toks, il);
      (sees ==> warm == cold) && (Telling(m) ==> (warm == cold <==> sees))
  {
    hide Warm, Hidden, SeesPast, Wide;
    var sees := forall il :: 0 <= il < |caps| ==> SeesPast(m, caps, slots, toks, il);
    LogitsOf(m, toks + [token]);
    if sees { WarmSees(m, caps, slots, toks, token, m.layers); }
    if Telling(m) && m.out(Warm(m, caps, slots, token, |toks|, m.layers)) == ColdLogits(m, toks + [token]) {
      WarmTells(m, caps, slots, toks, token, m.layers);
    }
  }

  /** How many tokens of the prompt need not be evaluated. */
  function Reused(valid: bool, checkpoint: seq<Token>, prompt: seq<Token>): (n: nat)
    ensures n <= |prompt|
  {
    if valid && checkpoint <= prompt then |checkpoint| else 0
  }

  lemma ReusedIs(valid: bool, checkpoint: seq<Token>, prompt: seq<Token>, common: nat)
    requires common <= |checkpoint| && common <= |prompt| && (!valid ==> common == 0)
    requires valid ==> checkpoint[..common] == prompt[..common]
    requires valid && common < |checkpoint| && common < |prompt| ==> checkpoint[common] != prompt[common]
    ensures Reused(valid, checkpoint, prompt) == if !valid || common < |checkpoint| then 0 else common
  {
    if valid && checkpoint <= prompt { assert checkpoint == prompt[..|checkpoint|]; }
  }
}
