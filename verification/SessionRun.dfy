/** Runs of a session: evaluations, syncs, rewinds, snapshots and loads in any order, with failures
    and cancellations anywhere, and what a caller has to check for the cache to stay right. */
module SessionRun {
  import opened Basics
  import opened Bytes
  import opened KvTheory
  import opened KvCaps
  import opened KvSession
  import opened SessionImage

  datatype Step =
    | EvalStep(token: Token)
    | SyncStep(prompt: seq<Token>, resumeMin: nat, batch: bool, wanted: nat)
    | RewindStep(pos: int)
    | SaveStep
    | RestoreStep
    | LoadStep(kind: Kind, bytes: seq<Byte>)

  predicate InVocab(toks: seq<Token>, vocab: nat) {
    forall i :: 0 <= i < |toks| ==> 0 <= toks[i] < vocab
  }

  predicate StepOk(step: Step, vocab: nat) {
    step.SyncStep? ==> step.wanted > 0 && InVocab(step.prompt, vocab)
  }

  /** What the caller notes down: whether the rows can be trusted, a bound on the positions written
      since the rings were given up if there is one, and the last snapshot. */
  datatype Book = Book(trusted: bool, bounded: bool, high: nat, shelf: seq<seq<Byte>>)

  /** What a snapshot was taken from. */
  datatype Origin<T, V, G> = Origin(src: Saved<T, V, G>, slots: Slots<KV<T>>, lows: seq<nat>)

  /** The sizes of the session, and the floats of a snapshot copied as they are. */
  datatype Setup<!T, !V, !G> = Setup(d: Dims, exact: Codecs<T, V, G>, packed: Codecs<T, V, G>)

  ghost predicate Fits<T(!new), V(!new), G(!new)>(s: Session<V, KV<T>, G>, u: Setup<T, V, G>) {
    && u.d.vocab == s.vocab && Exact(u.exact.row) && Exact(u.exact.vec) && Exact(u.exact.logits)
    && Fixed(u.packed.row) && Fixed(u.packed.vec) && Fixed(u.packed.logits)
    && u.d.kvHeads < U32 && u.d.headDim < U32 && u.d.vocab < U32 && u.d.embd < U32 && s.m.layers < U32 && s.ctx < U32
  }

  /** The bytes are the snapshot of a session with these sizes whose cache was right. */
  ghost predicate Genuine<T, V, G>(m: Model<V, KV<T>, G>, ctx: nat, caps: seq<nat>, d: Dims, cs: Codecs<T, V, G>,
                                   bytes: seq<Byte>, o: Origin<T, V, G>) {
    && Small(Snapshot, d, o.src) && bytes == Image(Snapshot, d, cs, o.src) && InVocab(o.src.toks, d.vocab)
    && Sized(o.slots, caps) && o.src == SavedOf(ctx, caps, o.slots, o.src.toks, o.src.logits, o.src.hidden)
    && Kept(m, caps, o.slots, o.src.toks, o.lows) && Ready(m, ctx, caps, |o.src.toks|, o.lows)
  }

  ghost predicate Sound<T, V, G>(s: Session<V, KV<T>, G>, u: Setup<T, V, G>, b: Book, o: Origin<T, V, G>)
    reads s, s.rings
  {
    && s.Sane() && |s.checkpoint| <= s.ctx && InVocab(s.checkpoint, s.vocab)
    && (b.trusted ==> s.Valid()) && (b.trusted && b.bounded ==> s.reach <= b.high)
    && (b.shelf != [] ==> Genuine(s.m, s.ctx, s.caps, u.d, u.exact, b.shelf[0], o))
  }

  /** An evaluation is asked for only while the rows are trusted. */
  method TakeEval<T(!new), V(!new), G(!new)>(s: Session<V, KV<T>, G>, ghost u: Setup<T, V, G>, b: Book, token: Token,
                                             ghost o: Origin<T, V, G>)
    returns (b': Book, ok: bool, failed: bool)
    requires Sound(s, u, b, o)
    modifies s, s.rings
    ensures Sound(s, u, b', o) && b'.trusted == b.trusted && (failed ==> !s.steady && !ok)
    ensures !failed ==> (ok <==> b.trusted && 0 <= token < s.vocab && |old(s.checkpoint)| < s.ctx)
    ensures ok ==> b.trusted
    ensures !ok ==> s.checkpoint == old(s.checkpoint)
    ensures ok ==> s.checkpoint == old(s.checkpoint) + [token] && s.valid && s.logits == ColdLogits(s.m, s.checkpoint)
  {
    hide Genuine, Session.Sane, Session.Valid;
    if !b.trusted { return b, false, false; }
    b' := b.(high := Max(b.high, |s.checkpoint| + 1));
    ok, failed := s.Eval(token, true);
  }

  /** A session that is not valid starts over, so sync may be asked for even when nothing is trusted. */
  method TakeSync<T(!new), V(!new), G(!new)>(s: Session<V, KV<T>, G>, ghost u: Setup<T, V, G>, b: Book, step: Step,
                                             ghost o: Origin<T, V, G>)
    returns (b': Book, failed: bool)
    requires Sound(s, u, b, o) && step.SyncStep? && StepOk(step, s.vocab)
    modifies s, s.rings
    ensures Sound(s, u, b', o) && (b.trusted ==> b'.trusted) && (failed ==> !s.steady)
    ensures (b.trusted || !old(s.valid)) && |step.prompt| <= s.ctx && !failed ==> s.checkpoint == step.prompt && s.valid
    ensures !old(s.valid) && |step.prompt| <= s.ctx ==> b'.trusted
  {
    hide Genuine, Session.Sane, Session.Valid;
    b', failed := b, false;
    if (!b.trusted && s.valid) || |step.prompt| > s.ctx { return; }
    if s.valid {
      b' := b.(high := Max(b.high, |step.prompt|));
    } else {
      b' := b.(trusted := true, bounded := true, high := |step.prompt|);
    }
    var ok;
    ok, failed := s.Sync(step.prompt, step.resumeMin, step.batch, step.wanted);
  }

  /** To the start always; elsewhere only while the rows are trusted and were not overwritten. */
  method TakeRewind<T(!new), V(!new), G(!new)>(s: Session<V, KV<T>, G>, ghost u: Setup<T, V, G>, b: Book, pos: int,
                                               ghost o: Origin<T, V, G>)
    returns (b': Book)
    requires Sound(s, u, b, o)
    modifies s, s.rings
    ensures Sound(s, u, b', o) && (b.trusted || pos <= 0 ==> b'.trusted)
    ensures pos <= 0 ==> s.checkpoint == []
  {
    hide Genuine, Session.Sane;
    b' := b;
    var n := if pos < 0 then 0 else if pos > |s.checkpoint| then |s.checkpoint| else pos;
    if n == 0 {
      b' := b.(trusted := true, bounded := true, high := 0);
      s.Rewind(pos);
      return;
    }
    if !b.trusted { return; }
    var within := n == |s.checkpoint|;
    if !within && b.bounded { within := s.GuardAt(n, b.high); }
    if !within { return; }
    s.GuardSound(n, if b.bounded then b.high else s.reach);
    s.Rewind(pos);
  }

  /** A snapshot of a session whose rows are trusted. */
  method TakeSave<T(!new), V(!new), G(!new)>(s: Session<V, KV<T>, G>, u: Setup<T, V, G>, b: Book,
                                             ghost o: Origin<T, V, G>)
    returns (b': Book, failed: bool, ghost o': Origin<T, V, G>)
    requires Sound(s, u, b, o) && Fits(s, u)
    ensures Sound(s, u, b', o') && b'.trusted == b.trusted && (b.trusted && s.valid && !failed ==> b'.shelf != [])
    ensures failed ==> !s.steady
  {
    b', failed, o' := b, false, o;
    if !b.trusted || !s.valid { return; }
    SavableNow(s, u);
    var ok, w;
    ok, failed, w := Save(s, Snapshot, u.d, u.exact);
    if !ok { return; }
    b' := b.(shelf := [w.out]);
    o' := Origin(SavedOf(s.ctx, s.caps, s.slots, AsWords(s.checkpoint), s.logits, s.hidden), s.slots, s.lows);
    assert AsWords(s.checkpoint) == s.checkpoint;
  }

  lemma SavableNow<T(!new), V(!new), G(!new)>(s: Session<V, KV<T>, G>, u: Setup<T, V, G>)
    requires s.Sane() && s.valid && |s.checkpoint| <= s.ctx && InVocab(s.checkpoint, s.vocab) && Fits(s, u)
    ensures Savable(s, Snapshot, u.d) && Fixed(u.exact.row) && Fixed(u.exact.vec) && Fixed(u.exact.logits)
  {
    var src := SavedOf(s.ctx, s.caps, s.slots, AsWords(s.checkpoint), s.logits, s.hidden);
    forall il | 0 <= il < |src.Counts()| ensures src.Counts()[il] < U32 {
      assert src.Counts()[il] == LiveRows(|s.checkpoint|, s.ctx, s.caps[il]);
    }
  }

  /** Back to the snapshot, whatever happened since; a device that fails leaves nothing to trust. */
  method TakeRestore<T(!new), V(!new), G(!new)>(s: Session<V, KV<T>, G>, u: Setup<T, V, G>, b: Book,
                                                ghost o: Origin<T, V, G>)
    returns (b': Book, failed: bool)
    requires Sound(s, u, b, o) && Fits(s, u)
    modifies s, s.rings
    ensures Sound(s, u, b', o) && (b.trusted && !failed ==> b'.trusted) && (failed ==> !s.steady)
    ensures b.shelf != [] && !failed ==>
      b'.trusted && s.valid && s.checkpoint == o.src.toks && s.logits == o.src.logits && s.hidden == o.src.hidden
  {
    b', failed := b, false;
    if b.shelf == [] { return; }
    ghost var n := |o.src.toks|;
    ghost var lows := LoadedLows(s.caps, o.lows, n, s.ctx);
    ghost var reach := SomeReach(s.caps, lows, n);
    GenuineLoads(s, u, b.shelf[0], o, []);
    var ok;
    ok, failed := Load(s, Snapshot, u.d, u.exact, b.shelf[0], o.src, [], lows, reach, []);
    if !ok { return b.(trusted := false), true; }
    RestoredRows(s, u, b.shelf[0], o);
    b' := b.(trusted := true, bounded := false);
  }

  lemma GenuineLoads<T(!new), V(!new), G(!new)>(s: Session<V, KV<T>, G>, u: Setup<T, V, G>, bytes: seq<Byte>,
                                                o: Origin<T, V, G>, tail: seq<Byte>)
    requires s.Sane() && Fits(s, u) && Genuine(s.m, s.ctx, s.caps, u.d, u.exact, bytes, o)
    ensures Comes(Snapshot, u.d, s, u.exact, bytes + tail, o.src, tail) && bytes + [] == bytes
    ensures Fixed(u.exact.row) && Fixed(u.exact.vec) && Fixed(u.exact.logits) && |o.lows| == |s.caps|
  {
    SavedIsLoadable(s.m, Snapshot, u.d, s.ctx, s.caps, s.prefillCap, o.src, o.slots, s.ctx, s.caps);
  }

  /** The rows that came from a snapshot, seen from the slots. */
  lemma RestoredRows<T(!new), V(!new), G(!new)>(s: Session<V, KV<T>, G>, u: Setup<T, V, G>, bytes: seq<Byte>,
                                                o: Origin<T, V, G>)
    requires s.Sane() && Fits(s, u) && Genuine(s.m, s.ctx, s.caps, u.d, u.exact, bytes, o)
    requires Arrived(s.slots, |o.src.toks|, u.exact.row, o.src.rows, |o.src.rows|)
    ensures |o.lows| == |s.caps|
    ensures var lows := LoadedLows(s.caps, o.lows, |o.src.toks|, s.ctx);
      Kept(s.m, s.caps, s.slots, o.src.toks, lows) && Ready(s.m, s.ctx, s.caps, |o.src.toks|, lows)
  {
    var n := |o.src.toks|;
    forall il | 0 <= il < |s.caps|
      ensures RingRows(s.slots[il], n, LiveRows(n, s.ctx, s.caps[il])) ==
        RingRows(o.slots[il], n, LiveRows(n, s.ctx, s.caps[il]))
    {
      assert o.src.rows[il] == RingRows(o.slots[il], n, LiveRows(n, s.ctx, s.caps[il]));
      ExactRows(u.exact.row, o.src.rows[il]);
    }
    LoadedKeeps(s.m, s.ctx, s.caps, o.slots, o.lows, o.src.toks, s.prefillCap, s.ctx, s.caps, s.slots);
  }

  /** Any bytes at all. What a refused load left valid it left as it was; after any other load the
      rows are whatever the bytes said. */
  method TakeLoad<T(!new), V(!new), G(!new)>(s: Session<V, KV<T>, G>, u: Setup<T, V, G>, b: Book, kind: Kind,
                                             bytes: seq<Byte>, ghost o: Origin<T, V, G>)
    returns (b': Book, ok: bool)
    requires Sound(s, u, b, o) && Fits(s, u)
    modifies s, s.rings
    ensures Sound(s, u, b', o) && (!ok && s.valid ==> b'.trusted == b.trusted)
    ensures (!ok ==> s.checkpoint == old(s.checkpoint))
    ensures s.steady ==>
      (ok <==> Acceptable(kind, u.d, s.m, s.ctx, s.caps, s.vocab, if kind.Snapshot? then u.exact else u.packed, bytes))
  {
    hide Genuine, Kept, Ready, Forward, Sized, CapsOk, Comes, Exact, Fixed;
    if b.trusted { s.Parts(); }
    ghost var nothing := Saved(0, [], s.logits, s.hidden, []);
    FitsCodecs(s, u);
    var failed;
    ok, failed := Load(s, kind, u.d, if kind.Snapshot? then u.exact else u.packed, bytes, nothing, [], [], 0, []);
    b' := if ok || !s.valid then b.(trusted := false) else b;
  }

  lemma FitsCodecs<T(!new), V(!new), G(!new)>(s: Session<V, KV<T>, G>, u: Setup<T, V, G>)
    requires Fits(s, u)
    ensures Fixed(u.exact.row) && Fixed(u.exact.vec) && Fixed(u.exact.logits)
    ensures Fixed(u.packed.row) && Fixed(u.packed.vec) && Fixed(u.packed.logits)
  {
  }

  method Take<T(!new), V(!new), G(!new)>(s: Session<V, KV<T>, G>, u: Setup<T, V, G>, b: Book, step: Step,
                                         ghost o: Origin<T, V, G>)
    returns (b': Book, failed: bool, ghost o': Origin<T, V, G>)
    requires Sound(s, u, b, o) && Fits(s, u) && StepOk(step, s.vocab)
    modifies s, s.rings
    ensures Sound(s, u, b', o') && (b.trusted && !step.LoadStep? && !failed ==> b'.trusted)
    ensures b.trusted && !step.LoadStep? && !step.RestoreStep? ==> b'.trusted
    ensures failed ==> !s.steady
    ensures (step.RestoreStep? && b.shelf != [] && !failed) || (step.RewindStep? && step.pos <= 0) ==> b'.trusted
    ensures step.SyncStep? && !old(s.valid) && |step.prompt| <= s.ctx ==> b'.trusted
  {
    hide *;
    o', failed := o, false;
    var ok;
    match step {
      case EvalStep(t) => b', ok, failed := TakeEval(s, u, b, t, o);
      case SyncStep(_, _, _, _) => b', failed := TakeSync(s, u, b, step, o);
      case RewindStep(pos) => b' := TakeRewind(s, u, b, pos, o);
      case SaveStep => b', failed, o' := TakeSave(s, u, b, o);
      case RestoreStep => b', failed := TakeRestore(s, u, b, o);
      case LoadStep(kind, bytes) => b', ok := TakeLoad(s, u, b, kind, bytes, o);
    }
  }

  /** However the steps went, an evaluation that the caller's notes allow and that succeeds gives the
      logits of a cold evaluation of the checkpoint. */
  method Run<T(!new), V(!new), G(!new)>(s: Session<V, KV<T>, G>, u: Setup<T, V, G>, b0: Book, steps: seq<Step>,
                                        token: Token, ghost o0: Origin<T, V, G>)
    returns (b: Book, ok: bool, failed: bool, failures: nat)
    requires Sound(s, u, b0, o0) && Fits(s, u) && forall i :: 0 <= i < |steps| ==> StepOk(steps[i], s.vocab)
    modifies s, s.rings
    ensures ok ==> b.trusted && s.Valid() && s.valid && s.checkpoint != [] && s.logits == ColdLogits(s.m, s.checkpoint)
    ensures (failed ==> !s.steady) && (failures > 0 ==> !s.steady)
    ensures !failed && !ok && b.trusted ==> !(0 <= token < s.vocab) || |s.checkpoint| == s.ctx
    ensures b0.trusted && failures == 0 && (forall i :: 0 <= i < |steps| ==> !steps[i].LoadStep?) ==> b.trusted
  {
    b, failures := b0, 0;
    ghost var o := o0;
    hide Genuine, Session.Valid, Session.Sane, Fits;
    for i := 0 to |steps|
      invariant Sound(s, u, b, o) && (failures > 0 ==> !s.steady)
      invariant b0.trusted && failures == 0 && (forall k :: 0 <= k < i ==> !steps[k].LoadStep?) ==> b.trusted
    {
      b, failed, o := Take(s, u, b, steps[i], o);
      if failed { failures := failures + 1; }
    }
    b, ok, failed := TakeEval(s, u, b, token, o);
  }

  // ---- Without the notes ----------------------------------------------------------------------------

  /** The two texts are the same as far as both go. */
  predicate Agree(a: seq<Token>, b: seq<Token>) {
    forall p :: 0 <= p < |a| && p < |b| ==> a[p] == b[p]
  }

  /** A load of n tokens into a ring of `cap` rows puts position p where the same position was, or does
      not reach its slot. */
  predicate Spared(cap: nat, n: nat, p: nat)
    requires cap > 0
  {
    if p < n then n <= p + cap else n <= p % cap
  }

  /** In layer il a load of n tokens spares every position that the token after `live` others attends to. */
  predicate LayerSpared<V, R, G>(m: Model<V, R, G>, caps: seq<nat>, il: nat, n: nat, live: nat)
    requires il < |caps| && caps[il] > 0
  {
    forall p: nat {:trigger Spared(caps[il], n, p)} :: Start(m, il, live) <= p < live ==> Spared(caps[il], n, p)
  }

  /** After a load of n tokens into the rings of a session with `live` tokens, all that the next token
      attends to is in its slot if only the tokens are the same. */
  predicate LoadSpares<V, R, G>(m: Model<V, R, G>, caps: seq<nat>, n: nat, live: nat) {
    forall il :: 0 <= il < |caps| ==> caps[il] > 0 && LayerSpared(m, caps, il, n, live)
  }

  /** The slot of p after the rows of a came: a's row for p, a's row for a later position, or what was
      there before. */
  lemma SlotAfterLoad<V(!new), R(!new), G(!new)>(m: Model<V, R, G>, caps: seq<nat>, before: Slots<R>, after: Slots<R>,
                                                 a: seq<Token>, b: seq<Token>, il: nat, low: nat, p: nat)
    requires Sized(before, caps) && Sized(after, caps) && il < |caps| && p < |b|
    requires KeptLayer(m, caps, after, a, il, low) && SameFrom(before[il], after[il], |a|)
    requires if p < |a| <= p + caps[il] then low <= p else low == 0 || low + caps[il] <= |a|
    requires p >= |a| ==> Holds(m, caps, before, b, il, p)
    ensures Spared(caps[il], |a|, p) && Agree(a, b) ==> Holds(m, caps, after, b, il, p)
    ensures Telling(m) && Holds(m, caps, after, b, il, p) ==>
      Spared(caps[il], |a|, p) && (p < |a| ==> a[p] == b[p] || il > 0)
  {
    var cap := caps[il];
    if p < |a| <= p + cap {
      assert Holds(m, caps, after, a, il, p);
      if Agree(a, b) {
        assert a[..p + 1] == b[..p + 1];
        Causal(m, a, b, il, p);
      }
      FirstRow(m, a, b, p);
    } else if |a| > p % cap {
      var r := if p < |a| then p else p % cap;
      SlotBelow(p, cap);
      SlotTwice(p, cap);
      var q := Newest(r, |a|, cap);
      assert Holds(m, caps, after, a, il, q);
      if Telling(m) { RowTells(m, il, p, q, Hidden(m, b, il, p), Hidden(m, a, il, q)); }
    }
  }

  lemma SlotTwice(p: nat, cap: nat)
    requires cap > 0
    ensures p % cap % cap == p % cap
  {
  }

  lemma KeptSeen<V, R, G>(m: Model<V, R, G>, ctx: nat, caps: seq<nat>, slots: Slots<R>, toks: seq<Token>,
                          lows: seq<nat>)
    requires Kept(m, caps, slots, toks, lows) && Ready(m, ctx, caps, |toks|, lows)
    ensures Sized(slots, caps) && |caps| == m.layers
    ensures forall il :: 0 <= il < |caps| ==> SeesPast(m, caps, slots, toks, il)
  {
    assert toks[..|toks|] == toks;
    forall il | 0 <= il < |caps| ensures SeesPast(m, caps, slots, toks, il) {
      assert lows[il] <= Start(m, il, |toks|);
      KeptLess(m, caps, slots, toks, il, lows[il], |toks|, Start(m, il, |toks|));
    }
  }

  lemma LayerAfterLoad<V(!new), R(!new), G(!new)>(m: Model<V, R, G>, caps: seq<nat>, before: Slots<R>, after: Slots<R>,
                                                  a: seq<Token>, b: seq<Token>, il: nat, low: nat)
    requires Sized(before, caps) && Sized(after, caps) && il < |caps| && |b| < Start(m, il, |b|) + caps[il]
    requires KeptLayer(m, caps, after, a, il, low) && SameFrom(before[il], after[il], |a|) && low <= Start(m, il, |a|)
    requires |a| < |b| ==> SeesPast(m, caps, before, b, il)
    requires |a| != |b| ==> low == 0 || low + caps[il] <= |a|
    ensures Agree(a, b) && LayerSpared(m, caps, il, |a|, |b|) ==> SeesPast(m, caps, after, b, il)
    ensures Telling(m) && SeesPast(m, caps, after, b, il) ==>
      LayerSpared(m, caps, il, |a|, |b|) && (il == 0 && m.full(0) ==> Agree(a, b))
  {
    var s := Start(m, il, |b|);
    forall p: nat | s <= p < |b|
      ensures Spared(caps[il], |a|, p) && Agree(a, b) ==> Holds(m, caps, after, b, il, p)
      ensures Telling(m) && Holds(m, caps, after, b, il, p) ==>
        Spared(caps[il], |a|, p) && (p < |a| ==> a[p] == b[p] || il > 0)
    {
      assert p >= |a| ==> Holds(m, caps, before, b, il, p);
      SlotAfterLoad(m, caps, before, after, a, b, il, low, p);
    }
    hide Telling, Holds, Spared, Sized;
    if Telling(m) && SeesPast(m, caps, after, b, il) {
      forall p: nat | s <= p < |b| ensures Spared(caps[il], |a|, p) && (p < |a| ==> a[p] == b[p] || il > 0) {
        assert Holds(m, caps, after, b, il, p);
      }
    }
  }

  /** The layers together; the first one, which attends to everything, tells the tokens. */
  lemma SeenAfterLoad<V(!new), R(!new), G(!new)>(m: Model<V, R, G>, caps: seq<nat>, before: Slots<R>, after: Slots<R>,
                                                 a: seq<Token>, b: seq<Token>, lows: seq<nat>)
    requires Sized(before, caps) && Kept(m, caps, after, a, lows) && Wide(m, caps, |b|)
    requires AllSameFrom(before, after, |a|)
    requires forall il :: 0 <= il < |caps| ==> lows[il] <= Start(m, il, |a|)
    requires |a| < |b| ==> forall il :: 0 <= il < |caps| ==> SeesPast(m, caps, before, b, il)
    requires |a| != |b| ==> Forward(caps, lows, |a|)
    ensures Sized(after, caps)
    ensures var sees := forall il :: 0 <= il < |caps| ==> SeesPast(m, caps, after, b, il);
      && (Agree(a, b) && LoadSpares(m, caps, |a|, |b|) ==> sees)
      && (Telling(m) && m.layers > 0 && m.full(0) ==> (sees <==> Agree(a, b) && LoadSpares(m, caps, |a|, |b|)))
  {
    hide Telling, LayerSpared, SeesPast, Agree, KeptLayer, Start;
    forall il | 0 <= il < |caps|
      ensures caps[il] > 0 && (Agree(a, b) && LayerSpared(m, caps, il, |a|, |b|) ==> SeesPast(m, caps, after, b, il))
      ensures Telling(m) && SeesPast(m, caps, after, b, il) ==>
        LayerSpared(m, caps, il, |a|, |b|) && (il == 0 && m.full(0) ==> Agree(a, b))
    {
      assert caps[il] > 0 && lows[il] <= Start(m, il, |a|) && SameFrom(before[il], after[il], |a|);
      LayerAfterLoad(m, caps, before, after, a, b, il, lows[il]);
    }
    if Telling(m) && m.layers > 0 && m.full(0) && forall il :: 0 <= il < |caps| ==> SeesPast(m, caps, after, b, il) {
      assert SeesPast(m, caps, after, b, 0);
    }
  }

  lemma LowsForward(caps: seq<nat>, lows: seq<nat>, n: nat, ctx: nat)
    requires Forward(caps, lows, n) && n <= ctx
    ensures Forward(caps, LoadedLows(caps, lows, n, ctx), n)
  {
  }

  /** The load of such a snapshot: refused, with its rows in the rings. */
  method LoadRefused<T(!new), V(!new), G(!new)>(s: Session<V, KV<T>, G>, u: Setup<T, V, G>, bytes: seq<Byte>,
                                                tail: seq<Byte>, ghost o: Origin<T, V, G>)
    returns (failed: bool, loaded: bool)
    requires s.Sane() && Fits(s, u) && Genuine(s.m, s.ctx, s.caps, u.d, u.exact, bytes, o) && tail != []
    modifies s, s.rings
    ensures s.Sane() && !loaded && s.checkpoint == old(s.checkpoint) && |o.lows| == |s.caps| && (failed ==> !s.steady)
    ensures var lows, n := LoadedLows(s.caps, o.lows, |o.src.toks|, s.ctx), |o.src.toks|;
      !failed ==>
        Kept(s.m, s.caps, s.slots, o.src.toks, lows) && Ready(s.m, s.ctx, s.caps, n, lows) &&
        AllSameFrom(old(s.slots), s.slots, n)
  {
    GenuineLoads(s, u, bytes, o, tail);
    loaded, failed := Load(s, Snapshot, u.d, u.exact, bytes + tail, o.src, tail, [], 0, []);
    if !failed { RestoredRows(s, u, bytes, o); }
  }

  /** A snapshot with bytes after its end is refused only when its rows are in the rings already. The
      checkpoint is still the old one, and an evaluation does not look at the flag: it gives the cold
      logits if and only if the tokens agree as far as both go and the load left or brought every
      position that the new token attends to. After a snapshot of another length this says what was in the
      remaining slots: the snapshot is then one of forward writes, and the session that it is too short
      for was right. */
  method EvalAfterFailedLoad<T(!new), V(!new), G(!new)>(s: Session<V, KV<T>, G>, u: Setup<T, V, G>, bytes: seq<Byte>,
                                                        tail: seq<Byte>, token: Token,
                                                        ghost o: Origin<T, V, G>)
    returns (failed: bool, loaded: bool, ok: bool)
    requires s.Sane() && |s.checkpoint| <= s.ctx && Fits(s, u) && Genuine(s.m, s.ctx, s.caps, u.d, u.exact, bytes, o)
    requires tail != [] && (|o.src.toks| < |s.checkpoint| ==> s.Valid())
    requires |o.src.toks| != |s.checkpoint| ==> Forward(s.caps, o.lows, |o.src.toks|)
    modifies s, s.rings
    ensures !loaded && (ok ==> s.valid && s.checkpoint == old(s.checkpoint) + [token])
    ensures s.steady ==> !failed && (ok <==> 0 <= token < s.vocab && |old(s.checkpoint)| < s.ctx)
    ensures Sized(s.slots, s.caps)
    ensures var same := Agree(o.src.toks, old(s.checkpoint)) &&
      LoadSpares(s.m, s.caps, |o.src.toks|, old(|s.checkpoint|));
      !failed && ok ==>
        && (same ==> s.logits == ColdLogits(s.m, s.checkpoint))
        && (Telling(s.m) && s.m.layers > 0 && s.m.full(0) ==> (s.logits == ColdLogits(s.m, s.checkpoint) <==> same))
  {
    ghost var toks, before, lows := s.checkpoint, s.slots, LoadedLows(s.caps, o.lows, |o.src.toks|, s.ctx);
    if |o.src.toks| < |toks| { KeptSeen(s.m, s.ctx, s.caps, s.slots, toks, s.lows); }
    failed, loaded := LoadRefused(s, u, bytes, tail, o);
    if |toks| < s.ctx { RingsAreWide(s.m, s.ctx, s.caps, s.prefillCap, |toks|); }
    if |o.src.toks| != |toks| { LowsForward(s.caps, o.lows, |o.src.toks|, s.ctx); }
    hide *;
    s.SanePart();
    if !failed && |toks| < s.ctx {
      SeenAfterLoad(s.m, s.caps, before, s.slots, o.src.toks, toks, lows);
      WarmExact(s.m, s.caps, s.slots, toks, token);
    }
    var stopped;
    ok, stopped := s.Eval(token, true);
  }

  /** Rings of 4096 and 768 rows: a refused snapshot of 100 tokens does not matter after 1400 tokens, of
      which the last 511 went to slots that it does not reach, but it does after 1000, when position 768
      went to slot 0. */
  lemma SparedLengths<V, R, G>(m: Model<V, R, G>, caps: seq<nat>)
    requires m.window == 512 && m.full(0) && !m.full(1) && caps == [4096, SlidingCap(512, 4096, 256)]
    ensures LoadSpares(m, caps, 100, 1400) && !LoadSpares(m, caps, 100, 1000)
    ensures forall n: nat :: n <= 4096 ==> LoadSpares(m, caps, n, n)
  {
    assert caps[1] == 768;
    assert !Spared(caps[1], 100, 768);
  }
}
