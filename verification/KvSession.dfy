/** A session on the GPU path: ring caches per layer, single-token evaluation, chunked prefill,
    sync and rewind. Failures and cancellations may happen wherever the code can report them. */
module KvSession {
  import opened Basics
  import opened KvTheory
  import opened KvCaps

  class Session<V, R, G> {
    const m: Model<V, R, G>
    const vocab: nat
    const ctx: nat
    const caps: seq<nat>
    const prefillCap: nat
    /** No call to the device fails, scratch memory can be had, and nobody cancels. */
    const steady: bool
    const rings: seq<array<R>>
    var checkpoint: seq<Token>
    var valid: bool
    var logits: G
    /** The host's copy of the last hidden vector that a prefill read back. */
    var hidden: V
    /** From here on, layer by layer, positions of the checkpoint are still in their slots. */
    ghost var lows: seq<nat>
    /** No position from here on was written since the rings were last given up. */
    ghost var reach: nat
    /** How many tokens were evaluated so far, one by one or in chunks. */
    ghost var work: nat
    /** The contents of the rings. */
    ghost var slots: Slots<R>
    /** The tokens whose evaluation gave the logits; none when that is not known. */
    ghost var told: seq<Token>

    /** cuda_decode_state_init: one ring per layer, sized once and for all. */
    constructor (m: Model<V, R, G>, vocab: nat, ctx: nat, requestedChunk: nat, r0: R, g0: G, v0: V,
                 steady: bool)
      requires 0 < m.window && 0 < ctx <= U32_MAX
      ensures Valid() && ForwardOnly() && this.m == m && this.vocab == vocab && this.ctx == ctx && checkpoint == []
      ensures valid && Belongs() && this.steady == steady
      ensures forall il :: 0 <= il < |rings| ==> fresh(rings[il])
    {
      var cap := SlidingCap(m.window, ctx, requestedChunk);
      var sizes := seq(m.layers, il requires 0 <= il < m.layers => if m.full(il) then ctx else cap);
      CapsFit(m.window, ctx, requestedChunk);
      var made := MakeRings(sizes, r0);
      this.m, this.vocab, this.ctx, this.caps := m, vocab, ctx, sizes;
      this.prefillCap, this.steady := PrefillCap(m.window, ctx, cap), steady;
      this.rings, checkpoint, valid, logits, hidden, reach := made, [], true, g0, v0, 0;
      lows, told, work := seq(|made|, _ => 0), [], 0;
      slots := seq(|made|, il requires 0 <= il < |made| => seq(sizes[il], _ => r0));
    }

    static method MakeRings(sizes: seq<nat>, r0: R) returns (rings: seq<array<R>>)
      ensures |rings| == |sizes|
      ensures forall il :: 0 <= il < |sizes| ==> fresh(rings[il]) && rings[il][..] == seq(sizes[il], _ => r0)
      ensures forall i, j :: 0 <= i < j < |rings| ==> rings[i] != rings[j]
    {
      rings := [];
      for il := 0 to |sizes|
        invariant |rings| == il && forall l :: 0 <= l < il ==> fresh(rings[l]) && rings[l][..] == seq(sizes[l], _ => r0)
        invariant forall i, j :: 0 <= i < j < |rings| ==> rings[i] != rings[j]
      {
        var ring := new R[sizes[il]](_ => r0);
        rings := rings + [ring];
      }
    }

    /** The buffers are what `slots` says, each its own. */
    ghost predicate Sane()
      reads this`slots, rings
    {
      && |rings| == |caps| && CapsOk(m, ctx, caps, prefillCap) && Sized(slots, caps)
      && (forall il {:trigger rings[il]} :: 0 <= il < |rings| ==> rings[il][..] == slots[il])
      && (forall i, j {:trigger rings[i], rings[j]} :: 0 <= i < j < |rings| ==> rings[i] != rings[j])
    }

    /** Whatever the next token attends to is what a cold evaluation of the checkpoint computes. */
    ghost predicate Valid()
      reads this`checkpoint, this`lows, this`slots, this`reach, rings
    {
      && Sane() && |checkpoint| <= ctx && |checkpoint| <= reach && Forward(caps, lows, reach)
      && Kept(m, caps, slots, checkpoint, lows) && Ready(m, ctx, caps, |checkpoint|, lows)
    }

    ghost predicate Belongs()
      reads this`logits, this`told
    {
      told != [] ==> logits == ColdLogits(m, told)
    }

    /** The logits are those of the prompt. */
    ghost predicate Answered(prompt: seq<Token>)
      reads this`logits, this`told
    {
      prompt != [] && told == prompt && logits == ColdLogits(m, prompt)
    }

    /** Since the rings were filled only forward writes happened: no rewind and no load. */
    ghost predicate ForwardOnly()
      reads this`checkpoint, this`reach
    {
      reach == |checkpoint|
    }

    lemma Parts()
      requires Valid()
      ensures Sane() && |checkpoint| <= ctx && prefillCap > 0 && |caps| == |rings| == m.layers
      ensures Kept(m, caps, slots, checkpoint, lows) && Ready(m, ctx, caps, |checkpoint|, lows)
      ensures |checkpoint| <= reach && Forward(caps, lows, reach)
    {
    }

    lemma Whole()
      requires Sane() && Kept(m, caps, slots, checkpoint, lows) && Ready(m, ctx, caps, |checkpoint|, lows)
      requires |checkpoint| <= reach && Forward(caps, lows, reach)
      ensures Valid()
    {
    }

    // ---- The rings ------------------------------------------------------------------------

    /** The row of position p goes to its slot. */
    method StoreRow(il: nat, p: nat, r: R)
      requires Sane() && il < |rings|
      modifies rings[il], this`slots
      ensures Sane() && slots == Put(old(slots), caps, il, p, r)
    {
      assert rings[il][..] == slots[il];
      rings[il][p % caps[il]] := r;
      slots := Put(slots, caps, il, p, r);
      forall l | 0 <= l < |rings| ensures rings[l][..] == slots[l] {
        assert l != il ==> rings[l] != rings[il];
      }
    }

    /** The attention kernel's reads for the query at position p. */
    method Fetch(il: nat, p: nat) returns (rows: seq<R>)
      requires Sane() && il < |rings|
      ensures rows == Fetched(m, caps, slots, il, p)
    {
      var s := Start(m, il, p);
      rows := [];
      for r := s to p + 1
        invariant |rows| == r - s
        invariant forall i :: 0 <= i < |rows| ==> rows[i] == slots[il][At<R>(caps, il, s + i)]
      {
        assert rings[il][..] == slots[il];
        rows := rows + [rings[il][r % caps[il]]];
      }
    }

    // ---- One token ---------------------------------------------------------------------------

    /** cuda_decode_layer: the token's row is stored, then attended to with the others. */
    method DecodeLayer(il: nat, pos: nat, x: V) returns (ok: bool, stored: bool, x': V)
      requires Sane() && il < |rings|
      modifies rings[il], this`slots
      ensures Sane() && (ok ==> stored) && (!ok ==> !steady)
      ensures slots == if stored then Put(old(slots), caps, il, pos, m.row(il, pos, x)) else old(slots)
      ensures ok ==> x' == m.mix(il, pos, x, Fetched(m, caps, slots, il, pos))
    {
      x' := x;
      var failed: bool :| failed ==> !steady;
      if failed { return false, false, x; }
      StoreRow(il, pos, m.row(il, pos, x));
      failed :| failed ==> !steady;
      if failed { return false, true, x; }
      var rows := Fetch(il, pos);
      return true, true, m.mix(il, pos, x, rows);
    }

    /** All layers for one token, or the first k of them. */
    method DecodeAll(token: Token) returns (ok: bool, x: V, ghost k: nat)
      requires Sane() && |rings| == m.layers
      modifies rings, this`slots
      ensures Sane() && k <= m.layers && (if ok then k == m.layers else !steady)
      ensures Sized(old(slots), caps) && slots == WarmSlots(m, caps, old(slots), token, |checkpoint|, k)
      ensures ok ==> x == Warm(m, caps, old(slots), token, |checkpoint|, m.layers)
    {
      var pos := |checkpoint|;
      x, k := m.embed(token), 0;
      hide WarmSlots, Warm, Put, Fetched;
      WarmNone(m, caps, slots, token, pos);
      var failed: bool :| failed ==> !steady;
      if failed { return false, x, 0; }
      for il := 0 to m.layers
        invariant Sane() && k == il && slots == WarmSlots(m, caps, old(slots), token, pos, il)
        invariant x == Warm(m, caps, old(slots), token, pos, il)
      {
        var stored;
        WarmStep(m, caps, old(slots), token, pos, il);
        ok, stored, x := DecodeLayer(il, pos, x);
        if stored { k := il + 1; }
        if !ok { return; }
      }
      ok := true;
    }

    /** What is written from position n on, up to c tokens, leaves what layer il needs. */
    lemma Fits(c: nat)
      requires Sane() && Ready(m, ctx, caps, |checkpoint|, lows) && 0 < c <= prefillCap && |checkpoint| + c <= ctx
      ensures var n := |checkpoint|; var top := Raised(lows, caps, n + c);
        && Ready(m, ctx, caps, n, top) && Ready(m, ctx, caps, n + c, top) && |top| == |lows|
        && forall il :: 0 <= il < |caps| ==>
          top[il] <= Start(m, il, n) && n + c <= top[il] + caps[il] && lows[il] <= top[il]
    {
      ReadyAfter(m, ctx, caps, prefillCap, |checkpoint|, c, lows);
    }

    /** The rings hold the rows of toks, and whatever follows toks can be evaluated. */
    ghost predicate Caught(toks: seq<Token>)
      reads this`lows, this`slots, this`reach, rings
    {
      && Sane() && |toks| <= ctx && Kept(m, caps, slots, toks, lows) && Ready(m, ctx, caps, |toks|, lows)
      && |toks| <= reach && Forward(caps, lows, reach)
    }

    /** The session before the tokens `next` are evaluated. */
    lemma Starts(next: seq<Token>) returns (top: seq<nat>)
      requires Valid() && 0 < |next| && |checkpoint| + |next| <= ctx && (|next| == 1 || |next| <= prefillCap)
      ensures var n, n' := |checkpoint|, |checkpoint| + |next|;
        && |lows| == |caps| == m.layers && top == Raised(lows, caps, n')
        && Ready(m, ctx, caps, n, top) && Ready(m, ctx, caps, n', top)
        && KeptTo(m, caps, slots, checkpoint, checkpoint + next, 0, top)
        && forall il :: 0 <= il < |caps| ==> top[il] <= Start(m, il, n) && n' <= top[il] + caps[il]
      ensures Sane() && Forward(caps, top, Max(reach, |checkpoint| + |next|)) && |checkpoint| <= reach
    {
      hide *;
      Parts();
      top := Raised(lows, caps, |checkpoint| + |next|);
      Fits(|next|);
      Begun(m, caps, slots, checkpoint, checkpoint + next, lows, top);
      StillForward(caps, lows, reach, |checkpoint| + |next|);
    }

    /** The evaluation of one more token, before the checkpoint says so. */
    method TryToken(token: Token, needLogits: bool) returns (ok: bool)
      requires Sane() && |checkpoint| < ctx
      modifies this`logits, this`told, this`lows, this`reach, this`slots, this`work, rings
      ensures !ok ==> !steady
      ensures work == old(work) + 1
      ensures Sane()
      ensures
        if ok && needLogits then told == (if old(Valid()) then checkpoint + [token] else [])
        else told == old(told) && logits == old(logits)
      ensures Computed(old(slots), token, ok, needLogits)
      ensures old(Valid()) ==> Valid() && reach == Max(old(reach), |checkpoint| + 1)
      ensures old(Valid()) && ok ==> Caught(checkpoint + [token])
      ensures old(Valid()) && ok && needLogits ==> logits == ColdLogits(m, checkpoint + [token])
    {
      hide *;
      ghost var good, slots0, toks, top := Valid(), slots, checkpoint, [];
      SanePart();
      work := work + 1;
      if good { top := Starts([token]); }
      var x; ghost var k;
      ok, x, k := DecodeAll(token);
      if good { WarmEnds(m, caps, slots0, toks, token, k, top); }
      if ok && needLogits {
        var failed: bool :| failed ==> !steady;
        if failed {
          ok := false;
        } else {
          logits, told := m.out(x), if good then toks + [token] else [];
        }
      }
      IsComputed(slots0, token, ok, needLogits, k);
      if good {
        lows, reach := top, Max(reach, |toks| + 1);
        UpTo(old(reach), |toks| + 1);
        Whole();
        if ok { Catch(toks + [token]); }
      }
    }

    static lemma UpTo(a: nat, b: nat)
      ensures a <= Max(a, b) && b <= Max(a, b) && Max(a, b) in {a, b}
    {
    }

    /** What one evaluation did to the slots and the logits, whatever the slots held. */
    ghost predicate Computed(slots0: Slots<R>, token: Token, ok: bool, needLogits: bool)
      reads this`slots, this`logits, this`checkpoint
    {
      && Sized(slots0, caps) && |caps| == m.layers
      && (ok ==> slots == WarmSlots(m, caps, slots0, token, |checkpoint|, m.layers))
      && (ok && needLogits ==> logits == m.out(Warm(m, caps, slots0, token, |checkpoint|, m.layers)))
    }

    lemma IsComputed(slots0: Slots<R>, token: Token, ok: bool, needLogits: bool, k: nat)
      requires Sized(slots0, caps) && |caps| == m.layers && k <= m.layers && (ok ==> k == m.layers)
      requires slots == WarmSlots(m, caps, slots0, token, |checkpoint|, k)
      requires ok && needLogits ==> logits == m.out(Warm(m, caps, slots0, token, |checkpoint|, m.layers))
      ensures Computed(slots0, token, ok, needLogits)
    {
    }

    lemma SanePart()
      requires Sane()
      ensures |rings| == |caps| == m.layers && Sized(slots, caps) && CapsOk(m, ctx, caps, prefillCap)
    {
    }

    lemma Catch(toks: seq<Token>)
      requires Sane() && Kept(m, caps, slots, toks, lows) && Ready(m, ctx, caps, |toks|, lows)
      requires |toks| <= reach && Forward(caps, lows, reach)
      ensures Caught(toks)
    {
    }

    /** sf37_session_eval_internal. It never looks at `valid`. */
    method Eval(token: Token, needLogits: bool) returns (ok: bool, failed: bool)
      requires Sane() && |checkpoint| <= ctx
      modifies this, rings
      ensures Sane() && |checkpoint| <= ctx && (old(Valid()) ==> Valid())
      ensures (failed ==> !steady && !ok) && (!failed ==> (ok <==> 0 <= token < vocab && |old(checkpoint)| < ctx))
      ensures ok ==> work == old(work) + 1
      ensures !(0 <= token < vocab) || |old(checkpoint)| >= ctx ==> !ok && valid == old(valid)
      ensures !ok ==> checkpoint == old(checkpoint)
      ensures
        if ok && needLogits then told == (if old(Valid()) then checkpoint else [])
        else told == old(told) && logits == old(logits)
      ensures ok ==> checkpoint == old(checkpoint) + [token] && valid && Sized(old(slots), caps) && |caps| == m.layers
      ensures ok && needLogits ==> logits == m.out(Warm(m, caps, old(slots), token, |old(checkpoint)|, m.layers))
      ensures ok && needLogits && old(Valid()) ==> logits == ColdLogits(m, checkpoint)
      ensures old(Valid()) ==> old(reach) <= reach && (reach == old(reach) || reach <= |old(checkpoint)| + 1)
    {
      if !(0 <= token < vocab) || |checkpoint| >= ctx { return false, false; }
      ghost var good := Valid();
      ok := TryToken(token, needLogits);
      valid, failed := ok, !ok;
      hide *;
      UpTo(old(reach), |checkpoint| + 1);
      if ok {
        checkpoint := checkpoint + [token];
        if good { Adopt(); }
      }
    }

    lemma StillKept(ahead: seq<Token>, top: seq<nat>)
      requires checkpoint <= ahead && Sane()
      requires Kept(m, caps, slots, ahead, top) || Kept(m, caps, slots, checkpoint, top)
      ensures Kept(m, caps, slots, checkpoint, top)
    {
      if Kept(m, caps, slots, ahead, top) {
        KeptPrefix(m, caps, slots, ahead, top, |checkpoint|);
        assert ahead[..|checkpoint|] == checkpoint;
      }
    }

    // ---- A chunk of tokens ----------------------------------------------------------------------

    /** The batch store of a layer's rows; it may stop anywhere. */
    method StoreBatch(il: nat, pos0: nat, xs: seq<V>, ghost ahead: seq<Token>, ghost top: seq<nat>) returns (ok: bool)
      requires Sane() && il < |caps| && pos0 == |checkpoint| && |ahead| == pos0 + |xs| && checkpoint <= ahead
      requires |top| == |caps|
      requires KeptTo(m, caps, slots, checkpoint, ahead, il, top) && |ahead| <= top[il] + caps[il]
      requires forall t :: 0 <= t < |xs| ==> xs[t] == Hidden(m, ahead, il, pos0 + t)
      modifies rings[il], this`slots
      ensures Sane()
      ensures ok ==> KeptTo(m, caps, slots, checkpoint, ahead, il + 1, top)
      ensures !ok ==> Kept(m, caps, slots, checkpoint, top) && !steady
    {
      ghost var before := slots;
      assert ahead[..pos0] == checkpoint && ahead[..pos0 + |xs|] == ahead;
      assert KeptLayer(m, caps, before, checkpoint, il, top[il]);
      ok := true;
      var t := 0;
      while t < |xs| && ok
        invariant 0 <= t <= |xs| && Sane() && KeptLayer(m, caps, slots, ahead[..pos0 + t], il, top[il])
        invariant forall l :: 0 <= l < |caps| && l != il ==> slots[l] == before[l]
        invariant ok || (t < |xs| && !steady)
        decreases |xs| - t, ok
      {
        ok :| !ok ==> !steady;
        if ok {
          PutNext(m, caps, slots, ahead, il, pos0 + t, m.row(il, pos0 + t, xs[t]), top[il]);
          StoreRow(il, pos0 + t, m.row(il, pos0 + t, xs[t]));
          t := t + 1;
        }
      }
      if ok {
        LayerStep(m, caps, before, slots, checkpoint, ahead, il, top);
      } else {
        StoppedStore(before, ahead, il, t, top);
      }
    }

    lemma StoppedStore(before: Slots<R>, ahead: seq<Token>, il: nat, t: nat, top: seq<nat>)
      requires Sane() && il < |caps| && checkpoint <= ahead && |checkpoint| + t <= |ahead|
      requires KeptTo(m, caps, before, checkpoint, ahead, il, top)
      requires |top| == |caps| && KeptLayer(m, caps, slots, ahead[..|checkpoint| + t], il, top[il])
      requires forall l :: 0 <= l < |caps| && l != il ==> slots[l] == before[l]
      ensures Kept(m, caps, slots, checkpoint, top)
    {
      var part := ahead[..|checkpoint| + t];
      assert part[..|checkpoint|] == checkpoint;
      KeptLess(m, caps, slots, part, il, top[il], |checkpoint|, top[il]);
      LayerStep(m, caps, before, slots, checkpoint, ahead, il, top);
      Abandoned(m, caps, slots, checkpoint, ahead, il, top);
    }

    /** The batch attention: the query at each position of the chunk reads the ring. */
    method AttendBatch(il: nat, pos0: nat, xs: seq<V>, ghost ahead: seq<Token>, ghost top: seq<nat>)
      returns (xs': seq<V>)
      requires Sane() && il < |caps| && |ahead| == pos0 + |xs| && |top| == |caps|
      requires KeptLayer(m, caps, slots, ahead, il, top[il]) && top[il] <= Start(m, il, pos0)
      requires forall t :: 0 <= t < |xs| ==> xs[t] == Hidden(m, ahead, il, pos0 + t)
      ensures |xs'| == |xs| && forall t :: 0 <= t < |xs| ==> xs'[t] == Hidden(m, ahead, il + 1, pos0 + t)
    {
      xs' := [];
      for t := 0 to |xs|
        invariant |xs'| == t && forall u :: 0 <= u < t ==> xs'[u] == Hidden(m, ahead, il + 1, pos0 + u)
      {
        var rows := Fetch(il, pos0 + t);
        FetchOk(m, caps, slots, ahead, il, pos0 + t, top[il]);
        xs' := xs' + [m.mix(il, pos0 + t, xs[t], rows)];
      }
    }

    /** cuda_prefill_layer: all rows are stored, then every query of the chunk attends. */
    method PrefillLayer(il: nat, pos0: nat, xs: seq<V>, ghost ahead: seq<Token>, ghost top: seq<nat>)
      returns (ok: bool, xs': seq<V>)
      requires Sane() && il < |caps| && pos0 == |checkpoint| && |ahead| == pos0 + |xs| && checkpoint <= ahead
      requires |top| == |caps|
      requires KeptTo(m, caps, slots, checkpoint, ahead, il, top) && top[il] <= Start(m, il, pos0)
      requires |ahead| <= top[il] + caps[il]
      requires forall t :: 0 <= t < |xs| ==> xs[t] == Hidden(m, ahead, il, pos0 + t)
      modifies rings[il], this`slots
      ensures Sane()
      ensures ok ==> KeptTo(m, caps, slots, checkpoint, ahead, il + 1, top) && |xs'| == |xs|
      ensures ok ==> forall t :: 0 <= t < |xs| ==> xs'[t] == Hidden(m, ahead, il + 1, pos0 + t)
      ensures !ok ==> Kept(m, caps, slots, checkpoint, top) && !steady
    {
      xs' := [];
      ok := StoreBatch(il, pos0, xs, ahead, top);
      if !ok { return; }
      assert KeptLayer(m, caps, slots, ahead, il, top[il]);
      xs' := AttendBatch(il, pos0, xs, ahead, top);
      ok :| !ok ==> !steady;
      if !ok { Abandoned(m, caps, slots, checkpoint, ahead, il + 1, top); }
    }

    /** The layers of cuda_prefill_chunk. */
    method PrefillAll(chunk: seq<Token>, ghost ahead: seq<Token>, ghost top: seq<nat>) returns (ok: bool, xs: seq<V>)
      requires Sane() && ahead == checkpoint + chunk && |top| == |caps|
      requires KeptTo(m, caps, slots, checkpoint, ahead, 0, top)
      requires forall il :: 0 <= il < |caps| ==> top[il] <= Start(m, il, |checkpoint|) && |ahead| <= top[il] + caps[il]
      modifies rings, this`slots
      ensures Sane()
      ensures ok ==> Kept(m, caps, slots, ahead, top) && |xs| == |chunk|
      ensures ok ==> forall t :: 0 <= t < |chunk| ==> xs[t] == Hidden(m, ahead, m.layers, |checkpoint| + t)
      ensures !ok ==> Kept(m, caps, slots, checkpoint, top) && !steady
    {
      var pos0 := |checkpoint|;
      xs := seq(|chunk|, t requires 0 <= t < |chunk| => m.embed(chunk[t]));
      ok :| !ok ==> !steady;
      if !ok {
        Abandoned(m, caps, slots, checkpoint, ahead, 0, top);
        return;
      }
      for il := 0 to m.layers
        invariant Sane() && KeptTo(m, caps, slots, checkpoint, ahead, il, top) && |xs| == |chunk|
        invariant forall t :: 0 <= t < |chunk| ==> xs[t] == Hidden(m, ahead, il, pos0 + t)
      {
        ok, xs := PrefillLayer(il, pos0, xs, ahead, top);
        if !ok { return; }
      }
      Completed(m, caps, slots, checkpoint, ahead, top);
      ok := true;
    }

    /** The last hidden vector comes back to the host, and the logits when asked for. */
    method ReadBack(x: V, needLogits: bool) returns (ok: bool)
      modifies this`hidden, this`logits
      ensures if ok && needLogits then logits == m.out(x) else logits == old(logits)
      ensures !ok ==> !steady
    {
      ok :| !ok ==> !steady;
      if !ok { return; }
      hidden := x;
      if needLogits {
        ok :| !ok ==> !steady;
        if !ok { return; }
        logits := m.out(x);
      }
    }

    /** cuda_prefill_chunk: the checkpoint is left to the caller. */
    method PrefillChunk(chunk: seq<Token>, needLogits: bool) returns (ok: bool)
      requires Valid() && 0 < |chunk| <= prefillCap && |checkpoint| + |chunk| <= ctx
      modifies this`logits, this`told, this`hidden, this`lows, this`reach, this`slots, this`work, rings
      ensures if ok && needLogits then Answered(checkpoint + chunk) else told == old(told) && logits == old(logits)
      ensures Valid() && reach == Max(old(reach), |checkpoint| + |chunk|)
      ensures if ok then Caught(checkpoint + chunk) else !steady
      ensures work == old(work) + |chunk|
    {
      hide *;
      ghost var ahead := checkpoint + chunk;
      ghost var top := Starts(chunk);
      work := work + |chunk|;
      lows, reach := top, Max(reach, |ahead|);
      UpTo(old(reach), |ahead|);
      var xs;
      ok, xs := PrefillAll(chunk, ahead, top);
      StillKept(ahead, top);
      Whole();
      if ok {
        LogitsOf(m, ahead);
        ok := ReadBack(xs[|chunk| - 1], needLogits);
      }
      if ok {
        Catch(ahead);
        if needLogits {
          told := ahead;
          IsAnswered(ahead);
        }
      }
    }

    lemma IsAnswered(toks: seq<Token>)
      ensures Answered(toks) <==> toks != [] && told == toks && logits == ColdLogits(m, toks)
    {
    }

    /** cuda_prefill_select_chunk_cap: the first candidate for which scratch memory can be had. */
    method SelectChunkCap(suffix: nat, wanted0: nat) returns (c: nat)
      requires prefillCap > 0 && (suffix > 0 ==> wanted0 > 0)
      ensures c <= suffix && c <= prefillCap && (steady && suffix > 0 ==> c > 0)
    {
      if suffix == 0 { return 0; }
      var wanted := if wanted0 > prefillCap then prefillCap else wanted0;
      if wanted > suffix { wanted := suffix; }
      var candidates: seq<nat> := [wanted];
      assert wanted > 0;
      var fixed: seq<nat> := [4096, 2048, 1024, 512, 256];
      for i := 0 to |fixed|
        invariant |candidates| > 0 && candidates[0] == wanted
        invariant forall k :: 0 <= k < |candidates| ==> candidates[k] <= suffix && candidates[k] <= prefillCap
      {
        var f := if fixed[i] > prefillCap then prefillCap else fixed[i];
        if f > suffix { f := suffix; }
        if f != 0 && f !in candidates { candidates := candidates + [f]; }
      }
      for i := 0 to |candidates|
        invariant i > 0 ==> !steady
      {
        var failed: bool :| failed ==> !steady;
        if !failed { return candidates[i]; }
      }
      return 0;
    }

    /** The next chunk ends at a multiple of the chunk size when the range does not start at zero. */
    function ChunkAt(start: nat, pos0: nat, end: nat, cap: nat): (c: nat)
      requires 0 < cap && pos0 < end
      ensures 0 < c <= cap && pos0 + c <= end
    {
      var c := if end - pos0 < cap then end - pos0 else cap;
      if start != 0 && pos0 % cap != 0 && cap - pos0 % cap < c then cap - pos0 % cap else c
    }

    /** The next chunk of the range, and the checkpoint after it. */
    method ChunkStep(prompt: seq<Token>, start: nat, pos0: nat, cap: nat) returns (ok: bool, c: nat)
      requires Valid() && pos0 < |prompt| <= ctx && checkpoint == prompt[..pos0] && 0 < cap <= prefillCap
      modifies this, rings
      ensures Valid() && 0 < c && pos0 + c <= |prompt| && (ok ==> valid && checkpoint == prompt[..pos0 + c])
      ensures !ok ==> checkpoint == prompt[..pos0] && !valid && !steady
      ensures work == old(work) + c
      ensures if ok && pos0 + c == |prompt| then Answered(prompt) else told == old(told) && logits == old(logits)
      ensures old(reach) <= reach && (reach == old(reach) || reach <= pos0 + c)
    {
      hide *;
      c := ChunkAt(start, pos0, |prompt|, cap);
      Slices(prompt, pos0, c);
      ok := PrefillChunk(prompt[pos0..pos0 + c], pos0 + c == |prompt|);
      UpTo(old(reach), pos0 + c);
      if !ok { valid := false; return; }
      checkpoint, valid := checkpoint + prompt[pos0..pos0 + c], true;
      Adopt();
    }

    /** cuda_prefill_chunked_range: 1 done, 0 not tried, -1 failed or cancelled part of the way. */
    method ChunkedRange(prompt: seq<Token>, start: nat, n: nat, wanted: nat) returns (rc: int)
      requires Valid() && start == |checkpoint| && start + n == |prompt| <= ctx && checkpoint <= prompt
      requires (n > 0 ==> wanted > 0)
      modifies this, rings
      ensures Valid() && rc in {-1, 0, 1}
      ensures rc == 1 ==> prompt != [] && checkpoint == prompt && valid && Answered(prompt)
      ensures Answered(prompt) || (told == old(told) && logits == old(logits))
      ensures rc == 0 ==>
        checkpoint == old(checkpoint) && valid == old(valid) && told == old(told) && logits == old(logits)
      ensures rc == -1 ==> checkpoint <= prompt && !valid && !steady
      ensures steady && n > 0 ==> rc == 1
      ensures (rc == 1 ==> work == old(work) + n) && (rc == 0 ==> work == old(work))
      ensures old(reach) <= reach && (reach == old(reach) || reach <= |prompt|)
    {
      if n == 0 { return 0; }
      Parts();
      var cap := SelectChunkCap(n, wanted);
      if cap == 0 { return 0; }
      hide *;
      var pos0 := start;
      var cancelled: bool;
      assert checkpoint == prompt[..start];
      while pos0 < |prompt|
        invariant Valid() && start <= pos0 <= |prompt| && checkpoint == prompt[..pos0]
        invariant (pos0 > start ==> valid) && work == old(work) + (pos0 - start)
        invariant old(reach) <= reach && (reach == old(reach) || reach <= pos0)
        invariant if start < pos0 == |prompt| then Answered(prompt) else told == old(told) && logits == old(logits)
      {
        cancelled :| cancelled ==> !steady;
        if cancelled { valid := false; return -1; }
        var ok, c := ChunkStep(prompt, start, pos0, cap);
        if !ok { return -1; }
        pos0 := pos0 + c;
        cancelled :| cancelled ==> !steady;
        if cancelled { valid := false; return -1; }
      }
      assert prompt[..|prompt|] == prompt;
      return 1;
    }

    static lemma Slices(prompt: seq<Token>, pos0: nat, c: nat)
      requires pos0 + c <= |prompt|
      ensures prompt[..pos0] + prompt[pos0..pos0 + c] == prompt[..pos0 + c]
      ensures pos0 + c == |prompt| ==> prompt[..pos0 + c] == prompt
      ensures prompt[..pos0] <= prompt
    {
    }

    lemma Adopt()
      requires Caught(checkpoint)
      ensures Valid()
    {
    }

    // ---- Reset, rewind, sync -----------------------------------------------------------------------

    method Reset()
      requires Sane()
      modifies this`checkpoint, this`valid, this`lows, this`reach
      ensures Valid() && checkpoint == [] && valid && ForwardOnly()
    {
      Nothing(m, ctx, caps, slots);
      checkpoint, valid, lows, reach := [], true, seq(|caps|, _ => 0), 0;
    }

    /** sf37_session_common_prefix */
    method CommonPrefix(prompt: seq<Token>) returns (i: nat)
      ensures i <= |checkpoint| && i <= |prompt|
      ensures !valid ==> i == 0
      ensures valid ==> checkpoint[..i] == prompt[..i]
      ensures valid && i < |checkpoint| && i < |prompt| ==> checkpoint[i] != prompt[i]
    {
      i := 0;
      if !valid { return; }
      while i < |checkpoint| && i < |prompt| && checkpoint[i] == prompt[i]
        invariant i <= |checkpoint| && i <= |prompt| && checkpoint[..i] == prompt[..i]
      {
        i := i + 1;
      }
    }

    /** The token-by-token path of sync. */
    method EvalRest(prompt: seq<Token>, common: nat) returns (ok: bool, failed: bool)
      requires Valid() && valid && common <= |prompt| <= ctx && checkpoint == prompt[..common]
      modifies this, rings
      ensures Valid() && checkpoint <= prompt && (ok ==> checkpoint == prompt && valid)
      ensures old(reach) <= reach && (reach == old(reach) || reach <= |prompt|)
      ensures Answered(prompt) || (told == old(told) && logits == old(logits))
      ensures ok && common < |prompt| ==> Answered(prompt)
      ensures common == |prompt| ==> ok && told == old(told) && logits == old(logits)
      ensures (failed ==> !steady && !ok) && (ok ==> work == old(work) + (|prompt| - common))
      ensures !failed ==> (ok <==> forall i :: common <= i < |prompt| ==> 0 <= prompt[i] < vocab)
    {
      hide *;
      for i := common to |prompt|
        invariant Valid() && valid && checkpoint == prompt[..i] && work == old(work) + (i - common)
        invariant forall k :: common <= k < i ==> 0 <= prompt[k] < vocab
        invariant old(reach) <= reach && (reach == old(reach) || reach <= i)
        invariant if common < i == |prompt| then Answered(prompt) else told == old(told) && logits == old(logits)
      {
        failed :| failed ==> !steady;
        if failed { return false, true; }
        ValidParts();
        ok, failed := Eval(prompt[i], i + 1 == |prompt|);
        if !ok { return; }
        assert checkpoint == prompt[..i + 1];
        if i + 1 == |prompt| {
          assert prompt[..i + 1] == prompt;
          IsAnswered(prompt);
        }
        failed :| failed ==> !steady;
        if failed { return false, true; }
      }
      assert prompt[..|prompt|] == prompt;
      return true, false;
    }

    /** sf37_session_sync without images: after success the checkpoint is the prompt, however
        many failures, cancellations and rewinds came before. A session that is not valid starts over.
        The logits are those of the prompt unless the valid checkpoint was the prompt already: then
        nothing is evaluated, and they stay those of whatever was evaluated last. Of a prompt that the
        valid checkpoint begins only the rest is evaluated, of any other all. A prompt that fits, of
        tokens that there are, fails only with the device or when it is cancelled. */
    method Sync(prompt: seq<Token>, resumeMin: nat, batch: bool, wanted: nat) returns (ok: bool, failed: bool)
      requires Sane() && |checkpoint| <= ctx && (valid ==> Valid()) && wanted > 0
      modifies this, rings
      ensures Sane() && |checkpoint| <= ctx && (old(Valid()) || |prompt| <= ctx ==> Valid())
      ensures failed ==> !steady && !ok
      ensures !failed && |prompt| <= ctx && (forall i :: 0 <= i < |prompt| ==> 0 <= prompt[i] < vocab) ==> ok
      ensures ok ==> work == old(work) + |prompt| - Reused(old(valid), old(checkpoint), prompt)
      ensures |prompt| > ctx ==> !ok && !failed && checkpoint == old(checkpoint) && valid == old(valid)
      ensures |prompt| <= ctx ==> checkpoint <= prompt && (ok ==> checkpoint == prompt && valid)
      ensures Answered(prompt) || (told == old(told) && logits == old(logits))
      ensures ok && !(old(valid) && old(checkpoint) == prompt) && prompt != [] ==> Answered(prompt)
      ensures old(valid) && old(checkpoint) == prompt && prompt != [] ==>
        ok && told == old(told) && logits == old(logits)
      ensures |prompt| <= ctx && !old(valid) ==> reach <= |prompt|
      ensures (reach <= old(reach) || reach <= |prompt|) && (ok && old(ForwardOnly()) ==> ForwardOnly())
    {
      hide *;
      if |prompt| > ctx { return false, false; }
      var common := CommonPrefix(prompt);
      ReusedIs(valid, checkpoint, prompt, common);
      if valid { ValidParts(); }
      if !valid || common == 0 || common < |checkpoint| {
        Reset();
        common := 0;
      }
      assert checkpoint == prompt[..common];
      var suffix := |prompt| - common;
      ValidParts();
      if batch && suffix > 0 && suffix >= resumeMin {
        var rc := ChunkedRange(prompt, common, suffix, wanted);
        ValidParts();
        if rc > 0 { return true, false; }
        if rc < 0 { return false, true; }
      }
      ok, failed := EvalRest(prompt, common);
      ValidParts();
    }

    lemma ValidParts()
      requires Valid()
      ensures Sane() && |checkpoint| <= ctx && |checkpoint| <= reach && (ForwardOnly() <==> reach == |checkpoint|)
    {
    }

    /** sf37_session_rewind, without any check. */
    method Rewind(pos: int)
      requires Sane() && |checkpoint| <= ctx
      modifies this`checkpoint, this`valid, this`lows, this`reach
      ensures var n := if pos < 0 then 0 else if pos > |old(checkpoint)| then |old(checkpoint)| else pos;
        checkpoint == old(checkpoint)[..n] && valid && (n > 0 ==> lows == old(lows) && reach == old(reach))
      ensures Sane() && |checkpoint| <= ctx
      ensures checkpoint == [] ==> Valid() && ForwardOnly()
      ensures old(Valid()) && checkpoint != [] && Ready(m, ctx, caps, |checkpoint|, lows) ==> Valid()
    {
      var n := if pos < 0 then 0 else if pos > |checkpoint| then |checkpoint| else pos;
      if n == 0 {
        Nothing(m, ctx, caps, slots);
        lows, reach := seq(|caps|, _ => 0), 0;
      } else if Valid() {
        KeptPrefix(m, caps, slots, checkpoint, lows, n);
      }
      checkpoint, valid := checkpoint[..n], true;
    }

    /** The rings behind `live` written positions still hold what the token at position pos needs. */
    method GuardAt(pos: nat, live: nat) returns (r: bool)
      requires Sane()
      ensures r <==> GuardHolds(m, caps, pos, live)
    {
      for il := 0 to |caps|
        invariant forall l {:trigger Start(m, l, pos)} :: 0 <= l < il ==> live <= Start(m, l, pos) + caps[l]
      {
        if m.full(il) {
          if live > caps[il] {
            assert Start(m, il, pos) == 0;
            return false;
          }
        } else {
          var retained := if live > caps[il] then live - caps[il] else 0;
          var needed := if pos + 1 > m.window then pos + 1 - m.window else 0;
          assert needed == Start(m, il, pos);
          if needed < retained { return false; }
        }
      }
      return true;
    }

    /** session_rewind_preserves_kv */
    method PreservesKv(pos: int) returns (r: bool)
      requires Sane() && |checkpoint| <= ctx
      ensures r <==>
        valid && 0 <= pos <= |checkpoint| && (pos < |checkpoint| ==> GuardHolds(m, caps, pos, |checkpoint|))
    {
      if !valid || pos < 0 || pos > |checkpoint| { return false; }
      if pos == |checkpoint| { return true; }
      r := GuardAt(pos, |checkpoint|);
    }

    /** The guarded rewind is safe after forward writes only. */
    method GuardedRewind(pos: int) returns (done: bool)
      requires Valid() && ForwardOnly()
      modifies this`checkpoint, this`valid, this`lows, this`reach
      ensures Valid() && (done ==> 0 <= pos <= |old(checkpoint)| && checkpoint == old(checkpoint)[..pos] && valid)
      ensures !done ==> checkpoint == old(checkpoint) && valid == old(valid)
      ensures done <==>
        old(valid) && 0 <= pos <= old(|checkpoint|) &&
          (pos < old(|checkpoint|) ==> GuardHolds(m, caps, pos, old(|checkpoint|)))
    {
      done := PreservesKv(pos);
      if done {
        GuardSound(pos, |checkpoint|);
        Rewind(pos);
      }
    }

    /** The guard from the greatest length so far. */
    lemma GuardSound(pos: nat, high: nat)
      requires Valid() && pos <= |checkpoint| && reach <= high
      requires pos < |checkpoint| ==> GuardHolds(m, caps, pos, high)
      ensures Ready(m, ctx, caps, pos, lows)
    {
      forall il | 0 <= il < |caps| && pos < |checkpoint| ensures lows[il] <= Start(m, il, pos) {
        assert high <= Start(m, il, pos) + caps[il];
      }
    }
  }

  // ---- Whose logits a sync leaves ---------------------------------------------------------------------

  lemma LogitsTell<V(!new), R(!new), G(!new)>(s: Session<V, R, G>, prompt: seq<Token>)
    requires s.Belongs() && s.told != [] && prompt != [] && Telling(s.m) && s.m.layers > 0 && s.m.full(0)
    ensures s.logits == ColdLogits(s.m, prompt) <==> s.told == prompt
  {
    ColdTells(s.m, s.told, prompt);
  }

  /** After a successful sync the logits are those of the prompt if and only if something was evaluated
      or the evaluation that gave them was of the prompt. */
  method SyncExact<V(!new), R(!new), G(!new)>(s: Session<V, R, G>, prompt: seq<Token>, resumeMin: nat, batch: bool,
                                              wanted: nat) returns (ok: bool, failed: bool)
    requires s.Sane() && |s.checkpoint| <= s.ctx && (s.valid ==> s.Valid()) && wanted > 0
    requires s.Belongs() && s.told != [] && prompt != [] && Telling(s.m) && s.m.layers > 0 && s.m.full(0)
    modifies s, s.rings
    ensures ok ==> s.checkpoint == prompt && s.valid && s.Belongs()
    ensures (failed ==> !s.steady && !ok) &&
      (!failed && |prompt| <= s.ctx && (forall i :: 0 <= i < |prompt| ==> 0 <= prompt[i] < s.vocab) ==> ok)
    ensures ok ==>
      (s.logits == ColdLogits(s.m, prompt) <==> !(old(s.valid) && old(s.checkpoint) == prompt) || old(s.told) == prompt)
  {
    hide Session.Sane, Session.Valid, ColdLogits, Telling;
    ok, failed := s.Sync(prompt, resumeMin, batch, wanted);
    if ok { LogitsTell(s, prompt); }
  }

  /** A rewind that the guard allows and a sync of what it left: nothing is evaluated, the sync succeeds,
      and the logits are those of the longer text. */
  method RewindThenSync<V(!new), R(!new), G(!new)>(s: Session<V, R, G>, n: nat, wanted: nat)
    returns (done: bool, ok: bool)
    requires s.Valid() && s.ForwardOnly() && s.valid && s.Answered(s.checkpoint) && 0 < n < |s.checkpoint|
    requires Telling(s.m) && s.m.layers > 0 && s.m.full(0) && wanted > 0
    modifies s, s.rings
    ensures done <==> GuardHolds(s.m, s.caps, n, old(|s.checkpoint|))
    ensures done ==> ok && s.checkpoint == old(s.checkpoint)[..n] && s.valid && s.logits == old(s.logits)
    ensures done ==> s.logits != ColdLogits(s.m, s.checkpoint)
  {
    ghost var all := s.checkpoint;
    ColdTells(s.m, all, all[..n]);
    hide Session.Sane, ColdLogits, Telling, GuardHolds;
    s.ValidParts();
    ok := false;
    done := s.GuardedRewind(n);
    if done {
      s.ValidParts();
      var failed;
      ok, failed := s.Sync(s.checkpoint, 1, true, wanted);
    }
  }

  /** The rewind guard: what layer il needs from position pos on starts no more than a ring behind
      the live length. */
  ghost predicate GuardHolds<V, R, G>(m: Model<V, R, G>, caps: seq<nat>, pos: nat, live: nat) {
    forall il {:trigger Start(m, il, pos)} :: 0 <= il < |caps| ==> live <= Start(m, il, pos) + caps[il]
  }

  /** The same from the greatest length so far; a layer that looks at no earlier position needs nothing. */
  ghost predicate GuardFrom<V, R, G>(m: Model<V, R, G>, caps: seq<nat>, pos: nat, high: nat) {
    forall il {:trigger Start(m, il, pos)} :: 0 <= il < |caps| && Start(m, il, pos) < pos ==>
      high <= Start(m, il, pos) + caps[il]
  }

  // ---- When the guard is right ------------------------------------------------------------------------

  /** The last position before `high` that goes to the slot of p. */
  function Newest(p: nat, high: nat, cap: nat): (q: nat)
    requires cap > 0 && p < high
    ensures p <= q < high <= q + cap && q % cap == p % cap && (q == p <==> high <= p + cap)
    decreases high - p
  {
    if high <= p + cap then p else
      NextTurn(p, cap);
      Newest(p + cap, high, cap)
  }

  lemma NextTurn(p: nat, cap: nat)
    requires cap > 0
    ensures (p + cap) % cap == p % cap
  {
    var k := p / cap;
    assert p == cap * k + p % cap;
    assert p + cap == cap * (k + 1) + p % cap;
    Remainder(p + cap, cap, k + 1, p % cap);
  }

  lemma Remainder(x: nat, cap: nat, k: nat, r: nat)
    requires 0 <= r < cap && x == cap * k + r
    ensures x % cap == r
  {
    var k' := x / cap;
    assert x == cap * k' + x % cap;
    assert cap * (k' - k) == r - x % cap;
    Multiple(cap, k' - k);
    Multiple(cap, k - k');
    assert cap * (k - k') == -(cap * (k' - k));
  }

  /** After a rewind to `pos` the slot of p holds the row of the newest position that went there. */
  lemma StaleSlot<V(!new), R(!new), G(!new)>(m: Model<V, R, G>, caps: seq<nat>, slots: Slots<R>, toks: seq<Token>,
                                             il: nat, low: nat, pos: nat, p: nat)
    requires Sized(slots, caps) && il < |caps| && KeptLayer(m, caps, slots, toks, il, low)
    requires (low == 0 || low + caps[il] <= |toks|)
    requires p < pos <= |toks| && Telling(m)
    ensures slots[il][At<R>(caps, il, p)] == RowAt(m, toks, il, Newest(p, |toks|, caps[il]))
    ensures Holds(m, caps, slots, toks[..pos], il, p) <==> |toks| <= p + caps[il]
  {
    var q := Newest(p, |toks|, caps[il]);
    assert Holds(m, caps, slots, toks, il, q);
    assert toks[..pos][..p + 1] == toks[..p + 1];
    Causal(m, toks, toks[..pos], il, p);
    RowTells(m, il, p, q, Hidden(m, toks, il, p), Hidden(m, toks, il, q));
  }

  lemma RowTells<V(!new), R(!new), G(!new)>(m: Model<V, R, G>, il: nat, p: nat, q: nat, x: V, y: V)
    requires Telling(m)
    ensures m.row(il, p, x) == m.row(il, q, y) ==> p == q
  {
  }

  /** After the positions of toks were written forwards, a rewind to pos leaves layer il what the next
      token needs if and only if that starts no more than a ring behind the length of toks. With the
      live length for |toks| this is the guard. */
  lemma RewindExact<V(!new), R(!new), G(!new)>(m: Model<V, R, G>, caps: seq<nat>, slots: Slots<R>, toks: seq<Token>,
                                               il: nat, low: nat, pos: nat)
    requires Sized(slots, caps) && il < |caps| && KeptLayer(m, caps, slots, toks, il, low)
    requires (low == 0 || low + caps[il] <= |toks|)
    requires pos <= |toks| && Telling(m)
    ensures SeesPast(m, caps, slots, toks[..pos], il) <==>
      Start(m, il, pos) >= pos || |toks| <= Start(m, il, pos) + caps[il]
  {
    var s := Start(m, il, pos);
    hide RowAt, At, KeptLayer;
    forall p: nat | s <= p < pos ensures Holds(m, caps, slots, toks[..pos], il, p) <==> |toks| <= p + caps[il] {
      StaleSlot(m, caps, slots, toks, il, low, pos, p);
    }
    RangeHeld(m, caps, slots, toks[..pos], il, s);
    SeenFrom(m, caps, slots, toks[..pos], il);
    if s < pos { assert Holds(m, caps, slots, toks[..pos], il, s) <==> |toks| <= s + caps[il]; }
  }

  lemma SeenFrom<V, R, G>(m: Model<V, R, G>, caps: seq<nat>, slots: Slots<R>, toks: seq<Token>, il: nat)
    requires Sized(slots, caps) && il < |caps|
    ensures SeesPast(m, caps, slots, toks, il) <==> KeptLayer(m, caps, slots, toks, il, Start(m, il, |toks|))
  {
  }

  lemma RangeHeld<V, R, G>(m: Model<V, R, G>, caps: seq<nat>, slots: Slots<R>, toks: seq<Token>, il: nat, s: nat)
    requires Sized(slots, caps) && il < |caps|
    ensures KeptLayer(m, caps, slots, toks, il, s) <==>
      forall p {:trigger Holds(m, caps, slots, toks, il, p)} :: s <= p < |toks| ==> Holds(m, caps, slots, toks, il, p)
  {
  }

  /** The layers together: with the guard from the full length all is seen, and otherwise something is not. */
  lemma RewindSees<V(!new), R(!new), G(!new)>(m: Model<V, R, G>, caps: seq<nat>, slots: Slots<R>, toks: seq<Token>,
                                              lows: seq<nat>, pos: nat)
    requires Kept(m, caps, slots, toks, lows) && pos <= |toks| && Forward(caps, lows, |toks|)
    ensures Sized(slots, caps)
    ensures GuardFrom(m, caps, pos, |toks|) ==>
      forall il :: 0 <= il < |caps| ==> SeesPast(m, caps, slots, toks[..pos], il)
    ensures Telling(m) ==>
      (GuardFrom(m, caps, pos, |toks|) <==> forall il :: 0 <= il < |caps| ==> SeesPast(m, caps, slots, toks[..pos], il))
  {
    hide KeptLayer, SeesPast, Telling, Start;
    forall il | 0 <= il < |caps|
      ensures Start(m, il, pos) >= pos || |toks| <= Start(m, il, pos) + caps[il] ==>
        SeesPast(m, caps, slots, toks[..pos], il)
      ensures Telling(m) ==>
        (Start(m, il, pos) >= pos || |toks| <= Start(m, il, pos) + caps[il] <==>
        SeesPast(m, caps, slots, toks[..pos], il))
    {
      assert KeptLayer(m, caps, slots, toks, il, lows[il]);
      if Start(m, il, pos) >= pos || |toks| <= Start(m, il, pos) + caps[il] {
        SeenWhenKept(m, caps, slots, toks, il, lows[il], pos);
      }
      if Telling(m) { RewindExact(m, caps, slots, toks, il, lows[il], pos); }
    }
  }

  lemma SeenWhenKept<V, R, G>(m: Model<V, R, G>, caps: seq<nat>, slots: Slots<R>, toks: seq<Token>, il: nat, low: nat,
                              pos: nat)
    requires Sized(slots, caps) && il < |caps| && KeptLayer(m, caps, slots, toks, il, low) && pos <= |toks|
    requires low <= Start(m, il, pos) || Start(m, il, pos) >= pos
    ensures SeesPast(m, caps, slots, toks[..pos], il)
  {
    if low <= Start(m, il, pos) { KeptLess(m, caps, slots, toks, il, low, pos, Start(m, il, pos)); }
  }

  /** The rewind guard looks at the live length only. Two rewinds that both pass it, then one token:
      the logits are the cold ones if and only if the guard also holds from the length before the
      first rewind, provided the network tells its inputs. */
  method RewindTwice<V(!new), R(!new), G(!new)>(s: Session<V, R, G>, a: nat, b: nat, token: Token)
    returns (first: bool, second: bool, ok: bool, failed: bool)
    requires s.Valid() && s.ForwardOnly() && s.valid && b < a < |s.checkpoint|
    modifies s, s.rings
    ensures first <==> GuardHolds(s.m, s.caps, a, old(|s.checkpoint|))
    ensures first ==> (second <==> GuardHolds(s.m, s.caps, b, a))
    ensures first && second && ok ==> s.checkpoint == old(s.checkpoint)[..b] + [token]
    ensures first && second && ok && GuardFrom(s.m, s.caps, b, old(|s.checkpoint|)) ==>
      s.logits == ColdLogits(s.m, s.checkpoint)
    ensures first && second && ok && Telling(s.m) ==>
      (s.logits == ColdLogits(s.m, s.checkpoint) <==> GuardFrom(s.m, s.caps, b, old(|s.checkpoint|)))
  {
    ghost var m, caps, slots, toks := s.m, s.caps, s.slots, s.checkpoint;
    RewindSees(m, caps, slots, toks, s.lows, b);
    RingsAreWide(m, s.ctx, caps, s.prefillCap, b);
    assert toks[..a][..b] == toks[..b];
    hide Kept, Telling, CapsOk, Sized, Wide, Session.Sane, Session.Valid, SeesPast, GuardHolds, GuardFrom, Start;
    s.ValidParts();
    s.SanePart();
    second, ok, failed := false, false, false;
    first := s.PreservesKv(a);
    if !first { return; }
    s.Rewind(a);
    second := s.PreservesKv(b);
    if !second { return; }
    s.Rewind(b);
    WarmExact(m, caps, slots, toks[..b], token);
    ok, failed := s.Eval(token, true);
  }

  /** A full layer of 4096 and a ring of 768 for a window of 512: from 2000 tokens back to 1900 and then
      to 1700 both pass the guard, and the ring's row of position 1189 is gone. */
  lemma SecondRewind<V, R, G>(m: Model<V, R, G>, caps: seq<nat>)
    requires m.window == 512 && m.full(0) && !m.full(1) && caps == [4096, SlidingCap(512, 4096, 256)]
    ensures GuardHolds(m, caps, 1900, 2000) && GuardHolds(m, caps, 1700, 1900) && !GuardFrom(m, caps, 1700, 2000)
    ensures Start(m, 1, 1700) == 1189 && Newest(1189, 2000, caps[1]) == 1957
  {
    assert caps[1] == 768;
    assert Start(m, 1, 1700) < 1700 && Start(m, 1, 1900) == 1389;
    assert Newest(1957, 2000, 768) == 1957;
  }
}
