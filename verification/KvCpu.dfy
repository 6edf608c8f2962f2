/** A session without a GPU: every layer keeps its rows in order, the oldest leaves when it is full. */
module KvCpu {
  import opened Basics
  import opened KvTheory

  class Layer<R> {
    const rows: array<R>
    var n: nat

    /** kv_cache_init for one layer. */
    constructor (cap: nat, r0: R)
      requires cap > 0
      ensures n == 0 && rows.Length == cap && fresh(rows)
    {
      rows := new R[cap](_ => r0);
      n := 0;
    }

    ghost predicate Ok()
      reads this
    {
      n <= rows.Length && rows.Length > 0
    }

    function Live(): seq<R>
      requires Ok()
      reads this, rows
    {
      rows[..n]
    }

    /** kv_cache_push: a full cache first loses its oldest row. */
    method Push(r: R)
      requires Ok()
      modifies this`n, rows
      ensures Ok() && n == (if old(n) == rows.Length then old(n) else old(n) + 1)
      ensures Live() == (if old(n) == rows.Length then old(Live())[1..] else old(Live())) + [r]
    {
      if n >= rows.Length {
        ghost var was := rows[..];
        for i := 0 to rows.Length - 1
          invariant forall k :: 0 <= k < i ==> rows[k] == was[k + 1]
          invariant forall k :: i <= k < rows.Length ==> rows[k] == was[k]
        {
          rows[i] := rows[i + 1];
        }
        n := rows.Length - 1;
        assert rows[..n] == was[1..];
      }
      rows[n] := r;
      n := n + 1;
    }

    /** The rows the attention of a layer reads: all, or the last `window`. */
    method Attend(window: nat, sliding: bool) returns (read: seq<R>)
      requires Ok()
      ensures read == Live()[if sliding && n > window then n - window else 0..]
    {
      var start := if sliding && n > window then n - window else 0;
      read := [];
      for r := start to n
        invariant |read| == r - start && forall i :: 0 <= i < |read| ==> read[i] == rows[start + i]
      {
        read := read + [rows[r]];
      }
    }
  }

  // ---- Which rows a layer has -----------------------------------------------------------

  /** The rows of the last n positions of toks. */
  ghost function LastRows<V, R, G>(m: Model<V, R, G>, toks: seq<Token>, il: nat, n: nat): seq<R>
    requires n <= |toks|
  {
    seq(n, i requires 0 <= i < n => RowAt(m, toks, il, |toks| - n + i))
  }

  /** Enough rows for the tokens to come: all, or a window of them. */
  predicate Enough<V, R, G>(m: Model<V, R, G>, il: nat, n: nat, len: nat) {
    n <= len && if m.full(il) then n == len else n >= Min(len, m.window)
  }

  /** The live rows of a layer are those of the last positions, and there are enough of them. */
  ghost predicate Current<V, R, G>(m: Model<V, R, G>, il: nat, live: seq<R>, toks: seq<Token>) {
    Enough(m, il, |live|, |toks|) && live == LastRows(m, toks, il, |live|)
  }

  /** The next row joins; a full sliding layer loses its oldest one. */
  lemma PushCurrent<V, R, G>(m: Model<V, R, G>, il: nat, live: seq<R>, ahead: seq<Token>, cap: nat, live': seq<R>)
    requires |ahead| > 0 && 0 < m.window && |live| <= cap && cap > 0
    requires |ahead| <= cap || (!m.full(il) && m.window <= cap)
    requires Current(m, il, live, ahead[..|ahead| - 1])
    requires live' == (if |live| == cap then live[1..] else live) + [RowAt(m, ahead, il, |ahead| - 1)]
    ensures Current(m, il, live', ahead)
  {
    var drop := if |live| == cap then 1 else 0;
    EnoughMore(m, il, live, ahead, cap);
    KeptRows(m, il, live, ahead, drop);
    assert live' == live[drop..] + [RowAt(m, ahead, il, |ahead| - 1)];
  }

  lemma EnoughMore<V, R, G>(m: Model<V, R, G>, il: nat, live: seq<R>, ahead: seq<Token>, cap: nat)
    requires |ahead| > 0 && 0 < m.window && |live| <= cap && (|ahead| <= cap || (!m.full(il) && m.window <= cap))
    requires Enough(m, il, |live|, |ahead| - 1)
    ensures Enough(m, il, if |live| == cap then |live| else |live| + 1, |ahead|)
  {
  }

  lemma KeptRows<V, R, G>(m: Model<V, R, G>, il: nat, live: seq<R>, ahead: seq<Token>, drop: nat)
    requires |ahead| > 0 && Current(m, il, live, ahead[..|ahead| - 1]) && drop <= |live| <= |ahead| - 1
    ensures live[drop..] + [RowAt(m, ahead, il, |ahead| - 1)] == LastRows(m, ahead, il, |live| - drop + 1)
  {
    var l, r := live[drop..] + [RowAt(m, ahead, il, |ahead| - 1)], LastRows(m, ahead, il, |live| - drop + 1);
    hide RowAt, Current;
    forall i | 0 <= i < |l| ensures l[i] == r[i] {
      if i < |live| - drop { KeptRow(m, il, live, ahead, |ahead| - |l| + i); }
    }
  }

  lemma KeptRow<V, R, G>(m: Model<V, R, G>, il: nat, live: seq<R>, ahead: seq<Token>, p: nat)
    requires |ahead| > 0 && Current(m, il, live, ahead[..|ahead| - 1]) && |ahead| - 1 - |live| <= p < |ahead| - 1
    ensures live[p - (|ahead| - 1 - |live|)] == RowAt(m, ahead, il, p)
  {
    var toks := ahead[..|ahead| - 1];
    assert ahead[..p + 1] == toks[..p + 1];
    Causal(m, ahead, toks, il, p);
  }

  /** What the attention reads are the rows it attends to. */
  lemma AttendCurrent<V, R, G>(m: Model<V, R, G>, il: nat, live: seq<R>, toks: seq<Token>)
    requires toks != [] && Current(m, il, live, toks) && 0 < m.window
    ensures live[if !m.full(il) && |live| > m.window then |live| - m.window else 0..] ==
      Attended(m, toks, il, |toks| - 1)
  {
    var read := live[if !m.full(il) && |live| > m.window then |live| - m.window else 0..];
    var want := Attended(m, toks, il, |toks| - 1);
    assert |read| == |want|;
    forall i | 0 <= i < |read| ensures read[i] == want[i] {
    }
  }

  lemma NoRows<V, R, G>(m: Model<V, R, G>, il: nat, live: seq<R>, toks: seq<Token>)
    requires live == [] && toks == []
    ensures Current(m, il, live, toks)
  {
  }

  /** A prefix of the positions from the first one on. */
  lemma CurrentPrefix<V, R, G>(m: Model<V, R, G>, il: nat, live: seq<R>, toks: seq<Token>, pos: nat)
    requires Current(m, il, live, toks) && |live| == |toks| && pos <= |toks|
    ensures Current(m, il, live[..pos], toks[..pos])
  {
    var l := LastRows(m, toks[..pos], il, pos);
    forall i | 0 <= i < pos ensures live[..pos][i] == l[i] {
      assert toks[..pos][..i + 1] == toks[..i + 1];
      Causal(m, toks, toks[..pos], il, i);
    }
    assert live[..pos] == l;
  }

  // ---- The session -----------------------------------------------------------------------

  class CpuSession<V(!new), R(!new), G(!new)> {
    const m: Model<V, R, G>
    const vocab: nat
    const ctx: nat
    /** Nobody cancels a sync. */
    const steady: bool
    const layers: seq<Layer<R>>
    var checkpoint: seq<Token>
    var valid: bool
    var logits: G
    /** How many tokens were evaluated so far. */
    ghost var work: nat
    /** The tokens whose evaluation gave the logits; none when that is not known. */
    ghost var told: seq<Token>

    constructor (m: Model<V, R, G>, vocab: nat, ctx: nat, r0: R, g0: G, steady: bool)
      requires 0 < m.window && 0 < ctx
      ensures Valid() && Aligned() && this.m == m && this.vocab == vocab && this.ctx == ctx && checkpoint == [] && valid
      ensures Belongs() && this.steady == steady
      ensures forall il :: 0 <= il < |layers| ==> fresh(layers[il]) && fresh(layers[il].rows)
    {
      var made: seq<Layer<R>> := [];
      for il := 0 to m.layers
        invariant |made| == il
        invariant forall l :: 0 <= l < il ==>
          fresh(made[l]) && fresh(made[l].rows) && made[l].n == 0 && made[l].rows.Length == ctx
        invariant forall i, j :: 0 <= i < j < il ==> made[i] != made[j] && made[i].rows != made[j].rows
      {
        var layer := new Layer(ctx, r0);
        made := made + [layer];
      }
      this.m, this.vocab, this.ctx, layers, checkpoint, valid, logits := m, vocab, ctx, made, [], true, g0;
      this.steady, told, work := steady, [], 0;
    }

    ghost predicate Belongs()
      reads this`logits, this`told
    {
      told != [] ==> logits == ColdLogits(m, told)
    }

    /** The buffers hold the whole context, each layer its own. */
    ghost predicate Sane()
      reads layers
    {
      && |layers| == m.layers && 0 < m.window && 0 < ctx
      && (forall il {:trigger layers[il]} :: 0 <= il < |layers| ==> layers[il].Ok() && layers[il].rows.Length == ctx)
      && (forall i, j {:trigger layers[i], layers[j]} ::
            0 <= i < j < |layers| ==> layers[i] != layers[j] && layers[i].rows != layers[j].rows)
    }

    ghost function Buffers(): set<array<R>> {
      set il | 0 <= il < |layers| :: layers[il].rows
    }

    /** Layer il has seen toks. */
    ghost predicate Seen(il: nat, toks: seq<Token>)
      requires il < |layers|
      reads layers[il], layers[il].rows
    {
      layers[il].Ok() && Current(m, il, layers[il].Live(), toks)
    }

    ghost predicate Valid()
      reads this`checkpoint, layers, Buffers()
    {
      Sane() && |checkpoint| <= ctx && forall il :: 0 <= il < |layers| ==> Seen(il, checkpoint)
    }

    /** Every layer still has the row of every position, at the index of the position. */
    ghost predicate Aligned()
      reads this`checkpoint, layers
    {
      forall il {:trigger layers[il]} :: 0 <= il < |layers| ==> layers[il].n == |checkpoint|
    }

    /** run_layer_decode: the row is pushed, then the layer attends. */
    method DecodeLayer(il: nat, x: V, ghost ahead: seq<Token>) returns (x': V)
      requires Sane() && il < |layers| && |ahead| == |checkpoint| + 1 <= ctx && ahead[..|checkpoint|] == checkpoint
      requires Seen(il, checkpoint) && x == Hidden(m, ahead, il, |checkpoint|)
      modifies layers[il], layers[il].rows
      ensures Sane() && Seen(il, ahead) && x' == Hidden(m, ahead, il + 1, |checkpoint|)
      ensures old(layers[il].n) == |checkpoint| ==> layers[il].n == |checkpoint| + 1
    {
      var pos := |checkpoint|;
      ghost var live := layers[il].Live();
      layers[il].Push(m.row(il, pos, x));
      PushCurrent(m, il, live, ahead, ctx, layers[il].Live());
      AttendCurrent(m, il, layers[il].Live(), ahead);
      var read := layers[il].Attend(m.window, !m.full(il));
      x' := m.mix(il, pos, x, read);
    }

    lemma SeenAll()
      requires Valid()
      ensures Sane() && |checkpoint| <= ctx && |layers| == m.layers
      ensures forall il :: 0 <= il < |layers| ==> Seen(il, checkpoint)
      ensures Aligned() <==> forall il {:trigger layers[il]} :: 0 <= il < |layers| ==> layers[il].n == |checkpoint|
    {
    }

    lemma AllSeen()
      requires Sane() && |checkpoint| <= ctx && forall il :: 0 <= il < |layers| ==> Seen(il, checkpoint)
      ensures Valid()
    {
    }

    lemma InBuffers(k: nat)
      requires k < |layers|
      ensures layers[k] in layers && layers[k].rows in Buffers()
    {
    }

    lemma StartsCold(ahead: seq<Token>)
      requires |ahead| == |checkpoint| + 1 && checkpoint <= ahead
      ensures ahead[..|checkpoint|] == checkpoint
      ensures Hidden(m, ahead, 0, |checkpoint|) == m.embed(ahead[|checkpoint|])
    {
    }

    /** All layers for one token. */
    method DecodeAll(token: Token, ghost ahead: seq<Token>) returns (x: V)
      requires Valid() && |checkpoint| < ctx && ahead == checkpoint + [token]
      modifies layers, Buffers()
      ensures Sane() && (forall il :: 0 <= il < |layers| ==> Seen(il, ahead))
      ensures x == Hidden(m, ahead, m.layers, |checkpoint|)
      ensures old(Aligned()) ==> forall il {:trigger layers[il]} :: 0 <= il < |layers| ==> layers[il].n == |ahead|
    {
      hide *;
      x := m.embed(token);
      SeenAll();
      StartsCold(ahead);
      for k := 0 to m.layers
        invariant Sane() && x == Hidden(m, ahead, k, |checkpoint|)
        invariant forall il :: 0 <= il < k ==> Seen(il, ahead)
        invariant forall il :: k <= il < |layers| ==> Seen(il, checkpoint)
        invariant forall il {:trigger layers[il]} :: k <= il < |layers| ==> layers[il].n == old(layers[il].n)
        invariant old(Aligned()) ==> forall il {:trigger layers[il]} :: 0 <= il < k ==> layers[il].n == |ahead|
      {
        InBuffers(k);
        x := DecodeLayer(k, x, ahead);
      }
    }

    /** sf37_session_eval_internal without a GPU: nothing can fail but the checks. */
    method Eval(token: Token, needLogits: bool) returns (ok: bool)
      requires Valid()
      modifies this, layers, Buffers()
      ensures Valid() && (old(Aligned()) ==> Aligned())
      ensures ok <==> 0 <= token < vocab && |old(checkpoint)| < ctx
      ensures !ok ==> checkpoint == old(checkpoint) && valid == old(valid)
      ensures ok ==> checkpoint == old(checkpoint) + [token] && valid && work == old(work) + 1
      ensures
        if ok && needLogits then told == checkpoint && logits == ColdLogits(m, checkpoint)
        else told == old(told) && logits == old(logits)
    {
      hide *;
      SeenAll();
      if !(0 <= token < vocab) || |checkpoint| >= ctx { return false; }
      ghost var ahead := checkpoint + [token];
      work := work + 1;
      var x := DecodeAll(token, ahead);
      LogitsOf(m, ahead);
      if needLogits { logits, told := m.out(x), ahead; }
      checkpoint, valid, ok := checkpoint + [token], true, true;
      AllSeen();
      SeenAll();
    }

    method SetCounts(n: nat)
      requires Sane() && n <= ctx
      modifies layers
      ensures Sane() && forall il {:trigger layers[il]} :: 0 <= il < |layers| ==> layers[il].n == n
    {
      for k := 0 to |layers|
        invariant Sane() && forall il {:trigger layers[il]} :: 0 <= il < k ==> layers[il].n == n
      {
        layers[k].n := n;
      }
    }

    /** sf37_session_rewind: the row count of every layer becomes the position. Rows that a layer had
        dropped or never loaded are not brought back. */
    method Rewind(pos: int)
      requires Sane() && |checkpoint| <= ctx
      modifies this`checkpoint, this`valid, layers
      ensures var n := if pos < 0 then 0 else if pos > |old(checkpoint)| then |old(checkpoint)| else pos;
        checkpoint == old(checkpoint)[..n] && valid
      ensures Sane() && Aligned()
      ensures old(Valid() && Aligned()) ==> Valid()
      ensures checkpoint == [] ==> Valid()
    {
      var n := if pos < 0 then 0 else if pos > |checkpoint| then |checkpoint| else pos;
      SetCounts(n);
      checkpoint, valid := checkpoint[..n], true;
      forall il | 0 <= il < |layers| && (n == 0 || old(Valid() && Aligned())) ensures Seen(il, checkpoint) {
        if n == 0 {
          NoRows(m, il, layers[il].Live(), checkpoint);
        } else {
          assert old(Seen(il, checkpoint));
          CurrentPrefix(m, il, old(layers[il].Live()), old(checkpoint), n);
          assert layers[il].Live() == old(layers[il].Live())[..n];
        }
      }
    }

    /** sf37_session_common_prefix */
    method CommonPrefix(prompt: seq<Token>) returns (i: nat)
      ensures i <= |checkpoint| && i <= |prompt|
      ensures (!valid ==> i == 0) && checkpoint[..i] == prompt[..i]
      ensures valid && i < |checkpoint| && i < |prompt| ==> checkpoint[i] != prompt[i]
    {
      i := 0;
      if !valid { return; }
      while i < |checkpoint| && i < |prompt| && checkpoint[i] == prompt[i]
        invariant i <= |checkpoint| && i <= |prompt| && checkpoint[..i] == prompt[..i]
      {
        i := i + 1;
      }
    }

    /** sf37_session_sync without a GPU and without images; it may be cancelled between tokens and
        otherwise succeeds for a prompt that fits, of tokens that there are. The logits are
        those of the prompt unless the valid checkpoint was the prompt already, when they stay what they
        were. Only what the checkpoint lacks is evaluated, if the prompt continues it. Only a sync that adds
        tokens to the checkpoint needs a row for every position. */
    method Sync(prompt: seq<Token>) returns (ok: bool, cancelled: bool)
      requires Valid() && (Aligned() || !valid || checkpoint == [] || !(checkpoint < prompt))
      modifies this, layers, Buffers()
      ensures Valid() && (ok ==> checkpoint == prompt && valid) && (old(Aligned()) ==> Aligned())
      ensures cancelled ==> !steady && !ok
      ensures ok ==> work == old(work) + |prompt| - Reused(old(valid), old(checkpoint), prompt)
      ensures !cancelled && |prompt| <= ctx && (forall i :: 0 <= i < |prompt| ==> 0 <= prompt[i] < vocab) ==> ok
      ensures |prompt| > ctx ==> !ok && !cancelled && checkpoint == old(checkpoint) && valid == old(valid)
      ensures |prompt| <= ctx ==> checkpoint <= prompt
      ensures ok && !(old(valid) && old(checkpoint) == prompt) && prompt != [] ==>
        told == prompt && logits == ColdLogits(m, prompt)
      ensures old(valid) && old(checkpoint) == prompt && prompt != [] ==>
        ok && told == old(told) && logits == old(logits)
      ensures old(Belongs()) ==> Belongs()
    {
      if |prompt| > ctx { return false, false; }
      hide Valid, Aligned, Current, Reused;
      var common := CommonPrefix(prompt);
      ReusedIs(valid, checkpoint, prompt, common);
      if !valid || common == 0 || common < |checkpoint| {
        SaneNow();
        Rewind(0);
        common := 0;
      } else if common < |prompt| {
        SaneNow();
        Rewind(common);
      }
      assert checkpoint == prompt[..common];
      ghost var aligned := Aligned();
      for i := common to |prompt|
        invariant Valid() && valid && (aligned ==> Aligned()) && checkpoint == prompt[..i]
        invariant work == old(work) + (i - common)
        invariant
          if common < i == |prompt| then told == prompt && logits == ColdLogits(m, prompt)
          else told == old(told) && logits == old(logits)
      {
        cancelled :| cancelled ==> !steady;
        if cancelled { return false, true; }
        ok := Eval(prompt[i], i + 1 == |prompt|);
        if !ok { return; }
        assert checkpoint == prompt[..i + 1];
        if i + 1 == |prompt| { assert prompt[..i + 1] == prompt; }
        cancelled :| cancelled ==> !steady;
        if cancelled { return false, true; }
      }
      assert prompt[..|prompt|] == prompt;
      return true, false;
    }

    lemma SaneNow()
      requires Valid()
      ensures Sane() && |checkpoint| <= ctx
    {
    }
  }

  /** After a successful sync the logits are those of the prompt if and only if something was evaluated
      or the evaluation that gave them was of the prompt. */
  method SyncExact<V(!new), R(!new), G(!new)>(s: CpuSession<V, R, G>, prompt: seq<Token>)
    returns (ok: bool, cancelled: bool)
    requires s.Valid() && (s.Aligned() || !s.valid || s.checkpoint == [] || !(s.checkpoint < prompt))
    requires s.Belongs() && s.told != [] && prompt != []
    requires Telling(s.m) && s.m.layers > 0 && s.m.full(0)
    modifies s, s.layers, s.Buffers()
    ensures ok ==> s.checkpoint == prompt
    ensures (cancelled ==> !s.steady && !ok) &&
      (!cancelled && |prompt| <= s.ctx && (forall i :: 0 <= i < |prompt| ==> 0 <= prompt[i] < s.vocab) ==> ok)
    ensures ok ==>
      (s.logits == ColdLogits(s.m, prompt) <==> !(old(s.valid) && old(s.checkpoint) == prompt) || old(s.told) == prompt)
  {
    hide CpuSession.Valid, CpuSession.Aligned, ColdLogits, Telling;
    ok, cancelled := s.Sync(prompt);
    if ok { ColdTells(s.m, s.told, prompt); }
  }

  // ---- When the rewind in sync is right -----------------------------------------------------

  /** A layer that misses its first rows has none of the others at the index of its position. */
  lemma ShiftedRow<V(!new), R(!new), G(!new)>(m: Model<V, R, G>, il: nat, live: seq<R>, toks: seq<Token>, i: nat)
    requires Current(m, il, live, toks) && i < |live| && Telling(m)
    ensures live[i] == RowAt(m, toks, il, i) <==> |live| == |toks|
  {
    var p := |toks| - |live| + i;
    assert live[i] == RowAt(m, toks, il, p);
  }

  /** Before it adds tokens, sync rewinds to the checkpoint's own length. After a load with fewer rows
      than tokens in a sliding layer that breaks the cache: the session is still right if and only if
      every layer had a row for every position. */
  method RewindInPlace<V(!new), R(!new), G(!new)>(s: CpuSession<V, R, G>)
    requires s.Valid() && s.checkpoint != [] && Telling(s.m)
    modifies s`checkpoint, s`valid, s.layers
    ensures s.checkpoint == old(s.checkpoint) && s.valid && s.Sane()
    ensures s.Valid() <==> old(s.Aligned())
  {
    ghost var toks := s.checkpoint;
    assert toks[..|toks|] == toks;
    forall il {:trigger s.layers[il]} | 0 <= il < |s.layers|
      ensures s.layers[il].n > 0 && (s.layers[il].rows[0] == RowAt(s.m, toks, il, 0) <==> s.layers[il].n == |toks|)
    {
      assert s.Seen(il, toks);
      ShiftedRow(s.m, il, s.layers[il].Live(), toks, 0);
    }
    s.Rewind(|s.checkpoint|);
    if s.Valid() {
      forall il | 0 <= il < |s.layers| ensures old(s.layers[il].n) == |toks| {
        assert s.Seen(il, toks);
        FirstRow(s.m, il, s.layers[il].Live(), toks);
      }
    }
  }

  lemma FirstRow<V, R, G>(m: Model<V, R, G>, il: nat, live: seq<R>, toks: seq<Token>)
    requires Current(m, il, live, toks) && |live| == |toks| > 0
    ensures live[0] == RowAt(m, toks, il, 0)
  {
  }

  /** A payload saved from rings of 768 rows at 1000 tokens, loaded without a GPU, window 512: after the
      rewind in sync the first row read, at index 489, is that of position 721. */
  lemma RingRowsInOrder<V, R, G>(m: Model<V, R, G>, il: nat, live: seq<R>, toks: seq<Token>)
    requires m.window == 512 && !m.full(il) && |toks| == 1000 && |live| == 768 && Current(m, il, live, toks)
    ensures Start(m, il, 1000) == 489 && live[489] == RowAt(m, toks, il, 721)
  {
  }
}
