/** Emitting the tokens of a piece with the tables, the added tokens, and rendering back. */
module Tokenizer {
  import opened Basics
  import opened Bytes
  import opened TokBytes
  import opened Bpe
  import opened Rendering
  import Pretokenizer
  import StrTable

  /** sf37_tokens. */
  class Tokens {
    var v: seq<int>

    constructor ()
      ensures v == []
    {
      v := [];
    }

    method Push(token: int)
      modifies this
      ensures v == old(v) + [token]
    {
      v := v + [token];
    }
  }

  class Tokenizer {
    const ids: StrTable.StrTable
    const ranks: StrTable.StrTable
    const tokens: seq<Option<Str>>
    const added: seq<Added>

    constructor (ids: StrTable.StrTable, ranks: StrTable.StrTable, tokens: seq<Option<Str>>, added: seq<Added>)
      ensures this.ids == ids && this.ranks == ranks && this.tokens == tokens && this.added == added
    {
      this.ids, this.ranks, this.tokens, this.added := ids, ranks, tokens, added;
    }

    ghost predicate Valid()
      reads ids, ids.entry, ranks, ranks.entry
    {
      ids.Valid() && ranks.Valid()
    }

    ghost function Vocabulary(): Vocab
      reads ids, ranks
    {
      Vocab(ids.contents, ranks.contents, tokens, added)
    }

    /** bpe_rank. */
    method FindRank(a: Str, b: Str) returns (rank: int)
      requires Valid()
      ensures rank == Rank(ranks.contents, a, b)
    {
      var found, value := ranks.Get(a + [32] + b);
      rank := if found then value else -1;
    }

    /** The scan for the pair to merge next. */
    method FindBest(sym: array<Str>, n: nat) returns (best: int)
      requires Valid() && n <= sym.Length
      ensures best < 0 ==> forall i :: !MergeableAt(ranks.contents, sym[..n], i)
      ensures best >= 0 ==> best + 1 < n && IsBest(ranks.contents, sym[..n], best)
    {
      hide StrTable.StrTable.Valid;
      best := -1;
      var bestRank := INT_MAX;
      ghost var syms := sym[..n];
      var i := 0;
      while i + 1 < n
        invariant 0 <= i && syms == sym[..n]
        invariant BestSoFar(ranks.contents, syms, i, best, bestRank)
      {
        var rank := FindRank(sym[i], sym[i + 1]);
        if 0 <= rank && rank < bestRank {
          bestRank, best := rank, i;
        }
        i := i + 1;
      }
    }

    /** The symbols from i + 2 on move down over the one that was merged into its left neighbour. */
    method CloseGap(sym: array<Str>, i: nat, n: nat)
      requires i + 1 < n <= sym.Length
      modifies sym
      ensures sym[..n - 1] == old(sym[..i + 1]) + old(sym[i + 2..n])
    {
      var j := i + 1;
      while j + 1 < n
        invariant i + 1 <= j <= n - 1
        invariant forall k :: 0 <= k <= i ==> sym[k] == old(sym[k])
        invariant forall k :: i < k < j ==> sym[k] == old(sym[k + 1])
        invariant forall k :: j <= k < n ==> sym[k] == old(sym[k])
      {
        sym[j] := sym[j + 1];
        j := j + 1;
      }
    }

    method MergePair(sym: array<Str>, i: nat, n: nat)
      requires i + 1 < n <= sym.Length
      modifies sym
      ensures sym[..n - 1] == MergedAt(old(sym[..n]), i)
    {
      ghost var was := sym[..n];
      sym[i] := sym[i] + sym[i + 1];
      assert sym[..i + 1] == was[..i] + [was[i] + was[i + 1]] && sym[i + 2..n] == was[i + 2..];
      CloseGap(sym, i, n);
    }

    /** bpe_emit_piece. */
    method EmitPiece(piece: Str, out: Tokens)
      requires Valid()
      modifies out
      ensures out.v == old(out.v) + PieceTokens(Vocabulary(), piece)
    {
      hide StrTable.StrTable.Valid, Merged, IsBest, MergeableAt, Encode, Chars, TokensOfSyms;
      var encoded := ByteEncode(piece);
      var sym, n := SplitSymbols(encoded);
      ghost var start := sym[..n];
      while true
        invariant 0 <= n <= sym.Length && out.v == old(out.v)
        invariant Merged(ranks.contents, sym[..n]) == Merged(ranks.contents, start)
        decreases n
      {
        var best := FindBest(sym, n);
        if best < 0 { break; }
        MergeBest(ranks.contents, sym[..n], best);
        MergePair(sym, best, n);
        n := n - 1;
      }
      NothingToMerge(ranks.contents, sym[..n]);
      EmitSymbols(sym, n, out);
    }

    method EmitSymbols(sym: array<Str>, n: nat, out: Tokens)
      requires Valid() && n <= sym.Length
      modifies out
      ensures out.v == old(out.v) + TokensOfSyms(ids.contents, sym[..n])
    {
      hide StrTable.StrTable.Valid;
      var i := 0;
      while i < n
        invariant 0 <= i <= n
        invariant out.v == old(out.v) + TokensOfSyms(ids.contents, sym[..i])
      {
        assert sym[..i + 1][..i] == sym[..i];
        var found, token := ids.Get(sym[i]);
        if found {
          out.Push(token);
        } else {
          EmitBytes(sym[i], out);
        }
        i := i + 1;
      }
    }

    /** A symbol that is no token: those of its bytes that are. */
    method EmitBytes(sym: Str, out: Tokens)
      requires Valid()
      modifies out
      ensures out.v == old(out.v) + TokensOfBytes(ids.contents, sym)
    {
      hide StrTable.StrTable.Valid;
      var j := 0;
      while j < |sym|
        invariant 0 <= j <= |sym|
        invariant out.v == old(out.v) + TokensOfBytes(ids.contents, sym[..j])
      {
        assert sym[..j + 1][..j] == sym[..j];
        var found, token := ids.Get([sym[j]]);
        if found { out.Push(token); }
        j := j + 1;
      }
      assert sym[..|sym|] == sym;
    }

    static lemma TextStep(v: Bpe.Vocab, s: Str, pos: nat)
      requires pos < |s|
      ensures pos < Pretokenizer.PieceEnd(s, pos) <= |s|
      ensures TextTokensFrom(v, s, pos) ==
        PieceTokens(v, s[pos..Pretokenizer.PieceEnd(s, pos)]) + TextTokensFrom(v, s, Pretokenizer.PieceEnd(s, pos))
    {
    }

    static lemma TextEnds(v: Bpe.Vocab, s: Str)
      ensures TextTokensFrom(v, s, 0) == TextTokens(v, s) && TextTokensFrom(v, s, |s|) == []
    {
    }

    /** bpe_tokenize_text. */
    method TokenizeText(text: Str, out: Tokens)
      requires Valid()
      modifies out
      ensures out.v == old(out.v) + TextTokens(Vocabulary(), text)
    {
      hide *;
      TextEnds(Vocabulary(), text);
      var pos := 0;
      while pos < |text|
        invariant pos <= |text|
        invariant out.v + TextTokensFrom(Vocabulary(), text, pos) == old(out.v) + TextTokens(Vocabulary(), text)
      {
        var start := pos;
        TextStep(Vocabulary(), text, pos);
        pos := Pretokenizer.CutPiece(text, pos);
        EmitPiece(text[start..pos], out);
      }
    }

    /** added_token_at. */
    method AddedTokenAt(s: Str, p: nat) returns (found: bool, token: int, len: nat)
      requires p <= |s|
      ensures found <==> AddedAt(added, s, p).Some?
      ensures found ==> var a := AddedAt(added, s, p).value; token == a.id && len == |a.text|
    {
      var best, bestLen := -1, 0;
      ghost var at := -1;
      var i := 0;
      while i < |added|
        invariant 0 <= i <= |added| && bestLen >= 0
        invariant LongestSoFar(added[..i], s, p, at, bestLen)
        invariant best == if at < 0 then -1 else added[at].id
      {
        var a := added[i];
        if |a.text| > bestLen && a.text <= s[p..] {
          best, bestLen, at := a.id, |a.text|, i;
        }
        i := i + 1;
      }
      assert added[..|added|] == added;
      LongestFound(added, s, p, at, bestLen);
      return best >= 0, best, bestLen;
    }

    /** tokenize_rendered_chat_vocab. */
    method TokenizeRenderedChat(text: Str, out: Tokens)
      requires Valid()
      modifies out
      ensures out.v == old(out.v) + ChatTokens(Vocabulary(), text)
    {
      hide StrTable.StrTable.Valid, TextTokens, AddedAt;
      var span, p := 0, 0;
      while p < |text|
        invariant 0 <= span <= p <= |text|
        invariant out.v + ChatFrom(Vocabulary(), text, span, p) == old(out.v) + ChatTokens(Vocabulary(), text)
      {
        var found, token, len := AddedTokenAt(text, p);
        if found {
          TokenizeText(text[span..p], out);
          out.Push(token);
          p := p + len;
          span := p;
        } else {
          p := p + 1;
        }
      }
      TokenizeText(text[span..p], out);
    }

    /** sf37_token_text. */
    method TextOf(token: int) returns (text: Str)
      ensures text == TokenText(Vocabulary(), token)
    {
      if token < 0 || token >= |tokens| || tokens[token].None? { return []; }
      var raw := tokens[token].value;
      var i := 0;
      while i < |added|
        invariant 0 <= i <= |added| && forall j :: 0 <= j < i ==> added[j].id != token
      {
        if added[i].id == token { return raw; }
        i := i + 1;
      }
      text := DecodeText(raw);
    }

    /** sf37_kvstore_render_tokens_text. */
    method RenderTokens(toks: seq<int>) returns (text: Str)
      ensures text == Render(Vocabulary(), toks)
    {
      text := [];
      var i := 0;
      while i < |toks|
        invariant 0 <= i <= |toks|
        invariant text == Render(Vocabulary(), toks[..i])
      {
        hide *;
        var piece := TextOf(toks[i]);
        RenderOne(Vocabulary(), toks, i);
        text := text + piece;
        i := i + 1;
      }
      assert toks[..|toks|] == toks;
    }

    /** sf37_kvstore_build_prompt_from_exact_prefix_and_text_suffix. */
    method BuildPrompt(prefix: seq<int>, suffix: Str, out: Tokens)
      requires Valid()
      modifies out
      ensures out.v == prefix + ChatTokens(Vocabulary(), suffix)
    {
      hide *;
      out.v := prefix;
      var rest := new Tokens();
      TokenizeRenderedChat(suffix, rest);
      out.v := out.v + rest.v;
    }
  }

  ghost predicate LongestSoFar(added: seq<Added>, s: Str, p: nat, at: int, len: nat)
    requires p <= |s|
  {
    if at < 0 then len == 0 && forall j :: 0 <= j < |added| && Matches(added[j], s, p) ==> |added[j].text| == 0
    else IsLongest(added, s, p, at) && len == |added[at].text|
  }

  lemma LongestFound(added: seq<Added>, s: Str, p: nat, at: int, len: nat)
    requires p <= |s| && LongestSoFar(added, s, p, at, len)
    ensures AddedAt(added, s, p) == if at >= 0 && added[at].id >= 0 then Some(added[at]) else None
  {
    if at >= 0 {
      LongestUnique(added, s, p, at);
    } else {
      assert forall i :: !IsLongest(added, s, p, i);
    }
  }

  lemma RenderOne(v: Vocab, toks: seq<int>, i: nat)
    requires i < |toks|
    ensures Render(v, toks[..i + 1]) == Render(v, toks[..i]) + TokenText(v, toks[i])
  {
    hide TokenText;
    assert toks[..i + 1] == toks[..i] + [toks[i]];
    RenderMore(v, toks[..i], [toks[i]]);
    assert [toks[i]][1..] == [];
  }

  /** Cutting the encoded piece into characters. */
  method SplitSymbols(encoded: Str) returns (sym: array<Str>, n: nat)
    ensures n <= sym.Length && sym[..n] == Chars(encoded) && fresh(sym)
  {
    sym := new Str[|encoded|](_ => []);
    n := 0;
    var off := 0;
    while off < |encoded|
      invariant n <= off && n <= sym.Length && CutTo(encoded, sym[..n], off)
    {
      hide *;
      var next := NextChar(encoded, off);
      CutOne(encoded, sym[..n], off);
      ghost var was := sym[..n];
      sym[n] := encoded[off..next];
      n := n + 1;
      assert sym[..n] == was + [encoded[off..next]];
      off := next;
    }
  }

  ghost predicate CutTo(encoded: Str, syms: seq<Str>, off: nat) {
    off <= |encoded| && syms + Chars(encoded[off..]) == Chars(encoded)
  }

  lemma CutOne(encoded: Str, syms: seq<Str>, off: nat)
    requires off < |encoded| && CutTo(encoded, syms, off)
    ensures CutTo(encoded, syms + [encoded[off..NextChar(encoded, off)]], NextChar(encoded, off))
  {
    var next := NextChar(encoded, off);
    SuffixPeek(encoded, off);
    assert encoded[off..][..next - off] == encoded[off..next] && encoded[off..][next - off..] == encoded[next..];
    assert (syms + [encoded[off..next]]) + Chars(encoded[next..]) ==
      syms + ([encoded[off..next]] + Chars(encoded[next..]));
  }

  ghost predicate BestSoFar(ranks: map<Str, int>, syms: seq<Str>, n: nat, best: int, bestRank: int) {
    if best < 0 then
      bestRank == INT_MAX && forall j :: j < n ==> !MergeableAt(ranks, syms, j)
    else
      && best < n && MergeableAt(ranks, syms, best) && bestRank == Rank(ranks, syms[best], syms[best + 1])
      && forall j :: j < n && MergeableAt(ranks, syms, j) ==> Sooner(ranks, syms, best, j)
  }

  lemma MergeBest(ranks: map<Str, int>, syms: seq<Str>, i: int)
    requires IsBest(ranks, syms, i)
    ensures Merged(ranks, syms) == Merged(ranks, MergedAt(syms, i))
  {
    forall j | IsBest(ranks, syms, j) ensures j == i {
      BestUnique(ranks, syms, i, j);
    }
  }

  lemma NothingToMerge(ranks: map<Str, int>, syms: seq<Str>)
    requires forall i :: !MergeableAt(ranks, syms, i)
    ensures Merged(ranks, syms) == syms
  {
  }
}
