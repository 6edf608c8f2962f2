/** Tokenizing whole texts, with the added tokens matched first, and rendering tokens back to text. */
module Rendering {
  import opened Basics
  import opened Bytes
  import opened TokBytes
  import opened Bpe
  import opened PieceRules
  import opened Pretokenizer

  /** bpe_tokenize_text as a function. */
  ghost function TextTokensFrom(v: Vocab, s: Str, pos: nat): seq<int>
    requires pos <= |s|
    decreases |s| - pos
  {
    if pos == |s| then [] else PieceTokens(v, s[pos..PieceEnd(s, pos)]) + TextTokensFrom(v, s, PieceEnd(s, pos))
  }

  ghost function TextTokens(v: Vocab, s: Str): seq<int> {
    TextTokensFrom(v, s, 0)
  }

  /** The places cut s from a place to its end by the rules. */
  ghost predicate CutsObey(s: Str, from: nat, cuts: seq<nat>) {
    && |cuts| > 0 && cuts[0] == from && cuts[|cuts| - 1] == |s|
    && forall i :: 0 <= i < |cuts| - 1 ==> CutAt(s, cuts, i)
  }

  ghost predicate CutAt(s: Str, cuts: seq<nat>, i: nat)
    requires i + 1 < |cuts|
  {
    cuts[i] < cuts[i + 1] <= |s| && Obeys(s, cuts[i], cuts[i + 1])
  }

  /** The tokens of the pieces from the k-th on. */
  ghost function PiecesFrom(v: Vocab, s: Str, cuts: seq<nat>, k: nat): seq<int>
    requires CutsObey(s, 0, cuts) && k < |cuts|
    decreases |cuts| - k
  {
    if k == |cuts| - 1 then [] else
      assert CutAt(s, cuts, k);
      PieceTokens(v, s[cuts[k]..cuts[k + 1]]) + PiecesFrom(v, s, cuts, k + 1)
  }

  lemma {:induction false} ByTheRulesFrom(v: Vocab, s: Str, cuts: seq<nat>, k: nat)
    requires CutsObey(s, 0, cuts) && k < |cuts|
    ensures cuts[k] <= |s| && TextTokensFrom(v, s, cuts[k]) == PiecesFrom(v, s, cuts, k)
    decreases |cuts| - k
  {
    hide Obeys, PieceEnd, PieceTokens;
    if k < |cuts| - 1 {
      assert CutAt(s, cuts, k);
      ByTheRulesFrom(v, s, cuts, k + 1);
      PieceObeys(s, cuts[k]);
      OnePiece(s, cuts[k], cuts[k + 1], PieceEnd(s, cuts[k]));
    }
  }

  /** The tokens of a text are those of its pieces, in the one way to cut it by the rules. */
  lemma ByTheRules(v: Vocab, s: Str, cuts: seq<nat>)
    requires CutsObey(s, 0, cuts)
    ensures TextTokens(v, s) == PiecesFrom(v, s, cuts, 0)
  {
    ByTheRulesFrom(v, s, cuts, 0);
  }

  lemma {:induction false} CutsFrom(s: Str, pos: nat) returns (cuts: seq<nat>)
    requires pos <= |s|
    ensures CutsObey(s, pos, cuts)
    decreases |s| - pos
  {
    hide Obeys, PieceEnd;
    if pos == |s| {
      cuts := [pos];
    } else {
      PieceObeys(s, pos);
      var rest := CutsFrom(s, PieceEnd(s, pos));
      cuts := [pos] + rest;
      forall i | 0 <= i < |cuts| - 1 ensures CutAt(s, cuts, i) {
        if i > 0 { assert CutAt(s, rest, i - 1); }
      }
    }
  }

  /** There is such a way for every text. */
  lemma CutsExist(s: Str)
    ensures exists cuts :: CutsObey(s, 0, cuts)
  {
    var cuts := CutsFrom(s, 0);
    assert CutsObey(s, 0, cuts);
  }

  predicate Matches(a: Added, s: Str, pos: nat)
    requires pos <= |s|
  {
    a.text <= s[pos..]
  }

  /** The first of the longest added tokens that the text continues with. */
  ghost predicate IsLongest(added: seq<Added>, s: Str, pos: nat, i: int)
    requires pos <= |s|
  {
    && 0 <= i < |added| && |added[i].text| > 0 && Matches(added[i], s, pos)
    && forall j :: 0 <= j < |added| && Matches(added[j], s, pos) ==>
      |added[j].text| <= |added[i].text| && (j < i ==> |added[j].text| < |added[i].text|)
  }

  ghost function AddedAt(added: seq<Added>, s: Str, pos: nat): (r: Option<Added>)
    requires pos <= |s|
    ensures r.Some? ==>
      r.value.id >= 0 && 0 < |r.value.text| <= |s| - pos && Matches(r.value, s, pos) && r.value in added
  {
    if i :| IsLongest(added, s, pos, i) then if added[i].id >= 0 then Some(added[i]) else None else None
  }

  lemma LongestUnique(added: seq<Added>, s: Str, pos: nat, i: int)
    requires pos <= |s| && IsLongest(added, s, pos, i)
    ensures AddedAt(added, s, pos) == if added[i].id >= 0 then Some(added[i]) else None
  {
    assert forall j :: IsLongest(added, s, pos, j) ==> j == i;
  }

  /** tokenize_rendered_chat_vocab as a function: the plain text since span is pending at p. */
  ghost function ChatFrom(v: Vocab, s: Str, span: nat, p: nat): seq<int>
    requires span <= p <= |s|
    decreases |s| - p
  {
    if p == |s| then TextTokens(v, s[span..p])
    else match AddedAt(v.added, s, p)
      case Some(a) => TextTokens(v, s[span..p]) + [a.id] + ChatFrom(v, s, p + |a.text|, p + |a.text|)
      case None => ChatFrom(v, s, span, p + 1)
  }

  ghost function ChatTokens(v: Vocab, s: Str): seq<int> {
    ChatFrom(v, s, 0, 0)
  }

  /** The tokens of a text render to the text. */
  lemma {:induction false} RenderTextFrom(v: Vocab, s: Str, pos: nat)
    requires WellFormed(v) && pos <= |s|
    ensures Render(v, TextTokensFrom(v, s, pos)) == s[pos..]
    decreases |s| - pos
  {
    hide WellFormed, Render, PieceTokens, PieceEnd;
    if pos == |s| {
      RenderNothing(v);
    } else {
      var end := PieceEnd(s, pos);
      RenderPiece(v, s[pos..end]);
      RenderTextFrom(v, s, end);
      RenderMore(v, PieceTokens(v, s[pos..end]), TextTokensFrom(v, s, end));
      assert s[pos..end] + s[end..] == s[pos..];
    }
  }

  lemma RenderNothing(v: Vocab)
    ensures Render(v, []) == []
  {
  }

  lemma RenderAdded(v: Vocab, a: Added)
    requires AddedFound(v) && a in v.added && a.id >= 0
    ensures Render(v, [a.id]) == a.text
  {
    var i :| 0 <= i < |v.added| && v.added[i] == a;
    assert [a.id][1..] == [];
  }

  lemma RenderText(v: Vocab, s: Str)
    requires WellFormed(v)
    ensures Render(v, TextTokens(v, s)) == s
  {
    RenderTextFrom(v, s, 0);
  }

  lemma RenderThree(v: Vocab, before: seq<int>, a: Added, after: seq<int>)
    requires WellFormed(v) && a in v.added && a.id >= 0
    ensures Render(v, before + [a.id] + after) == Render(v, before) + a.text + Render(v, after)
  {
    RenderAdded(v, a);
    RenderMore(v, before + [a.id], after);
    RenderMore(v, before, [a.id]);
  }

  /** Rendering undoes tokenizing: for any text, wherever its added tokens lie. */
  lemma {:induction false} RenderChatFrom(v: Vocab, s: Str, span: nat, p: nat)
    requires WellFormed(v) && span <= p <= |s|
    ensures Render(v, ChatFrom(v, s, span, p)) == s[span..]
    decreases |s| - p
  {
    hide *;
    if p == |s| {
      AtTheEnd(v, s, span);
    } else {
      match AddedAt(v.added, s, p)
      case Some(a) =>
        RenderChatFrom(v, s, p + |a.text|, p + |a.text|);
        AddedStep(v, s, span, p, a);
      case None =>
        RenderChatFrom(v, s, span, p + 1);
        PlainStep(v, s, span, p);
    }
  }

  lemma AtTheEnd(v: Vocab, s: Str, span: nat)
    requires WellFormed(v) && span <= |s|
    ensures Render(v, ChatFrom(v, s, span, |s|)) == s[span..]
  {
    RenderText(v, s[span..|s|]);
    hide WellFormed, Render, TextTokens;
  }

  lemma PlainStep(v: Vocab, s: Str, span: nat, p: nat)
    requires span <= p < |s| && AddedAt(v.added, s, p).None?
    ensures ChatFrom(v, s, span, p) == ChatFrom(v, s, span, p + 1)
  {
    hide TextTokens;
  }

  lemma AddedStep(v: Vocab, s: Str, span: nat, p: nat, a: Added)
    requires WellFormed(v) && span <= p < |s| && AddedAt(v.added, s, p) == Some(a)
    requires Render(v, ChatFrom(v, s, p + |a.text|, p + |a.text|)) == s[p + |a.text|..]
    ensures Render(v, ChatFrom(v, s, span, p)) == s[span..]
  {
    hide *;
    var next := p + |a.text|;
    AddedUnfolds(v, s, span, p, a);
    RenderText(v, s[span..p]);
    RestOf(s, span, p, a);
    RenderThree(v, TextTokens(v, s[span..p]), a, ChatFrom(v, s, next, next));
  }

  lemma AddedUnfolds(v: Vocab, s: Str, span: nat, p: nat, a: Added)
    requires span <= p < |s| && AddedAt(v.added, s, p) == Some(a)
    ensures ChatFrom(v, s, span, p) == TextTokens(v, s[span..p]) + [a.id] + ChatFrom(v, s, p + |a.text|, p + |a.text|)
  {
    hide TextTokens;
  }

  lemma RestOf(s: Str, span: nat, p: nat, a: Added)
    requires span <= p <= |s| && Matches(a, s, p)
    ensures p + |a.text| <= |s| && s[span..p] + a.text + s[p + |a.text|..] == s[span..]
  {
    assert s[p..][..|a.text|] == a.text;
    assert s[p..] == a.text + s[p + |a.text|..];
    assert s[span..] == s[span..p] + s[p..];
  }

  lemma RenderChat(v: Vocab, s: Str)
    requires WellFormed(v)
    ensures Render(v, ChatTokens(v, s)) == s
  {
    RenderChatFrom(v, s, 0, 0);
  }

  /** After a token-text hit the effective prompt renders to the incoming prompt: whatever tokens the
      cached session holds, if they render to a prefix of the prompt, then with the rest tokenized
      behind them they render to all of it. */
  lemma EffectivePrompt(v: Vocab, cached: seq<int>, prompt: Str, n: nat)
    requires WellFormed(v) && n <= |prompt| && Render(v, cached) == prompt[..n]
    ensures Render(v, cached + ChatTokens(v, prompt[n..])) == prompt
  {
    RenderChat(v, prompt[n..]);
    RenderMore(v, cached, ChatTokens(v, prompt[n..]));
    hide *;
    assert prompt[..n] + prompt[n..] == prompt;
  }
}
