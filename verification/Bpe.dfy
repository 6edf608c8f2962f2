/** Byte-pair merging of the symbols of a piece, and what its tokens render to. */
module Bpe {
  import opened Basics
  import opened Bytes
  import opened TokBytes

  const INT_MAX: int := 0x7fff_ffff

  datatype Added = Added(id: int, text: Str)

  /** The two tables, the text of every token, and the tokens matched before any merging. */
  datatype Vocab = Vocab(ids: map<Str, int>, ranks: map<Str, int>, tokens: seq<Option<Str>>, added: seq<Added>)

  function Concat(syms: seq<Str>): Str {
    if syms == [] then [] else syms[0] + Concat(syms[1..])
  }

  /** A merge is looked up under its two sides with a blank between them. */
  function Key(a: Str, b: Str): Str {
    a + [32] + b
  }

  function Rank(ranks: map<Str, int>, a: Str, b: Str): int {
    if Key(a, b) in ranks then ranks[Key(a, b)] else -1
  }

  predicate Mergeable(ranks: map<Str, int>, a: Str, b: Str) {
    0 <= Rank(ranks, a, b) < INT_MAX
  }

  predicate MergeableAt(ranks: map<Str, int>, syms: seq<Str>, i: int) {
    0 <= i && i + 1 < |syms| && Mergeable(ranks, syms[i], syms[i + 1])
  }

  /** The leftmost of the mergeable pairs with the lowest rank. */
  ghost predicate IsBest(ranks: map<Str, int>, syms: seq<Str>, i: int) {
    && MergeableAt(ranks, syms, i)
    && forall j :: MergeableAt(ranks, syms, j) ==> Sooner(ranks, syms, i, j)
  }

  predicate Sooner(ranks: map<Str, int>, syms: seq<Str>, i: int, j: int)
    requires 0 <= i && i + 1 < |syms| && 0 <= j && j + 1 < |syms|
  {
    var a, b := Rank(ranks, syms[i], syms[i + 1]), Rank(ranks, syms[j], syms[j + 1]);
    a < b || (a == b && i <= j)
  }

  function MergedAt<T>(syms: seq<seq<T>>, i: int): (r: seq<seq<T>>)
    requires 0 <= i && i + 1 < |syms|
    ensures |r| == |syms| - 1
  {
    syms[..i] + [syms[i] + syms[i + 1]] + syms[i + 2..]
  }

  lemma MergedAtIndex<T>(syms: seq<seq<T>>, i: int, k: int)
    requires 0 <= i && i + 1 < |syms| && 0 <= k < |syms| - 1
    ensures MergedAt(syms, i)[k] == if k < i then syms[k] else if k == i then syms[i] + syms[i + 1] else syms[k + 1]
  {
  }

  /** The symbols left when best pairs are merged until there is none. */
  ghost function Merged(ranks: map<Str, int>, syms: seq<Str>): seq<Str>
    decreases |syms|
  {
    if i :| IsBest(ranks, syms, i) then Merged(ranks, MergedAt(syms, i)) else syms
  }

  lemma BestUnique(ranks: map<Str, int>, syms: seq<Str>, i: int, j: int)
    requires IsBest(ranks, syms, i) && IsBest(ranks, syms, j)
    ensures i == j
  {
    assert Sooner(ranks, syms, i, j) && Sooner(ranks, syms, j, i);
  }

  /** The best of the pairs up to n, if any of them is mergeable. */
  lemma {:induction false} BestExists(ranks: map<Str, int>, syms: seq<Str>, n: nat) returns (i: int)
    ensures (exists j :: j < n && MergeableAt(ranks, syms, j)) ==> i < n && MergeableAt(ranks, syms, i)
    ensures forall j :: j < n && MergeableAt(ranks, syms, j) ==>
      MergeableAt(ranks, syms, i) && Sooner(ranks, syms, i, j)
  {
    if n == 0 {
      i := 0;
    } else {
      i := BestExists(ranks, syms, n - 1);
      if MergeableAt(ranks, syms, n - 1) &&
        !(i < n - 1 && MergeableAt(ranks, syms, i) && Sooner(ranks, syms, i, n - 1)) {
        i := n - 1;
      }
    }
  }

  lemma BestOrNone(ranks: map<Str, int>, syms: seq<Str>)
    ensures (exists j :: MergeableAt(ranks, syms, j)) ==> exists i :: IsBest(ranks, syms, i)
  {
    var i := BestExists(ranks, syms, |syms|);
    assert MergeableAt(ranks, syms, i) ==> IsBest(ranks, syms, i);
  }

  /** Merging stops only when no pair is mergeable, and never loses or reorders a byte. */
  lemma {:induction false} MergedIsDone(ranks: map<Str, int>, syms: seq<Str>)
    ensures forall i :: !MergeableAt(ranks, Merged(ranks, syms), i)
    ensures Concat(Merged(ranks, syms)) == Concat(syms)
    decreases |syms|
  {
    if i :| IsBest(ranks, syms, i) {
      var j :| IsBest(ranks, syms, j) && Merged(ranks, syms) == Merged(ranks, MergedAt(syms, j));
      MergedIsDone(ranks, MergedAt(syms, j));
      ConcatMergedAt(syms, j);
    } else {
      BestOrNone(ranks, syms);
    }
  }

  lemma {:induction false} ConcatMore(a: seq<Str>, b: seq<Str>)
    ensures Concat(a + b) == Concat(a) + Concat(b)
  {
    if a == [] {
      assert a + b == b;
    } else {
      ConcatMore(a[1..], b);
      assert (a + b)[1..] == a[1..] + b && (a + b)[0] == a[0];
      assert Concat(a + b) == a[0] + (Concat(a[1..]) + Concat(b));
    }
  }

  lemma {:induction false} ConcatMergedAt(syms: seq<Str>, i: int)
    requires 0 <= i && i + 1 < |syms|
    ensures Concat(MergedAt(syms, i)) == Concat(syms)
  {
    if i == 0 {
      assert MergedAt(syms, 0) == [syms[0] + syms[1]] + syms[2..];
      assert syms == [syms[0], syms[1]] + syms[2..];
      ConcatPair(syms[0], syms[1], syms[2..]);
    } else {
      ConcatMergedAt(syms[1..], i - 1);
      assert MergedAt(syms, i)[1..] == MergedAt(syms[1..], i - 1);
    }
  }

  lemma ConcatPair(x: Str, y: Str, b: seq<Str>)
    ensures Concat([x, y] + b) == Concat([x + y] + b)
  {
    assert ([x, y] + b)[1..] == [y] + b;
    assert ([y] + b)[1..] == b && ([x + y] + b)[1..] == b;
    assert x + (y + Concat(b)) == (x + y) + Concat(b);
  }

  /** Which tokens a symbol becomes: its own, or those of its bytes that are tokens. */
  function TokensOfSym(ids: map<Str, int>, sym: Str): seq<int> {
    if sym in ids then [ids[sym]] else TokensOfBytes(ids, sym)
  }

  function TokensOfBytes(ids: map<Str, int>, sym: Str): seq<int> {
    if sym == [] then [] else
      TokensOfBytes(ids, sym[..|sym| - 1]) + if [sym[|sym| - 1]] in ids then [ids[[sym[|sym| - 1]]]] else []
  }

  function TokensOfSyms(ids: map<Str, int>, syms: seq<Str>): seq<int> {
    if syms == [] then [] else TokensOfSyms(ids, syms[..|syms| - 1]) + TokensOfSym(ids, syms[|syms| - 1])
  }

  /** bpe_emit_piece as a function. */
  ghost function PieceTokens(v: Vocab, piece: Str): seq<int> {
    TokensOfSyms(v.ids, Merged(v.ranks, Chars(Encode(piece))))
  }

  predicate IsAdded(v: Vocab, t: int) {
    exists i :: 0 <= i < |v.added| && v.added[i].id == t
  }

  /** sf37_token_text: the text of an added token as it is, that of any other with its bytes read back. */
  ghost function TokenText(v: Vocab, t: int): Str {
    if 0 <= t < |v.tokens| && v.tokens[t].Some? then
      if IsAdded(v, t) then v.tokens[t].value else Decode(v.tokens[t].value)
    else []
  }

  /** sf37_kvstore_render_tokens_text. */
  ghost function Render(v: Vocab, toks: seq<int>): Str {
    if toks == [] then [] else TokenText(v, toks[0]) + Render(v, toks[1..])
  }

  lemma {:induction false} RenderMore(v: Vocab, a: seq<int>, b: seq<int>)
    ensures Render(v, a + b) == Render(v, a) + Render(v, b)
  {
    hide TokenText;
    if a == [] {
      assert a + b == b;
    } else {
      RenderMore(v, a[1..], b);
      assert (a + b)[1..] == a[1..] + b && (a + b)[0] == a[0];
      assert Render(v, a + b) == TokenText(v, a[0]) + (Render(v, a[1..]) + Render(v, b));
    }
  }

  /** What tokenizing relies on: every byte and every merge result is a token, every token has the
      text it was found by, and no added token is spelled like other bytes. */
  ghost predicate WellFormed(v: Vocab) {
    && (forall b: Byte :: Encode([b]) in v.ids)
    && (forall p, q: Str {:trigger Mergeable(v.ranks, Encode(p), Encode(q))} ::
      Mergeable(v.ranks, Encode(p), Encode(q)) ==> Encode(p) + Encode(q) in v.ids)
    && (forall k :: k in v.ids ==> 0 <= v.ids[k] < |v.tokens| && v.tokens[v.ids[k]] == Some(k))
    && (forall p: Str {:trigger Encode(p)} :: Encode(p) in v.ids && IsAdded(v, v.ids[Encode(p)]) ==> Encode(p) == p)
    && AddedFound(v)
  }

  ghost predicate AddedFound(v: Vocab) {
    forall i :: 0 <= i < |v.added| && v.added[i].id >= 0 ==>
      v.added[i].id < |v.tokens| && v.tokens[v.added[i].id] == Some(v.added[i].text)
  }

  lemma KnownText(v: Vocab, p: Str)
    requires WellFormed(v) && Encode(p) in v.ids
    ensures TokenText(v, v.ids[Encode(p)]) == p
  {
    DecodeEncode(p);
  }

  lemma SpellingsMergedAt(parts: seq<Str>, i: int)
    requires 0 <= i && i + 1 < |parts|
    ensures MergedAt(Spellings(parts), i) == Spellings(MergedAt(parts, i))
  {
    hide *;
    EncodeMore(parts[i], parts[i + 1]);
    forall k | 0 <= k < |parts| - 1 ensures MergedAt(Spellings(parts), i)[k] == Spellings(MergedAt(parts, i))[k] {
      MergedAtIndex(parts, i, k);
      MergedAtIndex(Spellings(parts), i, k);
    }
  }

  ghost predicate AllKnown(v: Vocab, parts: seq<Str>) {
    forall i :: 0 <= i < |parts| ==> Encode(parts[i]) in v.ids
  }

  /** Merging spellings gives spellings: of the same bytes in the same order, all of them tokens. */
  lemma {:induction false} MergedSpells(v: Vocab, parts: seq<Str>) returns (out: seq<Str>)
    requires WellFormed(v) && AllKnown(v, parts)
    ensures Merged(v.ranks, Spellings(parts)) == Spellings(out)
    ensures Concat(out) == Concat(parts) && AllKnown(v, out)
    decreases |parts|
  {
    hide WellFormed;
    var syms := Spellings(parts);
    if i :| IsBest(v.ranks, syms, i) {
      var j :| IsBest(v.ranks, syms, j) && Merged(v.ranks, syms) == Merged(v.ranks, MergedAt(syms, j));
      SpellingsMergedAt(parts, j);
      ConcatMergedAt(parts, j);
      KnownMergedAt(v, parts, j);
      out := MergedSpells(v, MergedAt(parts, j));
    } else {
      out := parts;
    }
  }

  lemma KnownMergedAt(v: Vocab, parts: seq<Str>, i: int)
    requires WellFormed(v) && AllKnown(v, parts) && MergeableAt(v.ranks, Spellings(parts), i)
    ensures AllKnown(v, MergedAt(parts, i))
  {
    EncodeMore(parts[i], parts[i + 1]);
    assert Mergeable(v.ranks, Encode(parts[i]), Encode(parts[i + 1]));
    hide WellFormed, Encode, Mergeable, MergedAt;
    forall k | 0 <= k < |parts| - 1 ensures Encode(MergedAt(parts, i)[k]) in v.ids {
      MergedAtIndex(parts, i, k);
    }
  }

  lemma {:induction false} RenderSyms(v: Vocab, parts: seq<Str>)
    requires WellFormed(v) && AllKnown(v, parts)
    ensures Render(v, TokensOfSyms(v.ids, Spellings(parts))) == Concat(parts)
  {
    if parts != [] {
      var init, last := parts[..|parts| - 1], parts[|parts| - 1];
      assert AllKnown(v, init) && Encode(last) in v.ids;
      assert init + [last] == parts && Concat([last]) == last;
      SymsMore(v.ids, init, last);
      hide *;
      RenderSyms(v, init);
      RenderMore(v, TokensOfSyms(v.ids, Spellings(init)), TokensOfSym(v.ids, Encode(last)));
      RenderKnown(v, last);
      ConcatMore(init, [last]);
    }
  }

  lemma SymsMore(ids: map<Str, int>, init: seq<Str>, last: Str)
    ensures TokensOfSyms(ids, Spellings(init + [last])) ==
      TokensOfSyms(ids, Spellings(init)) + TokensOfSym(ids, Encode(last))
  {
    hide TokensOfSym, Encode;
    var syms := Spellings(init + [last]);
    assert |syms| == |init| + 1 && syms[..|init|] == Spellings(init) && syms[|init|] == Encode(last);
    hide Spellings;
    assert TokensOfSyms(ids, syms) == TokensOfSyms(ids, syms[..|syms| - 1]) + TokensOfSym(ids, syms[|syms| - 1]);
  }

  lemma RenderKnown(v: Vocab, p: Str)
    requires WellFormed(v) && Encode(p) in v.ids
    ensures Render(v, TokensOfSym(v.ids, Encode(p))) == p
  {
    KnownText(v, p);
    hide WellFormed, TokenText, Encode;
    var t := TokensOfSym(v.ids, Encode(p));
    assert t == [v.ids[Encode(p)]] && t[1..] == [];
  }

  lemma {:induction false} ConcatSingles(s: Str)
    ensures Concat(Singles(s)) == s
  {
    if s != [] {
      ConcatSingles(s[1..]);
      assert Singles(s)[1..] == Singles(s[1..]);
    }
  }

  /** The tokens of a piece render to the piece. */
  lemma RenderPiece(v: Vocab, piece: Str)
    requires WellFormed(v)
    ensures Render(v, PieceTokens(v, piece)) == piece
  {
    CharsOfEncode(piece);
    ConcatSingles(piece);
    var parts := MergedSpells(v, Singles(piece));
    RenderSyms(v, parts);
  }

  /** A blank never occurs in a spelling, so one entry of the merge table is for one pair of symbols. */
  lemma KeyUnambiguous(p: Str, q: Str, p': Str, q': Str)
    requires Key(Encode(p), Encode(q)) == Key(Encode(p'), Encode(q'))
    ensures p == p' && q == q'
  {
    EncodePrintable(p);
    EncodePrintable(p');
    SameSplit(Encode(p), Encode(q), Encode(p'), Encode(q'));
    DecodeEncode(p);
    DecodeEncode(q);
    DecodeEncode(p');
    DecodeEncode(q');
  }

  lemma SameSplit(a: Str, b: Str, c: Str, d: Str)
    requires Key(a, b) == Key(c, d) && 32 !in a && 32 !in c
    ensures a == c && b == d
  {
    var k := Key(a, b);
    assert k[|a|] == 32 && Key(c, d)[|c|] == 32;
    assert forall i :: 0 <= i < |a| ==> k[i] == a[i] && a[i] in a;
    assert forall i :: 0 <= i < |c| ==> Key(c, d)[i] == c[i] && c[i] in c;
    assert k[..|a|] == a && Key(c, d)[..|c|] == c;
    assert k[|a| + 1..] == b && Key(c, d)[|c| + 1..] == d;
  }
}
