/** The printer of generated text, which finds thinking tags even when they arrive in pieces. */
module TokenPrinter {
  import opened Basics
  import opened Bytes

  const THINK_OPEN: Str := [60, 116, 104, 105, 110, 107, 62]
  const THINK_CLOSE: Str := [60, 47, 116, 104, 105, 110, 107, 62]
  const RESET: Str := [27, 91, 48, 109]
  const GREY: Str := [27, 91, 57, 48, 109]
  const THINKING_LABEL: Str := [91, 116, 104, 105, 110, 107, 105, 110, 103, 93]
  const ANSWER_LABEL: Str := [91, 97, 110, 115, 119, 101, 114, 93]
  const NEWLINE: Byte := 10

  datatype Style = Style(formatThinking: bool, useColor: bool)

  /** What has been printed, and what the next character depends on. */
  datatype Screen = Screen(out: Str, inThink: bool, colorOpen: bool, lastNewline: bool, thinkingLabel: bool,
    answerLabel: bool)

  function ResetColor(c: Style, s: Screen): Screen {
    if c.useColor && s.colorOpen then s.(out := s.out + RESET, colorOpen := false) else s
  }

  function SetGrey(c: Style, s: Screen): Screen {
    if c.useColor && !s.colorOpen then s.(out := s.out + GREY, colorOpen := true) else s
  }

  function EmitLabel(c: Style, s: Screen, text: Str): Screen {
    var r := ResetColor(c, s);
    r.(out := r.out + (if r.lastNewline then [] else [NEWLINE]) + text + [NEWLINE], lastNewline := true)
  }

  function WriteChar(c: Style, s: Screen, b: Byte): Screen {
    var r :=
      if s.inThink then
        SetGrey(c, if s.thinkingLabel then s else EmitLabel(c, s, THINKING_LABEL).(thinkingLabel := true))
      else
        ResetColor(c, if s.answerLabel then s else EmitLabel(c, s, ANSWER_LABEL).(answerLabel := true));
    r.(out := r.out + [b], lastNewline := b == NEWLINE)
  }

  function CloseThink(c: Style, s: Screen): Screen {
    var r := if s.inThink && !s.lastNewline then
      var t := ResetColor(c, s);
      t.(out := t.out + [NEWLINE], lastNewline := true)
    else s;
    ResetColor(c, r.(inThink := false))
  }

  /** The whole text at once: tags switch, everything else is printed. */
  function Scan(c: Style, s: Screen, text: Str): Screen
    decreases |text|
  {
    if text == [] then s
    else if THINK_OPEN <= text then Scan(c, s.(inThink := true), text[|THINK_OPEN|..])
    else if THINK_CLOSE <= text then Scan(c, CloseThink(c, s), text[|THINK_CLOSE|..])
    else Scan(c, WriteChar(c, s, text[0]), text[1..])
  }

  predicate Partial(text: Str) {
    |text| > 0 && ((|text| < |THINK_OPEN| && text <= THINK_OPEN) || (|text| < |THINK_CLOSE| && text <= THINK_CLOSE))
  }

  datatype Progress = Progress(screen: Screen, pending: Str)

  /** One call: what may still become a tag is held back. */
  function Feed(c: Style, s: Screen, buf: Str): Progress
    decreases |buf|
  {
    if buf == [] || Partial(buf) then Progress(s, buf)
    else if THINK_OPEN <= buf then Feed(c, s.(inThink := true), buf[|THINK_OPEN|..])
    else if THINK_CLOSE <= buf then Feed(c, CloseThink(c, s), buf[|THINK_CLOSE|..])
    else Feed(c, WriteChar(c, s, buf[0]), buf[1..])
  }

  /** What one call makes of its buffer: with finish all of it is printed. */
  function Goal(c: Style, s: Screen, buf: Str, finish: bool): Progress {
    if finish then Progress(Scan(c, s, buf), []) else Feed(c, s, buf)
  }

  /** Plain printing, without looking for tags. */
  function Plain(s: Screen, text: Str): Screen {
    if text == [] then s else s.(out := s.out + text, lastNewline := text[|text| - 1] == NEWLINE)
  }

  function Write(c: Style, p: Progress, text: Str): Progress {
    if c.formatThinking then Feed(c, p.screen, p.pending + text) else Progress(Plain(p.screen, text), p.pending)
  }

  function Finish(c: Style, p: Progress): Screen {
    ResetColor(c, if c.formatThinking then Scan(c, p.screen, p.pending) else p.screen)
  }

  function WriteAll(c: Style, p: Progress, chunks: seq<Str>): Progress
    decreases |chunks|
  {
    if chunks == [] then p else WriteAll(c, Write(c, p, chunks[0]), chunks[1..])
  }

  function Concat(chunks: seq<Str>): Str {
    if chunks == [] then [] else chunks[0] + Concat(chunks[1..])
  }

  /** A tag that is not there yet, and cannot come any more. */
  lemma NoTagLater(buf: Str, rest: Str, tag: Str)
    requires buf != [] && !(tag <= buf) && !(|buf| < |tag| && buf <= tag)
    ensures !(tag <= buf + rest)
  {
    PrefixOfBoth(buf, rest, tag);
  }

  lemma PrefixOfBoth(buf: Str, rest: Str, tag: Str)
    ensures tag <= buf + rest ==> tag <= buf || (|buf| < |tag| && buf <= tag)
  {
    if tag <= buf + rest {
      var n := if |tag| < |buf| then |tag| else |buf|;
      assert tag[..n] == (buf + rest)[..n] == buf[..n];
      assert tag[..|tag|] == tag && buf[..|buf|] == buf;
    }
  }

  lemma OnOpen(c: Style, s: Screen, cur: Str)
    requires THINK_OPEN <= cur
    ensures !Partial(cur) && Scan(c, s, cur) == Scan(c, s.(inThink := true), cur[|THINK_OPEN|..])
    ensures Feed(c, s, cur) == Feed(c, s.(inThink := true), cur[|THINK_OPEN|..])
  {
    assert cur[1] == THINK_OPEN[1] && THINK_OPEN[1] != THINK_CLOSE[1];
  }

  lemma OnClose(c: Style, s: Screen, cur: Str)
    requires THINK_CLOSE <= cur
    ensures !Partial(cur) && Scan(c, s, cur) == Scan(c, CloseThink(c, s), cur[|THINK_CLOSE|..])
    ensures Feed(c, s, cur) == Feed(c, CloseThink(c, s), cur[|THINK_CLOSE|..])
  {
    assert cur[1] == THINK_CLOSE[1];
  }

  lemma OnChar(c: Style, s: Screen, cur: Str)
    requires cur != [] && !(THINK_OPEN <= cur) && !(THINK_CLOSE <= cur)
    ensures Scan(c, s, cur) == Scan(c, WriteChar(c, s, cur[0]), cur[1..])
    ensures Feed(c, s, cur) == if Partial(cur) then Progress(s, cur) else Feed(c, WriteChar(c, s, cur[0]), cur[1..])
  {
  }

  lemma OnHeld(c: Style, s: Screen, cur: Str)
    requires cur == [] || Partial(cur)
    ensures Feed(c, s, cur) == Progress(s, cur)
  {
  }

  /** What is held back, followed by anything, has the same effect as all of it from the start. */
  lemma {:induction false} FeedThenScan(c: Style, s: Screen, buf: Str, rest: Str)
    ensures var p := Feed(c, s, buf); Scan(c, p.screen, p.pending + rest) == Scan(c, s, buf + rest)
    decreases |buf|
  {
    hide Scan, Feed, WriteChar, CloseThink, Partial;
    if buf == [] || Partial(buf) {
      OnHeld(c, s, buf);
    } else if THINK_OPEN <= buf {
      FeedThenScan(c, s.(inThink := true), buf[|THINK_OPEN|..], rest);
      OnOpen(c, s, buf);
      OnOpen(c, s, buf + rest);
      assert (buf + rest)[|THINK_OPEN|..] == buf[|THINK_OPEN|..] + rest;
    } else if THINK_CLOSE <= buf {
      FeedThenScan(c, CloseThink(c, s), buf[|THINK_CLOSE|..], rest);
      OnClose(c, s, buf);
      OnClose(c, s, buf + rest);
      assert (buf + rest)[|THINK_CLOSE|..] == buf[|THINK_CLOSE|..] + rest;
    } else {
      FeedThenScan(c, WriteChar(c, s, buf[0]), buf[1..], rest);
      NeverTag(buf, rest);
      OnChar(c, s, buf);
      OnChar(c, s, buf + rest);
      assert (buf + rest)[1..] == buf[1..] + rest;
    }
  }

  lemma NeverTag(buf: Str, rest: Str)
    requires buf != [] && !Partial(buf) && !(THINK_OPEN <= buf) && !(THINK_CLOSE <= buf)
    ensures !(THINK_OPEN <= buf + rest) && !(THINK_CLOSE <= buf + rest)
  {
    NoTagLater(buf, rest, THINK_OPEN);
    NoTagLater(buf, rest, THINK_CLOSE);
  }

  lemma {:induction false} FeedHoldsPartial(c: Style, s: Screen, buf: Str)
    ensures var p := Feed(c, s, buf).pending; p == [] || Partial(p)
    decreases |buf|
  {
    hide WriteChar, CloseThink;
    if buf == [] || Partial(buf) {
    } else if THINK_OPEN <= buf {
      FeedHoldsPartial(c, s.(inThink := true), buf[|THINK_OPEN|..]);
    } else if THINK_CLOSE <= buf {
      FeedHoldsPartial(c, CloseThink(c, s), buf[|THINK_CLOSE|..]);
    } else {
      FeedHoldsPartial(c, WriteChar(c, s, buf[0]), buf[1..]);
    }
  }

  /** However a text is cut into calls, writing the pieces and finishing prints the same. */
  lemma {:induction false} ChunksDoNotMatter(c: Style, p: Progress, chunks: seq<Str>)
    ensures Finish(c, WriteAll(c, p, chunks)) == ResetColor(c,
      if c.formatThinking then Scan(c, p.screen, p.pending + Concat(chunks)) else Plain(p.screen, Concat(chunks)))
    decreases |chunks|
  {
    hide Scan, Feed, ResetColor, Plain;
    if chunks == [] {
      assert p.pending + [] == p.pending;
      PlainNothing(p.screen);
    } else {
      ChunksDoNotMatter(c, Write(c, p, chunks[0]), chunks[1..]);
      if c.formatThinking {
        FeedThenScan(c, p.screen, p.pending + chunks[0], Concat(chunks[1..]));
        assert p.pending + chunks[0] + Concat(chunks[1..]) == p.pending + Concat(chunks);
      } else {
        PlainTwice(p.screen, chunks[0], Concat(chunks[1..]));
      }
    }
  }

  lemma PlainNothing(s: Screen)
    ensures Plain(s, []) == s
  {
  }

  lemma PlainTwice(s: Screen, a: Str, b: Str)
    ensures Plain(Plain(s, a), b) == Plain(s, a + b)
  {
    assert (s.out + a) + b == s.out + (a + b);
    if b == [] { assert a + b == a; }
    if a == [] { assert a + b == b; }
  }

  /** The pieces print what one call prints. */
  lemma AnySplitLikeOneCall(c: Style, p: Progress, chunks: seq<Str>)
    ensures Finish(c, WriteAll(c, p, chunks)) == Finish(c, WriteAll(c, p, [Concat(chunks)]))
  {
    ChunksDoNotMatter(c, p, chunks);
    ChunksDoNotMatter(c, p, [Concat(chunks)]);
    assert Concat([Concat(chunks)]) == Concat(chunks);
  }

  // ---- What is on the screen -------------------------------------------------------------------

  /** Neither tag occurs in the text. */
  ghost predicate Tagless(text: Str) {
    forall i {:trigger text[i..]} :: 0 <= i <= |text| ==> !(THINK_OPEN <= text[i..]) && !(THINK_CLOSE <= text[i..])
  }

  lemma TaglessRest(text: Str)
    requires Tagless(text) && text != []
    ensures Tagless(text[1..]) && !(THINK_OPEN <= text) && !(THINK_CLOSE <= text)
  {
    assert text[0..] == text;
    forall i | 0 <= i <= |text[1..]|
      ensures !(THINK_OPEN <= text[1..][i..]) && !(THINK_CLOSE <= text[1..][i..]) {
      assert text[1..][i..] == text[i + 1..];
    }
  }

  /** Without a tag nothing switches. */
  lemma {:induction false} NoSwitch(c: Style, s: Screen, text: Str)
    requires Tagless(text)
    ensures Scan(c, s, text).inThink == s.inThink
    decreases |text|
  {
    if text != [] {
      TaglessRest(text);
      NoSwitch(c, WriteChar(c, s, text[0]), text[1..]);
    }
  }

  /** A tag begins with its only '<'. */
  lemma NoOverlap(a: Str, tag: Str, b: Str, early: Str)
    requires tag in {THINK_OPEN, THINK_CLOSE} && early in {THINK_OPEN, THINK_CLOSE} && a != []
    ensures early <= a + (tag + b) ==> early <= a
  {
    var text := a + (tag + b);
    if |a| < |early| {
      OnlyFirst(early, |a|);
      assert text[|a|] == 60;
      Differs(early, text, |a|);
    } else {
      assert early <= text ==> early == text[..|early|] == a[..|early|];
    }
  }

  lemma Differs(a: Str, b: Str, k: nat)
    requires k < |a| && k < |b| && a[k] != b[k]
    ensures !(a <= b)
  {
  }

  lemma OnlyFirst(tag: Str, k: nat)
    requires tag in {THINK_OPEN, THINK_CLOSE} && 0 < k < |tag|
    ensures tag[k] != 60
  {
  }

  /** Whatever came before, after the last tag the text is a thought if and only if that tag opens one. */
  lemma {:induction false} LastTagDecides(c: Style, s: Screen, a: Str, tag: Str, b: Str)
    requires tag in {THINK_OPEN, THINK_CLOSE} && Tagless(b)
    ensures Scan(c, s, a + (tag + b)).inThink <==> tag == THINK_OPEN
    decreases |a|
  {
    if a == [] {
      assert a + (tag + b) == tag + b;
      LastTag(c, s, tag, b);
    } else {
      var n, s' := FirstStep(c, s, a, tag, b);
      hide *;
      LastTagDecides(c, s', a[n..], tag, b);
    }
  }

  /** The scan of what comes before a tag goes on before the tag. */
  lemma FirstStep(c: Style, s: Screen, a: Str, tag: Str, b: Str) returns (n: nat, s': Screen)
    requires tag in {THINK_OPEN, THINK_CLOSE} && a != []
    ensures 0 < n <= |a| && Scan(c, s, a + (tag + b)) == Scan(c, s', a[n..] + (tag + b))
  {
    var text := a + (tag + b);
    NoOverlap(a, tag, b, THINK_OPEN);
    NoOverlap(a, tag, b, THINK_CLOSE);
    n, s' := 1, WriteChar(c, s, a[0]);
    hide Scan, WriteChar, CloseThink;
    if THINK_OPEN <= text {
      OnOpen(c, s, text);
      n, s' := |THINK_OPEN|, s.(inThink := true);
    } else if THINK_CLOSE <= text {
      OnClose(c, s, text);
      n, s' := |THINK_CLOSE|, CloseThink(c, s);
    } else {
      OnChar(c, s, text);
    }
    DropLeft(a, tag + b, n);
  }

  lemma DropLeft(a: Str, x: Str, n: nat)
    requires 0 < n <= |a|
    ensures (a + x)[n..] == a[n..] + x && (a + x)[0] == a[0]
  {
  }

  lemma LastTag(c: Style, s: Screen, tag: Str, b: Str)
    requires tag in {THINK_OPEN, THINK_CLOSE} && Tagless(b)
    ensures Scan(c, s, tag + b).inThink <==> tag == THINK_OPEN
  {
    var text := tag + b;
    assert text[|tag|..] == b && tag <= text;
    if tag == THINK_OPEN {
      OnOpen(c, s, text);
      NoSwitch(c, s.(inThink := true), b);
    } else {
      OnClose(c, s, text);
      NoSwitch(c, CloseThink(c, s), b);
    }
  }

  /** A byte of the text, or something that was added. */
  datatype Piece = Own(b: Byte, thought: bool) | Added(d: Str)

  /** The bytes of the text without its tags, each with whether it is part of a thought. */
  function Marked(text: Str, thought: bool): seq<(Byte, bool)>
    decreases |text|
  {
    if text == [] then []
    else if THINK_OPEN <= text then Marked(text[|THINK_OPEN|..], true)
    else if THINK_CLOSE <= text then Marked(text[|THINK_CLOSE|..], false)
    else [(text[0], thought)] + Marked(text[1..], thought)
  }

  function Spelled(ps: seq<Piece>): Str {
    if ps == [] then [] else
      var p := ps[|ps| - 1];
      Spelled(ps[..|ps| - 1]) + if p.Own? then [p.b] else p.d
  }

  function OwnBytes(ps: seq<Piece>): seq<(Byte, bool)> {
    if ps == [] then [] else
      var p := ps[|ps| - 1];
      OwnBytes(ps[..|ps| - 1]) + if p.Own? then [(p.b, p.thought)] else []
  }

  /** The text is grey after these pieces. */
  predicate Grey(s0: Screen, ps: seq<Piece>) {
    if ps == [] then s0.colorOpen else
      var p := ps[|ps| - 1];
      p == Added(GREY) || (p != Added(RESET) && Grey(s0, ps[..|ps| - 1]))
  }

  /** What follows these pieces begins a line. */
  predicate LineStart(s0: Screen, ps: seq<Piece>) {
    if ps == [] then s0.lastNewline else
      match ps[|ps| - 1]
      case Own(b, _) => b == NEWLINE
      case Added(d) => d == [NEWLINE] || (d in [RESET, GREY] && LineStart(s0, ps[..|ps| - 1]))
  }

  function LabelOf(thought: bool): Str {
    if thought then THINKING_LABEL else ANSWER_LABEL
  }

  /** The label of thoughts, or that of answers, is there. */
  predicate HasLabel(s0: Screen, ps: seq<Piece>, thought: bool) {
    if ps == [] then (if thought then s0.thinkingLabel else s0.answerLabel) else
      ps[|ps| - 1] == Added(LabelOf(thought)) || HasLabel(s0, ps[..|ps| - 1], thought)
  }

  predicate AfterLabel(ps: seq<Piece>) {
    ps != [] && (ps[|ps| - 1] == Added(THINKING_LABEL) || ps[|ps| - 1] == Added(ANSWER_LABEL))
  }

  /** The last byte of the text was part of a thought. */
  predicate AfterThought(ps: seq<Piece>) {
    ps != [] && if ps[|ps| - 1].Own? then ps[|ps| - 1].thought else AfterThought(ps[..|ps| - 1])
  }

  /** Piece p may follow the pieces. A byte of the text comes under its label and, with colors, is grey in
      a thought and only there; an answer after a thought begins a line. A label comes once, on a line of
      its own, and is not grey. Colors and ends of lines are added only where they change something. */
  predicate MayFollow(c: Style, s0: Screen, ps: seq<Piece>, p: Piece) {
    match p
    case Own(_, thought) =>
      && HasLabel(s0, ps, thought) && !AfterLabel(ps) && (c.useColor ==> Grey(s0, ps) == thought)
      && (!thought && AfterThought(ps) ==> LineStart(s0, ps))
    case Added(d) =>
      if AfterLabel(ps) then d == [NEWLINE]
      else if d == [NEWLINE] then !LineStart(s0, ps)
      else if d == RESET then c.useColor && Grey(s0, ps)
      else if d == GREY then c.useColor && !Grey(s0, ps)
      else
        && LineStart(s0, ps) && !(c.useColor && Grey(s0, ps))
        && ((d == THINKING_LABEL && !HasLabel(s0, ps, true)) || (d == ANSWER_LABEL && !HasLabel(s0, ps, false)))
  }

  /** Every piece may follow those before it, and after a label its line was ended. */
  ghost predicate Proper(c: Style, s0: Screen, ps: seq<Piece>) {
    ps == [] || (Proper(c, s0, ps[..|ps| - 1]) && MayFollow(c, s0, ps[..|ps| - 1], ps[|ps| - 1]))
  }

  /** Between two bytes of the text, and with no label waiting for the end of its line, the screen shows
      the pieces after what it showed before. */
  ghost predicate Settled(c: Style, s0: Screen, ps: seq<Piece>, s: Screen, own: seq<(Byte, bool)>) {
    && Proper(c, s0, ps) && s.out == s0.out + Spelled(ps) && OwnBytes(ps) == own && !AfterLabel(ps)
    && s.colorOpen == Grey(s0, ps) && s.lastNewline == LineStart(s0, ps)
    && s.thinkingLabel == HasLabel(s0, ps, true) && s.answerLabel == HasLabel(s0, ps, false)
    && (!s.inThink && AfterThought(ps) ==> s.lastNewline)
  }

  lemma OneMore(c: Style, s0: Screen, ps: seq<Piece>, p: Piece, own: seq<(Byte, bool)>)
    requires OwnBytes(ps) == own && MayFollow(c, s0, ps, p) && Proper(c, s0, ps)
    ensures var r := ps + [p]; Proper(c, s0, r) && Spelled(r) == Spelled(ps) + if p.Own? then [p.b] else p.d
    ensures var r := ps + [p]; OwnBytes(r) == own + if p.Own? then [(p.b, p.thought)] else []
    ensures var r := ps + [p]; Grey(s0, r) == (p == Added(GREY) || (p != Added(RESET) && Grey(s0, ps)))
    ensures var r := ps + [p];
      LineStart(s0, r) ==
        if p.Own? then p.b == NEWLINE else p.d == [NEWLINE] || (p.d in [RESET, GREY] && LineStart(s0, ps))
    ensures forall t :: HasLabel(s0, ps + [p], t) == (p == Added(LabelOf(t)) || HasLabel(s0, ps, t))
    ensures AfterLabel(ps + [p]) == (p == Added(THINKING_LABEL) || p == Added(ANSWER_LABEL))
    ensures AfterThought(ps + [p]) == if p.Own? then p.thought else AfterThought(ps)
  {
    assert (ps + [p])[..|ps|] == ps;
    hide MayFollow;
  }

  /** Switching the color off, or grey on. */
  lemma Recolored(c: Style, s0: Screen, ps: seq<Piece>, s: Screen, own: seq<(Byte, bool)>)
    returns (r: seq<Piece>, g: seq<Piece>)
    requires Settled(c, s0, ps, s, own)
    ensures Settled(c, s0, r, ResetColor(c, s), own) && Settled(c, s0, g, SetGrey(c, s), own)
  {
    r, g := ps, ps;
    if c.useColor && s.colorOpen {
      OneMore(c, s0, ps, Added(RESET), own);
      r := ps + [Added(RESET)];
      hide Proper, Spelled, OwnBytes, Grey, LineStart, HasLabel, AfterThought;
      assert own + [] == own;
    } else if c.useColor {
      OneMore(c, s0, ps, Added(GREY), own);
      g := ps + [Added(GREY)];
      hide Proper, Spelled, OwnBytes, Grey, LineStart, HasLabel, AfterThought;
      assert own + [] == own;
    }
  }

  function AtLineStart(s: Screen): Screen {
    if s.lastNewline then s else s.(out := s.out + [NEWLINE], lastNewline := true)
  }

  /** The end of a line that is still open. */
  lemma LineEnded(c: Style, s0: Screen, ps: seq<Piece>, s: Screen, own: seq<(Byte, bool)>) returns (r: seq<Piece>)
    requires Settled(c, s0, ps, s, own)
    ensures Settled(c, s0, r, AtLineStart(s), own)
  {
    hide Proper, Spelled, OwnBytes, Grey, LineStart, HasLabel, AfterThought, AfterLabel;
    r := ps;
    if !s.lastNewline {
      OneMore(c, s0, ps, Added([NEWLINE]), own);
      r := ps + [Added([NEWLINE])];
      assert own + [] == own;
    }
  }

  function LabelShown(c: Style, s: Screen, thought: bool): Screen {
    var r := EmitLabel(c, s, LabelOf(thought));
    if thought then r.(thinkingLabel := true) else r.(answerLabel := true)
  }

  predicate HasLabelOf(s: Screen, thought: bool) {
    if thought then s.thinkingLabel else s.answerLabel
  }

  /** A label, on a line of its own. */
  lemma Labelled(c: Style, s0: Screen, ps: seq<Piece>, s: Screen, thought: bool, own: seq<(Byte, bool)>)
    returns (r: seq<Piece>)
    requires Settled(c, s0, ps, s, own) && !HasLabelOf(s, thought)
    ensures Settled(c, s0, r, LabelShown(c, s, thought), own)
  {
    hide Settled, AtLineStart;
    var g;
    r, g := Recolored(c, s0, ps, s, own);
    r := LineEnded(c, s0, r, ResetColor(c, s), own);
    hide *;
    LabelIs(c, s, thought);
    r := LabelAfter(c, s0, r, AtLineStart(ResetColor(c, s)), thought, own);
  }

  lemma LabelIs(c: Style, s: Screen, thought: bool)
    ensures LabelShown(c, s, thought) == WithLabel(AtLineStart(ResetColor(c, s)), thought)
    ensures var t := AtLineStart(ResetColor(c, s));
      t.lastNewline && !(c.useColor && t.colorOpen) && HasLabelOf(t, thought) == HasLabelOf(s, thought)
  {
    assert ResetColor(c, s).out + [] == ResetColor(c, s).out;
  }

  function WithLabel(s: Screen, thought: bool): Screen {
    var r := s.(out := s.out + LabelOf(thought) + [NEWLINE], lastNewline := true);
    if thought then r.(thinkingLabel := true) else r.(answerLabel := true)
  }

  lemma LabelAfter(c: Style, s0: Screen, ps: seq<Piece>, s: Screen, thought: bool, own: seq<(Byte, bool)>)
    returns (r: seq<Piece>)
    requires Settled(c, s0, ps, s, own) && !HasLabelOf(s, thought) && s.lastNewline && !(c.useColor && s.colorOpen)
    ensures Settled(c, s0, r, WithLabel(s, thought), own)
  {
    hide Proper, Spelled, OwnBytes, Grey, LineStart, HasLabel, AfterThought, AfterLabel;
    var p := Added(LabelOf(thought));
    OneMore(c, s0, ps, p, own);
    assert own + [] == own;
    OneMore(c, s0, ps + [p], Added([NEWLINE]), own);
    r := ps + [p] + [Added([NEWLINE])];
    assert HasLabel(s0, ps + [p], true) == HasLabel(s0, r, true);
    assert HasLabel(s0, ps + [p], false) == HasLabel(s0, r, false);
  }

  /** One byte of the text, when its label and color are there. */
  lemma OwnAfter(c: Style, s0: Screen, ps: seq<Piece>, s: Screen, b: Byte, own: seq<(Byte, bool)>)
    requires Settled(c, s0, ps, s, own) && HasLabelOf(s, s.inThink) && (c.useColor ==> s.colorOpen == s.inThink)
    ensures Settled(c, s0, ps + [Own(b, s.inThink)], s.(out := s.out + [b], lastNewline := b == NEWLINE),
                    own + [(b, s.inThink)])
  {
    hide Proper, Spelled, OwnBytes, Grey, LineStart, HasLabel, AfterThought, AfterLabel;
    OneMore(c, s0, ps, Own(b, s.inThink), own);
  }

  lemma OneChar(c: Style, s0: Screen, ps: seq<Piece>, s: Screen, b: Byte, own: seq<(Byte, bool)>)
    returns (r: seq<Piece>)
    requires Settled(c, s0, ps, s, own)
    ensures Settled(c, s0, r, WriteChar(c, s, b), own + [(b, s.inThink)])
  {
    hide Settled, EmitLabel;
    var t, g := s, ps;
    r := ps;
    if !HasLabelOf(s, s.inThink) {
      r := Labelled(c, s0, ps, s, s.inThink, own);
      t := LabelShown(c, s, s.inThink);
    }
    LabelKeeps(c, s, s.inThink);
    r, g := Recolored(c, s0, r, t, own);
    if s.inThink {
      OwnAfter(c, s0, g, SetGrey(c, t), b, own);
      r := g + [Own(b, true)];
    } else {
      OwnAfter(c, s0, r, ResetColor(c, t), b, own);
      r := r + [Own(b, false)];
    }
  }

  lemma LabelKeeps(c: Style, s: Screen, thought: bool)
    ensures LabelShown(c, s, thought).inThink == s.inThink && HasLabelOf(LabelShown(c, s, thought), thought)
  {
  }

  lemma Closed(c: Style, s0: Screen, ps: seq<Piece>, s: Screen, own: seq<(Byte, bool)>) returns (r: seq<Piece>)
    requires Settled(c, s0, ps, s, own)
    ensures Settled(c, s0, r, CloseThink(c, s), own)
  {
    var t, g := s, ps;
    r := ps;
    hide Settled;
    if s.inThink && !s.lastNewline {
      r, g := Recolored(c, s0, ps, s, own);
      t := ResetColor(c, s);
      r := LineEnded(c, s0, r, t, own);
      t := AtLineStart(t);
    }
    AnswerBegins(c, s0, r, t, own);
    r, g := Recolored(c, s0, r, t.(inThink := false), own);
  }

  lemma AnswerBegins(c: Style, s0: Screen, ps: seq<Piece>, s: Screen, own: seq<(Byte, bool)>)
    requires Settled(c, s0, ps, s, own) && (s.inThink ==> s.lastNewline)
    ensures Settled(c, s0, ps, s.(inThink := false), own)
  {
  }

  /** What a scan of the text adds to the screen: every byte of the text except its tags, in order, and
      besides only what may stand before or after it. */
  lemma {:induction false} ScanShows(c: Style, s0: Screen, ps: seq<Piece>, s: Screen, own: seq<(Byte, bool)>, text: Str)
    returns (r: seq<Piece>)
    requires Settled(c, s0, ps, s, own)
    ensures Settled(c, s0, r, Scan(c, s, text), own + Marked(text, s.inThink))
    decreases |text|
  {
    hide Settled, WriteChar, CloseThink;
    if text == [] {
      r := ps;
      assert own + [] == own;
    } else if THINK_OPEN <= text {
      Opened(c, s0, ps, s, own);
      r := ScanShows(c, s0, ps, s.(inThink := true), own, text[|THINK_OPEN|..]);
    } else if THINK_CLOSE <= text {
      r := Closed(c, s0, ps, s, own);
      CloseEnds(c, s);
      r := ScanShows(c, s0, r, CloseThink(c, s), own, text[|THINK_CLOSE|..]);
    } else {
      r := OneChar(c, s0, ps, s, text[0], own);
      CharStays(c, s, text[0]);
      r := ScanShows(c, s0, r, WriteChar(c, s, text[0]), own + [(text[0], s.inThink)], text[1..]);
      assert (own + [(text[0], s.inThink)]) + Marked(text[1..], s.inThink) == own + Marked(text, s.inThink);
    }
  }

  lemma Opened(c: Style, s0: Screen, ps: seq<Piece>, s: Screen, own: seq<(Byte, bool)>)
    requires Settled(c, s0, ps, s, own)
    ensures Settled(c, s0, ps, s.(inThink := true), own)
  {
  }

  lemma CloseEnds(c: Style, s: Screen)
    ensures !CloseThink(c, s).inThink
  {
  }

  lemma CharStays(c: Style, s: Screen, b: Byte)
    ensures WriteChar(c, s, b).inThink == s.inThink
  {
  }

  /** The same from the start. */
  lemma TextShown(c: Style, s: Screen, text: Str) returns (ps: seq<Piece>)
    ensures Settled(c, s, ps, Scan(c, s, text), Marked(text, s.inThink))
  {
    assert s.out + [] == s.out && [] + Marked(text, s.inThink) == Marked(text, s.inThink);
    ps := ScanShows(c, s, [], s, [], text);
  }

  const PENDING_BYTES: nat := 16

  class TokenPrinter {
    const formatThinking: bool
    const useColor: bool
    var out: Str
    var inThink: bool
    var colorOpen: bool
    var lastOutputNewline: bool
    var thinkingLabelEmitted: bool
    var answerLabelEmitted: bool
    const pending: array<Byte>
    var pendingLen: nat

    /** As the command line sets it up: a chat prompt with thinking starts inside the thoughts. */
    constructor (thinking: bool, useColor: bool)
      ensures Valid() && Look() == Style(thinking, useColor) && fresh(pending)
      ensures State() == Progress(Screen([], thinking, false, true, false, false), [])
    {
      this.formatThinking, this.useColor := thinking, useColor;
      out, inThink, colorOpen, lastOutputNewline := [], thinking, false, true;
      thinkingLabelEmitted, answerLabelEmitted := false, false;
      pending, pendingLen := new Byte[PENDING_BYTES](_ => 0), 0;
    }

    ghost predicate Valid()
      reads this, pending
    {
      pending.Length == PENDING_BYTES && pendingLen <= PENDING_BYTES &&
        (pendingLen > 0 ==> formatThinking && Partial(pending[..pendingLen]))
    }

    ghost function Look(): Style {
      Style(formatThinking, useColor)
    }

    ghost function Shown(): Screen
      reads this`out, this`inThink, this`colorOpen, this`lastOutputNewline
      reads this`thinkingLabelEmitted, this`answerLabelEmitted
    {
      Screen(out, inThink, colorOpen, lastOutputNewline, thinkingLabelEmitted, answerLabelEmitted)
    }

    ghost function State(): Progress
      requires pendingLen <= pending.Length
      reads this, pending
    {
      Progress(Shown(), pending[..pendingLen])
    }

    method Reset()
      modifies this`out, this`colorOpen
      ensures Shown() == ResetColor(Look(), old(Shown()))
    {
      if useColor && colorOpen {
        out := out + RESET;
        colorOpen := false;
      }
    }

    method Grey()
      modifies this`out, this`colorOpen
      ensures Shown() == SetGrey(Look(), old(Shown()))
    {
      if useColor && !colorOpen {
        out := out + GREY;
        colorOpen := true;
      }
    }

    method Label(text: Str)
      modifies this`out, this`colorOpen, this`lastOutputNewline
      ensures Shown() == EmitLabel(Look(), old(Shown()), text)
    {
      Reset();
      ghost var o := out;
      if !lastOutputNewline { out := out + [NEWLINE]; }
      out := out + text;
      out := out + [NEWLINE];
      lastOutputNewline := true;
    }

    method PutChar(b: Byte)
      requires formatThinking
      modifies this`out, this`colorOpen, this`lastOutputNewline, this`thinkingLabelEmitted, this`answerLabelEmitted
      ensures Shown() == WriteChar(Look(), old(Shown()), b)
    {
      if formatThinking && inThink {
        if !thinkingLabelEmitted {
          Label(THINKING_LABEL);
          thinkingLabelEmitted := true;
        }
        Grey();
      } else {
        if formatThinking && !answerLabelEmitted {
          Label(ANSWER_LABEL);
          answerLabelEmitted := true;
        }
        Reset();
      }
      out := out + [b];
      lastOutputNewline := b == NEWLINE;
    }

    method EndThink()
      modifies this`out, this`colorOpen, this`lastOutputNewline, this`inThink
      ensures Shown() == CloseThink(Look(), old(Shown()))
    {
      if inThink && !lastOutputNewline {
        Reset();
        out := out + [NEWLINE];
        lastOutputNewline := true;
      }
      inThink := false;
      Reset();
    }

    /** token_printer_process: with finish nothing is held back. */
    method Process(text: Str, finish: bool)
      requires Valid()
      modifies this, pending
      ensures Valid()
      ensures !finish ==> State() == Write(Look(), old(State()), text)
      ensures finish && formatThinking ==>
        State() == Progress(Scan(Look(), old(Shown()), old(State()).pending + text), [])
      ensures finish && !formatThinking ==> State() == Progress(Plain(old(Shown()), text), [])
    {
      if !formatThinking {
        if |text| > 0 {
          out := out + text;
          lastOutputNewline := text[|text| - 1] == NEWLINE;
        }
        return;
      }
      var buf := pending[..pendingLen] + text;
      pendingLen := 0;
      hide Scan, Feed, Partial, ResetColor;
      ScanBuffer(buf, finish);
    }

    method ScanBuffer(buf: Str, finish: bool)
      requires formatThinking && pendingLen == 0 && pending.Length == PENDING_BYTES
      modifies this, pending
      ensures Valid() && State() == Goal(Look(), old(Shown()), buf, finish)
    {
      hide *;
      ghost var start := Shown();
      var i := 0;
      assert buf[0..] == buf;
      while i < |buf|
        invariant 0 <= i <= |buf| && pendingLen == 0
        invariant Goal(Look(), Shown(), buf[i..], finish) == Goal(Look(), start, buf, finish)
      {
        var cur := buf[i..];
        PartialFits(cur);
        var n := Take(cur, finish);
        if n == 0 {
          Hold(cur);
          HeldState(cur);
          return;
        }
        assert cur[n..] == buf[i + n..];
        i := i + n;
      }
      assert buf[|buf|..] == [];
      NothingHeld(finish);
    }

    lemma HeldState(cur: Str)
      requires formatThinking && pending.Length == PENDING_BYTES && pendingLen == |cur| < PENDING_BYTES
      requires pending[..pendingLen] == cur && Partial(cur)
      ensures Valid() && State() == Progress(Shown(), cur)
    {
    }

    lemma NothingHeld(finish: bool)
      requires pending.Length == PENDING_BYTES && pendingLen == 0
      ensures Valid() && State() == Goal(Look(), Shown(), [], finish)
    {
      assert pending[..0] == [];
    }

    /** One round of the loop: a tag, a character, or nothing when a tag may be beginning. */
    method Take(cur: Str, finish: bool) returns (n: nat)
      requires formatThinking && cur != []
      modifies this`out, this`colorOpen, this`lastOutputNewline, this`inThink
      modifies this`thinkingLabelEmitted, this`answerLabelEmitted
      ensures n <= |cur| && (n == 0 <==> !finish && Partial(cur))
      ensures n == 0 ==> Goal(Look(), old(Shown()), cur, finish) == Progress(Shown(), cur)
      ensures n > 0 ==> Goal(Look(), Shown(), cur[n..], finish) == Goal(Look(), old(Shown()), cur, finish)
    {
      hide Scan, Feed, WriteChar, CloseThink, Partial;
      if THINK_OPEN <= cur {
        OnOpen(Look(), Shown(), cur);
        inThink := true;
        return |THINK_OPEN|;
      }
      if THINK_CLOSE <= cur {
        OnClose(Look(), Shown(), cur);
        EndThink();
        return |THINK_CLOSE|;
      }
      OnChar(Look(), Shown(), cur);
      PartialBegins(cur);
      if !finish && cur[0] == 60 && Partial(cur) { return 0; }
      PutChar(cur[0]);
      n := 1;
    }

    method Hold(cur: Str)
      requires |cur| < PENDING_BYTES == pending.Length
      modifies this`pendingLen, pending
      ensures pendingLen == |cur| && pending[..pendingLen] == cur
    {
      forall k | 0 <= k < |cur| { pending[k] := cur[k]; }
      pendingLen := |cur|;
    }

    method WriteText(text: Str)
      requires Valid()
      modifies this, pending
      ensures Valid() && State() == Write(Look(), old(State()), text)
    {
      Process(text, false);
    }

    method End()
      requires Valid()
      modifies this, pending
      ensures Valid() && pendingLen == 0 && Shown() == Finish(Look(), old(State()))
    {
      Process([], true);
      assert old(State()).pending + [] == old(State()).pending;
      Reset();
    }
  }

  /** What may become a tag is at most seven bytes, so the sixteen that are kept for it are enough. */
  lemma PartialFits(buf: Str)
    ensures Partial(buf) ==> |buf| < |THINK_CLOSE| < PENDING_BYTES
  {
  }

  lemma PartialBegins(buf: Str)
    ensures Partial(buf) ==> buf[0] == 60
  {
  }
}
