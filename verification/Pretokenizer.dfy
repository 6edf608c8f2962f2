/** Cutting a text into the pieces that are merged separately. */
module Pretokenizer {
  import opened Basics
  import opened Bytes
  import opened TokBytes
  import opened PieceRules

  predicate Alpha(c: Byte) {
    65 <= c <= 90 || 97 <= c <= 122
  }

  predicate Digit(c: Byte) {
    48 <= c <= 57
  }

  predicate Space(c: Byte) {
    c == 32 || 9 <= c <= 13
  }

  predicate Newline(c: Byte) {
    c == 10 || c == 13
  }

  predicate Punct(c: Byte) {
    33 <= c <= 47 || 58 <= c <= 64 || 91 <= c <= 96 || 123 <= c <= 126
  }

  predicate Cjk(cp: nat) {
    0x4e00 <= cp <= 0x9fa5 || 0x3040 <= cp <= 0x309f || 0x30a0 <= cp <= 0x30ff
  }

  datatype Class = Letters | Digits | Spaces | Newlines | Puncts | Alphas | Cjks

  /** A character of the class begins at pos; every byte from 128 on counts as a letter. */
  predicate At(cl: Class, s: Str, pos: nat)
    requires pos < |s|
  {
    var c := s[pos];
    match cl
    case Letters => c >= 128 || Alpha(c)
    case Digits => Digit(c)
    case Spaces => Space(c)
    case Newlines => Newline(c)
    case Puncts => Punct(c)
    case Alphas => Alpha(c)
    case Cjks => c >= 128 && Cjk(Peek(s, pos))
  }

  /** Where the characters of the class that begin at pos end. */
  function Run(cl: Class, s: Str, pos: nat): (end: nat)
    requires pos <= |s|
    ensures pos <= end <= |s| && (end < |s| ==> !At(cl, s, end))
    ensures pos < |s| && At(cl, s, pos) ==> pos < end
    decreases |s| - pos
  {
    if pos < |s| && At(cl, s, pos) then Run(cl, s, NextChar(s, pos)) else pos
  }

  function LastNewlineEnd(s: Str, pos: nat, p: nat): (end: nat)
    requires pos <= p <= |s|
    ensures end == 0 || pos < end <= p
  {
    if p == pos then 0 else if Newline(s[p - 1]) then p else LastNewlineEnd(s, pos, p - 1)
  }

  /** Blanks and newlines: up to the last newline, else leaving one blank for the word that follows. */
  function SpaceEnd(s: Str, pos: nat): (end: nat)
    requires pos < |s| && At(Spaces, s, pos)
    ensures pos < end <= |s|
  {
    var p := Run(Spaces, s, pos);
    if LastNewlineEnd(s, pos, p) > 0 then LastNewlineEnd(s, pos, p)
    else if p < |s| && p > pos + 1 && (At(Letters, s, p) || At(Puncts, s, p)) then p - 1
    else p
  }

  /** Where the piece that begins at pos ends. */
  function PieceEnd(s: Str, pos: nat): (end: nat)
    requires pos < |s|
    ensures pos < end <= |s|
  {
    if At(Digits, s, pos) then
      if Run(Digits, s, pos) < pos + 3 then Run(Digits, s, pos) else pos + 3
    else if At(Cjks, s, pos) then Run(Cjks, s, pos)
    else if At(Puncts, s, pos) && pos + 1 < |s| && At(Alphas, s, pos + 1) then Run(Alphas, s, pos + 1)
    else if At(Letters, s, pos) then Run(Letters, s, pos)
    else if !At(Newlines, s, pos) && !At(Puncts, s, pos) && pos + 1 < |s| && At(Letters, s, pos + 1) then
      Run(Letters, s, pos + 1)
    else if s[pos] == 32 && pos + 1 < |s| && At(Puncts, s, pos + 1) then Run(Newlines, s, Run(Puncts, s, pos + 1))
    else if At(Puncts, s, pos) then Run(Newlines, s, Run(Puncts, s, pos))
    else if At(Spaces, s, pos) then SpaceEnd(s, pos)
    else NextChar(s, pos)
  }

  lemma {:induction false} ReachMore(s: Str, a: nat, b: nat, c: nat)
    requires a <= |s| && b <= |s| && Reach(s, a, b) && Reach(s, b, c)
    ensures Reach(s, a, c)
    decreases |s| - a
  {
    if a != b { ReachMore(s, NextChar(s, a), b, c); }
  }

  lemma {:induction false} ReachRun(cl: Class, s: Str, pos: nat)
    requires pos <= |s|
    ensures Reach(s, pos, Run(cl, s, pos))
    decreases |s| - pos
  {
    if pos < |s| && At(cl, s, pos) { ReachRun(cl, s, NextChar(s, pos)); }
  }

  lemma OneByte(s: Str, pos: nat)
    requires pos < |s| && s[pos] < 128
    ensures NextChar(s, pos) == pos + 1
    ensures Reach(s, pos, pos + 1)
  {
  }

  lemma {:induction false} ReachBytes(s: Str, a: nat, b: nat)
    requires a <= b <= |s| && forall i :: a <= i < b ==> s[i] < 128
    ensures Reach(s, a, b)
    decreases b - a
  {
    if a < b {
      OneByte(s, a);
      ReachBytes(s, a + 1, b);
    }
  }

  lemma {:induction false} RunBytes(cl: Class, s: Str, pos: nat)
    requires pos <= |s| && cl != Letters && cl != Cjks
    ensures forall i :: pos <= i < Run(cl, s, pos) ==> s[i] < 128
    decreases |s| - pos
  {
    if pos < |s| && At(cl, s, pos) {
      OneByte(s, pos);
      RunBytes(cl, s, pos + 1);
    }
  }

  /** A piece ends where a character begins: no character is cut in two. */
  lemma PieceEndsAtChar(s: Str, pos: nat)
    requires pos < |s|
    ensures Reach(s, pos, PieceEnd(s, pos))
  {
    if At(Digits, s, pos) {
      RunBytes(Digits, s, pos);
      ReachBytes(s, pos, PieceEnd(s, pos));
    } else if At(Cjks, s, pos) {
      ReachRun(Cjks, s, pos);
    } else if At(Puncts, s, pos) && pos + 1 < |s| && At(Alphas, s, pos + 1) {
      ReachAfter(Alphas, s, pos);
    } else if At(Letters, s, pos) {
      ReachRun(Letters, s, pos);
    } else if !At(Newlines, s, pos) && !At(Puncts, s, pos) && pos + 1 < |s| && At(Letters, s, pos + 1) {
      ReachAfter(Letters, s, pos);
    } else if s[pos] == 32 && pos + 1 < |s| && At(Puncts, s, pos + 1) {
      ReachAfter(Puncts, s, pos);
      ReachRun(Newlines, s, Run(Puncts, s, pos + 1));
      ReachMore(s, pos, Run(Puncts, s, pos + 1), PieceEnd(s, pos));
    } else if At(Puncts, s, pos) {
      ReachRun(Puncts, s, pos);
      ReachRun(Newlines, s, Run(Puncts, s, pos));
      ReachMore(s, pos, Run(Puncts, s, pos), PieceEnd(s, pos));
    } else if At(Spaces, s, pos) {
      RunBytes(Spaces, s, pos);
      ReachBytes(s, pos, PieceEnd(s, pos));
    }
  }

  // ---- The cut keeps the rules ---------------------------------------------------------------------

  lemma {:induction false} RunAll(cl: Class, s: Str, pos: nat)
    requires pos <= |s|
    ensures var e := Run(cl, s, pos); forall i :: pos <= i < e && Reach(s, pos, i) ==> At(cl, s, i)
    decreases |s| - pos
  {
    if pos < |s| && At(cl, s, pos) {
      var n := NextChar(s, pos);
      RunAll(cl, s, n);
      forall i | pos <= i < Run(cl, s, pos) && Reach(s, pos, i) ensures At(cl, s, i) {
        if i != pos { ReachUp(s, n, i); }
      }
    }
  }

  lemma {:induction false} ReachUp(s: Str, a: nat, b: nat)
    requires a <= |s| && Reach(s, a, b)
    ensures a <= b
    decreases |s| - a
  {
    if a != b { ReachUp(s, NextChar(s, a), b); }
  }

  /** The run of a class of ASCII, as a stretch of bytes. */
  lemma RunStretch(cl: Class, s: Str, pos: nat, p: Byte -> bool)
    requires pos <= |s| && cl != Letters && cl != Cjks && forall i :: 0 <= i < |s| ==> (p(s[i]) <==> At(cl, s, i))
    ensures Stretch(s, pos, Run(cl, s, pos), p)
  {
    var e := Run(cl, s, pos);
    RunBytes(cl, s, pos);
    RunAll(cl, s, pos);
    forall i | pos <= i < e ensures At(cl, s, i) { ReachBytes(s, pos, i); }
  }

  lemma RunWord(s: Str, pos: nat)
    requires pos <= |s|
    ensures WordRun(s, pos, Run(Letters, s, pos))
  {
    ReachRun(Letters, s, pos);
    RunAll(Letters, s, pos);
  }

  lemma RunCjk(s: Str, pos: nat)
    requires pos <= |s|
    ensures CjkRun(s, pos, Run(Cjks, s, pos))
  {
    ReachRun(Cjks, s, pos);
    RunAll(Cjks, s, pos);
  }

  lemma RunMarks(s: Str, pos: nat)
    requires pos <= |s|
    ensures Marks(s, pos, Run(Newlines, s, Run(Puncts, s, pos)))
  {
    RunStretch(Puncts, s, pos, Mark);
    RunStretch(Newlines, s, Run(Puncts, s, pos), LineEnd);
  }

  lemma {:induction false} LastNewlineIs(s: Str, pos: nat, p: nat)
    requires pos <= p <= |s|
    ensures var e := LastNewlineEnd(s, pos, p);
      && (forall i :: (if e == 0 then pos else e) <= i < p ==> !LineEnd(s[i]))
      && (e > 0 ==> LineEnd(s[e - 1]))
  {
    if p > pos && !Newline(s[p - 1]) { LastNewlineIs(s, pos, p - 1); }
  }

  lemma SpaceObeys(s: Str, pos: nat)
    requires pos < |s| && At(Spaces, s, pos)
    ensures Blanks(s, pos, SpaceEnd(s, pos))
  {
    var p := Run(Spaces, s, pos);
    RunStretch(Spaces, s, pos, Blank);
    LastNewlineIs(s, pos, p);
    hide Run, LastNewlineEnd;
    assert BlanksTo(s, pos, p, SpaceEnd(s, pos));
  }

  lemma FiguresObey(s: Str, pos: nat)
    requires pos < |s| && At(Digits, s, pos)
    ensures Figures(s, pos, PieceEnd(s, pos))
  {
    RunStretch(Digits, s, pos, Figure);
  }

  lemma PieceObeys(s: Str, pos: nat)
    requires pos < |s|
    ensures Obeys(s, pos, PieceEnd(s, pos))
  {
    hide Run, Stretch, Marks, Blanks, WordRun, CjkRun, Figures, SpaceEnd, NextChar, Peek;
    if At(Digits, s, pos) {
      FiguresObey(s, pos);
    } else if At(Cjks, s, pos) {
      RunCjk(s, pos);
    } else if At(Puncts, s, pos) && pos + 1 < |s| && At(Alphas, s, pos + 1) {
      RunStretch(Alphas, s, pos + 1, Letter);
    } else if At(Letters, s, pos) {
      RunWord(s, pos);
    } else if !At(Newlines, s, pos) && !At(Puncts, s, pos) && pos + 1 < |s| && At(Letters, s, pos + 1) {
      RunWord(s, pos + 1);
    } else if s[pos] == 32 && pos + 1 < |s| && At(Puncts, s, pos + 1) {
      RunMarks(s, pos + 1);
    } else if At(Puncts, s, pos) {
      RunMarks(s, pos);
    } else if At(Spaces, s, pos) {
      SpaceObeys(s, pos);
    } else {
      OneByte(s, pos);
    }
  }

  lemma ReachAfter(cl: Class, s: Str, pos: nat)
    requires pos + 1 <= |s| && s[pos] < 128
    ensures Reach(s, pos, Run(cl, s, pos + 1))
  {
    OneByte(s, pos);
    ReachRun(cl, s, pos + 1);
    ReachMore(s, pos, pos + 1, Run(cl, s, pos + 1));
  }

  /** The loops that go on while the class lasts. */
  method Consume(cl: Class, s: Str, start: nat) returns (pos: nat)
    requires start <= |s|
    ensures pos == Run(cl, s, start)
  {
    pos := start;
    while pos < |s| && At(cl, s, pos)
      invariant pos <= |s| && Run(cl, s, pos) == Run(cl, s, start)
    {
      pos := NextChar(s, pos);
    }
  }

  /** One round of the loop of bpe_tokenize_text. */
  method CutPiece(s: Str, start: nat) returns (pos: nat)
    requires start < |s|
    ensures pos == PieceEnd(s, start) && Obeys(s, start, pos)
  {
    PieceObeys(s, start);
    hide Obeys;
    pos := start;
    var c := s[pos];
    if Digit(c) {
      pos := ThreeDigits(s, pos);
    } else if At(Cjks, s, pos) {
      pos := Consume(Cjks, s, pos);
    } else if Punct(c) && pos + 1 < |s| && Alpha(s[pos + 1]) {
      pos := Consume(Alphas, s, pos + 1);
    } else if At(Letters, s, pos) {
      pos := Consume(Letters, s, pos);
    } else if !Newline(c) && !Punct(c) && pos + 1 < |s| && At(Letters, s, pos + 1) {
      pos := Consume(Letters, s, pos + 1);
    } else if c == 32 && pos + 1 < |s| && Punct(s[pos + 1]) {
      pos := Consume(Puncts, s, pos + 1);
      pos := Consume(Newlines, s, pos);
    } else if Punct(c) {
      pos := Consume(Puncts, s, pos);
      pos := Consume(Newlines, s, pos);
    } else if Space(c) {
      pos := CutSpaces(s, pos);
    } else {
      pos := NextChar(s, pos);
    }
    assert pos != start;
  }

  method ThreeDigits(s: Str, start: nat) returns (pos: nat)
    requires start < |s| && At(Digits, s, start)
    ensures pos == if Run(Digits, s, start) < start + 3 then Run(Digits, s, start) else start + 3
  {
    pos := start;
    var ndigits := 0;
    while pos < |s| && Digit(s[pos]) && ndigits < 3
      invariant pos <= |s| && pos == start + ndigits && ndigits <= 3
      invariant Run(Digits, s, pos) == Run(Digits, s, start)
    {
      OneByte(s, pos);
      pos, ndigits := pos + 1, ndigits + 1;
    }
  }

  method CutSpaces(s: Str, pos: nat) returns (end: nat)
    requires pos < |s| && At(Spaces, s, pos)
    ensures end == SpaceEnd(s, pos)
  {
    var p := pos;
    var lastNewlineEnd := 0;
    while p < |s| && Space(s[p])
      invariant pos <= p <= |s| && Run(Spaces, s, p) == Run(Spaces, s, pos)
      invariant lastNewlineEnd == LastNewlineEnd(s, pos, p)
    {
      OneByte(s, p);
      var sc := s[p];
      p := p + 1;
      if Newline(sc) { lastNewlineEnd := p; }
    }
    if lastNewlineEnd != 0 {
      end := lastNewlineEnd;
    } else if p < |s| && p > pos + 1 && (At(Letters, s, p) || Punct(s[p])) {
      end := p - 1;
    } else {
      end := p;
    }
  }
}
