/** The rules by which a text is cut into pieces, on its bytes. */
module PieceRules {
  import opened Basics
  import opened Bytes
  import opened TokBytes

  // ---- Bytes and characters ---------------------------------------------------------------------------

  predicate Letter(b: Byte) {
    'a' as int <= b <= 'z' as int || 'A' as int <= b <= 'Z' as int
  }

  predicate Figure(b: Byte) {
    '0' as int <= b <= '9' as int
  }

  /** Everything else that ASCII prints, save the blank. */
  predicate Mark(b: Byte) {
    '!' as int <= b <= '~' as int && !Letter(b) && !Figure(b)
  }

  predicate LineEnd(b: Byte) {
    b == '\n' as int || b == '\r' as int
  }

  /** Blank, tab, vertical tab, form feed or the end of a line. */
  predicate Blank(b: Byte) {
    b == ' ' as int || b == '\t' as int || b == 11 || b == 12 || LineEnd(b)
  }

  /** A letter; what is not ASCII counts as one. */
  predicate Wordy(b: Byte) {
    b >= 128 || Letter(b)
  }

  /** A Chinese character, Hiragana or Katakana. */
  predicate CjkAt(s: Str, i: nat)
    requires i < |s|
  {
    s[i] >= 128 && (0x4e00 <= Peek(s, i) <= 0x9fa5 || 0x3040 <= Peek(s, i) <= 0x30ff)
  }

  predicate NextIs(s: Str, a: nat, p: Byte -> bool) {
    a + 1 < |s| && p(s[a + 1])
  }

  /** s[a..e] is the longest stretch of such bytes from a. */
  ghost predicate Stretch(s: Str, a: nat, e: nat, p: Byte -> bool) {
    a <= e <= |s| && (forall i :: a <= i < e ==> p(s[i])) && (e < |s| ==> !p(s[e]))
  }

  /** b is where a character begins, counting characters from a. */
  ghost predicate Reach(s: Str, a: nat, b: nat)
    requires a <= |s|
    decreases |s| - a
  {
    a == b || (a < |s| && Reach(s, NextChar(s, a), b))
  }

  /** The characters from a to e begin with letters, and the one at e does not. */
  ghost predicate WordRun(s: Str, a: nat, e: nat) {
    && a <= e <= |s| && Reach(s, a, e) && (forall i :: a <= i < e && Reach(s, a, i) ==> Wordy(s[i]))
    && (e < |s| ==> !Wordy(s[e]))
  }

  /** The characters from a to e are Chinese or Japanese, and the one at e is not. */
  ghost predicate CjkRun(s: Str, a: nat, e: nat) {
    && a <= e <= |s| && Reach(s, a, e) && (forall i :: a <= i < e && Reach(s, a, i) ==> CjkAt(s, i))
    && (e < |s| ==> !CjkAt(s, e))
  }

  // ---- The rules -----------------------------------------------------------------------------------------

  /** The piece that begins at a ends at e: every rule whose condition holds at a is kept. */
  ghost predicate Obeys(s: Str, a: nat, e: nat)
    requires a < |s|
  {
    && (Figure(s[a]) ==> Figures(s, a, e))
    && (CjkAt(s, a) ==> CjkRun(s, a, e))
    && (Wordy(s[a]) && !CjkAt(s, a) ==> WordRun(s, a, e))
    && (Mark(s[a]) && NextIs(s, a, Letter) ==> Stretch(s, a + 1, e, Letter))
    && (Mark(s[a]) && !NextIs(s, a, Letter) ==> Marks(s, a, e))
    && (s[a] == ' ' as int && NextIs(s, a, Mark) ==> Marks(s, a + 1, e))
    && (Other(s[a]) && NextIs(s, a, Wordy) ==> WordRun(s, a + 1, e))
    && (Blank(s[a]) && !Joins(s, a) ==> Blanks(s, a, e))
    && (Other(s[a]) && !Blank(s[a]) && !NextIs(s, a, Wordy) ==> e == a + 1)
  }

  /** A blank within a line, or a control character. */
  predicate Other(b: Byte) {
    !Wordy(b) && !Figure(b) && !Mark(b) && !LineEnd(b)
  }

  /** A blank that goes with the letters or marks behind it. */
  predicate Joins(s: Str, a: nat)
    requires a < |s|
  {
    (!LineEnd(s[a]) && NextIs(s, a, Wordy)) || (s[a] == ' ' as int && NextIs(s, a, Mark))
  }

  /** At most three figures. */
  ghost predicate Figures(s: Str, a: nat, e: nat) {
    && a < e <= |s| && e <= a + 3 && (forall i :: a <= i < e ==> Figure(s[i]))
    && (e < a + 3 && e < |s| ==> !Figure(s[e]))
  }

  /** Marks, and the ends of lines behind them. */
  ghost predicate Marks(s: Str, a: nat, e: nat) {
    exists m :: Stretch(s, a, m, Mark) && Stretch(s, m, e, LineEnd)
  }

  /** A stretch of blanks ends behind its last end of line. Without one it ends before its last blank if
      there are several and a letter or a mark follows, and else with the last of them. */
  ghost predicate Blanks(s: Str, a: nat, e: nat) {
    exists p :: Stretch(s, a, p, Blank) && a < e <= p && BlanksTo(s, a, p, e)
  }

  ghost predicate BlanksTo(s: Str, a: nat, p: nat, e: nat)
    requires a < e <= p <= |s|
  {
    && (forall i :: e <= i < p ==> !LineEnd(s[i]))
    && ((exists i :: a <= i < p && LineEnd(s[i])) ==> LineEnd(s[e - 1]))
    && ((forall i :: a <= i < p ==> !LineEnd(s[i])) ==>
          e == if p >= a + 2 && p < |s| && (Wordy(s[p]) || Mark(s[p])) then p - 1 else p)
  }

  // ---- The rules leave no choice ----------------------------------------------------------------------

  lemma OneStretch(s: Str, a: nat, e: nat, e': nat, p: Byte -> bool)
    requires Stretch(s, a, e, p) && Stretch(s, a, e', p)
    ensures e == e'
  {
  }

  lemma OneWord(s: Str, a: nat, e: nat, e': nat)
    requires a <= |s|
    ensures WordRun(s, a, e) && WordRun(s, a, e') ==> e == e'
    ensures CjkRun(s, a, e) && CjkRun(s, a, e') ==> e == e'
  {
  }

  lemma OneMarks(s: Str, a: nat, e: nat, e': nat)
    requires Marks(s, a, e) && Marks(s, a, e')
    ensures e == e'
  {
    var m :| Stretch(s, a, m, Mark) && Stretch(s, m, e, LineEnd);
    var m' :| Stretch(s, a, m', Mark) && Stretch(s, m', e', LineEnd);
    OneStretch(s, a, m, m', Mark);
    OneStretch(s, m, e, e', LineEnd);
  }

  lemma OneBlanks(s: Str, a: nat, e: nat, e': nat)
    requires Blanks(s, a, e) && Blanks(s, a, e')
    ensures e == e'
  {
    var p :| Stretch(s, a, p, Blank) && a < e <= p && BlanksTo(s, a, p, e);
    var p' :| Stretch(s, a, p', Blank) && a < e' <= p' && BlanksTo(s, a, p', e');
    OneStretch(s, a, p, p', Blank);
  }

  /** At every place some rule applies, and no two ends keep the rules. */
  lemma OnePiece(s: Str, a: nat, e: nat, e': nat)
    requires a < |s| && Obeys(s, a, e) && Obeys(s, a, e')
    ensures e == e'
  {
    hide WordRun, CjkRun, Stretch, Marks, Blanks, Peek;
    OneWord(s, a, e, e');
    OneWord(s, a + 1, e, e');
    if Marks(s, a, e) && Marks(s, a, e') { OneMarks(s, a, e, e'); }
    if Marks(s, a + 1, e) && Marks(s, a + 1, e') { OneMarks(s, a + 1, e, e'); }
    if Blanks(s, a, e) && Blanks(s, a, e') { OneBlanks(s, a, e, e'); }
    if Stretch(s, a + 1, e, Letter) && Stretch(s, a + 1, e', Letter) { OneStretch(s, a + 1, e, e', Letter); }
  }

  // ---- In well-formed text a word is a stretch of bytes -------------------------------------------------

  /** No byte of ASCII is swallowed by the character before it. */
  ghost predicate Sound(s: Str) {
    forall i, j :: 0 <= i < |s| && i < j < NextChar(s, i) ==> s[j] >= 128
  }

  lemma WordBytes(s: Str, a: nat, e: nat)
    requires Sound(s) && WordRun(s, a, e)
    ensures Stretch(s, a, e, Wordy)
  {
    forall i | a <= i < e ensures Wordy(s[i]) { WordByte(s, a, e, i); }
  }

  lemma {:induction false} WordByte(s: Str, a: nat, e: nat, i: nat)
    requires Sound(s) && a <= i < e <= |s| && Reach(s, a, e)
    requires forall k :: a <= k < e && Reach(s, a, k) ==> Wordy(s[k])
    ensures Wordy(s[i])
    decreases i - a
  {
    var n := NextChar(s, a);
    assert Reach(s, a, a);
    if i >= n {
      forall k | n <= k < e && Reach(s, n, k) ensures Wordy(s[k]) { assert Reach(s, a, k); }
      WordByte(s, n, e, i);
    }
  }
}
