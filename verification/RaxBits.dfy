/** Shifting the 13-bit inline-leaf bitmap, on 16-bit words. */
module RaxWords {
  /** A small number as a word, for shift counts. */
  function WordOf(i: nat): (w: bv16)
    requires i < 16
    ensures w < 16 && (w < 13 <==> i < 13)
  {
    if i < 8 then
      (if i < 4 then (if i < 2 then (if i == 0 then 0 else 1) else if i == 2 then 2 else 3)
       else if i < 6 then (if i == 4 then 4 else 5) else if i == 6 then 6 else 7)
    else
      (if i < 12 then (if i < 10 then (if i == 8 then 8 else 9) else if i == 10 then 10 else 11)
       else if i < 14 then (if i == 12 then 12 else 13) else if i == 14 then 14 else 15)
  }

  lemma WordOrder(i: nat, j: nat)
    requires i < 16 && j < 16
    ensures WordOf(i) < WordOf(j) <==> i < j
    ensures j == i + 1 ==> WordOf(j) == WordOf(i) + 1
    ensures WordOf(i) == WordOf(j) <==> i == j
  {
  }

  predicate BitAt(bm: bv16, i: bv16)
    requires i < 16
  {
    (bm >> i) & 1 == 1
  }

  /** The bitmap when a child is added at pos. */
  function Opened(bm: bv16, pos: bv16): bv16
    requires pos < 13
  {
    var below := if pos == 0 then 0 else bm & ((1 << pos) - 1);
    var above := bm & !below;
    below | ((above << 1) & 0x1fff)
  }

  /** The bitmap when the child at pos is removed. */
  function Closed(bm: bv16, pos: bv16): bv16
    requires pos < 13
  {
    var above := bm & !((1 << (pos + 1)) - 1);
    var below := if pos == 0 then 0 else bm & ((1 << pos) - 1);
    below | (above >> 1)
  }

  lemma OpenedBelow(bm: bv16, pos: bv16, i: bv16)
    requires pos < 13 && i < pos && bm < 0x2000
    ensures BitAt(Opened(bm, pos), i) <==> BitAt(bm, i)
  {
  }

  lemma OpenedFrom(bm: bv16, pos: bv16, i: bv16)
    requires pos <= i < 13 && bm < 0x2000
    ensures BitAt(Opened(bm, pos), i) <==> i > pos && BitAt(bm, i - 1)
  {
  }

  lemma OpenedRange(bm: bv16, pos: bv16)
    requires pos < 13 && bm < 0x2000
    ensures Opened(bm, pos) < 0x2000
  {
  }

  lemma OpenedBit(bm: bv16, pos: bv16, i: bv16)
    requires pos < 13 && i < 13 && bm < 0x2000
    ensures BitAt(Opened(bm, pos), i) <==> if i < pos then BitAt(bm, i) else i > pos && BitAt(bm, i - 1)
  {
    if i < pos { OpenedBelow(bm, pos, i); } else { OpenedFrom(bm, pos, i); }
  }

  /** The bitmap with the child at pos marked as an inline value. */
  function Marked(bm: bv16, pos: bv16): bv16
    requires pos < 13
  {
    bm | (1 << pos)
  }

  lemma MarkedBit(bm: bv16, pos: bv16, i: bv16)
    requires pos < 13 && i < 13 && bm < 0x2000
    ensures Marked(bm, pos) < 0x2000 && (BitAt(Marked(bm, pos), i) <==> BitAt(bm, i) || i == pos)
  {
  }

  lemma ClosedBit(bm: bv16, pos: bv16, i: bv16)
    requires pos < 13 && i < 13 && bm < 0x2000
    ensures Closed(bm, pos) < 0x2000
    ensures BitAt(Closed(bm, pos), i) <==> if i < pos then BitAt(bm, i) else BitAt(bm, i + 1)
  {
  }
}

/** The 13-bit inline-leaf bitmap as a machine word. */
module RaxBits {
  import opened RaxWords
  import opened RaxTheory
  import opened RaxSteps
  import opened RaxReshape

  /** raxIsInlineLeaf */
  predicate Bit(bm: bv16, i: nat) {
    i < 13 && BitAt(bm, WordOf(i))
  }

  function Bits(bm: bv16): set<nat> {
    set b | 0 <= b < INLINE_SLOTS && Bit(bm, b)
  }

  /** The word operations move the bits as the slots move; the bit of slot 12 falls off. */
  lemma OpenedBits(bm: bv16, pos: nat)
    requires pos < 13 && bm < 0x2000
    ensures Opened(bm, WordOf(pos)) < 0x2000
    ensures Bits(Opened(bm, WordOf(pos))) == BitsAfterInsert(Bits(bm), pos)
  {
    forall b: nat | b < 13 ensures Bit(Opened(bm, WordOf(pos)), b) <==> BitComesFrom(Bits(bm), pos, b) {
      WordOrder(b, pos);
      if b > 0 { WordOrder(b - 1, b); }
      OpenedBit(bm, WordOf(pos), WordOf(b));
    }
    OpenedRange(bm, WordOf(pos));
  }

  lemma MarkedBits(bm: bv16, pos: nat)
    requires pos < 13 && bm < 0x2000
    ensures Marked(bm, WordOf(pos)) < 0x2000
    ensures Bits(Marked(bm, WordOf(pos))) == Bits(bm) + {pos}
  {
    MarkedBit(bm, WordOf(pos), 0);
    forall b: nat | b < 13 ensures Bit(Marked(bm, WordOf(pos)), b) <==> Bit(bm, b) || b == pos {
      WordOrder(b, pos);
      MarkedBit(bm, WordOf(pos), WordOf(b));
    }
  }

  lemma ClosedBitAt(bm: bv16, pos: nat, b: nat)
    requires pos < 13 && b < 13 && bm < 0x2000
    ensures Bit(Closed(bm, WordOf(pos)), b) <==> BitMovesFrom(Bits(bm), pos, b)
  {
    WordOrder(b, pos);
    WordOrder(b, b + 1);
    ClosedBit(bm, WordOf(pos), WordOf(b));
    if b == 12 { TopBit(bm); }
  }

  lemma ClosedBits(bm: bv16, pos: nat)
    requires pos < 13 && bm < 0x2000
    ensures Closed(bm, WordOf(pos)) < 0x2000
    ensures Bits(Closed(bm, WordOf(pos))) == BitsAfterRemove(Bits(bm), pos)
  {
    ClosedBit(bm, WordOf(pos), 0);
    hide Bit, Closed, BitMovesFrom;
    forall b: nat | b < 13 ensures Bit(Closed(bm, WordOf(pos)), b) <==> BitMovesFrom(Bits(bm), pos, b) {
      ClosedBitAt(bm, pos, b);
    }
  }

  lemma TopBit(bm: bv16)
    requires bm < 0x2000
    ensures !BitAt(bm, WordOf(13))
  {
  }
}
