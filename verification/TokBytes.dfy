/** How token texts spell bytes: every byte is a printable code point, written in UTF-8. */
module TokBytes {
  import opened Basics
  import opened Bytes

  /** The bytes that stand for themselves. */
  predicate Direct(x: int) {
    33 <= x <= 126 || 161 <= x <= 172 || x >= 174
  }

  /** How many of the bytes below x do not stand for themselves. */
  function Skipped(x: nat): nat {
    if x == 0 then 0 else Skipped(x - 1) + if Direct(x - 1) then 0 else 1
  }

  function Codepoint(b: Byte): nat {
    if Direct(b) then b else 256 + Skipped(b)
  }

  lemma SkippedNext(x: nat)
    ensures Skipped(0) == 0 && Skipped(x + 1) == Skipped(x) + if Direct(x) then 0 else 1
  {
  }

  lemma Shifted(x: Byte)
    ensures !Direct(x) ==> Codepoint(x) == 256 + Skipped(x)
    ensures Direct(x) ==> Codepoint(x) == x
  {
  }

  /** gpt2_byte_to_codepoint. */
  method GptByteToCodepoint(b: Byte) returns (cp: int)
    ensures cp == Codepoint(b)
  {
    if Direct(b) { return b; }
    var n, x := 0, 0;
    while x < 256
      invariant 0 <= x <= b && n == Skipped(x)
      decreases 256 - x
    {
      if !Direct(x) {
        if x == b { return 256 + n; }
        n := n + 1;
      }
      x := x + 1;
    }
    return b;
  }

  lemma {:induction false} SkippedGrows(x: nat, y: nat)
    requires x <= y
    ensures Skipped(x) <= Skipped(y) <= Skipped(x) + (y - x)
  {
    if x < y { SkippedGrows(x, y - 1); }
  }

  lemma CodepointInjective(a: Byte, b: Byte)
    requires Codepoint(a) == Codepoint(b)
    ensures a == b
  {
    if a < b && !Direct(a) {
      SkippedGrows(a + 1, b);
    } else if b < a && !Direct(b) {
      SkippedGrows(b + 1, a);
    }
  }

  /** gpt2_codepoint_to_byte: the byte a code point stands for, or -1. */
  method GptCodepointToByte(cp: nat) returns (b: int)
    ensures b == ByteOf(cp)
  {
    hide ByteOf, Skipped, Codepoint;
    SkippedNext(0);
    if Direct(cp) && cp <= 255 {
      Shifted(cp);
      ByteOfCodepoint(cp);
      return cp;
    }
    if cp >= 256 {
      var n, x := 0, 0;
      while x < 256
        invariant 0 <= x <= 256 && n == Skipped(x)
        invariant forall y: Byte :: y < x && !Direct(y) ==> Codepoint(y) != cp
      {
        SkippedNext(x);
        Shifted(x);
        if !Direct(x) {
          if n == cp - 256 {
            ByteOfCodepoint(x);
            return x;
          }
          n := n + 1;
        }
        x := x + 1;
      }
    }
    forall y: Byte ensures Codepoint(y) != cp {
      Shifted(y);
    }
    NoByteOf(cp);
    return -1;
  }

  ghost function ByteOf(cp: nat): (r: int)
    ensures r >= 0 ==> r < 256
  {
    if exists b: Byte :: Codepoint(b) == cp then var b: Byte :| Codepoint(b) == cp; b else -1
  }

  /** Every byte comes back from its code point. */
  lemma ByteOfCodepoint(b: Byte)
    ensures ByteOf(Codepoint(b)) == b
  {
    CodepointInjective(b, ByteOf(Codepoint(b)));
  }

  lemma NoByteOf(cp: nat)
    requires forall b: Byte :: Codepoint(b) != cp
    ensures ByteOf(cp) == -1
  {
  }

  /** utf8_put: `0xc0 | (cp >> 6)` is 192 + cp / 64, and so on. */
  function Utf8(cp: nat): (s: Str)
    requires cp < 0x20_0000
    ensures 1 <= |s| <= 4
  {
    if cp <= 0x7f then [cp]
    else if cp <= 0x7ff then [192 + cp / 64, 128 + cp % 64]
    else if cp <= 0xffff then [224 + cp / 4096, 128 + cp / 64 % 64, 128 + cp % 64]
    else [240 + cp / 262144, 128 + cp / 4096 % 64, 128 + cp / 64 % 64, 128 + cp % 64]
  }

  /** utf8_len_from_first_byte. */
  function FirstLen(c: Byte): (n: nat)
    ensures 1 <= n <= 4
  {
    if c < 0x80 then 1
    else if c / 32 == 6 then 2
    else if c / 16 == 14 then 3
    else if c / 8 == 30 then 4
    else 1
  }

  /** next_utf8_char: a sequence cut off by the end of the string counts as one byte. */
  function NextChar(s: Str, pos: nat): (next: nat)
    requires pos < |s|
    ensures pos < next <= |s|
  {
    var n := FirstLen(s[pos]);
    if pos + n > |s| then pos + 1 else pos + n
  }

  function Low6(c: Byte): nat {
    c % 64
  }

  /** utf8_peek_one: the code point at pos, of NextChar(s, pos) - pos bytes. */
  function Peek(s: Str, pos: nat): nat
    requires pos < |s|
  {
    var n := NextChar(s, pos) - pos;
    var c0: int := s[pos];
    if n == 1 then c0
    else if n == 2 then c0 % 32 * 64 + Low6(s[pos + 1])
    else if n == 3 then c0 % 16 * 4096 + Low6(s[pos + 1]) * 64 + Low6(s[pos + 2])
    else c0 % 8 * 262144 + Low6(s[pos + 1]) * 4096 + Low6(s[pos + 2]) * 64 + Low6(s[pos + 3])
  }

  /** What utf8_put wrote is what utf8_peek_one reads, whatever follows. */
  lemma PeekUtf8(cp: nat, rest: Str)
    requires cp < 0x20_0000
    ensures var s := Utf8(cp) + rest; NextChar(s, 0) == |Utf8(cp)| && Peek(s, 0) == cp
  {
    Leads(cp / 64);
    Leads(cp / 4096);
    Leads(cp / 262144);
    Tails(cp);
    Digits(cp);
    hide Low6;
  }

  lemma Leads(d: nat)
    ensures d < 32 ==> (192 + d) / 32 == 6 && (192 + d) % 32 == d
    ensures d < 16 ==> (224 + d) / 16 == 14 && (224 + d) / 32 == 7 && (224 + d) % 16 == d
    ensures d < 8 ==> (240 + d) / 8 == 30 && (240 + d) / 16 == 15 && (240 + d) / 32 == 7 && (240 + d) % 8 == d
  {
  }

  lemma Tails(cp: nat)
    ensures Low6(128 + cp % 64) == cp % 64
    ensures Low6(128 + cp / 64 % 64) == cp / 64 % 64
    ensures Low6(128 + cp / 4096 % 64) == cp / 4096 % 64
  {
    Tail(cp % 64);
    Tail(cp / 64 % 64);
    Tail(cp / 4096 % 64);
  }

  lemma Tail(d: nat)
    requires d < 64
    ensures Low6(128 + d) == d
  {
  }

  lemma Digits(cp: nat)
    ensures cp == cp / 64 * 64 + cp % 64
    ensures cp / 64 == cp / 4096 * 64 + cp / 64 % 64
    ensures cp / 4096 == cp / 262144 * 64 + cp / 4096 % 64
  {
  }

  function Char(b: Byte): Str {
    SkippedGrows(0, b);
    Utf8(Codepoint(b))
  }

  function Encode(s: Str): Str {
    if s == [] then [] else Char(s[0]) + Encode(s[1..])
  }

  /** byte_encode. */
  method ByteEncode(s: Str) returns (out: Str)
    ensures out == Encode(s)
  {
    out := [];
    var i := 0;
    while i < |s|
      invariant 0 <= i <= |s| && out == Encode(s[..i])
    {
      SkippedGrows(0, s[i]);
      var cp := GptByteToCodepoint(s[i]);
      EncodeMore(s[..i], [s[i]]);
      assert s[..i + 1] == s[..i] + [s[i]];
      out := out + Utf8(cp);
      i := i + 1;
    }
    assert s[..|s|] == s;
  }

  lemma {:induction false} EncodeMore(a: Str, b: Str)
    ensures Encode(a + b) == Encode(a) + Encode(b)
  {
    hide Char;
    if a == [] {
      assert a + b == b;
    } else {
      EncodeMore(a[1..], b);
      assert (a + b)[1..] == a[1..] + b && (a + b)[0] == a[0];
      assert Encode(a + b) == Char(a[0]) + (Encode(a[1..]) + Encode(b));
    }
  }

  /** The bytes a token text spells; a code point that stands for no byte is kept as it is. */
  ghost function Decode(s: Str): Str
    decreases |s|
  {
    if s == [] then [] else
      var n := NextChar(s, 0);
      Spelled(s[..n], Peek(s, 0)) + Decode(s[n..])
  }

  ghost function Spelled(raw: Str, cp: nat): Str {
    if ByteOf(cp) >= 0 then [ByteOf(cp)] else raw
  }

  lemma SpelledIs(raw: Str, cp: nat)
    ensures Spelled(raw, cp) == if ByteOf(cp) >= 0 then [ByteOf(cp)] else raw
  {
  }

  ghost predicate DecodedTo(src: Str, out: Str, off: nat) {
    off <= |src| && out + Decode(src[off..]) == Decode(src)
  }

  lemma DecodeStep(src: Str, out: Str, off: nat)
    requires off < |src| && DecodedTo(src, out, off)
    ensures DecodedTo(src, out + Spelled(src[off..NextChar(src, off)], Peek(src, off)), NextChar(src, off))
  {
    var next := NextChar(src, off);
    var rest := src[off..];
    SuffixPeek(src, off);
    assert rest[next - off..] == src[next..] && rest[..next - off] == src[off..next];
    hide Peek, NextChar, Spelled;
    var chunk := Spelled(src[off..next], Peek(src, off));
    assert (out + chunk) + Decode(src[next..]) == out + (chunk + Decode(src[next..]));
  }

  lemma SuffixPeek(src: Str, off: nat)
    requires off < |src|
    ensures NextChar(src[off..], 0) == NextChar(src, off) - off && Peek(src[off..], 0) == Peek(src, off)
  {
    hide Low6;
  }

  /** The loop of sf37_token_text. */
  method DecodeText(src: Str) returns (out: Str)
    ensures out == Decode(src)
  {
    out := [];
    var off := 0;
    while off < |src|
      invariant DecodedTo(src, out, off)
    {
      hide *;
      var next := NextChar(src, off);
      DecodeStep(src, out, off);
      var chunk := src[off..next];
      SpelledIs(chunk, Peek(src, off));
      var b := GptCodepointToByte(Peek(src, off));
      if b >= 0 { chunk := [b]; }
      out := out + chunk;
      off := next;
    }
  }

  lemma CharFirst(b: Byte, rest: Str)
    ensures var s := Char(b) + rest; NextChar(s, 0) == |Char(b)| && Peek(s, 0) == Codepoint(b)
  {
    SkippedGrows(0, b);
    PeekUtf8(Codepoint(b), rest);
  }

  /** Spelling bytes and reading them back is the identity, so the spelling is injective. */
  lemma {:induction false} DecodeEncode(s: Str)
    ensures Decode(Encode(s)) == s
  {
    if s != [] {
      var rest := Encode(s[1..]);
      CharFirst(s[0], rest);
      ByteOfCodepoint(s[0]);
      assert (Char(s[0]) + rest)[|Char(s[0])|..] == rest;
      DecodeEncode(s[1..]);
    }
  }

  /** No spelled byte is a blank, a control character or DEL. */
  lemma {:induction false} EncodePrintable(s: Str)
    ensures forall c :: c in Encode(s) ==> c > 32 && c != 127
  {
    if s != [] {
      CharPrintable(s[0]);
      EncodePrintable(s[1..]);
    }
  }

  lemma CharPrintable(b: Byte)
    ensures forall c :: c in Char(b) ==> c > 32 && c != 127
  {
    SkippedGrows(0, b);
  }

  /** The characters of a string, as the symbols of a piece are first cut. */
  function Chars(s: Str): (cs: seq<Str>)
    decreases |s|
  {
    if s == [] then [] else
      var n := NextChar(s, 0);
      [s[..n]] + Chars(s[n..])
  }

  function Spellings(parts: seq<Str>): (syms: seq<Str>)
    ensures |syms| == |parts| && forall i :: 0 <= i < |syms| ==> syms[i] == Encode(parts[i])
  {
    if parts == [] then [] else [Encode(parts[0])] + Spellings(parts[1..])
  }

  function Singles(s: Str): (parts: seq<Str>)
    ensures |parts| == |s| && forall i :: 0 <= i < |parts| ==> parts[i] == [s[i]]
  {
    if s == [] then [] else [[s[0]]] + Singles(s[1..])
  }

  /** Each character of a spelled string is the spelling of one byte. */
  lemma {:induction false} CharsOfEncode(s: Str)
    ensures Chars(Encode(s)) == Spellings(Singles(s))
  {
    if s != [] {
      var rest := Encode(s[1..]);
      var e := Encode(s);
      CharFirst(s[0], rest);
      var n := |Char(s[0])|;
      assert e[..n] == Char(s[0]) && e[n..] == rest;
      assert Encode([s[0]]) == Char(s[0]);
      assert Singles(s)[1..] == Singles(s[1..]);
      CharsOfEncode(s[1..]);
    }
  }
}
