/** Little-endian 32-bit words in byte strings, and buffers written and read from front to back. */
module Bytes {
  import opened Basics

  type Str = seq<Byte>
  const U32: nat := 0x1_0000_0000

  function Word(v: nat): (b: seq<Byte>)
    requires v < U32
    ensures |b| == 4
  {
    [v % 256, v / 256 % 256, v / 65536 % 256, v / 16777216]
  }

  function Unword(b: seq<Byte>): (v: nat)
    requires |b| == 4
    ensures v < U32
  {
    b[0] as int + 256 * (b[1] as int) + 65536 * (b[2] as int) + 16777216 * (b[3] as int)
  }

  lemma WordRoundTrip(v: nat)
    requires v < U32
    ensures Unword(Word(v)) == v
  {
    var a, b, c := v / 256, v / 65536, v / 16777216;
    assert v == 256 * a + v % 256;
    assert a == 256 * b + a % 256 && b == a / 256;
    assert b == 256 * c + b % 256 && c == b / 256;
  }

  function Words(ws: seq<nat>): (b: seq<Byte>)
    requires forall i :: 0 <= i < |ws| ==> ws[i] < U32
    ensures |b| == 4 * |ws|
  {
    if ws == [] then [] else Word(ws[0]) + Words(ws[1..])
  }

  /** The i-th word of the bytes. */
  function WordAt(b: seq<Byte>, i: nat): nat
    requires 4 * i + 4 <= |b|
  {
    Unword(b[4 * i..4 * i + 4])
  }

  lemma WordAfter(b: seq<Byte>, k: nat, i: nat)
    requires 4 * k + 4 * i + 4 <= |b|
    ensures WordAt(b[4 * k..], i) == WordAt(b, k + i)
  {
    assert b[4 * k..][4 * i..4 * i + 4] == b[4 * (k + i)..4 * (k + i) + 4];
  }

  lemma NextWord(ws: seq<nat>, i: nat, rest: seq<Byte>)
    requires i < |ws| && forall k :: 0 <= k < |ws| ==> ws[k] < U32
    ensures Words(ws[i..]) + rest == Word(ws[i]) + (Words(ws[i + 1..]) + rest)
  {
    assert ws[i..][1..] == ws[i + 1..];
    assert Words(ws[i..]) == Word(ws[i]) + Words(ws[i + 1..]);
  }

  class Writer {
    const cap: nat
    var out: seq<Byte>

    constructor (cap: nat)
      ensures this.cap == cap && out == []
    {
      this.cap, out := cap, [];
    }

    /** snapshot_write_bytes: nothing is written when it does not fit. */
    method Write(s: seq<Byte>) returns (ok: bool)
      modifies this`out
      ensures ok == (|old(out)| + |s| <= cap)
      ensures out == if ok then old(out) + s else old(out)
    {
      ok := |out| + |s| <= cap;
      if ok { out := out + s; }
    }

    method WriteWord(v: nat) returns (ok: bool)
      requires v < U32
      modifies this`out
      ensures ok == (|old(out)| + 4 <= cap)
      ensures out == if ok then old(out) + Word(v) else old(out)
    {
      ok := Write(Word(v));
    }

    method WriteWords(ws: seq<nat>) returns (ok: bool)
      requires forall i :: 0 <= i < |ws| ==> ws[i] < U32
      modifies this`out
      ensures |old(out)| + 4 * |ws| <= cap ==> ok && out == old(out) + Words(ws)
    {
      ghost var before := out;
      for i := 0 to |ws|
        invariant |before| + 4 * |ws| <= cap ==> out + Words(ws[i..]) == before + Words(ws)
      {
        ok := WriteWord(ws[i]);
        if !ok { return; }
        assert ws[i..][1..] == ws[i + 1..];
        assert out + Words(ws[i + 1..]) == out[..|out| - 4] + (Word(ws[i]) + Words(ws[i + 1..]));
      }
      ok := true;
    }
  }

  class Reader {
    const bytes: seq<Byte>
    var pos: nat

    constructor (bytes: seq<Byte>)
      ensures this.bytes == bytes && Valid() && Rest() == bytes
    {
      this.bytes, pos := bytes, 0;
    }

    ghost predicate Valid()
      reads this
    {
      pos <= |bytes|
    }

    /** What has not been read. */
    ghost function Rest(): seq<Byte>
      requires Valid()
      reads this
    {
      bytes[pos..]
    }

    lemma Left()
      requires Valid()
      ensures |Rest()| == |bytes| - pos
    {
    }

    /** snapshot_read_bytes */
    method Read(n: nat) returns (ok: bool, s: seq<Byte>)
      requires Valid()
      modifies this`pos
      ensures Valid() && ok == (n <= |old(Rest())|)
      ensures ok ==> |s| == n && s + Rest() == old(Rest())
      ensures !ok ==> pos == old(pos)
    {
      ok, s := n <= |bytes| - pos, [];
      if ok {
        s := bytes[pos..pos + n];
        pos := pos + n;
      }
    }

    method ReadWord() returns (ok: bool, v: nat)
      requires Valid()
      modifies this`pos
      ensures Valid() && ok == (4 <= |old(Rest())|) && v < U32
      ensures ok ==> v == WordAt(old(Rest()), 0) && Rest() == old(Rest())[4..]
      ensures forall w: nat, rest :: w < U32 && old(Rest()) == Word(w) + rest ==> ok && v == w && Rest() == rest
    {
      var s;
      ghost var r0 := Rest();
      ok, s := Read(4);
      v := if ok then Unword(s) else 0;
      forall w: nat, rest | w < U32 && r0 == Word(w) + rest ensures ok && v == w && Rest() == rest {
        assert s == r0[..4] == Word(w) && Rest() == r0[4..] == rest;
        WordRoundTrip(w);
      }
    }

    /** n words if there are as many; when the buffer goes on with the words ws, these are read. */
    method ReadWords(n: nat, ghost ws: seq<nat>, ghost rest: seq<Byte>) returns (ok: bool, vs: seq<nat>)
      requires Valid() && (forall i :: 0 <= i < |ws| ==> ws[i] < U32)
      modifies this`pos
      ensures Valid() && (ok ==> |vs| == n && forall i :: 0 <= i < n ==> vs[i] < U32)
      ensures ok <==> 4 * n <= |old(Rest())|
      ensures ok ==> Rest() == old(Rest())[4 * n..] && forall i :: 0 <= i < n ==> vs[i] == WordAt(old(Rest()), i)
      ensures |ws| == n && old(Rest()) == Words(ws) + rest ==> ok && vs == ws && Rest() == rest
    {
      ghost var good := |ws| == n && Rest() == Words(ws) + rest;
      ghost var all := Rest();
      vs := [];
      for i := 0 to n
        invariant Valid() && |vs| == i && 4 * i <= |all| && Rest() == all[4 * i..]
        invariant forall k :: 0 <= k < i ==> vs[k] < U32 && vs[k] == WordAt(all, k)
        invariant good ==> vs == ws[..i] && Rest() == Words(ws[i..]) + rest
      {
        hide *;
        if good { NextWord(ws, i, rest); }
        var v;
        ok, v := ReadWord();
        if !ok { return; }
        WordAfter(all, i, 0);
        vs := vs + [v];
      }
      ok := true;
      assert good ==> ws[..n] == ws && ws[n..] == [];
    }
  }
}
