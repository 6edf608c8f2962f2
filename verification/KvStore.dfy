/** The disk cache of sessions, keyed by the text their tokens render to. */
module KvStore {
  import opened Basics
  import opened Bytes
  import opened Eviction
  import Bpe
  import Rendering
  import Tokenizer

  const U64_MAX: nat := 0xffff_ffff_ffff_ffff
  const U32_MAX: nat := 0xffff_ffff
  const FIXED: nat := 48 + 4
  const MODEL_ID: nat := 37
  const QUANT_BITS: nat := 3

  /** A file: its header, the text it is keyed by, the tokens of its session, and whether the text was
      given by the caller instead of being rendered from the tokens. */
  datatype File = File(entry: Entry, text: Str, toks: seq<int>, given: bool)

  datatype Request = Request(toks: seq<int>, given: Str, reason: Reason, payload: nat, ctx: nat, now: nat,
    score: Entry -> real)

  function Entries(dir: seq<File>): (es: seq<Entry>)
    ensures |es| == |dir| && forall i :: 0 <= i < |es| ==> es[i] == dir[i].entry
  {
    seq(|dir|, i requires 0 <= i < |dir| => dir[i].entry)
  }

  function FileBytes(text: nat, payload: nat, trailer: nat): nat {
    FIXED + text + payload + trailer
  }

  /** One per cent of headroom, rounded up. */
  function Required(file: nat): nat {
    file + file / 100 + if file % 100 != 0 then 1 else 0
  }

  /** Every file is named by the hash of its text, and unless the text was given it is what the tokens render to. */
  ghost predicate Keyed(dir: seq<File>, hash: Str -> Str, v: Bpe.Vocab) {
    forall i :: 0 <= i < |dir| ==> KeyedFile(dir[i], hash, v)
  }

  ghost predicate KeyedFile(f: File, hash: Str -> Str, v: Bpe.Vocab) {
    && f.entry.sha == hash(f.text) && f.entry.textBytes == |f.text| && f.entry.tokens == |f.toks|
    && (!f.given ==> Bpe.Render(v, f.toks) == f.text)
  }

  /** A session without tokens is not readable, so it is not listed. */
  function WithNew(dir: seq<File>, f: File): seq<File> {
    if f.toks == [] then dir else dir + [f]
  }

  /** Without fail the directory is what eviction leaves beside the incompatible file, and the new file. */
  ghost predicate Replaced(was: seq<File>, now: seq<File>, f: File, score: Entry -> real, target: nat)
    requires Distinct(Entries(was))
  {
    exists mid :: Entries(mid) == Evicted(score, Entries(WithoutNamed(was, f.entry.sha)), target) &&
      now == WithNew(mid, f)
  }

  /** Every file of `rest` was there before, and none has this name. */
  ghost predicate Others(was: seq<File>, rest: seq<File>, sha: Str) {
    forall g :: g in rest ==> g in was && g.entry.sha != sha
  }

  /** The file is the last of the directory, and the others were there before under other names; a session
      without tokens is not readable, so it is not listed. */
  ghost predicate Stored(was: seq<File>, now: seq<File>, f: File) {
    if f.toks == [] then Others(was, now, f.entry.sha)
    else |now| > 0 && now[|now| - 1] == f && Others(was, now[..|now| - 1], f.entry.sha)
  }

  ghost predicate NoOtherLost(was: seq<File>, now: seq<File>, sha: Str) {
    forall g :: g in was && g.entry.sha != sha ==> g in now
  }

  /** What removing the file of a name leaves. */
  lemma DroppedOthers(files: seq<File>, sha: Str)
    requires Distinct(Entries(files))
    ensures var i := IndexOf(files, sha);
      var rest := if i >= 0 then Dropped(files, i) else files;
      && Others(files, rest, sha) && NoOtherLost(files, rest, sha)
  {
    var i := IndexOf(files, sha);
    if i >= 0 {
      forall j | 0 <= j < |files| && j != i ensures files[j].entry.sha != sha {
        assert Entries(files)[j].sha != Entries(files)[i].sha;
      }
      hide Distinct, IndexOf, Entries;
      DroppedIs(files, i);
    }
  }

  lemma DroppedIs(files: seq<File>, i: nat)
    requires i < |files|
    ensures forall g :: g in Dropped(files, i) <==> exists j :: 0 <= j < |files| && j != i && files[j] == g
  {
    var rest := Dropped(files, i);
    forall g | g in rest ensures exists j :: 0 <= j < |files| && j != i && files[j] == g {
      var k :| 0 <= k < |rest| && rest[k] == g;
      assert files[if k < i then k else k + 1] == g;
    }
    forall j | 0 <= j < |files| && j != i ensures files[j] in rest {
      assert rest[if j < i then j else j - 1] == files[j];
    }
  }

  lemma StillNot(was: seq<File>, mid: seq<File>, sha: Str)
    requires IndexOf(was, sha) < 0 && forall g :: g in mid ==> g in was
    ensures IndexOf(mid, sha) < 0
  {
    forall j | 0 <= j < |mid| ensures mid[j].entry.sha != sha { assert mid[j] in was; }
  }

  lemma IsReplaced(was: seq<File>, mid: seq<File>, f: File, score: Entry -> real, target: nat)
    requires Distinct(Entries(was))
    ensures IndexOf(was, f.entry.sha) < 0 && Entries(mid) == Evicted(score, Entries(was), target) ==>
      Replaced(was, WithNew(mid, f), f, score, target)
  {
  }

  lemma ReplacedSince(was: seq<File>, mid: seq<File>, now: seq<File>, f: File, score: Entry -> real, target: nat)
    requires Distinct(Entries(was)) && Distinct(Entries(mid))
    requires mid == WithoutNamed(was, f.entry.sha)
    requires IndexOf(mid, f.entry.sha) < 0
    ensures Replaced(mid, now, f, score, target) ==> Replaced(was, now, f, score, target)
  {
  }

  lemma StoredSince(was: seq<File>, mid: seq<File>, now: seq<File>, f: File)
    requires forall g :: g in mid ==> g in was
    ensures Stored(mid, now, f) ==> Stored(was, now, f)
    ensures NoOtherLost(was, mid, f.entry.sha) && NoOtherLost(mid, now, f.entry.sha) ==>
      NoOtherLost(was, now, f.entry.sha)
  {
  }

  /** One hit more, and used now. */
  function Touched(files: seq<File>, i: nat, time: nat): seq<File>
    requires i < |files|
  {
    var e := files[i].entry;
    files[i := files[i].(entry := e.(hits := e.hits + 1, lastUsed := time))]
  }

  function Sized(f: File, size: nat): File {
    f.(entry := f.entry.(fileSize := size))
  }

  /** A trailer that was rewritten without fail. */
  ghost predicate Renewal(was: seq<File>, now: seq<File>, at: int, trailerEst: nat, trailer: nat, time: nat) {
    && 0 <= at < |was|
    && var e := was[at].entry;
      now == if trailerEst == 0 then was else
        was[at := was[at].(entry := e.(fileSize := FileBytes(e.textBytes, e.payloadBytes, trailer),
                                       lastUsed := if trailer > 0 then time else e.lastUsed))]
  }

  /** What the budget leaves beside a file of this size. */
  function Room(budget: nat, est: nat): nat {
    if est <= budget then budget - est else 0
  }

  /** The directory without the file of this name. */
  function WithoutNamed(dir: seq<File>, sha: Str): seq<File> {
    var i := IndexOf(dir, sha);
    if i >= 0 then Dropped(dir, i) else dir
  }

  function Excess(a: nat, b: nat): nat {
    if a > b then a - b else 0
  }

  /** The text that a session is stored under. */
  ghost function KeyText(v: Bpe.Vocab, toks: seq<int>, given: Str): Str {
    if given != [] then given else Bpe.Render(v, toks)
  }

  /** At most the size and the time of use of one file changed, and without a trailer nothing. */
  ghost predicate Rewritten(was: seq<File>, now: seq<File>, at: int, trailerEst: nat, trailer: nat, time: nat,
                            size: nat) {
    && 0 <= at < |was|
    && (var e := was[at].entry;
        && (trailerEst == 0 ==> size == e.fileSize)
        && (size == e.fileSize ||
          FileBytes(e.textBytes, e.payloadBytes, 0) <= size <= FileBytes(e.textBytes, e.payloadBytes, trailer))
        && (now == was[at := was[at].(entry := e.(fileSize := size))]
            || now == was[at := was[at].(entry := e.(fileSize := size, lastUsed := time))]))
  }

  function IndexOf(dir: seq<File>, sha: Str): (r: int)
    ensures r >= 0 ==> r < |dir| && dir[r].entry.sha == sha
    ensures r < 0 ==> forall i :: 0 <= i < |dir| ==> dir[i].entry.sha != sha
  {
    if dir == [] then -1 else if dir[|dir| - 1].entry.sha == sha then |dir| - 1 else IndexOf(dir[..|dir| - 1], sha)
  }

  function Dropped(dir: seq<File>, i: int): seq<File>
    requires 0 <= i < |dir|
  {
    dir[..i] + dir[i + 1..]
  }

  lemma EntriesDropped(dir: seq<File>, i: int)
    requires 0 <= i < |dir|
    ensures Entries(Dropped(dir, i)) == Without(Entries(dir), i)
  {
  }

  class KvStore {
    const enabled: bool
    const budget: nat
    const rejectDifferentQuant: bool
    const minTokens: int
    const coldMaxTokens: int
    const hash: Str -> Str
    /** Files can always be read, written, renamed and removed. */
    const steady: bool
    var entry: array<Entry>
    var len: nat
    /** The readable files of the directory, in the order they are listed. */
    var dir: seq<File>

    ghost predicate Valid()
      reads this, entry
    {
      len <= entry.Length && Distinct(Entries(dir))
    }

    constructor (enabled: bool, budget: nat, rejectDifferentQuant: bool, minTokens: int, coldMaxTokens: int,
                 hash: Str -> Str, dir: seq<File>, steady: bool)
      requires Distinct(Entries(dir))
      ensures Valid() && fresh(entry) && this.dir == dir && this.budget == budget && this.enabled == enabled
      ensures this.hash == hash && this.minTokens == minTokens && this.rejectDifferentQuant == rejectDifferentQuant
      ensures this.coldMaxTokens == coldMaxTokens && this.steady == steady
    {
      this.enabled, this.budget, this.rejectDifferentQuant := enabled, budget, rejectDifferentQuant;
      this.minTokens, this.coldMaxTokens, this.hash, this.dir := minTokens, coldMaxTokens, hash, dir;
      this.steady := steady;
      entry, len := new Entry[0], 0;
    }

    /** kv_cache_refresh. */
    method Refresh()
      requires Valid() && enabled
      modifies this`entry, this`len
      ensures Valid() && fresh(entry) && len == entry.Length && entry[..] == Entries(dir)
    {
      entry := new Entry[|dir|](i requires 0 <= i < |dir| reads this => dir[i].entry);
      len := |dir|;
    }

    method SumSizes() returns (total: nat)
      requires len <= entry.Length
      ensures total == Total(entry[..len])
    {
      total := 0;
      var i := 0;
      while i < len
        invariant 0 <= i <= len && total == Total(entry[..i])
      {
        assert entry[..i + 1][..i] == entry[..i];
        total := total + entry[i].fileSize;
        i := i + 1;
      }
    }

    /** The scan for the entry to evict. */
    method FindVictim(score: Entry -> real) returns (victim: nat)
      requires 0 < len <= entry.Length
      ensures victim < len && IsVictim(score, entry[..len], victim)
    {
      victim := 0;
      var victimScore := score(entry[0]);
      var i := 1;
      while i < len
        invariant 1 <= i <= len && victim < i && victimScore == score(entry[victim])
        invariant IsVictim(score, entry[..i], victim)
      {
        var s := score(entry[i]);
        if s < victimScore || (s == victimScore && entry[i].lastUsed < entry[victim].lastUsed) {
          victim, victimScore := i, s;
        }
        i := i + 1;
      }
    }

    /** The entries after the victim move down. */
    method CloseGap(victim: nat)
      requires victim < len <= entry.Length
      modifies this`len, entry
      ensures len == old(len) - 1 && entry[..len] == Without(old(entry[..len]), victim)
    {
      var j := victim;
      while j + 1 < len
        invariant victim <= j < len && len == old(len)
        invariant forall k :: 0 <= k < victim ==> entry[k] == old(entry[k])
        invariant forall k :: victim <= k < j ==> entry[k] == old(entry[k + 1])
        invariant forall k :: j <= k < len ==> entry[k] == old(entry[k])
      {
        entry[j] := entry[j + 1];
        j := j + 1;
      }
      len := len - 1;
      ghost var was := old(entry[..len]);
      assert forall k :: 0 <= k < len ==> entry[..len][k] == if k < victim then was[k] else was[k + 1];
    }

    /** Removing a file by name, which may fail. */
    method Unlink(sha: Str) returns (ok: bool)
      requires Valid()
      modifies this`dir
      ensures Valid()
      ensures ok ==> (var i := IndexOf(old(dir), sha); i >= 0 && dir == Dropped(old(dir), i))
      ensures !ok ==> dir == old(dir) && (IndexOf(dir, sha) >= 0 ==> !steady)
    {
      var i := IndexOf(dir, sha);
      if i < 0 { return false; }
      var refused: bool :| refused ==> !steady;
      if refused { return false; }
      EntriesDropped(dir, i);
      WithoutMembers(Entries(dir), i);
      dir := Dropped(dir, i);
      ok := true;
    }

    /** sf37_kvstore_evict; ok when no file refused to go. */
    method Evict(score: Entry -> real, extra: nat) returns (ok: bool)
      requires Valid()
      modifies this`entry, this`len, this`dir
      ensures Valid() && (entry == old(entry) || fresh(entry)) && forall f :: f in dir ==> f in old(dir)
      ensures !enabled || budget == 0 || extra > budget || old(Total(Entries(dir))) + extra <= budget ==>
        dir == old(dir)
      ensures !ok ==> !steady
      ensures ok && enabled && 0 < budget && extra <= budget ==>
        Entries(dir) == Evicted(score, old(Entries(dir)), budget - extra)
    {
      ok := true;
      if !enabled || budget == 0 { return; }
      if extra > budget { return; }
      Refresh();
      var total := SumSizes();
      var target := budget - extra;
      ghost var start := Entries(dir);
      assert entry[..len] == entry[..];
      while total > target && len > 0
        invariant Valid() && fresh(entry) && forall f :: f in dir ==> f in old(dir)
        invariant ok ==> total == Total(entry[..len]) && entry[..len] == Entries(dir)
        invariant ok ==> Evicted(score, Entries(dir), target) == Evicted(score, start, target)
        invariant !ok ==> total == 0 && !steady
        invariant Total(start) <= target ==> dir == old(dir)
        decreases len
      {
        hide *;
        var gone;
        gone, total := EvictOne(score, total, target);
        ok := ok && gone;
      }
    }

    /** One round: the victim goes, unless its file cannot be removed, which ends the loop. */
    method EvictOne(score: Entry -> real, before: nat, target: nat) returns (gone: bool, total: nat)
      requires Valid() && len > 0 && entry[..len] == Entries(dir) && before == Total(entry[..len]) && before > target
      modifies this`len, this`dir, entry
      ensures Valid() && len == old(len) - 1 && forall f :: f in dir ==> f in old(dir)
      ensures gone ==> entry[..len] == Entries(dir) && total == Total(entry[..len])
      ensures gone ==> Evicted(score, Entries(dir), target) == Evicted(score, old(Entries(dir)), target)
      ensures !gone ==> dir == old(dir) && total == 0 && !steady
    {
      var victim := FindVictim(score);
      EvictedStep(score, entry[..len], target, victim);
      TotalWithout(entry[..len], victim);
      NamedAt(dir, victim);
      EntriesDropped(dir, victim);
      var e := entry[victim];
      hide IsVictim, Evicted, Total;
      gone := Unlink(e.sha);
      if gone {
        total := before - e.fileSize;
      } else {
        total := 0;
      }
      CloseGap(victim);
    }

    /** The file fits the budget with its headroom, and 64 bits. */
    predicate SizeOk(text: nat, payload: nat, trailer: nat) {
      var file := FileBytes(text, payload, trailer);
      file <= U64_MAX && (budget > 0 ==> Required(file) <= budget && Required(file) <= U64_MAX)
    }

    /** sf37_kvstore_file_size_fits. */
    method FileSizeFits(text: nat, payload: nat, trailer: nat) returns (fits: bool, file: nat)
      ensures fits <==> SizeOk(text, payload, trailer)
      ensures fits ==> file == FileBytes(text, payload, trailer)
    {
      file := FileBytes(text, payload, trailer);
      if file > U64_MAX { return false, 0; }
      if budget == 0 { return true, file; }
      var required := Required(file);
      if required > U64_MAX { return false, file; }
      fits := required <= budget;
    }

    predicate Compatible(f: File, text: Str, ctx: nat) {
      && f.entry.modelId == MODEL_ID && (!rejectDifferentQuant || f.entry.quantBits == QUANT_BITS)
      && f.entry.ctxSize <= ctx && f.text == text
    }

    /** kv_cache_existing_compatible: a file for another model or context with the same name goes. */
    method ExistingCompatible(sha: Str, text: Str, ctx: nat, ghost v: Bpe.Vocab) returns (found: bool, at: int)
      requires Valid() && Keyed(dir, hash, v)
      modifies this`dir
      ensures Valid() && Keyed(dir, hash, v) && forall f :: f in dir ==> f in old(dir)
      ensures at == IndexOf(old(dir), sha) && (found <==> at >= 0 && Compatible(old(dir)[at], text, ctx))
      ensures found ==> dir == old(dir)
      ensures Total(Entries(dir)) <= old(Total(Entries(dir))) && NoOtherLost(old(dir), dir, sha)
      ensures !found && steady ==>
        IndexOf(dir, sha) < 0 && dir == WithoutNamed(old(dir), sha)
    {
      DroppedOthers(dir, sha);
      at := IndexOf(dir, sha);
      if at < 0 { return false, at; }
      var f := dir[at];
      found := Compatible(f, text, ctx);
      if !found {
        hide Distinct, Keyed, KeyedFile, Total, IndexOf;
        DroppedKeeps(dir, at, hash, v);
        var gone := Unlink(sha);
      }
    }

    /** sf37_kvstore_store_live_prefix_text, for the tokens of the live session. An empty `given` means
        that the text is rendered from them. Staging, writing and renaming may fail. A new file keeps the
        budget up to what its trailer turns out longer than estimated. When a compatible file is there
        already, only its trailer is rewritten, and the budget holds if and only if it has room for the
        difference. */
    method Store(tk: Tokenizer.Tokenizer, toks: seq<int>, given: Str, reason: Reason, payload: nat, trailerEst: nat,
                 trailer: nat,
                 ctx: nat, now: nat, score: Entry -> real)
      returns (ok: bool, unlinked: bool, failed: bool, size: Option<nat>)
      requires Valid() && Keyed(dir, hash, tk.Vocabulary())
      modifies this, entry
      ensures Valid() && Keyed(dir, hash, tk.Vocabulary()) && (entry == old(entry) || fresh(entry))
      ensures failed ==> !steady && !ok
      ensures !failed ==>
        (ok <==> Storable(KeyText(tk.Vocabulary(), toks, given), toks, payload, trailerEst, trailer, size))
      ensures !ok ==> forall g :: g in dir ==> g in old(dir)
      ensures var text := KeyText(tk.Vocabulary(), toks, given);
        var f := NewFile(text, toks, given, reason, payload, trailer, ctx, now);
        ok && size.None? ==> StoredNew(old(dir), dir, f, FileBytes(|text|, payload, trailerEst), score)
      ensures unlinked && size.None? && enabled && 0 < budget && old(Total(Entries(dir))) <= budget ==>
        Total(Entries(dir)) <= budget + Excess(trailer, trailerEst)
      ensures var text := KeyText(tk.Vocabulary(), toks, given);
        size.Some? <==> enabled && |toks| >= minTokens && |text| <= U32_MAX && HasCompatible(old(dir), text, ctx)
      ensures size.Some? ==>
        Renewed(old(dir), dir, IndexOf(old(dir), hash(KeyText(tk.Vocabulary(), toks, given))), trailerEst, trailer, now,
          size.value)
    {
      hide *;
      unlinked, failed, size := true, false, None;
      StorableIf(KeyText(tk.Vocabulary(), toks, given), toks, payload, trailerEst, trailer);
      if !enabled || |toks| < minTokens { return false, true, false, None; }
      var text := given;
      if given == [] { text := tk.RenderTokens(toks); }
      KeyTextIs(tk.Vocabulary(), toks, given);
      if |text| > U32_MAX { return false, true, false, None; }
      ok, unlinked, failed, size := StoreText(text, toks, given, reason, payload, trailerEst, trailer, ctx, now, score,
        tk.Vocabulary());
    }

    lemma KeyTextIs(v: Bpe.Vocab, toks: seq<int>, given: Str)
      ensures KeyText(v, toks, given) == if given != [] then given else Bpe.Render(v, toks)
    {
    }

    /** When a store succeeds that does not fail: a file is there already, or the new one fits. */
    predicate Storable(text: Str, toks: seq<int>, payload: nat, trailerEst: nat, trailer: nat, size: Option<nat>) {
      && enabled && |toks| >= minTokens && |text| <= U32_MAX
      && (size.Some? || (SizeOk(|text|, payload, trailerEst) && SizeOk(|text|, payload, trailer)))
    }

    lemma StorableIf(text: Str, toks: seq<int>, payload: nat, trailerEst: nat, trailer: nat)
      ensures forall size :: Storable(text, toks, payload, trailerEst, trailer, size) <==>
        enabled && |toks| >= minTokens && |text| <= U32_MAX &&
        (size.Some? || (SizeOk(|text|, payload, trailerEst) && SizeOk(|text|, payload, trailer)))
    {
    }

    predicate HasCompatible(files: seq<File>, text: Str, ctx: nat) {
      var at := IndexOf(files, hash(text));
      at >= 0 && Compatible(files[at], text, ctx)
    }

    /** The new file is in the directory. While there is room no other is lost, and without fail the others
        are those that eviction leaves. */
    ghost predicate StoredNew(was: seq<File>, files: seq<File>, f: File, est: nat, score: Entry -> real)
      requires Distinct(Entries(was))
    {
      && Stored(was, files, f)
      && (budget == 0 || Total(Entries(was)) + est <= budget ==> NoOtherLost(was, files, f.entry.sha))
      && (steady && 0 < budget ==> Replaced(was, files, f, score, Room(budget, est)))
    }

    /** The trailer of one file was rewritten, and the budget holds if it has room for the difference. */
    ghost predicate Renewed(was: seq<File>, files: seq<File>, at: int, trailerEst: nat, trailer: nat, time: nat,
                            size: nat)
    {
      && Rewritten(was, files, at, trailerEst, trailer, time, size)
      && (steady ==> Renewal(was, files, at, trailerEst, trailer, time))
      && (Total(Entries(files)) <= budget <==> Total(Entries(was)) - was[at].entry.fileSize + size <= budget)
    }

    /** The store under a known text. */
    method StoreText(text: Str, toks: seq<int>, given: Str, reason: Reason, payload: nat, trailerEst: nat, trailer: nat,
                     ctx: nat, now: nat, score: Entry -> real, ghost v: Bpe.Vocab)
      returns (ok: bool, unlinked: bool, failed: bool, size: Option<nat>)
      requires Valid() && Keyed(dir, hash, v) && text == KeyText(v, toks, given)
      requires enabled && |toks| >= minTokens && |text| <= U32_MAX
      modifies this, entry
      ensures Valid() && Keyed(dir, hash, v) && (entry == old(entry) || fresh(entry))
      ensures failed ==> !steady && !ok
      ensures !failed ==>
        (ok <==> size.Some? || (SizeOk(|text|, payload, trailerEst) && SizeOk(|text|, payload, trailer)))
      ensures !ok ==> forall g :: g in dir ==> g in old(dir)
      ensures ok && size.None? ==>
        StoredNew(old(dir), dir, NewFile(text, toks, given, reason, payload, trailer, ctx, now),
                  FileBytes(|text|, payload, trailerEst), score)
      ensures unlinked && size.None? && 0 < budget && old(Total(Entries(dir))) <= budget ==>
        Total(Entries(dir)) <= budget + Excess(trailer, trailerEst)
      ensures size.Some? <==> HasCompatible(old(dir), text, ctx)
      ensures size.Some? ==> Renewed(old(dir), dir, IndexOf(old(dir), hash(text)), trailerEst, trailer, now, size.value)
    {
      hide Keyed, KeyedFile, Distinct, Total, IndexOf, Rewritten, Renewal, Entries, Compatible, Stored, NoOtherLost;
      hide SizeOk, Replaced, StoredNew;
      ghost var was := dir;
      var found, at := ExistingCompatible(hash(text), text, ctx, v);
      if found {
        var bytes := RewriteTrailer(at, trailerEst, trailer, now, v);
        return true, true, false, Some(bytes);
      }
      size := None;
      ghost var mid := dir;
      ok, unlinked, failed := StoreNew(text, toks, given, reason, payload, trailerEst, trailer, ctx, now, score, v);
      if ok {
        StoredNewSince(was, mid, dir, NewFile(text, toks, given, reason, payload, trailer, ctx, now),
                       FileBytes(|text|, payload, trailerEst), score);
      }
    }

    lemma StoredNewSince(was: seq<File>, mid: seq<File>, files: seq<File>, f: File, est: nat, score: Entry -> real)
      requires Distinct(Entries(was)) && Distinct(Entries(mid)) && StoredNew(mid, files, f, est, score)
      requires (forall g :: g in mid ==> g in was) && NoOtherLost(was, mid, f.entry.sha)
      requires Total(Entries(mid)) <= Total(Entries(was))
      requires steady ==> IndexOf(mid, f.entry.sha) < 0 && mid == WithoutNamed(was, f.entry.sha)
      ensures StoredNew(was, files, f, est, score)
    {
      hide Total, Distinct, Evicted, IndexOf;
      StoredSince(was, mid, files, f);
      if steady { ReplacedSince(was, mid, files, f, score, Room(budget, est)); }
    }

    function NewFile(text: Str, toks: seq<int>, given: Str, reason: Reason, payload: nat, trailer: nat, ctx: nat,
                     now: nat): File {
      var e := Entry(hash(text), QUANT_BITS, MODEL_ID, reason, |toks|, 0, ctx, now, |text|, payload,
                     FileBytes(|text|, payload, trailer));
      File(e, text, toks, given != [])
    }

    /** No compatible file is there. */
    method StoreNew(text: Str, toks: seq<int>, given: Str, reason: Reason, payload: nat, trailerEst: nat, trailer: nat,
                    ctx: nat, now: nat, score: Entry -> real, ghost v: Bpe.Vocab)
      returns (ok: bool, unlinked: bool, failed: bool)
      requires Valid() && Keyed(dir, hash, v) && enabled && text == KeyText(v, toks, given)
      requires steady ==> IndexOf(dir, hash(text)) < 0
      modifies this, entry
      ensures Valid() && Keyed(dir, hash, v) && (entry == old(entry) || fresh(entry))
      ensures failed ==> !steady && !ok
      ensures !failed ==> (ok <==> SizeOk(|text|, payload, trailerEst) && SizeOk(|text|, payload, trailer))
      ensures ok ==>
        StoredNew(old(dir), dir, NewFile(text, toks, given, reason, payload, trailer, ctx, now),
                  FileBytes(|text|, payload, trailerEst), score)
      ensures !ok ==> forall g :: g in dir ==> g in old(dir)
      ensures unlinked && 0 < budget && old(Total(Entries(dir))) <= budget ==>
        Total(Entries(dir)) <= budget + Excess(trailer, trailerEst)
    {
      hide Keyed, KeyedFile, Distinct, Total, Entries, Stored, NoOtherLost;
      failed :| failed ==> !steady;
      if failed { return false, true, true; }
      var fits, est := FileSizeFits(|text|, payload, trailerEst);
      if !fits { return false, true, false; }
      var e := Entry(hash(text), QUANT_BITS, MODEL_ID, reason, |toks|, 0, ctx, now, |text|, payload, est);
      KeyedNew(e, text, toks, given, hash, v);
      ok, unlinked, failed := Write(score, est, trailer, File(e, text, toks, given != []), v);
    }

    /** Eviction until a file of this size fits. */
    method MakeRoom(score: Entry -> real, est: nat, ghost v: Bpe.Vocab) returns (unlinked: bool)
      requires Valid() && Keyed(dir, hash, v) && enabled && (budget > 0 ==> est <= budget)
      modifies this`entry, this`len, this`dir
      ensures Valid() && Keyed(dir, hash, v) && (entry == old(entry) || fresh(entry))
      ensures (forall g :: g in dir ==> g in old(dir)) && (unlinked || !steady)
      ensures budget == 0 || old(Total(Entries(dir))) + est <= budget ==> dir == old(dir)
      ensures unlinked && 0 < budget ==> Total(Entries(dir)) + est <= budget
      ensures unlinked && 0 < budget ==> Entries(dir) == Evicted(score, old(Entries(dir)), Room(budget, est))
    {
      ghost var was := dir;
      unlinked := Evict(score, est);
      KeyedSome(was, dir, hash, v);
      ghost var target: nat := if est <= budget then budget - est else 0;
      EvictedWell(score, Entries(was), target);
      hide Evicted, Total;
    }

    /** Making room for the estimated size and writing the file; the size is checked again with the
        trailer that was written. */
    method Write(score: Entry -> real, est: nat, trailer: nat, f: File, ghost v: Bpe.Vocab)
      returns (ok: bool, unlinked: bool, failed: bool)
      requires Valid() && Keyed(dir, hash, v) && KeyedFile(f, hash, v) && enabled && (budget > 0 ==> est <= budget)
      requires steady ==> IndexOf(dir, f.entry.sha) < 0
      modifies this, entry
      ensures Valid() && Keyed(dir, hash, v) && (entry == old(entry) || fresh(entry))
      ensures failed ==> !steady && !ok
      ensures !failed ==> (ok <==> SizeOk(f.entry.textBytes, f.entry.payloadBytes, trailer))
      ensures ok ==>
        StoredNew(old(dir), dir, Sized(f, FileBytes(f.entry.textBytes, f.entry.payloadBytes, trailer)), est, score)
      ensures !ok ==> forall g :: g in dir ==> g in old(dir)
      ensures unlinked && 0 < budget && old(Total(Entries(dir))) <= budget ==>
        Total(Entries(dir)) <= budget + Excess(FileBytes(f.entry.textBytes, f.entry.payloadBytes, trailer), est)
    {
      assert Distinct(Entries(dir));
      hide *;
      ghost var was := dir;
      unlinked := MakeRoom(score, est, v);
      failed :| failed ==> !steady;
      if failed { return false, unlinked, true; }
      var fits, size := FileSizeFits(f.entry.textBytes, f.entry.payloadBytes, trailer);
      if !fits { return false, unlinked, false; }
      failed :| failed ==> !steady;
      if failed { return false, unlinked, true; }
      var f' := Sized(f, size);
      KeyedWhateverSize(f, size, hash, v);
      ghost var mid := dir;
      MoveInPlace(f', v);
      StoredSince(was, mid, dir, f');
      if IndexOf(was, f'.entry.sha) < 0 { StillNot(was, mid, f'.entry.sha); }
      IsReplaced(was, mid, f', score, Room(budget, est));
      IsStoredNew(was, dir, f', est, score);
      ExcessIs(size, est);
      ok := true;
    }

    lemma IsStoredNew(was: seq<File>, files: seq<File>, f: File, est: nat, score: Entry -> real)
      requires Distinct(Entries(was)) && Stored(was, files, f)
      requires budget == 0 || Total(Entries(was)) + est <= budget ==> NoOtherLost(was, files, f.entry.sha)
      requires steady && 0 < budget ==> Replaced(was, files, f, score, Room(budget, est))
      ensures StoredNew(was, files, f, est, score)
    {
    }

    /** A store without a trailer: the budget is kept. */
    method StorePlain(tk: Tokenizer.Tokenizer, r: Request) returns (unlinked: bool)
      requires Valid() && Keyed(dir, hash, tk.Vocabulary())
      modifies this, entry
      ensures Valid() && Keyed(dir, hash, tk.Vocabulary()) && (entry == old(entry) || fresh(entry))
      ensures unlinked && enabled && 0 < budget && old(Total(Entries(dir))) <= budget ==> Total(Entries(dir)) <= budget
    {
      hide *;
      var ok, failed, size;
      ghost var was := dir;
      ok, unlinked, failed, size := Store(tk, r.toks, r.given, r.reason, r.payload, 0, 0, r.ctx, r.now, r.score);
      ExcessIs(0, 0);
      if size.Some? {
        RewrittenNothing(was, dir, IndexOf(was, hash(KeyText(tk.Vocabulary(), r.toks, r.given))), r.now, size.value);
      }
    }

    lemma ExcessIs(a: nat, b: nat)
      ensures a <= b + Excess(a, b) && (a <= b ==> Excess(a, b) == 0)
    {
    }

    lemma RewrittenNothing(was: seq<File>, files: seq<File>, at: int, time: nat, size: nat)
      requires Renewed(was, files, at, 0, 0, time, size)
      ensures Total(Entries(files)) <= budget <==> Total(Entries(was)) <= budget
    {
    }

    /** Opening the cache and any run of stores without trailers: if no file refused to be removed, the
        directory is within the budget after every one of them. */
    method Run(tk: Tokenizer.Tokenizer, score: Entry -> real, requests: seq<Request>)
      returns (unlinked: bool, ghost totals: seq<nat>)
      requires Valid() && Keyed(dir, hash, tk.Vocabulary())
      modifies this, entry
      ensures Valid() && Keyed(dir, hash, tk.Vocabulary()) && |totals| == |requests| + 1
      ensures unlinked && enabled && 0 < budget ==> forall i :: 0 <= i < |totals| ==> totals[i] <= budget
      ensures totals[|requests|] == Total(Entries(dir))
    {
      unlinked := true;
      if enabled { unlinked := MakeRoom(score, 0, tk.Vocabulary()); }
      hide *;
      totals := [Total(Entries(dir))];
      var i := 0;
      while i < |requests|
        invariant 0 <= i <= |requests| && |totals| == i + 1
        invariant Valid() && Keyed(dir, hash, tk.Vocabulary()) && (entry == old(entry) || fresh(entry))
        invariant unlinked && enabled && 0 < budget ==> forall j :: 0 <= j < |totals| ==> totals[j] <= budget
        invariant totals[i] == Total(Entries(dir))
      {
        var r := requests[i];
        var removed := StorePlain(tk, r);
        unlinked := unlinked && removed;
        totals := totals + [Total(Entries(dir))];
        i := i + 1;
      }
    }

    /** kv_cache_rewrite_trailer: the old trailer goes, and as much of the new one is written as can be.
        The budget is not looked at. */
    method RewriteTrailer(at: int, trailerEst: nat, trailer: nat, now: nat, ghost v: Bpe.Vocab) returns (size: nat)
      requires Valid() && Keyed(dir, hash, v) && 0 <= at < |dir|
      modifies this`dir
      ensures Valid() && Keyed(dir, hash, v) && Rewritten(old(dir), dir, at, trailerEst, trailer, now, size)
      ensures steady ==> Renewal(old(dir), dir, at, trailerEst, trailer, now)
      ensures Total(Entries(dir)) + old(dir[at].entry.fileSize) == old(Total(Entries(dir))) + size
    {
      var f := dir[at];
      size := f.entry.fileSize;
      if trailerEst == 0 { return; }
      var failed: bool :| failed ==> !steady;
      if failed { return; }
      var written: nat :| written <= trailer && (steady ==> written == trailer);
      size := FileBytes(f.entry.textBytes, f.entry.payloadBytes, written);
      var e := f.entry.(fileSize := size);
      if written == trailer && trailer > 0 {
        failed :| failed ==> !steady;
        if !failed { e := e.(lastUsed := now); }
      }
      RenewedEntry(dir, at, e, hash, v);
      dir := dir[at := f.(entry := e)];
    }

    /** The finished file takes its name, replacing a file that had it. A session without tokens is not
        readable, so it is not listed. */
    method MoveInPlace(f: File, ghost v: Bpe.Vocab)
      requires Valid() && Keyed(dir, hash, v) && KeyedFile(f, hash, v)
      modifies this`dir
      ensures Valid() && Keyed(dir, hash, v)
      ensures Total(Entries(dir)) <= old(Total(Entries(dir))) + f.entry.fileSize
      ensures Stored(old(dir), dir, f) && NoOtherLost(old(dir), dir, f.entry.sha)
      ensures IndexOf(old(dir), f.entry.sha) < 0 ==> dir == WithNew(old(dir), f)
    {
      ghost var was := dir;
      DroppedOthers(dir, f.entry.sha);
      hide Distinct, Keyed, KeyedFile, Total, IndexOf, Dropped;
      var i := IndexOf(dir, f.entry.sha);
      if i >= 0 {
        DroppedKeeps(dir, i, hash, v);
        dir := Dropped(dir, i);
      }
      if |f.toks| > 0 {
        Appended(dir, f, hash, v);
        dir := dir + [f];
        assert dir[..|dir| - 1] + [f] == dir;
      }
    }

    /** sf37_kvstore_find_text_prefix: the longest text of a usable session whose hash is that of as much
        of the prompt, and with as many tokens as possible. */
    method FindTextPrefix(prompt: Str, ctx: nat) returns (best: int)
      requires Valid() && enabled
      modifies this`entry, this`len
      ensures Valid() && len == entry.Length && entry[..] == Entries(dir)
      ensures best < 0 ==> forall i :: 0 <= i < len ==> !Usable(entry[i], prompt, ctx)
      ensures best >= 0 ==> best < len && Usable(entry[best], prompt, ctx)
      ensures best >= 0 ==> forall i :: 0 <= i < len && Usable(entry[i], prompt, ctx) ==> !Longer(entry[i], entry[best])
    {
      Refresh();
      best := -1;
      var i := 0;
      while i < len
        invariant 0 <= i <= len && best < i
        invariant best < 0 ==> forall j :: 0 <= j < i ==> !Usable(entry[j], prompt, ctx)
        invariant best >= 0 ==>
          Usable(entry[best], prompt, ctx) && forall j :: 0 <= j < i && Usable(entry[j], prompt, ctx) ==>
          !Longer(entry[j], entry[best])
      {
        var e := entry[i];
        if Fitting(e, prompt, ctx) && (best < 0 || Longer(e, entry[best])) && hash(prompt[..e.textBytes]) == e.sha {
          best := i;
        }
        i := i + 1;
      }
    }

    predicate Fitting(e: Entry, prompt: Str, ctx: nat) {
      && e.textBytes <= |prompt| && e.tokens >= minTokens && e.modelId == MODEL_ID && ctx >= e.ctxSize
      && (rejectDifferentQuant ==> e.quantBits == QUANT_BITS)
    }

    predicate Usable(e: Entry, prompt: Str, ctx: nat) {
      Fitting(e, prompt, ctx) && hash(prompt[..e.textBytes]) == e.sha
    }

    /** sf37_kvstore_try_load_text: the tokens of the session that was loaded and the prompt to go on
        with. Opening the file or loading the payload may fail, and in the second case the file goes. What
        is loaded is the best of the usable files, and something is loaded if there is one, the hash tells
        texts apart and nothing fails. A hit that is too long for the cold cache is forgotten, and any other
        is counted; a miss changes nothing, unless the payload was bad. */
    method TryLoad(tk: Tokenizer.Tokenizer, prompt: Str, ctx: nat, now: nat, effective: Tokenizer.Tokens)
      returns (loaded: nat, failed: bool)
      requires Valid() && Keyed(dir, hash, tk.Vocabulary()) && tk.Valid()
      modifies this, effective
      ensures Valid() && Keyed(dir, hash, tk.Vocabulary())
      ensures loaded > 0 ==>
        exists i :: 0 <= i < |old(dir)| && Hit(old(dir), i, tk.Vocabulary(), prompt, ctx, loaded, effective.v) &&
          AfterHit(old(dir), dir, i, now)
      ensures loaded == 0 && dir != old(dir) ==>
        failed && exists i :: 0 <= i < |old(dir)| && BadPayload(old(dir), dir, i, prompt, ctx)
      ensures failed ==> !steady
      ensures enabled && !failed && Honest(old(dir), prompt, ctx) ==>
        (exists f :: f in old(dir) && Usable(f.entry, prompt, ctx)) ==> loaded > 0
    {
      loaded, failed := 0, false;
      effective.v := [];
      if !enabled { return; }
      var idx := FindTextPrefix(prompt, ctx);
      if idx < 0 {
        NoneUsable(dir, entry[..], prompt, ctx);
        return;
      }
      var f := dir[idx];
      BestFound(dir, entry[..], idx, prompt, ctx);
      failed :| failed ==> !steady;
      if failed { return 0, true; }
      if |f.text| > |prompt| || hash(f.text) != entry[idx].sha || !(f.text <= prompt) { return; }
      failed :| failed ==> !steady;
      NamedAt(dir, idx);
      if failed {
        hide *;
        BadPayloadIs(dir, idx, prompt, ctx);
        Forget(f.entry.sha, tk.Vocabulary());
        return 0, true;
      }
      loaded := |f.toks|;
      tk.BuildPrompt(f.toks, prompt[|f.text|..], effective);
      LoadedRenders(tk.Vocabulary(), f, prompt, hash);
      hide *;
      HitIs(dir, idx, tk.Vocabulary(), prompt, ctx, loaded, effective.v);
      AfterHitIs(dir, idx, now);
      if loaded > 0 {
        if coldMaxTokens > 0 && loaded > coldMaxTokens {
          Forget(f.entry.sha, tk.Vocabulary());
        } else {
          Touch(idx, now, tk.Vocabulary());
        }
      }
    }

    /** The best usable file had a bad payload, and is gone. */
    ghost predicate BadPayload(was: seq<File>, files: seq<File>, i: nat, prompt: Str, ctx: nat)
      requires i < |was|
    {
      Best(was, was[i], prompt, ctx) && files == Dropped(was, i)
    }

    lemma BadPayloadIs(was: seq<File>, i: nat, prompt: Str, ctx: nat)
      requires i < |was| && Best(was, was[i], prompt, ctx)
      ensures BadPayload(was, Dropped(was, i), i, prompt, ctx)
    {
    }

    ghost predicate Hit(files: seq<File>, i: nat, v: Bpe.Vocab, prompt: Str, ctx: nat, loaded: nat, effective: seq<int>)
      requires i < |files|
    {
      Best(files, files[i], prompt, ctx) && Served(v, files[i], prompt, loaded, effective)
    }

    lemma HitIs(files: seq<File>, i: nat, v: Bpe.Vocab, prompt: Str, ctx: nat, loaded: nat, effective: seq<int>)
      requires i < |files|
      ensures Hit(files, i, v, prompt, ctx, loaded, effective) <==>
        Best(files, files[i], prompt, ctx) && Served(v, files[i], prompt, loaded, effective)
    {
    }

    /** What a hit on the i-th file does to the directory. */
    ghost predicate AfterHit(was: seq<File>, files: seq<File>, i: nat, time: nat)
      requires i < |was|
    {
      var goal :=
        if coldMaxTokens > 0 && |was[i].toks| > coldMaxTokens then Dropped(was, i) else Touched(was, i, time);
      files == goal || (!steady && files == was)
    }

    lemma AfterHitIs(was: seq<File>, i: nat, time: nat)
      requires i < |was|
      ensures !steady ==> AfterHit(was, was, i, time)
      ensures coldMaxTokens > 0 && |was[i].toks| > coldMaxTokens ==> AfterHit(was, Dropped(was, i), i, time)
      ensures !(coldMaxTokens > 0 && |was[i].toks| > coldMaxTokens) ==> AfterHit(was, Touched(was, i, time), i, time)
    {
    }

    /** The longest usable file, with most tokens among equals. */
    predicate Best(files: seq<File>, f: File, prompt: Str, ctx: nat) {
      Usable(f.entry, prompt, ctx) && forall g :: g in files && Usable(g.entry, prompt, ctx) ==>
        !Longer(g.entry, f.entry)
    }

    /** Every file that looks usable by its hash is, and has tokens. */
    predicate Honest(files: seq<File>, prompt: Str, ctx: nat) {
      forall f :: f in files && Usable(f.entry, prompt, ctx) ==> f.text <= prompt && f.toks != []
    }

    lemma BestFound(files: seq<File>, es: seq<Entry>, i: nat, prompt: Str, ctx: nat)
      requires es == Entries(files) && i < |es| && Usable(es[i], prompt, ctx)
      requires forall j :: 0 <= j < |es| && Usable(es[j], prompt, ctx) ==> !Longer(es[j], es[i])
      ensures Best(files, files[i], prompt, ctx)
      ensures Honest(files, prompt, ctx) ==> files[i].text <= prompt && files[i].toks != []
    {
      hide Usable, Longer;
      forall g | g in files && Usable(g.entry, prompt, ctx) ensures !Longer(g.entry, files[i].entry) {
        var j :| 0 <= j < |files| && files[j] == g;
        assert es[j] == g.entry;
      }
      assert files[i] in files;
    }

    lemma NoneUsable(files: seq<File>, es: seq<Entry>, prompt: Str, ctx: nat)
      requires es == Entries(files) && forall j :: 0 <= j < |es| ==> !Usable(es[j], prompt, ctx)
      ensures forall f :: f in files ==> !Usable(f.entry, prompt, ctx)
    {
      hide Usable;
      forall f | f in files ensures !Usable(f.entry, prompt, ctx) {
        var j :| 0 <= j < |files| && files[j] == f;
        assert es[j] == f.entry;
      }
    }

    method Forget(sha: Str, ghost v: Bpe.Vocab)
      requires Valid() && Keyed(dir, hash, v)
      modifies this`dir
      ensures Valid() && Keyed(dir, hash, v)
      ensures var i := IndexOf(old(dir), sha);
        if i >= 0 then dir == Dropped(old(dir), i) || (!steady && dir == old(dir)) else dir == old(dir)
    {
      ghost var was := dir;
      var gone := Unlink(sha);
      KeyedSome(was, dir, hash, v);
    }

    /** sf37_kvstore_touch_file with one hit more. */
    method Touch(at: int, now: nat, ghost v: Bpe.Vocab)
      requires Valid() && Keyed(dir, hash, v) && 0 <= at < |dir|
      modifies this`dir
      ensures Valid() && Keyed(dir, hash, v) && Total(Entries(dir)) == old(Total(Entries(dir)))
      ensures dir == Touched(old(dir), at, now) || (!steady && dir == old(dir))
    {
      var failed: bool :| failed ==> !steady;
      if failed { return; }
      var f := dir[at];
      var e := f.entry.(hits := f.entry.hits + 1, lastUsed := now);
      RenewedEntry(dir, at, e, hash, v);
      dir := dir[at := f.(entry := e)];
    }
  }

  /** The prompt to go on with is the tokens of the file and those of the rest of the prompt; if the
      text of the file was rendered from its tokens, it renders to the prompt. */
  ghost predicate Served(v: Bpe.Vocab, f: File, prompt: Str, loaded: nat, effective: seq<int>) {
    && loaded == |f.toks| && f.text <= prompt
    && effective == f.toks + Rendering.ChatTokens(v, prompt[|f.text|..])
    && (!f.given && Bpe.WellFormed(v) ==> Bpe.Render(v, effective) == prompt)
  }

  predicate Longer(e: Entry, b: Entry) {
    e.textBytes > b.textBytes || (e.textBytes == b.textBytes && e.tokens > b.tokens)
  }

  lemma KeyedNew(e: Entry, text: Str, toks: seq<int>, given: Str, hash: Str -> Str, v: Bpe.Vocab)
    requires e.sha == hash(text) && e.textBytes == |text| && e.tokens == |toks| && text == KeyText(v, toks, given)
    ensures KeyedFile(File(e, text, toks, given != []), hash, v)
  {
  }

  lemma KeyedWhateverSize(f: File, size: nat, hash: Str -> Str, v: Bpe.Vocab)
    requires KeyedFile(f, hash, v)
    ensures KeyedFile(Sized(f, size), hash, v) && Sized(f, size).entry.fileSize == size
    ensures Sized(f, size).entry.sha == f.entry.sha
  {
  }

  lemma KeyedSome(was: seq<File>, now: seq<File>, hash: Str -> Str, v: Bpe.Vocab)
    requires Keyed(was, hash, v) && forall f :: f in now ==> f in was
    ensures Keyed(now, hash, v)
  {
    hide KeyedFile;
    forall i | 0 <= i < |now| ensures KeyedFile(now[i], hash, v) {
      assert now[i] in was;
    }
  }

  lemma RenewedEntry(dir: seq<File>, at: int, e: Entry, hash: Str -> Str, v: Bpe.Vocab)
    requires 0 <= at < |dir| && Distinct(Entries(dir)) && Keyed(dir, hash, v)
    requires e.sha == dir[at].entry.sha && e.textBytes == dir[at].entry.textBytes && e.tokens == dir[at].entry.tokens
    ensures var now := dir[at := dir[at].(entry := e)]; Distinct(Entries(now)) && Keyed(now, hash, v)
    ensures Total(Entries(dir[at := dir[at].(entry := e)])) + dir[at].entry.fileSize == Total(Entries(dir)) + e.fileSize
  {
    var now := dir[at := dir[at].(entry := e)];
    assert KeyedFile(dir[at], hash, v);
    assert KeyedFile(now[at], hash, v);
    hide KeyedFile;
    ReplacedSize(Entries(dir), at, e);
    assert Entries(now) == Entries(dir)[at := e];
  }

  lemma ReplacedSize(es: seq<Entry>, at: int, e: Entry)
    requires 0 <= at < |es|
    ensures Total(es[at := e]) + es[at].fileSize == Total(es) + e.fileSize
  {
    TotalWithout(es, at);
    TotalWithout(es[at := e], at);
    assert Without(es, at) == Without(es[at := e], at);
    hide Total, Without;
  }

  lemma DroppedKeeps(dir: seq<File>, i: int, hash: Str -> Str, v: Bpe.Vocab)
    requires 0 <= i < |dir| && Distinct(Entries(dir)) && Keyed(dir, hash, v)
    ensures Distinct(Entries(Dropped(dir, i))) && Keyed(Dropped(dir, i), hash, v)
    ensures Total(Entries(Dropped(dir, i))) <= Total(Entries(dir))
    ensures forall f :: f in Dropped(dir, i) ==> f in dir
    ensures IndexOf(Dropped(dir, i), dir[i].entry.sha) < 0
  {
    hide KeyedFile;
    KeyedSome(dir, Dropped(dir, i), hash, v);
    EntriesDropped(dir, i);
    WithoutMembers(Entries(dir), i);
    TotalWithout(Entries(dir), i);
    hide Total;
    var now := Dropped(dir, i);
    forall j | 0 <= j < |now| ensures now[j].entry.sha != dir[i].entry.sha {
      assert Entries(now)[j] in Without(Entries(dir), i);
    }
  }

  lemma Appended(dir: seq<File>, f: File, hash: Str -> Str, v: Bpe.Vocab)
    requires Distinct(Entries(dir)) && IndexOf(dir, f.entry.sha) < 0 && Keyed(dir, hash, v) && KeyedFile(f, hash, v)
    ensures Distinct(Entries(dir + [f])) && Keyed(dir + [f], hash, v)
    ensures Total(Entries(dir + [f])) == Total(Entries(dir)) + f.entry.fileSize
  {
    hide KeyedFile;
    assert Entries(dir + [f]) == Entries(dir) + [f.entry];
    assert (Entries(dir) + [f.entry])[..|dir|] == Entries(dir);
  }

  /** The bytes of the file were compared with the prompt, so no assumption on the hash is needed. */
  lemma LoadedRenders(v: Bpe.Vocab, f: File, prompt: Str, hash: Str -> Str)
    requires KeyedFile(f, hash, v) && f.text <= prompt
    ensures Served(v, f, prompt, |f.toks|, f.toks + Rendering.ChatTokens(v, prompt[|f.text|..]))
  {
    if !f.given && Bpe.WellFormed(v) {
      assert prompt[..|f.text|] == f.text;
      Rendering.EffectivePrompt(v, f.toks, prompt, |f.text|);
    }
  }

  lemma {:induction false} NamedAt(dir: seq<File>, i: nat)
    requires i < |dir| && Distinct(Entries(dir))
    ensures IndexOf(dir, dir[i].entry.sha) == i
  {
  }

  /** A cache whose one file fills the budget: storing the same text again with a trailer of one byte
      goes over it, and nothing is evicted. */
  method GrownTrailer(tk: Tokenizer.Tokenizer, hash: Str -> Str, text: Str, toks: seq<int>, ctx: nat, now: nat,
                      score: Entry -> real) returns (s: KvStore)
    requires 0 < |text| <= U32_MAX
    ensures fresh(s) && s.budget == FileBytes(|text|, 0, 0) && |s.dir| == 1
    ensures Total(Entries(s.dir)) == s.budget + 1
  {
    var full := FileBytes(|text|, 0, 0);
    var f := File(Entry(hash(text), QUANT_BITS, MODEL_ID, Cold, |toks|, 0, ctx, 0, |text|, 0, full), text, toks, true);
    OneFile(f);
    s := new KvStore(true, full, false, 0, 0, hash, [f], true);
    hide Total;
    assert s.Compatible(f, text, ctx) && KeyText(tk.Vocabulary(), toks, text) == text;
    hide IndexOf, Keyed, Entries, Distinct, KvStore.Compatible, Stored, NoOtherLost, Rewritten;
    var ok, unlinked, failed, size := s.Store(tk, toks, text, Cold, 0, 1, 1, ctx, now, score);
    assert s.dir == [s.dir[0]];
    OneFile(s.dir[0]);
  }

  lemma OneFile(f: File)
    ensures Total(Entries([f])) == f.entry.fileSize && IndexOf([f], f.entry.sha) == 0
  {
    assert Entries([f]) == [f.entry] && [f.entry][..0] == [];
  }
}
