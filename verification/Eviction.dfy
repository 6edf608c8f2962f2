/** Which files of the disk cache are evicted, and what is left. */
module Eviction {
  import opened Bytes

  datatype Reason = Unknown | Cold | Continued | Evict | Shutdown | AgentSession

  /** A cached session as its file header describes it; the name of the file is the hash of its text. */
  datatype Entry = Entry(sha: Str, quantBits: nat, modelId: nat, reason: Reason, tokens: nat, hits: nat, ctxSize: nat,
    lastUsed: nat, textBytes: nat, payloadBytes: nat, fileSize: nat)

  function Total(files: seq<Entry>): nat {
    if files == [] then 0 else Total(files[..|files| - 1]) + files[|files| - 1].fileSize
  }

  /** e is evicted before f or at the same time: by score, then by last use. */
  predicate NoBetter(score: Entry -> real, e: Entry, f: Entry) {
    score(e) < score(f) || (score(e) == score(f) && e.lastUsed <= f.lastUsed)
  }

  predicate Worse(score: Entry -> real, e: Entry, f: Entry) {
    score(e) < score(f) || (score(e) == score(f) && e.lastUsed < f.lastUsed)
  }

  /** The first of the worst files. */
  ghost predicate IsVictim(score: Entry -> real, files: seq<Entry>, v: int) {
    && 0 <= v < |files|
    && (forall i :: 0 <= i < |files| ==> NoBetter(score, files[v], files[i]))
    && (forall i :: 0 <= i < v ==> Worse(score, files[v], files[i]))
  }

  lemma VictimUnique(score: Entry -> real, files: seq<Entry>, v: int, u: int)
    requires IsVictim(score, files, v) && IsVictim(score, files, u)
    ensures v == u
  {
    VictimBefore(score, files, v, u);
    VictimBefore(score, files, u, v);
  }

  lemma VictimBefore(score: Entry -> real, files: seq<Entry>, v: int, u: int)
    requires IsVictim(score, files, v) && 0 <= u < |files|
    ensures NoBetter(score, files[v], files[u]) && (u < v ==> Worse(score, files[v], files[u]))
  {
  }

  lemma EvictedStep(score: Entry -> real, files: seq<Entry>, target: nat, v: int)
    requires Total(files) > target && IsVictim(score, files, v)
    ensures Evicted(score, files, target) == Evicted(score, Without(files, v), target)
  {
    forall u | IsVictim(score, files, u) ensures u == v {
      VictimUnique(score, files, v, u);
    }
    hide IsVictim, Without, Total;
  }

  function Without(files: seq<Entry>, v: int): seq<Entry>
    requires 0 <= v < |files|
  {
    files[..v] + files[v + 1..]
  }

  /** The files left when victims go until the total is within the target. */
  ghost function Evicted(score: Entry -> real, files: seq<Entry>, target: nat): seq<Entry>
    decreases |files|
  {
    if Total(files) > target && files != [] then
      if v :| IsVictim(score, files, v) then Evicted(score, Without(files, v), target) else files
    else files
  }

  lemma {:induction false} TotalMore(a: seq<Entry>, b: seq<Entry>)
    ensures Total(a + b) == Total(a) + Total(b)
  {
    if b == [] {
      assert a + b == a;
    } else {
      TotalMore(a, b[..|b| - 1]);
      assert (a + b)[..|a + b| - 1] == a + b[..|b| - 1];
    }
  }

  lemma TotalWithout(files: seq<Entry>, v: int)
    requires 0 <= v < |files|
    ensures Total(files) == Total(Without(files, v)) + files[v].fileSize
  {
    var a, f, b := files[..v], files[v], files[v + 1..];
    TotalOne(f);
    hide Total;
    TotalMore(a, [f] + b);
    TotalMore([f], b);
    TotalMore(a, b);
    SplitAt(files, v);
  }

  lemma SplitAt(files: seq<Entry>, v: int)
    requires 0 <= v < |files|
    ensures files == files[..v] + ([files[v]] + files[v + 1..])
  {
  }

  lemma TotalOne(f: Entry)
    ensures Total([f]) == f.fileSize
  {
    assert [f][..0] == [];
  }

  lemma {:induction false} VictimExists(score: Entry -> real, files: seq<Entry>) returns (v: int)
    requires files != []
    ensures IsVictim(score, files, v)
  {
    if |files| == 1 {
      v := 0;
    } else {
      var init := files[..|files| - 1];
      v := VictimExists(score, init);
      assert forall i :: 0 <= i < |init| ==> files[i] == init[i];
      if Worse(score, files[|files| - 1], files[v]) { v := |files| - 1; }
    }
  }

  ghost predicate Distinct(files: seq<Entry>) {
    forall i, j :: 0 <= i < j < |files| ==> files[i].sha != files[j].sha
  }

  lemma WithoutMembers(files: seq<Entry>, v: int)
    requires 0 <= v < |files| && Distinct(files)
    ensures Distinct(Without(files, v))
    ensures forall f :: f in Without(files, v) <==> f in files && f != files[v]
    ensures forall f :: f in Without(files, v) ==> f.sha != files[v].sha
  {
    var w := Without(files, v);
    assert forall i :: 0 <= i < |w| ==> w[i] == if i < v then files[i] else files[i + 1];
    forall f | f in files && f != files[v] ensures f in w {
      var i :| 0 <= i < |files| && files[i] == f;
      assert w[if i < v then i else i - 1] == f;
    }
  }

  /** Eviction ends within the target, keeps nothing worse than what it evicts, and evicts nothing
      that was not needed: giving back the last file evicted would exceed the target. */
  lemma {:induction false} EvictedWell(score: Entry -> real, files: seq<Entry>, target: nat)
    requires Distinct(files)
    ensures var kept := Evicted(score, files, target); Distinct(kept) && Total(kept) <= target
    ensures forall f :: f in Evicted(score, files, target) ==> f in files
    ensures forall e, f :: e in files && e !in Evicted(score, files, target) && f in Evicted(score, files, target) ==>
      NoBetter(score, e, f)
    ensures Total(files) <= target ==> Evicted(score, files, target) == files
    ensures Total(files) > target ==>
      exists e ::
        e in files && e !in Evicted(score, files, target) &&
        Total(Evicted(score, files, target)) + e.fileSize > target
    decreases |files|
  {
    if Total(files) > target && files != [] {
      var v := VictimExists(score, files);
      EvictedStep(score, files, target, v);
      var rest := Without(files, v);
      WithoutMembers(files, v);
      TotalWithout(files, v);
      EvictedWell(score, rest, target);
      LastNeeded(score, files, v, target);
    }
  }

  lemma LastNeeded(score: Entry -> real, files: seq<Entry>, v: int, target: nat)
    requires Distinct(files) && 0 <= v < |files| && Total(files) > target
    requires Total(Without(files, v)) <= target ==> Evicted(score, Without(files, v), target) == Without(files, v)
    requires forall f :: f in Evicted(score, Without(files, v), target) ==> f in Without(files, v)
    requires Total(Without(files, v)) > target ==>
      exists e ::
        e in Without(files, v) && e !in Evicted(score, Without(files, v), target) &&
        Total(Evicted(score, Without(files, v), target)) + e.fileSize > target
    ensures exists e ::
      e in files && e !in Evicted(score, Without(files, v), target) &&
      Total(Evicted(score, Without(files, v), target)) + e.fileSize > target
  {
    WithoutMembers(files, v);
    TotalWithout(files, v);
    var kept := Evicted(score, Without(files, v), target);
    hide *;
    if Total(Without(files, v)) <= target {
      assert files[v] in files && files[v] !in kept;
    }
  }
}
