/** Workers that quantize experts into slices of one buffer, under every interleaving of their steps. */
module ExpertPool {
  import opened Basics
  import opened Bytes

  /** About to claim; copying byte k of expert x, or about to report it when all are copied; gone. */
  datatype Worker = Idle | Working(x: nat, k: nat) | Stopped

  /** Where the slice of expert x begins: x * per. */
  function Off(x: nat, per: nat): nat {
    if x == 0 then 0 else Off(x - 1, per) + per
  }

  lemma {:induction false} OffIs(x: nat, per: nat)
    ensures Off(x, per) == x * per
  {
    if x > 0 {
      OffIs(x - 1, per);
      assert x * per == (x - 1) * per + per;
    }
  }

  lemma {:induction false} OffGrows(x: nat, y: nat, per: nat)
    requires x <= y
    ensures Off(x, per) <= Off(y, per)
    ensures x < y ==> Off(x, per) + per <= Off(y, per)
  {
    if x < y { OffGrows(x, y - 1, per); }
  }

  /** The results of the experts, one after the other. */
  function Joined(result: nat -> Str, n: nat): Str {
    if n == 0 then [] else Joined(result, n - 1) + result(n - 1)
  }

  /** The first k bytes of the slice of expert x are in place. */
  ghost predicate Copied(out: seq<Byte>, result: nat -> Str, x: nat, per: nat, k: nat) {
    Off(x, per) + k <= |out| && k <= |result(x)| && out[Off(x, per)..Off(x, per) + k] == result(x)[..k]
  }

  /** Every worker is paid for: what is left to do, in steps. */
  function Cost(w: Worker, per: nat): nat {
    match w
    case Idle => 1
    case Working(_, k) => if k <= per then per - k + 2 else 0
    case Stopped => 0
  }

  function Costs(ws: seq<Worker>, per: nat): nat {
    if ws == [] then 0 else Costs(ws[..|ws| - 1], per) + Cost(ws[|ws| - 1], per)
  }

  function Left(n: nat, next: nat): nat {
    if next < n then n - next else 0
  }

  function Measure(ws: seq<Worker>, n: nat, next: nat, per: nat): nat {
    Left(n, next) * (per + 3) + Costs(ws, per)
  }

  lemma {:induction false} CostsChange(ws: seq<Worker>, i: nat, w: Worker, per: nat)
    requires i < |ws|
    ensures Costs(ws[i := w], per) == Costs(ws, per) - Cost(ws[i], per) + Cost(w, per)
  {
    var m := |ws| - 1;
    if i < m {
      CostsChange(ws[..m], i, w, per);
      assert ws[i := w][..m] == ws[..m][i := w];
    } else {
      assert ws[i := w][..m] == ws[..m];
    }
  }

  /** Expert x has exactly one of: nobody yet, one worker, or a finished slice. */
  ghost predicate Owned(ws: seq<Worker>, n: nat, per: nat, next: nat, ready: set<nat>) {
    && (forall i :: 0 <= i < |ws| && ws[i].Working? ==>
      ws[i].x < n && ws[i].x < next && ws[i].x !in ready && ws[i].k <= per)
    && (forall i, j :: 0 <= i < j < |ws| && ws[i].Working? && ws[j].Working? ==> ws[i].x != ws[j].x)
    && (forall x: nat :: x < n && x < next && x !in ready ==> HasWorker(ws, x))
    && (forall x: nat :: x in ready ==> x < n && x < next)
    && (forall i :: 0 <= i < |ws| && ws[i].Stopped? ==> next >= n)
  }

  ghost predicate HasWorker(ws: seq<Worker>, x: nat) {
    exists i :: 0 <= i < |ws| && ws[i].Working? && ws[i].x == x
  }

  /** Finished slices hold their results, and the others as much as has been copied. */
  ghost predicate Filled(ws: seq<Worker>, out: seq<Byte>, result: nat -> Str, per: nat, ready: set<nat>) {
    && (forall x: nat :: x in ready ==> Copied(out, result, x, per, per))
    && (forall i :: 0 <= i < |ws| && ws[i].Working? ==> Copied(out, result, ws[i].x, per, ws[i].k))
  }

  ghost predicate Shared(ws: seq<Worker>, out: seq<Byte>, result: nat -> Str, n: nat, per: nat, next: nat,
                         ready: set<nat>) {
    Owned(ws, n, per, next, ready) && Filled(ws, out, result, per, ready)
  }

  class ExpertJob {
    const n: nat
    const per: nat
    const result: nat -> Str
    var next: nat
    var done: nat
    const out: array<Byte>
    const workers: array<Worker>
    ghost var ready: set<nat>

    ghost predicate Valid()
      reads this, out, workers
    {
      && (forall x: nat :: x < n ==> |result(x)| == per) && out.Length == Off(n, per)
      && done == |ready| && Shared(workers[..], out[..], result, n, per, next, ready)
    }

    /** generate_expert: one worker is the caller itself. */
    constructor (n: nat, per: nat, threads: int, result: nat -> Str)
      requires forall x: nat :: x < n ==> |result(x)| == per
      ensures Valid() && fresh(out) && fresh(workers) && next == 0 && done == 0
      ensures this.n == n && this.per == per && this.result == result && workers.Length >= 1
      ensures forall i :: 0 <= i < workers.Length ==> workers[i] == Idle
    {
      var count: nat := if threads > 0 then threads else 8;
      if count > n { count := n; }
      if count < 1 { count := 1; }
      this.n, this.per, this.result := n, per, result;
      next, done, ready := 0, 0, {};
      out := new Byte[Off(n, per)](_ => 0);
      workers := new Worker[count](_ => Idle);
    }

    /** Taking the next index, under the lock. */
    method Claim(i: nat)
      requires Valid() && i < workers.Length && workers[i].Idle?
      modifies this`next, workers
      ensures Valid() && next == old(next) + 1
      ensures workers[..] == old(workers[..])[i := if old(next) < n then Working(old(next), 0) else Stopped]
    {
      var xid := next;
      next := next + 1;
      workers[i] := if xid >= n then Stopped else Working(xid, 0);
      hide Off;
      ClaimKeeps(old(workers[..]), out[..], result, n, per, old(next), ready, i);
    }

    method SliceStart(x: nat) returns (b: nat)
      ensures b == Off(x, per)
    {
      OffIs(x, per);
      b := x * per;
    }

    /** One byte of the copy into the buffer, without the lock. */
    method Copy(i: nat)
      requires Valid() && i < workers.Length && workers[i].Working? && workers[i].k < per
      modifies out, workers
      ensures Valid() && workers[..] == old(workers[..])[i := Working(old(workers[i]).x, old(workers[i]).k + 1)]
      ensures out[..] ==
        old(out[..])[Off(old(workers[i]).x, per) + old(workers[i]).k := result(old(workers[i]).x)[old(workers[i]).k]]
    {
      var x, k := workers[i].x, workers[i].k;
      assert workers[..][i].Working?;
      Range(workers[..], out[..], result, n, per, next, ready, i);
      OffGrows(x, n, per);
      CopyKeeps(workers[..], out[..], result, n, per, next, ready, i);
      hide *;
      var slice := SliceStart(x);
      PutByte(i, slice + k, result(x)[k], Working(x, k + 1));
    }

    method PutByte(i: nat, at: nat, b: Byte, w: Worker)
      requires i < workers.Length && at < out.Length
      modifies out, workers
      ensures out[..] == old(out[..])[at := b] && workers[..] == old(workers[..])[i := w]
    {
      out[at] := b;
      workers[i] := w;
    }

    /** Counting the expert as done, under the lock. */
    method Report(i: nat)
      requires Valid() && i < workers.Length && workers[i].Working? && workers[i].k == per
      modifies this`done, this`ready, workers
      ensures Valid() && done == old(done) + 1
      ensures workers[..] == old(workers[..])[i := Idle]
    {
      assert workers[..][i].Working?;
      ReportKeeps(workers[..], out[..], result, n, per, next, ready, i);
      done := done + 1;
      ready := ready + {workers[i].x};
      workers[i] := Idle;
    }

    /** A worker goes on from wherever it is: every step brings the end nearer. */
    method Step(i: nat)
      requires Valid() && i < workers.Length && !workers[i].Stopped?
      modifies this`next, this`done, this`ready, out, workers
      ensures Valid()
      ensures Measure(workers[..], n, next, per) < old(Measure(workers[..], n, next, per))
    {
      ghost var ws := workers[..];
      match workers[i]
      case Idle =>
        Claim(i);
        ClaimCost(ws, n, per, old(next), i);
      case Working(x, k) =>
        Within(ws, out[..], result, n, per, next, ready, i);
        if k < per {
          Copy(i);
          CostsChange(ws, i, Working(x, k + 1), per);
        } else {
          Report(i);
          CostsChange(ws, i, Idle, per);
        }
    }

    /** All workers to their end, whichever of them goes on at each moment. */
    method Run()
      requires Valid() && workers.Length >= 1
      modifies this`next, this`done, this`ready, out, workers
      ensures Valid() && forall i :: 0 <= i < workers.Length ==> workers[i].Stopped?
      ensures out[..] == Joined(result, n) && done == n
    {
      while exists i :: 0 <= i < workers.Length && !workers[i].Stopped?
        invariant Valid()
        decreases Measure(workers[..], n, next, per)
      {
        hide *;
        var i :| 0 <= i < workers.Length && !workers[i].Stopped?;
        Step(i);
      }
      assert workers[..][0].Stopped?;
      Finished(workers[..], out[..], result, n, per, next, ready);
    }
  }

  lemma Range(ws: seq<Worker>, out: seq<Byte>, result: nat -> Str, n: nat, per: nat, next: nat, ready: set<nat>, i: nat)
    requires Shared(ws, out, result, n, per, next, ready) && i < |ws| && ws[i].Working?
    ensures ws[i].x < n
  {
  }

  lemma Within(ws: seq<Worker>, out: seq<Byte>, result: nat -> Str, n: nat, per: nat, next: nat, ready: set<nat>,
               i: nat)
    requires Shared(ws, out, result, n, per, next, ready) && i < |ws| && ws[i].Working?
    ensures ws[i].k <= per
  {
  }

  lemma ClaimCost(ws: seq<Worker>, n: nat, per: nat, next: nat, i: nat)
    requires i < |ws| && ws[i].Idle?
    ensures Measure(ws[i := if next < n then Working(next, 0) else Stopped], n, next + 1, per) <
      Measure(ws, n, next, per)
  {
    CostsChange(ws, i, if next < n then Working(next, 0) else Stopped, per);
    if next < n {
      assert Left(n, next) * (per + 3) == Left(n, next + 1) * (per + 3) + (per + 3);
    }
  }

  /** When every worker is gone the slices are all finished, and the buffer is the results in order. */
  lemma Finished(ws: seq<Worker>, out: seq<Byte>, result: nat -> Str, n: nat, per: nat, next: nat, ready: set<nat>)
    requires Shared(ws, out, result, n, per, next, ready) && |ws| >= 1 && |out| == Off(n, per)
    requires forall i :: 0 <= i < |ws| ==> ws[i].Stopped?
    requires forall x: nat :: x < n ==> |result(x)| == per
    ensures out == Joined(result, n) && |ready| == n
  {
    assert ws[0].Stopped?;
    forall x: nat ensures x in ready <==> x < n {
      assert x < n && x !in ready ==> HasWorker(ws, x);
    }
    Numbered(ready, n);
    hide Owned;
    JoinedSlices(out, result, n, per);
    assert out[..Off(n, per)] == out;
  }

  lemma {:induction false} Numbered(s: set<nat>, n: nat)
    requires forall x: nat :: x in s <==> x < n
    ensures |s| == n
  {
    if n == 0 {
      assert s == {};
    } else {
      Numbered(s - {n - 1}, n - 1);
    }
  }

  lemma {:induction false} JoinedSlices(out: seq<Byte>, result: nat -> Str, n: nat, per: nat)
    requires forall x: nat :: x < n ==> Copied(out, result, x, per, per) && |result(x)| == per
    requires Off(n, per) <= |out|
    ensures out[..Off(n, per)] == Joined(result, n)
  {
    if n > 0 {
      JoinedSlices(out, result, n - 1, per);
      assert Copied(out, result, n - 1, per, per);
      assert result(n - 1)[..per] == result(n - 1);
      assert out[..Off(n, per)] == out[..Off(n - 1, per)] + out[Off(n - 1, per)..Off(n - 1, per) + per];
    }
  }

  lemma ClaimKeeps(ws: seq<Worker>, out: seq<Byte>, result: nat -> Str, n: nat, per: nat, next: nat, ready: set<nat>,
                   i: nat)
    requires Shared(ws, out, result, n, per, next, ready) && i < |ws| && ws[i].Idle? && |out| == Off(n, per)
    ensures Shared(ws[i := if next < n then Working(next, 0) else Stopped], out, result, n, per, next + 1, ready)
  {
    if next < n { OffGrows(next, n, per); }
    assert next < n ==> Copied(out, result, next, per, 0);
    ClaimOwned(ws, n, per, next, ready, i);
    hide Owned, Copied, Off;
  }

  lemma ClaimOwned(ws: seq<Worker>, n: nat, per: nat, next: nat, ready: set<nat>, i: nat)
    requires Owned(ws, n, per, next, ready) && i < |ws| && ws[i].Idle?
    ensures Owned(ws[i := if next < n then Working(next, 0) else Stopped], n, per, next + 1, ready)
  {
    var w := if next < n then Working(next, 0) else Stopped;
    if next < n {
      assert ws[i := w][i] == w;
      assert HasWorker(ws[i := w], next);
    }
    forall x: nat | HasWorker(ws, x) ensures HasWorker(ws[i := w], x) {
      WorkerStays(ws, i, w, x);
    }
    hide HasWorker;
  }

  /** A worker other than i still has the expert after i has moved on. */
  lemma WorkerStays(ws: seq<Worker>, i: nat, w: Worker, x: nat)
    requires i < |ws| && HasWorker(ws, x) && (ws[i].Working? && ws[i].x == x ==> w.Working? && w.x == x)
    ensures HasWorker(ws[i := w], x)
  {
    var j :| 0 <= j < |ws| && ws[j].Working? && ws[j].x == x;
    assert ws[i := w][j].Working? && ws[i := w][j].x == x;
  }

  /** Slices are disjoint, so a byte of one leaves what is in the others. */
  lemma CopyElsewhere(out: seq<Byte>, result: nat -> Str, x: nat, k: nat, per: nat, b: Byte, y: nat, m: nat)
    requires Copied(out, result, y, per, m) && y != x && m <= per && k < per && Off(x, per) + k < |out|
    ensures Copied(out[Off(x, per) + k := b], result, y, per, m)
  {
    if x < y { OffGrows(x, y, per); } else { OffGrows(y, x, per); }
    hide Off;
  }

  lemma CopyOne(out: seq<Byte>, result: nat -> Str, x: nat, k: nat, per: nat)
    requires Copied(out, result, x, per, k) && k < |result(x)| && Off(x, per) + k < |out|
    ensures Copied(out[Off(x, per) + k := result(x)[k]], result, x, per, k + 1)
  {
    hide Off;
    var now := out[Off(x, per) + k := result(x)[k]];
    assert now[Off(x, per)..Off(x, per) + k + 1] == out[Off(x, per)..Off(x, per) + k] + [result(x)[k]];
    assert result(x)[..k + 1] == result(x)[..k] + [result(x)[k]];
  }

  lemma CopyKeeps(ws: seq<Worker>, out: seq<Byte>, result: nat -> Str, n: nat, per: nat, next: nat, ready: set<nat>,
                  i: nat)
    requires Shared(ws, out, result, n, per, next, ready) && i < |ws| && ws[i].Working? && ws[i].k < per
    requires |out| == Off(n, per) && |result(ws[i].x)| == per
    ensures var x, k := ws[i].x, ws[i].k;
      Off(x, per) + k < |out| &&
      Shared(ws[i := Working(x, k + 1)], out[Off(x, per) + k := result(x)[k]], result, n, per, next, ready)
  {
    var x, k := ws[i].x, ws[i].k;
    OffGrows(x, n, per);
    hide Filled, Copied, Off, HasWorker;
    CopyOwned(ws, n, per, next, ready, i);
    CopyFilled(ws, out, result, n, per, next, ready, i);
  }

  lemma CopyOwned(ws: seq<Worker>, n: nat, per: nat, next: nat, ready: set<nat>, i: nat)
    requires Owned(ws, n, per, next, ready) && i < |ws| && ws[i].Working? && ws[i].k < per
    ensures Owned(ws[i := Working(ws[i].x, ws[i].k + 1)], n, per, next, ready)
  {
    var w := Working(ws[i].x, ws[i].k + 1);
    forall y: nat | HasWorker(ws, y) ensures HasWorker(ws[i := w], y) {
      WorkerStays(ws, i, w, y);
    }
    hide HasWorker;
  }

  lemma CopyFilled(ws: seq<Worker>, out: seq<Byte>, result: nat -> Str, n: nat, per: nat, next: nat, ready: set<nat>,
                   i: nat)
    requires Shared(ws, out, result, n, per, next, ready) && i < |ws| && ws[i].Working? && ws[i].k < per
    requires |result(ws[i].x)| == per && Off(ws[i].x, per) + ws[i].k < |out|
    ensures var x, k := ws[i].x, ws[i].k;
      Filled(ws[i := Working(x, k + 1)], out[Off(x, per) + k := result(x)[k]], result, per, ready)
  {
    var x, k := ws[i].x, ws[i].k;
    CopyOne(out, result, x, k, per);
    var b := result(x)[k];
    var now := out[Off(x, per) + k := b];
    hide Copied, Off, HasWorker;
    forall y: nat | y in ready ensures Copied(now, result, y, per, per) {
      CopyElsewhere(out, result, x, k, per, b, y, per);
    }
    forall j | 0 <= j < |ws| && j != i && ws[j].Working? ensures Copied(now, result, ws[j].x, per, ws[j].k) {
      CopyElsewhere(out, result, x, k, per, b, ws[j].x, ws[j].k);
    }
    hide Owned;
  }

  lemma ReportKeeps(ws: seq<Worker>, out: seq<Byte>, result: nat -> Str, n: nat, per: nat, next: nat, ready: set<nat>,
                    i: nat)
    requires Shared(ws, out, result, n, per, next, ready) && i < |ws| && ws[i].Working? && ws[i].k == per
    ensures Shared(ws[i := Idle], out, result, n, per, next, ready + {ws[i].x})
  {
    hide Copied;
    forall y: nat | HasWorker(ws, y) && y != ws[i].x ensures HasWorker(ws[i := Idle], y) {
      WorkerStays(ws, i, Idle, y);
    }
    hide HasWorker;
  }
}
