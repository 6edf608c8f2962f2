/** The string table of the vocabulary: open addressing with linear probing, never resized. */
module StrTable {
  import opened Bytes

  datatype Entry = Free | Used(key: Str, value: int)

  predicate PowerOfTwo(p: nat) {
    p == 1 || (p > 0 && p % 2 == 0 && PowerOfTwo(p / 2))
  }

  method NextPow2(n: nat) returns (p: nat)
    ensures PowerOfTwo(p) && p >= n && (p == 1 || p / 2 < n)
  {
    p := 1;
    while p < n
      invariant p >= 1 && PowerOfTwo(p) && (p == 1 || p / 2 < n)
      decreases n - p
    {
      p := p * 2;
    }
  }

  /** Probing from h reaches x before it reaches j, going round at the end. */
  predicate Before(h: nat, x: nat, j: nat) {
    if h <= j then h <= x < j else h <= x || x < j
  }

  function After(i: nat, cap: nat): nat
    requires i < cap
  {
    if i + 1 == cap then 0 else i + 1
  }

  function Home(hash: Str -> nat, key: Str, cap: nat): (h: nat)
    requires cap > 0
    ensures h < cap
  {
    hash(key) % cap
  }

  /** The slots that hold something are the ones assigned to keys; the others are free. */
  ghost predicate Placed(entry: seq<Entry>, contents: map<Str, int>, slot: map<Str, nat>, free: set<nat>) {
    && slot.Keys == contents.Keys && |free| + |contents| == |entry|
    && (forall k :: k in slot ==> slot[k] < |entry| && entry[slot[k]] == Used(k, contents[k]))
    && (forall i: nat :: i < |entry| && entry[i].Used? ==> entry[i].key in slot && slot[entry[i].key] == i)
    && (forall i: nat :: i in free <==> i < |entry| && entry[i].Free?)
  }

  /** No free slot lies between the place a key hashes to and the place it is in. */
  ghost predicate Reachable(entry: seq<Entry>, slot: map<Str, nat>, hash: Str -> nat) {
    forall k, i: nat :: k in slot && i < |entry| && Before(Home(hash, k, |entry|), i, slot[k]) ==> entry[i].Used?
  }

  ghost predicate Holds(entry: seq<Entry>, used: nat, contents: map<Str, int>, slot: map<Str, nat>, free: set<nat>,
                        hash: Str -> nat) {
    && used == |contents| && Placed(entry, contents, slot, free)
    && (|entry| > 0 ==> used < |entry| && Reachable(entry, slot, hash))
  }

  ghost function UpTo(n: nat): (s: set<nat>)
    ensures |s| == n && forall i: nat :: i in s <==> i < n
  {
    if n == 0 then {} else UpTo(n - 1) + {n - 1}
  }

  lemma Replaced(entry: seq<Entry>, contents: map<Str, int>, slot: map<Str, nat>, free: set<nat>, key: Str, value: int)
    requires Placed(entry, contents, slot, free) && key in contents
    ensures Placed(entry[slot[key] := Used(key, value)], contents[key := value], slot, free)
  {
    assert slot.Keys == contents[key := value].Keys;
  }

  lemma StillReachable(was: seq<Entry>, slot: map<Str, nat>, hash: Str -> nat, i: nat, key: Str, value: int)
    requires Reachable(was, slot, hash) && i < |was|
    requires (key in slot && slot[key] == i) || forall j: nat :: j < |was| && Before(Home(hash, key, |was|), j, i) ==>
      was[j].Used?
    ensures Reachable(was[i := Used(key, value)], slot[key := i], hash)
  {
    hide Home;
  }

  lemma Filled(entry: seq<Entry>, contents: map<Str, int>, slot: map<Str, nat>, free: set<nat>, i: nat, key: Str,
               value: int)
    requires Placed(entry, contents, slot, free) && key !in contents && i < |entry| && entry[i].Free?
    ensures Placed(entry[i := Used(key, value)], contents[key := value], slot[key := i], free - {i})
  {
    assert slot[key := i].Keys == contents[key := value].Keys;
  }

  /** Slot i is the key's, or a free one reached from its home. */
  ghost predicate Found(entry: seq<Entry>, contents: map<Str, int>, slot: map<Str, nat>, hash: Str -> nat, key: Str,
                        i: nat) {
    && i < |entry| &&
      (if key in contents then key in slot && i == slot[key] && entry[i] == Used(key, contents[key])
       else entry[i].Free?)
    && forall j: nat :: j < |entry| && Before(Home(hash, key, |entry|), j, i) ==> entry[j].Used?
  }

  lemma FreeSomewhere(entry: seq<Entry>, used: nat, contents: map<Str, int>, slot: map<Str, nat>, free: set<nat>,
                      hash: Str -> nat)
    requires |entry| > 0 && Holds(entry, used, contents, slot, free, hash)
    ensures exists f :: f in free && f < |entry| && entry[f].Free?
  {
    assert |free| != 0;
    var f :| f in free;
  }

  /** One step of probing towards the free slot f. */
  lemma Onwards(h: nat, i: nat, f: nat, cap: nat)
    requires h < cap && f < cap && i < cap && i != f && Before(h, i, f)
    ensures var n := After(i, cap); n < cap && (n == f || Before(h, n, f))
    ensures forall j: nat :: j < cap && Before(h, j, After(i, cap)) ==> Before(h, j, i) || j == i
    ensures var n := After(i, cap); (if n <= f then f - n else cap - n + f) < (if i <= f then f - i else cap - i + f)
  {
  }

  lemma OneFirst(h: nat, i: nat, j: nat)
    ensures i == j || Before(h, i, j) || Before(h, j, i)
  {
  }

  lemma IsFound(entry: seq<Entry>, used: nat, contents: map<Str, int>, slot: map<Str, nat>, free: set<nat>,
                hash: Str -> nat, key: Str, i: nat)
    requires Holds(entry, used, contents, slot, free, hash) && i < |entry|
    requires entry[i].Used? ==> entry[i].key == key
    requires forall j: nat :: j < |entry| && Before(Home(hash, key, |entry|), j, i) ==>
      entry[j].Used? && entry[j].key != key
    ensures Found(entry, contents, slot, hash, key, i)
  {
    if key in contents {
      var j := slot[key];
      OneFirst(Home(hash, key, |entry|), i, j);
    }
  }

  lemma Overwriting(was: seq<Entry>, used: nat, contents: map<Str, int>, slot: map<Str, nat>, free: set<nat>,
                    hash: Str -> nat, i: nat, key: Str, value: int)
    requires Holds(was, used, contents, slot, free, hash) && key in contents && Found(was, contents, slot, hash, key, i)
    ensures Holds(was[i := Used(key, value)], used, contents[key := value], slot, free, hash)
  {
    assert slot == slot[key := i];
    Replaced(was, contents, slot, free, key, value);
    StillReachable(was, slot, hash, i, key, value);
    assert contents[key := value].Keys == contents.Keys;
  }

  lemma Occupying(was: seq<Entry>, used: nat, contents: map<Str, int>, slot: map<Str, nat>, free: set<nat>,
                  hash: Str -> nat, i: nat, key: Str, value: int)
    requires Holds(was, used, contents, slot, free, hash) && used + 1 < |was| && key !in contents
    requires Found(was, contents, slot, hash, key, i)
    ensures Holds(was[i := Used(key, value)], used + 1, contents[key := value], slot[key := i], free - {i}, hash)
  {
    Filled(was, contents, slot, free, i, key, value);
    StillReachable(was, slot, hash, i, key, value);
  }

  class StrTable {
    /** sf37_hash_bytes: nothing depends on which function it is. */
    const hash: Str -> nat
    var cap: nat
    var used: nat
    var entry: array<Entry>
    ghost var contents: map<Str, int>
    ghost var slot: map<Str, nat>
    ghost var free: set<nat>

    ghost predicate Valid()
      reads this, entry
    {
      entry.Length == cap && Holds(entry[..], used, contents, slot, free, hash)
    }

    constructor (hash: Str -> nat)
      ensures Valid() && this.hash == hash && contents == map[] && cap == 0 && fresh(entry)
    {
      this.hash := hash;
      cap, used, entry := 0, 0, new Entry[0];
      contents, slot, free := map[], map[], {};
    }

    /** table_init: twice the expected number of keys, and a little more. */
    method Init(expected: nat)
      modifies this
      ensures Valid() && contents == map[] && fresh(entry)
      ensures cap > expected + 1
    {
      cap := NextPow2(expected * 2 + 16);
      used := 0;
      entry := new Entry[cap](_ => Free);
      contents, slot := map[], map[];
      free := UpTo(cap);
    }

    /** The slot that holds the key, or the free one where it would go. */
    method Probe(key: Str) returns (i: nat)
      requires Valid() && cap > 0
      ensures i < cap && Found(entry[..], contents, slot, hash, key, i)
      ensures entry[i] == if key in contents then Used(key, contents[key]) else Free
    {
      FreeSomewhere(entry[..], used, contents, slot, free, hash);
      ghost var f :| f in free && f < |entry[..]| && entry[..][f].Free?;
      var h := Home(hash, key, cap);
      i := h;
      while entry[i].Used? && entry[i].key != key
        invariant i < cap && (i == f || Before(h, i, f))
        invariant forall j: nat :: j < cap && Before(h, j, i) ==> entry[j].Used? && entry[j].key != key
        decreases if i <= f then f - i else cap - i + f
      {
        hide *;
        Onwards(h, i, f, cap);
        i := After(i, cap);
      }
      IsFound(entry[..], used, contents, slot, free, hash, key, i);
      hide *;
    }

    method Put(key: Str, value: int)
      requires Valid() && (key in contents || cap == 0 || used + 1 < cap)
      modifies this, entry
      ensures Valid() && contents == old(contents)[key := value]
      ensures old(cap) > 0 ==> cap == old(cap) && entry == old(entry)
      ensures old(cap) == 0 ==> fresh(entry)
    {
      if cap == 0 {
        Init(16);
      }
      PutInto(key, value);
    }

    method PutInto(key: Str, value: int)
      requires Valid() && cap > 0 && (key in contents || used + 1 < cap)
      modifies this, entry
      ensures Valid() && contents == old(contents)[key := value]
      ensures cap == old(cap) && entry == old(entry)
    {
      hide Holds, Placed, Reachable, Found;
      var i := Probe(key);
      ghost var was := entry[..];
      ghost var used', contents', slot', free' := used, contents, slot, free;
      if entry[i].Used? {
        Overwriting(was, used, contents, slot, free, hash, i, key, value);
        contents' := contents[key := value];
      } else {
        Occupying(was, used, contents, slot, free, hash, i, key, value);
        used', contents', slot', free' := used + 1, contents[key := value], slot[key := i], free - {i};
      }
      if !entry[i].Used? { used := used + 1; }
      entry[i] := Used(key, value);
      contents, slot, free := contents', slot', free';
      assert entry[..] == was[i := Used(key, value)];
    }

    method Get(key: Str) returns (found: bool, value: int)
      requires Valid()
      ensures found == (key in contents) && (found ==> value == contents[key])
    {
      if cap == 0 { return false, 0; }
      var i := Probe(key);
      if entry[i].Used? {
        return true, entry[i].value;
      }
      return false, 0;
    }

    /** Loading: a table sized for the distinct keys takes all the pairs, the last one for a key winning. */
    method Load(pairs: seq<(Str, int)>, expected: nat)
      requires |Collected(pairs)| <= expected
      modifies this
      ensures Valid() && fresh(entry) && contents == Collected(pairs)
    {
      Init(expected);
      var i := 0;
      while i < |pairs|
        invariant 0 <= i <= |pairs| && Valid() && fresh(entry)
        invariant contents == Collected(pairs[..i]) && cap > expected + 1
      {
        hide Valid;
        CollectedMore(pairs, i);
        Put(pairs[i].0, pairs[i].1);
        i := i + 1;
      }
      assert pairs[..|pairs|] == pairs;
    }
  }

  function Collected(pairs: seq<(Str, int)>): map<Str, int> {
    if pairs == [] then map[] else Collected(pairs[..|pairs| - 1])[pairs[|pairs| - 1].0 := pairs[|pairs| - 1].1]
  }

  lemma CollectedMore(pairs: seq<(Str, int)>, i: nat)
    requires i < |pairs|
    ensures Collected(pairs[..i + 1]) == Collected(pairs[..i])[pairs[i].0 := pairs[i].1]
    ensures |Collected(pairs[..i])| <= |Collected(pairs)|
  {
    assert pairs[..i + 1][..i] == pairs[..i];
    CollectedKeys(pairs, i);
    Smaller(Collected(pairs[..i]).Keys, Collected(pairs).Keys);
    assert |Collected(pairs[..i])| == |Collected(pairs[..i]).Keys|;
  }

  lemma {:induction false} CollectedKeys(pairs: seq<(Str, int)>, i: nat)
    requires i <= |pairs|
    ensures Collected(pairs[..i]).Keys <= Collected(pairs).Keys
  {
    if i < |pairs| {
      var init := pairs[..|pairs| - 1];
      CollectedKeys(init, i);
      assert init[..i] == pairs[..i];
    } else {
      assert pairs[..i] == pairs;
    }
  }

  lemma {:induction false} Smaller<T>(a: set<T>, b: set<T>)
    requires a <= b
    ensures |a| <= |b|
  {
    assert b == a + (b - a) && a !! (b - a);
  }
}
