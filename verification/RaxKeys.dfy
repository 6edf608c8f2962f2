/** Keys of the radix tree: byte strings in memcmp order. */
module RaxKeys {
  import opened Basics

  type Key = seq<Byte>

  /** Strict byte-wise lexicographic order; a proper prefix sorts first. */
  predicate Less(a: Key, b: Key)
    decreases |a|
  {
    if b == [] then false
    else if a == [] then true
    else if a[0] != b[0] then a[0] < b[0]
    else Less(a[1..], b[1..])
  }

  predicate LessEq(a: Key, b: Key) {
    a == b || Less(a, b)
  }

  /** Edge bytes of a node are kept strictly increasing. */
  predicate Sorted(s: Key) {
    forall i, j :: 0 <= i < j < |s| ==> s[i] < s[j]
  }

  lemma {:induction false} LessIrreflexive(a: Key)
    ensures !Less(a, a)
    decreases |a|
  {
    if a != [] { LessIrreflexive(a[1..]); }
  }

  lemma {:induction false} LessTotal(a: Key, b: Key)
    ensures a == b || Less(a, b) || Less(b, a)
    decreases |a|
  {
    if a != [] && b != [] && a[0] == b[0] {
      LessTotal(a[1..], b[1..]);
      assert a == [a[0]] + a[1..] && b == [b[0]] + b[1..];
    }
  }

  lemma {:induction false} LessTransitive(a: Key, b: Key, c: Key)
    requires Less(a, b) && Less(b, c)
    ensures Less(a, c)
    decreases |a|
  {
    if a != [] && b != [] && c != [] && a[0] == b[0] && b[0] == c[0] {
      LessTransitive(a[1..], b[1..], c[1..]);
    }
  }

  lemma {:induction false} LessAsymmetric(a: Key, b: Key)
    requires Less(a, b)
    ensures !Less(b, a) && a != b
  {
    LessIrreflexive(a);
    if Less(b, a) { LessTransitive(a, b, a); }
  }

  /** The order looks only at what follows a common prefix. */
  lemma {:induction false} LessCommonPrefix(p: Key, a: Key, b: Key)
    ensures Less(p + a, p + b) == Less(a, b)
    decreases |p|
  {
    if p == [] {
      assert p + a == a && p + b == b;
    } else {
      assert (p + a)[1..] == p[1..] + a && (p + b)[1..] == p[1..] + b;
      LessCommonPrefix(p[1..], a, b);
    }
  }

  /** Two keys that part after a common prefix are ordered by the bytes where they part. */
  lemma LessAtDivergence(p: Key, a: Key, b: Key)
    requires p <= a && p <= b && |p| < |a| && |p| < |b| && a[|p|] != b[|p|]
    ensures Less(a, b) <==> a[|p|] < b[|p|]
  {
    assert a == p + a[|p|..] && b == p + b[|p|..];
    LessCommonPrefix(p, a[|p|..], b[|p|..]);
  }

  lemma LessExtension(a: Key, b: Key)
    requires a <= b && a != b
    ensures Less(a, b)
  {
    assert a + [] == a && a + b[|a|..] == b;
    LessCommonPrefix(a, [], b[|a|..]);
  }

  /** If b is above a but does not extend it, b is above every extension of a. */
  lemma {:induction false} LessBeyondSubtree(a: Key, b: Key, x: Key)
    requires Less(a, b) && !(a <= b) && a <= x
    ensures Less(x, b)
    decreases |a|
  {
    if a != [] && b != [] && a[0] == b[0] {
      assert a == [a[0]] + a[1..] && b == [b[0]] + b[1..];
      assert !(a[1..] <= b[1..]);
      LessBeyondSubtree(a[1..], b[1..], x[1..]);
    }
  }

  /** If b is below a then it is below every extension of a. */
  lemma LessBelowSubtree(b: Key, a: Key, x: Key)
    requires Less(b, a) && a <= x
    ensures Less(b, x)
  {
    if a != x {
      LessExtension(a, x);
      LessTransitive(b, a, x);
    }
  }

  lemma PrefixTrans(a: Key, b: Key, c: Key)
    requires a <= b && b <= c
    ensures a <= c
  {
  }
}
