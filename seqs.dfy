/** Facts about sequences of any element type, used by the proofs of the
    other modules. */
module Seqs {

  /** Concatenation is associative. */
  lemma Associative<T>(x: seq<T>, y: seq<T>, z: seq<T>)
    ensures (x + y) + z == x + (y + z)
  {
  }

  /** A non-empty sequence is its front followed by its last element, also
      after a prefix. */
  lemma SplitLast<T>(a: seq<T>, c: seq<T>)
    requires c != []
    ensures c == c[..|c| - 1] + [c[|c| - 1]]
    ensures a + c == (a + c[..|c| - 1]) + [c[|c| - 1]]
  {
  }

  /** Slicing a sequence with one element appended, at a position within
      the original sequence. */
  lemma SliceSnoc<T>(s: seq<T>, x: T, k: nat)
    requires k <= |s|
    ensures (s + [x])[..k] == s[..k]
    ensures (s + [x])[k..] == s[k..] + [x]
    ensures (s + [x])[..|s|] == s
  {
  }

  /** Removing equal heads from two sequences with the same elements leaves
      tails with the same elements. */
  lemma TailMultiset<T>(a: seq<T>, b: seq<T>)
    requires a != [] && b != [] && a[0] == b[0]
    requires multiset(a) == multiset(b)
    ensures multiset(a[1..]) == multiset(b[1..])
  {
    assert a == [a[0]] + a[1..] && b == [b[0]] + b[1..];
    assert multiset(a) == multiset{a[0]} + multiset(a[1..]);
    assert multiset(b) == multiset{b[0]} + multiset(b[1..]);
    assert multiset(a[1..]) == multiset(a) - multiset{a[0]};
    assert multiset(b[1..]) == multiset(b) - multiset{b[0]};
  }

  /** Sequences with equal heads and equal tails are equal. */
  lemma HeadTailEqual<T>(a: seq<T>, b: seq<T>)
    requires a != [] && b != [] && a[0] == b[0] && a[1..] == b[1..]
    ensures a == b
  {
    assert a == [a[0]] + a[1..] && b == [b[0]] + b[1..];
  }

  /** Two sequences of the same length that agree from `lo` on have equal
      suffixes from `lo`. */
  lemma SameFrom<T>(s: seq<T>, t: seq<T>, lo: nat)
    requires |s| == |t| && lo <= |s|
    requires forall k :: lo <= k < |s| ==> s[k] == t[k]
    ensures s[lo..] == t[lo..]
  {
  }

  /** Moving a prefix to the back keeps the same elements. */
  lemma RotationPermutes<T>(s: seq<T>, k: nat)
    requires k <= |s|
    ensures multiset(s[k..] + s[..k]) == multiset(s)
  {
    assert s == s[..k] + s[k..];
  }
}
