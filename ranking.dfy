/** The ordering of the closest-size pass: the comparator of the three
    size schemes and the stable sort `sort_by` performs with it. */
module Ranking {
  import opened Directories
  import opened Seqs

  datatype Ordering = Less | Equal | Greater

  function Abs(x: int): nat
  {
    if x < 0 then -x else x
  }

  /** `a.abs().cmp(&b.abs())` */
  function CompareAbs(a: int, b: int): Ordering
  {
    if Abs(a) < Abs(b) then Less else if Abs(a) == Abs(b) then Equal else Greater
  }

  /** The comparator passed to `sort_by`, on two signed distances. Ties
      only ever join distances of equal magnitude; Closest orders by
      magnitude alone, LargerClosest puts every positive distance ahead of
      every other, SmallerClosest every negative one. */
  function Compare(scheme: SizeScheme, a: int, b: int): (r: Ordering)
    ensures r == Equal ==> Abs(a) == Abs(b)
    ensures scheme == Closest ==> (r == Less <==> Abs(a) < Abs(b))
    ensures scheme == LargerClosest && a > 0 && b <= 0 ==> r == Less
    ensures scheme == SmallerClosest && a < 0 && b >= 0 ==> r == Less
  {
    match scheme
    case Closest => CompareAbs(a, b)
    case LargerClosest =>
      if a > 0 && !(b > 0) then Less
      else if !(a > 0) && b > 0 then Greater
      else CompareAbs(a, b)
    case SmallerClosest =>
      if a < 0 && !(b < 0) then Less
      else if !(a < 0) && b < 0 then Greater
      else CompareAbs(a, b)
  }

  /** Distance `a` sorts strictly before distance `b`. */
  predicate Before(scheme: SizeScheme, a: int, b: int)
  {
    Compare(scheme, a, b) == Less
  }

  /** The comparator is a strict weak order: asymmetric, with a transitive
      negation, and `Greater` is `Less` with the arguments swapped. */
  lemma CompareIsWeakOrder(scheme: SizeScheme, a: int, b: int, c: int)
    ensures Before(scheme, a, b) ==> !Before(scheme, b, a)
    ensures !Before(scheme, a, b) && !Before(scheme, b, c) ==> !Before(scheme, a, c)
    ensures Compare(scheme, a, b) == Greater <==> Before(scheme, b, a)
  {
  }

  /** Candidate `c` comes before candidate `d` in a stable sort: its
      distance sorts strictly before, or the two are tied and `c` came
      first in the index. */
  predicate Precedes(scheme: SizeScheme, c: Candidate, d: Candidate)
  {
    Before(scheme, c.distance, d.distance)
    || (!Before(scheme, d.distance, c.distance) && c.pos < d.pos)
  }

  ghost predicate StablySorted(scheme: SizeScheme, s: seq<Candidate>)
  {
    forall i, j :: 0 <= i < j < |s| ==> Precedes(scheme, s[i], s[j])
  }

  ghost predicate IncreasingPos(s: seq<Candidate>)
  {
    forall i, j :: 0 <= i < j < |s| ==> s[i].pos < s[j].pos
  }

  /** Inserts `x` after the last element it does not sort strictly before,
      scanning from the back. */
  function Insert(scheme: SizeScheme, s: seq<Candidate>, x: Candidate): (r: seq<Candidate>)
    decreases |s|
  {
    if s == [] || !Before(scheme, x.distance, s[|s| - 1].distance) then s + [x]
    else
      Insert(scheme, s[..|s| - 1], x) + [s[|s| - 1]]
  }

  /** Stable insertion sort: `Sorted(s)` is what `sort_by` leaves in a
      vector holding `s`. */
  function Sorted(scheme: SizeScheme, s: seq<Candidate>): (r: seq<Candidate>)
    decreases |s|
  {
    if s == [] then []
    else
      Insert(scheme, Sorted(scheme, s[..|s| - 1]), s[|s| - 1])
  }

  /** Insertion adds exactly `x`. */
  lemma {:induction false} InsertPermutes(scheme: SizeScheme, s: seq<Candidate>, x: Candidate)
    ensures multiset(Insert(scheme, s, x)) == multiset(s) + multiset{x}
    decreases |s|
  {
    if s != [] && Before(scheme, x.distance, s[|s| - 1].distance) {
      InsertPermutes(scheme, s[..|s| - 1], x);
      assert s == s[..|s| - 1] + [s[|s| - 1]];
    }
  }

  /** The sort is a permutation of its input. */
  lemma {:induction false} SortedPermutes(scheme: SizeScheme, s: seq<Candidate>)
    ensures multiset(Sorted(scheme, s)) == multiset(s)
    decreases |s|
  {
    if s != [] {
      SortedPermutes(scheme, s[..|s| - 1]);
      InsertPermutes(scheme, Sorted(scheme, s[..|s| - 1]), s[|s| - 1]);
      assert s == s[..|s| - 1] + [s[|s| - 1]];
    }
  }

  lemma PrecedesAsymmetric(scheme: SizeScheme, c: Candidate, d: Candidate)
    ensures !(Precedes(scheme, c, d) && Precedes(scheme, d, c))
  {
    CompareIsWeakOrder(scheme, c.distance, d.distance, c.distance);
  }

  /** `Insert` where `x` goes last. */
  lemma InsertAtEnd(scheme: SizeScheme, s: seq<Candidate>, x: Candidate)
    requires s == [] || !Before(scheme, x.distance, s[|s| - 1].distance)
    ensures Insert(scheme, s, x) == s + [x]
  {
  }

  /** `Insert` where `x` moves past the last element. */
  lemma InsertPastLast(scheme: SizeScheme, s: seq<Candidate>, x: Candidate)
    requires s != [] && Before(scheme, x.distance, s[|s| - 1].distance)
    ensures Insert(scheme, s, x) == Insert(scheme, s[..|s| - 1], x) + [s[|s| - 1]]
  {
  }

  /** An element that does not sort before the last of a stably sorted
      sequence, and came later in the index, follows all of it. */
  lemma FollowsAll(scheme: SizeScheme, s: seq<Candidate>, x: Candidate)
    requires s != [] && StablySorted(scheme, s)
    requires !Before(scheme, x.distance, s[|s| - 1].distance)
    requires forall y :: y in s ==> y.pos < x.pos
    ensures StablySorted(scheme, s + [x])
  {
    var last := s[|s| - 1];
    forall i | 0 <= i < |s| ensures Precedes(scheme, s[i], x) {
      assert s[i] in s;
      if i < |s| - 1 {
        assert Precedes(scheme, s[i], last);
        CompareIsWeakOrder(scheme, x.distance, last.distance, s[i].distance);
        CompareIsWeakOrder(scheme, last.distance, s[i].distance, x.distance);
      }
    }
    var r := s + [x];
    forall i, j | 0 <= i < j < |r| ensures Precedes(scheme, r[i], r[j]) {
      if j == |s| { assert r[i] == s[i] && r[j] == x; } else { assert r[i] == s[i] && r[j] == s[j]; }
    }
  }

  /** Appending to a stably sorted sequence an element that everything in
      it precedes keeps it stably sorted. */
  lemma AppendPreceded(scheme: SizeScheme, s: seq<Candidate>, last: Candidate)
    requires StablySorted(scheme, s)
    requires forall y :: y in s ==> Precedes(scheme, y, last)
    ensures StablySorted(scheme, s + [last])
  {
    var r := s + [last];
    forall i, j | 0 <= i < j < |r| ensures Precedes(scheme, r[i], r[j]) {
      if j == |s| { assert r[i] == s[i] && s[i] in s; } else { assert r[i] == s[i] && r[j] == s[j]; }
    }
  }

  /** Inserting an element that came later in the index than everything
      already sorted keeps the sequence stably sorted. */
  lemma {:induction false} InsertStable(scheme: SizeScheme, s: seq<Candidate>, x: Candidate)
    requires StablySorted(scheme, s)
    requires forall y :: y in s ==> y.pos < x.pos
    ensures StablySorted(scheme, Insert(scheme, s, x))
    decreases |s|
  {
    if s == [] {
      InsertAtEnd(scheme, s, x);
    } else if !Before(scheme, x.distance, s[|s| - 1].distance) {
      InsertAtEnd(scheme, s, x);
      FollowsAll(scheme, s, x);
    } else {
      var init, last := s[..|s| - 1], s[|s| - 1];
      InsertPastLast(scheme, s, x);
      assert StablySorted(scheme, init) by {
        forall i, j | 0 <= i < j < |init| ensures Precedes(scheme, init[i], init[j]) {
          assert init[i] == s[i] && init[j] == s[j];
        }
      }
      forall y | y in init ensures y.pos < x.pos { assert y in s; }
      InsertStable(scheme, init, x);
      var ins := Insert(scheme, init, x);
      InsertPermutes(scheme, init, x);
      forall y | y in ins ensures Precedes(scheme, y, last) {
        assert y in multiset(ins);
        if y == x {
          CompareIsWeakOrder(scheme, x.distance, last.distance, x.distance);
        } else {
          assert y in multiset(init);
          var i :| 0 <= i < |init| && init[i] == y;
          assert s[i] == y;
        }
      }
      AppendPreceded(scheme, ins, last);
    }
  }

  /** The sort is stable: when the input lists the candidates in index
      order, ties keep that order. */
  lemma {:induction false} SortedStable(scheme: SizeScheme, s: seq<Candidate>)
    requires IncreasingPos(s)
    ensures StablySorted(scheme, Sorted(scheme, s))
    decreases |s|
  {
    if s != [] {
      var init, last := s[..|s| - 1], s[|s| - 1];
      SortedStable(scheme, init);
      SortedPermutes(scheme, init);
      forall y | y in Sorted(scheme, init) ensures y.pos < last.pos {
        assert y in multiset(Sorted(scheme, init));
        var i :| 0 <= i < |init| && init[i] == y;
      }
      InsertStable(scheme, Sorted(scheme, init), last);
    }
  }

  /** The head of a stably sorted sequence precedes every other element. */
  lemma HeadPrecedes(scheme: SizeScheme, s: seq<Candidate>, y: Candidate)
    requires s != [] && StablySorted(scheme, s)
    requires y in multiset(s) && y != s[0]
    ensures Precedes(scheme, s[0], y)
  {
    var k :| 0 <= k < |s| && s[k] == y;
  }

  lemma TailStablySorted(scheme: SizeScheme, s: seq<Candidate>)
    requires s != [] && StablySorted(scheme, s)
    ensures StablySorted(scheme, s[1..])
  {
    forall i, j | 0 <= i < j < |s[1..]| ensures Precedes(scheme, s[1..][i], s[1..][j]) {
      assert s[1..][i] == s[i + 1] && s[1..][j] == s[j + 1];
    }
  }

  /** Two stable arrangements of the same candidates start alike. */
  lemma SameHead(scheme: SizeScheme, a: seq<Candidate>, b: seq<Candidate>)
    requires a != [] && StablySorted(scheme, a) && StablySorted(scheme, b)
    requires multiset(a) == multiset(b)
    ensures b != [] && a[0] == b[0]
  {
    assert a[0] in multiset(b);
    assert b != [];
    if a[0] != b[0] {
      assert b[0] in multiset(a);
      HeadPrecedes(scheme, a, b[0]);
      HeadPrecedes(scheme, b, a[0]);
      PrecedesAsymmetric(scheme, a[0], b[0]);
    }
  }

  /** A stably sorted arrangement of given candidates is unique, so every
      stable sort (the library's merge sort included) leaves the same
      sequence as `Sorted`. */
  lemma {:induction false} StableSortUnique(scheme: SizeScheme, a: seq<Candidate>, b: seq<Candidate>)
    requires StablySorted(scheme, a) && StablySorted(scheme, b)
    requires multiset(a) == multiset(b)
    ensures a == b
    decreases |a|
  {
    if a == [] {
      assert |b| == |multiset(b)| == 0;
    } else {
      SameHead(scheme, a, b);
      TailMultiset(a, b);
      TailStablySorted(scheme, a);
      TailStablySorted(scheme, b);
      StableSortUnique(scheme, a[1..], b[1..]);
      HeadTailEqual(a, b);
    }
  }

  /** What each size scheme means for the sorted candidates, in terms of
      the distances alone. */
  lemma SortedOrder(scheme: SizeScheme, s: seq<Candidate>, i: nat, j: nat)
    requires IncreasingPos(s)
    requires i < j < |Sorted(scheme, s)|
    ensures var r := Sorted(scheme, s);
      var a, b := r[i].distance, r[j].distance;
      && (scheme == Closest ==> Abs(a) <= Abs(b))
      && (scheme == LargerClosest ==> (b > 0 ==> a > 0) && ((a > 0) == (b > 0) ==> Abs(a) <= Abs(b)))
      && (scheme == SmallerClosest ==> (b < 0 ==> a < 0) && ((a < 0) == (b < 0) ==> Abs(a) <= Abs(b)))
      && (Compare(scheme, a, b) == Equal ==> r[i].pos < r[j].pos)
  {
    SortedStable(scheme, s);
  }

  lemma SortedSnoc(scheme: SizeScheme, s: seq<Candidate>, i: nat)
    requires i < |s|
    ensures Sorted(scheme, s[..i + 1]) == Insert(scheme, Sorted(scheme, s[..i]), s[i])
  {
    assert s[..i + 1][..i] == s[..i];
  }

  /** Where `Insert` puts `x`: after the longest prefix whose last element
      `x` does not sort strictly before, with everything after it being
      elements `x` sorts strictly before. */
  lemma {:induction false} InsertAt(scheme: SizeScheme, s: seq<Candidate>, x: Candidate, j: nat)
    requires j <= |s|
    requires j == 0 || !Before(scheme, x.distance, s[j - 1].distance)
    requires forall k :: j <= k < |s| ==> Before(scheme, x.distance, s[k].distance)
    ensures Insert(scheme, s, x) == s[..j] + [x] + s[j..]
    decreases |s|
  {
    if j == |s| {
      InsertAtEnd(scheme, s, x);
      assert s[..j] == s;
    } else {
      var init := s[..|s| - 1];
      InsertPastLast(scheme, s, x);
      assert j > 0 ==> init[j - 1] == s[j - 1];
      InsertAt(scheme, init, x, j);
      assert init[..j] == s[..j];
      assert s[j..] == init[j..] + [s[|s| - 1]];
    }
  }

  /** One pass of the insertion sort: moves `a[i]` left past every
      element it sorts strictly before. */
  method InsertInPlace(a: array<Candidate>, i: nat, scheme: SizeScheme)
    requires i < a.Length
    modifies a
    ensures a[..i + 1] == Insert(scheme, old(a[..i]), old(a[i]))
    ensures a[i + 1..] == old(a[i + 1..])
  {
    ghost var sorted, x := a[..i], a[i];
    var j := i;
    while j > 0 && Before(scheme, a[j].distance, a[j - 1].distance)
      invariant 0 <= j <= i
      invariant forall k :: 0 <= k < j ==> a[k] == sorted[k]
      invariant a[j] == x
      invariant forall k :: j < k <= i ==> a[k] == sorted[k - 1]
      invariant forall k :: i < k < a.Length ==> a[k] == old(a[k])
      invariant forall k :: j <= k < i ==> Before(scheme, x.distance, sorted[k].distance)
    {
      a[j - 1], a[j] := a[j], a[j - 1];
      j := j - 1;
    }
    InsertAt(scheme, sorted, x, j);
    assert a[..i + 1] == sorted[..j] + [x] + sorted[j..];
    SameFrom(a[..], old(a[..]), i + 1);
  }

  /** `sort_by` on the vector, as a stable insertion sort in place. */
  method SortCandidates(a: array<Candidate>, scheme: SizeScheme)
    modifies a
    ensures a[..] == Sorted(scheme, old(a[..]))
  {
    ghost var orig := a[..];
    for i := 0 to a.Length
      invariant a[..i] == Sorted(scheme, orig[..i])
      invariant a[i..] == orig[i..]
    {
      ghost var before := a[..];
      assert a[i] == orig[i];
      InsertInPlace(a, i, scheme);
      SortedSnoc(scheme, orig, i);
      assert before[i + 1..] == orig[i + 1..];
    }
    assert orig[..a.Length] == orig;
  }
}
