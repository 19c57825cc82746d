/**
 Order-preserving filtering of sequences, the one stream operation the
 employee service uses repeatedly, stated by what it keeps rather than how.
 */
module Seqs {

  /** True iff a can be obtained from b by deleting elements, keeping the rest in order. */
  predicate IsSubsequence<T(==,!new)>(a: seq<T>, b: seq<T>)
    decreases |b|
  {
    if a == [] then true
    else if b == [] then false
    else if a[0] == b[0] then IsSubsequence(a[1..], b[1..])
    else IsSubsequence(a, b[1..])
  }

  /**
   The elements of xs satisfying p, in their original order: every kept
   element satisfies p, each element satisfying p is kept as often as it
   occurs, and no other element is kept.
   */
  function Filter<T(==,!new)>(xs: seq<T>, p: T -> bool): (r: seq<T>)
    ensures |r| <= |xs|
    ensures forall i :: 0 <= i < |r| ==> p(r[i])
    ensures forall x :: multiset(r)[x] == if p(x) then multiset(xs)[x] else 0
    ensures IsSubsequence(r, xs)
  {
    if xs == [] then []
    else
      var tail := Filter(xs[1..], p);
      assert xs == [xs[0]] + xs[1..];
      if p(xs[0]) then
        [xs[0]] + tail
      else
        assert tail == [] || tail[0] != xs[0];
        tail
  }

  /** Filtering out an element that fails p shortens the sequence. */
  lemma {:induction false} FilterDropsFailing<T(!new)>(xs: seq<T>, p: T -> bool, i: nat)
    requires i < |xs| && !p(xs[i])
    ensures |Filter(xs, p)| < |xs|
  {
    if i > 0 {
      FilterDropsFailing(xs[1..], p, i - 1);
    }
  }
}
