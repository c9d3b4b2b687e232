/** The Fisher-Yates shuffle of `shuffleArray` (script.js:293-299), with
    the calls to `Math.random()` replaced by an oracle: `draws[i]` is the
    random index from 0 to `i` that the loop picks at position `i`
    (script.js:295). */
module Shuffle {

  /** Draws a shuffle of `n` elements can consume: one per position, each
      in the range from 0 to `i` that the random pick at position `i` can
      land in (script.js:295). */
  predicate ValidDraws(draws: seq<nat>, n: nat) {
    |draws| == n && forall i :: 0 <= i < n ==> draws[i] <= i
  }

  /** The elements at `i` and `j` exchanged (script.js:296). */
  function Swap<T>(a: seq<T>, i: nat, j: nat): (r: seq<T>)
    requires i < |a| && j < |a|
    ensures |r| == |a| && r[i] == a[j] && r[j] == a[i]
    ensures forall k :: 0 <= k < |a| && k != i && k != j ==> r[k] == a[k]
    ensures multiset(r) == multiset(a)
  {
    a[i := a[j]][j := a[i]]
  }

  /** The loop iterations for positions `i - 1` down to `1`, in that order. */
  function Passes<T>(a: seq<T>, draws: seq<nat>, i: nat): seq<T>
    requires i <= |a| && ValidDraws(draws, |a|)
    decreases i
  {
    if i <= 1 then a else Passes(Swap(a, i - 1, draws[i - 1]), draws, i - 1)
  }

  /** The whole shuffle: every position from the last one down to 1. */
  function Shuffled<T>(a: seq<T>, draws: seq<nat>): seq<T>
    requires ValidDraws(draws, |a|)
  {
    Passes(a, draws, |a|)
  }

  /** Whatever the draws, the passes rearrange the elements and leave the
      positions at or after `i` alone. */
  lemma {:induction false} PassesPermutes<T>(a: seq<T>, draws: seq<nat>, i: nat)
    requires i <= |a| && ValidDraws(draws, |a|)
    ensures |Passes(a, draws, i)| == |a|
    ensures multiset(Passes(a, draws, i)) == multiset(a)
    ensures forall k :: i <= k < |a| ==> Passes(a, draws, i)[k] == a[k]
    decreases i
  {
    if i > 1 {
      var b := Swap(a, i - 1, draws[i - 1]);
      PassesPermutes(b, draws, i - 1);
    }
  }

  /** The shuffled sequence is a permutation of the input, whichever
      indices the oracle picks. */
  lemma ShuffledPermutes<T>(a: seq<T>, draws: seq<nat>)
    requires ValidDraws(draws, |a|)
    ensures |Shuffled(a, draws)| == |a|
    ensures multiset(Shuffled(a, draws)) == multiset(a)
  {
    PassesPermutes(a, draws, |a|);
  }

  /** When every draw picks its own position, nothing moves. */
  lemma {:induction false} SelfDrawsKeepOrder<T>(a: seq<T>, draws: seq<nat>, i: nat)
    requires i <= |a| && ValidDraws(draws, |a|)
    requires forall k :: 0 <= k < |a| ==> draws[k] == k
    ensures Passes(a, draws, i) == a
    decreases i
  {
    if i > 1 {
      assert Swap(a, i - 1, draws[i - 1]) == a;
      SelfDrawsKeepOrder(a, draws, i - 1);
    }
  }

  /** `shuffleArray` itself: walk `i` from the last index down to 1 and
      swap position `i` with the drawn position `j`. The result holds the
      same elements as the input; inputs of length 0 or 1 come back as
      they were. */
  method ShuffleArray<T>(s: seq<T>, draws: seq<nat>) returns (r: seq<T>)
    requires ValidDraws(draws, |s|)
    ensures |r| == |s| && multiset(r) == multiset(s)
    ensures |s| <= 1 ==> r == s
    ensures r == Shuffled(s, draws)
  {
    r := s;
    var i: int := |s| - 1;
    while i > 0
      invariant -1 <= i && i + 1 <= |s|
      invariant |r| == |s| && multiset(r) == multiset(s)
      invariant Passes(r, draws, i + 1) == Shuffled(s, draws)
    {
      var j := draws[i];
      r := Swap(r, i, j);
      i := i - 1;
    }
  }
}
