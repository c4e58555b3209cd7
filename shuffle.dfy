/**
  Python's `random.shuffle(x)`, which the group generator calls on the roster:
  for i = n-1 down to 1 it draws j in [0, i] and swaps x[i] and x[j]
  (Fisher-Yates). The draws are a parameter: `draws[i]` is the j drawn at step i.
  Every ordering of the list is the outcome of some valid draw sequence.
*/
module Shuffle {

  /** A draw sequence for a list of length n: one draw per position, draws[i] <= i. */
  predicate ValidDraws(draws: seq<nat>, n: nat)
  {
    |draws| == n && forall i :: 0 <= i < n ==> draws[i] <= i
  }

  /** `s` with the values at positions i and j exchanged. */
  function Swap<T>(s: seq<T>, i: nat, j: nat): (r: seq<T>)
    requires i < |s| && j < |s|
    ensures |r| == |s| && r[i] == s[j] && r[j] == s[i]
    ensures forall k :: 0 <= k < |s| && k != i && k != j ==> r[k] == s[k]
  {
    s[i := s[j]][j := s[i]]
  }

  lemma SwapPermutes<T>(s: seq<T>, i: nat, j: nat)
    requires i < |s| && j < |s|
    ensures multiset(Swap(s, i, j)) == multiset(s)
  {
  }

  /** The list after the Fisher-Yates steps i, i-1, ..., 1 have been applied to `s`. */
  function ShuffleFrom<T>(s: seq<T>, draws: seq<nat>, i: int): (r: seq<T>)
    requires ValidDraws(draws, |s|) && i < |s|
    ensures |r| == |s|
    decreases i
  {
    if i <= 0 then s else ShuffleFrom(Swap(s, i, draws[i]), draws, i - 1)
  }

  /** The outcome of one call of `random.shuffle` on `s` with the given draws. */
  function Shuffled<T>(s: seq<T>, draws: seq<nat>): seq<T>
    requires ValidDraws(draws, |s|)
  {
    ShuffleFrom(s, draws, |s| - 1)
  }

  /** Shuffling only reorders: no value is lost or duplicated. */
  lemma {:induction false} ShuffleFromPermutes<T>(s: seq<T>, draws: seq<nat>, i: int)
    requires ValidDraws(draws, |s|) && i < |s|
    ensures multiset(ShuffleFrom(s, draws, i)) == multiset(s)
    decreases i
  {
    if i > 0 {
      SwapPermutes(s, i, draws[i]);
      ShuffleFromPermutes(Swap(s, i, draws[i]), draws, i - 1);
    }
  }

  lemma ShuffledPermutes<T>(s: seq<T>, draws: seq<nat>)
    requires ValidDraws(draws, |s|)
    ensures |Shuffled(s, draws)| == |s|
    ensures multiset(Shuffled(s, draws)) == multiset(s)
  {
    ShuffleFromPermutes(s, draws, |s| - 1);
  }

  /** Every draw sequence in `all` fits a list of length n. */
  predicate AllValidDraws(all: seq<seq<nat>>, n: nat)
  {
    forall t :: 0 <= t < |all| ==> ValidDraws(all[t], n)
  }

  /** `s` after the first `t` calls of `random.shuffle`, one per draw sequence. */
  function ShuffledTimes<T>(s: seq<T>, all: seq<seq<nat>>, t: nat): (r: seq<T>)
    requires AllValidDraws(all, |s|) && t <= |all|
    ensures |r| == |s| && multiset(r) == multiset(s)
  {
    if t == 0 then s
    else
      var before := ShuffledTimes(s, all, t - 1);
      ShuffledPermutes(before, all[t - 1]);
      Shuffled(before, all[t - 1])
  }

  /** `random.shuffle(a)` in place. */
  method ShuffleInPlace<T>(a: array<T>, draws: seq<nat>)
    requires ValidDraws(draws, a.Length)
    modifies a
    ensures a[..] == Shuffled(old(a[..]), draws)
  {
    var i: int := a.Length - 1;
    while i > 0
      invariant -1 <= i < a.Length
      invariant ShuffleFrom(a[..], draws, i) == Shuffled(old(a[..]), draws)
    {
      var j := draws[i];
      ghost var before := a[..];
      var tmp := a[i];
      a[i] := a[j];
      a[j] := tmp;
      assert a[..] == Swap(before, i, j);
      i := i - 1;
    }
  }
}
