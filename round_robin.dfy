/**
  The split of the shuffled roster into groups, `[students[i::k] for i in range(k)]`:
  group i takes positions i, i+k, i+2k, ... of the list.
*/
module RoundRobin {

  import opened Common

  /** Python's extended slice `s[start::step]` for a positive step. */
  function Slice<T>(s: seq<T>, start: nat, step: nat): seq<T>
    requires step > 0
    decreases |s| - start
  {
    if start >= |s| then [] else [s[start]] + Slice(s, start + step, step)
  }

  /** The k groups of `s`; with k == 0 Python's `range(0)` gives no group at all. */
  function Split<T>(s: seq<T>, k: nat): (groups: seq<seq<T>>)
    ensures |groups| == k
  {
    seq(k, i requires 0 <= i < k => Slice(s, i, k))
  }

  /** The multiset union of the groups. */
  function Members<T>(groups: seq<seq<T>>): multiset<T>
  {
    if groups == [] then multiset{}
    else Members(groups[..|groups| - 1]) + multiset(groups[|groups| - 1])
  }

  /** Position j of the slice exists exactly when start + j*step is inside `s`, and holds that element. */
  lemma {:induction false} SliceAt<T>(s: seq<T>, start: nat, step: nat, j: nat)
    requires step > 0
    ensures j < |Slice(s, start, step)| <==> start + j * step < |s|
    ensures j < |Slice(s, start, step)| ==> Slice(s, start, step)[j] == s[start + j * step]
    decreases |s| - start
  {
    if start < |s| && j > 0 {
      SliceAt(s, start + step, step, j - 1);
      assert (start + step) + (j - 1) * step == start + j * step;
    } else if start >= |s| {
      assert start + j * step >= start;
    }
  }

  /** Group i of the split holds positions i, i+k, i+2k, ... of `s` and nothing else. */
  lemma GroupPositions<T>(s: seq<T>, k: nat, i: nat, j: nat)
    requires i < k
    ensures j < |Split(s, k)[i]| <==> i + j * k < |s|
    ensures j < |Split(s, k)[i]| ==> Split(s, k)[i][j] == s[i + j * k]
  {
    SliceAt(s, i, k, j);
  }

  /** Groups are listed largest first and never differ in size by more than one. */
  lemma GroupSizes<T>(s: seq<T>, k: nat, i1: nat, i2: nat)
    requires i1 < i2 < k
    ensures |Split(s, k)[i2]| <= |Split(s, k)[i1]| <= |Split(s, k)[i2]| + 1
  {
    var g1, g2 := Split(s, k)[i1], Split(s, k)[i2];
    if |g2| > 0 {
      var j := |g2| - 1;
      SliceAt(s, i2, k, j);
      SliceAt(s, i1, k, j);
    }
    if |g1| > 1 {
      var j := |g1| - 1;
      SliceAt(s, i1, k, j);
      SliceAt(s, i2, k, j - 1);
      assert i2 + (j - 1) * k == i2 - k + j * k;
    }
  }

  /** Skipping the first `step` elements shifts every slice start back by `step`. */
  lemma {:induction false} SliceShift<T>(s: seq<T>, start: nat, step: nat)
    requires 0 < step <= |s|
    ensures Slice(s, start + step, step) == Slice(s[step..], start, step)
    decreases |s| - start
  {
    var t := s[step..];
    if start + step < |s| {
      SliceShift(s, start + step, step);
      assert Slice(t, start, step) == [t[start]] + Slice(t, start + step, step);
      assert Slice(s, start + step, step) == [s[start + step]] + Slice(s, start + step + step, step);
      assert s[start + step] == t[start];
    } else {
      assert Slice(t, start, step) == [];
    }
  }

  /** The one-element-or-empty lists holding the first m positions of `s`, one per group. */
  function Heads<T>(s: seq<T>, m: nat): (h: seq<seq<T>>)
    ensures |h| == m
  {
    seq(m, i requires 0 <= i < m => if i < |s| then [s[i]] else [])
  }

  lemma {:induction false} HeadsMembers<T>(s: seq<T>, m: nat)
    ensures Members(Heads(s, m)) == multiset(s[..Min(m, |s|)])
  {
    if m > 0 {
      assert Heads(s, m)[..m - 1] == Heads(s, m - 1);
      HeadsMembers(s, m - 1);
      if m - 1 < |s| {
        assert s[..m] == s[..m - 1] + [s[m - 1]];
      }
    }
  }

  /** The members of group-wise concatenations are the members of both sides. */
  lemma {:induction false} MembersOfPairwise<T>(g: seq<seq<T>>, h: seq<seq<T>>, c: seq<seq<T>>)
    requires |g| == |h| == |c|
    requires forall i :: 0 <= i < |c| ==> c[i] == g[i] + h[i]
    ensures Members(c) == Members(g) + Members(h)
  {
    if c != [] {
      var n := |c| - 1;
      MembersOfPairwise(g[..n], h[..n], c[..n]);
      assert multiset(c[n]) == multiset(g[n]) + multiset(h[n]);
    }
  }

  /**
    Every element of `s` ends up in exactly one group, as many times as it occurs
    in `s`: the multiset union of the groups is the multiset of the list.
  */
  lemma {:induction false} SplitMembers<T>(s: seq<T>, k: nat)
    requires k > 0
    ensures Members(Split(s, k)) == multiset(s)
    decreases |s|
  {
    var groups := Split(s, k);
    if |s| < k {
      forall i | 0 <= i < k ensures groups[i] == Heads(s, k)[i] {
        if i < |s| {
          assert groups[i] == [s[i]] + Slice(s, i + k, k);
        }
      }
      assert groups == Heads(s, k);
      HeadsMembers(s, k);
      assert s[..|s|] == s;
    } else {
      var rest := Split(s[k..], k);
      forall i | 0 <= i < k ensures groups[i] == Heads(s, k)[i] + rest[i] {
        SliceShift(s, i, k);
      }
      MembersOfPairwise(Heads(s, k), rest, groups);
      HeadsMembers(s, k);
      SplitMembers(s[k..], k);
      assert s == s[..k] + s[k..];
    }
  }
}
