/**
 * The shuffle of the question table as a sequence of index swaps. Go's
 * rand.Shuffle(n, swap) calls `swap(i, j)` for i = n-1 down to 1, each time
 * with a random j in [0, i]; here the pairs it passes are a parameter.
 */
module Swaps {

  /** Every pair in `swaps` names two valid indices of a table of size `n`. */
  predicate InRange(n: nat, swaps: seq<(int, int)>) {
    forall k :: 0 <= k < |swaps| ==> 0 <= swaps[k].0 < n && 0 <= swaps[k].1 < n
  }

  /** The pairs rand.Shuffle(n, ...) passes: (n-1, j), (n-2, j'), ..., (1, j''),
      each second index at most the first. */
  predicate FisherYatesOrder(n: nat, swaps: seq<(int, int)>) {
    && |swaps| == (if n == 0 then 0 else n - 1)
    && InRange(n, swaps)
    && forall k :: 0 <= k < |swaps| ==> swaps[k].0 == n - 1 - k && swaps[k].1 <= swaps[k].0
  }

  /** `s` with the elements at `i` and `j` exchanged. */
  function Swapped<T>(s: seq<T>, i: int, j: int): (r: seq<T>)
    requires 0 <= i < |s| && 0 <= j < |s|
    ensures |r| == |s| && r[i] == s[j] && r[j] == s[i]
    ensures forall k :: 0 <= k < |s| && k != i && k != j ==> r[k] == s[k]
    ensures multiset(r) == multiset(s)
  {
    s[i := s[j]][j := s[i]]
  }

  /** `s` after the swaps, applied in order. */
  function ApplySwaps<T>(s: seq<T>, swaps: seq<(int, int)>): (r: seq<T>)
    requires InRange(|s|, swaps)
    ensures |r| == |s| && multiset(r) == multiset(s)
    decreases |swaps|
  {
    if swaps == [] then s
    else
      var last := swaps[|swaps| - 1];
      Swapped(ApplySwaps(s, swaps[..|swaps| - 1]), last.0, last.1)
  }

  /** Applying `u` and then `v` is applying `u + v`. */
  lemma {:induction false} ApplySwapsAppend<T>(s: seq<T>, u: seq<(int, int)>, v: seq<(int, int)>)
    requires InRange(|s|, u) && InRange(|s|, v)
    ensures InRange(|s|, u + v)
    ensures ApplySwaps(s, u + v) == ApplySwaps(ApplySwaps(s, u), v)
    decreases |v|
  {
    if v == [] {
      assert u + v == u;
    } else {
      var init := v[..|v| - 1];
      assert (u + v)[..|u + v| - 1] == u + init;
      ApplySwapsAppend(s, u, init);
    }
  }

  /** Swaps that stay inside a prefix leave the element after it in place. */
  lemma {:induction false} ApplySwapsPrefix<T>(p: seq<T>, x: T, swaps: seq<(int, int)>)
    requires InRange(|p|, swaps)
    ensures InRange(|p + [x]|, swaps)
    ensures ApplySwaps(p + [x], swaps) == ApplySwaps(p, swaps) + [x]
    decreases |swaps|
  {
    if swaps != [] {
      var init, last := swaps[..|swaps| - 1], swaps[|swaps| - 1];
      ApplySwapsPrefix(p, x, init);
      SwappedPrefix(ApplySwaps(p, init), x, last.0, last.1);
    }
  }

  /** A swap inside a prefix leaves the element after it in place. */
  lemma SwappedPrefix<T>(p: seq<T>, x: T, i: int, j: int)
    requires 0 <= i < |p| && 0 <= j < |p|
    ensures Swapped(p + [x], i, j) == Swapped(p, i, j) + [x]
  {
  }

  /** Two rearrangements of each other that agree on the last element are
      rearrangements of each other without it. */
  lemma SameLastSameRest<T>(a: seq<T>, b: seq<T>)
    requires |a| == |b| > 0 && multiset(a) == multiset(b) && a[|a| - 1] == b[|b| - 1]
    ensures multiset(a[..|a| - 1]) == multiset(b[..|b| - 1])
  {
    var x := a[|a| - 1];
    assert a == a[..|a| - 1] + [x];
    assert b == b[..|b| - 1] + [x];
    assert multiset(a[..|a| - 1]) == multiset(a) - multiset{x};
    assert multiset(b[..|b| - 1]) == multiset(b) - multiset{x};
  }

  /** Prefixing one more pair for the next larger index keeps the order
      rand.Shuffle uses. */
  lemma FisherYatesStep(n: nat, j: int, rest: seq<(int, int)>)
    requires n >= 2 && 0 <= j < n && FisherYatesOrder(n - 1, rest)
    ensures FisherYatesOrder(n, [(n - 1, j)] + rest)
  {
    var swaps := [(n - 1, j)] + rest;
    forall k | 0 <= k < |swaps|
      ensures 0 <= swaps[k].0 < n && 0 <= swaps[k].1 <= swaps[k].0 && swaps[k].0 == n - 1 - k
    {
      if k > 0 {
        assert swaps[k] == rest[k - 1];
      }
    }
  }

  /** A single pair is a single swap. */
  lemma ApplyOneSwap<T>(s: seq<T>, i: int, j: int)
    requires 0 <= i < |s| && 0 <= j < |s|
    ensures InRange(|s|, [(i, j)]) && ApplySwaps(s, [(i, j)]) == Swapped(s, i, j)
  {
    assert [(i, j)][..0] == [];
  }

  /** Swapping into the last slot first, then only inside the prefix, fixes
      the last element. */
  lemma SwapLastThen<T>(s: seq<T>, j: int, rest: seq<(int, int)>)
    requires 0 <= j < |s| && InRange(|s| - 1, rest)
    ensures InRange(|s|, [(|s| - 1, j)] + rest)
    ensures var s1 := Swapped(s, |s| - 1, j);
      ApplySwaps(s, [(|s| - 1, j)] + rest) == ApplySwaps(s1[..|s| - 1], rest) + [s[j]]
  {
    var n := |s|;
    var first := [(n - 1, j)];
    var s1 := Swapped(s, n - 1, j);
    var p := s1[..n - 1];
    // Needed before the calc for its first line to be well formed; the same
    // call repeated as the first step's hint keeps that step's proof small.
    ApplySwapsAppend(s, first, rest);
    calc {
      ApplySwaps(s, first + rest);
      { ApplySwapsAppend(s, first, rest); }
      ApplySwaps(ApplySwaps(s, first), rest);
      { ApplyOneSwap(s, n - 1, j); }
      ApplySwaps(s1, rest);
      { SplitLast(s1); }
      ApplySwaps(p + [s[j]], rest);
      { ApplySwapsPrefix(p, s[j], rest); }
      ApplySwaps(p, rest) + [s[j]];
    }
  }

  /** A non-empty sequence is its prefix followed by its last element. */
  lemma SplitLast<T>(t: seq<T>)
    requires |t| > 0
    ensures t == t[..|t| - 1] + [t[|t| - 1]]
  {
  }

  /** Rearrangements of each other have the same length. */
  lemma SameLength<T>(s: seq<T>, t: seq<T>)
    requires multiset(s) == multiset(t)
    ensures |s| == |t|
  {
    assert |s| == |multiset(s)| && |t| == |multiset(t)|;
  }

  /** Where `s` holds the element `t` has at position k, when `s` and `t`
      are rearrangements of each other. */
  lemma IndexOf<T>(s: seq<T>, t: seq<T>, k: int) returns (j: int)
    requires multiset(s) == multiset(t) && 0 <= k < |t|
    ensures 0 <= j < |s| && s[j] == t[k]
  {
    assert t[k] in multiset(t);
    assert t[k] in multiset(s);
    j :| 0 <= j < |s| && s[j] == t[k];
  }

  /** Every rearrangement of `s` is the result of some choice of the random
      indices rand.Shuffle draws: the swap model can produce every order. */
  lemma {:induction false} EveryPermutationReachable<T>(s: seq<T>, t: seq<T>) returns (swaps: seq<(int, int)>)
    requires multiset(s) == multiset(t)
    ensures FisherYatesOrder(|s|, swaps) && ApplySwaps(s, swaps) == t
    decreases |s|
  {
    var n := |s|;
    SameLength(s, t);
    if n <= 1 {
      swaps := [];
      if n == 1 {
        var j := IndexOf(s, t, 0);
      }
    } else {
      var j := IndexOf(s, t, n - 1);
      var s1 := Swapped(s, n - 1, j);
      SameLastSameRest(s1, t);
      var rest := EveryPermutationReachable(s1[..n - 1], t[..n - 1]);
      swaps := [(n - 1, j)] + rest;
      FisherYatesStep(n, j, rest);
      SwapLastThen(s, j, rest);
      SplitLast(t);
    }
  }
}
