/**
 * The `shuffle` utility: an in-place Fisher-Yates pass that, for `i` from the
 * last index down to 1, swaps `a[i]` with `a[j]` for a random `j` in `[0, i]`.
 * The random draws are an input: `draws[i]` is the `j` chosen at index `i`.
 */
module FisherYates {

  /** One draw per index; the draw at index `i > 0` lies in `[0, i]` (index 0 draws nothing). */
  predicate ValidDraws(draws: seq<nat>, n: nat) {
    |draws| == n && forall i :: 0 < i < n ==> draws[i] <= i
  }

  function Swap<T>(s: seq<T>, i: nat, j: nat): (r: seq<T>)
    requires i < |s| && j < |s|
    ensures |r| == |s|
  {
    s[i := s[j]][j := s[i]]
  }

  /** The swaps at indices `hi - 1` down to `1`, in that order, applied to `s`. */
  function Pass<T>(s: seq<T>, draws: seq<nat>, hi: nat): (r: seq<T>)
    requires ValidDraws(draws, |s|) && hi <= |s|
    ensures |r| == |s|
    decreases hi
  {
    if hi <= 1 then s else Pass(Swap(s, hi - 1, draws[hi - 1]), draws, hi - 1)
  }

  /** What `shuffle` leaves in the array, given the draws. */
  function Shuffled<T>(s: seq<T>, draws: seq<nat>): (r: seq<T>)
    requires ValidDraws(draws, |s|)
  {
    Pass(s, draws, |s|)
  }

  lemma SwapPermutes<T>(s: seq<T>, i: nat, j: nat)
    requires i < |s| && j < |s|
    ensures multiset(Swap(s, i, j)) == multiset(s)
  {
  }

  lemma {:induction false} PassPermutes<T>(s: seq<T>, draws: seq<nat>, hi: nat)
    requires ValidDraws(draws, |s|) && hi <= |s|
    ensures multiset(Pass(s, draws, hi)) == multiset(s)
    decreases hi
  {
    if hi > 1 {
      var t := Swap(s, hi - 1, draws[hi - 1]);
      SwapPermutes(s, hi - 1, draws[hi - 1]);
      PassPermutes(t, draws, hi - 1);
    }
  }

  /** Whatever the draws, the shuffled sequence has the same elements, as often, as the input. */
  lemma ShuffledIsPermutation<T>(s: seq<T>, draws: seq<nat>)
    requires ValidDraws(draws, |s|)
    ensures |Shuffled(s, draws)| == |s|
    ensures multiset(Shuffled(s, draws)) == multiset(s)
  {
    PassPermutes(s, draws, |s|);
  }

  /** Positions at or above `hi` are never touched by the swaps below `hi`. */
  lemma {:induction false} PassKeepsTail<T>(s: seq<T>, draws: seq<nat>, hi: nat, k: nat)
    requires ValidDraws(draws, |s|) && hi <= k < |s|
    ensures Pass(s, draws, hi)[k] == s[k]
    decreases hi
  {
    if hi > 1 {
      PassKeepsTail(Swap(s, hi - 1, draws[hi - 1]), draws, hi - 1, k);
    }
  }

  /** The first swap settles the last slot: it ends up holding the element the last draw picked. */
  lemma ShuffledLast<T>(s: seq<T>, draws: seq<nat>)
    requires ValidDraws(draws, |s|) && |s| >= 2
    ensures Shuffled(s, draws)[|s| - 1] == s[draws[|s| - 1]]
  {
    var n := |s|;
    var t := Swap(s, n - 1, draws[n - 1]);
    PassKeepsTail(t, draws, n - 1, n - 1);
  }

  /** Arrays of length 0 or 1 are left as they are. */
  lemma ShortUnchanged<T>(s: seq<T>, draws: seq<nat>)
    requires ValidDraws(draws, |s|) && |s| <= 1
    ensures Shuffled(s, draws) == s
  {
  }

  /** Drawing `j == i` at every index swaps each element with itself, so nothing moves. */
  lemma {:induction false} IdentityDrawsKeepOrder<T>(s: seq<T>, draws: seq<nat>, hi: nat)
    requires ValidDraws(draws, |s|) && hi <= |s|
    requires forall i :: 0 < i < |s| ==> draws[i] == i
    ensures Pass(s, draws, hi) == s
    decreases hi
  {
    if hi > 1 {
      assert Swap(s, hi - 1, draws[hi - 1]) == s;
      IdentityDrawsKeepOrder(s, draws, hi - 1);
    }
  }

  /** No element occurs twice. */
  predicate Distinct<T(==)>(s: seq<T>) {
    forall i, j :: 0 <= i < j < |s| ==> s[i] != s[j]
  }

  lemma SwapKeepsDistinct<T>(s: seq<T>, i: nat, j: nat)
    requires i < |s| && j < |s| && Distinct(s)
    ensures Distinct(Swap(s, i, j))
  {
    var t := Swap(s, i, j);
    forall a, b | 0 <= a < b < |t|
      ensures t[a] != t[b]
    {
      var a' := if a == i then j else if a == j then i else a;
      var b' := if b == i then j else if b == j then i else b;
      assert t[a] == s[a'] && t[b] == s[b'];
    }
  }

  /**
   * On distinct elements, the passes below `hi` that end in the same order
   * made the same draws: each swap decides which element settles at its index.
   */
  lemma {:induction false} PassInjective<T>(s: seq<T>, d1: seq<nat>, d2: seq<nat>, hi: nat)
    requires ValidDraws(d1, |s|) && ValidDraws(d2, |s|) && hi <= |s| && Distinct(s)
    requires Pass(s, d1, hi) == Pass(s, d2, hi)
    ensures forall i :: 0 < i < hi ==> d1[i] == d2[i]
    decreases hi
  {
    if hi > 1 {
      var t1 := Swap(s, hi - 1, d1[hi - 1]);
      var t2 := Swap(s, hi - 1, d2[hi - 1]);
      PassKeepsTail(t1, d1, hi - 1, hi - 1);
      PassKeepsTail(t2, d2, hi - 1, hi - 1);
      assert s[d1[hi - 1]] == s[d2[hi - 1]];
      assert d1[hi - 1] == d2[hi - 1];
      assert t1 == t2;
      SwapKeepsDistinct(s, hi - 1, d1[hi - 1]);
      PassInjective(t1, d1, d2, hi - 1);
    }
  }

  /**
   * Different valid draws give different orders of distinct elements. There
   * are `n!` valid draw sequences (index 0 draws nothing) and `n!` orders, so
   * with uniform draws each order comes out exactly once: the shuffle is uniform.
   */
  lemma ShuffledInjective<T>(s: seq<T>, d1: seq<nat>, d2: seq<nat>)
    requires ValidDraws(d1, |s|) && ValidDraws(d2, |s|) && Distinct(s)
    requires Shuffled(s, d1) == Shuffled(s, d2)
    ensures forall i :: 0 < i < |s| ==> d1[i] == d2[i]
  {
    PassInjective(s, d1, d2, |s|);
  }

  /** `shuffle(a)`: the swap loop of lines 210-215, with the draws supplied. */
  method Shuffle<T>(a: array<T>, draws: seq<nat>)
    requires ValidDraws(draws, a.Length)
    modifies a
    ensures a[..] == Shuffled(old(a[..]), draws)
    ensures multiset(a[..]) == multiset(old(a[..]))
  {
    var i := a.Length - 1;
    while i > 0
      invariant -1 <= i < a.Length
      invariant Pass(a[..], draws, i + 1) == Shuffled(old(a[..]), draws)
    {
      var j := draws[i];
      ghost var before := a[..];
      var x := a[i];
      a[i] := a[j];
      a[j] := x;
      assert a[..] == Swap(before, i, j);
      i := i - 1;
    }
    ShuffledIsPermutation(old(a[..]), draws);
  }
}
