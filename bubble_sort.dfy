/**
 bubble_sort of rabota.cpp: pass `i` walks the unsorted prefix swapping
 out-of-order neighbours, which carries the largest element of that prefix to
 its end, so that the sorted suffix grows by one element per pass.
 */
module Bubble {
  import opened SortSpec

  /** The elements from index `k` on are in their final places: they are in
      order and none is below an element before `k`. */
  ghost predicate SettledFrom(s: seq<int>, k: int) {
    && (forall p, q :: k <= p < q < |s| && 0 <= p ==> s[p] <= s[q])
    && (forall p, q :: 0 <= p < k <= q < |s| ==> s[p] <= s[q])
  }

  /** Exchanging two neighbours inside the unsettled prefix keeps the suffix settled. */
  lemma SwapKeepsSettled(s: seq<int>, k: nat, m: int)
    requires k + 1 < m <= |s| && SettledFrom(s, m)
    ensures SettledFrom(Swapped(s, k), m)
  {
    var r := Swapped(s, k);
    forall p, q | 0 <= p < m <= q < |s| ensures r[p] <= r[q] {
      assert r[q] == s[q];
      if p == k {
        assert r[p] == s[k + 1];
      } else if p == k + 1 {
        assert r[p] == s[k];
      } else {
        assert r[p] == s[p];
      }
    }
  }

  /** `s[j]` is the largest element of the prefix `s[..j + 1]`. */
  ghost predicate MaxAt(s: seq<int>, j: nat) {
    j < |s| && forall p :: 0 <= p < j ==> s[p] <= s[j]
  }

  /** One compare-and-swap of the inner loop at `j`: it keeps the elements and
      the settled suffix, and carries the largest element seen so far to `j + 1`. */
  lemma BubbleStep(s: seq<int>, j: nat, m: int)
    requires j + 1 < m <= |s| && SettledFrom(s, m)
    requires MaxAt(s, j)
    ensures var r := if s[j] > s[j + 1] then Swapped(s, j) else s;
      multiset(r) == multiset(s) && SettledFrom(r, m) && MaxAt(r, j + 1)
  {
    if s[j] > s[j + 1] {
      SwappedPermutes(s, j);
      SwapKeepsSettled(s, j, m);
    }
  }

  /** The largest element of the prefix `s[..k + 1]`. */
  function PrefixMax(s: seq<int>, k: nat): (m: int)
    requires k < |s|
    ensures m in s[..k + 1]
    ensures forall p :: 0 <= p <= k ==> s[p] <= m
  {
    if k == 0 then s[0]
    else
      assert s[..k + 1] == s[..k] + [s[k]];
      Max(PrefixMax(s, k - 1), s[k])
  }

  /** The inner loop has compared the pairs before `j` of the pass that started
      from `start`: each earlier position holds the smaller of the largest
      element carried so far and its right neighbour, `j` holds the largest
      element of `start[..j + 1]`, and nothing after `j` has moved. */
  ghost predicate PassedTo(s: seq<int>, start: seq<int>, j: nat) {
    && |s| == |start| && j < |s|
    && (forall k {:trigger s[k]} :: 0 <= k < j ==> s[k] == Min(PrefixMax(start, k), start[k + 1]))
    && s[j] == PrefixMax(start, j)
    && (forall q :: j < q < |s| ==> s[q] == start[q])
  }

  /** The compare-and-swap at `j` carries the larger of `a[j]` and `a[j + 1]`
      on and leaves the smaller behind. */
  lemma PassedStep(s: seq<int>, start: seq<int>, j: nat)
    requires PassedTo(s, start, j) && j + 1 < |s|
    ensures PassedTo(if s[j] > s[j + 1] then Swapped(s, j) else s, start, j + 1)
  {
    assert s[j + 1] == start[j + 1];
  }

  /** Once the largest element of the unsettled prefix stands at its end, the
      settled suffix grows by that position. */
  lemma MaxSettles(s: seq<int>, m: int)
    requires 1 <= m <= |s| && SettledFrom(s, m) && MaxAt(s, m - 1)
    ensures SettledFrom(s, m - 1)
  {
  }

  /** The state of the inner loop before the compare at `j`: the elements are
      kept, the suffix from `m` is still settled, `s[j]` carries the largest
      element seen so far, and positions below `j` hold what it left behind. */
  ghost predicate PassState(s: seq<int>, start: seq<int>, m: int, j: nat) {
    && j + 1 <= m <= |s|
    && multiset(s) == multiset(start)
    && SettledFrom(s, m)
    && MaxAt(s, j)
    && PassedTo(s, start, j)
  }

  /** One compare-and-swap of the inner loop keeps `PassState`, one position on. */
  lemma PassStateStep(s: seq<int>, start: seq<int>, m: int, j: nat)
    requires PassState(s, start, m, j) && j + 1 < m
    ensures PassState(if s[j] > s[j + 1] then Swapped(s, j) else s, start, m, j + 1)
  {
    BubbleStep(s, j, m);
    PassedStep(s, start, j);
  }

  /** Positions past the carried maximum are untouched. */
  lemma PassedTail(s: seq<int>, start: seq<int>, j: nat, k: nat)
    requires PassedTo(s, start, j) && k == j + 1
    ensures s[k..] == start[k..]
  {
    forall q | 0 <= q < |s| - k ensures s[k..][q] == start[k..][q] {
      assert s[k + q] == start[k + q];
    }
  }

  /** At the end of the pass position `m - 1` is settled and the contents are
      those of one bubble pass over `start[..m]`. */
  lemma PassStateDone(s: seq<int>, start: seq<int>, m: int)
    requires 1 <= m && PassState(s, start, m, m - 1)
    ensures SettledFrom(s, m - 1)
    ensures multiset(s) == multiset(start)
    ensures forall k {:trigger s[k]} :: 0 <= k < m - 1 ==> s[k] == Min(PrefixMax(start, k), start[k + 1])
    ensures s[m - 1] == PrefixMax(start, m - 1)
    ensures s[m..] == start[m..]
  {
    MaxSettles(s, m);
    PassedTail(s, start, m - 1, m);
  }

  /** The inner loop of bubble_sort: one pass over the unsettled prefix `a[..m]`
      with adjacent compare-and-swap, which settles position `m - 1`. */
  method BubblePass(a: array<int>, m: int)
    requires 1 <= m <= a.Length
    requires SettledFrom(a[..], m)
    modifies a
    ensures SettledFrom(a[..], m - 1)
    ensures multiset(a[..]) == old(multiset(a[..]))
    // the new contents: the largest element of the prefix ends at m - 1, every
    // earlier position holds what the carried maximum left behind there, and
    // the suffix from m is untouched
    ensures forall k {:trigger a[k]} :: 0 <= k < m - 1 ==> a[k] == Min(PrefixMax(old(a[..]), k), old(a[k + 1]))
    ensures a[m - 1] == PrefixMax(old(a[..]), m - 1)
    ensures a[m..] == old(a[m..])
  {
    ghost var start := a[..];
    var j := 0;
    while j < m - 1
      invariant 0 <= j <= m - 1
      invariant PassState(a[..], start, m, j)
    {
      PassStateStep(a[..], start, m, j);
      if a[j] > a[j + 1] {
        Exchange(a, j);
      }
      j := j + 1;
    }
    PassStateDone(a[..], start, m);
  }

  method BubbleSort(a: array<int>)
    modifies a
    ensures Sorted(a[..])
    ensures multiset(a[..]) == old(multiset(a[..]))
    ensures Sorted(old(a[..])) ==> a[..] == old(a[..])
  {
    var n := a.Length;
    var i := 0;
    while i < n - 1
      invariant 0 <= i <= n && (n == 0 || i <= n - 1)
      invariant multiset(a[..]) == old(multiset(a[..]))
      // after pass i the last i elements hold the i largest values, in order
      invariant SettledFrom(a[..], n - i)
    {
      BubblePass(a, n - i);
      i := i + 1;
    }
    assert SettledFrom(a[..], 1) || n == 0;
    if Sorted(old(a[..])) {
      SortedPermutationUnique(a[..], old(a[..]));
    }
  }
}
