/**
 odd_even_sort of rabota.cpp (brick sort): each round compares and swaps the
 pairs that start at even indices, then the pairs that start at odd indices,
 and the rounds stop after one in which neither pass swapped anything.
 */
module OddEven {
  import opened SortSpec

  /** Every neighbour pair starting at an index of the given parity, below `bound`, is in order. */
  ghost predicate PairsOrdered(s: seq<int>, parity: nat, bound: int) {
    forall p :: 0 <= p < bound && p + 1 < |s| && p % 2 == parity ==> s[p] <= s[p + 1]
  }

  /** `p` is the left index of a pair that the pass starting at `first` compares. */
  predicate PairStart(p: int, first: nat, n: int) {
    first <= p && p + 1 < n && p % 2 == first
  }

  /** The pass has treated its pairs before `i`: each holds the two values it
      started with, smaller first, and every position that is in none of
      those pairs still holds its starting value. */
  ghost predicate PassedUpTo(s: seq<int>, start: seq<int>, first: nat, i: int) {
    && |s| == |start|
    && (forall p :: PairStart(p, first, |s|) && p < i ==>
          s[p] == Min(start[p], start[p + 1]) && s[p + 1] == Max(start[p], start[p + 1]))
    && (forall q :: 0 <= q < |s| && i <= q ==> s[q] == start[q])
    && (forall q :: 0 <= q < |s| && !PairStart(q, first, |s|) && !PairStart(q - 1, first, |s|) ==>
          s[q] == start[q])
  }

  lemma ParityStep(i: int)
    ensures (i + 2) % 2 == i % 2 && (i + 1) % 2 != i % 2
  {
  }

  /** The pair starts of a pass are `first + 2 * k`. */
  lemma ParityOf(first: nat, k: nat)
    requires first <= 1
    ensures (first + 2 * k) % 2 == first
  {
  }

  /** One compare-and-swap at `i` keeps the elements, and a swap removes
      exactly one inversion. */
  lemma CompareSwapStep(s: seq<int>, i: nat)
    requires i + 1 < |s|
    ensures var r := if s[i] > s[i + 1] then Swapped(s, i) else s;
      && multiset(r) == multiset(s)
      && (s[i] > s[i + 1] ==> Inversions(r) == Inversions(s) - 1)
  {
    if s[i] > s[i + 1] {
      SwappedPermutes(s, i);
      SwapRemovesInversion(s, i);
    }
  }

  /** The compare-and-swap at the pair starting at `i` puts that pair's
      starting values in order and touches nothing else. */
  lemma PassStep(s: seq<int>, start: seq<int>, first: nat, i: nat)
    requires first <= 1 && PairStart(i, first, |s|) && PassedUpTo(s, start, first, i)
    ensures PassedUpTo(if s[i] > s[i + 1] then Swapped(s, i) else s, start, first, i + 2)
  {
    var r := if s[i] > s[i + 1] then Swapped(s, i) else s;
    ParityStep(i);
    assert !PairStart(i + 1, first, |s|);
    assert s[i] == start[i] && s[i + 1] == start[i + 1];
    assert r[i] == Min(s[i], s[i + 1]) && r[i + 1] == Max(s[i], s[i + 1]);
    forall p | PairStart(p, first, |r|) && p < i + 2
      ensures r[p] == Min(start[p], start[p + 1]) && r[p + 1] == Max(start[p], start[p + 1])
    {
      if p != i {
        assert p != i + 1 && p + 1 < i;
        assert r[p] == s[p] && r[p + 1] == s[p + 1];
      }
    }
    forall q | 0 <= q < |r| && i + 2 <= q ensures r[q] == start[q] {
      assert r[q] == s[q];
    }
    forall q | 0 <= q < |r| && !PairStart(q, first, |r|) && !PairStart(q - 1, first, |r|)
      ensures r[q] == start[q]
    {
      assert q != i && q != i + 1;
      assert r[q] == s[q];
    }
  }

  /** When the loop index has run past the last pair, every pair has been
      treated, and so every pair of that parity is in order. */
  lemma PassComplete(s: seq<int>, start: seq<int>, first: nat, i: int)
    requires PassedUpTo(s, start, first, i) && i >= |s| - 1
    ensures PassedUpTo(s, start, first, |s|)
    ensures PairsOrdered(s, first, |s|)
  {
    forall p | 0 <= p < |s| && p + 1 < |s| && p % 2 == first ensures s[p] <= s[p + 1] {
      assert PairStart(p, first, |s|);
    }
  }

  /** The body of either `for` loop: compare the pair starting at `i` and swap
      it when it is out of order; `swap` is whether it did. */
  method CompareSwapAt(a: array<int>, i: nat, first: nat, ghost start: seq<int>) returns (swap: bool)
    requires first <= 1 && PairStart(i, first, a.Length) && PassedUpTo(a[..], start, first, i)
    modifies a
    ensures PassedUpTo(a[..], start, first, i + 2)
    ensures multiset(a[..]) == old(multiset(a[..]))
    ensures swap ==> Inversions(a[..]) == Inversions(old(a[..])) - 1
    ensures !swap ==> a[..] == old(a[..])
  {
    CompareSwapStep(a[..], i);
    PassStep(a[..], start, first, i);
    swap := a[i] > a[i + 1];
    if swap {
      Exchange(a, i);
    }
  }

  /** One compare-and-swap pass over the pairs `(i, i + 1)` for `i = first, first + 2, ...`
      (one of the two `for` loops of a round); `swapped` is whether it exchanged anything. */
  method Pass(a: array<int>, first: nat) returns (swapped: bool)
    requires first <= 1
    modifies a
    ensures multiset(a[..]) == old(multiset(a[..]))
    ensures PairsOrdered(a[..], first, a.Length)
    // each compared pair ends up holding its own two values, smaller first,
    // and every position in no compared pair keeps its value
    ensures PassedUpTo(a[..], old(a[..]), first, a.Length)
    ensures !swapped ==> a[..] == old(a[..])
    ensures swapped ==> Inversions(a[..]) < Inversions(old(a[..]))
    ensures Inversions(a[..]) <= Inversions(old(a[..]))
  {
    ghost var start := a[..];
    var n := a.Length;
    swapped := false;
    var i := first;
    ghost var k := 0;
    while i < n - 1
      invariant i == first + 2 * k && i <= n + 1
      invariant multiset(a[..]) == multiset(start)
      invariant PassedUpTo(a[..], start, first, i)
      invariant !swapped ==> a[..] == start
      // every swap so far removed an inversion
      invariant Inversions(a[..]) + (if swapped then 1 else 0) <= Inversions(start)
    {
      ParityOf(first, k);
      var swap := CompareSwapAt(a, i, first, start);
      swapped := swapped || swap;
      i, k := i + 2, k + 1;
    }
    PassComplete(a[..], start, first, i);
  }

  method OddEvenSort(a: array<int>)
    modifies a
    ensures Sorted(a[..])
    ensures multiset(a[..]) == old(multiset(a[..]))
    ensures Sorted(old(a[..])) ==> a[..] == old(a[..])
  {
    var sorted := false;
    while !sorted
      invariant multiset(a[..]) == old(multiset(a[..]))
      invariant sorted ==> Sorted(a[..])
      // every round either removes an inversion or is the last one
      decreases Inversions(a[..]), if sorted then 0 else 1
    {
      sorted := true;
      var swappedEven := Pass(a, 0);
      ghost var afterEven := a[..];
      var swappedOdd := Pass(a, 1);
      if swappedEven || swappedOdd {
        sorted := false;
      } else {
        assert a[..] == afterEven;
        assert GapSorted(a[..], 1) by {
          forall k | 1 <= k < a.Length ensures a[k - 1] <= a[k] {
            assert (k - 1) % 2 == 0 || (k - 1) % 2 == 1;
          }
        }
        GapOneSorted(a[..]);
      }
    }
    if Sorted(old(a[..])) {
      SortedPermutationUnique(a[..], old(a[..]));
    }
  }
}
