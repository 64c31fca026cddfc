/**
 The contract that the four sorts of rabota.cpp share, and the facts about it
 that their proofs use: what "ascending" and "gap-sorted" mean, the adjacent
 swap that std::swap performs, and the inversion count that measures how far
 a sequence is from being sorted.
 */
module SortSpec {

  /** Every element is at most every later element. */
  predicate Sorted(s: seq<int>) {
    forall i, j :: 0 <= i < j < |s| ==> s[i] <= s[j]
  }

  /** Every element is at most the element `gap` positions further on. */
  predicate GapSorted(s: seq<int>, gap: nat) {
    forall k :: gap <= k < |s| ==> s[k - gap] <= s[k]
  }

  function Min(x: int, y: int): (m: int)
    ensures m <= x && m <= y && (m == x || m == y)
  {
    if x <= y then x else y
  }

  function Max(x: int, y: int): (m: int)
    ensures m >= x && m >= y && (m == x || m == y)
  {
    if x <= y then y else x
  }

  /** `s` with the elements at `p` and `q` exchanged. */
  function Exchanged(s: seq<int>, p: int, q: int): (r: seq<int>)
    requires 0 <= p < |s| && 0 <= q < |s|
    ensures |r| == |s| && r[p] == s[q] && r[q] == s[p]
    ensures forall k :: 0 <= k < |s| && k != p && k != q ==> r[k] == s[k]
  {
    s[p := s[q]][q := s[p]]
  }

  /** Exchanging two elements keeps the multiset. */
  lemma ExchangedPermutes(s: seq<int>, p: int, q: int)
    requires 0 <= p < |s| && 0 <= q < |s|
    ensures multiset(Exchanged(s, p, q)) == multiset(s)
  {
  }

  /** `s` with the neighbours at `k` and `k + 1` exchanged. */
  function Swapped(s: seq<int>, k: nat): (r: seq<int>)
    requires k + 1 < |s|
    ensures |r| == |s| && r[k] == s[k + 1] && r[k + 1] == s[k]
    ensures forall m :: 0 <= m < |s| && m != k && m != k + 1 ==> r[m] == s[m]
  {
    Exchanged(s, k, k + 1)
  }

  /** std::swap of the neighbours at `k` and `k + 1`. */
  method Exchange(a: array<int>, k: nat)
    requires k + 1 < a.Length
    modifies a
    ensures a[..] == Swapped(old(a[..]), k)
  {
    a[k], a[k + 1] := a[k + 1], a[k];
  }

  /** How many elements of `s` are strictly smaller than `x`. */
  function CountBelow(x: int, s: seq<int>): (c: nat)
    ensures c <= |s|
  {
    if s == [] then 0 else (if s[0] < x then 1 else 0) + CountBelow(x, s[1..])
  }

  /** n(n-1) pairs, counted twice, split into the pairs of the first element and the rest. */
  lemma PairsStep(n: int)
    ensures n * (n - 1) == (n - 1) * (n - 2) + 2 * (n - 1)
  {
  }

  /** The number of pairs `i < j` with `s[i] > s[j]`. */
  function Inversions(s: seq<int>): (r: nat)
    // at most one inversion per pair of positions
    ensures 2 * r <= |s| * (|s| - 1)
  {
    if s == [] then 0
    else
      PairsStep(|s|);
      CountBelow(s[0], s[1..]) + Inversions(s[1..])
  }

  /** A sequence sorted at gap 1 is sorted. */
  lemma {:induction false} GapOneSorted(s: seq<int>)
    requires GapSorted(s, 1)
    ensures Sorted(s)
  {
    if |s| > 1 {
      var p := s[..|s| - 1];
      assert GapSorted(p, 1) by {
        forall k | 1 <= k < |p| ensures p[k - 1] <= p[k] {
          assert p[k - 1] == s[k - 1] && p[k] == s[k];
        }
      }
      GapOneSorted(p);
      forall i, j | 0 <= i < j < |s| ensures s[i] <= s[j] {
        if j < |s| - 1 {
          assert s[i] == p[i] && s[j] == p[j];
        } else if i < j - 1 {
          assert s[i] == p[i] && s[j - 1] == p[j - 1];
        }
      }
    }
  }

  /** Swapping does not change the elements, only their order. */
  lemma SwappedPermutes(s: seq<int>, k: nat)
    requires k + 1 < |s|
    ensures multiset(Swapped(s, k)) == multiset(s)
  {
    ExchangedPermutes(s, k, k + 1);
  }

  /** The first element of a sorted sequence is its least element. */
  lemma SortedHeadIsLeast(s: seq<int>, x: int)
    requires Sorted(s) && x in multiset(s)
    ensures s != [] && s[0] <= x
  {
    assert x in s;
  }

  /** Dropping the first element keeps a sequence sorted and removes that element from its multiset. */
  lemma SortedTail(s: seq<int>)
    requires Sorted(s) && s != []
    ensures Sorted(s[1..])
    ensures multiset(s[1..]) == multiset(s) - multiset{s[0]}
  {
    assert s == [s[0]] + s[1..];
  }

  /** Two non-empty sequences with the same head and the same tail are equal. */
  lemma HeadTailEqual(s: seq<int>, t: seq<int>)
    requires s != [] && t != [] && s[0] == t[0] && s[1..] == t[1..]
    ensures s == t
  {
    assert s == [s[0]] + s[1..] && t == [t[0]] + t[1..];
  }

  /** An ordered sequence holds exactly one arrangement of its elements:
      two sorted sequences with the same multiset are equal. */
  lemma {:induction false} SortedPermutationUnique(s: seq<int>, t: seq<int>)
    requires Sorted(s) && Sorted(t)
    requires multiset(s) == multiset(t)
    ensures s == t
  {
    if s == [] {
      assert |t| == |multiset(t)| == 0;
    } else {
      assert s[0] in multiset(t);
      SortedHeadIsLeast(t, s[0]);
      SortedHeadIsLeast(s, t[0]);
      assert s[0] == t[0];
      SortedTail(s);
      SortedTail(t);
      assert multiset(s[1..]) == multiset(t[1..]);
      SortedPermutationUnique(s[1..], t[1..]);
      HeadTailEqual(s, t);
    }
  }

  /** Counting the elements below `x` does not depend on the order of two neighbours. */
  lemma {:induction false} CountBelowSwapped(x: int, s: seq<int>, k: nat)
    requires k + 1 < |s|
    ensures CountBelow(x, Swapped(s, k)) == CountBelow(x, s)
  {
    var r := Swapped(s, k);
    if k == 0 {
      assert s[1..][1..] == r[1..][1..] == s[2..];
      assert s[1..][0] == s[1] && r[1..][0] == s[0];
    } else {
      assert r[0] == s[0];
      assert r[1..] == Swapped(s[1..], k - 1);
      CountBelowSwapped(x, s[1..], k - 1);
    }
  }

  /** Exchanging an out-of-order pair of neighbours removes exactly one inversion. */
  lemma {:induction false} SwapRemovesInversion(s: seq<int>, k: nat)
    requires k + 1 < |s| && s[k] > s[k + 1]
    ensures Inversions(Swapped(s, k)) == Inversions(s) - 1
  {
    var r := Swapped(s, k);
    if k == 0 {
      var t := s[2..];
      assert s[1..] == [s[1]] + t && r[1..] == [s[0]] + t;
      assert ([s[1]] + t)[1..] == t && ([s[0]] + t)[1..] == t;
      assert CountBelow(s[0], s[1..]) == 1 + CountBelow(s[0], t);
      assert CountBelow(s[1], r[1..]) == CountBelow(s[1], t);
      assert Inversions(s[1..]) == CountBelow(s[1], t) + Inversions(t);
      assert Inversions(r[1..]) == CountBelow(s[0], t) + Inversions(t);
    } else {
      assert r[0] == s[0];
      assert r[1..] == Swapped(s[1..], k - 1);
      CountBelowSwapped(s[0], s[1..], k - 1);
      SwapRemovesInversion(s[1..], k - 1);
    }
  }

  /** No element of `s` is below `x` exactly when `x` is at most all of them. */
  lemma {:induction false} CountBelowZero(x: int, s: seq<int>)
    ensures CountBelow(x, s) == 0 <==> forall k :: 0 <= k < |s| ==> x <= s[k]
  {
    if s != [] {
      CountBelowZero(x, s[1..]);
      assert forall k :: 1 <= k < |s| ==> s[k] == s[1..][k - 1];
    }
  }

  /** A sequence has no inversion exactly when it is sorted; this is the
      point where the odd-even sort's termination measure reaches its floor. */
  lemma {:induction false} InversionsZeroIffSorted(s: seq<int>)
    ensures Inversions(s) == 0 <==> Sorted(s)
  {
    if s != [] {
      var t := s[1..];
      InversionsZeroIffSorted(t);
      CountBelowZero(s[0], t);
      assert forall k :: 1 <= k < |s| ==> s[k] == t[k - 1];
      if Sorted(s) {
        assert Sorted(t) by {
          forall i, j | 0 <= i < j < |t| ensures t[i] <= t[j] {
            assert t[i] == s[i + 1] && t[j] == s[j + 1];
          }
        }
        forall k | 0 <= k < |t| ensures s[0] <= t[k] {
          assert t[k] == s[k + 1];
        }
      }
      if Inversions(s) == 0 {
        forall i, j | 0 <= i < j < |s| ensures s[i] <= s[j] {
          assert s[j] == t[j - 1];
          if i > 0 {
            assert s[i] == t[i - 1];
          }
        }
      }
    }
  }
}
