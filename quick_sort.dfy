/**
 quick_sort of rabota.cpp: a three-way quicksort that is not in place. The
 pivot is the element at index size/2; one pass sends every element, in input
 order, to the bucket of elements below, equal to or above the pivot; the
 outer buckets are sorted recursively and the result is their concatenation
 around the middle bucket.
 */
module Quick {
  import opened SortSpec

  /** The three vectors `left`, `middle` and `right` of one partition. */
  datatype Buckets = Buckets(left: seq<int>, middle: seq<int>, right: seq<int>)

  /** Where the partition loop puts `x`: at the end of the bucket that its
      comparison with the pivot selects. */
  function Push(b: Buckets, x: int, pivot: int): (r: Buckets)
    // exactly one element is added to the buckets
    ensures |r.left| + |r.middle| + |r.right| == |b.left| + |b.middle| + |b.right| + 1
  {
    if x < pivot then b.(left := b.left + [x])
    else if x == pivot then b.(middle := b.middle + [x])
    else b.(right := b.right + [x])
  }

  /** The partition of `s` around `pivot`: the elements of `s`, in input order,
      pushed one by one. */
  function Partition(s: seq<int>, pivot: int): (b: Buckets)
    ensures |b.left| + |b.middle| + |b.right| == |s|
  {
    if s == [] then Buckets([], [], []) else Push(Partition(s[..|s| - 1], pivot), s[|s| - 1], pivot)
  }

  /** Extending the input by its next element pushes that element onto its bucket. */
  lemma PartitionPrefix(s: seq<int>, k: nat, pivot: int)
    requires k < |s|
    ensures Partition(s[..k + 1], pivot) == Push(Partition(s[..k], pivot), s[k], pivot)
  {
    assert s[..k + 1][..k] == s[..k];
  }

  /** Pushing `x` keeps each bucket on its side of the pivot and adds `x` to
      the elements the buckets hold together. */
  lemma PushSpec(b: Buckets, x: int, pivot: int)
    requires forall y :: y in b.left ==> y < pivot
    requires forall y :: y in b.middle ==> y == pivot
    requires forall y :: y in b.right ==> y > pivot
    ensures var r := Push(b, x, pivot);
      && (forall y :: y in r.left ==> y < pivot)
      && (forall y :: y in r.middle ==> y == pivot)
      && (forall y :: y in r.right ==> y > pivot)
      && multiset(r.left) + multiset(r.middle) + multiset(r.right)
         == multiset(b.left) + multiset(b.middle) + multiset(b.right) + multiset{x}
  {
  }

  /** The three buckets hold the elements below, equal to and above the pivot,
      and together exactly the elements of `s`. */
  lemma {:induction false} PartitionSpec(s: seq<int>, pivot: int)
    ensures var b := Partition(s, pivot);
      && (forall x :: x in b.left ==> x < pivot)
      && (forall x :: x in b.middle ==> x == pivot)
      && (forall x :: x in b.right ==> x > pivot)
      && multiset(b.left) + multiset(b.middle) + multiset(b.right) == multiset(s)
  {
    if s != [] {
      var p, x := s[..|s| - 1], s[|s| - 1];
      assert s == p + [x];
      PartitionSpec(p, pivot);
      PushSpec(Partition(p, pivot), x, pivot);
    }
  }

  /** The partition loop of quick_sort, with push_back as appending. */
  method Split(s: seq<int>, pivot: int) returns (left: seq<int>, middle: seq<int>, right: seq<int>)
    ensures Buckets(left, middle, right) == Partition(s, pivot)
  {
    left, middle, right := [], [], [];
    var k := 0;
    while k < |s|
      invariant 0 <= k <= |s|
      invariant Buckets(left, middle, right) == Partition(s[..k], pivot)
    {
      var elem := s[k];
      assert s[..k + 1][..k] == s[..k];
      if elem < pivot {
        left := left + [elem];
      } else if elem == pivot {
        middle := middle + [elem];
      } else {
        right := right + [elem];
      }
      k := k + 1;
    }
    assert s[..k] == s;
  }

  /** Pushing onto bucket-wise concatenated buckets is pushing onto the second ones. */
  lemma PushConcat(bs: Buckets, bt: Buckets, x: int, pivot: int)
    ensures var r := Push(bt, x, pivot);
      Push(Buckets(bs.left + bt.left, bs.middle + bt.middle, bs.right + bt.right), x, pivot)
      == Buckets(bs.left + r.left, bs.middle + r.middle, bs.right + r.right)
  {
    assert (bs.left + bt.left) + [x] == bs.left + (bt.left + [x]);
    assert (bs.middle + bt.middle) + [x] == bs.middle + (bt.middle + [x]);
    assert (bs.right + bt.right) + [x] == bs.right + (bt.right + [x]);
  }

  /** Partitioning keeps the relative order within each bucket: the partition of
      a concatenation is the bucket-wise concatenation of the partitions. */
  lemma {:induction false} PartitionAppend(s: seq<int>, t: seq<int>, pivot: int)
    ensures var bs, bt := Partition(s, pivot), Partition(t, pivot);
      Partition(s + t, pivot) == Buckets(bs.left + bt.left, bs.middle + bt.middle, bs.right + bt.right)
  {
    if t == [] {
      assert s + t == s;
    } else {
      var t', x := t[..|t| - 1], t[|t| - 1];
      var u := s + t;
      assert u != [] && u[..|u| - 1] == s + t' && u[|u| - 1] == x;
      PartitionAppend(s, t', pivot);
      PushConcat(Partition(s, pivot), Partition(t', pivot), x, pivot);
    }
  }

  /** Every element above the sorted `l` is in `m`, which is above `r`, and all
      three are sorted: their concatenation is sorted. */
  lemma SortedConcat(l: seq<int>, m: seq<int>, r: seq<int>, pivot: int)
    requires Sorted(l) && Sorted(r)
    requires forall x :: x in l ==> x < pivot
    requires forall x :: x in m ==> x == pivot
    requires forall x :: x in r ==> x > pivot
    ensures Sorted(l + m + r)
  {
    var s := l + m + r;
    forall i, j | 0 <= i < j < |s| ensures s[i] <= s[j] {
      if j < |l| {
        assert s[i] == l[i] && s[j] == l[j];
      } else if i >= |l| + |m| {
        assert s[i] == r[i - |l| - |m|] && s[j] == r[j - |l| - |m|];
      } else {
        assert i < |l| ==> s[i] in l;
        assert |l| <= i < |l| + |m| ==> s[i] in m;
        assert j < |l| + |m| ==> s[j] in m;
        assert j >= |l| + |m| ==> s[j] in r;
      }
    }
  }

  /** Partitioning around an element of `s` puts at least that element in the
      middle bucket, so both outer buckets are shorter than `s`. */
  lemma PartitionShrinks(s: seq<int>, i: nat)
    requires i < |s|
    ensures var b := Partition(s, s[i]); |b.left| < |s| && |b.right| < |s|
  {
    var pivot := s[i];
    var b := Partition(s, pivot);
    PartitionSpec(s, pivot);
    assert pivot in multiset(s);
    assert pivot !in b.left && pivot !in b.right;
    assert pivot in multiset(b.middle);
    assert |multiset(b.left)| + |multiset(b.middle)| + |multiset(b.right)| == |multiset(s)|;
  }

  /** Sorted permutations of the outer buckets, put around the middle bucket,
      give a sorted permutation of `s`. */
  lemma CombineSorted(s: seq<int>, pivot: int, l: seq<int>, r: seq<int>)
    requires var b := Partition(s, pivot);
      Sorted(l) && Sorted(r) && multiset(l) == multiset(b.left) && multiset(r) == multiset(b.right)
    ensures var m := Partition(s, pivot).middle;
      Sorted(l + m + r) && multiset(l + m + r) == multiset(s)
  {
    var b := Partition(s, pivot);
    PartitionSpec(s, pivot);
    forall x | x in l ensures x < pivot {
      assert x in multiset(l);
      assert x in b.left;
    }
    forall x | x in r ensures x > pivot {
      assert x in multiset(r);
      assert x in b.right;
    }
    SortedConcat(l, b.middle, r, pivot);
    assert l + b.middle + r == l + (b.middle + r);
    assert multiset(l + b.middle + r) == multiset(l) + multiset(b.middle) + multiset(r);
  }

  /** quick_sort: the result is ascending and a permutation of the input. */
  function QuickSort(s: seq<int>): (r: seq<int>)
    ensures Sorted(r)
    ensures multiset(r) == multiset(s)
    decreases |s|
  {
    if |s| <= 1 then s
    else
      var pivot := s[|s| / 2];
      var b := Partition(s, pivot);
      // the middle bucket holds the pivot, so both recursive calls are on less
      PartitionShrinks(s, |s| / 2);
      var l, r := QuickSort(b.left), QuickSort(b.right);
      CombineSorted(s, pivot, l, r);
      l + b.middle + r
  }

  /** quick_sort returns the one ascending arrangement of its input's elements. */
  lemma QuickSortIsTheSortedPermutation(s: seq<int>, t: seq<int>)
    requires Sorted(t) && multiset(t) == multiset(s)
    ensures QuickSort(s) == t
  {
    SortedPermutationUnique(QuickSort(s), t);
  }

  /** An input that is already ascending, in particular one of at most one
      element, comes back unchanged. */
  lemma QuickSortKeepsSorted(s: seq<int>)
    ensures Sorted(s) ==> QuickSort(s) == s
    ensures |s| <= 1 ==> QuickSort(s) == s
  {
    if Sorted(s) {
      SortedPermutationUnique(QuickSort(s), s);
    }
  }

  /** The worked example: for [5, 3, 8, 3, 9, 1] the pivot, at index 6 / 2, is 3
      and the buckets are [1], [3, 3] and [5, 8, 9]. */
  lemma PartitionExample(s: seq<int>)
    requires |s| == 6 && s[0] == 5 && s[1] == 3 && s[2] == 8 && s[3] == 3 && s[4] == 9 && s[5] == 1
    ensures s[|s| / 2] == 3
    ensures Partition(s, 3) == Buckets([1], [3, 3], [5, 8, 9])
  {
    assert s[|s| / 2] == s[3] == 3;
    assert Partition(s[..1], 3) == Buckets([], [], [5]) by { PartitionPrefix(s, 0, 3); }
    assert Partition(s[..2], 3) == Buckets([], [3], [5]) by { PartitionPrefix(s, 1, 3); }
    assert Partition(s[..3], 3) == Buckets([], [3], [5, 8]) by { PartitionPrefix(s, 2, 3); }
    assert Partition(s[..4], 3) == Buckets([], [3, 3], [5, 8]) by { PartitionPrefix(s, 3, 3); }
    assert Partition(s[..5], 3) == Buckets([], [3, 3], [5, 8, 9]) by { PartitionPrefix(s, 4, 3); }
    assert Partition(s[..6], 3) == Buckets([1], [3, 3], [5, 8, 9]) by { PartitionPrefix(s, 5, 3); }
    assert s[..6] == s;
  }

  /** ... and sorting it gives [1, 3, 3, 5, 8, 9], the one ascending
      arrangement of its elements. */
  lemma QuickSortExample(s: seq<int>, t: seq<int>)
    requires s == [5, 3, 8, 3, 9, 1] && t == [1, 3, 3, 5, 8, 9]
    ensures QuickSort(s) == t
  {
    ExampleIsSortedPermutation(s, t);
    QuickSortIsTheSortedPermutation(s, t);
  }

  /** [1, 3, 3, 5, 8, 9] is ascending and holds the elements of [5, 3, 8, 3, 9, 1]
      (stated apart from QuickSort, which the solver would otherwise unfold on
      the literal input). */
  lemma ExampleIsSortedPermutation(s: seq<int>, t: seq<int>)
    requires s == [5, 3, 8, 3, 9, 1] && t == [1, 3, 3, 5, 8, 9]
    ensures Sorted(t) && multiset(s) == multiset(t)
  {
    assert multiset(s) == multiset{1, 3, 3, 5, 8, 9} == multiset(t);
  }
}
