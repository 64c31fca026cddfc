/**
 shell_sort of rabota.cpp: an insertion sort run once per gap, for the gaps
 n/2, n/4, ..., 1 obtained by repeated integer halving. Each insertion holds
 the element in `temp`, shifts the larger elements of its gap chain one gap
 to the right and stores `temp` in the hole that is left.
 */
module Shell {
  import opened SortSpec

  /** The gaps visited from `gap` on: `gap`, `gap / 2`, ..., down to 1. */
  function GapsFrom(gap: nat): (gs: seq<nat>)
    ensures forall k :: 0 <= k < |gs| ==> 0 < gs[k] <= gap
    decreases gap
  {
    if gap == 0 then [] else [gap] + GapsFrom(gap / 2)
  }

  /** The gap sequence of shell_sort for an array of length `n`. */
  function Gaps(n: nat): (gs: seq<nat>)
    // every gap is positive and smaller than the array length
    ensures forall k :: 0 <= k < |gs| ==> 0 < gs[k] < n
  {
    GapsFrom(n / 2)
  }

  /** The gap sequence from `gap` starts at `gap`, halves at every step, never
      holds 0 and ends at 1. */
  lemma {:induction false} GapsFromShape(gap: nat)
    ensures var gs := GapsFrom(gap);
      && (gap == 0 <==> gs == [])
      && (gs != [] ==> gs[0] == gap && gs[|gs| - 1] == 1)
      && (forall k :: 0 <= k < |gs| ==> gs[k] > 0)
      && (forall k :: 0 < k < |gs| ==> gs[k] == gs[k - 1] / 2)
  {
    if gap > 0 {
      GapsFromShape(gap / 2);
      var gs := GapsFrom(gap);
      var rest := GapsFrom(gap / 2);
      assert gs == [gap] + rest;
      assert forall k :: 0 < k < |gs| ==> gs[k] == rest[k - 1];
      if rest != [] {
        assert rest[0] == gap / 2;
      }
    }
  }

  /** An array of length `n` gets at least one pass exactly when n >= 2; the
      first gap is n / 2 and the last is 1. */
  lemma GapsShape(n: nat)
    ensures Gaps(n) != [] <==> n >= 2
    ensures Gaps(n) != [] ==> Gaps(n)[0] == n / 2 && Gaps(n)[|Gaps(n)| - 1] == 1
    ensures forall k :: 0 <= k < |Gaps(n)| ==> Gaps(n)[k] > 0
  {
    GapsFromShape(n / 2);
  }

  /** Taking one more gap from the front of the remaining gaps. */
  lemma GapsFromStep(done: seq<nat>, gap: nat)
    requires gap > 0
    ensures done + GapsFrom(gap) == (done + [gap]) + GapsFrom(gap / 2)
  {
  }

  /** For ten elements the gaps are 5, 2 and 1. */
  lemma GapsOfTen()
    ensures Gaps(10) == [5, 2, 1]
  {
    assert GapsFrom(0) == [];
    assert GapsFrom(1) == [1];
    assert GapsFrom(2) == [2, 1];
  }

  /** The prefix `s[..bound]` is gap-sorted. */
  ghost predicate GapSortedBelow(s: seq<int>, gap: nat, bound: int) {
    forall k :: gap <= k < bound && k < |s| ==> s[k - gap] <= s[k]
  }

  lemma MulAtLeast(k: int, gap: nat)
    requires k >= 1 && gap > 0
    ensures k * gap >= gap
  {
  }

  lemma MulStep(k: int, gap: nat)
    ensures k * gap == (k - 1) * gap + gap
  {
  }

  /** Quotient and remainder are unique: `y == d * gap + m` with `0 <= m < gap` fixes `y % gap`. */
  lemma ModUnique(y: int, gap: nat, d: int, m: int)
    requires gap > 0 && 0 <= m < gap && y == d * gap + m
    ensures y % gap == m
  {
    var d', m' := y / gap, y % gap;
    assert (d - d') * gap == m' - m;
    if d > d' {
      MulAtLeast(d - d', gap);
    } else if d < d' {
      MulAtLeast(d' - d, gap);
    }
  }

  lemma ModStep(x: int, gap: nat)
    requires gap > 0
    ensures (x + gap) % gap == x % gap
  {
    ModUnique(x + gap, gap, x / gap + 1, x % gap);
  }

  /** `q` lies on the gap chain that the insertion of `arr[i]` walks:
      `i`, `i - gap`, `i - 2 * gap`, ... */
  predicate OnChain(q: int, i: int, gap: nat) {
    gap > 0 && q <= i && (i - q) % gap == 0
  }

  /** The chain goes on one gap further down. */
  lemma ChainDown(q: int, i: int, gap: nat)
    requires OnChain(q, i, gap)
    ensures OnChain(q - gap, i, gap)
  {
    ModStep(i - q, gap);
  }

  lemma MulPositive(k: int, gap: nat)
    requires gap > 0 && k * gap > 0
    ensures k >= 1
  {
  }

  /** The chain goes on one gap further up, as long as it has not reached its end. */
  lemma ChainUp(p: int, x: int, gap: nat)
    requires OnChain(p, x, gap) && p < x
    ensures p + gap <= x && OnChain(p + gap, x, gap)
  {
    var d := (x - p) / gap;
    assert x - p == d * gap;
    MulPositive(d, gap);
    MulStep(d, gap);
    MulAtLeast(d, gap);
    ModUnique(x - (p + gap), gap, d - 1, 0);
  }

  /** No position strictly between two neighbours of a chain is on the chain. */
  lemma ChainGapFree(j: int, q: int, i: int, gap: nat)
    requires OnChain(j, i, gap) && j < q < j + gap
    ensures !OnChain(q, i, gap)
  {
    ModUnique(i - q, gap, (i - j) / gap - 1, gap - (q - j));
  }

  /** The state of the shift loop while `temp`, taken from index `i`, looks for
      its place: `j` is the hole, on the gap chain of `i`; the chain is
      gap-sorted up to `i` (not yet at `i` itself while nothing has moved) and
      every element shifted past the hole is larger than `temp`. */
  ghost predicate Hole(s: seq<int>, temp: int, gap: nat, i: nat, j: int) {
    && 0 <= j <= i < |s| && (j == i || j + gap <= i)
    && (forall k :: gap <= k <= i && (j < i || k < i) ==> s[k - gap] <= s[k])
    && (j < i ==> temp < s[j + gap])
  }

  /** `s` is `before` after the shifts that moved the hole from `i` down to `j`:
      `j` is on `i`'s chain, every position of the chain above `j` up to `i`
      holds the element that stood one gap below it, and every other position
      holds its old element. */
  ghost predicate ShiftedUp(s: seq<int>, before: seq<int>, gap: nat, i: nat, j: int) {
    && |s| == |before| && 0 <= j && OnChain(j, i, gap)
    && forall q {:trigger s[q], OnChain(q, i, gap)} :: 0 <= q < |s| ==>
         s[q] == (if j + gap <= q <= i && OnChain(q, i, gap) then before[q - gap] else before[q])
  }

  /** What `ShiftedUp` says about the single position `q`. */
  lemma ShiftedAt(s: seq<int>, before: seq<int>, gap: nat, i: nat, j: int, q: int)
    requires ShiftedUp(s, before, gap, i, j) && 0 <= q < |s|
    ensures s[q] == (if j + gap <= q <= i && OnChain(q, i, gap) then before[q - gap] else before[q])
  {
  }

  /** `s` is `before` after inserting `before[i]` at `j` on its chain: the chain
      above `j` up to `i` moved one gap up, and nothing else changed. */
  ghost predicate Inserted(s: seq<int>, before: seq<int>, gap: nat, i: nat, j: int) {
    && |s| == |before| && 0 <= j <= i < |s| && OnChain(j, i, gap)
    && s[j] == before[i]
    && forall q {:trigger s[q], OnChain(q, i, gap)} :: 0 <= q < |s| && q != j ==>
         s[q] == (if j + gap <= q <= i && OnChain(q, i, gap) then before[q - gap] else before[q])
  }

  /** The elements of `s` at positions `p`, `p + gap`, `p + 2 * gap`, ... */
  ghost function ChainFrom(s: seq<int>, p: nat, gap: nat): seq<int>
    requires gap > 0
    decreases |s| - p
  {
    if p >= |s| then [] else [s[p]] + ChainFrom(s, p + gap, gap)
  }

  /** The elements of the chains of `s` that start at `r`, `r + 1`, ...,
      `gap - 1`, one multiset per chain. */
  ghost function ChainsFrom(s: seq<int>, r: nat, gap: nat): (c: seq<multiset<int>>)
    requires gap > 0
    ensures |c| == if r < gap then gap - r else 0
    decreases gap - r
  {
    if r >= gap then [] else [multiset(ChainFrom(s, r, gap))] + ChainsFrom(s, r + 1, gap)
  }

  /** The elements of each of the `gap` interleaved chains of `s`. */
  ghost function Chains(s: seq<int>, gap: nat): (c: seq<multiset<int>>)
    requires gap > 0
    ensures |c| == gap
  {
    ChainsFrom(s, 0, gap)
  }

  /** A chain that starts past both exchanged positions does not see the exchange. */
  lemma {:induction false} ChainPastExchange(s: seq<int>, x: nat, gap: nat, p: nat)
    requires gap > 0 && x + gap < |s| && x + gap < p
    ensures ChainFrom(Exchanged(s, x, x + gap), p, gap) == ChainFrom(s, p, gap)
    decreases |s| - p
  {
    if p < |s| {
      ChainPastExchange(s, x, gap, p + gap);
    }
  }

  /** Nor does a chain of another residue. */
  lemma {:induction false} ChainOffExchange(s: seq<int>, x: nat, gap: nat, p: nat)
    requires gap > 0 && x + gap < |s| && p % gap != x % gap
    ensures ChainFrom(Exchanged(s, x, x + gap), p, gap) == ChainFrom(s, p, gap)
    decreases |s| - p
  {
    if p < |s| {
      ModStep(x, gap);
      ModStep(p, gap);
      ChainOffExchange(s, x, gap, p + gap);
    }
  }

  /** The chain from the first exchanged position has its first two elements exchanged. */
  lemma ChainAtExchange(s: seq<int>, x: nat, gap: nat)
    requires gap > 0 && x + gap < |s|
    ensures multiset(ChainFrom(Exchanged(s, x, x + gap), x, gap)) == multiset(ChainFrom(s, x, gap))
  {
    var t := Exchanged(s, x, x + gap);
    var rest := ChainFrom(s, x + gap + gap, gap);
    ChainPastExchange(s, x, gap, x + gap + gap);
    assert ChainFrom(t, x + gap, gap) == [s[x]] + rest;
    assert ChainFrom(t, x, gap) == [s[x + gap]] + ([s[x]] + rest);
    assert ChainFrom(s, x + gap, gap) == [s[x + gap]] + rest;
    assert ChainFrom(s, x, gap) == [s[x]] + ([s[x + gap]] + rest);
  }

  /** The chain through both exchanged positions keeps its elements. */
  lemma {:induction false} ChainThroughExchange(s: seq<int>, x: nat, gap: nat, p: nat)
    requires x + gap < |s| && OnChain(p, x, gap)
    ensures multiset(ChainFrom(Exchanged(s, x, x + gap), p, gap)) == multiset(ChainFrom(s, p, gap))
    decreases x - p
  {
    if p == x {
      ChainAtExchange(s, x, gap);
    } else {
      var t := Exchanged(s, x, x + gap);
      ChainUp(p, x, gap);
      ChainThroughExchange(s, x, gap, p + gap);
      var u, v := ChainFrom(t, p + gap, gap), ChainFrom(s, p + gap, gap);
      assert t[p] == s[p];
      assert ChainFrom(t, p, gap) == [s[p]] + u;
      assert ChainFrom(s, p, gap) == [s[p]] + v;
      assert multiset([s[p]] + u) == multiset([s[p]]) + multiset(u);
      assert multiset([s[p]] + v) == multiset([s[p]]) + multiset(v);
    }
  }

  /** Exchanging two elements one gap apart keeps the elements of the chain
      that starts at `r`, whether or not it passes through them. */
  lemma ExchangeKeepsChain(s: seq<int>, x: nat, gap: nat, r: nat)
    requires gap > 0 && x + gap < |s| && r < gap
    ensures multiset(ChainFrom(Exchanged(s, x, x + gap), r, gap)) == multiset(ChainFrom(s, r, gap))
  {
    if r == x % gap {
      ModUnique(x - r, gap, x / gap, 0);
      ChainThroughExchange(s, x, gap, r);
    } else {
      ModUnique(r, gap, 0, r);
      ChainOffExchange(s, x, gap, r);
    }
  }

  /** Two sequences whose chains from `r` on hold the same elements have equal
      `ChainsFrom`. */
  lemma {:induction false} ChainsFromAgree(s: seq<int>, t: seq<int>, r: nat, gap: nat)
    requires gap > 0
    requires forall p :: r <= p < gap ==> multiset(ChainFrom(t, p, gap)) == multiset(ChainFrom(s, p, gap))
    ensures ChainsFrom(t, r, gap) == ChainsFrom(s, r, gap)
    decreases gap - r
  {
    if r < gap {
      ChainsFromAgree(s, t, r + 1, gap);
    }
  }

  /** Exchanging two elements one gap apart keeps every chain's elements. */
  lemma ExchangeKeepsChains(s: seq<int>, x: nat, y: nat, gap: nat)
    requires gap > 0 && y == x + gap && y < |s|
    ensures Chains(Exchanged(s, x, y), gap) == Chains(s, gap)
  {
    forall p | 0 <= p < gap
      ensures multiset(ChainFrom(Exchanged(s, x, y), p, gap)) == multiset(ChainFrom(s, p, gap))
    {
      ExchangeKeepsChain(s, x, gap, p);
    }
    ChainsFromAgree(s, Exchanged(s, x, y), 0, gap);
  }

  /** Shifting the element one gap before the hole into the hole moves the hole down a gap. */
  lemma ShiftStep(s: seq<int>, temp: int, gap: nat, i: nat, j: int)
    requires Hole(s, temp, gap, i, j) && gap <= j && s[j - gap] > temp
    ensures Hole(s[j := s[j - gap]], temp, gap, i, j - gap)
  {
    var r := s[j := s[j - gap]];
    forall k | gap <= k <= i ensures r[k - gap] <= r[k] {
      if k == j + gap {
        assert r[k - gap] == s[j - gap] && r[k] == s[k];
        assert s[j - gap] <= s[j];
      } else if k != j && k - gap != j {
        assert r[k - gap] == s[k - gap] && r[k] == s[k];
      }
    }
  }

  /** The same shift extends the moved part of the chain by the position `j`. */
  lemma ShiftedStep(s: seq<int>, before: seq<int>, gap: nat, i: nat, j: int)
    requires ShiftedUp(s, before, gap, i, j) && gap <= j < |s|
    ensures ShiftedUp(s[j := s[j - gap]], before, gap, i, j - gap)
  {
    var r := s[j := s[j - gap]];
    ChainDown(j, i, gap);
    forall q | 0 <= q < |r|
      ensures r[q] == (if j <= q <= i && OnChain(q, i, gap) then before[q - gap] else before[q])
    {
      if q == j {
        ShiftedAt(s, before, gap, i, j, j - gap);
      } else {
        ShiftedAt(s, before, gap, i, j, q);
        if j < q < j + gap {
          ChainGapFree(j, q, i, gap);
        }
      }
    }
  }

  /** Storing `temp` in the hole once its predecessor on the chain is not larger
      leaves the chain gap-sorted up to and including `i`. */
  lemma FillHole(s: seq<int>, temp: int, gap: nat, i: nat, j: int)
    requires Hole(s, temp, gap, i, j) && (j < gap || s[j - gap] <= temp)
    ensures GapSortedBelow(s[j := temp], gap, i + 1)
  {
  }

  /** Storing `arr[i]`'s old value in the hole completes the insertion, which
      changes nothing off `i`'s chain. */
  lemma FillShifted(s: seq<int>, before: seq<int>, gap: nat, i: nat, j: int)
    requires ShiftedUp(s, before, gap, i, j) && j <= i < |s|
    ensures Inserted(s[j := before[i]], before, gap, i, j)
    ensures forall q :: 0 <= q < |s| && !OnChain(q, i, gap) ==> s[j := before[i]][q] == before[q]
  {
    var r := s[j := before[i]];
    forall q | 0 <= q < |s| && q != j
      ensures r[q] == (if j + gap <= q <= i && OnChain(q, i, gap) then before[q - gap] else before[q])
    {
      ShiftedAt(s, before, gap, i, j, q);
    }
  }

  /** `Inserted` at one position. */
  lemma InsertedAt(s: seq<int>, before: seq<int>, gap: nat, i: nat, j: int, q: int)
    requires Inserted(s, before, gap, i, j) && 0 <= q < |s| && q != j
    ensures s[q] == (if j + gap <= q <= i && OnChain(q, i, gap) then before[q - gap] else before[q])
  { }

  /** One position of `InsertedShift`. */
  lemma InsertedShiftAt(s: seq<int>, before: seq<int>, gap: nat, i: nat, j: int, q: int)
    requires Inserted(s, before, gap, i, j) && j + gap <= i && OnChain(j + gap, i, gap)
    requires 0 <= q < |s| && q != j + gap
    ensures Exchanged(s, j, j + gap)[q]
      == (if j + gap + gap <= q <= i && OnChain(q, i, gap) then before[q - gap] else before[q])
  {
    if q == j {
      InsertedAt(s, before, gap, i, j, j + gap);
    } else {
      InsertedAt(s, before, gap, i, j, q);
      if j + gap < q < j + gap + gap {
        ChainGapFree(j + gap, q, i, gap);
      }
    }
  }

  /** Exchanging the inserted element with its successor on the chain leaves
      an insertion that starts one gap higher. */
  lemma InsertedShift(s: seq<int>, before: seq<int>, gap: nat, i: nat, j: int)
    requires Inserted(s, before, gap, i, j) && j < i
    ensures j + gap <= i && Inserted(Exchanged(s, j, j + gap), before, gap, i, j + gap)
  {
    ChainUp(j, i, gap);
    var t := Exchanged(s, j, j + gap);
    forall q {:trigger t[q]} | 0 <= q < |t| && q != j + gap
      ensures t[q] == (if j + gap + gap <= q <= i && OnChain(q, i, gap) then before[q - gap] else before[q])
    {
      InsertedShiftAt(s, before, gap, i, j, q);
    }
  }

  /** A finished insertion is a series of exchanges one gap apart along the
      chain, from `j` up to `i`, so it keeps the elements of every chain and
      hence all elements. */
  lemma {:induction false} InsertedKeepsChains(s: seq<int>, before: seq<int>, gap: nat, i: nat, j: int)
    requires Inserted(s, before, gap, i, j)
    ensures Chains(s, gap) == Chains(before, gap)
    ensures multiset(s) == multiset(before)
    decreases i - j
  {
    if j == i {
      forall q | 0 <= q < |s| ensures s[q] == before[q] {
        if q != j {
          InsertedAt(s, before, gap, i, j, q);
        }
      }
      assert s == before;
    } else {
      InsertedShift(s, before, gap, i, j);
      InsertedKeepsChains(Exchanged(s, j, j + gap), before, gap, i, j + gap);
      ExchangeKeepsChains(s, j, j + gap, gap);
      ExchangedPermutes(s, j, j + gap);
    }
  }

  /** `arr[j] = arr[j - gap]`: the element one gap below the hole moves into it,
      and the hole moves down a gap. */
  method ShiftDown(a: array<int>, temp: int, gap: nat, i: nat, j: int, ghost before: seq<int>)
    requires Hole(a[..], temp, gap, i, j) && gap <= j && a[j - gap] > temp
    requires ShiftedUp(a[..], before, gap, i, j)
    modifies a
    ensures a[..] == old(a[..])[j := old(a[j - gap])]
    ensures Hole(a[..], temp, gap, i, j - gap)
    ensures ShiftedUp(a[..], before, gap, i, j - gap)
  {
    ghost var s := a[..];
    a[j] := a[j - gap];
    assert a[..] == s[j := s[j - gap]];
    ShiftStep(s, temp, gap, i, j);
    ShiftedStep(s, before, gap, i, j);
  }

  /** The `while` loop of one insertion: shift the elements of `i`'s gap chain
      that are larger than `temp` one gap to the right; `j` is the hole left
      behind. */
  method ShiftLoop(a: array<int>, gap: nat, i: nat, temp: int) returns (j: int)
    requires 0 < gap <= i < a.Length && a[i] == temp
    requires GapSortedBelow(a[..], gap, i)
    modifies a
    ensures Hole(a[..], temp, gap, i, j) && (j < gap || a[j - gap] <= temp)
    ensures ShiftedUp(a[..], old(a[..]), gap, i, j)
  {
    j := i;
    ghost var before := a[..];
    while j >= gap && a[j - gap] > temp
      invariant Hole(a[..], temp, gap, i, j)
      invariant ShiftedUp(a[..], before, gap, i, j)
    {
      ShiftDown(a, temp, gap, i, j, before);
      j := j - gap;
    }
  }

  /** One step of the pass: insert `a[i]` into its gap chain by shifting the
      larger elements one gap to the right (the body of the loop over `i`);
      `j` is where `a[i]` lands. */
  method GapInsert(a: array<int>, gap: nat, i: nat) returns (ghost j: int)
    requires 0 < gap <= i < a.Length
    requires GapSortedBelow(a[..], gap, i)
    modifies a
    ensures GapSortedBelow(a[..], gap, i + 1)
    ensures Inserted(a[..], old(a[..]), gap, i, j)
    // in particular nothing off `i`'s chain is written
    ensures forall q :: 0 <= q < a.Length && !OnChain(q, i, gap) ==> a[q] == old(a[q])
    ensures multiset(a[..]) == old(multiset(a[..]))
    ensures Chains(a[..], gap) == Chains(old(a[..]), gap)
  {
    var temp := a[i];
    var hole := ShiftLoop(a, gap, i, temp);
    ghost var s := a[..];
    FillHole(s, temp, gap, i, hole);
    FillShifted(s, old(a[..]), gap, i, hole);
    a[hole] := temp;
    assert a[..] == s[hole := temp];
    InsertedKeepsChains(a[..], old(a[..]), gap, i, hole);
    j := hole;
  }

  /** The pass for one gap (the loop over `i`): afterwards the whole array is
      gap-sorted, and each of the `gap` chains holds the elements it held before. */
  method GapPass(a: array<int>, gap: nat)
    requires 0 < gap <= a.Length
    modifies a
    ensures GapSorted(a[..], gap)
    ensures multiset(a[..]) == old(multiset(a[..]))
    ensures Chains(a[..], gap) == Chains(old(a[..]), gap)
  {
    var n := a.Length;
    var i := gap;
    while i < n
      invariant gap <= i <= n
      invariant multiset(a[..]) == old(multiset(a[..]))
      invariant Chains(a[..], gap) == Chains(old(a[..]), gap)
      invariant GapSortedBelow(a[..], gap, i)
    {
      ghost var _ := GapInsert(a, gap, i);
      i := i + 1;
    }
  }

  method ShellSort(a: array<int>) returns (ghost gaps: seq<nat>)
    modifies a
    ensures Sorted(a[..])
    ensures multiset(a[..]) == old(multiset(a[..]))
    ensures Sorted(old(a[..])) ==> a[..] == old(a[..])
    ensures gaps == Gaps(a.Length)
  {
    var n := a.Length;
    gaps := [];
    ghost var lastGap := 0;
    var gap := n / 2;
    while gap > 0
      invariant 0 <= gap <= n / 2
      invariant multiset(a[..]) == old(multiset(a[..]))
      invariant gaps + GapsFrom(gap) == Gaps(n)
      invariant lastGap == 0 ==> gap == n / 2
      // after each pass the array is sorted at the gap of that pass
      invariant lastGap > 0 ==> gap == lastGap / 2 && GapSorted(a[..], lastGap)
    {
      GapPass(a, gap);
      GapsFromStep(gaps, gap);
      gaps := gaps + [gap];
      lastGap := gap;
      gap := gap / 2;
    }
    if lastGap > 0 {
      GapOneSorted(a[..]);
    }
    if Sorted(old(a[..])) {
      SortedPermutationUnique(a[..], old(a[..]));
    }
  }
}
