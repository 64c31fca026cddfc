# Sorting routines of rabota.cpp, modelled and verified in Dafny

`rabota.cpp` benchmarks four generic sorting routines on `std::vector<T>`. This
project models those four routines:
- `bubble_sort`
- `odd_even_sort` (brick sort)
- `shell_sort` with the halving gap sequence
- `quick_sort`, a three-way quicksort that is not done in place

It proves what each routine promises: the vector ends up in ascending order
and holds the same elements as before.

The program only ever instantiates the templates with `T = int`, so the
elements are modelled as `int`. The routines only compare elements and move
them, so the element width never matters.

The modules follow the routines:

- `SortSpec` (`sort_spec.dfy`) holds what the sorts share:
  - `Sorted` and `GapSorted`;
  - the exchange of two elements (`Exchanged`), the neighbour exchange that
    `std::swap` performs (`Swapped`, and `Exchange` on an array), and the
    `Min`/`Max` a compare-and-swap leaves behind;
  - the inversion count that measures how far a sequence is from sorted;
  - the fact that two sorted sequences with the same elements are equal.
    This fact gives "an already sorted input comes back unchanged" for every
    sort.
- `Bubble` (`bubble_sort.dfy`), `OddEven` (`odd_even_sort.dfy`) and `Shell`
  (`shell_sort.dfy`) model the three in-place sorts as methods on
  `array<int>`. They keep the source's loops, and each inner loop is its own
  method. Each sort is proved to leave the array sorted and a permutation of
  its old contents. Each inner loop's new contents are stated outright:
  - a bubble pass is stated through the running maximum `PrefixMax`;
  - an odd-even pass is stated pair by pair;
  - a shell insertion is stated as the moved part of the gap chain. Each gap
    pass is also proved to keep the elements of every one of its `gap`
    interleaved chains (`Chains`).
- `Quick` (`quick_sort.dfy`) models `quick_sort` as a recursive function on
  `seq<int>`. The source rebuilds the vector wholesale from
  `left ++ middle ++ right`, so a function on values describes it fully.
  - The partition loop is the function `Partition`, built element by element
    in input order the way `push_back` builds the buckets.
  - `Split` is the loop itself, proved equal to `Partition`.
  - Recursion terminates because the middle bucket always holds the pivot.

## Model

| member | source | states |
|---|---|---|
| SortSpec.Swapped | rabota.cpp:16 | exchanging the neighbours at `k` and `k + 1` puts each in the other's place and leaves every other position as it was |
| SortSpec.Min | rabota.cpp:15-16 | the smaller of two values is at most both and equal to one of them; a compare-and-swap leaves it in the lower position |
| SortSpec.Max | rabota.cpp:15-16 | the larger of two values is at least both and equal to one of them; a compare-and-swap leaves it in the upper position |
| SortSpec.Exchanged | rabota.cpp:16 | exchanging the elements at two positions puts each in the other's place and leaves every other position as it was |
| SortSpec.ExchangedPermutes | rabota.cpp:16 | exchanging two elements keeps the multiset |
| SortSpec.Exchange | rabota.cpp:16 | `std::swap(arr[k], arr[k + 1])` on the array turns its contents into `Swapped(old contents, k)` |
| SortSpec.SwappedPermutes | rabota.cpp:16 | a neighbour exchange keeps the multiset of elements |
| SortSpec.Inversions | rabota.cpp:26-40 | the inversion count, the measure that bounds the rounds of odd_even_sort, is at most one per pair of positions |
| SortSpec.SwapRemovesInversion | rabota.cpp:15-16 | exchanging an out-of-order pair of neighbours lowers the inversion count by exactly one |
| SortSpec.InversionsZeroIffSorted | rabota.cpp:26-40 | a sequence has no inversion if and only if it is sorted, so the inversion count is a measure that reaches 0 exactly at a sorted array |
| SortSpec.GapOneSorted | rabota.cpp:46-56 | an array in which every element is at most its right neighbour is sorted; this is the state after the gap-1 pass of shell_sort and after a swap-free round of odd_even_sort |
| SortSpec.SortedPermutationUnique | rabota.cpp:10-79 | two sorted sequences with the same multiset of elements are equal, so a sorted result is determined by the input's elements |
| Bubble.SwapKeepsSettled | rabota.cpp:14-17 | a swap inside the unsettled prefix `arr[0..m)` keeps the suffix from `m` sorted and above every element before it |
| Bubble.BubbleStep | rabota.cpp:15-17 | one compare-and-swap at `j` keeps the elements and the settled suffix and leaves the largest element of `arr[0..j+1]` at `j + 1` |
| Bubble.MaxSettles | rabota.cpp:14-18 | once the largest element of the unsettled prefix stands at its last position, that position joins the settled suffix |
| Bubble.PrefixMax | rabota.cpp:14-17 | the element the inner loop carries to position `k` is the largest of `arr[0..k]`, and is one of them |
| Bubble.PassedStep | rabota.cpp:15-17 | one compare-and-swap at `j` extends the pass by a position: below `j + 1` each position holds the smaller of the prefix maximum and the next starting element, `j + 1` holds the largest of `arr[0..j + 1]`, and later positions still hold their starting values |
| Bubble.PassStateStep | rabota.cpp:14-17 | one iteration of the inner loop keeps the elements and the settled suffix and moves the description of the pass one position on |
| Bubble.PassedTail | rabota.cpp:14-17 | positions past the carried maximum still hold their starting values |
| Bubble.PassStateDone | rabota.cpp:14-18 | when the inner loop ends, position `m - 1` is settled and the array holds exactly one bubble pass over the starting `arr[0..m)` followed by the untouched `arr[m..]` |
| Bubble.BubblePass | rabota.cpp:14-18 | the inner loop of pass `i`, over the unsettled prefix `arr[0..m)` with `m = n - i`, leaves each position `k < m - 1` holding the smaller of the largest of `arr[0..k]` and `arr[k + 1]`, leaves the largest of `arr[0..m)` at `m - 1` and leaves `arr[m..]` untouched; so it extends the settled suffix to `m - 1` and keeps the multiset |
| Bubble.BubbleSort | rabota.cpp:10-20 | the result is sorted and a permutation of the input, and a sorted input is left unchanged; the outer invariant is that after `i` passes the last `i` elements are the largest, in order |
| OddEven.CompareSwapStep | rabota.cpp:29-32 | one compare-and-swap keeps the elements, and when it swaps it removes exactly one inversion |
| OddEven.PassStep | rabota.cpp:29-32 | the compare-and-swap of the pair at `i` leaves that pair holding its own two starting values, smaller first, and changes no other position, so the pairs treated so far stay as they were left |
| OddEven.PassComplete | rabota.cpp:28-39 | once the loop index has passed the last pair, every pair of the pass's parity has been treated and is in order |
| OddEven.CompareSwapAt | rabota.cpp:29-32 | the loop body on the array: the pair at `i` ends up as its smaller then its larger starting value and nothing else changes; it reports a swap exactly when one inversion was removed, and otherwise the array is unchanged |
| OddEven.Pass | rabota.cpp:28-39 | a pass over the pairs of one parity puts each compared pair's own two values in order, smaller first, leaves every position in no compared pair unchanged, keeps the multiset and leaves every pair of that parity ordered; it reports no swap only when it changed nothing, and when it swaps the inversion count drops |
| OddEven.OddEvenSort | rabota.cpp:22-41 | the `while (!sorted)` loop terminates (each round that swaps removes an inversion) and leaves the array sorted and a permutation of the input; a sorted input is left unchanged |
| Shell.GapsFrom | rabota.cpp:46 | every gap visited from `gap` is positive and at most `gap` |
| Shell.Gaps | rabota.cpp:45-46 | every gap used for `n` elements is positive and below `n`, so each pass has at least one index `i = gap < n` to insert and every step `j -= gap` moves strictly down |
| Shell.GapsFromShape | rabota.cpp:46 | the gaps visited from `gap` start at `gap`, each is the integer half of the one before, none is 0, the last is 1, and there are none exactly when `gap == 0` |
| Shell.GapsShape | rabota.cpp:45-46 | for `n` elements the gap sequence starts at `n / 2`, ends at 1, never holds 0, and is non-empty exactly when `n >= 2` |
| Shell.GapsFromStep | rabota.cpp:46 | each iteration of the gap loop takes the next gap of the sequence: the gaps used so far plus those still to come stay the whole sequence |
| Shell.GapsOfTen | rabota.cpp:46 | for ten elements the gaps are 5, 2 and 1 |
| Shell.ChainDown | rabota.cpp:50-52 | the step `j -= gap` from a position on `i`'s gap chain stays on that chain |
| Shell.ChainUp | rabota.cpp:50-52 | a chain position below `x` on `x`'s chain has its successor one gap higher, still at most `x` and on the chain |
| Shell.ChainGapFree | rabota.cpp:50-52 | no position strictly between two neighbouring chain positions is on the chain, so the loop touches only chain positions |
| Shell.Chains | rabota.cpp:47-55 | there is one chain per residue modulo `gap`, `gap` chains in all |
| Shell.ChainPastExchange | rabota.cpp:51-54 | exchanging two elements one gap apart leaves every chain that starts past both unchanged |
| Shell.ChainOffExchange | rabota.cpp:51-54 | exchanging two elements one gap apart leaves every chain of another residue modulo `gap` unchanged |
| Shell.ChainAtExchange | rabota.cpp:51-54 | the chain that starts at the lower exchanged position keeps its elements, with its first two exchanged |
| Shell.ChainThroughExchange | rabota.cpp:51-54 | every chain that passes through both exchanged positions keeps its elements |
| Shell.ExchangeKeepsChain | rabota.cpp:51-54 | exchanging two elements one gap apart keeps the elements of the chain of each residue, whether or not it passes through them |
| Shell.ExchangeKeepsChains | rabota.cpp:51-54 | exchanging two elements one gap apart keeps the elements of all `gap` chains |
| Shell.ShiftStep | rabota.cpp:50-53 | shifting `arr[j - gap]` into the hole at `j` moves the hole one gap down and keeps the chain up to `i` gap-sorted, with every shifted element larger than `temp` |
| Shell.ShiftedStep | rabota.cpp:51-52 | after one more shift the chain positions from the new hole plus one gap up to `i` hold the element that stood one gap below them, and every other position its original value |
| Shell.ShiftDown | rabota.cpp:51-52 | the statement `arr[j] = arr[j - gap]` changes exactly position `j`, to the old `arr[j - gap]`; this moves the hole one gap down and extends by `j` the part of the chain that holds the element one gap below it |
| Shell.ShiftLoop | rabota.cpp:49-53 | the `while` loop stops at a hole `j` on `i`'s gap chain with `j < gap` or a predecessor not larger than `temp`; every position of the chain in `(j, i]` then holds the element that stood one gap below it, every other position is unchanged, and every shifted element is larger than `temp` |
| Shell.FillHole | rabota.cpp:54 | storing `temp` in the hole once its predecessor on the chain is not larger leaves `arr[0..i]` gap-sorted |
| Shell.FillShifted | rabota.cpp:54 | storing `temp`, the original `arr[i]`, in the hole completes the insertion: the hole holds `arr[i]`, the chain positions above it up to `i` hold the element one gap below, and every position off `i`'s chain is unchanged |
| Shell.InsertedShift | rabota.cpp:50-54 | an insertion that lands at `j < i` is the exchange of `j` and `j + gap` followed by an insertion that lands at `j + gap` |
| Shell.InsertedKeepsChains | rabota.cpp:48-54 | a finished insertion keeps the elements of each of the `gap` chains, and so the multiset |
| Shell.GapInsert | rabota.cpp:48-54 | `arr[i]` lands at a position `j` of its gap chain, the chain positions in `(j, i]` hold the elements that stood one gap below them, and every other position is unchanged, in particular every position past `i` or off the chain; the gap-sorted prefix grows to `arr[0..i]`, and the multiset and the elements of each chain are kept |
| Shell.GapPass | rabota.cpp:47-55 | the pass for one gap leaves the whole array gap-sorted, and each of the `gap` interleaved chains holds exactly the elements it held before, hence the multiset is kept |
| Shell.ShellSort | rabota.cpp:43-57 | the gaps used are exactly `n/2, n/4, ..., 1`; the result is sorted and a permutation of the input, and a sorted input is left unchanged |
| Quick.Push | rabota.cpp:67-69 | one element of the input is pushed onto exactly one bucket |
| Quick.Partition | rabota.cpp:66-70 | the buckets together hold as many elements as the input |
| Quick.PushSpec | rabota.cpp:67-69 | pushing an element keeps every bucket on its side of the pivot and adds exactly that element to what the buckets hold together |
| Quick.PartitionPrefix | rabota.cpp:66-70 | partitioning one more element of the input pushes that element onto the end of the bucket its comparison with the pivot selects |
| Quick.PartitionSpec | rabota.cpp:63-70 | `left` holds only elements below the pivot, `middle` only the pivot, `right` only elements above it, and together the buckets hold exactly the input's elements |
| Quick.Split | rabota.cpp:64-70 | the partition loop produces exactly the buckets `Partition(s, pivot)` |
| Quick.PushConcat | rabota.cpp:66-70 | pushing onto buckets that start with earlier elements appends after those elements, bucket by bucket |
| Quick.PartitionAppend | rabota.cpp:66-70 | the partition is stable: partitioning `s + t` gives, bucket by bucket, the buckets of `s` followed by those of `t` |
| Quick.PartitionShrinks | rabota.cpp:63-73 | with the pivot taken from the input, both outer buckets are strictly shorter than the input, so the recursion terminates |
| Quick.SortedConcat | rabota.cpp:75-78 | sorted elements below the pivot, then copies of the pivot, then sorted elements above it, form a sorted sequence |
| Quick.CombineSorted | rabota.cpp:72-78 | sorted permutations of `left` and `right` placed around `middle` give a sorted permutation of the input |
| Quick.QuickSort | rabota.cpp:59-79 | the result is sorted and a permutation of the input |
| Quick.QuickSortIsTheSortedPermutation | rabota.cpp:59-79 | quick_sort returns the one sorted arrangement of the input's elements |
| Quick.QuickSortKeepsSorted | rabota.cpp:61-78 | an input of at most one element, and more generally an already sorted input, comes back unchanged |
| Quick.PartitionExample | rabota.cpp:63-70 | for `[5, 3, 8, 3, 9, 1]` the pivot at index `6 / 2` is 3 and the buckets are `[1]`, `[3, 3]` and `[5, 8, 9]` |
| Quick.ExampleIsSortedPermutation | rabota.cpp:59-79 | `[1, 3, 3, 5, 8, 9]` is ascending and holds the same elements as `[5, 3, 8, 3, 9, 1]` |
| Quick.QuickSortExample | rabota.cpp:59-79 | quick_sort turns `[5, 3, 8, 3, 9, 1]` into `[1, 3, 3, 5, 8, 9]` |

## Left out

- `generate_data` (rabota.cpp:81-92) is not modelled, because it draws its values from `std::random_device` and `std::mt19937`. The sorts take any input array instead.
- `measure_time` (rabota.cpp:94-100) and the timing in `run_experiment` are not modelled. They read a wall clock and compute `double` durations.
- `run_experiment` (rabota.cpp:102-138) is left out: the console output, the `typeid(...).name()` labels and the loop over the four sorts. Each sort is modelled on its own.
- The parallel branch of `run_experiment` (rabota.cpp:115-137) is not modelled. Its four threads all sort the same captured `sorted_data` at once, which is a data race with no sequential meaning.
- `main` (rabota.cpp:140-152) is not modelled. It only iterates over the sizes and labels. Its "double" label still runs `int` data.
- The template parameter `T` is fixed to `int`, the only type the program instantiates. `>`, `<` and `==` are integer comparison.
- `int n = arr.size()` is modelled as the array length, an unbounded integer. The narrowing of a size above `INT_MAX` is not modelled. `n - 1` for an empty vector is -1 in both the source and the model.
- `push_back`, `clear` and `insert` (rabota.cpp:64-78) are modelled as sequence append and concatenation. Reallocation of the vector's buffer is not modelled.
- The recursion depth of `quick_sort` (rabota.cpp:72-73), up to the number of elements, is not bounded in the model. Dafny functions have no call stack to exhaust, so a stack overflow on a large input is not modelled.
- Quick.QuickSort: returns a new sequence rather than overwriting the caller's vector. The source overwrites the whole vector from the three buckets, so no partial in-place state is lost.
- Quick.PartitionAppend: states stability on `int` values. With integer elements, equal elements cannot be told apart, so stability has no effect on the sorted result.
- OddEven.OddEvenSort: the source keeps one `sorted` flag that both `for` loops clear. The model clears it when either pass reports a swap, which is the same condition.
- Shell.ShellSort: returns the visited gaps only as a ghost value for the proof. The source records no such list.
