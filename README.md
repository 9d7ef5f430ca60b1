# Descending introsort on an `int` buffer

This project models `quicksort.c`, an introsort that puts an `int` array
into descending order. Every routine works in place on an inclusive window
`[low, high]` of the buffer:

- `insertionSort` sorts small windows;
- `heapify` and `heapSort` sort through a min-heap laid over the window;
- `medianOfThree` and `partition` split a window around a median-of-three pivot;
- `introSortUtil` partitions, recurses on the smaller side and loops on the
  other. It falls back to heap sort once its depth budget is spent, and to
  insertion sort once the window has at most 17 cells;
- `introSort` runs `introSortUtil` over the first `n` cells with a budget of
  twice the base-2 logarithm of `n`.

The C routines are methods over `array<int>` in module `QuickSort`. Each
method is proved to leave the buffer exactly as a function on sequences
says: `InsertionSorted`, `SiftDown`, `HeapBuilt`, `HeapSorted`,
`Partitioned`, `IntroLoop` and `IntroSorted`. These functions live in the
spec modules `InsertionSpec`, `HeapSpec`, `PartitionSpec` and `IntroSpec`.
The lemmas beside them prove what the routines promise. Each window comes
out in descending order. Each window is only rearranged: the same multiset,
and every cell outside the window unchanged. Every partition splits its
window around the pivot `medianOfThree` picks, which is the median of the
first, middle and last values except on one tie (see Findings). `SortSpec`
holds the shared window predicates and the permutation lemmas.

C's `int` is modelled as an unbounded integer. Windows are inclusive, as in
the C code. `InsertionSort`, `BuildMinHeap`, `HeapSort` and `IntroSortUtil`
require `0 <= low <= high + 1 <= a.Length`, so an empty window is allowed.
`Partition` requires a non-empty window, `0 <= low <= high < a.Length`.
`Swap` requires both indices inside the buffer. `Heapify` requires the heap
of `n` cells at `offset` to lie inside the buffer. `IntroSort` requires
`1 <= n <= a.Length`.

## Model

| member | source | states |
|---|---|---|
| QuickSort.Swap | quicksort.c:13-17 | the two cells exchange their values and no other cell changes |
| QuickSort.InsertionSort | quicksort.c:27-45 | the buffer becomes `InsertionSorted` of the old buffer; the inner loop keeps the buffer equal, once `key` is stored into the gap, to inserting `key` from position i-1 |
| InsertionSpec.ShiftRightInserts | quicksort.c:36-42 | shifting every smaller predecessor right and storing `key` in the gap leaves `[left, i]` descending and only rearranges the window |
| InsertionSpec.InsertedSorts | quicksort.c:30-43 | one round of the outer loop extends the descending prefix `[left, i-1]` to `[left, i]` and only rearranges the window |
| InsertionSpec.InsertFromSorts | quicksort.c:30-44 | with `[left, i-1]` descending, the remaining rounds of the outer loop leave `[left, right]` descending and only rearrange it |
| InsertionSpec.InsertionSortedSorts | quicksort.c:27-45 | insertion sort leaves the window descending and only rearranges it |
| HeapSpec.Smallest | quicksort.c:58-70 | the pick is the node or one of its children inside the heap, no larger than the node and each child, and strictly smaller than the node when it is a child |
| QuickSort.SmallestOfThree | quicksort.c:58-70 | reads the buffer and returns exactly `Smallest` of node i |
| QuickSort.Heapify | quicksort.c:54-82 | the buffer becomes `SiftDown` of the old buffer from node i; the loop keeps `SiftDown` from the current node equal to `SiftDown` from i |
| HeapSpec.SiftDownSifts | quicksort.c:57-81 | each exchange of the sift-down loop keeps every node of i's subtree other than the moving one ordered, so the loop ends with i's subtree a min-heap |
| HeapSpec.SiftDownSubtree | quicksort.c:54-82 | if the subtrees under i's children are min-heaps, then after heapify the subtree rooted at i is a min-heap, and no heap cell outside that subtree has changed |
| HeapSpec.SiftDownHeap | quicksort.c:54-82 | the form heapSort's two loops use: if every node after i is no larger than its children, then after heapify every node from i on is |
| HeapSpec.SiftDownPermutes | quicksort.c:54-82 | heapify only rearranges the n heap cells |
| HeapSpec.HeapRootIsMin | quicksort.c:99-102 | the root of a min-heap holds its smallest value, which is why the extraction loop moves the heap's minimum behind the heap |
| QuickSort.BuildMinHeap | quicksort.c:94-96 | the buffer becomes `HeapBuilt` of the old buffer |
| HeapSpec.BuildHeapBuilds | quicksort.c:94-96 | heapifying the inner nodes from last to first makes the window a min-heap and only rearranges it |
| QuickSort.HeapSort | quicksort.c:89-103 | the buffer becomes `HeapSorted` of the old buffer; the extraction loop keeps `ExtractAll` of the current buffer equal to it |
| HeapSpec.ExtractOnceKeeps | quicksort.c:99-102 | moving the root behind the heap and heapifying the rest keeps the heap ordered, the tail descending and no larger than the heap, and only rearranges the window |
| HeapSpec.ExtractAllSorts | quicksort.c:99-102 | the extraction loop leaves the window descending and only rearranges it |
| HeapSpec.HeapSortedSorts | quicksort.c:89-103 | heap sort leaves the window descending and only rearranges it |
| PartitionSpec.MedianOfThree | quicksort.c:115-119 | the pick is one of the three indices, and its value is the median unless the first two values are equal and the third is smaller than them |
| PartitionSpec.MedianOfThreeMissesTie | quicksort.c:117 | on values 5, 5, 3 the pick is the cell holding 3, which is not the median |
| PartitionSpec.MedianOfThreeFixed | quicksort.c:115-119 | the pick's value is always the median of the three, and the pick agrees with `MedianOfThree` everywhere except when the first two values are equal and no smaller than the third |
| PartitionSpec.ScanSplits | quicksort.c:144-149 | the scan loop leaves `[low, i]` no smaller than the pivot and `(i, high)` smaller |
| PartitionSpec.ScanPermutes | quicksort.c:144-149 | the scan loop only rearranges `[low, high-1]`, so the pivot stays at `high` |
| PartitionSpec.ScannedSplits | quicksort.c:136-149 | after the pivot is parked at `high` and the scan has run, the window is split before `high`, the pivot is still at `high`, and the window is only rearranged |
| PartitionSpec.PartitionedSplits | quicksort.c:130-155 | partition returns an index in `[low, high]` holding the pivot `medianOfThree` picks, no smaller values to its left and only smaller values to its right; the pivot is the median of the first, middle and last values unless the first two are equal and larger than the last; the window is only rearranged |
| PartitionSpec.PartitionedOnTie | quicksort.c:136-154 | on values 5, 5, 3 partition pivots on the 3 that `medianOfThree` picks and returns index 2, leaving the cells in place |
| QuickSort.Partition | quicksort.c:130-155 | the buffer and the returned index are exactly `Partitioned` of the old buffer, with the pivot picked by the as-written `MedianOfThree`; the scan loop keeps `Scan` from the current state equal to `Scan` from the start |
| IntroSpec.LeftThenRight | quicksort.c:184-186 | with the window split at p, sorting the left side and then the right side sorts the whole window and only rearranges it |
| IntroSpec.RightThenLeft | quicksort.c:187-190 | the same when the right side is sorted first |
| IntroSpec.IntroLoopSorts | quicksort.c:165-195 | introSortUtil leaves the window descending and only rearranges it, whatever the depth budget |
| IntroSpec.SmallerFirstSorts | quicksort.c:184-190 | the rest of a round after partitioning sorts the window, whichever side is recursed on |
| QuickSort.IntroSortUtil | quicksort.c:165-195 | the buffer becomes `IntroLoop` of the old buffer with the given budget; the loop keeps `IntroLoop` of the current window and budget equal to it; with a non-negative budget, the budget stays between 0 and its start, because the zero check comes before the decrement |
| IntroSpec.SortersAgree | quicksort.c:165-195 | introSortUtil with any two budgets, heapSort and insertionSort all leave the same buffer |
| IntroSpec.SortedInputUnchanged | quicksort.c:165-195 | a window already in descending order comes out of introSortUtil unchanged |
| IntroSpec.FloorLog2 | quicksort.c:209 | k is the integer part of log2 n: `2^k <= n < 2^(k+1)` |
| IntroSpec.DepthLimit | quicksort.c:209 | the budget d is even and d/2 is the integer part of log2 n |
| IntroSpec.IntroSortedSorts | quicksort.c:206-211 | introSort leaves the first n cells descending, with the same multiset of values, and the cells after them untouched |
| QuickSort.IntroSort | quicksort.c:206-211 | the buffer becomes `IntroSorted` of the old buffer: its first n cells are descending, with the same values, and the rest unchanged |
| SortSpec.SortedWindowUnique | quicksort.c:206-211 | two descending rearrangements of the same window are equal, so any correct sort of a window gives the buffer these functions describe |

## Left out

- `main` (quicksort.c:221-260) is not modelled. It does the console I/O, the allocation and the rejection of a size `n <= 0`; `IntroSort` instead requires `1 <= n <= a.Length`.
- IntroSort: the budget `2 * (int)(log(n) / log(2.0))` is computed in floating point in the source. The model uses `2 * FloorLog2(n)`, the exact integer logarithm. A floating-point rounding error near an exact power of two could make the source's budget differ by 2. The budget never changes the result (`SortersAgree`), only which sort runs.
- C `int` overflow is left out: values and indices are unbounded integers. The routines do no arithmetic on the values. Index arithmetic can overflow in one place: heapify computes the child indices `2*i + 1` and `2*i + 2` (quicksort.c:59-60) before checking them against `n`. On a heap of 2^30 or more cells these overflow `int` once the sift-down reaches a deep enough node, and the model does not capture that.
- Running time is left out: the O(n log n) bound and the stack-depth benefit of recursing on the smaller side.
- Windows with `high < low - 1` are left out. Every caller in the source passes `low <= high + 1`, and the methods require it.
- QuickSort.SmallestOfThree: the smallest-of-three step of `heapify` is written as a method of its own that `Heapify` calls; its statements are those of quicksort.c:58-70.
- QuickSort.BuildMinHeap: the heap-building loop of `heapSort` is written as a method of its own that `HeapSort` calls; its statements are those of quicksort.c:94-96.

## Findings

| source | as written | input that shows it | evidently intended | confidence | as-written member | corrected member |
|---|---|---|---|---|---|---|
| quicksort.c:117 | `medianOfThree` returns `b` only when `(arr[b] < arr[a]) != (arr[b] < arr[c])`, so when `arr[a] == arr[b] > arr[c]` neither test holds and it returns `c`, the minimum | values 5, 5, 3 at a, b, c: returns c (value 3), while the median is 5 | return an index holding the median of the three values (the function's stated purpose); making the first comparison of line 117 non-strict, `arr[b] <= arr[a]`, does this | not executed | PartitionSpec.MedianOfThree, PartitionSpec.MedianOfThreeMissesTie | PartitionSpec.MedianOfThreeFixed |
