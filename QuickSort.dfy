/**
 * The descending-order introsort of quicksort.c: every routine works in
 * place on one `int` buffer inside an inclusive index window, and each is
 * proved to leave the buffer exactly as the matching function of the spec
 * modules says. C's `int` is modelled as an unbounded integer.
 */
module QuickSort {
  import opened SortSpec
  import opened InsertionSpec
  import opened HeapSpec
  import opened PartitionSpec
  import opened IntroSpec

  /** Exchanges the values at positions i and j (swap). */
  method Swap(a: array<int>, i: int, j: int)
    requires 0 <= i < a.Length && 0 <= j < a.Length
    modifies a
    ensures a[..] == Swapped(old(a[..]), i, j)
  {
    var t := a[i];
    a[i] := a[j];
    a[j] := t;
  }

  /**
   * Insertion sort of the window [left, right] into descending order:
   * each key is moved left past every strictly smaller predecessor.
   */
  method InsertionSort(a: array<int>, left: int, right: int)
    requires 0 <= left <= right + 1 <= a.Length
    modifies a
    ensures a[..] == InsertionSorted(old(a[..]), left, right)
  {
    var i := left + 1;
    while i <= right
      invariant left < i && (i <= right + 1 || i == left + 1)
      invariant InsertFrom(a[..], left, right, i) == InsertionSorted(old(a[..]), left, right)
    {
      var key := a[i];
      var j := i - 1;
      ghost var s := a[..];
      while j >= left && a[j] < key
        invariant left - 1 <= j <= i - 1
        invariant Inserted(a[..], left, j, key) == Inserted(s, left, i - 1, key)
        decreases j - left + 1
      {
        a[j + 1] := a[j];
        j := j - 1;
      }
      a[j + 1] := key;
      i := i + 1;
    }
  }

  /**
   * The index, relative to `offset`, of the smallest of node i and its
   * children inside the heap of n cells, preferring i, then its left child.
   */
  method SmallestOfThree(a: array<int>, n: int, i: int, offset: int) returns (smallest: int)
    requires 0 <= offset && 0 <= n && offset + n <= a.Length && 0 <= i
    ensures smallest == Smallest(a[..], offset, n, i)
  {
    smallest := i;
    var l, r := 2 * i + 1, 2 * i + 2;
    if l < n && a[offset + l] < a[offset + smallest] {
      smallest := l;
    }
    if r < n && a[offset + r] < a[offset + smallest] {
      smallest := r;
    }
  }

  /**
   * Sifts the node at relative index i of the min-heap of n cells at
   * `offset` down until it is no larger than its children (heapify).
   */
  method Heapify(a: array<int>, n: int, i: int, offset: int)
    requires 0 <= offset && 0 <= n && offset + n <= a.Length && 0 <= i
    modifies a
    ensures a[..] == SiftDown(old(a[..]), offset, n, i)
  {
    var node := i;
    while true
      invariant 0 <= node
      invariant SiftDown(a[..], offset, n, node) == SiftDown(old(a[..]), offset, n, i)
      decreases n - node
    {
      var smallest := SmallestOfThree(a, n, node, offset);
      if smallest != node {
        ghost var s := a[..];
        Swap(a, offset + node, offset + smallest);
        SiftDownUnfold(s, offset, n, node, smallest);
        node := smallest;
      } else {
        break;
      }
    }
  }

  /**
   * The first loop of heapSort: heapify every inner node of the window
   * [left, right], last one first, into a min-heap.
   */
  method BuildMinHeap(a: array<int>, left: int, right: int)
    requires 0 <= left <= right + 1 <= a.Length
    modifies a
    ensures a[..] == HeapBuilt(old(a[..]), left, right)
  {
    var n := right - left + 1;
    var i := n / 2 - 1;
    while i >= 0
      invariant -1 <= i <= n / 2 - 1
      invariant BuildHeap(a[..], left, n, i) == HeapBuilt(old(a[..]), left, right)
    {
      ghost var s, i0 := a[..], i;
      Heapify(a, n, i, left);
      i := i - 1;
      BuildHeapUnfold(s, left, n, i0, i);
    }
  }

  /**
   * Heap sort of the window [left, right] into descending order: build a
   * min-heap over the window, then move its root to the end of the heap
   * part again and again (heapSort).
   */
  method HeapSort(a: array<int>, left: int, right: int)
    requires 0 <= left <= right + 1 <= a.Length
    modifies a
    ensures a[..] == HeapSorted(old(a[..]), left, right)
  {
    var n := right - left + 1;
    BuildMinHeap(a, left, right);
    var i := n - 1;
    while i > 0
      invariant -1 <= i <= n - 1
      invariant ExtractAll(a[..], left, i) == HeapSorted(old(a[..]), left, right)
    {
      ghost var s, i0 := a[..], i;
      Swap(a, left, left + i);
      ExtractOnceAt(s, a[..], left, i);
      Heapify(a, i, 0, left);
      i := i - 1;
      ExtractAllUnfold(s, left, i0, i);
    }
  }

  /**
   * Lomuto partition of [low, high] around the pivot MedianOfThree picks
   * from the first, middle and last values: values no smaller than the
   * pivot end up left of the returned index, smaller values right of it
   * (partition).
   */
  method Partition(a: array<int>, low: int, high: int) returns (p: int)
    requires 0 <= low <= high < a.Length
    modifies a
    ensures a[..] == Partitioned(old(a[..]), low, high).0 && p == Partitioned(old(a[..]), low, high).1
  {
    var mid := low + (high - low) / 2;
    var pivotIndex := MedianOfThree(a[..], low, mid, high);
    var pivot := a[pivotIndex];
    Swap(a, pivotIndex, high);
    ghost var t := a[..];
    var i := low - 1;
    for j := low to high
      invariant low - 1 <= i < j
      invariant Scan(a[..], high, pivot, i, j) == Scan(t, high, pivot, low - 1, low)
    {
      if a[j] >= pivot {
        i := i + 1;
        Swap(a, i, j);
      }
    }
    Swap(a, i + 1, high);
    p := i + 1;
  }

  /**
   * The introsort driver on the window [low, high] (introSortUtil): while
   * the window has more than SmallWindow + 1 cells, heap sort it once the
   * depth budget is spent, and otherwise partition it, recurse on the
   * smaller side and loop on the other; finish with insertion sort.
   */
  method IntroSortUtil(a: array<int>, low: int, high: int, depthLimit: int)
    requires 0 <= low <= high + 1 <= a.Length
    modifies a
    ensures a[..] == IntroLoop(old(a[..]), low, high, depthLimit)
    decreases high - low + 1
  {
    var lo, hi, depth := low, high, depthLimit;
    while hi - lo > SmallWindow
      invariant low <= lo <= hi + 1 && hi <= high
      invariant depthLimit >= 0 ==> 0 <= depth <= depthLimit
      invariant IntroLoop(a[..], lo, hi, depth) == IntroLoop(old(a[..]), low, high, depthLimit)
      decreases hi - lo
    {
      if depth == 0 {
        IntroLoopHeap(a[..], lo, hi, depth);
        HeapSort(a, lo, hi);
        return;
      }
      ghost var s, lo0, hi0, depth0 := a[..], lo, hi, depth;
      var p := Partition(a, lo, hi);
      depth := depth - 1;
      ghost var t := a[..];
      if p - lo < hi - p {
        IntroSortUtil(a, lo, p - 1, depth);
        lo := p + 1;
        LeftRound(s, t, a[..], lo0, p, hi, depth0, lo, depth);
      } else {
        IntroSortUtil(a, p + 1, hi, depth);
        hi := p - 1;
        RightRound(s, t, a[..], lo, p, hi0, depth0, hi, depth);
      }
    }
    IntroLoopSmall(a[..], lo, hi, depth);
    InsertionSort(a, lo, hi);
  }

  /**
   * Sorts the first n cells of the buffer into descending order with a
   * depth budget of twice the base-2 logarithm of n (introSort).
   */
  method IntroSort(a: array<int>, n: int)
    requires 1 <= n <= a.Length
    modifies a
    ensures a[..] == IntroSorted(old(a[..]), n)
    ensures NonIncreasing(a[..n])
    ensures multiset(a[..n]) == multiset(old(a[..n]))
    ensures a[n..] == old(a[n..])
  {
    IntroSortedSorts(a[..], n);
    var depthLimit := DepthLimit(n);
    IntroSortUtil(a, 0, n - 1, depthLimit);
  }
}
