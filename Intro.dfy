/**
 * Introsort of a window, descending: quicksort with median-of-three
 * partitioning while the window has more than SmallWindow + 1 (17) cells
 * and the depth budget lasts, heap sort once the budget is spent, and
 * insertion sort on small windows. The functions say on sequences what introSortUtil and
 * introSort do to the buffer; the lemmas prove that the result is the one
 * descending permutation of the window, whatever the depth budget.
 */
module IntroSpec {
  import opened SortSpec
  import opened InsertionSpec
  import opened HeapSpec
  import opened PartitionSpec

  /** Windows with more than SmallWindow + 1 (17) cells are partitioned; smaller ones go to insertion sort. */
  const SmallWindow: int := 16

  /**
   * What introSortUtil does to the window [low, high] with the given depth
   * budget: while the window has more than SmallWindow + 1 cells, heap sort
   * it once the budget is spent, and otherwise partition it and go on with
   * one less; a small window goes to insertion sort.
   */
  function IntroLoop(s: seq<int>, low: int, high: int, depth: int): (r: seq<int>)
    requires 0 <= low <= high + 1 <= |s|
    ensures |r| == |s|
    decreases high - low + 1, 1
  {
    if high - low > SmallWindow then
      if depth == 0 then HeapSorted(s, low, high)
      else SmallerFirst(Partitioned(s, low, high).0, low, Partitioned(s, low, high).1, high, depth - 1)
    else InsertionSorted(s, low, high)
  }

  /**
   * The rest of a round of introSortUtil once the window is split at p:
   * recurse on the side with fewer cells (the right side on a tie), then
   * go on looping over the other side, both with the given budget.
   */
  function SmallerFirst(t: seq<int>, low: int, p: int, high: int, depth: int): (r: seq<int>)
    requires 0 <= low <= p <= high < |t|
    ensures |r| == |t|
    decreases high - low + 1, 0
  {
    if p - low < high - p then IntroLoop(IntroLoop(t, low, p - 1, depth), p + 1, high, depth)
    else IntroLoop(IntroLoop(t, p + 1, high, depth), low, p - 1, depth)
  }

  /** A large window with the budget spent goes to heap sort. */
  lemma IntroLoopHeap(s: seq<int>, low: int, high: int, depth: int)
    requires 0 <= low <= high + 1 <= |s| && high - low > SmallWindow && depth == 0
    ensures IntroLoop(s, low, high, depth) == HeapSorted(s, low, high)
  {
  }

  /**
   * A round of introSortUtil that recurses on the smaller left side: what
   * is left to do is to loop on the right side, with the reduced budget
   * `rest`, from `next`, the cell after the pivot.
   */
  lemma LeftRound(s: seq<int>, t: seq<int>, u: seq<int>, low: int, p: int, high: int, depth: int, next: int, rest: int)
    requires 0 <= low <= high < |s| && high - low > SmallWindow && depth != 0 && rest == depth - 1
    requires t == Partitioned(s, low, high).0 && p == Partitioned(s, low, high).1
    requires p - low < high - p && next == p + 1 && u == IntroLoop(t, low, p - 1, rest)
    ensures IntroLoop(s, low, high, depth) == IntroLoop(u, next, high, rest)
  {
  }

  /** The same for a round that recurses on the right side and loops on the left, up to `last`, the cell before the pivot. */
  lemma RightRound(s: seq<int>, t: seq<int>, u: seq<int>, low: int, p: int, high: int, depth: int, last: int, rest: int)
    requires 0 <= low <= high < |s| && high - low > SmallWindow && depth != 0 && rest == depth - 1
    requires t == Partitioned(s, low, high).0 && p == Partitioned(s, low, high).1
    requires p - low >= high - p && last == p - 1 && u == IntroLoop(t, p + 1, high, rest)
    ensures IntroLoop(s, low, high, depth) == IntroLoop(u, low, last, rest)
  {
  }

  /** A window of at most SmallWindow + 1 cells goes to insertion sort. */
  lemma IntroLoopSmall(s: seq<int>, low: int, high: int, depth: int)
    requires 0 <= low <= high + 1 <= |s| && high - low <= SmallWindow
    ensures IntroLoop(s, low, high, depth) == InsertionSorted(s, low, high)
  {
  }

  /** 2 to the power k. */
  function Pow2(k: nat): (r: nat)
    ensures r >= 1
  {
    if k == 0 then 1 else 2 * Pow2(k - 1)
  }

  /** The integer part of the base-2 logarithm of n. */
  function FloorLog2(n: int): (k: nat)
    requires n >= 1
    ensures Pow2(k) <= n < Pow2(k + 1)
  {
    if n == 1 then 0 else 1 + FloorLog2(n / 2)
  }

  /** The depth budget introSort grants a buffer of n cells: twice the base-2 logarithm of n. */
  function DepthLimit(n: int): (d: nat)
    requires n >= 1
    ensures Pow2(d / 2) <= n < Pow2(d / 2 + 1) && d % 2 == 0
  {
    2 * FloorLog2(n)
  }

  /** What introSort does to the first n cells of the buffer. */
  function IntroSorted(s: seq<int>, n: int): (r: seq<int>)
    requires 1 <= n <= |s|
    ensures |r| == |s|
  {
    IntroLoop(s, 0, n - 1, DepthLimit(n))
  }

  /**
   * A window is sorted when its two sides are, the pivot between them is
   * no larger than anything on its left and no smaller than anything on its
   * right.
   */
  lemma PivotJoin(v: seq<int>, low: int, p: int, high: int)
    requires 0 <= low <= p <= high < |v|
    requires SortedWithin(v, low, p - 1) && SortedWithin(v, p + 1, high)
    requires AllAtLeast(v, low, p - 1, v[p]) && AllAtMost(v, p + 1, high, v[p])
    ensures SortedWithin(v, low, high)
  {
  }

  /**
   * introSortUtil recursing on the left side first: with the window split
   * at p, sorting the left side and then the right side, each only
   * rearranging itself, sorts the whole window and only rearranges it.
   */
  lemma LeftThenRight(s: seq<int>, t: seq<int>, u: seq<int>, v: seq<int>, low: int, p: int, high: int)
    requires 0 <= low <= p <= high < |t|
    requires SplitAt(t, low, p, high) && PermutedWithin(t, s, low, high)
    requires SortedPermutation(u, t, low, p - 1)
    requires SortedPermutation(v, u, p + 1, high)
    ensures SortedPermutation(v, s, low, high)
  {
    PermutedKeepsLowerBound(u, t, low, p - 1, t[p]);
    assert AllAtMost(u, p + 1, high, t[p]);
    PermutedKeepsUpperBound(v, u, p + 1, high, t[p]);
    PivotJoin(v, low, p, high);
  }

  /** The same with the right side sorted first, as introSortUtil does when it is the smaller one. */
  lemma RightThenLeft(s: seq<int>, t: seq<int>, u: seq<int>, v: seq<int>, low: int, p: int, high: int)
    requires 0 <= low <= p <= high < |t|
    requires SplitAt(t, low, p, high) && PermutedWithin(t, s, low, high)
    requires SortedPermutation(u, t, p + 1, high)
    requires SortedPermutation(v, u, low, p - 1)
    ensures SortedPermutation(v, s, low, high)
  {
    assert AllAtMost(t, p + 1, high, t[p]);
    PermutedKeepsUpperBound(u, t, p + 1, high, t[p]);
    assert AllAtLeast(u, low, p - 1, t[p]);
    PermutedKeepsLowerBound(v, u, low, p - 1, t[p]);
    PivotJoin(v, low, p, high);
  }

  /**
   * introSortUtil sorts the window [low, high] in descending order and
   * only rearranges it, whatever the depth budget.
   */
  lemma {:induction false} IntroLoopSorts(s: seq<int>, low: int, high: int, depth: int)
    requires 0 <= low <= high + 1 <= |s|
    ensures SortedPermutation(IntroLoop(s, low, high, depth), s, low, high)
    decreases high - low + 1, 1
  {
    if high - low <= SmallWindow {
      InsertionSortedSorts(s, low, high);
    } else if depth == 0 {
      HeapSortedSorts(s, low, high);
    } else {
      PartitionedSplits(s, low, high);
      SmallerFirstSorts(s, Partitioned(s, low, high).0, low, Partitioned(s, low, high).1, high, depth - 1);
    }
  }

  /** The rest of a round sorts the split window and only rearranges it, whichever side it recurses on. */
  lemma {:induction false} SmallerFirstSorts(s: seq<int>, t: seq<int>, low: int, p: int, high: int, depth: int)
    requires 0 <= low <= p <= high < |t|
    requires SplitAt(t, low, p, high) && PermutedWithin(t, s, low, high)
    ensures SortedPermutation(SmallerFirst(t, low, p, high, depth), s, low, high)
    decreases high - low + 1, 0
  {
    if p - low < high - p {
      var u := IntroLoop(t, low, p - 1, depth);
      IntroLoopSorts(t, low, p - 1, depth);
      IntroLoopSorts(u, p + 1, high, depth);
      LeftThenRight(s, t, u, IntroLoop(u, p + 1, high, depth), low, p, high);
    } else {
      var u := IntroLoop(t, p + 1, high, depth);
      IntroLoopSorts(t, p + 1, high, depth);
      IntroLoopSorts(u, low, p - 1, depth);
      RightThenLeft(s, t, u, IntroLoop(u, low, p - 1, depth), low, p, high);
    }
  }

  /**
   * The depth budget decides only how the window gets sorted, not the
   * result: introSortUtil with any two budgets, heapSort and insertionSort
   * all leave the same buffer.
   */
  lemma SortersAgree(s: seq<int>, low: int, high: int, depth1: int, depth2: int)
    requires 0 <= low <= high + 1 <= |s|
    ensures IntroLoop(s, low, high, depth1) == IntroLoop(s, low, high, depth2)
    ensures IntroLoop(s, low, high, depth1) == HeapSorted(s, low, high)
    ensures HeapSorted(s, low, high) == InsertionSorted(s, low, high)
  {
    IntroLoopSorts(s, low, high, depth1);
    IntroLoopSorts(s, low, high, depth2);
    HeapSortedSorts(s, low, high);
    InsertionSortedSorts(s, low, high);
    SortedWindowUnique(IntroLoop(s, low, high, depth1), IntroLoop(s, low, high, depth2), s, low, high);
    SortedWindowUnique(IntroLoop(s, low, high, depth1), HeapSorted(s, low, high), s, low, high);
    SortedWindowUnique(HeapSorted(s, low, high), InsertionSorted(s, low, high), s, low, high);
  }

  /** A window already in descending order comes out of introSortUtil unchanged. */
  lemma SortedInputUnchanged(s: seq<int>, low: int, high: int, depth: int)
    requires 0 <= low <= high + 1 <= |s|
    requires SortedWithin(s, low, high)
    ensures IntroLoop(s, low, high, depth) == s
  {
    IntroLoopSorts(s, low, high, depth);
    SortedWindowUnique(IntroLoop(s, low, high, depth), s, s, low, high);
  }

  /**
   * introSort leaves the first n cells in descending order, holding the
   * same values as before, and the cells after them untouched.
   */
  lemma IntroSortedSorts(s: seq<int>, n: int)
    requires 1 <= n <= |s|
    ensures NonIncreasing(IntroSorted(s, n)[..n])
    ensures multiset(IntroSorted(s, n)[..n]) == multiset(s[..n])
    ensures IntroSorted(s, n)[n..] == s[n..]
  {
    var r := IntroSorted(s, n);
    IntroLoopSorts(s, 0, n - 1, DepthLimit(n));
    WindowMultiset(r, s, 0, n - 1);
    assert r[0..n] == r[..n] && s[0..n] == s[..n];
  }
}
