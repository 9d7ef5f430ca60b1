/**
 * Pivot selection and the Lomuto partition of a window, descending: values
 * no smaller than the pivot go left of it, smaller values right of it. The
 * functions say on sequences what medianOfThree and partition do to the
 * buffer; the lemmas prove that the result splits the window around the
 * picked pivot and only rearranges it. The pick is the median of the first,
 * middle and last values except on the tie MedianOfThree describes.
 */
module PartitionSpec {
  import opened SortSpec

  /**
   * The value v is a median of x, y and z: it is one of them, at least two
   * of the three are no larger than v and at least two are no smaller.
   */
  ghost predicate IsMedian(v: int, x: int, y: int, z: int) {
    (v == x || v == y || v == z) &&
    ((x <= v && y <= v) || (x <= v && z <= v) || (y <= v && z <= v)) &&
    ((x >= v && y >= v) || (x >= v && z >= v) || (y >= v && z >= v))
  }

  /**
   * Pivot selection as written (medianOfThree): picks one of the three
   * indices, and its value is the median of the three values except when
   * the values at a and b are equal and larger than the value at c, where
   * it picks c, the minimum.
   */
  function MedianOfThree(s: seq<int>, a: int, b: int, c: int): (m: int)
    requires 0 <= a < |s| && 0 <= b < |s| && 0 <= c < |s|
    ensures m == a || m == b || m == c
    ensures IsMedian(s[m], s[a], s[b], s[c]) <==> !(s[a] == s[b] && s[c] < s[a])
  {
    if (s[a] < s[b]) != (s[a] < s[c]) then a
    else if (s[b] < s[a]) != (s[b] < s[c]) then b
    else c
  }

  /** Three cells 5, 5, 3: the median is 5, but the pick is the cell holding 3. */
  lemma MedianOfThreeMissesTie()
    ensures MedianOfThree([5, 5, 3], 0, 1, 2) == 2
    ensures !IsMedian(3, 5, 5, 3) && IsMedian(5, 5, 5, 3)
  {
  }

  /**
   * Pivot selection with the second test made non-strict on its first
   * comparison: always the median, and the same pick as MedianOfThree
   * except when the values at a and b are equal and no smaller than the
   * value at c.
   */
  function MedianOfThreeFixed(s: seq<int>, a: int, b: int, c: int): (m: int)
    requires 0 <= a < |s| && 0 <= b < |s| && 0 <= c < |s|
    ensures m == a || m == b || m == c
    ensures IsMedian(s[m], s[a], s[b], s[c])
    ensures !(s[a] == s[b] && s[c] <= s[a]) ==> m == MedianOfThree(s, a, b, c)
  {
    if (s[a] < s[b]) != (s[a] < s[c]) then a
    else if (s[b] <= s[a]) != (s[b] < s[c]) then b
    else c
  }

  /**
   * The scan loop of partition from j on, with the pivot parked at `high`
   * and cells (i, j) already known to be smaller than the pivot: a value no
   * smaller than the pivot is exchanged into position i+1. The second
   * component is the last index of the no-smaller part.
   */
  function Scan(s: seq<int>, high: int, pivot: int, i: int, j: int): (r: (seq<int>, int))
    requires -1 <= i < j <= high < |s|
    ensures |r.0| == |s| && i <= r.1 < high
    decreases high - j
  {
    if j == high then (s, i)
    else if s[j] >= pivot then Scan(Swapped(s, i + 1, j), high, pivot, i + 1, j + 1)
    else Scan(s, high, pivot, i, j + 1)
  }

  /** The pivot index partition picks for the window [low, high]. */
  function PivotIndex(s: seq<int>, low: int, high: int): (m: int)
    requires 0 <= low <= high < |s|
    ensures low <= m <= high
  {
    MedianOfThree(s, low, low + (high - low) / 2, high)
  }

  /** The buffer once partition has moved the chosen pivot to `high`. */
  function Parked(s: seq<int>, low: int, high: int): (t: seq<int>)
    requires 0 <= low <= high < |s|
    ensures |t| == |s|
  {
    var m := PivotIndex(s, low, high);
    Swapped(s, m, high)
  }

  /** The buffer and the last index of the no-smaller part once partition's scan loop is over. */
  function Scanned(s: seq<int>, low: int, high: int): (r: (seq<int>, int))
    requires 0 <= low <= high < |s|
    ensures |r.0| == |s| && low - 1 <= r.1 < high
  {
    Scan(Parked(s, low, high), high, s[PivotIndex(s, low, high)], low - 1, low)
  }

  /**
   * What partition does to the window [low, high]: move the pivot to
   * `high`, scan, then exchange the pivot into place just after the
   * no-smaller part. The second component is the pivot's final index.
   */
  function Partitioned(s: seq<int>, low: int, high: int): (r: (seq<int>, int))
    requires 0 <= low <= high < |s|
    ensures |r.0| == |s| && low <= r.1 <= high
  {
    var u, i := Scanned(s, low, high).0, Scanned(s, low, high).1;
    (Swapped(u, i + 1, high), i + 1)
  }

  /** On 5, 5, 3 partition pivots on the 3 it picks, leaves the cells in place and returns the last index. */
  lemma PartitionedOnTie()
    ensures Partitioned([5, 5, 3], 0, 2) == ([5, 5, 3], 2)
  {
    var s := [5, 5, 3];
    assert PivotIndex(s, 0, 2) == 2;
    assert Parked(s, 0, 2) == s;
    assert Swapped(s, 0, 0) == s && Swapped(s, 1, 1) == s && Swapped(s, 2, 2) == s;
    assert Scan(s, 2, 3, 1, 2) == (s, 1);
    assert Scan(s, 2, 3, 0, 1) == (s, 1);
    assert Scan(s, 2, 3, -1, 0) == (s, 1);
  }

  /**
   * Scan state of the partition loop: cells [low, i] hold values no smaller
   * than the pivot, cells (i, j) values smaller than it.
   */
  ghost predicate Partitioning(s: seq<int>, low: int, i: int, j: int, pivot: int) {
    AllAtLeast(s, low, i, pivot) &&
    forall k :: 0 <= k < |s| && i < k < j ==> s[k] < pivot
  }

  /** The window [low, high] is split at p: no smaller values left of p, only smaller values right of it. */
  ghost predicate SplitAt(s: seq<int>, low: int, p: int, high: int)
    requires 0 <= low <= p <= high < |s|
  {
    AllAtLeast(s, low, p - 1, s[p]) &&
    forall k :: p < k <= high ==> s[k] < s[p]
  }

  /**
   * One scan step: a value no smaller than the pivot is exchanged into the
   * left part, a smaller one is left where it is.
   */
  lemma PartitionStep(s: seq<int>, low: int, i: int, j: int, high: int, pivot: int)
    requires 0 <= low && low - 1 <= i < j < high < |s|
    requires Partitioning(s, low, i, j, pivot)
    ensures s[j] >= pivot ==> Partitioning(Swapped(s, i + 1, j), low, i + 1, j + 1, pivot)
    ensures s[j] < pivot ==> Partitioning(s, low, i, j + 1, pivot)
  {
  }

  /**
   * The scan loop ends with the window before `high` split into a
   * no-smaller part [low, i] and a smaller part after it.
   */
  lemma {:induction false} ScanSplits(s: seq<int>, low: int, high: int, pivot: int, i: int, j: int)
    requires 0 <= low && low - 1 <= i < j <= high < |s|
    requires Partitioning(s, low, i, j, pivot)
    ensures low - 1 <= Scan(s, high, pivot, i, j).1
    ensures Partitioning(Scan(s, high, pivot, i, j).0, low, Scan(s, high, pivot, i, j).1, high, pivot)
    decreases high - j
  {
    if j < high && s[j] >= pivot {
      var t := Swapped(s, i + 1, j);
      PartitionStep(s, low, i, j, high, pivot);
      assert Scan(s, high, pivot, i, j) == Scan(t, high, pivot, i + 1, j + 1);
      ScanSplits(t, low, high, pivot, i + 1, j + 1);
    } else if j < high {
      PartitionStep(s, low, i, j, high, pivot);
      assert Scan(s, high, pivot, i, j) == Scan(s, high, pivot, i, j + 1);
      ScanSplits(s, low, high, pivot, i, j + 1);
    }
  }

  /** The scan loop only rearranges [low, high-1], so the pivot stays at `high`. */
  lemma {:induction false} ScanPermutes(s: seq<int>, low: int, high: int, pivot: int, i: int, j: int)
    requires 0 <= low && low - 1 <= i < j <= high < |s|
    ensures PermutedWithin(Scan(s, high, pivot, i, j).0, s, low, high - 1)
    decreases high - j
  {
    if j < high && s[j] >= pivot {
      var t := Swapped(s, i + 1, j);
      SwapPermutes(s, low, high - 1, i + 1, j);
      assert Scan(s, high, pivot, i, j) == Scan(t, high, pivot, i + 1, j + 1);
      ScanPermutes(t, low, high, pivot, i + 1, j + 1);
      PermutedTrans(Scan(t, high, pivot, i + 1, j + 1).0, t, s, low, high - 1);
    } else if j < high {
      assert Scan(s, high, pivot, i, j) == Scan(s, high, pivot, i, j + 1);
      ScanPermutes(s, low, high, pivot, i, j + 1);
    }
  }

  /** Exchanging the pivot at high with the first smaller value splits the window there. */
  lemma PlacePivot(s: seq<int>, low: int, i: int, high: int)
    requires 0 <= low && low - 1 <= i < high < |s|
    requires Partitioning(s, low, i, high, s[high])
    ensures SplitAt(Swapped(s, i + 1, high), low, i + 1, high)
  {
  }

  /**
   * After the scan loop the window before `high` is split into a
   * no-smaller part and a smaller part, the pivot is still at `high`, and
   * the window is only rearranged.
   */
  lemma ScannedSplits(s: seq<int>, low: int, high: int)
    requires 0 <= low <= high < |s|
    ensures Partitioning(Scanned(s, low, high).0, low, Scanned(s, low, high).1, high, s[PivotIndex(s, low, high)])
    ensures Scanned(s, low, high).0[high] == s[PivotIndex(s, low, high)]
    ensures PermutedWithin(Scanned(s, low, high).0, s, low, high)
  {
    var t := Parked(s, low, high);
    var u := Scanned(s, low, high).0;
    ScanSplits(t, low, high, s[PivotIndex(s, low, high)], low - 1, low);
    ScanPermutes(t, low, high, s[PivotIndex(s, low, high)], low - 1, low);
    SwapPermutes(s, low, high, PivotIndex(s, low, high), high);
    PermutedWiden(u, t, low, high - 1, low, high);
    PermutedTrans(u, t, s, low, high);
  }

  /**
   * partition splits the window [low, high] at the returned index around
   * the picked pivot and only rearranges the window. The pivot is the
   * median of the first, middle and last values unless the first two are
   * equal and larger than the last.
   */
  lemma PartitionedSplits(s: seq<int>, low: int, high: int)
    requires 0 <= low <= high < |s|
    ensures SplitAt(Partitioned(s, low, high).0, low, Partitioned(s, low, high).1, high)
    ensures PermutedWithin(Partitioned(s, low, high).0, s, low, high)
    ensures Partitioned(s, low, high).0[Partitioned(s, low, high).1] == s[PivotIndex(s, low, high)]
    ensures !(s[low] == s[low + (high - low) / 2] && s[high] < s[low]) ==>
              IsMedian(s[PivotIndex(s, low, high)], s[low], s[low + (high - low) / 2], s[high])
  {
    var u, i := Scanned(s, low, high).0, Scanned(s, low, high).1;
    var v := Swapped(u, i + 1, high);
    assert Partitioned(s, low, high) == (v, i + 1);
    ScannedSplits(s, low, high);
    assert v[i + 1] == s[PivotIndex(s, low, high)];
    PlacePivot(u, low, i, high);
    SwapPermutes(u, low, high, i + 1, high);
    PermutedTrans(v, u, s, low, high);
  }
}
