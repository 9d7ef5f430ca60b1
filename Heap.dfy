/**
 * The virtual min-heap that heap sort lays over a window of the buffer:
 * the heap has `n` cells starting at `off`, and the node at relative index
 * k has its children at relative indices 2k+1 and 2k+2. The functions
 * SiftDown, BuildHeap, ExtractAll and HeapSorted say, on sequences, what
 * heapify and heapSort do to the buffer; the lemmas prove that the result
 * is a descending permutation of the window.
 */
module HeapSpec {
  import opened SortSpec

  /** Node k of the heap of `n` cells at `off` is no larger than each child it has in the heap. */
  ghost predicate NodeOrdered(s: seq<int>, off: int, n: int, k: int)
    requires 0 <= off && 0 <= k && off + n <= |s|
  {
    (2 * k + 1 < n ==> s[off + k] <= s[off + 2 * k + 1]) &&
    (2 * k + 2 < n ==> s[off + k] <= s[off + 2 * k + 2])
  }

  /** Every node at relative index i or beyond is ordered with respect to its children. */
  ghost predicate HeapFrom(s: seq<int>, off: int, n: int, i: int)
    requires 0 <= off && off + n <= |s|
  {
    forall k :: 0 <= k && i <= k < n ==> NodeOrdered(s, off, n, k)
  }

  /** Nodes in the second half of the heap have no children, so they are ordered. */
  lemma LeavesOrdered(s: seq<int>, off: int, n: int)
    requires 0 <= off && 0 <= n && off + n <= |s|
    ensures HeapFrom(s, off, n, n / 2)
  {
  }

  /** The root of a min-heap holds its smallest value. */
  lemma {:induction false} HeapRootIsMin(s: seq<int>, off: int, n: int, k: int)
    requires 0 <= off && off + n <= |s|
    requires HeapFrom(s, off, n, 0)
    requires 0 <= k < n
    ensures s[off] <= s[off + k]
  {
    if k > 0 {
      var parent := (k - 1) / 2;
      HeapRootIsMin(s, off, n, parent);
      assert NodeOrdered(s, off, n, parent);
    }
  }

  /**
   * Exchanging the root of a min-heap of i+1 cells with its last cell and
   * dropping that cell leaves a heap of i cells in which only the root may
   * be out of order.
   */
  lemma HeapAfterExtract(s: seq<int>, off: int, i: int)
    requires 0 <= off && 0 <= i && off + i < |s|
    requires HeapFrom(s, off, i + 1, 0)
    ensures HeapFrom(Swapped(s, off, off + i), off, i, 1)
  {
    var t := Swapped(s, off, off + i);
    var n := i + 1;
    forall k | 1 <= k < i
      ensures NodeOrdered(t, off, i, k)
    {
      assert NodeOrdered(s, off, n, k);
    }
  }

  /**
   * The index heapify picks at `i`: `i` itself, or the child holding a
   * strictly smaller value, the right child winning only when it is
   * strictly smaller than the choice so far.
   */
  function Smallest(s: seq<int>, off: int, n: int, i: int): (m: int)
    requires 0 <= off && 0 <= n && off + n <= |s| && 0 <= i
    ensures m == i || (i < m < n && (m == 2 * i + 1 || m == 2 * i + 2))
    ensures m != i ==> s[off + m] < s[off + i]
    ensures i < n ==> s[off + m] <= s[off + i]
    ensures 2 * i + 1 < n ==> s[off + m] <= s[off + 2 * i + 1]
    ensures 2 * i + 2 < n ==> s[off + m] <= s[off + 2 * i + 2]
  {
    var l, r := 2 * i + 1, 2 * i + 2;
    var m := if l < n && s[off + l] < s[off + i] then l else i;
    if r < n && s[off + r] < s[off + m] then r else m
  }

  /**
   * What heapify does to the buffer: while the node is larger than its
   * smallest child, exchange the two and continue from that child.
   */
  function SiftDown(s: seq<int>, off: int, n: int, i: int): (r: seq<int>)
    requires 0 <= off && 0 <= n && off + n <= |s| && 0 <= i
    ensures |r| == |s|
    decreases n - i
  {
    var c := Smallest(s, off, n, i);
    if c == i then s else SiftDown(Swapped(s, off + i, off + c), off, n, c)
  }

  /** One step of SiftDown: with a smaller child, exchange the node with it and go on from the child. */
  lemma SiftDownUnfold(s: seq<int>, off: int, n: int, i: int, c: int)
    requires 0 <= off && 0 <= n && off + n <= |s| && 0 <= i
    requires c == Smallest(s, off, n, i) && c != i
    ensures SiftDown(s, off, n, i) == SiftDown(Swapped(s, off + i, off + c), off, n, c)
  {
  }

  /** Relative index k is node i or lies below it: following parent links (k-1)/2 from k reaches i. */
  ghost predicate InSubtree(k: int, i: int)
    decreases k
  {
    k == i || (k > 0 && InSubtree((k - 1) / 2, i))
  }

  /** A node of i's subtree is never before i. */
  lemma {:induction false} SubtreeBelow(k: int, i: int)
    requires 0 <= i && InSubtree(k, i)
    ensures i <= k
    decreases k
  {
    if k != i {
      SubtreeBelow((k - 1) / 2, i);
    }
  }

  /** Every node of the subtree rooted at i is no larger than its children: that subtree is a min-heap. */
  ghost predicate SubtreeHeap(s: seq<int>, off: int, n: int, i: int)
    requires 0 <= off && off + n <= |s|
  {
    forall k :: 0 <= k < n && InSubtree(k, i) ==> NodeOrdered(s, off, n, k)
  }

  /** The value at relative index p is no larger than any child of `node` in the heap. */
  ghost predicate BelowChildren(s: seq<int>, off: int, n: int, p: int, node: int)
    requires 0 <= off && 0 <= p < n && 0 <= node && off + n <= |s|
  {
    (2 * node + 1 < n ==> s[off + p] <= s[off + 2 * node + 1]) &&
    (2 * node + 2 < n ==> s[off + p] <= s[off + 2 * node + 2])
  }

  /**
   * State of a sift-down started at relative index i and now at `node`, a
   * node of i's subtree: every node of that subtree except `node` is
   * ordered, and when `node` has moved below i, its parent is no larger
   * than its children.
   */
  ghost predicate Sifting(s: seq<int>, off: int, n: int, i: int, node: int, parent: int) {
    0 <= off && 0 <= n && off + n <= |s| && 0 <= i <= node && InSubtree(node, i) &&
    (forall k :: 0 <= k < n && InSubtree(k, i) && k != node ==> NodeOrdered(s, off, n, k)) &&
    (node > i ==> node < n && 0 <= parent && InSubtree(parent, i) &&
                  (node == 2 * parent + 1 || node == 2 * parent + 2) &&
                  BelowChildren(s, off, n, parent, node))
  }

  /** Sifting begins in this state when the subtrees below i are already min-heaps. */
  lemma SiftStart(s: seq<int>, off: int, n: int, i: int)
    requires 0 <= off && 0 <= n && off + n <= |s| && 0 <= i
    requires forall k :: 0 <= k < n && InSubtree(k, i) && k != i ==> NodeOrdered(s, off, n, k)
    ensures Sifting(s, off, n, i, i, i)
  {
  }

  /** A child of a node of i's subtree is in i's subtree. */
  lemma ChildInSubtree(i: int, node: int, c: int)
    requires 0 <= i <= node && InSubtree(node, i)
    requires c == 2 * node + 1 || c == 2 * node + 2
    ensures InSubtree(c, i)
  {
    assert (c - 1) / 2 == node;
  }

  /**
   * Exchanging `node` with its smaller child c, when that child is smaller
   * than `node`, moves the sift-down one level deeper.
   */
  lemma SiftStep(s: seq<int>, off: int, n: int, i: int, node: int, parent: int, c: int)
    requires Sifting(s, off, n, i, node, parent)
    requires c == 2 * node + 1 || c == 2 * node + 2
    requires c < n && s[off + c] < s[off + node]
    requires 2 * node + 1 < n ==> s[off + c] <= s[off + 2 * node + 1]
    requires 2 * node + 2 < n ==> s[off + c] <= s[off + 2 * node + 2]
    ensures Sifting(Swapped(s, off + node, off + c), off, n, i, c, node)
  {
    var t := Swapped(s, off + node, off + c);
    ChildInSubtree(i, node, c);
    assert NodeOrdered(s, off, n, c);
    forall k | 0 <= k < n && InSubtree(k, i) && k != c
      ensures NodeOrdered(t, off, n, k)
    {
      SubtreeBelow(k, i);
      if k == node {
      } else if node > i && k == parent {
        assert NodeOrdered(s, off, n, k);
        assert BelowChildren(s, off, n, k, node);
      } else {
        assert NodeOrdered(s, off, n, k);
        assert 2 * k + 1 != node && 2 * k + 2 != node;
        assert 2 * k + 1 != c && 2 * k + 2 != c;
      }
    }
  }

  /** Once `node` is no larger than its children, the sift-down is done. */
  lemma SiftDone(s: seq<int>, off: int, n: int, i: int, node: int, parent: int)
    requires Sifting(s, off, n, i, node, parent)
    requires node < n ==> NodeOrdered(s, off, n, node)
    ensures SubtreeHeap(s, off, n, i)
  {
  }

  /** From any sifting state, the rest of the sift-down makes i's subtree a min-heap. */
  lemma {:induction false} SiftDownSifts(s: seq<int>, off: int, n: int, i: int, node: int, parent: int)
    requires Sifting(s, off, n, i, node, parent)
    ensures SubtreeHeap(SiftDown(s, off, n, node), off, n, i)
    decreases n - node
  {
    var c := Smallest(s, off, n, node);
    if c == node {
      SiftDone(s, off, n, i, node, parent);
    } else {
      SiftStep(s, off, n, i, node, parent, c);
      SiftDownSifts(Swapped(s, off + node, off + c), off, n, i, c, node);
    }
  }

  /** A sift-down moving through i's subtree leaves every heap cell outside that subtree as it was. */
  lemma {:induction false} SiftDownFrame(s: seq<int>, off: int, n: int, i: int, node: int)
    requires 0 <= off && 0 <= n && off + n <= |s| && 0 <= i <= node && InSubtree(node, i)
    ensures forall k :: 0 <= k < n && !InSubtree(k, i) ==> SiftDown(s, off, n, node)[off + k] == s[off + k]
    decreases n - node
  {
    var c := Smallest(s, off, n, node);
    if c != node {
      ChildInSubtree(i, node, c);
      SiftDownFrame(Swapped(s, off + node, off + c), off, n, i, c);
    }
  }

  /**
   * heapify at i: when the subtrees under i's children are min-heaps, the
   * subtree rooted at i becomes one, and no heap cell outside it changes.
   */
  lemma SiftDownSubtree(s: seq<int>, off: int, n: int, i: int)
    requires 0 <= off && 0 <= n && off + n <= |s| && 0 <= i
    requires forall k :: 0 <= k < n && InSubtree(k, i) && k != i ==> NodeOrdered(s, off, n, k)
    ensures SubtreeHeap(SiftDown(s, off, n, i), off, n, i)
    ensures forall k :: 0 <= k < n && !InSubtree(k, i) ==> SiftDown(s, off, n, i)[off + k] == s[off + k]
  {
    SiftStart(s, off, n, i);
    SiftDownSifts(s, off, n, i, i, i);
    SiftDownFrame(s, off, n, i, i);
  }

  /** heapify at i turns "ordered after i" into "ordered from i", the form heapSort's loops use. */
  lemma SiftDownHeap(s: seq<int>, off: int, n: int, i: int)
    requires 0 <= off && 0 <= n && off + n <= |s| && 0 <= i
    requires HeapFrom(s, off, n, i + 1)
    ensures HeapFrom(SiftDown(s, off, n, i), off, n, i)
  {
    var r := SiftDown(s, off, n, i);
    forall k | 0 <= k < n && InSubtree(k, i) && k != i
      ensures NodeOrdered(s, off, n, k)
    {
      SubtreeBelow(k, i);
    }
    SiftDownSubtree(s, off, n, i);
    forall k | 0 <= k && i <= k < n
      ensures NodeOrdered(r, off, n, k)
    {
      if !InSubtree(k, i) {
        assert NodeOrdered(s, off, n, k);
        assert (2 * k + 1 - 1) / 2 == k && (2 * k + 2 - 1) / 2 == k;
        assert !InSubtree(2 * k + 1, i) && !InSubtree(2 * k + 2, i);
      }
    }
  }

  /** heapify only exchanges cells of the heap. */
  lemma {:induction false} SiftDownPermutes(s: seq<int>, off: int, n: int, i: int)
    requires 0 <= off && 0 <= n && off + n <= |s| && 0 <= i
    ensures PermutedWithin(SiftDown(s, off, n, i), s, off, off + n - 1)
    decreases n - i
  {
    var c := Smallest(s, off, n, i);
    if c != i {
      var t := Swapped(s, off + i, off + c);
      assert SiftDown(s, off, n, i) == SiftDown(t, off, n, c);
      SwapPermutes(s, off, off + n - 1, off + i, off + c);
      SiftDownPermutes(t, off, n, c);
      PermutedTrans(SiftDown(t, off, n, c), t, s, off, off + n - 1);
    }
  }

  /** The build phase of heapSort: heapify every node from i down to the root. */
  function BuildHeap(s: seq<int>, off: int, n: int, i: int): (r: seq<int>)
    requires 0 <= off && 0 <= n && off + n <= |s| && -1 <= i
    ensures |r| == |s|
    decreases i + 1
  {
    if i < 0 then s else BuildHeap(SiftDown(s, off, n, i), off, n, i - 1)
  }

  /** One round of BuildHeap, leaving the nodes up to `next`, one less than i. */
  lemma BuildHeapUnfold(s: seq<int>, off: int, n: int, i: int, next: int)
    requires 0 <= off && 0 <= n && off + n <= |s| && 0 <= i && next == i - 1
    ensures BuildHeap(s, off, n, i) == BuildHeap(SiftDown(s, off, n, i), off, n, next)
  {
  }

  /** The build phase yields a min-heap over the window and only rearranges it. */
  lemma {:induction false} BuildHeapBuilds(s: seq<int>, off: int, n: int, i: int)
    requires 0 <= off && 0 <= n && off + n <= |s| && -1 <= i
    requires HeapFrom(s, off, n, i + 1)
    ensures HeapFrom(BuildHeap(s, off, n, i), off, n, 0)
    ensures PermutedWithin(BuildHeap(s, off, n, i), s, off, off + n - 1)
    decreases i + 1
  {
    if i >= 0 {
      var t := SiftDown(s, off, n, i);
      SiftDownHeap(s, off, n, i);
      SiftDownPermutes(s, off, n, i);
      BuildHeapBuilds(t, off, n, i - 1);
      PermutedTrans(BuildHeap(t, off, n, i - 1), t, s, off, off + n - 1);
    }
  }

  /**
   * One round of heapSort's extraction loop with a heap of i+1 cells at
   * `off`: exchange the root with the last heap cell, then heapify the
   * remaining i cells from the root.
   */
  function ExtractOnce(s: seq<int>, off: int, i: int): (r: seq<int>)
    requires 0 <= off && 0 < i && off + i < |s|
    ensures |r| == |s|
  {
    SiftDown(Swapped(s, off, off + i), off, i, 0)
  }

  /**
   * The extraction phase of heapSort with a heap of i+1 cells left:
   * exchange the root with the last heap cell, heapify the remaining i
   * cells from the root, and repeat while more than one cell is left.
   */
  function ExtractAll(s: seq<int>, off: int, i: int): (r: seq<int>)
    requires 0 <= off && -1 <= i && off + i < |s|
    ensures |r| == |s|
    decreases i
  {
    if i <= 0 then s else ExtractAll(ExtractOnce(s, off, i), off, i - 1)
  }

  /** ExtractOnce sifts the root of the exchanged heap down. */
  lemma ExtractOnceAt(s: seq<int>, t: seq<int>, off: int, i: int)
    requires 0 <= off && 0 < i && off + i < |s| && t == Swapped(s, off, off + i)
    ensures SiftDown(t, off, i, 0) == ExtractOnce(s, off, i)
  {
  }

  /** One round of ExtractAll, leaving `next`, one less than i, rounds to go. */
  lemma ExtractAllUnfold(s: seq<int>, off: int, i: int, next: int)
    requires 0 <= off && 0 < i && off + i < |s| && next == i - 1
    ensures ExtractAll(s, off, i) == ExtractAll(ExtractOnce(s, off, i), off, next)
  {
  }

  /**
   * Extraction state with a heap of i+1 cells at `left`: the cells after
   * the heap up to `right` are sorted and no larger than any heap cell.
   */
  ghost predicate Extracting(s: seq<int>, left: int, right: int, i: int) {
    0 <= left && -1 <= i && left + i <= right < |s| &&
    HeapFrom(s, left, i + 1, 0) &&
    SortedWithin(s, left + i + 1, right) &&
    (left + i + 1 <= right ==> AllAtLeast(s, left, left + i, s[left + i + 1]))
  }

  /**
   * One extraction step keeps the extraction state: the root, the heap's
   * minimum, moves to the front of the sorted tail, and the rest is a heap
   * again after heapify.
   */
  lemma ExtractStep(s: seq<int>, u: seq<int>, left: int, right: int, i: int)
    requires Extracting(s, left, right, i) && i > 0
    requires PermutedWithin(u, Swapped(s, left, left + i), left, left + i - 1)
    requires HeapFrom(u, left, i, 0)
    ensures Extracting(u, left, right, i - 1)
  {
    var t := Swapped(s, left, left + i);
    forall k | left <= k <= left + i
      ensures s[k] >= s[left]
    {
      HeapRootIsMin(s, left, i + 1, k - left);
    }
    assert AllAtLeast(t, left, left + i - 1, s[left]);
    PermutedKeepsLowerBound(u, t, left, left + i - 1, s[left]);
  }

  /** A min-heap over the whole window is the starting extraction state. */
  lemma ExtractStart(s: seq<int>, left: int, right: int, n: int)
    requires 0 <= left <= right + 1 <= |s| && n == right - left + 1
    requires HeapFrom(s, left, n, 0)
    ensures Extracting(s, left, right, n - 1)
  {
  }

  /** With at most one heap cell left, the whole window is sorted. */
  lemma ExtractDone(s: seq<int>, left: int, right: int, i: int)
    requires Extracting(s, left, right, i) && i <= 0
    ensures SortedWithin(s, left, right)
  {
  }

  /** One extraction round keeps the extraction state and only rearranges the window. */
  lemma ExtractOnceKeeps(s: seq<int>, left: int, right: int, i: int)
    requires Extracting(s, left, right, i) && i > 0
    ensures Extracting(ExtractOnce(s, left, i), left, right, i - 1)
    ensures PermutedWithin(ExtractOnce(s, left, i), s, left, right)
  {
    var t := Swapped(s, left, left + i);
    var u := SiftDown(t, left, i, 0);
    HeapAfterExtract(s, left, i);
    SiftDownHeap(t, left, i, 0);
    SiftDownPermutes(t, left, i, 0);
    ExtractStep(s, u, left, right, i);
    SwapPermutes(s, left, right, left, left + i);
    PermutedWiden(u, t, left, left + i - 1, left, right);
    PermutedTrans(u, t, s, left, right);
  }

  /** The extraction phase sorts the window and only rearranges it. */
  lemma {:induction false} ExtractAllSorts(s: seq<int>, left: int, right: int, i: int)
    requires Extracting(s, left, right, i)
    ensures SortedWithin(ExtractAll(s, left, i), left, right)
    ensures PermutedWithin(ExtractAll(s, left, i), s, left, right)
    decreases i
  {
    if i > 0 {
      var u := ExtractOnce(s, left, i);
      ExtractOnceKeeps(s, left, right, i);
      ExtractAllSorts(u, left, right, i - 1);
      PermutedTrans(ExtractAll(u, left, i - 1), u, s, left, right);
    } else {
      ExtractDone(s, left, right, i);
    }
  }

  /** heapSort's build phase on the window [left, right]: heapify every internal node, last first. */
  function HeapBuilt(s: seq<int>, left: int, right: int): (r: seq<int>)
    requires 0 <= left <= right + 1 <= |s|
    ensures |r| == |s|
  {
    BuildHeap(s, left, right - left + 1, (right - left + 1) / 2 - 1)
  }

  /** What heapSort does to the window [left, right]: build a min-heap, then extract. */
  function HeapSorted(s: seq<int>, left: int, right: int): (r: seq<int>)
    requires 0 <= left <= right + 1 <= |s|
    ensures |r| == |s|
  {
    ExtractAll(HeapBuilt(s, left, right), left, right - left)
  }

  /** The build phase leaves a min-heap over the window, ready for extraction, and only rearranges it. */
  lemma BuildHeapReady(s: seq<int>, left: int, right: int)
    requires 0 <= left <= right + 1 <= |s|
    ensures Extracting(HeapBuilt(s, left, right), left, right, right - left)
    ensures PermutedWithin(HeapBuilt(s, left, right), s, left, right)
  {
    var n := right - left + 1;
    var t := BuildHeap(s, left, n, n / 2 - 1);
    LeavesOrdered(s, left, n);
    BuildHeapBuilds(s, left, n, n / 2 - 1);
    PermutedWiden(t, s, left, left + n - 1, left, right);
    ExtractStart(t, left, right, n);
  }

  /** heapSort leaves the window in descending order and only rearranges it. */
  lemma HeapSortedSorts(s: seq<int>, left: int, right: int)
    requires 0 <= left <= right + 1 <= |s|
    ensures SortedWithin(HeapSorted(s, left, right), left, right)
    ensures PermutedWithin(HeapSorted(s, left, right), s, left, right)
  {
    var t := HeapBuilt(s, left, right);
    BuildHeapReady(s, left, right);
    ExtractAllSorts(t, left, right, right - left);
    PermutedTrans(ExtractAll(t, left, right - left), t, s, left, right);
  }
}
