/**
 * Insertion sort of a window, descending: the functions say on sequences
 * what insertionSort does to the buffer, and the lemmas prove that the
 * result is a descending permutation of the window.
 */
module InsertionSpec {
  import opened SortSpec

  /**
   * The inner loop of insertionSort: scanning leftwards from j, move every
   * cell smaller than `key` one place to the right, and stop at the first
   * cell that is not smaller or at the left end of the window. The second
   * component is the index just before the gap left for `key`.
   */
  function ShiftRight(s: seq<int>, left: int, j: int, key: int): (r: (seq<int>, int))
    requires 0 <= left && left - 1 <= j && j + 1 < |s|
    ensures |r.0| == |s| && left - 1 <= r.1 <= j
    decreases j - left + 1
  {
    if j >= left && s[j] < key then ShiftRight(s[j + 1 := s[j]], left, j - 1, key) else (s, j)
  }

  /** The buffer once the inner loop has run from j and `key` is stored into the gap it left. */
  function Inserted(s: seq<int>, left: int, j: int, key: int): (r: seq<int>)
    requires 0 <= left && left - 1 <= j && j + 1 < |s|
    ensures |r| == |s|
  {
    var (t, g) := ShiftRight(s, left, j, key);
    t[g + 1 := key]
  }

  /**
   * The outer loop of insertionSort from position i on: insert each cell
   * of [i, right] in turn into the sorted prefix before it.
   */
  function InsertFrom(s: seq<int>, left: int, right: int, i: int): (r: seq<int>)
    requires 0 <= left < i && right < |s|
    ensures |r| == |s|
    decreases right + 1 - i
  {
    if i > right then s else InsertFrom(Inserted(s, left, i - 1, s[i]), left, right, i + 1)
  }

  /** What insertionSort does to the window [left, right]. */
  function InsertionSorted(s: seq<int>, left: int, right: int): (r: seq<int>)
    requires 0 <= left <= right + 1 <= |s|
    ensures |r| == |s|
  {
    InsertFrom(s, left, right, left + 1)
  }

  /**
   * State of the inner loop inserting `key` with the gap at j+1: the window
   * [left, i] is sorted once the gap is ignored, and every cell after the
   * gap up to i is smaller than `key`.
   */
  ghost predicate Shifting(s: seq<int>, left: int, i: int, j: int, key: int) {
    (forall p, q :: 0 <= left <= p < q <= i < |s| && p != j + 1 && q != j + 1 ==> s[p] >= s[q]) &&
    (forall q :: 0 <= j + 1 < q <= i < |s| ==> s[q] < key)
  }

  /**
   * Moving s[j], which is smaller than `key`, into the gap moves the gap one
   * place left; with `key` in the gap the window is still a permutation of
   * the original.
   */
  lemma ShiftStep(s: seq<int>, original: seq<int>, left: int, right: int, i: int, j: int, key: int)
    requires 0 <= left <= j < i <= right < |s| && s[j] < key
    requires Shifting(s, left, i, j, key)
    requires PermutedWithin(s[j + 1 := key], original, left, right)
    ensures Shifting(s[j + 1 := s[j]], left, i, j - 1, key)
    ensures PermutedWithin(s[j + 1 := s[j]][j := key], original, left, right)
  {
    var t := s[j + 1 := key];
    assert s[j + 1 := s[j]][j := key] == Swapped(t, j, j + 1);
    SwapPermutes(t, left, right, j, j + 1);
    PermutedTrans(Swapped(t, j, j + 1), t, original, left, right);
  }

  /** When the scan stops, putting `key` into the gap leaves [left, i] sorted. */
  lemma InsertKey(s: seq<int>, left: int, i: int, j: int, key: int)
    requires 0 <= left && left - 1 <= j < i < |s|
    requires Shifting(s, left, i, j, key)
    requires j >= left ==> s[j] >= key
    ensures SortedWithin(s[j + 1 := key], left, i)
  {
  }

  /** The inner loop inserts `key` so that [left, i] is sorted and a permutation. */
  lemma {:induction false} ShiftRightInserts(s: seq<int>, original: seq<int>, left: int, right: int, i: int, j: int, key: int)
    requires 0 <= left && left - 1 <= j < i <= right < |s|
    requires Shifting(s, left, i, j, key)
    requires PermutedWithin(s[j + 1 := key], original, left, right)
    ensures SortedWithin(Inserted(s, left, j, key), left, i)
    ensures PermutedWithin(Inserted(s, left, j, key), original, left, right)
    decreases j - left + 1
  {
    if j >= left && s[j] < key {
      var s' := s[j + 1 := s[j]];
      assert Inserted(s, left, j, key) == Inserted(s', left, j - 1, key);
      ShiftStep(s, original, left, right, i, j, key);
      assert s'[j := key] == s'[(j - 1) + 1 := key];
      ShiftRightInserts(s', original, left, right, i, j - 1, key);
    } else {
      assert Inserted(s, left, j, key) == s[j + 1 := key];
      InsertKey(s, left, i, j, key);
    }
  }

  /** One round of the outer loop extends the sorted prefix by one cell and only rearranges the window. */
  lemma InsertedSorts(s: seq<int>, left: int, right: int, i: int)
    requires 0 <= left < i <= right < |s|
    requires SortedWithin(s, left, i - 1)
    ensures SortedWithin(Inserted(s, left, i - 1, s[i]), left, i)
    ensures PermutedWithin(Inserted(s, left, i - 1, s[i]), s, left, right)
  {
    assert s[i := s[i]] == s;
    ShiftRightInserts(s, s, left, right, i, i - 1, s[i]);
  }

  /** With [left, i-1] sorted, the rest of the outer loop sorts and permutes [left, right]. */
  lemma {:induction false} InsertFromSorts(s: seq<int>, left: int, right: int, i: int)
    requires 0 <= left < i && right < |s| && (i <= right + 1 || right < left)
    requires SortedWithin(s, left, i - 1)
    ensures SortedWithin(InsertFrom(s, left, right, i), left, right)
    ensures PermutedWithin(InsertFrom(s, left, right, i), s, left, right)
    decreases right + 1 - i
  {
    if i <= right {
      var u := Inserted(s, left, i - 1, s[i]);
      InsertedSorts(s, left, right, i);
      InsertFromSorts(u, left, right, i + 1);
      PermutedTrans(InsertFrom(u, left, right, i + 1), u, s, left, right);
    } else {
      forall p, q | 0 <= left <= p < q <= right < |s| ensures s[p] >= s[q] {
        assert q <= i - 1;
      }
    }
  }

  /** insertionSort leaves the window in descending order and only rearranges it. */
  lemma InsertionSortedSorts(s: seq<int>, left: int, right: int)
    requires 0 <= left <= right + 1 <= |s|
    ensures SortedWithin(InsertionSorted(s, left, right), left, right)
    ensures PermutedWithin(InsertionSorted(s, left, right), s, left, right)
  {
    InsertFromSorts(s, left, right, left + 1);
  }
}
