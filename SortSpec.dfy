/**
 * Specification vocabulary shared by every routine of the sorter: windows
 * are inclusive index ranges [lo, hi] of one buffer, as in the C code, and
 * a routine "permutes a window" when it leaves every cell outside the window
 * alone and keeps the buffer's multiset of values.
 */
module SortSpec {

  /** Every pair of positions in the inclusive window [lo, hi] is in non-increasing order. */
  ghost predicate SortedWithin(s: seq<int>, lo: int, hi: int) {
    forall i, j :: 0 <= lo <= i < j <= hi < |s| ==> s[i] >= s[j]
  }

  /** The whole sequence is in non-increasing (descending) order. */
  ghost predicate NonIncreasing(s: seq<int>) {
    forall i, j :: 0 <= i < j < |s| ==> s[i] >= s[j]
  }

  /**
   * `s` is `t` with the inclusive window [lo, hi] rearranged: same length,
   * same multiset of values, and equal outside the window.
   */
  ghost predicate PermutedWithin(s: seq<int>, t: seq<int>, lo: int, hi: int) {
    |s| == |t| && multiset(s) == multiset(t) &&
    forall k :: 0 <= k < |s| && !(lo <= k <= hi) ==> s[k] == t[k]
  }

  /** `r` is `s` with the window [lo, hi] rearranged into non-increasing order. */
  ghost predicate SortedPermutation(r: seq<int>, s: seq<int>, lo: int, hi: int) {
    SortedWithin(r, lo, hi) && PermutedWithin(r, s, lo, hi)
  }

  /** Every value in the window [lo, hi] of `s` is at least `v`. */
  ghost predicate AllAtLeast(s: seq<int>, lo: int, hi: int, v: int) {
    forall k :: 0 <= lo <= k <= hi < |s| ==> s[k] >= v
  }

  /** Every value in the window [lo, hi] of `s` is at most `v`. */
  ghost predicate AllAtMost(s: seq<int>, lo: int, hi: int, v: int) {
    forall k :: 0 <= lo <= k <= hi < |s| ==> s[k] <= v
  }

  /** `s` with the values at i and j exchanged. */
  function Swapped(s: seq<int>, i: int, j: int): (r: seq<int>)
    requires 0 <= i < |s| && 0 <= j < |s|
    ensures |r| == |s|
  {
    s[i := s[j]][j := s[i]]
  }

  /** Exchanging two cells of a window permutes that window. */
  lemma SwapPermutes(s: seq<int>, lo: int, hi: int, i: int, j: int)
    requires lo <= i <= hi && lo <= j <= hi && 0 <= i < |s| && 0 <= j < |s|
    ensures PermutedWithin(Swapped(s, i, j), s, lo, hi)
  {
  }

  /** Two permutations of the same window compose into one. */
  lemma PermutedTrans(s: seq<int>, t: seq<int>, u: seq<int>, lo: int, hi: int)
    requires PermutedWithin(s, t, lo, hi) && PermutedWithin(t, u, lo, hi)
    ensures PermutedWithin(s, u, lo, hi)
  {
  }

  /** A permutation of a window is also a permutation of any window around it. */
  lemma PermutedWiden(s: seq<int>, t: seq<int>, lo: int, hi: int, lo': int, hi': int)
    requires PermutedWithin(s, t, lo, hi)
    requires lo' <= lo && hi <= hi'
    ensures PermutedWithin(s, t, lo', hi')
  {
  }

  /** A sequence's multiset is its window's multiset plus that of the cells on either side. */
  lemma MultisetAroundWindow(s: seq<int>, lo: int, hi: int)
    requires 0 <= lo <= hi + 1 <= |s|
    ensures multiset(s) == multiset(s[lo..hi + 1]) + (multiset(s[..lo]) + multiset(s[hi + 1..]))
  {
    assert s == s[..lo] + s[lo..hi + 1] + s[hi + 1..];
  }

  /** Multiset union cancels on the right. */
  lemma UnionCancel(x: multiset<int>, y: multiset<int>, m: multiset<int>)
    requires x + m == y + m
    ensures x == y
  {
    assert x == (x + m) - m;
  }

  /** A window permutation keeps the window's own multiset, not only the whole buffer's. */
  lemma WindowMultiset(s: seq<int>, t: seq<int>, lo: int, hi: int)
    requires 0 <= lo <= hi + 1 <= |s|
    requires PermutedWithin(s, t, lo, hi)
    ensures multiset(s[lo..hi + 1]) == multiset(t[lo..hi + 1])
  {
    assert s[..lo] == t[..lo];
    assert s[hi + 1..] == t[hi + 1..];
    MultisetAroundWindow(s, lo, hi);
    MultisetAroundWindow(t, lo, hi);
    UnionCancel(multiset(s[lo..hi + 1]), multiset(t[lo..hi + 1]), multiset(s[..lo]) + multiset(s[hi + 1..]));
  }

  /** Every value inside a permuted window came from that window. */
  lemma WindowValueFrom(s: seq<int>, t: seq<int>, lo: int, hi: int, k: int) returns (k': int)
    requires 0 <= lo <= k <= hi < |s|
    requires PermutedWithin(s, t, lo, hi)
    ensures lo <= k' <= hi && s[k] == t[k']
  {
    WindowMultiset(s, t, lo, hi);
    assert s[lo..hi + 1][k - lo] == s[k];
    assert s[k] in multiset(t[lo..hi + 1]);
    var d :| 0 <= d < hi + 1 - lo && t[lo..hi + 1][d] == s[k];
    k' := lo + d;
  }

  /** A lower bound on a window survives any permutation of that window. */
  lemma PermutedKeepsLowerBound(s: seq<int>, t: seq<int>, lo: int, hi: int, v: int)
    requires 0 <= lo <= hi + 1 <= |s|
    requires PermutedWithin(s, t, lo, hi)
    requires AllAtLeast(t, lo, hi, v)
    ensures AllAtLeast(s, lo, hi, v)
  {
    forall k | lo <= k <= hi
      ensures s[k] >= v
    {
      var k' := WindowValueFrom(s, t, lo, hi, k);
    }
  }

  /** An upper bound on a window survives any permutation of that window. */
  lemma PermutedKeepsUpperBound(s: seq<int>, t: seq<int>, lo: int, hi: int, v: int)
    requires 0 <= lo <= hi + 1 <= |s|
    requires PermutedWithin(s, t, lo, hi)
    requires AllAtMost(t, lo, hi, v)
    ensures AllAtMost(s, lo, hi, v)
  {
    forall k | lo <= k <= hi
      ensures s[k] <= v
    {
      var k' := WindowValueFrom(s, t, lo, hi, k);
    }
  }

  /**
   * There is only one non-increasing arrangement of a multiset: two
   * descending sequences with the same values are equal.
   */
  lemma {:induction false} SortedUnique(s: seq<int>, t: seq<int>)
    requires NonIncreasing(s) && NonIncreasing(t)
    requires multiset(s) == multiset(t)
    ensures s == t
  {
    assert |s| == |multiset(s)| == |multiset(t)| == |t|;
    if |s| > 0 {
      assert s[0] in multiset(t) && t[0] in multiset(s);
      assert s[0] >= t[0] && t[0] >= s[0];
      MultisetTail(s);
      MultisetTail(t);
      UnionCancel(multiset(s[1..]), multiset(t[1..]), multiset{s[0]});
      SortedUnique(s[1..], t[1..]);
      assert s == [s[0]] + s[1..] && t == [t[0]] + t[1..];
    }
  }

  /** A non-empty sequence's multiset is its tail's plus its head. */
  lemma MultisetTail(s: seq<int>)
    requires |s| > 0
    ensures multiset(s) == multiset(s[1..]) + multiset{s[0]}
  {
    assert s == [s[0]] + s[1..];
  }

  /**
   * A window has exactly one sorted rearrangement: any two results that
   * sort and permute the same window of `s` are the same sequence.
   */
  lemma SortedWindowUnique(r1: seq<int>, r2: seq<int>, s: seq<int>, lo: int, hi: int)
    requires 0 <= lo <= hi + 1 <= |s|
    requires PermutedWithin(r1, s, lo, hi) && SortedWithin(r1, lo, hi)
    requires PermutedWithin(r2, s, lo, hi) && SortedWithin(r2, lo, hi)
    ensures r1 == r2
  {
    WindowMultiset(r1, s, lo, hi);
    WindowMultiset(r2, s, lo, hi);
    var w1, w2 := r1[lo..hi + 1], r2[lo..hi + 1];
    assert NonIncreasing(w1) by {
      forall i, j | 0 <= i < j < |w1| ensures w1[i] >= w1[j] {
        assert w1[i] == r1[lo + i] && w1[j] == r1[lo + j];
      }
    }
    assert NonIncreasing(w2) by {
      forall i, j | 0 <= i < j < |w2| ensures w2[i] >= w2[j] {
        assert w2[i] == r2[lo + i] && w2[j] == r2[lo + j];
      }
    }
    SortedUnique(w1, w2);
    forall k | 0 <= k < |r1|
      ensures r1[k] == r2[k]
    {
      if lo <= k <= hi {
        assert r1[k] == w1[k - lo] && r2[k] == w2[k - lo];
      }
    }
  }
}
