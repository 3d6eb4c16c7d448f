/** numpy's `searchsorted(a, x)` with the default left side: the binary
    search numpy runs, which on sorted input finds the first position whose
    element is not below `x`. */
module SearchSorted {

  predicate Sorted(a: seq<real>) {
    forall i, j :: 0 <= i <= j < |a| ==> a[i] <= a[j]
  }

  /** `i` splits `a` into the elements below `x` and those at or above it. */
  predicate LeftInsertion(a: seq<real>, x: real, i: int) {
    && 0 <= i <= |a|
    && (forall k :: 0 <= k < i ==> a[k] < x)
    && (forall k :: i <= k < |a| ==> x <= a[k])
  }

  /** The search loop over the window `lo..hi`, halving it each step. */
  function Bisect(a: seq<real>, x: real, lo: nat, hi: nat): (r: nat)
    requires lo <= hi <= |a|
    ensures lo <= r <= hi
    ensures Sorted(a) ==>
      (forall k :: lo <= k < r ==> a[k] < x) && (forall k :: r <= k < hi ==> x <= a[k])
    decreases hi - lo
  {
    if lo == hi then lo
    else
      var mid := lo + (hi - lo) / 2;
      if a[mid] < x then Bisect(a, x, mid + 1, hi) else Bisect(a, x, lo, mid)
  }

  /** `np.searchsorted(a, x)`. */
  function SearchLeft(a: seq<real>, x: real): (r: nat)
    ensures r <= |a|
    ensures Sorted(a) ==> LeftInsertion(a, x, r)
  {
    Bisect(a, x, 0, |a|)
  }

  /** The same search as a loop. */
  method Search(a: seq<real>, x: real) returns (idx: nat)
    ensures idx <= |a|
    ensures idx == SearchLeft(a, x)
    ensures Sorted(a) ==> LeftInsertion(a, x, idx)
  {
    var lo, hi := 0, |a|;
    while lo < hi
      invariant 0 <= lo <= hi <= |a|
      invariant Bisect(a, x, lo, hi) == Bisect(a, x, 0, |a|)
      invariant Sorted(a) ==> (forall k :: 0 <= k < lo ==> a[k] < x)
      invariant Sorted(a) ==> (forall k :: hi <= k < |a| ==> x <= a[k])
      decreases hi - lo
    {
      var mid := lo + (hi - lo) / 2;
      if a[mid] < x {
        lo := mid + 1;
      } else {
        hi := mid;
      }
    }
    idx := lo;
  }

  /** The split position is unique, so on sorted input the search result is
      the only correct answer. */
  lemma LeftInsertionUnique(a: seq<real>, x: real, i: int, j: int)
    requires LeftInsertion(a, x, i) && LeftInsertion(a, x, j)
    ensures i == j
  {
    if i < |a| {
      assert (i < j) == (a[i] < x);
    }
    if j < |a| {
      assert (j < i) == (a[j] < x);
    }
  }

  /** Two searches over sorted stamps bound exactly the samples with
      `start <= t < end`: the positions from the first result up to the
      second are those samples and no others, and the first result does not
      pass the second when `start <= end`. */
  lemma SearchWindow(a: seq<real>, start: real, end: real)
    requires Sorted(a)
    ensures start <= end ==> SearchLeft(a, start) <= SearchLeft(a, end)
    ensures end < start ==> SearchLeft(a, end) <= SearchLeft(a, start)
    ensures forall k :: 0 <= k < |a| ==>
      (SearchLeft(a, start) <= k < SearchLeft(a, end) <==> start <= a[k] < end)
  {
    var lo, hi := SearchLeft(a, start), SearchLeft(a, end);
    if lo < |a| {
      assert start <= a[lo];
    }
    if hi < |a| {
      assert end <= a[hi];
    }
  }
}
