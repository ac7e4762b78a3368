/** In-place partition-exchange sort (Hoare-style partition around the
    value at the midpoint of the range), on an array of integers. */
module QuickSort {
  import opened Ordering

  /** Exchanges the cells `i` and `j` of `a`. */
  method Exchange(a: array<int>, i: int, j: int)
    requires 0 <= i < a.Length && 0 <= j < a.Length
    modifies a
    ensures a[..] == Swap(old(a[..]), i, j)
  {
    a[i], a[j] := a[j], a[i];
  }

  /** One partition pass over `a[lo..hi]` around the value found at
      `(lo + hi) / 2` when the pass starts. The two cursors scan towards each
      other with strict comparisons and exchange cells until they cross.
      Division by 2 of a non-negative number rounds down, as Python's `//`. */
  method Partition(a: array<int>, lo: int, hi: int) returns (i: int, j: int)
    requires 0 <= lo < hi < a.Length
    modifies a
    ensures lo < i <= hi + 1 && lo - 1 <= j < hi && j < i
    ensures forall k :: lo <= k < i ==> a[k] <= old(a[(lo + hi) / 2])
    ensures forall k :: j < k <= hi ==> old(a[(lo + hi) / 2]) <= a[k]
    ensures multiset(a[..]) == old(multiset(a[..]))
    ensures forall k :: 0 <= k < a.Length && (k < lo || hi < k) ==> a[k] == old(a[k])
  {
    var mid := (lo + hi) / 2;
    var pivot := a[mid];
    i, j := lo, hi;
    while i <= j
      invariant lo <= i <= hi + 1 && lo - 1 <= j <= hi
      invariant forall k :: lo <= k < i ==> a[k] <= pivot
      invariant forall k :: j < k <= hi ==> pivot <= a[k]
      // Before the first exchange the pivot cell is untouched; after it,
      // both cursors have moved past the ends of the range.
      invariant (i == lo && j == hi && a[mid] == pivot) || (lo < i && j < hi)
      invariant multiset(a[..]) == old(multiset(a[..]))
      invariant forall k :: 0 <= k < a.Length && (k < lo || hi < k) ==> a[k] == old(a[k])
      decreases j - i + 1
    {
      // A cell no smaller than the pivot lies at or after `i`: the pivot
      // itself before the first exchange, the cell just right of `j` after it.
      ghost var first := i == lo && j == hi;
      ghost var stopRight := if first then mid else j + 1;
      while a[i] < pivot
        invariant lo <= i <= stopRight <= hi && pivot <= a[stopRight]
        invariant forall k :: lo <= k < i ==> a[k] <= pivot
        decreases stopRight - i
      {
        i := i + 1;
      }
      // Symmetrically, a cell no larger than the pivot lies at or before `j`.
      ghost var stopLeft := if first then mid else i - 1;
      assert lo <= stopLeft <= j && a[stopLeft] <= pivot;
      while a[j] > pivot
        invariant lo <= stopLeft <= j <= hi && a[stopLeft] <= pivot
        invariant forall k :: j < k <= hi ==> pivot <= a[k]
        decreases j - stopLeft
      {
        j := j - 1;
      }
      if i <= j {
        Exchange(a, i, j);
        i := i + 1;
        j := j - 1;
      }
    }
  }

  /** Sorts `a[lo..hi]` in place; a range of at most one cell is left as is. */
  method QuickSortRange(a: array<int>, lo: int, hi: int)
    requires 0 <= lo && hi < a.Length
    modifies a
    ensures forall p, q :: lo <= p < q <= hi ==> a[p] <= a[q]
    ensures multiset(a[..]) == old(multiset(a[..]))
    ensures forall k :: 0 <= k < a.Length && (k < lo || hi < k) ==> a[k] == old(a[k])
    ensures lo >= hi ==> a[..] == old(a[..])
    decreases hi - lo
  {
    if lo >= hi {
      return;
    }
    ghost var initial := a[..];
    ghost var pivot := a[(lo + hi) / 2];
    var i, j := Partition(a, lo, hi);
    ghost var parted := a[..];
    if lo < j {
      QuickSortRange(a, lo, j);
    }
    ghost var leftDone := a[..];
    if i < hi {
      QuickSortRange(a, i, hi);
    }
    SortedAfterCalls(initial, parted, leftDone, a[..], lo, j, i, hi, pivot);
  }

  /** Cells `lo` to `hi` of `t` are cells `lo` to `hi` of `s` rearranged, and
      every other cell is the same in both. */
  ghost predicate RangeShuffled(s: seq<int>, t: seq<int>, lo: int, hi: int) {
    |t| == |s| && multiset(t) == multiset(s)
    && forall k :: 0 <= k < |s| && (k < lo || hi < k) ==> t[k] == s[k]
  }

  /** The recursion step: a partition of `[lo, hi]` around `pivot` that ends
      with the cursors at `j < i`, followed by sorting `[lo, j]` and then
      `[i, hi]`, sorts `[lo, hi]`. */
  lemma SortedAfterCalls(initial: seq<int>, parted: seq<int>, leftDone: seq<int>, done: seq<int>,
                         lo: int, j: int, i: int, hi: int, pivot: int)
    requires 0 <= lo < i <= hi + 1 && lo - 1 <= j < hi && j < i && hi < |initial|
    requires RangeShuffled(initial, parted, lo, hi)
    requires forall k :: lo <= k < i ==> parted[k] <= pivot
    requires forall k :: j < k <= hi ==> pivot <= parted[k]
    requires RangeShuffled(parted, leftDone, lo, j)
    requires forall p, q :: lo <= p < q <= j ==> leftDone[p] <= leftDone[q]
    requires RangeShuffled(leftDone, done, i, hi)
    requires forall p, q :: i <= p < q <= hi ==> done[p] <= done[q]
    ensures RangeShuffled(initial, done, lo, hi)
    ensures forall p, q :: lo <= p < q <= hi ==> done[p] <= done[q]
  {
    if lo <= j {
      CallKeepsBound(parted, leftDone, lo, j, lo, i, pivot, true);
    }
    if i <= hi {
      CallKeepsBound(leftDone, done, i, hi, j + 1, hi + 1, pivot, false);
    }
    JoinAroundPivot(done, lo, j, i, hi, pivot);
  }

  /** A call that permutes the cells of `[l, h]` among themselves keeps every
      cell of an enclosing range `[lo, top)` on the same side of `x`. */
  lemma CallKeepsBound(before: seq<int>, after: seq<int>, l: int, h: int,
                       lo: int, top: int, x: int, below: bool)
    requires |after| == |before| && 0 <= lo <= l <= h < top <= |before|
    requires multiset(after) == multiset(before)
    requires forall k :: 0 <= k < |before| && (k < l || h < k) ==> after[k] == before[k]
    requires forall k :: lo <= k < top ==> if below then before[k] <= x else x <= before[k]
    ensures forall k :: lo <= k < top ==> if below then after[k] <= x else x <= after[k]
  {
    RangePerm(after, before, l, h);
    if below {
      AllAtMost(after[l..h + 1], before[l..h + 1], x);
    } else {
      AllAtLeast(after[l..h + 1], before[l..h + 1], x);
    }
    forall k | l <= k <= h
      ensures if below then after[k] <= x else x <= after[k]
    {
      assert after[k] == after[l..h + 1][k - l];
    }
  }

  /** Two sorted ranges, the left one no larger and the right one no smaller
      than the pivot, with every cell between them equal to the pivot, make
      one sorted range. */
  lemma JoinAroundPivot(s: seq<int>, lo: int, j: int, i: int, hi: int, pivot: int)
    requires 0 <= lo && hi < |s| && lo - 1 <= j < i <= hi + 1
    requires forall p, q :: lo <= p < q <= j ==> s[p] <= s[q]
    requires forall p, q :: i <= p < q <= hi ==> s[p] <= s[q]
    requires forall k :: lo <= k < i ==> s[k] <= pivot
    requires forall k :: j < k <= hi ==> pivot <= s[k]
    ensures forall p, q :: lo <= p < q <= hi ==> s[p] <= s[q]
  {
  }

  /** Sorts the whole array, calling the range sort only on a non-empty
      array, as `run` does. */
  method QuickSortAll(a: array<int>)
    modifies a
    ensures Sorted(a[..])
    ensures multiset(a[..]) == old(multiset(a[..]))
    ensures a.Length <= 1 ==> a[..] == old(a[..])
    ensures Sorted(old(a[..])) ==> a[..] == old(a[..])
  {
    if a.Length > 0 {
      QuickSortRange(a, 0, a.Length - 1);
    }
    if Sorted(old(a[..])) {
      SortedUnique(a[..], old(a[..]));
    }
  }
}
