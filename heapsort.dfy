/** In-place heap sort over an implicit binary max-heap: the children of
    cell `k` are the cells `2k + 1` and `2k + 2`. */
module HeapSort {
  import opened Ordering

  /** The parent of cell `c > 0`. */
  function Parent(c: int): int { (c - 1) / 2 }

  /** Max-heap order among the cells `[0, end]` for every parent at index
      `lo` or above: no child exceeds its parent. */
  ghost predicate HeapFrom(s: seq<int>, lo: int, end: int)
    requires end < |s|
  {
    forall c {:trigger s[Parent(c)]} :: 1 <= c <= end && lo <= Parent(c) ==> s[c] <= s[Parent(c)]
  }

  /** As `HeapFrom`, except that the children of `hole` may exceed it. */
  ghost predicate HeapExcept(s: seq<int>, lo: int, end: int, hole: int)
    requires end < |s|
  {
    forall c {:trigger s[Parent(c)]} :: 1 <= c <= end && lo <= Parent(c) && Parent(c) != hole ==> s[c] <= s[Parent(c)]
  }

  /** The child that the sift compares with `root`: the left child, or the
      right one when it exists within `end` and is strictly greater. */
  function LargerChild(s: seq<int>, root: int, end: int): (c: int)
    requires 0 <= root && 2 * root + 1 <= end < |s|
    ensures c == 2 * root + 1 || c == 2 * root + 2
    ensures c <= end && Parent(c) == root
    ensures forall d :: 2 * root + 1 <= d <= 2 * root + 2 && d <= end ==> s[d] <= s[c]
    ensures c == 2 * root + 2 <==> 2 * root + 2 <= end && s[2 * root + 1] < s[2 * root + 2]
  {
    var child := 2 * root + 1;
    if child + 1 <= end && s[child] < s[child + 1] then child + 1 else child
  }

  /** The sequence after sifting the value at `root` down within `[0, end]`:
      while `root` has a child within `end` and the larger child exceeds it,
      the two are exchanged and the sift goes on from the child. The sift
      only exchanges cells of `[root, end]`: it permutes them and leaves
      every other cell in place. */
  function SiftedFrom(s: seq<int>, root: int, end: int): (r: seq<int>)
    requires 0 <= root && end < |s|
    ensures |r| == |s| && multiset(r) == multiset(s)
    ensures forall k :: 0 <= k < |s| && (k < root || end < k) ==> r[k] == s[k]
    decreases end - root
  {
    var child := 2 * root + 1;
    if child > end then s
    else
      var c := LargerChild(s, root, end);
      if s[root] < s[c] then SiftedFrom(Swap(s, root, c), c, end) else s
  }

  /** Sifting restores the heap order: if every parent of `[lo, end]` except
      `root` is in heap order, and the parent of `root` (when `root > lo`)
      dominates the children of `root`, then after the sift every parent of
      `[lo, end]` is in heap order. */
  lemma {:induction false} SiftedFromRestores(s: seq<int>, lo: int, root: int, end: int)
    requires 0 <= lo <= root && end < |s|
    requires HeapExcept(s, lo, end, root)
    requires root > lo ==> forall c :: 1 <= c <= end && Parent(c) == root ==> s[c] <= s[Parent(root)]
    ensures HeapFrom(SiftedFrom(s, root, end), lo, end)
    decreases end - root
  {
    var child := 2 * root + 1;
    if child > end {
      return;
    }
    var c := LargerChild(s, root, end);
    if s[root] < s[c] {
      var t := Swap(s, root, c);
      forall d | 1 <= d <= end && lo <= Parent(d) && Parent(d) != c
        ensures t[d] <= t[Parent(d)]
      {
        if Parent(d) == root {
          assert d == c || t[d] == s[d];
        } else if d == root {
          assert t[d] == s[c];
        }
      }
      SiftedFromRestores(t, lo, c, end);
    }
  }

  /** A sift from `start` over a range whose parents above `start` are in
      heap order leaves every parent of `[start, end]` in heap order. */
  lemma {:induction false} SiftedFromHeap(s: seq<int>, start: int, end: int)
    requires 0 <= start && end < |s|
    requires HeapFrom(s, start + 1, end)
    ensures HeapFrom(SiftedFrom(s, start, end), start, end)
  {
    SiftedFromRestores(s, start, start, end);
  }

  /** The root of a heap over `[0, end]` is its largest cell. */
  lemma {:induction false} HeapRootIsMax(s: seq<int>, end: int, k: int)
    requires 0 <= k <= end < |s|
    requires HeapFrom(s, 0, end)
    ensures s[k] <= s[0]
    decreases k
  {
    if k > 0 {
      HeapRootIsMax(s, end, Parent(k));
    }
  }

  /** `_sift_down(a, start, end)`: the loop that moves the value at `start`
      down the heap, exchanging it with its larger child while that child is
      greater. */
  method SiftDown(a: array<int>, start: int, end: int)
    requires 0 <= start && end < a.Length
    modifies a
    ensures a[..] == SiftedFrom(old(a[..]), start, end)
  {
    var root := start;
    while true
      invariant start <= root
      invariant SiftedFrom(a[..], root, end) == SiftedFrom(old(a[..]), start, end)
      decreases a.Length - root
    {
      var child := 2 * root + 1;
      if child > end {
        break;
      }
      if child + 1 <= end && a[child] < a[child + 1] {
        child := child + 1;
      }
      assert child == LargerChild(a[..], root, end);
      if a[root] < a[child] {
        a[root], a[child] := a[child], a[root];
        root := child;
      } else {
        break;
      }
    }
  }

  /** Cells `(n - 2) / 2 + 1` and above have no child within `[0, n - 1]`,
      so the heap order holds among them before anything is sifted. */
  lemma {:induction false} LeavesAreHeaps(s: seq<int>, n: int)
    requires n == |s|
    ensures HeapFrom(s, (n - 2) / 2 + 1, n - 1)
  {
    forall c | 1 <= c <= n - 1 ensures Parent(c) < (n - 2) / 2 + 1 {
      assert (c - 1) / 2 <= (n - 2) / 2;
    }
  }

  /** The cells after `end` are in non-decreasing order. */
  ghost predicate SortedAbove(s: seq<int>, end: int) {
    forall p, q :: 0 <= p && end < p < q < |s| ==> s[p] <= s[q]
  }

  /** No cell of `[0, end]` exceeds a cell after `end`. */
  ghost predicate Dominated(s: seq<int>, end: int) {
    forall p, q :: 0 <= p <= end < q < |s| ==> s[p] <= s[q]
  }

  /** The first half of an extraction round: exchanging the root, the
      largest cell of the heap `[0, end]`, with cell `end` grows the sorted
      suffix by one cell, which dominates the cells before it, and leaves the
      heap order among the parents of `[1, end - 1]`. */
  lemma {:induction false} RootToEnd(before: seq<int>, end: int)
    requires 1 <= end < |before|
    requires HeapFrom(before, 0, end) && SortedAbove(before, end) && Dominated(before, end)
    ensures HeapFrom(Swap(before, end, 0), 1, end - 1)
    ensures SortedAbove(Swap(before, end, 0), end - 1)
    ensures Dominated(Swap(before, end, 0), end - 1)
  {
    var swapped := Swap(before, end, 0);
    forall k | 0 <= k <= end ensures before[k] <= before[0] {
      HeapRootIsMax(before, end, k);
    }
    assert forall p :: 0 <= p <= end - 1 ==> swapped[p] <= swapped[end];
  }

  /** The second half of an extraction round: sifting the new root down over
      `[0, end]` makes that range a heap and keeps it dominated by the sorted
      suffix after `end`. */
  lemma {:induction false} SiftKeepsSuffix(s: seq<int>, end: int)
    requires 0 <= end < |s| - 1
    requires HeapFrom(s, 1, end) && SortedAbove(s, end) && Dominated(s, end)
    ensures HeapFrom(SiftedFrom(s, 0, end), 0, end)
    ensures SortedAbove(SiftedFrom(s, 0, end), end)
    ensures Dominated(SiftedFrom(s, 0, end), end)
  {
    var after := SiftedFrom(s, 0, end);
    SiftedFromHeap(s, 0, end);
    RangePerm(after, s, 0, end);
    AllAtMost(after[..end + 1], s[..end + 1], s[end + 1]);
    forall p, q | 0 <= p <= end < q < |after| ensures after[p] <= after[q] {
      assert after[p] == after[..end + 1][p];
    }
  }

  /** One round of the extraction loop. */
  lemma {:induction false} ExtractStep(before: seq<int>, end: int)
    requires 1 <= end < |before|
    requires HeapFrom(before, 0, end) && SortedAbove(before, end) && Dominated(before, end)
    ensures HeapFrom(SiftedFrom(Swap(before, end, 0), 0, end - 1), 0, end - 1)
    ensures SortedAbove(SiftedFrom(Swap(before, end, 0), 0, end - 1), end - 1)
    ensures Dominated(SiftedFrom(Swap(before, end, 0), 0, end - 1), end - 1)
    ensures multiset(SiftedFrom(Swap(before, end, 0), 0, end - 1)) == multiset(before)
  {
    RootToEnd(before, end);
    SiftKeepsSuffix(Swap(before, end, 0), end - 1);
  }

  /** When the heap has shrunk to at most one cell, the array is sorted. */
  lemma {:induction false} ExtractDone(s: seq<int>, end: int)
    requires end <= 0 && SortedAbove(s, end) && Dominated(s, end)
    ensures Sorted(s)
  {
  }

  /** One round of the build loop: sifting from `start` extends the heap
      order from the parents above `start` to `start` itself. */
  lemma {:induction false} BuildStep(before: seq<int>, start: int, end: int)
    requires 0 <= start <= end < |before|
    requires HeapFrom(before, start + 1, end)
    ensures HeapFrom(SiftedFrom(before, start, end), start, end)
    ensures multiset(SiftedFrom(before, start, end)) == multiset(before)
  {
    SiftedFromHeap(before, start, end);
  }

  /** The first loop of `heapsort_inplace(a)`: sift every parent, from the
      last one, `(n - 2) / 2`, down to the root, which turns the whole array
      into a max-heap. The `/` of Dafny rounds down for a positive divisor,
      as Python's `//` does. */
  method BuildHeap(a: array<int>)
    modifies a
    ensures HeapFrom(a[..], 0, a.Length - 1)
    ensures multiset(a[..]) == old(multiset(a[..]))
  {
    var n := a.Length;
    var start := (n - 2) / 2;
    LeavesAreHeaps(a[..], n);
    while start >= 0
      invariant -1 <= start < n
      invariant HeapFrom(a[..], start + 1, n - 1)
      invariant multiset(a[..]) == old(multiset(a[..]))
      decreases start + 1
    {
      ghost var before := a[..];
      SiftDown(a, start, n - 1);
      BuildStep(before, start, n - 1);
      start := start - 1;
    }
  }

  /** `heapsort_inplace(a)`: build a max-heap, then repeatedly move the root,
      the largest cell of the heap, to the end of the shrinking heap and sift
      the new root down. */
  method HeapSort(a: array<int>)
    modifies a
    ensures Sorted(a[..])
    ensures multiset(a[..]) == old(multiset(a[..]))
    ensures a.Length <= 1 ==> a[..] == old(a[..])
    ensures Sorted(old(a[..])) ==> a[..] == old(a[..])
  {
    BuildHeap(a);
    var end := a.Length - 1;
    while end > 0
      invariant -1 <= end < a.Length
      invariant HeapFrom(a[..], 0, end) && SortedAbove(a[..], end) && Dominated(a[..], end)
      invariant multiset(a[..]) == old(multiset(a[..]))
      decreases end
    {
      ghost var before := a[..];
      a[end], a[0] := a[0], a[end];
      SiftDown(a, 0, end - 1);
      ExtractStep(before, end);
      end := end - 1;
    }
    ExtractDone(a[..], end);
    if Sorted(old(a[..])) {
      SortedUnique(a[..], old(a[..]));
    }
  }
}
