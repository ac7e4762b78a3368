/** Top-down merge sort that builds new sequences and never changes its
    argument. The source compares list elements with `<=`; here elements of
    any type are compared through an integer key, so that the order in which
    equal elements come out (stability) can be stated. Sorting integers is
    the instance `key == Identity`. */
module MergeSort {
  import opened Ordering

  /** The elements of `s` whose key is `v`, in their order in `s`. */
  function WithKey<T>(s: seq<T>, key: T -> int, v: int): seq<T>
    decreases |s|
  {
    if s == [] then []
    else (if key(s[0]) == v then [s[0]] else []) + WithKey(s[1..], key, v)
  }

  /** Stability: for every key, the elements of `r` with that key are those
      of `s`, in the same relative order. */
  ghost predicate Stable<T>(r: seq<T>, s: seq<T>, key: T -> int) {
    forall v :: WithKey(r, key, v) == WithKey(s, key, v)
  }

  /** The ordered merge of two sequences: repeatedly take the smaller front
      element, the left one when the keys tie, and append whatever remains
      once one side is exhausted. */
  function Merge<T>(left: seq<T>, right: seq<T>, key: T -> int): (r: seq<T>)
    ensures |r| == |left| + |right|
    ensures multiset(r) == multiset(left) + multiset(right)
    ensures r != [] ==> (left != [] && r[0] == left[0]) || (right != [] && r[0] == right[0])
    decreases |left| + |right|
  {
    if left == [] then right
    else if right == [] then left
    else if key(left[0]) <= key(right[0]) then
      assert left == [left[0]] + left[1..];
      [left[0]] + Merge(left[1..], right, key)
    else
      assert right == [right[0]] + right[1..];
      [right[0]] + Merge(left, right[1..], key)
  }

  /** The function that the merge sort computes: split at `|s| / 2`, sort
      both halves, merge them. */
  function MergeSorted<T>(s: seq<T>, key: T -> int): (r: seq<T>)
    ensures |r| == |s|
    ensures multiset(r) == multiset(s)
    decreases |s|
  {
    if |s| <= 1 then s
    else
      var mid := |s| / 2;
      assert s == s[..mid] + s[mid..];
      Merge(MergeSorted(s[..mid], key), MergeSorted(s[mid..], key), key)
  }

  lemma SortedByTail<T>(s: seq<T>, key: T -> int)
    requires s != [] && SortedBy(s, key)
    ensures SortedBy(s[1..], key)
  {
    forall p, q | 0 <= p < q < |s| - 1 ensures key(s[1..][p]) <= key(s[1..][q]) {
      assert s[1..][p] == s[p + 1] && s[1..][q] == s[q + 1];
    }
  }

  /** An element whose key is at most the first key of a sorted sequence
      can be put in front of it. */
  lemma SortedByCons<T>(x: T, s: seq<T>, key: T -> int)
    requires SortedBy(s, key) && (s != [] ==> key(x) <= key(s[0]))
    ensures SortedBy([x] + s, key)
  {
    forall p, q | 0 <= p < q < |s| + 1 ensures key(([x] + s)[p]) <= key(([x] + s)[q]) {
      if p > 0 {
        assert ([x] + s)[p] == s[p - 1];
      }
      assert ([x] + s)[q] == s[q - 1];
    }
  }

  /** Merging two sorted sequences gives a sorted sequence. */
  lemma {:induction false} MergeOrdered<T>(left: seq<T>, right: seq<T>, key: T -> int)
    requires SortedBy(left, key) && SortedBy(right, key)
    ensures SortedBy(Merge(left, right, key), key)
    decreases |left| + |right|
  {
    if left != [] && right != [] {
      if key(left[0]) <= key(right[0]) {
        SortedByTail(left, key);
        MergeOrdered(left[1..], right, key);
        var rest := Merge(left[1..], right, key);
        assert rest != [] ==> key(left[0]) <= key(rest[0]) by {
          if |left| > 1 { assert left[1..][0] == left[1]; }
        }
        SortedByCons(left[0], rest, key);
      } else {
        SortedByTail(right, key);
        MergeOrdered(left, right[1..], key);
        var rest := Merge(left, right[1..], key);
        assert rest != [] ==> key(right[0]) <= key(rest[0]) by {
          if |right| > 1 { assert right[1..][0] == right[1]; }
        }
        SortedByCons(right[0], rest, key);
      }
    }
  }

  lemma WithKeyCons<T>(x: T, s: seq<T>, key: T -> int, v: int)
    ensures key(x) == v ==> WithKey([x] + s, key, v) == [x] + WithKey(s, key, v)
    ensures key(x) != v ==> WithKey([x] + s, key, v) == WithKey(s, key, v)
  {
    assert ([x] + s)[0] == x && ([x] + s)[1..] == s;
    assert [] + WithKey(s, key, v) == WithKey(s, key, v);
  }

  lemma WithKeyFront<T>(s: seq<T>, key: T -> int, v: int)
    requires s != []
    ensures key(s[0]) == v ==> WithKey(s, key, v) == [s[0]] + WithKey(s[1..], key, v)
    ensures key(s[0]) != v ==> WithKey(s, key, v) == WithKey(s[1..], key, v)
  {
    assert s == [s[0]] + s[1..];
    WithKeyCons(s[0], s[1..], key, v);
  }

  lemma SplitAt<T>(s: seq<T>, mid: int)
    requires 0 <= mid <= |s|
    ensures s == s[..mid] + s[mid..]
  {
  }

  lemma ConcatAssoc<T>(a: seq<T>, b: seq<T>, c: seq<T>)
    ensures a + (b + c) == (a + b) + c
  {
  }

  lemma ConcatEmpty<T>(a: seq<T>)
    ensures [] + a == a
  {
  }

  lemma {:induction false} WithKeyAppend<T>(a: seq<T>, b: seq<T>, key: T -> int, v: int)
    ensures WithKey(a + b, key, v) == WithKey(a, key, v) + WithKey(b, key, v)
    decreases |a|
  {
    if a != [] {
      assert a + b == [a[0]] + (a[1..] + b);
      assert a == [a[0]] + a[1..];
      WithKeyCons(a[0], a[1..] + b, key, v);
      WithKeyCons(a[0], a[1..], key, v);
      WithKeyAppend(a[1..], b, key, v);
      if key(a[0]) == v {
        assert [a[0]] + (WithKey(a[1..], key, v) + WithKey(b, key, v))
            == ([a[0]] + WithKey(a[1..], key, v)) + WithKey(b, key, v);
      }
    } else {
      assert a + b == b;
    }
  }

  /** A sorted sequence whose first key exceeds `v` holds no element with key `v`. */
  lemma {:induction false} WithKeyAbove<T>(s: seq<T>, key: T -> int, v: int)
    requires SortedBy(s, key) && s != [] && v < key(s[0])
    ensures WithKey(s, key, v) == []
    decreases |s|
  {
    if |s| > 1 {
      SortedByTail(s, key);
      assert s[1..][0] == s[1];
      WithKeyAbove(s[1..], key, v);
    }
  }

  /** The merge is stable: among elements with equal keys, those of the left
      input come first, each side in its own order. */
  lemma {:induction false} MergeStable<T>(left: seq<T>, right: seq<T>, key: T -> int, v: int)
    requires SortedBy(left, key) && SortedBy(right, key)
    ensures WithKey(Merge(left, right, key), key, v) == WithKey(left, key, v) + WithKey(right, key, v)
    decreases |left| + |right|
  {
    if left == [] {
      assert WithKey(left, key, v) + WithKey(right, key, v) == WithKey(right, key, v);
    } else if right == [] {
      assert WithKey(left, key, v) + WithKey(right, key, v) == WithKey(left, key, v);
    } else if key(left[0]) <= key(right[0]) {
      SortedByTail(left, key);
      MergeStable(left[1..], right, key, v);
      MergeStableTakeLeft(left, right, key, v);
    } else {
      SortedByTail(right, key);
      MergeStable(left, right[1..], key, v);
      MergeStableTakeRight(left, right, key, v);
    }
  }

  lemma MergeFront<T>(left: seq<T>, right: seq<T>, key: T -> int)
    requires left != [] && right != []
    ensures Merge(left, right, key) ==
      if key(left[0]) <= key(right[0]) then [left[0]] + Merge(left[1..], right, key)
      else [right[0]] + Merge(left, right[1..], key)
  {
  }

  /** One step of the merge that takes the left front element keeps the
      elements with key `v` in order. */
  lemma MergeStableTakeLeft<T>(left: seq<T>, right: seq<T>, key: T -> int, v: int)
    requires left != [] && right != [] && key(left[0]) <= key(right[0])
    requires WithKey(Merge(left[1..], right, key), key, v) == WithKey(left[1..], key, v) + WithKey(right, key, v)
    ensures WithKey(Merge(left, right, key), key, v) == WithKey(left, key, v) + WithKey(right, key, v)
  {
    var rest := Merge(left[1..], right, key);
    MergeFront(left, right, key);
    WithKeyFront(left, key, v);
    WithKeyCons(left[0], rest, key, v);
    ConcatAssoc([left[0]], WithKey(left[1..], key, v), WithKey(right, key, v));
  }

  /** One step of the merge that takes the right front element, whose key is
      below every key on the left, keeps the elements with key `v` in order. */
  lemma MergeStableTakeRight<T>(left: seq<T>, right: seq<T>, key: T -> int, v: int)
    requires left != [] && right != [] && key(right[0]) < key(left[0]) && SortedBy(left, key)
    requires WithKey(Merge(left, right[1..], key), key, v) == WithKey(left, key, v) + WithKey(right[1..], key, v)
    ensures WithKey(Merge(left, right, key), key, v) == WithKey(left, key, v) + WithKey(right, key, v)
  {
    var rest := Merge(left, right[1..], key);
    MergeFront(left, right, key);
    WithKeyFront(right, key, v);
    WithKeyCons(right[0], rest, key, v);
    if key(right[0]) == v {
      WithKeyAbove(left, key, v);
      ConcatEmpty(WithKey(right, key, v));
      ConcatEmpty(WithKey(right[1..], key, v));
    }
  }

  /** The merge sort's result is in non-decreasing key order. */
  lemma {:induction false} MergeSortedOrdered<T>(s: seq<T>, key: T -> int)
    ensures SortedBy(MergeSorted(s, key), key)
    decreases |s|
  {
    if |s| > 1 {
      var mid := |s| / 2;
      MergeSortedOrdered(s[..mid], key);
      MergeSortedOrdered(s[mid..], key);
      MergeOrdered(MergeSorted(s[..mid], key), MergeSorted(s[mid..], key), key);
    }
  }

  /** The merge sort is stable: the elements with key `v` come out in the
      order they had in the input. */
  lemma {:induction false} MergeSortedStable<T>(s: seq<T>, key: T -> int, v: int)
    ensures WithKey(MergeSorted(s, key), key, v) == WithKey(s, key, v)
    decreases |s|
  {
    if |s| > 1 {
      var mid := |s| / 2;
      var left, right := MergeSorted(s[..mid], key), MergeSorted(s[mid..], key);
      MergeSortedStable(s[..mid], key, v);
      MergeSortedStable(s[mid..], key, v);
      MergeSortedOrdered(s[..mid], key);
      MergeSortedOrdered(s[mid..], key);
      MergeStable(left, right, key, v);
      MergeSortedUnfold(s, key);
      SplitAt(s, mid);
      WithKeyAppend(s[..mid], s[mid..], key, v);
    }
  }

  /** Sorting integers: the result is the unique sorted permutation, so a
      sorted input comes back unchanged. */
  lemma MergeSortedSortedInput(s: seq<int>)
    requires Sorted(s)
    ensures MergeSorted(s, Identity) == s
  {
    MergeSortedOrdered(s, Identity);
    SortedByIdentity(MergeSorted(s, Identity));
    SortedUnique(MergeSorted(s, Identity), s);
  }

  /** Sorting integers: any sorted permutation of `s` is the merge sort's
      result, so every sort that returns a sorted permutation of its input
      returns what the merge sort returns. */
  lemma SortedPermutationIsMergeSorted(s: seq<int>, t: seq<int>)
    requires Sorted(t) && multiset(t) == multiset(s)
    ensures t == MergeSorted(s, Identity)
  {
    MergeSortedOrdered(s, Identity);
    SortedByIdentity(MergeSorted(s, Identity));
    SortedUnique(MergeSorted(s, Identity), t);
  }

  /** The merge sort as the source writes it: the halves are new sequences,
      both are sorted recursively, and a loop merges them with the cursors
      `i` and `j`; the rest of whichever half is left over is appended. */
  method MergeSort<T>(a: seq<T>, key: T -> int) returns (r: seq<T>)
    ensures r == MergeSorted(a, key)
    ensures SortedBy(r, key)
    ensures multiset(r) == multiset(a)
    ensures Stable(r, a, key)
    ensures |a| <= 1 ==> r == a
    decreases |a|
  {
    MergeSortedOrdered(a, key);
    forall v ensures WithKey(MergeSorted(a, key), key, v) == WithKey(a, key, v) {
      MergeSortedStable(a, key, v);
    }
    if |a| <= 1 {
      return a;
    }
    var mid := |a| / 2;
    var left := MergeSort(a[..mid], key);
    var right := MergeSort(a[mid..], key);
    MergeOrdered(left, right, key);
    var merged := [];
    var i, j := 0, 0;
    while i < |left| && j < |right|
      invariant 0 <= i <= |left| && 0 <= j <= |right|
      invariant |merged| == i + j
      invariant merged + Merge(left[i..], right[j..], key) == Merge(left, right, key)
      invariant SortedBy(merged, key)
      decreases |left| - i + |right| - j
    {
      MergeFrontAt(left, right, i, j, key);
      ghost var before := merged;
      if key(left[i]) <= key(right[j]) {
        merged := merged + [left[i]];
        ConcatAssoc(before, [left[i]], Merge(left[i + 1..], right[j..], key));
        i := i + 1;
      } else {
        merged := merged + [right[j]];
        ConcatAssoc(before, [right[j]], Merge(left[i..], right[j + 1..], key));
        j := j + 1;
      }
      PrefixOrdered(merged, Merge(left[i..], right[j..], key), key);
    }
    // At most one of the two remainders is non-empty.
    assert left[i..] == [] || right[j..] == [];
    MergeExhausted(left[i..], right[j..], key);
    ConcatAssoc(merged, left[i..], right[j..]);
    merged := merged + left[i..];
    merged := merged + right[j..];
    r := merged;
    MergeSortedUnfold(a, key);
  }

  lemma MergeFrontAt<T>(left: seq<T>, right: seq<T>, i: int, j: int, key: T -> int)
    requires 0 <= i < |left| && 0 <= j < |right|
    ensures key(left[i]) <= key(right[j]) ==>
      Merge(left[i..], right[j..], key) == [left[i]] + Merge(left[i + 1..], right[j..], key)
    ensures key(right[j]) < key(left[i]) ==>
      Merge(left[i..], right[j..], key) == [right[j]] + Merge(left[i..], right[j + 1..], key)
  {
    assert left[i..][1..] == left[i + 1..];
    assert right[j..][1..] == right[j + 1..];
  }

  lemma MergeExhausted<T>(left: seq<T>, right: seq<T>, key: T -> int)
    requires left == [] || right == []
    ensures Merge(left, right, key) == left + right
  {
    if left == [] {
      assert left + right == right;
    } else {
      assert left + right == left;
    }
  }

  /** The front part of a sorted sequence is sorted. */
  lemma PrefixOrdered<T>(front: seq<T>, back: seq<T>, key: T -> int)
    requires SortedBy(front + back, key)
    ensures SortedBy(front, key)
  {
    forall p, q | 0 <= p < q < |front| ensures key(front[p]) <= key(front[q]) {
      assert (front + back)[p] == front[p] && (front + back)[q] == front[q];
    }
  }

  lemma MergeSortedUnfold<T>(s: seq<T>, key: T -> int)
    requires |s| > 1
    ensures MergeSorted(s, key) == Merge(MergeSorted(s[..|s| / 2], key), MergeSorted(s[|s| / 2..], key), key)
  {
  }
}
