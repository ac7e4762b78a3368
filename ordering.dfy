/** Vocabulary shared by the three sorting algorithms: sortedness, the
    exchange of two cells, and facts about permutations of integer sequences. */
module Ordering {

  /** Non-decreasing order of a sequence of integers. */
  predicate Sorted(s: seq<int>) {
    forall p, q :: 0 <= p < q < |s| ==> s[p] <= s[q]
  }

  /** Non-decreasing order of the keys of a sequence. */
  predicate SortedBy<T>(s: seq<T>, key: T -> int) {
    forall p, q :: 0 <= p < q < |s| ==> key(s[p]) <= key(s[q])
  }

  /** The key under which a list of integers is compared with itself. */
  function Identity(x: int): int { x }

  /** The sequence `s` after exchanging the cells `i` and `j`. */
  function Swap(s: seq<int>, i: int, j: int): (r: seq<int>)
    requires 0 <= i < |s| && 0 <= j < |s|
    ensures |r| == |s| && r[i] == s[j] && r[j] == s[i]
    ensures forall k :: 0 <= k < |s| && k != i && k != j ==> r[k] == s[k]
    ensures multiset(r) == multiset(s)
  {
    s[i := s[j]][j := s[i]]
  }

  lemma SortedByIdentity(s: seq<int>)
    ensures SortedBy(s, Identity) <==> Sorted(s)
  {
  }

  /** Every element of a permutation of `t` is at most `x` when every element of `t` is. */
  lemma AllAtMost(s: seq<int>, t: seq<int>, x: int)
    requires multiset(s) == multiset(t)
    requires forall k :: 0 <= k < |t| ==> t[k] <= x
    ensures forall k :: 0 <= k < |s| ==> s[k] <= x
  {
    forall k | 0 <= k < |s| ensures s[k] <= x {
      assert s[k] in multiset(t);
    }
  }

  /** Every element of a permutation of `t` is at least `x` when every element of `t` is. */
  lemma AllAtLeast(s: seq<int>, t: seq<int>, x: int)
    requires multiset(s) == multiset(t)
    requires forall k :: 0 <= k < |t| ==> x <= t[k]
    ensures forall k :: 0 <= k < |s| ==> x <= s[k]
  {
    forall k | 0 <= k < |s| ensures x <= s[k] {
      assert s[k] in multiset(t);
    }
  }

  /** A permutation of the whole sequence that keeps every cell outside
      `[lo, hi]` in place permutes the cells of `[lo, hi]` among themselves. */
  lemma RangePerm(s: seq<int>, t: seq<int>, lo: int, hi: int)
    requires |s| == |t| && 0 <= lo <= hi + 1 <= |s|
    requires multiset(s) == multiset(t)
    requires forall k :: 0 <= k < |s| && (k < lo || hi < k) ==> s[k] == t[k]
    ensures multiset(s[lo..hi + 1]) == multiset(t[lo..hi + 1])
  {
    assert s == s[..lo] + s[lo..hi + 1] + s[hi + 1..];
    assert t == t[..lo] + t[lo..hi + 1] + t[hi + 1..];
    assert s[..lo] == t[..lo];
    assert s[hi + 1..] == t[hi + 1..];
    assert multiset(s) == multiset(s[..lo]) + multiset(s[lo..hi + 1]) + multiset(s[hi + 1..]);
    assert multiset(t) == multiset(t[..lo]) + multiset(t[lo..hi + 1]) + multiset(t[hi + 1..]);
    assert multiset(s[lo..hi + 1]) == multiset(s) - multiset(s[..lo]) - multiset(s[hi + 1..]);
    assert multiset(t[lo..hi + 1]) == multiset(t) - multiset(t[..lo]) - multiset(t[hi + 1..]);
  }

  /** The tail of a sorted sequence is sorted. */
  lemma SortedTail(s: seq<int>)
    requires s != [] && Sorted(s)
    ensures Sorted(s[1..])
  {
    forall p, q | 0 <= p < q < |s| - 1 ensures s[1..][p] <= s[1..][q] {
      assert s[1..][p] == s[p + 1] && s[1..][q] == s[q + 1];
    }
  }

  /** Removing the first element from a sequence removes it from the multiset. */
  lemma TailMultiset(s: seq<int>)
    requires s != []
    ensures multiset(s[1..]) == multiset(s) - multiset{s[0]}
  {
    assert s == [s[0]] + s[1..];
  }

  /** Two non-empty sorted sequences with the same elements have the same
      length and the same first element, their smallest. */
  lemma SortedSameHead(s: seq<int>, t: seq<int>)
    requires s != [] && Sorted(s) && Sorted(t)
    requires multiset(s) == multiset(t)
    ensures |t| == |s| && t[0] == s[0]
  {
    assert |multiset(t)| == |multiset(s)|;
    assert s[0] in multiset(t) && t[0] in multiset(s);
  }

  /** Sequences that agree on their first element and on their tails are equal. */
  lemma SameHeadAndTail(s: seq<int>, t: seq<int>)
    requires s != [] && t != [] && s[0] == t[0] && s[1..] == t[1..]
    ensures s == t
  {
    assert s == [s[0]] + s[1..];
    assert t == [t[0]] + t[1..];
  }

  /** Two sorted sequences with the same elements are the same sequence:
      a sorted permutation of a sequence is unique. */
  lemma {:induction false} SortedUnique(s: seq<int>, t: seq<int>)
    requires Sorted(s) && Sorted(t)
    requires multiset(s) == multiset(t)
    ensures s == t
  {
    if s == [] {
      assert |multiset(t)| == 0;
    } else {
      SortedSameHead(s, t);
      TailMultiset(s);
      TailMultiset(t);
      SortedTail(s);
      SortedTail(t);
      SortedUnique(s[1..], t[1..]);
      SameHeadAndTail(s, t);
    }
  }
}
