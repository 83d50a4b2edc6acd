/** What the two merge sorts compute: sortedness, and the merge of two runs
    as their loops perform it. */
module Sorting {

  /** Non-decreasing order. */
  ghost predicate Sorted(s: seq<int>)
  {
    forall i, j :: 0 <= i < j < |s| ==> s[i] <= s[j]
  }

  /** The check the sorting driver performs, comparing each element with its
      successor, accepts exactly the sorted sequences. */
  lemma {:induction false} AdjacentSorted(s: seq<int>)
    ensures Sorted(s) <==> forall i :: 0 <= i < |s| - 1 ==> s[i] <= s[i + 1]
    decreases |s|
  {
    if |s| > 1 && forall i :: 0 <= i < |s| - 1 ==> s[i] <= s[i + 1] {
      var t := s[1..];
      assert forall i :: 0 <= i < |t| - 1 ==> t[i] <= t[i + 1] by {
        forall i | 0 <= i < |t| - 1 ensures t[i] <= t[i + 1] {
          assert t[i] == s[i + 1] && t[i + 1] == s[i + 2];
        }
      }
      AdjacentSorted(t);
      forall i, j | 0 <= i < j < |s| ensures s[i] <= s[j] {
        if 0 < i {
          assert s[i] == t[i - 1] && s[j] == t[j - 1];
        } else {
          assert s[1] == t[0] && s[j] == t[j - 1];
        }
      }
    }
  }

  /** The merge of runs `a` and `b` as the merge loops build it: the head of
      `a` is taken only when it is strictly smaller than the head of `b`, so
      on a tie the element of `b` comes first; once one run is exhausted the
      rest of the other follows. */
  function Merged(a: seq<int>, b: seq<int>): (r: seq<int>)
    ensures |r| == |a| + |b|
    decreases |a| + |b|
  {
    if a == [] then b
    else if b == [] then a
    else if a[0] < b[0] then [a[0]] + Merged(a[1..], b)
    else [b[0]] + Merged(a, b[1..])
  }

  /** Merging keeps every element exactly once: the result is a permutation
      of the two runs together. */
  lemma {:induction false} MergePermutes(a: seq<int>, b: seq<int>)
    ensures multiset(Merged(a, b)) == multiset(a) + multiset(b)
    decreases |a| + |b|
  {
    if a != [] && b != [] {
      if a[0] < b[0] {
        var rest := Merged(a[1..], b);
        MergePermutes(a[1..], b);
        assert Merged(a, b) == [a[0]] + rest;
        assert a == [a[0]] + a[1..];
        assert multiset(a) == multiset([a[0]]) + multiset(a[1..]);
      } else {
        var rest := Merged(a, b[1..]);
        MergePermutes(a, b[1..]);
        assert Merged(a, b) == [b[0]] + rest;
        assert b == [b[0]] + b[1..];
        assert multiset(b) == multiset([b[0]]) + multiset(b[1..]);
      }
    }
  }

  /** A lower bound of both runs is a lower bound of their merge. */
  lemma MergeLowerBound(a: seq<int>, b: seq<int>, x: int)
    requires forall k :: 0 <= k < |a| ==> x <= a[k]
    requires forall k :: 0 <= k < |b| ==> x <= b[k]
    ensures forall k :: 0 <= k < |a| + |b| ==> x <= Merged(a, b)[k]
  {
    MergePermutes(a, b);
    forall k | 0 <= k < |a| + |b|
      ensures x <= Merged(a, b)[k]
    {
      var y := Merged(a, b)[k];
      assert y in multiset(Merged(a, b));
      assert y in a || y in b;
    }
  }

  /** Merging two sorted runs gives a sorted sequence. */
  lemma {:induction false} MergeSorted(a: seq<int>, b: seq<int>)
    requires Sorted(a) && Sorted(b)
    ensures Sorted(Merged(a, b))
    decreases |a| + |b|
  {
    if a != [] && b != [] {
      if a[0] < b[0] {
        MergeSorted(a[1..], b);
        MergeLowerBound(a[1..], b, a[0]);
      } else {
        MergeSorted(a, b[1..]);
        MergeLowerBound(a, b[1..], b[0]);
      }
    }
  }

  /** What the merge of two adjacent runs promises: a permutation of the
      runs side by side, sorted when both runs are. */
  lemma MergedRuns(a: seq<int>, b: seq<int>)
    ensures multiset(Merged(a, b)) == multiset(a + b)
    ensures Sorted(a) && Sorted(b) ==> Sorted(Merged(a, b))
  {
    MergePermutes(a, b);
    if Sorted(a) && Sorted(b) {
      MergeSorted(a, b);
    }
  }

  /** On equal heads the right run's element is taken first. */
  lemma MergeTieTakesRight(a: seq<int>, b: seq<int>)
    requires a != [] && b != [] && a[0] == b[0]
    ensures Merged(a, b) == [b[0]] + Merged(a, b[1..])
  {
  }

  /** The permutation step of a merge sort of `[l, r]` split at `mid`: if
      sorting the left part permuted `o[l..mid]` into `s1[l..mid]` without
      touching the right part, and sorting the right part then permuted
      `s1[mid+1..r]` into `s2[mid+1..r]` without touching the left part, the
      whole range of `s2` is a permutation of the whole range of `o`. */
  lemma PermutedHalves(o: seq<int>, s1: seq<int>, s2: seq<int>, l: int, mid: int, r: int)
    requires 0 <= l <= mid < r < |o| && |s1| == |o| && |s2| == |o|
    requires multiset(s1[l..mid + 1]) == multiset(o[l..mid + 1]) && s1[mid + 1..r + 1] == o[mid + 1..r + 1]
    requires s2[l..mid + 1] == s1[l..mid + 1] && multiset(s2[mid + 1..r + 1]) == multiset(s1[mid + 1..r + 1])
    ensures multiset(s2[l..r + 1]) == multiset(o[l..r + 1])
  {
    assert s2[l..r + 1] == s2[l..mid + 1] + s2[mid + 1..r + 1];
    assert o[l..r + 1] == o[l..mid + 1] + o[mid + 1..r + 1];
  }

  /** A sorted sequence is fixed by its elements: two sorted permutations of
      each other are equal. So any two sorts that both leave a range sorted
      and permuted leave it holding the same values. */
  lemma {:induction false} SortedUnique(a: seq<int>, b: seq<int>)
    requires Sorted(a) && Sorted(b) && multiset(a) == multiset(b)
    ensures a == b
    decreases |a|
  {
    assert |a| == |multiset(a)| == |multiset(b)| == |b|;
    if a != [] {
      assert a[0] in multiset(b) && b[0] in multiset(a);
      HeadIsLeast(a, b[0]);
      HeadIsLeast(b, a[0]);
      TailsPermuted(a, b);
      SortedUnique(a[1..], b[1..]);
      assert a == [a[0]] + a[1..] && b == [b[0]] + b[1..];
    }
  }

  /** Removing equal heads from two permutations of each other leaves two
      permutations of each other. */
  lemma TailsPermuted(a: seq<int>, b: seq<int>)
    requires a != [] && b != [] && a[0] == b[0] && multiset(a) == multiset(b)
    ensures multiset(a[1..]) == multiset(b[1..])
  {
    assert a == [a[0]] + a[1..] && b == [b[0]] + b[1..];
    assert multiset(a[1..]) == multiset(a) - multiset([a[0]]);
    assert multiset(b[1..]) == multiset(b) - multiset([b[0]]);
  }

  /** The head of a sorted sequence is at most each of its elements. */
  lemma HeadIsLeast(s: seq<int>, x: int)
    requires Sorted(s) && x in multiset(s)
    ensures s[0] <= x
  {
    assert x in s;
  }

  /** A slice outside the range a step may write is the same before and after. */
  lemma KeptSlice(before: seq<int>, after: seq<int>, l: int, r: int, lo: int, hi: int)
    requires |after| == |before| && 0 <= lo <= hi <= |before|
    requires hi <= l || r < lo
    requires forall k :: 0 <= k < |before| && !(l <= k <= r) ==> after[k] == before[k]
    ensures after[lo..hi] == before[lo..hi]
  {
  }
}
