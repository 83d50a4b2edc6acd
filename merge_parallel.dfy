/** The merge sort whose merge allocates its own `temp` buffer of exactly
    the merged length. (Despite its name the code uses no threads.) */
module MergeParallel {
  import opened Sorting
  import opened MergeSerial

  /** The copy-back loop of `parallel_merge`: `arr[l + i] = temp[i]` for
      every `i` below `length`; no other cell of `arr` changes. */
  method CopyTempBack(temp: array<int>, arr: array<int>, l: int, length: int)
    requires arr != temp
    requires 0 <= l && 0 <= length == temp.Length && l + length <= arr.Length
    modifies arr
    ensures arr[l..l + length] == temp[..]
    ensures forall k :: 0 <= k < arr.Length && !(l <= k < l + length) ==> arr[k] == old(arr[k])
  {
    for i := 0 to length
      invariant arr[l..l + i] == temp[..i]
      invariant forall k :: 0 <= k < arr.Length && !(l <= k < l + i) ==> arr[k] == old(arr[k])
    {
      arr[l + i] := temp[i];
      assert arr[l..l + i + 1] == arr[l..l + i] + [arr[l + i]];
      assert temp[..i + 1] == temp[..i] + [temp[i]];
    }
  }

  /** `parallel_merge`: the runs `arr[l..m]` and `arr[m+1..r]` are merged
      into a fresh `temp` of length `r - l + 1`, filled from index 0 exactly
      to its end, and copied back. Afterwards `arr[l..r]` is the merge of
      the two runs (sorted when both runs were, and always a permutation of
      them) and no cell of `arr` outside `[l, r]` changes. */
  method ParallelMerge(arr: array<int>, l: int, m: int, r: int)
    requires 0 <= l <= m + 1 <= r + 1 <= arr.Length
    modifies arr
    ensures arr[l..r + 1] == Merged(old(arr[l..m + 1]), old(arr[m + 1..r + 1]))
    ensures Sorted(old(arr[l..m + 1])) && Sorted(old(arr[m + 1..r + 1])) ==> Sorted(arr[l..r + 1])
    ensures multiset(arr[l..r + 1]) == multiset(old(arr[l..r + 1]))
    ensures forall k :: 0 <= k < arr.Length && !(l <= k <= r) ==> arr[k] == old(arr[k])
  {
    ghost var a, b := arr[l..m + 1], arr[m + 1..r + 1];
    assert arr[l..r + 1] == a + b;
    var length := r - l + 1;
    var temp := new int[length];
    MergeRuns(arr, temp, l, m, r, 0);
    ghost var merged := temp[..];
    assert merged == Merged(a, b);
    CopyTempBack(temp, arr, l, length);
    assert arr[l..r + 1] == merged;
    MergedRuns(a, b);
  }

  /** The midpoint `(l + r) / 2` of a range with `0 <= l < r` is the same as
      the serial sort's `l + (r - l) / 2`, so both sorts split every range at
      the same place. */
  lemma MidpointsAgree(l: int, r: int)
    requires 0 <= l < r
    ensures (l + r) / 2 == l + (r - l) / 2
    ensures l <= (l + r) / 2 < r
  {
    assert l + r == 2 * l + (r - l);
  }

  /** `parallel_mergesort`: for `l <= r`, `arr[l..r]` ends sorted and holding
      exactly the values it held, the rest of `arr` unchanged; for `l >= r`
      nothing changes. By `SortedUnique` it leaves the range exactly as the
      serial `Mergesort` does. */
  method ParallelMergesort(arr: array<int>, l: int, r: int)
    requires l <= r ==> 0 <= l && r < arr.Length
    modifies arr
    ensures l <= r ==> Sorted(arr[l..r + 1]) && multiset(arr[l..r + 1]) == multiset(old(arr[l..r + 1]))
    ensures forall k :: 0 <= k < arr.Length && !(l < r && l <= k <= r) ==> arr[k] == old(arr[k])
    decreases r - l
  {
    if l < r {
      var mid := (l + r) / 2;
      MidpointsAgree(l, r);
      ghost var o := arr[..];
      ParallelMergesort(arr, l, mid);
      ghost var s1 := arr[..];
      assert forall k :: 0 <= k < |o| && !(l <= k <= mid) ==> s1[k] == o[k];
      ParallelMergesort(arr, mid + 1, r);
      ghost var s2 := arr[..];
      assert forall k :: 0 <= k < |o| && !(mid + 1 <= k <= r) ==> s2[k] == s1[k];
      KeptSlice(o, s1, l, mid, mid + 1, r + 1);
      KeptSlice(s1, s2, mid + 1, r, l, mid + 1);
      PermutedHalves(o, s1, s2, l, mid, r);
      assert Sorted(s2[l..mid + 1]);
      ParallelMerge(arr, l, mid, r);
    }
  }
}
