/** The textbook top-down merge sort that merges through a shared,
    pre-allocated `tmp` array. */
module MergeSerial {
  import opened Sorting

  /** Taking the head of the left run `src[left..m]`: allowed when the
      right run `src[right..r]` is exhausted or its head is not smaller. */
  lemma TakeLeft(src: seq<int>, left: int, m: int, right: int, r: int)
    requires 0 <= left <= m < right <= r + 1 <= |src| && m + 1 <= right
    requires right == r + 1 || src[left] < src[right]
    ensures Merged(src[left..m + 1], src[right..r + 1]) == [src[left]] + Merged(src[left + 1..m + 1], src[right..r + 1])
  {
    assert src[left..m + 1][1..] == src[left + 1..m + 1];
  }

  /** Taking the head of the right run `src[right..r]`: allowed when the
      left run is exhausted or its head is not strictly smaller. */
  lemma TakeRight(src: seq<int>, left: int, m: int, right: int, r: int)
    requires 0 <= left <= m + 1 <= right <= r < |src|
    requires left == m + 1 || !(src[left] < src[right])
    ensures Merged(src[left..m + 1], src[right..r + 1]) == [src[right]] + Merged(src[left..m + 1], src[right + 1..r + 1])
  {
    assert src[right..r + 1][1..] == src[right + 1..r + 1];
  }

  /** Moving the head of the merged remainder onto the written prefix. */
  lemma MoveHead(prefix: seq<int>, x: int, rest: seq<int>, whole: seq<int>)
    requires prefix + ([x] + rest) == whole
    ensures prefix + [x] + rest == whole
  {
  }

  /** The state the three merge loops keep: the runs left to merge are
      `src[left..m]` and `src[right..r]`, the cells `buf[d..index)` written
      so far, followed by the merge of what is left, make the merge `whole`
      of the two complete runs. */
  ghost predicate Merging(buf: seq<int>, src: seq<int>, l: int, m: int, r: int, d: int,
                          left: int, right: int, index: int, whole: seq<int>)
  {
    0 <= l <= left <= m + 1 <= right <= r + 1 <= |src| &&
    0 <= d <= index == d + (left - l) + (right - (m + 1)) <= |buf| &&
    buf[d..index] + Merged(src[left..m + 1], src[right..r + 1]) == whole
  }

  /** Writing the head of the left run at `index` keeps the merge state. */
  lemma StepLeft(buf: seq<int>, src: seq<int>, l: int, m: int, r: int, d: int,
                 left: int, right: int, index: int, whole: seq<int>)
    requires Merging(buf, src, l, m, r, d, left, right, index, whole)
    requires left <= m && index < |buf| && (right == r + 1 || src[left] < src[right])
    ensures Merging(buf[index := src[left]], src, l, m, r, d, left + 1, right, index + 1, whole)
  {
    TakeLeft(src, left, m, right, r);
    assert buf[index := src[left]][d..index + 1] == buf[d..index] + [src[left]];
    MoveHead(buf[d..index], src[left], Merged(src[left + 1..m + 1], src[right..r + 1]), whole);
  }

  /** Writing the head of the right run at `index` keeps the merge state. */
  lemma StepRight(buf: seq<int>, src: seq<int>, l: int, m: int, r: int, d: int,
                  left: int, right: int, index: int, whole: seq<int>)
    requires Merging(buf, src, l, m, r, d, left, right, index, whole)
    requires right <= r && index < |buf| && (left == m + 1 || !(src[left] < src[right]))
    ensures Merging(buf[index := src[right]], src, l, m, r, d, left, right + 1, index + 1, whole)
  {
    TakeRight(src, left, m, right, r);
    assert buf[index := src[right]][d..index + 1] == buf[d..index] + [src[right]];
    MoveHead(buf[d..index], src[right], Merged(src[left..m + 1], src[right + 1..r + 1]), whole);
  }

  /** The body of the first merge loop: the strictly smaller of the two
      heads (the right one on a tie) is written to `dst[index]` and its run
      advances. Only `dst[index]` changes. */
  method MergeStep(arr: array<int>, dst: array<int>, l: int, m: int, r: int, d: int,
                   left0: int, right0: int, index: int, ghost whole: seq<int>)
    returns (left: int, right: int)
    requires arr != dst && d + (r + 1 - l) <= dst.Length
    requires Merging(dst[..], arr[..], l, m, r, d, left0, right0, index, whole)
    requires left0 <= m && right0 <= r
    modifies dst
    ensures Merging(dst[..], arr[..], l, m, r, d, left, right, index + 1, whole)
    ensures (left == left0 + 1 && right == right0) || (left == left0 && right == right0 + 1)
    ensures forall k :: 0 <= k < dst.Length && k != index ==> dst[k] == old(dst[k])
  {
    ghost var buf, src := dst[..], arr[..];
    left, right := left0, right0;
    if arr[left] < arr[right] {
      StepLeft(buf, src, l, m, r, d, left, right, index, whole);
      dst[index] := arr[left];
      assert dst[..] == buf[index := src[left]];
      left := left + 1;
    } else {
      StepRight(buf, src, l, m, r, d, left, right, index, whole);
      dst[index] := arr[right];
      assert dst[..] == buf[index := src[right]];
      right := right + 1;
    }
  }

  /** The first merge loop: while both runs are non-empty, one merge step.
      Afterwards one run is exhausted. Only cells from `index` on change. */
  method MergeHeads(arr: array<int>, dst: array<int>, l: int, m: int, r: int, d: int,
                    left0: int, right0: int, index0: int, ghost whole: seq<int>)
    returns (left: int, right: int, index: int)
    requires arr != dst && d + (r + 1 - l) <= dst.Length
    requires Merging(dst[..], arr[..], l, m, r, d, left0, right0, index0, whole)
    modifies dst
    ensures Merging(dst[..], arr[..], l, m, r, d, left, right, index, whole)
    ensures left == m + 1 || right == r + 1
    ensures forall k :: 0 <= k < dst.Length && !(index0 <= k < index) ==> dst[k] == old(dst[k])
  {
    left, right, index := left0, right0, index0;
    while left <= m && right <= r
      invariant Merging(dst[..], arr[..], l, m, r, d, left, right, index, whole)
      invariant index0 <= index
      invariant forall k :: 0 <= k < dst.Length && !(index0 <= k < index) ==> dst[k] == old(dst[k])
      decreases (m + 1 - left) + (r + 1 - right)
    {
      left, right := MergeStep(arr, dst, l, m, r, d, left, right, index, whole);
      index := index + 1;
    }
  }

  /** The second merge loop: the rest of the left run is copied. */
  method RestOfLeft(arr: array<int>, dst: array<int>, l: int, m: int, r: int, d: int,
                    left0: int, right: int, index0: int, ghost whole: seq<int>)
    returns (left: int, index: int)
    requires arr != dst && d + (r + 1 - l) <= dst.Length
    requires Merging(dst[..], arr[..], l, m, r, d, left0, right, index0, whole)
    requires left0 == m + 1 || right == r + 1
    modifies dst
    ensures Merging(dst[..], arr[..], l, m, r, d, left, right, index, whole)
    ensures left == m + 1
    ensures forall k :: 0 <= k < dst.Length && !(index0 <= k < index) ==> dst[k] == old(dst[k])
  {
    ghost var src := arr[..];
    left, index := left0, index0;
    while left <= m
      invariant Merging(dst[..], src, l, m, r, d, left, right, index, whole)
      invariant left <= m ==> right == r + 1
      invariant index0 <= index
      invariant forall k :: 0 <= k < dst.Length && !(index0 <= k < index) ==> dst[k] == old(dst[k])
    {
      ghost var buf := dst[..];
      StepLeft(buf, src, l, m, r, d, left, right, index, whole);
      dst[index] := arr[left];
      assert dst[..] == buf[index := src[left]];
      left := left + 1;
      index := index + 1;
    }
  }

  /** The third merge loop: the rest of the right run is copied. */
  method RestOfRight(arr: array<int>, dst: array<int>, l: int, m: int, r: int, d: int,
                     left: int, right0: int, index0: int, ghost whole: seq<int>)
    returns (right: int, index: int)
    requires arr != dst && d + (r + 1 - l) <= dst.Length
    requires Merging(dst[..], arr[..], l, m, r, d, left, right0, index0, whole)
    requires left == m + 1
    modifies dst
    ensures Merging(dst[..], arr[..], l, m, r, d, left, right, index, whole)
    ensures right == r + 1
    ensures forall k :: 0 <= k < dst.Length && !(index0 <= k < index) ==> dst[k] == old(dst[k])
  {
    ghost var src := arr[..];
    right, index := right0, index0;
    while right <= r
      invariant Merging(dst[..], src, l, m, r, d, left, right, index, whole)
      invariant index0 <= index
      invariant forall k :: 0 <= k < dst.Length && !(index0 <= k < index) ==> dst[k] == old(dst[k])
    {
      ghost var buf := dst[..];
      StepRight(buf, src, l, m, r, d, left, right, index, whole);
      dst[index] := arr[right];
      assert dst[..] == buf[index := src[right]];
      right := right + 1;
      index := index + 1;
    }
  }

  /** The three merge loops together: the runs `arr[l..m]` and `arr[m+1..r]`
      are merged into exactly the `r - l + 1` cells of `dst` from `d`
      (`index` ends at `d + r - l + 1`); no other cell of `dst` is written. */
  method MergeRuns(arr: array<int>, dst: array<int>, l: int, m: int, r: int, d: int)
    requires arr != dst
    requires 0 <= l <= m + 1 <= r + 1 <= arr.Length
    requires 0 <= d && d + (r + 1 - l) <= dst.Length
    modifies dst
    ensures dst[d..d + (r + 1 - l)] == Merged(arr[l..m + 1], arr[m + 1..r + 1])
    ensures forall k :: 0 <= k < dst.Length && !(d <= k < d + (r + 1 - l)) ==> dst[k] == old(dst[k])
  {
    ghost var whole := Merged(arr[l..m + 1], arr[m + 1..r + 1]);
    MergingStarts(dst[..], arr[..], l, m, r, d);
    var left, right, index := MergeHeads(arr, dst, l, m, r, d, l, m + 1, d, whole);
    left, index := RestOfLeft(arr, dst, l, m, r, d, left, right, index, whole);
    right, index := RestOfRight(arr, dst, l, m, r, d, left, right, index, whole);
    MergingEnds(dst[..], arr[..], l, m, r, d, index, whole);
  }

  /** Before the first loop nothing is written and both runs are whole. */
  lemma MergingStarts(buf: seq<int>, src: seq<int>, l: int, m: int, r: int, d: int)
    requires 0 <= l <= m + 1 <= r + 1 <= |src| && 0 <= d <= |buf|
    ensures Merging(buf, src, l, m, r, d, l, m + 1, d, Merged(src[l..m + 1], src[m + 1..r + 1]))
  {
    assert buf[d..d] == [];
  }

  /** After the last loop both runs are used up: the written cells are the
      whole merge, and there are exactly `r - l + 1` of them. */
  lemma MergingEnds(buf: seq<int>, src: seq<int>, l: int, m: int, r: int, d: int, index: int, whole: seq<int>)
    requires Merging(buf, src, l, m, r, d, m + 1, r + 1, index, whole)
    ensures index == d + (r + 1 - l) && buf[d..index] == whole
  {
    assert Merged(src[m + 1..m + 1], src[r + 1..r + 1]) == [];
  }

  /** `merge`: with `tmp` distinct from `arr`, the runs `arr[l..m]` and
      `arr[m+1..r]` are merged through `tmp[l..r]` and copied back. Afterwards
      `arr[l..r]` is the merge of the two runs (sorted when both runs were, and
      always a permutation of them), `tmp[l..r]` equals it, and no cell of
      either array outside `[l, r]` changes. */
  method Merge(arr: array<int>, tmp: array<int>, l: int, m: int, r: int)
    requires arr != tmp
    requires 0 <= l <= m + 1 <= r + 1 <= arr.Length && r < tmp.Length
    modifies arr, tmp
    ensures arr[l..r + 1] == Merged(old(arr[l..m + 1]), old(arr[m + 1..r + 1]))
    ensures Sorted(old(arr[l..m + 1])) && Sorted(old(arr[m + 1..r + 1])) ==> Sorted(arr[l..r + 1])
    ensures multiset(arr[l..r + 1]) == multiset(old(arr[l..r + 1]))
    ensures tmp[l..r + 1] == arr[l..r + 1]
    ensures forall k :: 0 <= k < arr.Length && !(l <= k <= r) ==> arr[k] == old(arr[k])
    ensures forall k :: 0 <= k < tmp.Length && !(l <= k <= r) ==> tmp[k] == old(tmp[k])
  {
    ghost var a, b := arr[l..m + 1], arr[m + 1..r + 1];
    assert arr[l..r + 1] == a + b;
    MergeRuns(arr, tmp, l, m, r, l);
    ghost var merged := tmp[l..r + 1];
    assert merged == Merged(a, b);
    CopyBack(tmp, arr, l, r);
    assert arr[l..r + 1] == merged && tmp[l..r + 1] == merged;
    MergedRuns(a, b);
  }

  /** The copy-back loop of `merge`: `arr[i] = tmp[i]` for `i` in `[l, r]`;
      no other cell of `arr` changes. */
  method CopyBack(tmp: array<int>, arr: array<int>, l: int, r: int)
    requires arr != tmp
    requires 0 <= l <= r + 1 <= arr.Length && r < tmp.Length
    modifies arr
    ensures arr[l..r + 1] == tmp[l..r + 1]
    ensures forall k :: 0 <= k < arr.Length && !(l <= k <= r) ==> arr[k] == old(arr[k])
  {
    for i := l to r + 1
      invariant arr[l..i] == tmp[l..i]
      invariant forall k :: 0 <= k < arr.Length && !(l <= k < i) ==> arr[k] == old(arr[k])
    {
      arr[i] := tmp[i];
      assert arr[l..i + 1] == arr[l..i] + [arr[i]];
      assert tmp[l..i + 1] == tmp[l..i] + [tmp[i]];
    }
  }

  /** The midpoint `l + (r - l) / 2` of a range with `l < r` lies in
      `[l, r)`, so both halves are shorter than the range. */
  lemma MidpointInRange(l: int, r: int)
    requires l < r
    ensures l <= l + (r - l) / 2 < r && (l + (r - l) / 2) - l == (r - l) / 2
  {
  }

  /** `mergesort`: for `l <= r`, `arr[l..r]` ends sorted and holding exactly
      the values it held; no cell of `arr` or `tmp` outside `[l, r]` changes,
      and for `l >= r` nothing changes at all. */
  method Mergesort(arr: array<int>, tmp: array<int>, l: int, r: int)
    requires arr != tmp
    requires l <= r ==> 0 <= l && r < arr.Length && r < tmp.Length
    modifies arr, tmp
    ensures l <= r ==> Sorted(arr[l..r + 1]) && multiset(arr[l..r + 1]) == multiset(old(arr[l..r + 1]))
    ensures forall k :: 0 <= k < arr.Length && !(l < r && l <= k <= r) ==> arr[k] == old(arr[k])
    ensures forall k :: 0 <= k < tmp.Length && !(l < r && l <= k <= r) ==> tmp[k] == old(tmp[k])
    decreases r - l
  {
    if l < r {
      var mid := l + (r - l) / 2;
      MidpointInRange(l, r);
      ghost var o := arr[..];
      Mergesort(arr, tmp, l, mid);
      ghost var s1 := arr[..];
      assert forall k :: 0 <= k < |o| && !(l <= k <= mid) ==> s1[k] == o[k];
      Mergesort(arr, tmp, mid + 1, r);
      ghost var s2 := arr[..];
      assert forall k :: 0 <= k < |o| && !(mid + 1 <= k <= r) ==> s2[k] == s1[k];
      KeptSlice(o, s1, l, mid, mid + 1, r + 1);
      KeptSlice(s1, s2, mid + 1, r, l, mid + 1);
      PermutedHalves(o, s1, s2, l, mid, r);
      assert Sorted(s2[l..mid + 1]);
      Merge(arr, tmp, l, mid, r);
    }
  }
}
