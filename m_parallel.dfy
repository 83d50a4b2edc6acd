/** `m_parallel`: polynomial multiplication by a team of threads, simulated
    one thread after another. Each thread accumulates the products of its
    static chunk of `A`'s indices into a private zeroed array, then adds
    that array into the shared result, starting at an index spread out by
    thread id and wrapping around to the front. */
module MParallel {
  import opened Convolution
  import opened Partition
  import opened MSerial

  /** The shared result after threads `0 .. upto - 1` have combined: the sum
      of their private arrays, thread `t` owning `A`'s indices
      `[ChunkStart(|a|, T, t), ChunkStart(|a|, T, t + 1))`. */
  function ThreadSum(a: seq<int>, b: seq<int>, T: nat, upto: nat, k: int): int
    requires 0 < T && upto <= T
  {
    if upto == 0 then 0
    else
      ChunkInRange(|a|, T, upto - 1);
      ThreadSum(a, b, T, upto - 1, k) + ConvRange(a, b, ChunkStart(|a|, T, upto - 1), ChunkStart(|a|, T, upto), k)
  }

  /** The private arrays of the first `upto` threads add up to the
      contributions of all indices before the next thread's chunk. */
  lemma {:induction false} ThreadSumIsPrefix(a: seq<int>, b: seq<int>, T: nat, upto: nat, k: int)
    requires 0 < T && upto <= T
    ensures ChunkStart(|a|, T, upto) <= |a|
    ensures ThreadSum(a, b, T, upto, k) == ConvRange(a, b, 0, ChunkStart(|a|, T, upto), k)
  {
    ChunkMonotone(|a|, T, upto, T);
    ChunkBounds(|a|, T, 0);
    if upto > 0 {
      ThreadSumIsPrefix(a, b, T, upto - 1, k);
      ChunkInRange(|a|, T, upto - 1);
      ConvSplit(a, b, 0, ChunkStart(|a|, T, upto - 1), ChunkStart(|a|, T, upto), k);
    }
  }

  /** Once every thread has combined, the shared result is the product:
      the chunks partition all of `A`'s indices. */
  lemma AllThreadsGiveCoeff(a: seq<int>, b: seq<int>, T: nat, k: int)
    requires 0 < T
    ensures ThreadSum(a, b, T, T, k) == Coeff(a, b, k)
  {
    ThreadSumIsPrefix(a, b, T, T, k);
    ChunkBounds(|a|, T, 0);
  }

  /** The combine loop's first index `tid * r / thread_count` is inside the
      result for every thread of the team. */
  lemma CombineStartInRange(tid: nat, r: nat, T: nat)
    requires tid < T && 0 < r
    ensures tid * r / T < r
  {
    var q := tid * r / T;
    assert q * T <= tid * r;
    assert tid * r < T * r;
  }

  /** The index the combine loop touches in its `i`-th iteration when it
      starts at `s`: `s + i`, wrapped to the front once it passes the end. */
  function CombineIndex(s: nat, i: nat, r: nat): nat
    requires s < r && i < r
  {
    if s + i < r then s + i else s + i - r
  }

  /** The indices touched in iterations `0 .. i - 1`. */
  predicate Combined(s: nat, i: nat, r: nat, x: int)
  {
    s <= x < s + i || x < s + i - r
  }

  /** The combine loop touches every index of `[0, r)` exactly once: the
      index of iteration `i` has not been touched before, it is touched now,
      and (`CombinedAll`) after `r` iterations all of `[0, r)` has been. */
  lemma CombineOnce(s: nat, i: nat, r: nat)
    requires s < r && i < r
    ensures !Combined(s, i, r, CombineIndex(s, i, r))
    ensures forall x :: 0 <= x < r ==> (Combined(s, i + 1, r, x) <==> Combined(s, i, r, x) || x == CombineIndex(s, i, r))
  {
  }

  /** The wrapped index is the rotation `(s + i) % r`. */
  lemma CombineIndexIsRotation(s: nat, i: nat, r: nat)
    requires s < r && i < r
    ensures CombineIndex(s, i, r) == (s + i) % r
  {
    if r <= s + i {
      assert s + i == 1 * r + (s + i - r);
    }
  }

  /** After `r` iterations every index has been combined. */
  lemma CombinedAll(s: nat, r: nat, x: int)
    requires s < r && 0 <= x < r
    ensures Combined(s, r, r, x)
  {
  }

  /** The combine loop of thread `tid`: starting at `tid * r / thread_count`
      and wrapping to 0 at the end, `R_global[k] += R_local[k]` once for
      every `k` in `[0, r)`. Only `R_global` is written. */
  method Combine(RGlobal: array<int>, RLocal: array<int>, r: nat, tid: nat, threadCount: nat)
    requires RGlobal != RLocal && RGlobal.Length == r && RLocal.Length == r
    requires 0 < r && tid < threadCount
    modifies RGlobal
    ensures forall x :: 0 <= x < r ==> RGlobal[x] == old(RGlobal[x]) + RLocal[x]
  {
    var k := tid * r / threadCount;
    CombineStartInRange(tid, r, threadCount);
    ghost var s := k;
    for i := 0 to r
      invariant k == if s + i <= r then s + i else s + i - r
      invariant forall x :: 0 <= x < r ==> RGlobal[x] == old(RGlobal[x]) + (if Combined(s, i, r, x) then RLocal[x] else 0)
    {
      if k >= r {
        k := 0;
      }
      CombineOnce(s, i, r);
      assert k == CombineIndex(s, i, r);
      RGlobal[k] := RGlobal[k] + RLocal[k];
      k := k + 1;
    }
    forall x | 0 <= x < r
      ensures Combined(s, r, r, x)
    {
      CombinedAll(s, r, x);
    }
  }

  /** One thread's private array: zeroed, then the double loop over the
      thread's chunk `[lo, hi)` of `A`'s indices, so cell `k` holds the sum of
      `A[i] * B[j]` over the thread's `i` with `i + j == k`. */
  method ThreadLocal(A: array<int>, n: nat, B: array<int>, m: nat, lo: nat, hi: nat) returns (RLocal: array<int>)
    requires n < A.Length && m < B.Length && lo <= hi <= n + 1
    ensures fresh(RLocal) && RLocal.Length == n + m + 1
    ensures forall k :: 0 <= k < RLocal.Length ==> RLocal[k] == ConvRange(A[..n + 1], B[..m + 1], lo, hi, k)
  {
    RLocal := new int[n + m + 1](_ => 0);
    Accumulate(A, n, B, m, lo, hi, RLocal);
  }

  /** `m_parallel`: a fresh `R_global` of `n + m + 1` cells holding
      afterwards, for any team size, coefficient `k` of the product of
      `A[0..n]` and `B[0..m]` in cell `k` -- hence the same array as
      `m_serial` computes. */
  method Multiply(A: array<int>, n: nat, B: array<int>, m: nat, threadCount: nat) returns (RGlobal: array<int>)
    requires n < A.Length && m < B.Length && 0 < threadCount
    ensures fresh(RGlobal) && RGlobal.Length == n + m + 1
    ensures forall k :: 0 <= k < RGlobal.Length ==> RGlobal[k] == Coeff(A[..n + 1], B[..m + 1], k)
  {
    ghost var a, b := A[..n + 1], B[..m + 1];
    var r := n + m + 1;
    RGlobal := new int[r](_ => 0);
    for tid := 0 to threadCount
      invariant fresh(RGlobal) && RGlobal.Length == r
      invariant forall k :: 0 <= k < r ==> RGlobal[k] == ThreadSum(a, b, threadCount, tid, k)
    {
      ChunkInRange(n + 1, threadCount, tid);
      var RLocal := ThreadLocal(A, n, B, m, ChunkStart(n + 1, threadCount, tid), ChunkStart(n + 1, threadCount, tid + 1));
      Combine(RGlobal, RLocal, r, tid, threadCount);
    }
    forall k | 0 <= k < r
      ensures RGlobal[k] == Coeff(a, b, k)
    {
      AllThreadsGiveCoeff(a, b, threadCount, k);
    }
  }
}
