/** The static partition of `n` loop iterations over `t` threads that an
    OpenMP `for` loop without a chunk size uses: contiguous chunks in thread
    order, the first `n % t` threads getting one iteration more than the rest. */
module Partition {

  /** First iteration owned by thread `tid`; thread `tid` owns
      `[ChunkStart(n, t, tid), ChunkStart(n, t, tid + 1))`. */
  function ChunkStart(n: nat, t: nat, tid: nat): nat
    requires 0 < t && tid <= t
  {
    tid * (n / t) + (if tid < n % t then tid else n % t)
  }

  /** Chunk boundaries: they start at 0, end at `n`, and each chunk holds
      `n / t` iterations plus one for the first `n % t` threads. */
  lemma ChunkBounds(n: nat, t: nat, tid: nat)
    requires 0 < t && tid < t
    ensures ChunkStart(n, t, 0) == 0
    ensures ChunkStart(n, t, t) == n
    ensures ChunkStart(n, t, tid + 1) - ChunkStart(n, t, tid) == n / t + (if tid < n % t then 1 else 0)
  {
    assert ChunkStart(n, t, t) == t * (n / t) + n % t;
    assert (tid + 1) * (n / t) == tid * (n / t) + n / t;
  }

  /** Chunks are in thread order: a lower thread's chunk starts no later. */
  lemma {:induction false} ChunkMonotone(n: nat, t: nat, lo: nat, hi: nat)
    requires 0 < t && lo <= hi <= t
    ensures ChunkStart(n, t, lo) <= ChunkStart(n, t, hi)
    decreases hi - lo
  {
    if lo < hi {
      ChunkBounds(n, t, lo);
      ChunkMonotone(n, t, lo + 1, hi);
    }
  }

  /** Every chunk lies inside `[0, n]`. */
  lemma ChunkInRange(n: nat, t: nat, tid: nat)
    requires 0 < t && tid < t
    ensures ChunkStart(n, t, tid) <= ChunkStart(n, t, tid + 1) <= n
  {
    ChunkBounds(n, t, tid);
    ChunkMonotone(n, t, tid + 1, t);
  }

  /** Ten rows over three threads are split 4, 3, 3 in thread order. */
  lemma TenRowsThreeThreads()
    ensures ChunkStart(10, 3, 1) == 4 && ChunkStart(10, 3, 2) == 7 && ChunkStart(10, 3, 3) == 10
  {
  }
}
