/** Repeated dense matrix-vector products with a pair of ping-pong buffers,
    serial and as a sequential simulation of the thread team. */
module Matvecs {
  import opened DenseSpec
  import opened Partition

  /** Copies the first `size` entries of `x` into `res` (the `iters < 1` path).
      `x` and `res` may be the same array. */
  method CopyVector(x: array<int>, res: array<int>, size: nat)
    requires size <= x.Length && size <= res.Length
    modifies res
    ensures res[..size] == old(x[..size])
    ensures res[size..] == old(res[size..])
  {
    for i := 0 to size
      invariant forall k :: 0 <= k < i ==> res[k] == old(x[k])
      invariant forall k :: i <= k < x.Length ==> x[k] == old(x[k])
      invariant forall k :: i <= k < res.Length ==> res[k] == old(res[k])
    {
      res[i] := x[i];
    }
  }

  /** Copies `size` entries of `buf` from offset `off` into `res` (the final
      copy of the last written buffer into the caller's vector). */
  method CopyOut(buf: array<int>, off: nat, res: array<int>, size: nat)
    requires off + size <= buf.Length && size <= res.Length && buf != res
    modifies res
    ensures res[..size] == buf[off..off + size]
    ensures res[size..] == old(res[size..])
  {
    for i := 0 to size
      invariant forall k :: 0 <= k < i ==> res[k] == buf[off + k]
      invariant forall k :: i <= k < res.Length ==> res[k] == old(res[k])
    {
      res[i] := buf[off + i];
    }
  }

  /** Start of buffer `b` (0 or 1) inside the single allocation that holds
      both ping-pong buffers: `x_tmp[1]` is `&x_tmp[0][size]`. */
  function BufferStart(b: nat, size: nat): nat
  {
    if b % 2 == 0 then 0 else size
  }

  /** Consecutive rounds use the two buffers alternately. */
  lemma BufferAlternates(r: nat, size: nat)
    ensures BufferStart(r, size) == 0 || BufferStart(r, size) == size
    ensures BufferStart(r + 1, size) == size - BufferStart(r, size)
  {
  }

  /** One output entry: `buf[out]` is zeroed and then accumulates
      `row[j] * buf[rd + j]` for `j` from left to right; only `buf[out]` changes. */
  method DenseRow(row: seq<int>, buf: array<int>, rd: nat, out: nat, size: nat, ghost cur: seq<int>)
    requires |row| == size && |cur| == size
    requires rd + size <= buf.Length && out < buf.Length && !(rd <= out < rd + size)
    requires buf[rd..rd + size] == cur
    modifies buf
    ensures buf[out] == Dot(row, cur)
    ensures forall k :: 0 <= k < buf.Length && k != out ==> buf[k] == old(buf[k])
  {
    buf[out] := 0;
    for j := 0 to size
      invariant forall k :: 0 <= k < buf.Length && k != out ==> buf[k] == old(buf[k])
      invariant buf[out] == Dot(row[..j], cur)
    {
      assert row[..j + 1][..j] == row[..j];
      assert buf[rd + j] == cur[j];
      buf[out] := buf[out] + row[j] * buf[rd + j];
    }
    assert row[..size] == row;
  }

  /** One dense round, `res_curr[i] = sum over j of A[i][j] * x_curr[j]`:
      the `size` cells from `wr` receive `MatVec(a, cur)` where `cur` is what
      the cells from `rd` hold; nothing else in `buf` changes. */
  method DenseRound(a: seq<seq<int>>, buf: array<int>, rd: nat, wr: nat, size: nat, ghost cur: seq<int>)
    requires IsSquare(a, size) && |cur| == size
    requires rd + size <= buf.Length && wr + size <= buf.Length
    requires rd + size <= wr || wr + size <= rd
    requires buf[rd..rd + size] == cur
    modifies buf
    ensures buf[wr..wr + size] == MatVec(a, cur)
    ensures forall k :: 0 <= k < buf.Length && !(wr <= k < wr + size) ==> buf[k] == old(buf[k])
  {
    for i := 0 to size
      invariant buf[rd..rd + size] == cur
      invariant buf[wr..wr + i] == MatVec(a[..i], cur)
      invariant forall k :: 0 <= k < buf.Length && !(wr <= k < wr + i) ==> buf[k] == old(buf[k])
    {
      ghost var before := buf[..];
      DenseRow(a[i], buf, rd, wr + i, size, cur);
      ExtendWindow(before, buf[..], rd, size, wr, i, MatVec(a[..i], cur), Dot(a[i], cur));
      assert a[..i + 1][..i] == a[..i];
    }
    assert a[..size] == a;
  }

  /** Writing one cell `wr + i` just past a window `[wr, wr + i)` and outside
      the read window `[rd, rd + size)`: the read window is unchanged and the
      written window grows by that cell. */
  lemma ExtendWindow(before: seq<int>, after: seq<int>, rd: nat, size: nat, wr: nat, i: nat, prefix: seq<int>, x: int)
    requires |after| == |before| && rd + size <= |before| && wr + i < |before| && !(rd <= wr + i < rd + size)
    requires before[wr..wr + i] == prefix
    requires forall k :: 0 <= k < |before| && k != wr + i ==> after[k] == before[k]
    requires after[wr + i] == x
    ensures after[rd..rd + size] == before[rd..rd + size]
    ensures after[wr..wr + i + 1] == prefix + [x]
  {
    assert after[wr..wr + i] == before[wr..wr + i];
    assert after[wr..wr + i + 1] == after[wr..wr + i] + [after[wr + i]];
  }

  /** The rounds of the serial engine: round `r` reads buffer `r % 2` and
      writes buffer `(r + 1) % 2`, so after `iters` rounds buffer `iters % 2`
      holds `iters` products of the vector that started in buffer 0. */
  method DenseRounds(a: seq<seq<int>>, xTmp: array<int>, size: nat, iters: nat, ghost x0: seq<int>) returns (resCurr: nat)
    requires IsSquare(a, size) && |x0| == size && xTmp.Length == 2 * size
    requires 1 <= iters && xTmp[..size] == x0
    modifies xTmp
    ensures resCurr == BufferStart(iters, size)
    ensures xTmp[resCurr..resCurr + size] == Apply(a, x0, iters)
  {
    var xCurr := 0;
    resCurr := size;
    var r := 0;
    while r < iters
      invariant 0 <= r <= iters
      invariant r > 0 ==> resCurr == BufferStart(r, size)
      invariant xTmp[BufferStart(r, size)..BufferStart(r, size) + size] == Apply(a, x0, r)
    {
      BufferAlternates(r, size);
      xCurr, resCurr := BufferStart(r, size), BufferStart(r + 1, size);
      DenseRound(a, xTmp, xCurr, resCurr, size, Apply(a, x0, r));
      r := r + 1;
    }
  }

  /** Serial engine: `res` receives `a` applied `iters` times to `x`; with
      `iters < 1` it receives `x` itself. Only `res` is written. */
  method Matvecs(a: seq<seq<int>>, x: array<int>, res: array<int>, size: nat, iters: int)
    requires IsSquare(a, size)
    requires size <= x.Length && size <= res.Length
    modifies res
    ensures res[..size] == Apply(a, old(x[..size]), Rounds(iters))
    ensures res[size..] == old(res[size..])
  {
    if iters < 1 {
      CopyVector(x, res, size);
      return;
    }
    var xTmp := new int[2 * size];
    CopyVector(x, xTmp, size);
    var resCurr := DenseRounds(a, xTmp, size, iters, x[..size]);
    CopyOut(xTmp, resCurr, res, size);
  }

  // ---------------------------------------------------------------------
  // matvecs_parallel, simulated one thread after another. Thread `t` owns
  // the rows `[ChunkStart(size, t_count, t), ChunkStart(size, t_count, t + 1))`
  // of every round, keeps its own buffer pair `bufs[t]` (a single array of
  // `2 * size` entries, like `x_tmp` in the source), and remembers the first
  // and one-past-last row it computed in `my_start_idx` / `my_end_idx`.
  // ---------------------------------------------------------------------

  /** A window of `b` agreeing with `w` entry by entry is `w`. */
  lemma SliceOfPoints(b: seq<int>, off: nat, w: seq<int>)
    requires off + |w| <= |b|
    requires forall k :: 0 <= k < |w| ==> b[off + k] == w[k]
    ensures b[off..off + |w|] == w
  {
    assert forall k :: 0 <= k < |w| ==> b[off..off + |w|][k] == w[k];
  }

  /** The per-thread buffers are separate allocations. */
  ghost predicate Distinct(bufs: seq<array<int>>)
  {
    forall t, u :: 0 <= t < u < |bufs| ==> bufs[t] != bufs[u]
  }

  ghost function Footprint(bufs: seq<array<int>>): set<object>
  {
    set t | 0 <= t < |bufs| :: bufs[t]
  }

  /** What `my_start_idx` / `my_end_idx` hold once thread `t` has run its
      share of one round: its chunk, or `-1, -1` when the chunk is empty. */
  ghost predicate Marks(size: nat, tCount: nat, t: nat, s: int, e: int)
    requires 0 < tCount && t < tCount
  {
    var lo, hi := ChunkStart(size, tCount, t), ChunkStart(size, tCount, t + 1);
    if lo < hi then s == lo && e == hi else s == -1 && e == -1
  }

  /** One thread's share of the `omp for` loop of one round: rows `[lo, hi)`
      of its write buffer, with the `my_start_idx` / `my_end_idx` updates. */
  method ThreadRows(a: seq<seq<int>>, buf: array<int>, rd: nat, wr: nat, lo: nat, hi: nat, size: nat,
                    ghost cur: seq<int>, s0: int, e0: int) returns (s: int, e: int)
    requires IsSquare(a, size) && |cur| == size && lo <= hi <= size
    requires rd + size <= buf.Length && wr + size <= buf.Length
    requires rd + size <= wr || wr + size <= rd
    requires buf[rd..rd + size] == cur
    modifies buf
    ensures s == (if s0 < 0 && lo < hi then lo else s0)
    ensures e == (if lo < hi then hi else e0)
    ensures forall k :: lo <= k < hi ==> buf[wr + k] == Dot(a[k], cur)
    ensures forall k :: 0 <= k < buf.Length && !(wr + lo <= k < wr + hi) ==> buf[k] == old(buf[k])
  {
    s, e := s0, e0;
    for i := lo to hi
      invariant s == (if s0 < 0 && lo < i then lo else s0)
      invariant e == (if lo < i then i else e0)
      invariant buf[rd..rd + size] == cur
      invariant forall k :: lo <= k < i ==> buf[wr + k] == Dot(a[k], cur)
      invariant forall k :: 0 <= k < buf.Length && !(wr + lo <= k < wr + i) ==> buf[k] == old(buf[k])
    {
      if s < 0 {
        s := i;
      }
      e := i + 1;
      DenseRow(a[i], buf, rd, wr + i, size, cur);
    }
  }

  /** Every thread's marks describe its chunk (true from the end of round 0 on). */
  ghost predicate Marked(size: nat, tCount: nat, starts: seq<int>, ends: seq<int>)
    requires 0 < tCount
  {
    |starts| == tCount && |ends| == tCount &&
    forall t :: 0 <= t < tCount ==> Marks(size, tCount, t, starts[t], ends[t])
  }

  /** The marks before round 0: `my_start_idx = my_end_idx = -1` for all threads. */
  ghost predicate Unmarked(tCount: nat, starts: seq<int>, ends: seq<int>)
  {
    |starts| == tCount && |ends| == tCount &&
    forall t :: 0 <= t < tCount ==> starts[t] == -1 && ends[t] == -1
  }

  /** Thread `t` owns row `k` in every round. */
  ghost predicate Owns(size: nat, tCount: nat, t: nat, k: int)
    requires 0 < tCount && t < tCount
  {
    ChunkStart(size, tCount, t) <= k < ChunkStart(size, tCount, t + 1)
  }

  /** The `omp for` of one round over the whole team: every thread computes
      the rows it owns into the write half of its own buffer pair and leaves
      everything else in its buffers, in particular the read half, alone. */
  method ComputePhase(a: seq<seq<int>>, bufs: seq<array<int>>, rd: nat, wr: nat, size: nat,
                      ghost cur: seq<int>, starts: seq<int>, ends: seq<int>)
    returns (starts': seq<int>, ends': seq<int>)
    requires IsSquare(a, size) && |cur| == size && 0 < |bufs| && Distinct(bufs)
    requires (rd == 0 && wr == size) || (rd == size && wr == 0)
    requires forall t :: 0 <= t < |bufs| ==> bufs[t].Length == 2 * size && bufs[t][rd..rd + size] == cur
    requires Unmarked(|bufs|, starts, ends) || Marked(size, |bufs|, starts, ends)
    modifies Footprint(bufs)
    ensures Marked(size, |bufs|, starts', ends')
    ensures forall t, k :: 0 <= t < |bufs| && 0 <= k < size && Owns(size, |bufs|, t, k) ==> bufs[t][wr + k] == MatVec(a, cur)[k]
    ensures forall t, k :: 0 <= t < |bufs| && 0 <= k < bufs[t].Length && !(wr <= k < wr + size) ==> bufs[t][k] == old(bufs[t][k])
  {
    var tCount := |bufs|;
    starts', ends' := starts, ends;
    for t := 0 to tCount
      invariant |starts'| == tCount && |ends'| == tCount
      invariant forall u :: 0 <= u < t ==> Marks(size, tCount, u, starts'[u], ends'[u])
      invariant forall u :: t <= u < tCount ==> starts'[u] == starts[u] && ends'[u] == ends[u]
      invariant forall u, k :: 0 <= u < t && 0 <= k < size && Owns(size, tCount, u, k) ==> bufs[u][wr + k] == MatVec(a, cur)[k]
      invariant forall u, k :: 0 <= u < tCount && 0 <= k < bufs[u].Length && !(wr <= k < wr + size) ==> bufs[u][k] == old(bufs[u][k])
      invariant forall u :: t <= u < tCount ==> bufs[u][..] == old(bufs[u][..])
    {
      assert bufs[t][rd..rd + size] == old(bufs[t][rd..rd + size]);
      var s, e := ComputeStep(a, bufs, t, rd, wr, size, cur, starts'[t], ends'[t]);
      starts', ends' := starts'[t := s], ends'[t := e];
    }
  }

  /** Thread `t`'s share of the `omp for` loop as a step of the team: its
      own rows of the write half receive their entries of the product, its
      marks come to describe its chunk, and nothing but the write half of its
      own buffer pair changes. */
  method ComputeStep(a: seq<seq<int>>, bufs: seq<array<int>>, t: nat, rd: nat, wr: nat, size: nat,
                     ghost cur: seq<int>, s0: int, e0: int) returns (s: int, e: int)
    requires IsSquare(a, size) && |cur| == size && t < |bufs|
    requires (rd == 0 && wr == size) || (rd == size && wr == 0)
    requires bufs[t].Length == 2 * size && bufs[t][rd..rd + size] == cur
    requires (s0 == -1 && e0 == -1) || Marks(size, |bufs|, t, s0, e0)
    modifies bufs[t]
    ensures Marks(size, |bufs|, t, s, e)
    ensures forall k :: 0 <= k < size && Owns(size, |bufs|, t, k) ==> bufs[t][wr + k] == MatVec(a, cur)[k]
    ensures forall k :: 0 <= k < bufs[t].Length && !(wr <= k < wr + size) ==> bufs[t][k] == old(bufs[t][k])
  {
    var lo, hi := ChunkStart(size, |bufs|, t), ChunkStart(size, |bufs|, t + 1);
    ChunkInRange(size, |bufs|, t);
    s, e := ThreadRows(a, bufs[t], rd, wr, lo, hi, size, cur, s0, e0);
    forall k | lo <= k < hi
      ensures bufs[t][wr + k] == MatVec(a, cur)[k]
    {
      MatVecAt(a, cur, k);
    }
  }

  /** Copies the marked rows `[s, e)` of `src` (read at offset `srcOff`) into
      `dst` (written at offset `dstOff`); the marks `-1, -1` copy nothing. */
  method CopyChunk(src: array<int>, srcOff: nat, dst: array<int>, dstOff: nat, s: int, e: int)
    requires src != dst
    requires (s == -1 && e == -1) || (0 <= s <= e && srcOff + e <= src.Length && dstOff + e <= dst.Length)
    modifies dst
    ensures forall k :: dstOff + s <= k < dstOff + e ==> dst[k] == src[srcOff - dstOff + k]
    ensures forall k :: 0 <= k < dst.Length && !(dstOff + s <= k < dstOff + e) ==> dst[k] == old(dst[k])
  {
    for i := s to e
      invariant forall k :: dstOff + s <= k < dstOff + i ==> dst[k] == src[srcOff - dstOff + k]
      invariant forall k :: 0 <= k < dst.Length && !(dstOff + s <= k < dstOff + i) ==> dst[k] == old(dst[k])
    {
      dst[dstOff + i] := src[srcOff + i];
    }
  }

  /** Thread `t`'s part of the combine step: its marked rows of the write
      half go to the write half of every other thread's buffers. */
  method BroadcastThread(bufs: seq<array<int>>, t: nat, wr: nat, size: nat, s: int, e: int)
    requires t < |bufs| && Distinct(bufs)
    requires forall u :: 0 <= u < |bufs| ==> bufs[u].Length == 2 * size
    requires wr == 0 || wr == size
    requires (s == -1 && e == -1) || (0 <= s <= e <= size)
    modifies Footprint(bufs)
    ensures bufs[t][..] == old(bufs[t][..])
    ensures forall u, k :: 0 <= u < |bufs| && wr + s <= k < wr + e ==> bufs[u][k] == bufs[t][k]
    ensures forall u, k :: 0 <= u < |bufs| && 0 <= k < 2 * size && !(wr + s <= k < wr + e) ==> bufs[u][k] == old(bufs[u][k])
  {
    for u := 0 to |bufs|
      invariant bufs[t][..] == old(bufs[t][..])
      invariant forall v, k :: 0 <= v < u && wr + s <= k < wr + e ==> bufs[v][k] == bufs[t][k]
      invariant forall v, k :: 0 <= v < |bufs| && 0 <= k < 2 * size && !(wr + s <= k < wr + e) ==> bufs[v][k] == old(bufs[v][k])
      invariant forall v :: u <= v < |bufs| ==> bufs[v][..] == old(bufs[v][..])
    {
      if u != t {
        CopyChunk(bufs[t], wr, bufs[u], wr, s, e);
      }
    }
  }

  /** Thread `t`'s broadcast as a step of the combine loop: if every buffer
      already holds `next` at the rows its own thread owns and at the rows of
      the threads before `t`, then afterwards it also holds `next` at the rows
      of thread `t`. */
  method BroadcastStep(bufs: seq<array<int>>, t: nat, wr: nat, size: nat, ghost next: seq<int>, s: int, e: int)
    requires t < |bufs| && Distinct(bufs) && |next| == size
    requires forall u :: 0 <= u < |bufs| ==> bufs[u].Length == 2 * size
    requires wr == 0 || wr == size
    requires Marks(size, |bufs|, t, s, e)
    requires forall u, k :: 0 <= u < |bufs| && 0 <= k < size && (Owns(size, |bufs|, u, k) || k < ChunkStart(size, |bufs|, t)) ==> bufs[u][wr + k] == next[k]
    modifies Footprint(bufs)
    ensures forall u, k :: 0 <= u < |bufs| && 0 <= k < size && (Owns(size, |bufs|, u, k) || k < ChunkStart(size, |bufs|, t + 1)) ==> bufs[u][wr + k] == next[k]
    ensures forall u, k :: 0 <= u < |bufs| && 0 <= k < 2 * size && !(wr <= k < wr + size) ==> bufs[u][k] == old(bufs[u][k])
  {
    var lo, hi := ChunkStart(size, |bufs|, t), ChunkStart(size, |bufs|, t + 1);
    ChunkInRange(size, |bufs|, t);
    assert (s == -1 && e == -1) || (0 <= s <= e <= size);
    BroadcastThread(bufs, t, wr, size, s, e);
    forall u, k | 0 <= u < |bufs| && 0 <= k < size && (Owns(size, |bufs|, u, k) || k < hi)
      ensures bufs[u][wr + k] == next[k]
    {
      if lo <= k < hi {
        assert bufs[u][wr + k] == bufs[t][wr + k] == old(bufs[t][wr + k]);
        assert Owns(size, |bufs|, t, k);
      } else {
        assert bufs[u][wr + k] == old(bufs[u][wr + k]);
      }
    }
  }

  /** The combine step of one round over the whole team: once every thread
      has broadcast its rows, every buffer's write half holds the full
      product. Only write halves are touched. */
  method BroadcastPhase(bufs: seq<array<int>>, wr: nat, size: nat, ghost next: seq<int>,
                        starts: seq<int>, ends: seq<int>)
    requires 0 < |bufs| && Distinct(bufs) && |next| == size
    requires forall u :: 0 <= u < |bufs| ==> bufs[u].Length == 2 * size
    requires wr == 0 || wr == size
    requires Marked(size, |bufs|, starts, ends)
    requires forall u, k :: 0 <= u < |bufs| && 0 <= k < size && Owns(size, |bufs|, u, k) ==> bufs[u][wr + k] == next[k]
    modifies Footprint(bufs)
    ensures forall u :: 0 <= u < |bufs| ==> bufs[u][wr..wr + size] == next
    ensures forall u, k :: 0 <= u < |bufs| && 0 <= k < 2 * size && !(wr <= k < wr + size) ==> bufs[u][k] == old(bufs[u][k])
  {
    var tCount := |bufs|;
    for t := 0 to tCount
      invariant forall u, k :: 0 <= u < tCount && 0 <= k < size && (Owns(size, tCount, u, k) || k < ChunkStart(size, tCount, t)) ==> bufs[u][wr + k] == next[k]
      invariant forall u, k :: 0 <= u < tCount && 0 <= k < 2 * size && !(wr <= k < wr + size) ==> bufs[u][k] == old(bufs[u][k])
    {
      ChunkInRange(size, tCount, t);
      assert Marks(size, tCount, t, starts[t], ends[t]);
      BroadcastStep(bufs, t, wr, size, next, starts[t], ends[t]);
    }
    ChunkBounds(size, tCount, 0);
    forall u | 0 <= u < tCount
      ensures bufs[u][wr..wr + size] == next
    {
      SliceOfPoints(bufs[u][..], wr, next);
    }
  }

  /** One round `r` of the team: every thread reads the half `r % 2` of its
      own buffer pair and, after the compute and combine steps, every
      buffer's other half holds the product. */
  method ParallelRound(a: seq<seq<int>>, bufs: seq<array<int>>, r: nat, size: nat, ghost cur: seq<int>,
                       starts: seq<int>, ends: seq<int>)
    returns (starts': seq<int>, ends': seq<int>)
    requires IsSquare(a, size) && |cur| == size && 0 < |bufs| && Distinct(bufs)
    requires forall t :: 0 <= t < |bufs| ==> bufs[t].Length == 2 * size
    requires forall t :: 0 <= t < |bufs| ==> bufs[t][BufferStart(r, size)..BufferStart(r, size) + size] == cur
    requires Unmarked(|bufs|, starts, ends) || Marked(size, |bufs|, starts, ends)
    modifies Footprint(bufs)
    ensures Marked(size, |bufs|, starts', ends')
    ensures forall t :: 0 <= t < |bufs| ==> bufs[t][BufferStart(r + 1, size)..BufferStart(r + 1, size) + size] == MatVec(a, cur)
  {
    BufferAlternates(r, size);
    var rd, wr := BufferStart(r, size), BufferStart(r + 1, size);
    starts', ends' := ComputePhase(a, bufs, rd, wr, size, cur, starts, ends);
    BroadcastPhase(bufs, wr, size, MatVec(a, cur), starts', ends');
  }

  /** All `iters` rounds; afterwards every buffer holds the `iters`-th
      iterate in half `iters % 2`. */
  method ParallelRounds(a: seq<seq<int>>, bufs: seq<array<int>>, size: nat, iters: nat, ghost x0: seq<int>)
    returns (starts: seq<int>, ends: seq<int>)
    requires IsSquare(a, size) && |x0| == size && 0 < |bufs| && Distinct(bufs) && 1 <= iters
    requires forall t :: 0 <= t < |bufs| ==> bufs[t].Length == 2 * size && bufs[t][..size] == x0
    modifies Footprint(bufs)
    ensures Marked(size, |bufs|, starts, ends)
    ensures forall t :: 0 <= t < |bufs| ==> bufs[t][BufferStart(iters, size)..BufferStart(iters, size) + size] == Apply(a, x0, iters)
  {
    starts, ends := seq(|bufs|, _ => -1), seq(|bufs|, _ => -1);
    var r := 0;
    while r < iters
      invariant r <= iters
      invariant r == 0 ==> Unmarked(|bufs|, starts, ends)
      invariant r > 0 ==> Marked(size, |bufs|, starts, ends)
      invariant forall t :: 0 <= t < |bufs| ==> bufs[t][BufferStart(r, size)..BufferStart(r, size) + size] == Apply(a, x0, r)
    {
      starts, ends := ParallelRound(a, bufs, r, size, Apply(a, x0, r), starts, ends);
      r := r + 1;
    }
  }

  /** One thread's final copy: the rows `[s, e)` it marked, from the half at
      `off` of its own buffer into `res`. */
  method CopyOwnRows(src: array<int>, off: nat, res: array<int>, size: nat, ghost v: seq<int>, s: int, e: int)
    requires src != res && |v| == size && size <= res.Length && off + size <= src.Length
    requires src[off..off + size] == v
    requires (s == -1 && e == -1) || (0 <= s <= e <= size)
    modifies res
    ensures forall k :: s <= k < e ==> res[k] == v[k]
    ensures forall k :: 0 <= k < res.Length && !(s <= k < e) ==> res[k] == old(res[k])
  {
    assert forall k :: 0 <= k < size ==> src[off..off + size][k] == v[k];
    CopyChunk(src, off, res, 0, s, e);
  }

  /** The final copy: each thread writes the rows it marked from its own
      buffer into `res`; together they fill `res[..size]`. */
  method FinalCopy(bufs: seq<array<int>>, off: nat, res: array<int>, size: nat, ghost v: seq<int>,
                   starts: seq<int>, ends: seq<int>)
    requires 0 < |bufs| && |v| == size && size <= res.Length && (off == 0 || off == size)
    requires forall t :: 0 <= t < |bufs| ==> bufs[t] != res && bufs[t].Length == 2 * size && bufs[t][off..off + size] == v
    requires Marked(size, |bufs|, starts, ends)
    modifies res
    ensures res[..size] == v
    ensures res[size..] == old(res[size..])
  {
    var tCount := |bufs|;
    for t := 0 to tCount
      invariant ChunkStart(size, tCount, t) <= size
      invariant forall k :: 0 <= k < ChunkStart(size, tCount, t) ==> res[k] == v[k]
      invariant forall k :: size <= k < res.Length ==> res[k] == old(res[k])
    {
      ChunkInRange(size, tCount, t);
      assert Marks(size, tCount, t, starts[t], ends[t]);
      CopyOwnRows(bufs[t], off, res, size, v, starts[t], ends[t]);
    }
    ChunkBounds(size, tCount, 0);
    assert forall k :: 0 <= k < size ==> res[..size][k] == v[k];
  }

  /** Allocates one buffer pair per thread of the team, each a separate
      `2 * size` array whose first half is a copy of `x`. */
  method AllocateBuffers(x: array<int>, size: nat, tCount: nat) returns (bufs: seq<array<int>>)
    requires size <= x.Length
    ensures |bufs| == tCount && Distinct(bufs)
    ensures forall t :: 0 <= t < tCount ==> fresh(bufs[t]) && bufs[t].Length == 2 * size && bufs[t][..size] == x[..size]
  {
    bufs := [];
    for t := 0 to tCount
      invariant |bufs| == t && Distinct(bufs)
      invariant forall u :: 0 <= u < t ==> fresh(bufs[u]) && bufs[u].Length == 2 * size && bufs[u][..size] == x[..size]
    {
      var b := new int[2 * size];
      CopyVector(x, b, size);
      bufs := bufs + [b];
    }
  }

  /** `matvecs_parallel`: the same `iters` products as `Matvecs`, computed by
      a team of `threadCount` threads (simulated one after another in thread
      order) that each keep a private buffer pair, compute their static chunk
      of rows and then write it into every other thread's buffer. The result
      is the serial engine's result. */
  method MatvecsParallel(a: seq<seq<int>>, x: array<int>, res: array<int>, size: nat, iters: int, threadCount: nat)
    requires IsSquare(a, size) && size <= x.Length && size <= res.Length && 0 < threadCount
    modifies res
    ensures res[..size] == Apply(a, old(x[..size]), Rounds(iters))
    ensures res[size..] == old(res[size..])
  {
    if iters < 1 {
      CopyVector(x, res, size);
      return;
    }
    var bufs := AllocateBuffers(x, size, threadCount);
    var starts, ends := ParallelRounds(a, bufs, size, iters, x[..size]);
    FinalCopy(bufs, BufferStart(iters, size), res, size, Apply(a, x[..size], iters), starts, ends);
  }
}
