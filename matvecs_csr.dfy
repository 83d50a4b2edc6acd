/** Repeated CSR matrix-vector products with a pair of ping-pong buffers,
    serial and as a sequential simulation of the thread team. */
module MatvecsCsr {
  import opened DenseSpec
  import opened CsrSpec
  import opened Partition
  import opened Matvecs
  import opened SparseMatrixCsr

  /** What the product loops assume of the matrix: its arrays exist and it
      is a well-formed square CSR matrix (`cols = rows`). */
  ghost predicate Ready(m: CsrMatrix)
    reads m, m.values, m.colIndex, m.rowPtr
  {
    m.Allocated() && WellFormed(m.Data(), m.rows)
  }

  /** The matrix is ready and currently holds the contents `c`. */
  ghost predicate Holds(m: CsrMatrix, c: CsrData)
    reads m, m.values, m.colIndex, m.rowPtr
  {
    m.Allocated() && c == m.Data() && WellFormed(c, c.rows)
  }

  /** `b` is none of the matrix's arrays. */
  ghost predicate Apart(m: CsrMatrix, b: array<int>)
    reads m
  {
    b != m.values && b != m.colIndex && b != m.rowPtr
  }

  /** One output entry of the serial engine: `buf[out]` is zeroed and then
      accumulates `values[j] * buf[rd + col_index[j]]` over row `i`'s slice;
      only `buf[out]` changes. */
  method CsrRow(m: CsrMatrix, ghost c: CsrData, i: nat, buf: array<int>, rd: nat, out: nat, ghost cur: seq<int>)
    requires Holds(m, c) && Apart(m, buf) && i < c.rows && |cur| == c.rows
    requires rd + c.rows <= buf.Length && out < buf.Length && !(rd <= out < rd + c.rows)
    requires buf[rd..rd + c.rows] == cur
    modifies buf
    ensures buf[out] == RowProduct(c, i, cur)
    ensures forall k :: 0 <= k < buf.Length && k != out ==> buf[k] == old(buf[k])
  {
    var lo, hi := m.rowPtr[i], m.rowPtr[i + 1];
    buf[out] := 0;
    for j := lo to hi
      invariant forall k :: 0 <= k < buf.Length && k != out ==> buf[k] == old(buf[k])
      invariant buf[out] == RangeSum(c.values, c.colIndex, lo, j, cur)
    {
      assert buf[rd + m.colIndex[j]] == cur[c.colIndex[j]];
      buf[out] := buf[out] + m.values[j] * buf[rd + m.colIndex[j]];
    }
  }

  /** One serial round: the `rows` cells from `wr` receive the CSR product
      of the cells from `rd`; nothing else in `buf` changes. */
  method CsrRound(m: CsrMatrix, ghost c: CsrData, buf: array<int>, rd: nat, wr: nat, ghost cur: seq<int>)
    requires Holds(m, c) && Apart(m, buf) && |cur| == c.rows
    requires rd + c.rows <= buf.Length && wr + c.rows <= buf.Length
    requires rd + c.rows <= wr || wr + c.rows <= rd
    requires buf[rd..rd + c.rows] == cur
    modifies buf
    ensures buf[wr..wr + c.rows] == CsrMatVec(c, cur)
    ensures forall k :: 0 <= k < buf.Length && !(wr <= k < wr + c.rows) ==> buf[k] == old(buf[k])
  {
    for i := 0 to m.rows
      invariant buf[rd..rd + c.rows] == cur
      invariant buf[wr..wr + i] == CsrProduct(c, cur, i)
      invariant forall k :: 0 <= k < buf.Length && !(wr <= k < wr + i) ==> buf[k] == old(buf[k])
    {
      ghost var before := buf[..];
      CsrRow(m, c, i, buf, rd, wr + i, cur);
      ExtendWindow(before, buf[..], rd, c.rows, wr, i, CsrProduct(c, cur, i), RowProduct(c, i, cur));
    }
  }

  /** The rounds of the serial engine: round `r` reads buffer `r % 2` and
      writes buffer `(r + 1) % 2`. */
  method CsrRounds(m: CsrMatrix, ghost c: CsrData, xTmp: array<int>, iters: nat, ghost x0: seq<int>) returns (xWrite: nat)
    requires Holds(m, c) && Apart(m, xTmp) && |x0| == c.rows && xTmp.Length == 2 * c.rows
    requires 1 <= iters && xTmp[..c.rows] == x0
    modifies xTmp
    ensures xWrite == BufferStart(iters, c.rows)
    ensures xTmp[xWrite..xWrite + c.rows] == CsrApply(c, x0, iters)
  {
    var size := m.rows;
    xWrite := size;
    var r := 0;
    while r < iters
      invariant 0 <= r <= iters
      invariant r > 0 ==> xWrite == BufferStart(r, size)
      invariant xTmp[BufferStart(r, size)..BufferStart(r, size) + size] == CsrApply(c, x0, r)
    {
      BufferAlternates(r, size);
      var xRead := BufferStart(r, size);
      xWrite := BufferStart(r + 1, size);
      CsrRound(m, c, xTmp, xRead, xWrite, CsrApply(c, x0, r));
      r := r + 1;
    }
  }

  /** `matvecs_csr`: `res` receives the CSR matrix applied `iters` times to
      `x`; with `iters < 1` it receives `x` itself. The vector length is the
      row count. Only `res` is written. */
  method MatvecsCsr(m: CsrMatrix, x: array<int>, res: array<int>, iters: int)
    requires Ready(m) && Apart(m, res)
    requires m.rows <= x.Length && m.rows <= res.Length
    modifies res
    ensures res[..m.rows] == CsrApply(m.Data(), old(x[..m.rows]), Rounds(iters))
    ensures res[m.rows..] == old(res[m.rows..])
  {
    var cols := m.rows;
    if iters < 1 {
      CopyVector(x, res, cols);
      return;
    }
    var xTmp := new int[2 * cols];
    CopyVector(x, xTmp, cols);
    var xWrite := CsrRounds(m, m.Data(), xTmp, iters, x[..cols]);
    CopyOut(xTmp, xWrite, res, cols);
  }

  // ---------------------------------------------------------------------
  // matvecs_csr_parallel, simulated one thread after another: the team
  // shares one buffer pair, thread `t` computes the rows of its static chunk
  // into a private `sum` and stores each once.
  // ---------------------------------------------------------------------

  /** The private `sum` of row `i`: the products over row `i`'s slice added
      from left to right. Nothing is written. */
  method RowSum(m: CsrMatrix, ghost c: CsrData, i: nat, buf: array<int>, rd: nat, ghost cur: seq<int>) returns (sum: int)
    requires Holds(m, c) && i < c.rows && |cur| == c.rows
    requires rd + c.rows <= buf.Length && buf[rd..rd + c.rows] == cur
    ensures sum == RowProduct(c, i, cur)
  {
    var lo, hi := m.rowPtr[i], m.rowPtr[i + 1];
    sum := 0;
    for j := lo to hi
      invariant sum == RangeSum(c.values, c.colIndex, lo, j, cur)
    {
      assert buf[rd + m.colIndex[j]] == cur[c.colIndex[j]];
      sum := sum + m.values[j] * buf[rd + m.colIndex[j]];
    }
  }

  /** One thread's share of a round: rows `[lo, hi)` each stored once from
      its private sum; only those cells of the write half change. */
  method ThreadCsrRows(m: CsrMatrix, ghost c: CsrData, buf: array<int>, rd: nat, wr: nat, lo: nat, hi: nat, ghost cur: seq<int>)
    requires Holds(m, c) && Apart(m, buf) && |cur| == c.rows && lo <= hi <= c.rows
    requires rd + c.rows <= buf.Length && wr + c.rows <= buf.Length
    requires rd + c.rows <= wr || wr + c.rows <= rd
    requires buf[rd..rd + c.rows] == cur
    modifies buf
    ensures forall k :: lo <= k < hi ==> buf[wr + k] == RowProduct(c, k, cur)
    ensures forall k :: 0 <= k < buf.Length && !(wr + lo <= k < wr + hi) ==> buf[k] == old(buf[k])
  {
    for i := lo to hi
      invariant buf[rd..rd + c.rows] == cur
      invariant forall k :: lo <= k < i ==> buf[wr + k] == RowProduct(c, k, cur)
      invariant forall k :: 0 <= k < buf.Length && !(wr + lo <= k < wr + i) ==> buf[k] == old(buf[k])
    {
      var sum := RowSum(m, c, i, buf, rd, cur);
      buf[wr + i] := sum;
    }
  }

  /** One round of the team: thread after thread computes its chunk; then
      the write half holds the full CSR product. */
  method ParallelCsrRound(m: CsrMatrix, ghost c: CsrData, buf: array<int>, rd: nat, wr: nat, threadCount: nat, ghost cur: seq<int>)
    requires Holds(m, c) && Apart(m, buf) && |cur| == c.rows && 0 < threadCount
    requires rd + c.rows <= buf.Length && wr + c.rows <= buf.Length
    requires rd + c.rows <= wr || wr + c.rows <= rd
    requires buf[rd..rd + c.rows] == cur
    modifies buf
    ensures buf[wr..wr + c.rows] == CsrMatVec(c, cur)
    ensures forall k :: 0 <= k < buf.Length && !(wr <= k < wr + c.rows) ==> buf[k] == old(buf[k])
  {
    var size := m.rows;
    for t := 0 to threadCount
      invariant ChunkStart(size, threadCount, t) <= size
      invariant buf[rd..rd + size] == cur
      invariant forall k :: 0 <= k < ChunkStart(size, threadCount, t) ==> buf[wr + k] == RowProduct(c, k, cur)
      invariant forall k :: 0 <= k < buf.Length && !(wr <= k < wr + size) ==> buf[k] == old(buf[k])
    {
      ChunkInRange(size, threadCount, t);
      ThreadCsrRows(m, c, buf, rd, wr, ChunkStart(size, threadCount, t), ChunkStart(size, threadCount, t + 1), cur);
    }
    ChunkBounds(size, threadCount, 0);
    forall k | 0 <= k < size
      ensures buf[wr + k] == CsrMatVec(c, cur)[k]
    {
      CsrProductAt(c, cur, size, k);
    }
    SliceOfPoints(buf[..], wr, CsrMatVec(c, cur));
  }

  /** The rounds of the team over the shared buffer pair. */
  method ParallelCsrRounds(m: CsrMatrix, ghost c: CsrData, xTmp: array<int>, iters: nat, threadCount: nat, ghost x0: seq<int>)
    returns (xWrite: nat)
    requires Holds(m, c) && Apart(m, xTmp) && |x0| == c.rows && xTmp.Length == 2 * c.rows && 0 < threadCount
    requires 1 <= iters && xTmp[..c.rows] == x0
    modifies xTmp
    ensures xWrite == BufferStart(iters, c.rows)
    ensures xTmp[xWrite..xWrite + c.rows] == CsrApply(c, x0, iters)
  {
    var size := m.rows;
    xWrite := size;
    var r := 0;
    while r < iters
      invariant 0 <= r <= iters
      invariant r > 0 ==> xWrite == BufferStart(r, size)
      invariant xTmp[BufferStart(r, size)..BufferStart(r, size) + size] == CsrApply(c, x0, r)
    {
      BufferAlternates(r, size);
      var xRead := BufferStart(r, size);
      xWrite := BufferStart(r + 1, size);
      ParallelCsrRound(m, c, xTmp, xRead, xWrite, threadCount, CsrApply(c, x0, r));
      r := r + 1;
    }
  }

  /** `matvecs_csr_parallel`: the same result as `MatvecsCsr` for any team
      size: `res` receives the CSR matrix applied `iters` times to `x`. */
  method MatvecsCsrParallel(m: CsrMatrix, x: array<int>, res: array<int>, iters: int, threadCount: nat)
    requires Ready(m) && Apart(m, res) && 0 < threadCount
    requires m.rows <= x.Length && m.rows <= res.Length
    modifies res
    ensures res[..m.rows] == CsrApply(m.Data(), old(x[..m.rows]), Rounds(iters))
    ensures res[m.rows..] == old(res[m.rows..])
  {
    var cols := m.rows;
    if iters < 1 {
      CopyVector(x, res, cols);
      return;
    }
    var xTmpGlobal := new int[2 * cols];
    CopyVector(x, xTmpGlobal, cols);
    var xWrite := ParallelCsrRounds(m, m.Data(), xTmpGlobal, iters, threadCount, x[..cols]);
    CopyOut(xTmpGlobal, xWrite, res, cols);
  }
}
