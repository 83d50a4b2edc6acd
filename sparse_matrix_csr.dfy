/** The CSR matrix object: its construction, the one-pass builder from a
    dense matrix, the (stub) parallel builder, and the comparison of two CSR
    matrices. */
module SparseMatrixCsr {
  import opened CsrSpec

  /** The status `build_csr_matrix` prints once the arrays are filled, and
      `Skipped` for a parallel build that finds no `row_ptr`. */
  datatype BuildReport = Skipped | Built(nnz: int) | Mismatch(given: int, counted: int)

  /** The status for `counted` nonzeros in `row_ptr[rows]` against the `given` count. */
  function Report(given: int, counted: int): (r: BuildReport)
    ensures r.Built? <==> counted == given
    ensures r.Built? ==> r.nnz == counted
    ensures r.Mismatch? ==> r.given == given && r.counted == counted
  {
    if counted == given then Built(counted) else Mismatch(given, counted)
  }

  /** A CSR matrix: the row count and the `values`, `col_index` and
      `row_ptr` arrays, absent until built. */
  class CsrMatrix {
    var rows: int
    var values: array?<int>
    var colIndex: array?<int>
    var rowPtr: array?<int>

    /** `init_csr_matrix`: no rows and no arrays. */
    constructor Init()
      ensures rows == 0 && values == null && colIndex == null && rowPtr == null
    {
      rows := 0;
      values := null;
      colIndex := null;
      rowPtr := null;
    }

    /** The arrays exist and `row_ptr` has `rows + 1` entries. */
    ghost predicate Allocated()
      reads this
    {
      values != null && colIndex != null && rowPtr != null && 0 <= rows && rowPtr.Length == rows + 1
    }

    /** The current contents of the matrix. */
    ghost function Data(): CsrData
      reads this, values, colIndex, rowPtr
      requires Allocated()
    {
      CsrData(rows, values[..], colIndex[..], rowPtr[..])
    }

    /** `build_csr_matrix`: fresh `values` and `col_index` arrays of `nnz`
        entries and a `row_ptr` of `numRows + 1`, filled in one pass over the
        dense matrix. The filled prefixes are the CSR form of `a`; the report
        compares the counted nonzeros, `row_ptr[numRows]`, with `nnz`. The
        writes stay in bounds only when `a` has at most `nnz` nonzeros. */
    method Build(a: seq<seq<int>>, numRows: nat, numCols: nat, nnz: nat) returns (report: BuildReport)
      requires IsMatrix(a, numRows, numCols) && Nnz(a) <= nnz
      modifies this
      ensures rows == numRows && Allocated()
      ensures fresh(values) && fresh(colIndex) && fresh(rowPtr)
      ensures values.Length == nnz && colIndex.Length == nnz
      ensures values[..Nnz(a)] == Values(a) && colIndex[..Nnz(a)] == ColIndex(a) && rowPtr[..] == RowPtr(a)
      ensures rowPtr[rows] == Nnz(a) && Represents(Data(), a)
      ensures report == Report(nnz, Nnz(a))
    {
      rows := numRows;
      var vals := new int[nnz];
      var cix := new int[nnz];
      var ptr := new int[numRows + 1];
      values, colIndex, rowPtr := vals, cix, ptr;
      ptr[0] := 0;
      var idx := FillRows(a, vals, cix, ptr);
      RowPtrEnds(a);
      report := Report(nnz, ptr[numRows]);
    }

    /** `build_csr_matrix_parallel` as written: it builds nothing and changes
        nothing. Without a `row_ptr` it returns at once; otherwise it reports
        `row_ptr[numRows]` against `nnz` as the serial builder does. */
    method BuildParallel(a: seq<seq<int>>, numRows: int, numCols: int, nnz: int, threadCount: nat)
      returns (report: BuildReport)
      requires rowPtr != null ==> 0 <= numRows < rowPtr.Length
      ensures rowPtr == null ==> report == Skipped
      ensures rowPtr != null ==> report == Report(nnz, rowPtr[numRows])
    {
      if rowPtr == null {
        return Skipped;
      }
      report := Report(nnz, rowPtr[numRows]);
    }
  }

  /** The row loop of the builder: after row `i` is scanned, `idx` and
      `row_ptr[i + 1]` count the nonzeros of rows `0..i`, and the prefixes
      of `values` and `col_index` are the CSR arrays of those rows. */
  method FillRows(a: seq<seq<int>>, vals: array<int>, cix: array<int>, ptr: array<int>) returns (idx: nat)
    requires vals != cix && vals != ptr && cix != ptr
    requires Nnz(a) <= vals.Length && Nnz(a) <= cix.Length && ptr.Length == |a| + 1 && ptr[0] == 0
    modifies vals, cix, ptr
    ensures idx == Nnz(a)
    ensures vals[..idx] == Values(a) && cix[..idx] == ColIndex(a) && ptr[..] == RowPtr(a)
  {
    idx := 0;
    for i := 0 to |a|
      invariant idx == Nnz(a[..i]) && idx <= Nnz(a)
      invariant vals[..idx] == Values(a[..i]) && cix[..idx] == ColIndex(a[..i])
      invariant ptr[..i + 1] == RowPtr(a[..i])
    {
      PrefixStep(a, i);
      NnzPrefix(a, i + 1);
      ptr[i + 1] := ptr[i];
      idx := FillRow(a[i], vals, cix, ptr, i + 1, idx);
    }
    assert a[..|a|] == a;
    assert ptr[..] == ptr[..|a| + 1];
  }

  /** The column loop for one row: every nonzero goes to `values[idx]` with
      its column in `col_index[idx]`, and `idx` and `row_ptr[slot]` advance. */
  method FillRow(row: seq<int>, vals: array<int>, cix: array<int>, ptr: array<int>, slot: nat, idx0: nat)
    returns (idx: nat)
    requires vals != cix && vals != ptr && cix != ptr
    requires idx0 + RowNnz(row) <= vals.Length && idx0 + RowNnz(row) <= cix.Length
    requires slot < ptr.Length && ptr[slot] == idx0
    modifies vals, cix, ptr
    ensures idx == idx0 + RowNnz(row) && ptr[slot] == idx
    ensures vals[..idx] == old(vals[..idx0]) + RowValues(row)
    ensures cix[..idx] == old(cix[..idx0]) + RowCols(row)
    ensures ptr[..slot] == old(ptr[..slot])
  {
    idx := idx0;
    for j := 0 to |row|
      invariant idx == idx0 + RowNnz(row[..j]) && ptr[slot] == idx
      invariant idx0 + RowNnz(row[..j]) <= idx0 + RowNnz(row)
      invariant vals[..idx] == old(vals[..idx0]) + RowValues(row[..j])
      invariant cix[..idx] == old(cix[..idx0]) + RowCols(row[..j])
      invariant ptr[..slot] == old(ptr[..slot])
    {
      assert row[..j + 1][..j] == row[..j];
      RowNnzPrefix(row, j + 1);
      var val := row[j];
      if val != 0 {
        vals[idx] := val;
        cix[idx] := j;
        idx := idx + 1;
        ptr[slot] := ptr[slot] + 1;
      }
    }
    assert row[..|row|] == row;
  }

  /** Scanning part of a row finds no more nonzeros than the whole row. */
  lemma {:induction false} RowNnzPrefix(row: seq<int>, j: nat)
    requires j <= |row|
    ensures RowNnz(row[..j]) <= RowNnz(row)
    decreases |row| - j
  {
    if j < |row| {
      RowNnzPrefix(row, j + 1);
      assert row[..j + 1][..j] == row[..j];
    } else {
      assert row[..j] == row;
    }
  }

  /** The non-negative part of a loop bound: how many iterations `for (i = 0; i < n; i++)` makes. */
  function Count(n: int): nat
  {
    if n < 0 then 0 else n
  }

  /** `compare_csr_matrix`: true exactly when the row counts agree, the first
      `nnz` entries of `values` and `col_index` agree, and the first
      `rows + 1` entries of `row_ptr` agree. Nothing is written. The arrays
      are read only once the row counts agree, so a matrix with no arrays is
      a valid argument when the counts differ. */
  method Compare(x: CsrMatrix, y: CsrMatrix, nnz: int) returns (same: bool)
    requires x.rows == y.rows ==> x.values != null && x.colIndex != null && x.rowPtr != null
    requires x.rows == y.rows ==> y.values != null && y.colIndex != null && y.rowPtr != null
    requires x.rows == y.rows ==> nnz <= x.values.Length && nnz <= y.values.Length && nnz <= x.colIndex.Length && nnz <= y.colIndex.Length
    requires x.rows == y.rows ==> x.rows + 1 <= x.rowPtr.Length && x.rows + 1 <= y.rowPtr.Length
    ensures same <==> x.rows == y.rows &&
                      x.values[..Count(nnz)] == y.values[..Count(nnz)] &&
                      x.colIndex[..Count(nnz)] == y.colIndex[..Count(nnz)] &&
                      x.rowPtr[..Count(x.rows + 1)] == y.rowPtr[..Count(x.rows + 1)]
    ensures x == y ==> same
  {
    if x.rows != y.rows {
      return false;
    }
    var i := 0;
    while i < nnz
      invariant 0 <= i <= Count(nnz)
      invariant x.values[..i] == y.values[..i] && x.colIndex[..i] == y.colIndex[..i]
    {
      if x.values[i] != y.values[i] {
        assert x.values[..Count(nnz)][i] != y.values[..Count(nnz)][i];
        return false;
      }
      if x.colIndex[i] != y.colIndex[i] {
        assert x.colIndex[..Count(nnz)][i] != y.colIndex[..Count(nnz)][i];
        return false;
      }
      i := i + 1;
    }
    i := 0;
    while i < x.rows + 1
      invariant 0 <= i <= Count(x.rows + 1)
      invariant x.rowPtr[..i] == y.rowPtr[..i]
    {
      if x.rowPtr[i] != y.rowPtr[i] {
        assert x.rowPtr[..Count(x.rows + 1)][i] != y.rowPtr[..Count(x.rows + 1)][i];
        return false;
      }
      i := i + 1;
    }
    return true;
  }

  /** The CSR check of the sparse driver: one matrix is built serially, the
      other by the parallel builder, both starting from `init_csr_matrix`,
      and the two are compared. The parallel builder builds nothing, so the
      second matrix keeps zero rows, and for any matrix with at least one
      row the comparison reports a mismatch. */
  method CompareBuilds(a: seq<seq<int>>, n: nat, nnz: nat, threadCount: nat) returns (same: bool)
    requires IsMatrix(a, n, n) && 0 < n && Nnz(a) <= nnz
    ensures !same
  {
    var serial := new CsrMatrix.Init();
    var parallel := new CsrMatrix.Init();
    var built := serial.Build(a, n, n, nnz);
    var skipped := parallel.BuildParallel(a, n, n, nnz, threadCount);
    same := Compare(serial, parallel, nnz);
  }

}
