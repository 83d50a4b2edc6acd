/** Compressed Sparse Row form of a dense integer matrix: what the one-pass
    builder produces, what its arrays mean, and the product of a CSR matrix
    with a vector. Every definition walks its input left to right, the order
    in which the builder and the product loops visit it. */
module CsrSpec {
  import opened DenseSpec

  /** A dense `rows` by `cols` row-major matrix. */
  ghost predicate IsMatrix(a: seq<seq<int>>, rows: nat, cols: nat)
  {
    |a| == rows && forall i :: 0 <= i < rows ==> |a[i]| == cols
  }

  /** The contents of a CSR matrix: its row count and its three arrays. */
  datatype CsrData = CsrData(rows: nat, values: seq<int>, colIndex: seq<int>, rowPtr: seq<int>)

  /** The number of nonzero entries of one dense row. */
  function RowNnz(row: seq<int>): nat
  {
    if row == [] then 0 else RowNnz(row[..|row| - 1]) + (if row[|row| - 1] != 0 then 1 else 0)
  }

  /** The nonzero entries of one row, left to right. */
  function RowValues(row: seq<int>): (r: seq<int>)
    ensures |r| == RowNnz(row)
  {
    if row == [] then []
    else RowValues(row[..|row| - 1]) + (if row[|row| - 1] != 0 then [row[|row| - 1]] else [])
  }

  /** The columns of the nonzero entries of one row, left to right; each is a
      column of the row. */
  function RowCols(row: seq<int>): (r: seq<int>)
    ensures |r| == RowNnz(row)
    ensures forall k :: 0 <= k < |r| ==> 0 <= r[k] < |row|
  {
    if row == [] then []
    else RowCols(row[..|row| - 1]) + (if row[|row| - 1] != 0 then [|row| - 1] else [])
  }

  /** The number of nonzero entries of a dense matrix. */
  function Nnz(a: seq<seq<int>>): nat
  {
    if a == [] then 0 else Nnz(a[..|a| - 1]) + RowNnz(a[|a| - 1])
  }

  /** The `values` array of the CSR form: all nonzeros, row by row. */
  function Values(a: seq<seq<int>>): (r: seq<int>)
    ensures |r| == Nnz(a)
  {
    if a == [] then [] else Values(a[..|a| - 1]) + RowValues(a[|a| - 1])
  }

  /** The `col_index` array of the CSR form: the column of every nonzero. */
  function ColIndex(a: seq<seq<int>>): (r: seq<int>)
    ensures |r| == Nnz(a)
  {
    if a == [] then [] else ColIndex(a[..|a| - 1]) + RowCols(a[|a| - 1])
  }

  /** The `row_ptr` array of the CSR form: `|a| + 1` running nonzero counts. */
  function RowPtr(a: seq<seq<int>>): (r: seq<int>)
    ensures |r| == |a| + 1
  {
    if a == [] then [0] else RowPtr(a[..|a| - 1]) + [Nnz(a)]
  }

  /** `c` holds the CSR form of `a`: its row count and `row_ptr` are those of
      `a`, and so are the first `Nnz(a)` entries of `values` and
      `col_index`, the only ones `row_ptr` reaches; later entries are free. */
  ghost predicate Represents(c: CsrData, a: seq<seq<int>>)
  {
    c.rows == |a| && c.rowPtr == RowPtr(a) && Nnz(a) <= |c.values| && Nnz(a) <= |c.colIndex| &&
    c.values[..Nnz(a)] == Values(a) && c.colIndex[..Nnz(a)] == ColIndex(a)
  }

  /** What the product loops assume of a CSR matrix with `cols` columns:
      `row_ptr` starts at 0 and never decreases, the arrays are long enough
      for `row_ptr[rows]` entries, and every stored column is in range. */
  predicate WellFormed(c: CsrData, cols: nat)
  {
    |c.rowPtr| == c.rows + 1 && c.rowPtr[0] == 0 &&
    (forall i, j :: 0 <= i <= j <= c.rows ==> c.rowPtr[i] <= c.rowPtr[j]) &&
    c.rowPtr[c.rows] <= |c.values| && c.rowPtr[c.rows] <= |c.colIndex| &&
    forall k :: 0 <= k < c.rowPtr[c.rows] ==> 0 <= c.colIndex[k] < cols
  }

  // ---------------------------------------------------------------------
  // The shape of the CSR form of a dense matrix

  /** Entry `i` of `row_ptr` counts the nonzeros of the first `i` rows. */
  lemma {:induction false} RowPtrAt(a: seq<seq<int>>, i: nat)
    requires i <= |a|
    ensures RowPtr(a)[i] == Nnz(a[..i])
  {
    if i < |a| {
      RowPtrAt(a[..|a| - 1], i);
      assert a[..|a| - 1][..i] == a[..i];
    } else {
      assert a[..i] == a;
    }
  }

  /** `row_ptr[0] = 0`, and `row_ptr[rows]` is the total number of nonzeros. */
  lemma RowPtrEnds(a: seq<seq<int>>)
    ensures RowPtr(a)[0] == 0
    ensures RowPtr(a)[|a|] == Nnz(a)
  {
    RowPtrAt(a, 0);
    RowPtrAt(a, |a|);
    assert a[..|a|] == a;
  }

  /** `row_ptr[i + 1] = row_ptr[i] + (nonzeros of row i)`. */
  lemma RowPtrStep(a: seq<seq<int>>, i: nat)
    requires i < |a|
    ensures RowPtr(a)[i + 1] == RowPtr(a)[i] + RowNnz(a[i])
  {
    RowPtrAt(a, i);
    RowPtrAt(a, i + 1);
    assert a[..i + 1][..i] == a[..i];
  }

  /** The first `i` rows hold no more nonzeros than the whole matrix. */
  lemma NnzPrefix(a: seq<seq<int>>, i: nat)
    requires i <= |a|
    ensures Nnz(a[..i]) <= Nnz(a)
  {
    RowPtrAt(a, i);
    RowPtrEnds(a);
    RowPtrMonotone(a, i, |a|);
  }

  /** Adding row `i` to the first `i` rows adds its nonzeros and its CSR entries. */
  lemma PrefixStep(a: seq<seq<int>>, i: nat)
    requires i < |a|
    ensures Nnz(a[..i + 1]) == Nnz(a[..i]) + RowNnz(a[i])
    ensures Values(a[..i + 1]) == Values(a[..i]) + RowValues(a[i])
    ensures ColIndex(a[..i + 1]) == ColIndex(a[..i]) + RowCols(a[i])
    ensures RowPtr(a[..i + 1]) == RowPtr(a[..i]) + [Nnz(a[..i + 1])]
  {
    assert a[..i + 1][..i] == a[..i];
  }

  /** `row_ptr` never decreases. */
  lemma {:induction false} RowPtrMonotone(a: seq<seq<int>>, i: nat, j: nat)
    requires i <= j <= |a|
    ensures RowPtr(a)[i] <= RowPtr(a)[j]
    decreases j - i
  {
    if i < j {
      RowPtrStep(a, i);
      RowPtrMonotone(a, i + 1, j);
    }
  }

  /** Splitting off the last row of a non-empty concatenation. */
  lemma AppendLast(a: seq<seq<int>>, b: seq<seq<int>>)
    requires b != []
    ensures (a + b)[..|a + b| - 1] == a + b[..|b| - 1]
    ensures (a + b)[|a + b| - 1] == b[|b| - 1]
  {
  }

  /** The `values` of a concatenation is the concatenation of the `values`. */
  lemma {:induction false} ValuesAppend(a: seq<seq<int>>, b: seq<seq<int>>)
    ensures Values(a + b) == Values(a) + Values(b)
    decreases |b|
  {
    if b == [] {
      assert a + b == a;
    } else {
      var p, last := b[..|b| - 1], b[|b| - 1];
      AppendLast(a, b);
      ValuesAppend(a, p);
      assert Values(a + b) == Values(a + p) + RowValues(last);
      assert Values(b) == Values(p) + RowValues(last);
    }
  }

  /** The `col_index` of a concatenation is the concatenation of the `col_index`. */
  lemma {:induction false} ColIndexAppend(a: seq<seq<int>>, b: seq<seq<int>>)
    ensures ColIndex(a + b) == ColIndex(a) + ColIndex(b)
    decreases |b|
  {
    if b == [] {
      assert a + b == a;
    } else {
      var p, last := b[..|b| - 1], b[|b| - 1];
      AppendLast(a, b);
      ColIndexAppend(a, p);
      assert ColIndex(a + b) == ColIndex(a + p) + RowCols(last);
      assert ColIndex(b) == ColIndex(p) + RowCols(last);
    }
  }

  /** `values` around row `i`: the rows before it, row `i`, the rows after it. */
  lemma ValuesSplit(a: seq<seq<int>>, i: nat)
    requires i < |a|
    ensures Values(a) == Values(a[..i]) + (RowValues(a[i]) + Values(a[i + 1..]))
  {
    var p, s := a[..i], a[i + 1..];
    SplitAt(a, i);
    ValuesAppend(p, [a[i]] + s);
    ValuesAppend([a[i]], s);
    SingleRow(a[i]);
  }

  /** `col_index` around row `i`. */
  lemma ColIndexSplit(a: seq<seq<int>>, i: nat)
    requires i < |a|
    ensures ColIndex(a) == ColIndex(a[..i]) + (RowCols(a[i]) + ColIndex(a[i + 1..]))
  {
    var p, s := a[..i], a[i + 1..];
    SplitAt(a, i);
    ColIndexAppend(p, [a[i]] + s);
    ColIndexAppend([a[i]], s);
    SingleRow(a[i]);
  }

  /** The CSR arrays of a one-row matrix are that row's. */
  lemma SingleRow(row: seq<int>)
    ensures Values([row]) == RowValues(row) && ColIndex([row]) == RowCols(row)
  {
    assert [row][..0] == [];
  }

  /** A sequence around its entry `i`. */
  lemma SplitAt(a: seq<seq<int>>, i: nat)
    requires i < |a|
    ensures a == a[..i] + ([a[i]] + a[i + 1..])
  {
    assert a[i..] == [a[i]] + a[i + 1..];
    assert a == a[..i] + a[i..];
  }

  /** The middle part of a three-part sequence. */
  lemma Middle(whole: seq<int>, p: seq<int>, m: seq<int>, s: seq<int>, lo: int, hi: int)
    requires whole == p + (m + s) && lo == |p| && hi == |p| + |m|
    ensures 0 <= lo <= hi <= |whole| && whole[lo..hi] == m
  {
    assert whole[lo..hi] == (p + (m + s))[|p|..|p| + |m|];
  }

  /** Row `i`'s entries of `row_ptr` bound its slice inside the arrays. */
  lemma RowPtrBounds(a: seq<seq<int>>, i: nat)
    requires i < |a|
    ensures RowPtr(a)[i] == Nnz(a[..i]) && RowPtr(a)[i + 1] == RowPtr(a)[i] + RowNnz(a[i])
    ensures 0 <= RowPtr(a)[i] <= RowPtr(a)[i + 1] <= Nnz(a)
  {
    RowPtrStep(a, i);
    RowPtrAt(a, i);
    RowPtrEnds(a);
    RowPtrMonotone(a, i + 1, |a|);
  }

  /** Row `i`'s slice `[row_ptr[i], row_ptr[i + 1])` of `values` and
      `col_index` holds exactly that row's nonzeros and their columns, left
      to right. */
  lemma RowSlices(a: seq<seq<int>>, i: nat)
    requires i < |a|
    ensures 0 <= RowPtr(a)[i] <= RowPtr(a)[i + 1] <= Nnz(a)
    ensures Values(a)[RowPtr(a)[i]..RowPtr(a)[i + 1]] == RowValues(a[i])
    ensures ColIndex(a)[RowPtr(a)[i]..RowPtr(a)[i + 1]] == RowCols(a[i])
  {
    RowPtrBounds(a, i);
    RowValuesSlice(a, i);
    RowColsSlice(a, i);
  }

  /** Row `i`'s slice of `values`, given where the row starts and ends. */
  lemma RowValuesSlice(a: seq<seq<int>>, i: nat)
    requires i < |a|
    requires RowPtr(a)[i] == Nnz(a[..i]) && RowPtr(a)[i + 1] == RowPtr(a)[i] + RowNnz(a[i])
    ensures RowPtr(a)[i + 1] <= Nnz(a)
    ensures Values(a)[RowPtr(a)[i]..RowPtr(a)[i + 1]] == RowValues(a[i])
  {
    var before, row, after := Values(a[..i]), RowValues(a[i]), Values(a[i + 1..]);
    ValuesSplit(a, i);
    Middle(Values(a), before, row, after, RowPtr(a)[i], RowPtr(a)[i + 1]);
  }

  /** Row `i`'s slice of `col_index`, given where the row starts and ends. */
  lemma RowColsSlice(a: seq<seq<int>>, i: nat)
    requires i < |a|
    requires RowPtr(a)[i] == Nnz(a[..i]) && RowPtr(a)[i + 1] == RowPtr(a)[i] + RowNnz(a[i])
    ensures RowPtr(a)[i + 1] <= Nnz(a)
    ensures ColIndex(a)[RowPtr(a)[i]..RowPtr(a)[i + 1]] == RowCols(a[i])
  {
    var before, row, after := ColIndex(a[..i]), RowCols(a[i]), ColIndex(a[i + 1..]);
    ColIndexSplit(a, i);
    Middle(ColIndex(a), before, row, after, RowPtr(a)[i], RowPtr(a)[i + 1]);
  }

  /** Every stored value is nonzero, and it is the row's entry at its stored
      column. */
  lemma {:induction false} RowEntries(row: seq<int>)
    ensures forall k :: 0 <= k < RowNnz(row) ==> RowValues(row)[k] != 0 && RowValues(row)[k] == row[RowCols(row)[k]]
  {
    if row != [] {
      var p := row[..|row| - 1];
      RowEntries(p);
      forall k | 0 <= k < RowNnz(p)
        ensures RowValues(row)[k] == RowValues(p)[k] && RowCols(row)[k] == RowCols(p)[k]
      {
      }
    }
  }

  /** Within a row, the stored columns are strictly increasing. */
  lemma {:induction false} RowColsIncreasing(row: seq<int>)
    ensures forall p, q :: 0 <= p < q < RowNnz(row) ==> RowCols(row)[p] < RowCols(row)[q]
  {
    if row != [] {
      RowColsIncreasing(row[..|row| - 1]);
    }
  }

  /** Every entry of `col_index` is a column of the matrix. */
  lemma {:induction false} ColIndexBounds(a: seq<seq<int>>, cols: nat)
    requires IsMatrix(a, |a|, cols)
    ensures forall k :: 0 <= k < Nnz(a) ==> 0 <= ColIndex(a)[k] < cols
  {
    if a != [] {
      ColIndexBounds(a[..|a| - 1], cols);
    }
  }

  /** A CSR matrix holding the CSR form of a dense matrix is well formed. */
  lemma RepresentsWellFormed(c: CsrData, a: seq<seq<int>>, cols: nat)
    requires Represents(c, a) && IsMatrix(a, |a|, cols)
    ensures WellFormed(c, cols)
  {
    RowPtrEnds(a);
    forall i, j | 0 <= i <= j <= |a|
      ensures RowPtr(a)[i] <= RowPtr(a)[j]
    {
      RowPtrMonotone(a, i, j);
    }
    ColIndexBounds(a, cols);
    assert forall k :: 0 <= k < Nnz(a) ==> c.colIndex[k] == c.colIndex[..Nnz(a)][k];
  }

  /** In a CSR matrix holding the CSR form of `a`, row `i`'s slices are the
      nonzeros of dense row `i` and their columns. */
  lemma RepresentsRow(c: CsrData, a: seq<seq<int>>, i: nat)
    requires Represents(c, a) && i < |a|
    ensures 0 <= c.rowPtr[i] <= c.rowPtr[i + 1] <= Nnz(a)
    ensures c.values[c.rowPtr[i]..c.rowPtr[i + 1]] == RowValues(a[i])
    ensures c.colIndex[c.rowPtr[i]..c.rowPtr[i + 1]] == RowCols(a[i])
  {
    RowSlices(a, i);
    SliceOfPrefix(c.values, Nnz(a), RowPtr(a)[i], RowPtr(a)[i + 1]);
    SliceOfPrefix(c.colIndex, Nnz(a), RowPtr(a)[i], RowPtr(a)[i + 1]);
  }

  /** A slice inside a prefix is the same slice of the prefix. */
  lemma SliceOfPrefix(s: seq<int>, n: nat, lo: nat, hi: nat)
    requires lo <= hi <= n <= |s|
    ensures s[lo..hi] == s[..n][lo..hi]
  {
  }

  // ---------------------------------------------------------------------
  // Decompression: the value at a stored column, 0 everywhere else

  /** The value stored for column `c` in one row's slice, or 0 if none is. */
  function Lookup(vals: seq<int>, cols: seq<int>, c: int): int
    requires |vals| == |cols|
  {
    if cols == [] then 0
    else if cols[|cols| - 1] == c then vals[|vals| - 1]
    else Lookup(vals[..|vals| - 1], cols[..|cols| - 1], c)
  }

  /** A column above every stored column holds 0. */
  lemma {:induction false} LookupAbsent(vals: seq<int>, cols: seq<int>, c: int)
    requires |vals| == |cols|
    requires forall k :: 0 <= k < |cols| ==> cols[k] < c
    ensures Lookup(vals, cols, c) == 0
  {
    if cols != [] {
      LookupAbsent(vals[..|vals| - 1], cols[..|cols| - 1], c);
    }
  }

  /** Looking a column up in a row's CSR slice gives the dense entry. */
  lemma {:induction false} LookupRow(row: seq<int>, c: nat)
    requires c < |row|
    ensures Lookup(RowValues(row), RowCols(row), c) == row[c]
  {
    if c < |row| - 1 {
      LookupRow(row[..|row| - 1], c);
      LookupEarlier(row, c);
    } else {
      LookupLast(row);
    }
  }

  /** A column before the last one is looked up as in the row without its
      last entry. */
  lemma LookupEarlier(row: seq<int>, c: nat)
    requires c < |row| - 1
    ensures Lookup(RowValues(row), RowCols(row), c) == Lookup(RowValues(row[..|row| - 1]), RowCols(row[..|row| - 1]), c)
  {
    var p := row[..|row| - 1];
    var vs, cs := RowValues(row), RowCols(row);
    if row[|row| - 1] == 0 {
      assert vs == RowValues(p) + [] == RowValues(p);
      assert cs == RowCols(p) + [] == RowCols(p);
    } else {
      assert vs[..|vs| - 1] == RowValues(p) && cs[..|cs| - 1] == RowCols(p);
    }
  }

  /** The last column is looked up as the row's last entry. */
  lemma LookupLast(row: seq<int>)
    requires row != []
    ensures Lookup(RowValues(row), RowCols(row), |row| - 1) == row[|row| - 1]
  {
    var p := row[..|row| - 1];
    if row[|row| - 1] == 0 {
      assert RowValues(row) == RowValues(p) + [] == RowValues(p);
      assert RowCols(row) == RowCols(p) + [] == RowCols(p);
      LookupAbsent(RowValues(p), RowCols(p), |row| - 1);
    }
  }

  /** One row of `n` columns rebuilt from its CSR slice. */
  function DecompressRow(vals: seq<int>, cols: seq<int>, n: nat): (r: seq<int>)
    requires |vals| == |cols|
    ensures |r| == n
  {
    seq(n, c => Lookup(vals, cols, c))
  }

  /** The dense `rows` by `cols` matrix a well-formed CSR matrix stands for. */
  function Decompress(c: CsrData, cols: nat): (r: seq<seq<int>>)
    requires WellFormed(c, cols)
    ensures |r| == c.rows
  {
    seq(c.rows, i requires 0 <= i < c.rows =>
      DecompressRow(c.values[c.rowPtr[i]..c.rowPtr[i + 1]], c.colIndex[c.rowPtr[i]..c.rowPtr[i + 1]], cols))
  }

  /** Round trip: decompressing the CSR form of a matrix gives the matrix back. */
  lemma DecompressRoundTrip(c: CsrData, a: seq<seq<int>>, cols: nat)
    requires Represents(c, a) && IsMatrix(a, |a|, cols)
    ensures WellFormed(c, cols) && Decompress(c, cols) == a
  {
    RepresentsWellFormed(c, a, cols);
    forall i | 0 <= i < |a|
      ensures Decompress(c, cols)[i] == a[i]
    {
      RepresentsRow(c, a, i);
      forall c | 0 <= c < cols
        ensures Lookup(RowValues(a[i]), RowCols(a[i]), c) == a[i][c]
      {
        LookupRow(a[i], c);
      }
    }
  }

  // ---------------------------------------------------------------------
  // The CSR matrix-vector product

  /** `Σ values[j] * v[colIndex[j]]` over `j` in `[lo, hi)`, summed upward. */
  function RangeSum(values: seq<int>, colIndex: seq<int>, lo: nat, hi: nat, v: seq<int>): int
    requires lo <= hi <= |values| && hi <= |colIndex|
    requires forall j :: lo <= j < hi ==> 0 <= colIndex[j] < |v|
    decreases hi - lo
  {
    if hi == lo then 0 else RangeSum(values, colIndex, lo, hi - 1, v) + values[hi - 1] * v[colIndex[hi - 1]]
  }

  /** The product of CSR row `i` with `v`. */
  function RowProduct(c: CsrData, i: nat, v: seq<int>): int
    requires WellFormed(c, |v|) && i < c.rows
  {
    RangeSum(c.values, c.colIndex, c.rowPtr[i], c.rowPtr[i + 1], v)
  }

  /** The products of the first `n` CSR rows with `v`. */
  function CsrProduct(c: CsrData, v: seq<int>, n: nat): (r: seq<int>)
    requires WellFormed(c, |v|) && n <= c.rows
    ensures |r| == n
  {
    if n == 0 then [] else CsrProduct(c, v, n - 1) + [RowProduct(c, n - 1, v)]
  }

  /** One CSR matrix-vector product. */
  function CsrMatVec(c: CsrData, v: seq<int>): (r: seq<int>)
    requires WellFormed(c, |v|)
    ensures |r| == c.rows
  {
    CsrProduct(c, v, c.rows)
  }

  /** `k` repeated CSR products of a square matrix. */
  function CsrApply(c: CsrData, v: seq<int>, k: nat): (r: seq<int>)
    requires WellFormed(c, |v|) && c.rows == |v|
    ensures |r| == |v|
  {
    if k == 0 then v else CsrMatVec(c, CsrApply(c, v, k - 1))
  }

  /** Entry `i` of the first `n` products is row `i`'s product. */
  lemma {:induction false} CsrProductAt(c: CsrData, v: seq<int>, n: nat, i: nat)
    requires WellFormed(c, |v|) && i < n <= c.rows
    ensures CsrProduct(c, v, n)[i] == RowProduct(c, i, v)
  {
    if i < n - 1 {
      CsrProductAt(c, v, n - 1, i);
    }
  }

  /** A range sum only depends on the slice it covers. */
  lemma {:induction false} RangeSumSlice(values: seq<int>, colIndex: seq<int>, lo: nat, hi: nat, v: seq<int>)
    requires lo <= hi <= |values| && hi <= |colIndex|
    requires forall j :: lo <= j < hi ==> 0 <= colIndex[j] < |v|
    ensures RangeSum(values, colIndex, lo, hi, v) == RangeSum(values[lo..hi], colIndex[lo..hi], 0, hi - lo, v)
    decreases hi - lo
  {
    if lo < hi {
      RangeSumSlice(values, colIndex, lo, hi - 1, v);
      RangeSumPrefix(values[lo..hi], colIndex[lo..hi], hi - lo - 1, v);
      assert values[lo..hi][..hi - lo - 1] == values[lo..hi - 1];
      assert colIndex[lo..hi][..hi - lo - 1] == colIndex[lo..hi - 1];
    }
  }

  /** A range sum from 0 does not look past its end. */
  lemma {:induction false} RangeSumPrefix(values: seq<int>, colIndex: seq<int>, hi: nat, v: seq<int>)
    requires hi <= |values| && hi <= |colIndex|
    requires forall j :: 0 <= j < hi ==> 0 <= colIndex[j] < |v|
    ensures RangeSum(values, colIndex, 0, hi, v) == RangeSum(values[..hi], colIndex[..hi], 0, hi, v)
    decreases hi
  {
    if hi > 0 {
      RangeSumPrefix(values, colIndex, hi - 1, v);
      RangeSumPrefix(values[..hi], colIndex[..hi], hi - 1, v);
      assert values[..hi][..hi - 1] == values[..hi - 1];
      assert colIndex[..hi][..hi - 1] == colIndex[..hi - 1];
    }
  }

  /** Summing a row's stored entries gives the dense dot product: the zeros
      the builder skips contribute nothing. */
  lemma {:induction false} RowSumIsDot(row: seq<int>, v: seq<int>)
    requires |row| <= |v|
    ensures RangeSum(RowValues(row), RowCols(row), 0, RowNnz(row), v) == Dot(row, v)
  {
    if row != [] {
      var p := row[..|row| - 1];
      RowSumIsDot(p, v);
      RangeSumPrefix(RowValues(row), RowCols(row), RowNnz(p), v);
      assert RowValues(row)[..RowNnz(p)] == RowValues(p);
      assert RowCols(row)[..RowNnz(p)] == RowCols(p);
    }
  }

  /** CSR row `i` of a CSR matrix holding `a` multiplies like dense row `i`. */
  lemma RowProductIsDot(c: CsrData, a: seq<seq<int>>, v: seq<int>, i: nat)
    requires Represents(c, a) && IsMatrix(a, |a|, |v|) && i < |a|
    ensures WellFormed(c, |v|) && RowProduct(c, i, v) == Dot(a[i], v)
  {
    RepresentsWellFormed(c, a, |v|);
    RepresentsRow(c, a, i);
    StoredRowSum(c.values, c.colIndex, c.rowPtr[i], c.rowPtr[i + 1], a[i], v);
  }

  /** A range of the arrays that holds the stored entries of `row` sums to
      the dense dot product of `row`. */
  lemma StoredRowSum(values: seq<int>, colIndex: seq<int>, lo: nat, hi: nat, row: seq<int>, v: seq<int>)
    requires lo <= hi <= |values| && hi <= |colIndex| && |row| <= |v|
    requires forall j :: lo <= j < hi ==> 0 <= colIndex[j] < |v|
    requires values[lo..hi] == RowValues(row) && colIndex[lo..hi] == RowCols(row)
    ensures RangeSum(values, colIndex, lo, hi, v) == Dot(row, v)
  {
    RangeSumSlice(values, colIndex, lo, hi, v);
    RowSumIsDot(row, v);
  }

  /** The first `n` CSR products are the first `n` dense ones. */
  lemma {:induction false} CsrProductIsMatVec(c: CsrData, a: seq<seq<int>>, v: seq<int>, n: nat)
    requires Represents(c, a) && IsMatrix(a, |a|, |v|) && n <= |a|
    ensures WellFormed(c, |v|) && CsrProduct(c, v, n) == MatVec(a[..n], v)
  {
    RepresentsWellFormed(c, a, |v|);
    if n > 0 {
      CsrProductIsMatVec(c, a, v, n - 1);
      RowProductIsDot(c, a, v, n - 1);
      assert a[..n][..n - 1] == a[..n - 1];
    }
  }

  /** Dense and CSR agree: one CSR product with a CSR matrix holding `a` is
      one dense product with `a`. */
  lemma CsrMatVecIsMatVec(c: CsrData, a: seq<seq<int>>, v: seq<int>)
    requires Represents(c, a) && IsMatrix(a, |a|, |v|)
    ensures WellFormed(c, |v|) && CsrMatVec(c, v) == MatVec(a, v)
  {
    CsrProductIsMatVec(c, a, v, |a|);
    assert a[..|a|] == a;
  }

  /** Dense and CSR agree after any number of repeated products. */
  lemma {:induction false} CsrApplyIsApply(c: CsrData, a: seq<seq<int>>, v: seq<int>, k: nat)
    requires Represents(c, a) && IsSquare(a, |v|)
    ensures WellFormed(c, |v|) && CsrApply(c, v, k) == Apply(a, v, k)
  {
    RepresentsWellFormed(c, a, |v|);
    if k > 0 {
      CsrApplyIsApply(c, a, v, k - 1);
      CsrMatVecIsMatVec(c, a, Apply(a, v, k - 1));
    }
  }
}
