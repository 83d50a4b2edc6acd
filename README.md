# OpenMP assignment kernels, modelled and proved in Dafny

This project models three OpenMP exercises in C, each with a serial and a "parallel" version:

- **ex1** multiplies two polynomials given as coefficient arrays.
  - `m_serial` fills one result array with `R[i+j] += A[i]*B[j]`.
  - `m_parallel` accumulates into one private array per thread. Each thread then folds its array into a shared result, going round the indices from a start offset that depends on the thread.
- **ex2** applies a square integer matrix to a vector `iters` times, alternating between two ping-pong buffers.
  - It does this once for a dense matrix (`matvecs`, `matvecs_parallel`). The parallel version keeps per-thread buffer pairs and broadcasts each thread's rows to the other threads.
  - It does it again for the matrix in compressed sparse row form (`matvecs_csr`, `matvecs_csr_parallel`), using the CSR builder, the CSR comparison, `vectors_diffs` and the `xorshift32` generator.
- **ex3** is a textbook top-down merge sort. One version uses a shared temporary array (`merge`, `mergesort`); the other allocates a temporary per merge (`parallel_merge`, `parallel_mergesort`).

Modelling approach:

- Each C routine becomes a Dafny method with the C routine's loops.
- Each method is proved against a mathematical specification:
  - the polynomial product coefficient `Coeff` for ex1;
  - the dense product `MatVec` and its `k`-fold iterate `Apply` for ex2, plus their CSR counterparts `CsrMatVec`/`CsrApply`;
  - sortedness plus permutation for ex3.
- Lemmas then link these specifications to each other:
  - the CSR product equals the dense product of the matrix it was built from;
  - decompressing a built CSR gives back the dense matrix;
  - the thread-partitioned sums add up to the serial coefficients;
  - any two sorted permutations of one sequence are equal, so both merge sorts produce the same array.

The model is split into modules:

- Specification modules:
  - `Convolution`: polynomial coefficients;
  - `DenseSpec`: dense products;
  - `CsrSpec`: the CSR layout, its build, decompression and product;
  - `Partition`: the static schedule of the GCC OpenMP runtime;
  - `Sorting`: sortedness, merging and uniqueness.
- One module per C source file:
  - `MSerial`, `MParallel`;
  - `Xorshift32`;
  - `SparseMatrixCsr`, `Matvecs`, `MatvecsCsr`, `UtilMatvec`;
  - `MergeSerial`, `MergeParallel`.

How parallel regions are modelled:

- A parallel region becomes a sequential loop over thread ids `0 .. T-1`.
- An `omp for` becomes a static schedule: thread `t` gets the contiguous rows `ChunkStart(n, T, t) .. ChunkStart(n, T, t+1)`, and the first `n % T` threads get one row more. This is the split the GCC runtime (libgomp) makes; the OpenMP standard leaves the chunk sizes of a plain `omp for` to the implementation. The proofs use only that each thread gets one contiguous chunk, that the chunks are disjoint and in thread order, and that together they cover all rows.
- Barriers are the boundaries between these loops.

How C data is modelled:

- The CSR struct is a class whose fields are nullable arrays.
- The dense matrix is a read-only `seq<seq<int>>`.
- Vectors are arrays.
- C integers are unbounded integers; the generator state is a `bv32`.

## Model

| member | source | states |
|---|---|---|
| Convolution.ConvSplit | ex1/src/m_serial.c:23-29 | Summing the products for rows `lo..hi` is the sum over `lo..mid` plus the sum over `mid..hi`; this lets the outer loop be split among threads |
| Convolution.ConvAbove | ex1/src/m_serial.c:23-29 | Rows `i > k` contribute nothing to coefficient `k` |
| Convolution.ConvBelow | ex1/src/m_serial.c:23-29 | Rows with `i + m < k` contribute nothing to coefficient `k` |
| Convolution.CoeffFirst | ex1/src/m_serial.c:23-29 | The constant coefficient is `A[0]*B[0]` |
| Convolution.CoeffLast | ex1/src/m_serial.c:23-29 | The leading coefficient `R[n+m]` is `A[n]*B[m]` |
| Convolution.CoeffBeyondDegree | ex1/src/m_serial.c:9-10 | No coefficient exists above degree `n+m`, which is why `R` has `n+m+1` entries |
| MSerial.AccumulateRow | ex1/src/m_serial.c:24-28 | The inner loop adds `A[i]*B[k-i]` to exactly the entries `k` with `0 <= k-i <= m` and leaves the rest unchanged |
| MSerial.Accumulate | ex1/src/m_serial.c:23-29 | Running outer rows `lo..hi` adds, to every `R[k]`, the sum of `A[i]*B[j]` over those rows with `i+j = k` |
| MSerial.Multiply | ex1/src/m_serial.c:7-38 | Returns a fresh zero-initialised array of `n+m+1` entries with `R[k]` equal to the `k`-th coefficient of the product; `A` and `B` are unchanged |
| MParallel.ThreadSumIsPrefix | ex1/src/m_parallel.c:42-48 | The private sums of threads `0..t-1` together equal the sum over the rows those threads are scheduled |
| MParallel.AllThreadsGiveCoeff | ex1/src/m_parallel.c:42-58 | The private sums of all threads add up to the serial coefficient |
| MParallel.CombineStartInRange | ex1/src/m_parallel.c:51 | The start index `tid*r/thread_count` is below `r` for every `tid < thread_count` |
| MParallel.CombineIndexIsRotation | ex1/src/m_parallel.c:51-55 | At step `i`, the wrap-around loop visits index `(start + i) mod r` |
| MParallel.CombineOnce | ex1/src/m_parallel.c:52-55 | Each step visits an index not visited before, and it adds exactly that index to the visited set |
| MParallel.CombinedAll | ex1/src/m_parallel.c:52-55 | After `r` steps every index in `[0, r)` has been visited |
| MParallel.Combine | ex1/src/m_parallel.c:51-59 | After one thread's combine loop, every `R_global[x]` has had `R_local[x]` added to it exactly once |
| MParallel.ThreadLocal | ex1/src/m_parallel.c:35-48 | A thread's fresh zeroed private array holds, at each `k`, the sum of `A[i]*B[j]` with `i+j = k` over its rows |
| MParallel.Multiply | ex1/src/m_parallel.c:8-80 | For any team size, `R_global` has `n+m+1` entries and the serial coefficients, so it equals `m_serial`'s result |
| Xorshift32.UndoLeft13Recovers | ex2/inc/xorshift32.h:14 | The step `x ^= x << 13` is undone by its explicit inverse, so it is injective |
| Xorshift32.UndoRight17Recovers | ex2/inc/xorshift32.h:15 | The step `x ^= x >> 17` is undone by its explicit inverse, so it is injective |
| Xorshift32.UndoLeft5Recovers | ex2/inc/xorshift32.h:16 | The step `x ^= x << 5` is undone by its explicit inverse, so it is injective |
| Xorshift32.UnxorshiftRecovers | ex2/inc/xorshift32.h:13-17 | Applying the three inverses in reverse order recovers the state |
| Xorshift32.Xorshift32Injective | ex2/inc/xorshift32.h:13-17 | Distinct states give distinct outputs |
| Xorshift32.ZeroIsFixed | ex2/inc/xorshift32.h:10-17 | The zero state is a fixed point, which is why the state must start non-zero |
| Xorshift32.NonZeroStaysNonZero | ex2/inc/xorshift32.h:10-17 | A non-zero state gives a non-zero output |
| Xorshift32.FirstOutputFromOne | ex2/inc/xorshift32.h:13-16 | From state 1 the first output is 270369 (shifted-out bits are discarded) |
| Xorshift32.State.Next | ex2/inc/xorshift32.h:11-18 | Returns the three-step transform of the old state and stores it as the new state; a non-zero state stays non-zero |
| CsrSpec.RowValues | ex2/src/sparse_matrix_csr.c:29-37 | One row contributes one value per nonzero entry |
| CsrSpec.RowCols | ex2/src/sparse_matrix_csr.c:29-37 | One row contributes one column per nonzero entry, each below the row length |
| CsrSpec.RowPtrAt | ex2/src/sparse_matrix_csr.c:25-38 | `row_ptr[i]` is the number of nonzeros in rows `0..i-1` |
| CsrSpec.RowPtrEnds | ex2/src/sparse_matrix_csr.c:25-41 | `row_ptr[0] = 0` and `row_ptr[rows]` is the total nonzero count |
| CsrSpec.RowPtrStep | ex2/src/sparse_matrix_csr.c:28-36 | `row_ptr[i+1] = row_ptr[i] + (nonzeros of row i)` |
| CsrSpec.RowPtrMonotone | ex2/src/sparse_matrix_csr.c:25-38 | `row_ptr` is non-decreasing |
| CsrSpec.ValuesAppend | ex2/src/sparse_matrix_csr.c:27-39 | The values of stacked rows are the concatenation of their values |
| CsrSpec.ColIndexAppend | ex2/src/sparse_matrix_csr.c:27-39 | The column indices of stacked rows are the concatenation of their column indices |
| CsrSpec.RowSlices | ex2/src/sparse_matrix_csr.c:27-39 | The slice `[row_ptr[i], row_ptr[i+1])` of `values`/`col_index` holds exactly row `i`'s nonzeros |
| CsrSpec.RowEntries | ex2/src/sparse_matrix_csr.c:30-35 | Every stored value is nonzero and equals the dense entry at its stored column |
| CsrSpec.RowColsIncreasing | ex2/src/sparse_matrix_csr.c:29-35 | Within a row, stored columns are strictly increasing |
| CsrSpec.ColIndexBounds | ex2/src/sparse_matrix_csr.c:29-34 | Every stored column is below `cols` |
| CsrSpec.RepresentsWellFormed | ex2/src/sparse_matrix_csr.c:25-39 | A CSR built from a dense matrix is well formed: `row_ptr` starts at 0, is monotone and ends at `nnz`, and its columns are in range |
| CsrSpec.RepresentsRow | ex2/src/sparse_matrix_csr.c:27-39 | On a built CSR, row `i`'s slice holds exactly that row's nonzeros, left to right |
| CsrSpec.LookupRow | ex2/src/sparse_matrix_csr.c:29-37 | Looking up column `c` among a row's stored entries gives the dense entry, or 0 when there is none |
| CsrSpec.DecompressRoundTrip | ex2/src/sparse_matrix_csr.c:27-39 | Decompressing a built CSR (the stored value at a stored column, 0 elsewhere) gives back the dense matrix |
| CsrSpec.RowSumIsDot | ex2/src/matvecs_csr.c:53-54 | Summing `values[j]*x[col_index[j]]` over a row's stored entries equals the dense dot product of that row |
| CsrSpec.RowProductIsDot | ex2/src/matvecs_csr.c:51-56 | For a CSR built from `A`, one row of the CSR product equals the dense dot product of row `i` of `A` |
| CsrSpec.CsrProductAt | ex2/src/matvecs_csr.c:51-56 | Entry `i` of one CSR round is the sum over row `i`'s stored entries |
| CsrSpec.CsrProductIsMatVec | ex2/src/matvecs_csr.c:51-56 | The CSR products of the first `n` rows equal the dense products of those rows |
| CsrSpec.CsrMatVecIsMatVec | ex2/src/matvecs_csr.c:51-56 | For a CSR built from `A`, one CSR round equals one dense product by `A` |
| CsrSpec.CsrApplyIsApply | ex2/src/sparse.c:159-167 | For a CSR built from `A`, `iters` CSR rounds give the same vector as `iters` dense rounds, which is what the final dense-against-sparse comparison expects |
| SparseMatrixCsr.Report | ex2/src/sparse_matrix_csr.c:41-44 | Success exactly when the counted nonzeros equal the given `nnz`; otherwise a mismatch carrying both numbers |
| SparseMatrixCsr.CsrMatrix.Init | ex2/src/sparse_matrix_csr.c:6-14 | Zero rows and all three arrays absent |
| SparseMatrixCsr.RowNnzPrefix | ex2/src/sparse_matrix_csr.c:29-37 | Scanning part of a row never counts more nonzeros than the whole row, so the writes stay within `nnz` |
| SparseMatrixCsr.FillRow | ex2/src/sparse_matrix_csr.c:28-37 | One pass over a dense row appends its nonzero values and columns after `idx` and advances `row_ptr[i+1]` by the row's nonzero count |
| SparseMatrixCsr.FillRows | ex2/src/sparse_matrix_csr.c:25-39 | The whole loop nest leaves `values`/`col_index` holding the matrix's nonzeros in row-major order and `row_ptr` holding the prefix counts, and `idx` ending at the total |
| SparseMatrixCsr.CsrMatrix.Build | ex2/src/sparse_matrix_csr.c:16-47 | Allocates `nnz`, `nnz` and `rows+1` entries and fills them with the CSR form of the matrix; the result is reported as success iff the counted total equals `nnz` |
| SparseMatrixCsr.CsrMatrix.BuildParallel | ex2/src/sparse_matrix_csr.c:49-60 | Changes nothing; returns at once when `row_ptr` is absent, and otherwise reports by comparing `row_ptr[rows]` with `nnz` |
| SparseMatrixCsr.Compare | ex2/src/sparse_matrix_csr.c:70-90 | Returns true iff `rows` agree and the first `nnz` values, the first `nnz` columns and the first `rows+1` row pointers agree; it is reflexive. The arrays are required only when the row counts agree, since they are not read otherwise |
| SparseMatrixCsr.CompareBuilds | ex2/src/sparse.c:62-91 | The driver's comparison of the serial build with the parallel build reports a mismatch for every matrix with at least one row, because the parallel builder leaves its matrix at zero rows |
| UtilMatvec.DiffCount | ex2/inc/util_matvec.h:7-12 | The number of differing indices below `size` is at most `size` |
| UtilMatvec.DiffCountZeroIff | ex2/inc/util_matvec.h:9-13 | The count is 0 exactly when the vectors agree below `size` |
| UtilMatvec.DiffCountSymmetric | ex2/inc/util_matvec.h:9 | The count does not depend on the order of the two vectors |
| UtilMatvec.DiffCountFull | ex2/inc/util_matvec.h:9-12 | The count equals `size` exactly when the vectors differ at every index |
| UtilMatvec.VectorsDiffs | ex2/inc/util_matvec.h:6-14 | Returns the number of indices below `size` where the vectors differ (0 when `size <= 0`), a value in `[0, size]`; neither vector changes |
| DenseSpec.MatVecAt | ex2/src/matvecs.c:36-41 | Entry `i` of one dense product is `Σ_j A[i][j]*x[j]` |
| Partition.ChunkBounds | ex2/src/matvecs.c:97-100 | The static schedule (as the GCC runtime splits it) starts at 0, ends at `n`, and gives thread `t` `n/T` rows plus one when `t < n mod T` |
| Partition.ChunkMonotone | ex2/src/matvecs.c:97-100 | Chunk boundaries are non-decreasing in the thread id, so the chunks are disjoint |
| Partition.ChunkInRange | ex2/src/matvecs.c:97-100 | Each thread's chunk lies within `[0, n]` |
| Partition.TenRowsThreeThreads | ex2/src/matvecs.c:97-100 | Ten rows on three threads split as 4, 3, 3 |
| Matvecs.CopyVector | ex2/src/matvecs.c:13-19 | Copies the first `size` entries of `x` into the destination and changes nothing else |
| Matvecs.CopyOut | ex2/src/matvecs.c:44-47 | Copies the current buffer window into `res` and changes nothing else |
| Matvecs.BufferAlternates | ex2/src/matvecs.c:33-35 | Round `r` reads the half at offset `(r mod 2)*size` and writes the other half |
| Matvecs.DenseRow | ex2/src/matvecs.c:37-40 | The inner loop stores `Σ_j A[i][j]*x_curr[j]` at `res_curr[i]` and changes nothing else |
| Matvecs.DenseRound | ex2/src/matvecs.c:36-41 | One round writes the full dense product of the read half into the write half and leaves the read half unchanged |
| Matvecs.DenseRounds | ex2/src/matvecs.c:33-42 | After `iters` rounds, the half at offset `(iters mod 2)*size` holds the product applied `iters` times |
| Matvecs.Matvecs | ex2/src/matvecs.c:9-54 | `res` becomes `A` applied `iters` times to `x` (a copy of `x` when `iters < 1`) |
| Matvecs.ThreadRows | ex2/src/matvecs.c:97-105 | A thread computes exactly its chunk's rows; `my_start_idx` is set by the first row it gets and `my_end_idx` follows its last row; both stay untouched when it gets none |
| Matvecs.ComputeStep | ex2/src/matvecs.c:92-105 | One thread's share of a round writes the correct product for the rows it owns and leaves its marks consistent with the static schedule |
| Matvecs.ComputePhase | ex2/src/matvecs.c:92-105 | After the `omp for`, each thread's buffer holds the correct product on that thread's own rows |
| Matvecs.CopyChunk | ex2/src/matvecs.c:118-120 | Copies `[my_start_idx, my_end_idx)` into another thread's buffer; this does nothing for the `-1, -1` marks |
| Matvecs.BroadcastThread | ex2/src/matvecs.c:116-122 | A thread writes its chunk into every other thread's buffer and leaves its own buffer unchanged |
| Matvecs.BroadcastStep | ex2/src/matvecs.c:116-122 | After thread `t` broadcasts, every buffer is correct on all rows of threads `0..t` |
| Matvecs.BroadcastPhase | ex2/src/matvecs.c:113-123 | After the broadcast and barrier, every thread's write half equals the full serial product for the round |
| Matvecs.ParallelRound | ex2/src/matvecs.c:92-128 | One parallel round leaves every thread's buffer equal to the dense product of the previous vector |
| Matvecs.ParallelRounds | ex2/src/matvecs.c:92-129 | After `iters` rounds, every thread's buffer holds the product applied `iters` times |
| Matvecs.CopyOwnRows | ex2/src/matvecs.c:133-135 | A thread copies exactly its own rows into `res` |
| Matvecs.FinalCopy | ex2/src/matvecs.c:131-135 | After all threads copy their own rows, `res` holds the whole result; each index is copied by the thread that owns it |
| Matvecs.AllocateBuffers | ex2/src/matvecs.c:77-86 | Each thread gets its own fresh buffer pair of length `2*size`, with `x` copied into the first half |
| Matvecs.MatvecsParallel | ex2/src/matvecs.c:56-145 | For any team size, `res` becomes `A` applied `iters` times to `x`, the same as `matvecs` |
| MatvecsCsr.CsrRow | ex2/src/matvecs_csr.c:52-55 | The inner loop stores the sum of `values[j]*x_read[col_index[j]]` over `[row_ptr[i], row_ptr[i+1])` and changes nothing else |
| MatvecsCsr.CsrRound | ex2/src/matvecs_csr.c:51-56 | One round writes the full CSR product of the read half into the write half |
| MatvecsCsr.CsrRounds | ex2/src/matvecs_csr.c:45-61 | After `iters` rounds, the half at offset `(iters mod 2)*rows` holds the CSR product applied `iters` times |
| MatvecsCsr.MatvecsCsr | ex2/src/matvecs_csr.c:11-73 | `res` becomes the CSR product applied `iters` times to `x` (a copy of `x` when `iters < 1`); `x` and the CSR arrays are not written |
| MatvecsCsr.RowSum | ex2/src/matvecs_csr.c:130-133 | The private `sum` equals row `i`'s CSR product, with nothing written |
| MatvecsCsr.ThreadCsrRows | ex2/src/matvecs_csr.c:128-135 | One thread stores the correct sum for each row of its static chunk and nothing else |
| MatvecsCsr.ParallelCsrRound | ex2/src/matvecs_csr.c:120-135 | All threads' chunks together write the full CSR product into the write half |
| MatvecsCsr.ParallelCsrRounds | ex2/src/matvecs_csr.c:118-148 | After `iters` parallel rounds, the write half holds the CSR product applied `iters` times |
| MatvecsCsr.MatvecsCsrParallel | ex2/src/matvecs_csr.c:75-173 | For any team size, `res` equals the `matvecs_csr` result |
| Sorting.Merged | ex3/src/merge_serial.c:12-31 | The merge of two runs has as many entries as both runs together |
| Sorting.MergePermutes | ex3/src/merge_serial.c:12-31 | The merge is a permutation of the two runs |
| Sorting.MergeLowerBound | ex3/src/merge_serial.c:12-31 | A lower bound of both runs is a lower bound of their merge |
| Sorting.MergeSorted | ex3/src/merge_serial.c:12-31 | Two sorted runs merge into a sorted sequence |
| Sorting.MergedRuns | ex3/src/merge_serial.c:12-31 | The merge is a permutation of the concatenated runs, and it is sorted when both runs are |
| Sorting.MergeTieTakesRight | ex3/src/merge_serial.c:13-19 | On equal heads the strict `<` takes the right element first |
| Sorting.AdjacentSorted | ex3/src/sort.c:78-85 | The driver's check that each element is at most its successor holds exactly when the array is sorted |
| Sorting.PermutedHalves | ex3/src/merge_serial.c:43-44 | Permuting each half in turn permutes the whole segment |
| Sorting.SortedUnique | ex3/src/sort.c:56-75 | Two sorted permutations of one sequence are equal, so the serial and the per-merge-temporary sorts give the same array |
| MergeSerial.MergeStep | ex3/src/merge_serial.c:13-19 | One comparison writes the next element of the merge into `tmp[index]` and advances `left` or `right` |
| MergeSerial.MergeHeads | ex3/src/merge_serial.c:12-20 | The first loop writes a prefix of the merge and stops when one run is used up |
| MergeSerial.RestOfLeft | ex3/src/merge_serial.c:23-26 | Copying the rest of the left run continues the merge |
| MergeSerial.RestOfRight | ex3/src/merge_serial.c:28-31 | Copying the rest of the right run completes the merge, with `index` reaching `r+1` |
| MergeSerial.MergeRuns | ex3/src/merge_serial.c:7-31 | The three loops write exactly `r-l+1` elements, namely the merge of the two halves, and touch nothing outside `[l, r]` |
| MergeSerial.CopyBack | ex3/src/merge_serial.c:34-36 | Copies `tmp[l..r]` back to `arr[l..r]` and changes nothing else |
| MergeSerial.Merge | ex3/src/merge_serial.c:6-37 | `arr[l..r]` becomes the merge of the old halves: sorted if both halves were, a permutation either way, equal to `tmp[l..r]`; `arr` and `tmp` are unchanged outside `[l, r]` |
| MergeSerial.MidpointInRange | ex3/src/merge_serial.c:42 | `l + (r-l)/2` lies in `[l, r)` when `l < r`, so the recursion terminates |
| MergeSerial.Mergesort | ex3/src/merge_serial.c:40-47 | `arr[l..r]` ends sorted and a permutation of its old contents; nothing outside `[l, r]` changes, and nothing changes at all when `l >= r` |
| MergeParallel.CopyTempBack | ex3/src/merge_parallel.c:34-36 | `arr[l+i] = temp[i]` for the whole temporary; `arr` outside the segment is unchanged |
| MergeParallel.ParallelMerge | ex3/src/merge_parallel.c:5-37 | Merges into a fresh temporary of exactly `r-l+1` entries; `arr[l..r]` becomes the merge (sorted from sorted halves, a permutation), and the rest of `arr` is unchanged |
| MergeParallel.MidpointsAgree | ex3/src/merge_parallel.c:41 | For `0 <= l < r`, `(l+r)/2` equals `l + (r-l)/2` and lies in `[l, r)` |
| MergeParallel.ParallelMergesort | ex3/src/merge_parallel.c:39-46 | `arr[l..r]` ends sorted and a permutation of its old contents; nothing changes outside the segment or when `l >= r` |

Notes:

- `vectors_diffs` in ex2/src/matvecs.c:147-155 is the same loop as the one in ex2/inc/util_matvec.h:6-14. `UtilMatvec.VectorsDiffs` models both.
- Some claims that "serial equals parallel" come from the drivers' comparisons (ex1/src/main.c:66-73, ex2/src/sparse.c:119-125 and 150-156). They follow here because both versions meet the same specification.
- The CSR builds never compare equal. `build_csr_matrix_parallel` (ex2/src/sparse_matrix_csr.c:49-60) leaves its freshly initialised matrix at zero rows, so for any matrix size of at least 1 the driver's `compare_csr_matrix` call prints that the builds do not match. `SparseMatrixCsr.CompareBuilds` proves this.

## Left out

- Input/output, timing and argument parsing are not modelled. This covers `clock_gettime`, `omp_get_wtime`, `printf`/`perror`, the `print_*` helpers and the drivers (`main.c`, `sparse.c`, `sort.c`). They only report; they compute nothing the kernels depend on.
- The random input generators and the Python benchmarking and plotting scripts are not modelled. They rely on `rand()`, subprocesses and file I/O.
- OpenMP scheduling and concurrency are not modelled. Each parallel region runs its threads one after another, in id order, over the static chunks the GCC runtime assigns (other runtimes may size the chunks differently; only contiguity, disjointness and coverage are used).
  - Interleavings are not modelled.
  - The atomic update in `m_parallel` is not modelled. Addition commutes, so the result is the same.
  - The barriers become the boundaries between the thread loops.
- `MatvecsCsr.MatvecsCsrParallel`, `Matvecs.MatvecsParallel` and `MParallel.Multiply` take the team size as given. The runtime may grant fewer threads than requested; since the results are proved for any team size, this does not change them.
- `MParallel.Multiply` uses one team size for both the schedule and the combine start `tid*r/thread_count`. In C, the start of the combine loop and the final `free` of `R_locals[t]` use the requested `thread_count`. With a smaller team, the C code frees slots that were never allocated. The model does not capture that, though the coefficients would be unaffected.
- Allocation is modelled as fresh arrays. `malloc`/`calloc` failure paths and `free` are not modelled, including `free_csr_matrix` and the `exit` on allocation failure.
- The temporary that `parallel_merge` leaks is allocated fresh on each call.
- Integers are unbounded, so C overflow is not modelled. This covers `int` products in the matvecs, `long long` coefficients, `tid * r` in the combine start, and `l + r` in `parallel_mergesort`. `(l + r) / 2` agrees with `l + (r - l) / 2` only because no overflow happens.
- `SparseMatrixCsr.CsrMatrix.Build` requires at least as many slots as there are nonzeros (`Nnz(a) <= nnz`). The C code has no bounds check on these writes; a smaller `nnz` would overflow the allocated arrays.
- `SparseMatrixCsr.CsrMatrix.Build` returns the `printf` outcome as a `BuildReport` value instead of printing it.
- `build_csr_matrix_parallel` is modelled as written: it only checks `row_ptr` and prints a status. It does not build anything, and the model does not invent a parallel builder.
- Header declarations that disagree with their definitions are not modelled:
  - `build_csr_matrix` is declared `int` in the header;
  - `count_nnz` is declared but never defined;
  - the `merge_parallel.h` prototypes differ from the definitions;
  - `begin_parallel_mergesort` is called in `sort.c` but defined nowhere.
- `MParallel.Combine` runs the combine loop of one thread at a time. The model does not cover two threads' `+=` on the same index racing.
- `Xorshift32.State.Next` is the only operation on the generator. How an initial seed is chosen is not modelled.
