# OpenMP kernels, modelled in Dafny

This project models five small OpenMP teaching programs. Each program has a
sequential reference kernel, one or more parallel variants, and a checker
that compares the variants with the reference:

- **SpMV** (`Task6-Sparse-Matrix`). A random sparse matrix is built in
  compressed sparse row (CSR) form. It is then multiplied by a vector
  sequentially, under `schedule(static)` and under `schedule(dynamic, chunk)`.
- **Histogram** (`Task3-Histogram`). Values 0..9 are counted into ten bins.
  This is done sequentially, with an atomic increment per element, and with
  per-thread local histograms merged in critical sections. The printout
  scales each bar to 50 columns.
- **XOR encryption** (`Task2-File-Encryption`). A test file is generated. It
  is encrypted by a buffered sequential loop and by a chunk-parallel loop.
  The result is then verified byte by byte.
- **Matrix transpose** (`Task4-Matrix-Transpose`). The transpose is computed
  sequentially, by a `collapse(2)` parallel loop, and by cache blocks handed
  out dynamically.
- **Matrix multiplication** (`Task1-Matrix-Multiplication`). The product is
  computed sequentially and by output tiles handed out dynamically. Each
  tile's dot products run their k loop in blocks.

All threading is modelled the same way, as "owner computes".

- A work-sharing loop becomes a sequence of index ranges, one per chunk, row
  block or tile. The ranges are walked one after another (`Partition.Run`).
- The schedule is a parameter. The static kernels take a fixed split. The
  dynamic and blocked kernels take their chunking plus a completion order,
  which may be any permutation (`Partition.IsOrdering`). Every kernel rests
  on a lemma that holds for any partition (see "Left out").
- The walker's central lemma is `Partition.RunOverPartition`. When every index is
  owned by exactly one range, the walk gives every index its loop body once,
  whatever the order.
- Atomic increments are a permutation of the element visits. Critical
  sections are an arbitrary order of the per-thread merges.
- Each parallel kernel is proved to produce the sequential result for every
  such schedule.

The 2-D kernels use one layout, written once in module `Grid`:

- A matrix is a flat row-major sequence, with `p = i*N + j`.
- Its tiles are cut into row segments, which form a partition of `[0, N*N)`.
- So the tile schedules are 1-D walks too.

Modules:

- `Partition`: ranges, ownership counts, partitions, the walker, the static
  and chunked splits, and reordering.
- `Grid`: the flat layout and tiles.
- `Compare`: the tolerance comparison shared by the SpMV and matrix-multiply
  checkers.
- `SpMV`, `Histogram`, `Encryption`, `Transpose`, `MatMul`: one per program.

Doubles are modelled as `real`, C `int` counters as `int`/`nat`, and bytes as
`bv8`.

## Model

| member | source | states |
|---|---|---|
| Partition.RunOverPartition | Task6-Sparse-Matrix/sparse_matrix_vector.c:340-347 | when the ranges partition the indices, walking them in order applies the loop body to every index exactly once, each to its original value |
| Partition.PartitionIffDisjointCover | Task6-Sparse-Matrix/sparse_matrix_vector.c:295-302 | "each index owned exactly once" is equivalent to: ranges in bounds, pairwise disjoint, and jointly covering every index |
| Partition.StaticRangesPartition | Task6-Sparse-Matrix/sparse_matrix_vector.c:295 | the `schedule(static)` split into t consecutive near-equal blocks (sizes n/t or n/t+1) is a partition of the n iterations |
| Partition.CeilDiv | Task2-File-Encryption/file_encryption.c:187 | the number of chunks `(size + chunk - 1) / chunk` is the least q with q*chunk >= size, and 0 for an empty file |
| Partition.ChunkRangesPartition | Task2-File-Encryption/file_encryption.c:201-204 | chunks [k*c, min(k*c+c, n)) are pairwise disjoint, cover [0, n) and form a partition |
| Partition.ReorderPartition | Task6-Sparse-Matrix/sparse_matrix_vector.c:340 | handing the chunks out in any order (a permutation of the chunk numbers) is still a partition |
| Compare.VerifyResults | Task6-Sparse-Matrix/sparse_matrix_vector.c:352-370 | the error count is the number of indices whose difference exceeds the tolerance; the diagnostics list the first five, ascending; the check passes iff every pair is within tolerance |
| Compare.NoMismatchesIffClose | Task6-Sparse-Matrix/sparse_matrix_vector.c:356-369 | zero errors is equivalent to every index being within tolerance |
| SpMV.SpmvSequential | Task6-Sparse-Matrix/sparse_matrix_vector.c:263-271 | y[i] is the sum of the row's stored values times x at their columns; a row with no entries gives 0 |
| SpMV.OwnerComputesRows | Task6-Sparse-Matrix/sparse_matrix_vector.c:295-302 | running the row body over any partition of the rows yields the product, whatever y held before |
| SpMV.SpmvStatic | Task6-Sparse-Matrix/sparse_matrix_vector.c:274-304 | the statically scheduled kernel computes the same vector as the sequential one, for every thread count |
| SpMV.DynamicChunk | Task6-Sparse-Matrix/sparse_matrix_vector.c:329-332 | chunk = rows / (100*threads), clamped to [10, 1000]: 10 below the lower threshold, 1000 above the upper, otherwise the floor quotient |
| SpMV.SpmvDynamic | Task6-Sparse-Matrix/sparse_matrix_vector.c:307-349 | the dynamically scheduled kernel computes the product for every chunk size and every order in which the chunks are taken |
| SpMV.RunAndCompare | Task6-Sparse-Matrix/sparse_matrix_vector.c:98-128 | both comparisons of the program's run pass: static and dynamic results equal the sequential one |
| SpMV.CreateSparseMatrix | Task6-Sparse-Matrix/sparse_matrix_vector.c:175-220 | the builder yields a valid CSR matrix of the given shape; row i holds exactly the kept cells of grid row i, in ascending column order; nnz is the number of kept cells, at most rows*cols |
| SpMV.ScanRow | Task6-Sparse-Matrix/sparse_matrix_vector.c:195-203 | the inner loop appends exactly the row's kept cells, as (column, value) pairs, in column order, and keeps both arrays the same length |
| SpMV.KeptCellsFacts | Task6-Sparse-Matrix/sparse_matrix_vector.c:195-203 | a row's kept cells have strictly increasing in-range columns, each carries the grid value and a kept flag, and every kept cell is among them |
| SpMV.KeptBeforeSize | Task6-Sparse-Matrix/sparse_matrix_vector.c:193-205 | the number of cells kept in the first r rows is at most r*cols |
| SpMV.StoredStreamIsBuilt | Task6-Sparse-Matrix/sparse_matrix_vector.c:206-214 | arrays holding the row-major stream of kept cells, with row_ptr[r] = cells kept before row r, form the CSR matrix of the grid |
| SpMV.BuiltProductIsDense | Task6-Sparse-Matrix/sparse_matrix_vector.c:263-271 | the CSR product of a built matrix is, row by row, the dense dot product of the grid with the dropped cells read as zero |
| SpMV.NothingKept | Task6-Sparse-Matrix/sparse_matrix_vector.c:197-202 | when no draw keeps a cell, nnz is 0 and every product entry is 0 |
| SpMV.Example3x3 | Task6-Sparse-Matrix/sparse_matrix_vector.c:263-349 | a concrete 3 x 3 matrix times the all-ones vector is [3, 0, 3]. That is the product the sequential kernel computes, and the result under every static and every dynamic schedule |
| SpMV.ChunkSeenAsWritten | Task6-Sparse-Matrix/sparse_matrix_vector.c:322-340 | as written, only the thread that ran `single` hands the computed chunk size (10..1000) to the schedule. Every other thread hands its uninitialised value, which equals the computed size only by chance |
| SpMV.ChunkDisagreement | Task6-Sparse-Matrix/sparse_matrix_vector.c:322-340 | with two threads, one thread can see 0 while the other sees the computed chunk size |
| Histogram.GenerateData | Task3-Histogram/histogram.c:125-130 | every generated value is a bin number (0..9) and equals its draw modulo 10 |
| Histogram.HistogramSequential | Task3-Histogram/histogram.c:133-141 | bin b holds the number of elements equal to b |
| Histogram.TallyVisitsCount | Task3-Histogram/histogram.c:163-169 | after any sequence of atomic increments, bin b counts each element equal to b once per visit of its index |
| Histogram.HistogramAtomic | Task3-Histogram/histogram.c:148-171 | when every index is incremented exactly once, in any interleaving, the result is the histogram of the data |
| Histogram.LocalHistogram | Task3-Histogram/histogram.c:183-195 | a thread's private histogram counts the occurrences of each bin within its own index range, and is empty for an empty range |
| Histogram.MergeAllCount | Task3-Histogram/histogram.c:201-206 | after the merges, bin b counts each occurrence of b once per thread range that owns its index |
| Histogram.ReductionOverPartition | Task3-Histogram/histogram.c:176-208 | merging the private histograms of any partition of the indices, in any order, gives the histogram of the data |
| Histogram.HistogramReduction | Task3-Histogram/histogram.c:176-208 | the reduction kernel yields the histogram for every thread count and every order of the critical sections |
| Histogram.TotalIsSize | Task3-Histogram/histogram.c:235-239 | the printed total, the sum of the bins, equals the number of elements |
| Histogram.MaxCount | Task3-Histogram/histogram.c:216-219 | the maximum bounds every bin and is attained by some bin, or is 0 |
| Histogram.BarLength | Task3-Histogram/histogram.c:223-224 | the bar length is at most 50 and is 0 iff the bin is empty. When count*50 >= max it is the floor of count*50/max, and the fullest bin gets 50. A non-empty bin whose scaled count is below 1 gets 1 |
| Histogram.BarLengthIsQuotient | Task3-Histogram/histogram.c:223-224 | the bar length equals the C expression: 1 for a non-empty bin with count*50 < max, else count*50/max |
| Histogram.BarLengthMonotone | Task3-Histogram/histogram.c:223-224 | a larger count never gets a shorter bar |
| Histogram.BarsAsWritten | Task3-Histogram/histogram.c:216-224 | the bars are defined iff the largest count is non-zero, since the scaling divides by it |
| Histogram.EmptyDataHasNoBars | Task3-Histogram/histogram.c:223 | for an empty data set the scaling divides by zero |
| Histogram.Bars | Task3-Histogram/histogram.c:222-224 | corrected bars: empty bins draw nothing, the fullest bin draws 50, order of counts is kept, and the bars agree with the original whenever it is defined |
| Histogram.VerifyHistograms | Task3-Histogram/histogram.c:243-252 | the error count is the number of differing bins; the check passes iff the two histograms are equal |
| Histogram.RunHistogram | Task3-Histogram/histogram.c:53-90 | in the program's run, both parallel histograms pass the comparison with the sequential one |
| Encryption.XorInvolution | Task2-File-Encryption/file_encryption.c:156 | XOR with the key, applied twice, gives back the original: the same routine decrypts |
| Encryption.XorBuffer | Task2-File-Encryption/file_encryption.c:155-157 | the buffer loop XORs each byte read with the key |
| Encryption.EncryptSequential | Task2-File-Encryption/file_encryption.c:141-163 | reading and writing in 4096-byte pieces, the output is the whole input XOR the key |
| Encryption.EncryptParallel | Task2-File-Encryption/file_encryption.c:166-233 | chunk-parallel encryption gives the input XOR the key, for every chunk size and every chunk order |
| Encryption.EncryptBoth | Task2-File-Encryption/file_encryption.c:68-77 | the sequential and the parallel outputs are equal, and encrypting the output again gives back the input |
| Encryption.VerifyEncryption | Task2-File-Encryption/file_encryption.c:236-271 | one error per wrong byte, plus one if the encrypted file ends early (which stops the scan); passes iff the encrypted file is at least as long and agrees with original XOR key on the original's length |
| Encryption.VerifierAcceptsEncryption | Task2-File-Encryption/file_encryption.c:249-265 | the verifier's criterion holds for the parallel encryptor's output, even with trailing bytes |
| Encryption.GenerateTestFile | Task2-File-Encryption/file_encryption.c:116-138 | the file has max(size, 0) bytes, byte i is draw i modulo 256, and it is written in pieces of 4096 bytes except the last, which holds 1 to 4096 bytes |
| Grid.TilesAreTiling | Task4-Matrix-Transpose/matrix_transpose.c:199-204 | the blocks (bi, bj) with edges clamped to N cover every cell of the N x N matrix exactly once |
| Grid.ReorderTiling | Task4-Matrix-Transpose/matrix_transpose.c:199 | handing the blocks out in any order still covers every cell exactly once |
| Grid.SegmentsPartition | Task4-Matrix-Transpose/matrix_transpose.c:207-211 | the row segments of a tiling partition the flat indices [0, N*N) |
| Transpose.TransposedIsTranspose | Task4-Matrix-Transpose/matrix_transpose.c:150-156 | B[j][i] == A[i][j] for all cells is equivalent to B being the transpose |
| Transpose.TransposeTwice | Task4-Matrix-Transpose/matrix_transpose.c:153 | transposing twice gives back the matrix |
| Transpose.ScatterOverPartition | Task4-Matrix-Transpose/matrix_transpose.c:167-172 | scattering A through the transpose over any partition of the source cells writes every target cell once, with its transposed value |
| Transpose.TransposeSequential | Task4-Matrix-Transpose/matrix_transpose.c:150-156 | the result is the transpose of A, whatever B held before |
| Transpose.TransposeNaive | Task4-Matrix-Transpose/matrix_transpose.c:159-174 | the collapsed parallel loop yields the transpose for every thread count |
| Transpose.TransposeBlocked | Task4-Matrix-Transpose/matrix_transpose.c:177-216 | the blocked kernel yields the transpose for every block size and every order of the blocks |
| Transpose.InitializeMatrix | Task4-Matrix-Transpose/matrix_transpose.c:140-147 | the matrix has rows*cols cells with pairwise distinct values, so a misplaced element is detectable |
| Transpose.InitialTransposed | Task4-Matrix-Transpose/matrix_transpose.c:140-156 | after transposing the initial matrix, cell (j, i) holds i*N + j |
| Transpose.VerifyTranspose | Task4-Matrix-Transpose/matrix_transpose.c:236-257 | error count and first five diagnostics follow the cell-by-cell comparison; the check passes iff every B[j][i] is within tolerance of A[i][j] |
| Transpose.RunTranspose | Task4-Matrix-Transpose/matrix_transpose.c:62-97 | in the program's run, both the naive and the blocked transpose pass the comparison |
| MatMul.InitializeMatrix | Task1-Matrix-Multiplication/matrix_multiplication.c:122-127 | entry p is draw p modulo 10, so every entry is a whole number from 0 to 9 |
| MatMul.ProductAt | Task1-Matrix-Multiplication/matrix_multiplication.c:134-141 | cell (i, j) of the product is the dot product of row i of A and column j of B |
| MatMul.ProductIdentity | Task1-Matrix-Multiplication/matrix_multiplication.c:130-143 | multiplying by the identity matrix gives back the matrix |
| MatMul.DotLoop | Task1-Matrix-Multiplication/matrix_multiplication.c:136-139 | the k loop accumulates the dot product of row i and column j |
| MatMul.MultiplyRow | Task1-Matrix-Multiplication/matrix_multiplication.c:134-142 | one pass of the i loop writes row i of the product and leaves every other cell unchanged |
| MatMul.SequentialMultiply | Task1-Matrix-Multiplication/matrix_multiplication.c:130-143 | the result is the matrix product, whatever C held before |
| MatMul.AccChunksPartial | Task1-Matrix-Multiplication/matrix_multiplication.c:191-198 | accumulating over a consecutive chain of k blocks continues the running sum from the first block's start to the last block's end |
| MatMul.BlockedDotIsDot | Task1-Matrix-Multiplication/matrix_multiplication.c:189-198 | the blocked k loop computes the same sum as the plain dot product, for every block size |
| MatMul.BlockedCellsAreProduct | Task1-Matrix-Multiplication/matrix_multiplication.c:185-203 | the per-cell body of the tiled kernel writes the product's value |
| MatMul.BlockedMultiply | Task1-Matrix-Multiplication/matrix_multiplication.c:146-208 | the tiled kernel yields the matrix product for every block size and every order of the tiles |
| MatMul.VerifyResults | Task1-Matrix-Multiplication/matrix_multiplication.c:226-245 | the error count is the number of cells differing by more than 1e-6; the check passes iff there are none |
| MatMul.RunMultiply | Task1-Matrix-Multiplication/matrix_multiplication.c:60-89 | in the program's run, the tiled result passes the comparison with the sequential one |

## Left out

- Threads, the OpenMP runtime and memory ordering are not modelled. A
  work-sharing loop is a partition of its iterations into ranges, walked in an
  order given as a parameter. Atomic increments are a permutation of the
  element visits.
- Partition.StaticRanges fixes one block split for `schedule(static)`. Each
  kernel theorem rests on a lemma that holds for any partition, so the
  particular split does not matter. The lemmas are:
  - `SpMV.OwnerComputesRows` for the SpMV kernels;
  - `Partition.RunOverPartition` for the parallel encryptor and the tiled
    matrix multiplication;
  - `Transpose.ScatterOverPartition` for the three transposes;
  - `Histogram.ReductionOverPartition` for the reduction histogram.
  The atomic histogram rests on `Histogram.TallyVisitsCount`, which holds for
  any order of the increments.
- IEEE doubles are modelled as exact reals. The checkers' tolerances are kept
  as constants, but rounding, and any difference that a change of summation
  order would cause, are not modelled.
- `rand`/`srand` are not modelled. The random draws, and the builder's
  keep/drop decisions with their values, are parameters. The seeds passed to
  the initialisers are therefore unused, including the transpose
  initialiser's seed, which the source ignores as well.
- C `int` overflow is not modelled: `rows*cols` in the SpMV builder's
  estimate, `N*N`, and the `count*50` of the histogram printout are unbounded
  integers here.
- SpMV.CreateSparseMatrix grows its temporary arrays as needed. The source
  allocates `estimated_nnz*2` slots and does not check that bound.
- SpMV.SpmvDynamic takes any positive chunk size, shared by all threads. The
  source's uninitialised `chunk_size` is recorded under Findings.
- File I/O is not modelled: fopen/fread/fwrite failures, `get_file_size`, and
  file names. Files are byte sequences.
- malloc/calloc/memcpy/free and their failure paths are not modelled.
- Timing (`omp_get_wtime`), argument parsing and all printing are not
  modelled. This covers `print_csr_format`, `print_vector`, `print_matrix`,
  `print_hex_sample`, the text of `print_histogram`, and the lines that print
  the first mismatches of the histogram and encryption checkers. The bar
  lengths and the total of the histogram printout are modelled.
- Negative sizes from the command line are not modelled. Matrix dimensions
  are `nat`. The encryption generator takes any `int` size and writes nothing
  for size <= 0.
- Transpose.TransposeBlocked and MatMul.BlockedMultiply require a block size
  of at least 1. With 0 the source's block loops never advance.
- Encryption.EncryptParallel requires a chunk size of at least 1. With 0 the
  source divides by zero when it counts the chunks.
- The command-line defaults are parameters of the model: the matrix sizes,
  the block sizes and the key 0xA5. Only the encryptor's 1 MiB chunk size is
  kept as a constant, because it is not a command-line parameter.
- The density argument of the SpMV builder is modelled only through the
  keep/drop decisions. No claim is made that density 1.0 keeps every cell.
- The fifth program in the repository (`Task5`) is not part of this model.

## Findings

| source | as written | input that shows it | evidently intended | confidence | as-written member | corrected member |
|---|---|---|---|---|---|---|
| Task3-Histogram/histogram.c:223 | `bar_length = histogram[i]*50 / max_count` with `max_count` the largest bin, which is 0 when there are no elements | running the program with size argument `0`. The program gets past `malloc(0)` at histogram.c:45 only where that call returns non-NULL: this is implementation-defined, and glibc does so. Every bin is then 0, so the printout divides by zero | an empty histogram prints empty bars | not executed | Histogram.BarsAsWritten (with Histogram.EmptyDataHasNoBars) | Histogram.Bars |
| Task6-Sparse-Matrix/sparse_matrix_vector.c:322-340 | `chunk_size` is private to each thread, and only the thread that runs the `single` block assigns it. Every thread then evaluates `schedule(dynamic, chunk_size)` with its own copy | any run with two or more threads: the other threads read an uninitialised value, for instance 0. OpenMP requires the chunk size to be positive and the same in every thread | one chunk size, computed once and seen by all threads | not executed | SpMV.ChunkSeenAsWritten (with SpMV.ChunkDisagreement) | SpMV.DynamicChunk with SpMV.SpmvDynamic, as used by SpMV.RunAndCompare |
