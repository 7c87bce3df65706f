/** Sparse matrix-vector multiplication y = A x with A in compressed sparse
    row (CSR) form: the sequential kernel, the row-parallel kernels under a
    static and a dynamic schedule, the adaptive dynamic chunk size, and the
    builder that scans a dense grid row by row and keeps the selected cells.
 */
module SpMV {
  import opened Partition
  import Compare

  /** Absolute tolerance of the result comparison. */
  const Tolerance: real := 0.000000001

  /** A CSR matrix: values and colIndices hold the nnz stored entries row
      after row; row i owns the entries with index in [rowPtr[i], rowPtr[i+1]). */
  datatype Csr = Csr(numRows: nat, numCols: nat, nnz: nat,
                     values: seq<real>, colIndices: seq<int>, rowPtr: seq<int>)

  /** One stored entry: its column and its value. */
  datatype Entry = Entry(col: int, val: real)

  /** The array shape: lengths agree, rowPtr starts at 0, ends at nnz and never decreases. */
  predicate Shaped(A: Csr) {
    && |A.values| == A.nnz
    && |A.colIndices| == A.nnz
    && |A.rowPtr| == A.numRows + 1
    && A.rowPtr[0] == 0
    && A.rowPtr[A.numRows] == A.nnz
    && forall i, j :: 0 <= i <= j <= A.numRows ==> A.rowPtr[i] <= A.rowPtr[j]
  }

  /** The stored entries with index in [lo, hi). */
  function Entries(A: Csr, lo: int, hi: int): (es: seq<Entry>)
    requires Shaped(A) && 0 <= lo <= hi <= A.nnz
    ensures |es| == hi - lo
  {
    seq(hi - lo, k requires 0 <= k < hi - lo => Entry(A.colIndices[lo + k], A.values[lo + k]))
  }

  /** The stored entries of row i. */
  function RowEntries(A: Csr, i: int): seq<Entry>
    requires Shaped(A) && 0 <= i < A.numRows
  {
    Entries(A, A.rowPtr[i], A.rowPtr[i + 1])
  }

  /** Columns lie in [0, cols) and strictly increase along es. */
  predicate SortedColumns(es: seq<Entry>, cols: int) {
    && (forall k :: 0 <= k < |es| ==> 0 <= es[k].col < cols)
    && (forall a, b :: 0 <= a < b < |es| ==> es[a].col < es[b].col)
  }

  /** A well-formed CSR matrix. */
  predicate Valid(A: Csr) {
    Shaped(A) && forall i :: 0 <= i < A.numRows ==> SortedColumns(RowEntries(A, i), A.numCols)
  }

  /** Σ e.val * x[e.col] over es, accumulated front to back. */
  function EntryDot(es: seq<Entry>, x: seq<real>): real
    requires forall k :: 0 <= k < |es| ==> 0 <= es[k].col < |x|
    decreases |es|
  {
    if |es| == 0 then 0.0
    else EntryDot(es[..|es| - 1], x) + es[|es| - 1].val * x[es[|es| - 1].col]
  }

  /** Entry i of A x: the dot product of row i's stored entries with x. */
  function RowValue(A: Csr, x: seq<real>, i: int): real
    requires Valid(A) && |x| == A.numCols && 0 <= i < A.numRows
  {
    EntryDot(RowEntries(A, i), x)
  }

  /** The product A x, one entry per row. */
  function Product(A: Csr, x: seq<real>): seq<real>
    requires Valid(A) && |x| == A.numCols
  {
    seq(A.numRows, i requires 0 <= i < A.numRows => RowValue(A, x, i))
  }

  /** The sequential kernel: row by row, sum the row's stored entries times x. */
  method SpmvSequential(A: Csr, x: seq<real>, y0: seq<real>) returns (y: seq<real>)
    requires Valid(A) && |x| == A.numCols && |y0| == A.numRows
    ensures y == Product(A, x)
    ensures forall i :: 0 <= i < A.numRows && A.rowPtr[i] == A.rowPtr[i + 1] ==> y[i] == 0.0
  {
    y := y0;
    for i := 0 to A.numRows
      invariant |y| == A.numRows
      invariant forall r :: 0 <= r < i ==> y[r] == RowValue(A, x, r)
    {
      var lo, hi := A.rowPtr[i], A.rowPtr[i + 1];
      forall j | lo <= j < hi
        ensures 0 <= A.colIndices[j] < A.numCols
      {
        assert RowEntries(A, i)[j - lo].col == A.colIndices[j];
      }
      var sum := 0.0;
      for j := lo to hi
        invariant sum == EntryDot(Entries(A, lo, j), x)
      {
        assert Entries(A, lo, j + 1)[..j - lo] == Entries(A, lo, j);
        sum := sum + A.values[j] * x[A.colIndices[j]];
      }
      y := y[i := sum];
    }
  }

  /** The loop body every kernel runs for row i; the old y[i] is overwritten. */
  function RowBody(A: Csr, x: seq<real>): (int, real) --> real
    requires Valid(A) && |x| == A.numCols
  {
    (i: int, prev: real) requires 0 <= i < A.numRows => RowValue(A, x, i)
  }

  /** The row loop run over a schedule of row ranges, one range at a time. */
  function SpmvOverRanges(A: Csr, x: seq<real>, y0: seq<real>, rs: seq<Range>): seq<real>
    requires Valid(A) && |x| == A.numCols && |y0| == A.numRows && Within(rs, A.numRows)
  {
    Run(y0, rs, RowBody(A, x))
  }

  /** Owner computes: when every row belongs to exactly one range, the
      schedule yields the product, whatever y held before. */
  lemma OwnerComputesRows(A: Csr, x: seq<real>, y0: seq<real>, rs: seq<Range>)
    requires Valid(A) && |x| == A.numCols && |y0| == A.numRows && IsPartition(rs, A.numRows)
    ensures SpmvOverRanges(A, x, y0, rs) == Product(A, x)
  {
    RunOverPartition(y0, rs, RowBody(A, x));
  }

  /** schedule(static) with t threads: thread k takes the k-th near-equal block of rows. */
  function SpmvStatic(A: Csr, x: seq<real>, y0: seq<real>, threads: nat): (y: seq<real>)
    requires Valid(A) && |x| == A.numCols && |y0| == A.numRows && threads >= 1
    ensures y == Product(A, x)
  {
    StaticRangesPartition(A.numRows, threads);
    OwnerComputesRows(A, x, y0, StaticRanges(A.numRows, threads));
    SpmvOverRanges(A, x, y0, StaticRanges(A.numRows, threads))
  }

  /** The adaptive chunk size: about a hundred chunks per thread, clamped to [10, 1000]. */
  function DynamicChunk(numRows: nat, threads: nat): (c: nat)
    requires threads >= 1
    ensures 10 <= c <= 1000
    ensures numRows < 10 * (threads * 100) ==> c == 10
    ensures numRows >= 1001 * (threads * 100) ==> c == 1000
    ensures 10 * (threads * 100) <= numRows < 1001 * (threads * 100) ==>
              c * (threads * 100) <= numRows < (c + 1) * (threads * 100)
  {
    var target := numRows / (threads * 100);
    QuotientThreshold(numRows, threads * 100, 10);
    QuotientThreshold(numRows, threads * 100, 1001);
    QuotientBounds(numRows, threads * 100);
    if target < 10 then 10
    else if target > 1000 then 1000
    else target
  }

  /** The chunk size thread t hands to the dynamic schedule, as the source is
      written: chunk_size is private and only the thread that ran the `single`
      block assigned it, so every other thread's copy is uninitialised (here
      the arbitrary value `garbage`). */
  function ChunkSeenAsWritten(numRows: nat, threads: nat, t: nat, singleThread: nat, garbage: int): (c: int)
    requires threads >= 1 && t < threads && singleThread < threads
    ensures t == singleThread ==> 10 <= c <= 1000
    ensures t != singleThread ==> c == garbage
    ensures c == DynamicChunk(numRows, threads) <==> t == singleThread || garbage == DynamicChunk(numRows, threads)
  {
    if t == singleThread then DynamicChunk(numRows, threads) else garbage
  }

  /** With two threads, the thread that did not run `single` can see a chunk
      size of 0 while the other sees the computed one: the threads disagree,
      and 0 is no valid chunk size. */
  lemma ChunkDisagreement(numRows: nat)
    ensures ChunkSeenAsWritten(numRows, 2, 0, 0, 0) >= 10
    ensures ChunkSeenAsWritten(numRows, 2, 1, 0, 0) == 0
    ensures ChunkSeenAsWritten(numRows, 2, 1, 0, 0) != ChunkSeenAsWritten(numRows, 2, 0, 0, 0)
  {
  }

  /** schedule(dynamic, chunk): rows cut into chunks of `chunk` rows (the last
      one shorter), the chunks handed out in any order `order`. */
  function SpmvDynamic(A: Csr, x: seq<real>, y0: seq<real>, chunk: nat, order: seq<nat>): (y: seq<real>)
    requires Valid(A) && |x| == A.numCols && |y0| == A.numRows && chunk >= 1
    requires IsOrdering(order, CeilDiv(A.numRows, chunk))
    ensures y == Product(A, x)
  {
    ChunkRangesPartition(A.numRows, chunk);
    ReorderPartition(ChunkRanges(A.numRows, chunk), order, A.numRows);
    OwnerComputesRows(A, x, y0, Reorder(ChunkRanges(A.numRows, chunk), order));
    SpmvOverRanges(A, x, y0, Reorder(ChunkRanges(A.numRows, chunk), order))
  }

  /** The three kernels agree, so verifying the parallel results against the sequential one passes. */
  method RunAndCompare(A: Csr, x: seq<real>, threads: nat, order: seq<nat>)
    returns (staticOk: bool, dynamicOk: bool)
    requires Valid(A) && |x| == A.numCols && threads >= 1
    requires IsOrdering(order, CeilDiv(A.numRows, DynamicChunk(A.numRows, threads)))
    ensures staticOk && dynamicOk
  {
    var zeros := seq(A.numRows, _ => 0.0);
    var ySeq := SpmvSequential(A, x, zeros);
    var yStatic := SpmvStatic(A, x, zeros, threads);
    var yDynamic := SpmvDynamic(A, x, zeros, DynamicChunk(A.numRows, threads), order);
    var errors, reported;
    staticOk, errors, reported := Compare.VerifyResults(ySeq, yStatic, Tolerance);
    dynamicOk, errors, reported := Compare.VerifyResults(ySeq, yDynamic, Tolerance);
  }

  // ---------------------------------------------------------------------
  // Building a CSR matrix from a dense grid and a keep mask

  /** g is a rows x cols grid. */
  predicate IsGrid<T>(g: seq<seq<T>>, rows: nat, cols: nat) {
    |g| == rows && forall r :: 0 <= r < rows ==> |g[r]| == cols
  }

  /** Column c occurs among es. */
  predicate HasColumn(es: seq<Entry>, c: int) {
    exists k :: 0 <= k < |es| && es[k].col == c
  }

  /** The kept cells of one dense row among columns [0, j), in column order. */
  function KeptCells(vals: seq<real>, keep: seq<bool>, j: nat): (es: seq<Entry>)
    requires j <= |vals| && j <= |keep|
    ensures |es| <= j
    ensures forall k :: 0 <= k < |es| ==> 0 <= es[k].col < j
    decreases j
  {
    if j == 0 then []
    else KeptCells(vals, keep, j - 1) + (if keep[j - 1] then [Entry(j - 1, vals[j - 1])] else [])
  }

  /** The kept cells are sorted by column, each one is a kept cell carrying
      its dense value, and every kept cell of the row appears. */
  lemma KeptCellsFacts(vals: seq<real>, keep: seq<bool>, j: nat)
    requires j <= |vals| && j <= |keep|
    ensures SortedColumns(KeptCells(vals, keep, j), j)
    ensures forall k :: 0 <= k < |KeptCells(vals, keep, j)| ==>
              keep[KeptCells(vals, keep, j)[k].col] && KeptCells(vals, keep, j)[k].val == vals[KeptCells(vals, keep, j)[k].col]
    ensures forall c :: 0 <= c < j && keep[c] ==> HasColumn(KeptCells(vals, keep, j), c)
  {
    KeptCellsSorted(vals, keep, j);
    KeptCellsKept(vals, keep, j);
    KeptCellsComplete(vals, keep, j);
  }

  lemma {:induction false} KeptCellsSorted(vals: seq<real>, keep: seq<bool>, j: nat)
    requires j <= |vals| && j <= |keep|
    ensures SortedColumns(KeptCells(vals, keep, j), j)
    decreases j
  {
    if j > 0 {
      KeptCellsSorted(vals, keep, j - 1);
    }
  }

  lemma {:induction false} KeptCellsKept(vals: seq<real>, keep: seq<bool>, j: nat)
    requires j <= |vals| && j <= |keep|
    ensures forall k :: 0 <= k < |KeptCells(vals, keep, j)| ==>
              keep[KeptCells(vals, keep, j)[k].col] && KeptCells(vals, keep, j)[k].val == vals[KeptCells(vals, keep, j)[k].col]
    decreases j
  {
    if j > 0 {
      KeptCellsKept(vals, keep, j - 1);
    }
  }

  lemma {:induction false} KeptCellsComplete(vals: seq<real>, keep: seq<bool>, j: nat)
    requires j <= |vals| && j <= |keep|
    ensures forall c :: 0 <= c < j && keep[c] ==> HasColumn(KeptCells(vals, keep, j), c)
    decreases j
  {
    if j > 0 {
      KeptCellsComplete(vals, keep, j - 1);
      var prefix := KeptCells(vals, keep, j - 1);
      var es := KeptCells(vals, keep, j);
      assert forall k :: 0 <= k < |prefix| ==> es[k] == prefix[k];
      forall c | 0 <= c < j && keep[c]
        ensures HasColumn(es, c)
      {
        if c < j - 1 {
          var k :| 0 <= k < |prefix| && prefix[k].col == c;
          assert es[k].col == c;
        } else {
          assert es[|prefix|].col == c;
        }
      }
    }
  }

  /** The kept cells of rows [0, i), row after row: what the builder has stored before row i. */
  function KeptBefore(dense: seq<seq<real>>, keep: seq<seq<bool>>, rows: nat, cols: nat, i: nat): seq<Entry>
    requires IsGrid(dense, rows, cols) && IsGrid(keep, rows, cols) && i <= rows
    decreases i
  {
    if i == 0 then []
    else KeptBefore(dense, keep, rows, cols, i - 1) + KeptCells(dense[i - 1], keep[i - 1], cols)
  }

  /** Pair up a column array and a value array. */
  function Zip(cols: seq<int>, vals: seq<real>): (es: seq<Entry>)
    requires |cols| == |vals|
    ensures |es| == |cols|
  {
    seq(|cols|, k requires 0 <= k < |cols| => Entry(cols[k], vals[k]))
  }

  lemma ZipSnoc(cols: seq<int>, vals: seq<real>, c: int, v: real)
    requires |cols| == |vals|
    ensures Zip(cols + [c], vals + [v]) == Zip(cols, vals) + [Entry(c, v)]
  {
  }

  /** The builder's stream grows row by row: an earlier prefix of rows is a
      prefix of a later one, and the row-i cells sit right after rows [0, i). */
  lemma {:induction false} KeptBeforePrefix(dense: seq<seq<real>>, keep: seq<seq<bool>>, rows: nat, cols: nat, i: nat, j: nat)
    requires IsGrid(dense, rows, cols) && IsGrid(keep, rows, cols) && i <= j <= rows
    ensures |KeptBefore(dense, keep, rows, cols, i)| <= |KeptBefore(dense, keep, rows, cols, j)|
    ensures KeptBefore(dense, keep, rows, cols, j)[..|KeptBefore(dense, keep, rows, cols, i)|]
            == KeptBefore(dense, keep, rows, cols, i)
    decreases j
  {
    if i < j {
      KeptBeforePrefix(dense, keep, rows, cols, i, j - 1);
      var before := KeptBefore(dense, keep, rows, cols, j - 1);
      PrefixOfConcat(before, KeptCells(dense[j - 1], keep[j - 1], cols), |KeptBefore(dense, keep, rows, cols, i)|);
    }
  }

  lemma PrefixOfConcat<T>(a: seq<T>, b: seq<T>, n: nat)
    requires n <= |a|
    ensures (a + b)[..n] == a[..n]
  {
  }

  /** At most cols cells per row are kept. */
  lemma {:induction false} KeptBeforeSize(dense: seq<seq<real>>, keep: seq<seq<bool>>, rows: nat, cols: nat, i: nat)
    requires IsGrid(dense, rows, cols) && IsGrid(keep, rows, cols) && i <= rows
    ensures |KeptBefore(dense, keep, rows, cols, i)| <= i * cols
    decreases i
  {
    if i > 0 {
      KeptBeforeSize(dense, keep, rows, cols, i - 1);
      MulStep(i - 1, cols);
    }
  }

  /** The row-i stretch of the final stream is exactly row i's kept cells. */
  lemma RowStretch(dense: seq<seq<real>>, keep: seq<seq<bool>>, rows: nat, cols: nat, i: nat)
    requires IsGrid(dense, rows, cols) && IsGrid(keep, rows, cols) && i < rows
    ensures var lo := |KeptBefore(dense, keep, rows, cols, i)|;
            var hi := |KeptBefore(dense, keep, rows, cols, i + 1)|;
            var all := KeptBefore(dense, keep, rows, cols, rows);
            lo <= hi <= |all| && all[lo..hi] == KeptCells(dense[i], keep[i], cols)
  {
    KeptBeforePrefix(dense, keep, rows, cols, i + 1, rows);
    var before := KeptBefore(dense, keep, rows, cols, i);
    var upto := KeptBefore(dense, keep, rows, cols, i + 1);
    var all := KeptBefore(dense, keep, rows, cols, rows);
    assert all[|before|..|upto|] == upto[|before|..];
  }

  /** A is what the builder produces from the grid: a valid rows x cols CSR
      matrix whose row i holds exactly the kept cells of dense row i, in column order. */
  predicate BuiltFrom(A: Csr, dense: seq<seq<real>>, keep: seq<seq<bool>>, rows: nat, cols: nat) {
    && IsGrid(dense, rows, cols) && IsGrid(keep, rows, cols)
    && Valid(A) && A.numRows == rows && A.numCols == cols
    && A.nnz == |KeptBefore(dense, keep, rows, cols, rows)|
    && forall i :: 0 <= i < rows ==> RowEntries(A, i) == KeptCells(dense[i], keep[i], cols)
  }

  /** Scan the grid row-major; append each kept cell's value and column; close
      each row by recording the running count in rowPtr; copy out nnz entries. */
  method CreateSparseMatrix(rows: nat, cols: nat, dense: seq<seq<real>>, keep: seq<seq<bool>>) returns (A: Csr)
    requires IsGrid(dense, rows, cols) && IsGrid(keep, rows, cols)
    ensures Valid(A) && A.numRows == rows && A.numCols == cols
    ensures forall i :: 0 <= i < rows ==> RowEntries(A, i) == KeptCells(dense[i], keep[i], cols)
    ensures A.nnz == |KeptBefore(dense, keep, rows, cols, rows)| <= rows * cols
    ensures BuiltFrom(A, dense, keep, rows, cols)
  {
    var tempValues: seq<real> := [];
    var tempCols: seq<int> := [];
    var rowPtr: seq<int> := [0];
    for i := 0 to rows
      invariant |tempValues| == |tempCols|
      invariant Zip(tempCols, tempValues) == KeptBefore(dense, keep, rows, cols, i)
      invariant |rowPtr| == i + 1
      invariant forall r :: 0 <= r <= i ==> rowPtr[r] == |KeptBefore(dense, keep, rows, cols, r)|
    {
      tempCols, tempValues := ScanRow(dense[i], keep[i], cols, tempCols, tempValues);
      ghost var prev := rowPtr;
      rowPtr := rowPtr + [|tempValues|];
      forall r | 0 <= r <= i + 1
        ensures rowPtr[r] == |KeptBefore(dense, keep, rows, cols, r)|
      {
        if r <= i {
          assert rowPtr[r] == prev[r];
        }
      }
    }
    A := Csr(rows, cols, |tempValues|, tempValues, tempCols, rowPtr);
    StoredStreamIsBuilt(A, dense, keep, rows, cols);
    KeptBeforeSize(dense, keep, rows, cols, rows);
  }

  /** The builder's inner loop over one row: append each kept cell's column and value. */
  method ScanRow(vals: seq<real>, keep: seq<bool>, cols: nat, tempCols: seq<int>, tempValues: seq<real>)
    returns (outCols: seq<int>, outValues: seq<real>)
    requires |vals| == cols && |keep| == cols && |tempCols| == |tempValues|
    ensures |outCols| == |outValues|
    ensures Zip(outCols, outValues) == Zip(tempCols, tempValues) + KeptCells(vals, keep, cols)
  {
    outCols, outValues := tempCols, tempValues;
    for j := 0 to cols
      invariant |outCols| == |outValues|
      invariant Zip(outCols, outValues) == Zip(tempCols, tempValues) + KeptCells(vals, keep, j)
    {
      if keep[j] {
        ZipSnoc(outCols, outValues, j, vals[j]);
        outValues := outValues + [vals[j]];
        outCols := outCols + [j];
      }
    }
  }

  /** Arrays holding the kept-cell stream, with rowPtr[r] the number of cells
      kept before row r, form the CSR matrix of the grid. */
  lemma StoredStreamIsBuilt(A: Csr, dense: seq<seq<real>>, keep: seq<seq<bool>>, rows: nat, cols: nat)
    requires IsGrid(dense, rows, cols) && IsGrid(keep, rows, cols)
    requires A.numRows == rows && A.numCols == cols
    requires |A.values| == A.nnz && |A.colIndices| == A.nnz && |A.rowPtr| == rows + 1
    requires Zip(A.colIndices, A.values) == KeptBefore(dense, keep, rows, cols, rows)
    requires forall r :: 0 <= r <= rows ==> A.rowPtr[r] == |KeptBefore(dense, keep, rows, cols, r)|
    ensures BuiltFrom(A, dense, keep, rows, cols)
  {
    StoredPointersShaped(A, dense, keep, rows, cols);
    forall i | 0 <= i < rows
      ensures RowEntries(A, i) == KeptCells(dense[i], keep[i], cols)
      ensures SortedColumns(RowEntries(A, i), cols)
    {
      StoredRow(A, dense, keep, rows, cols, i);
    }
  }

  /** Row i of the stored stream holds exactly the kept cells of dense row i, sorted. */
  lemma StoredRow(A: Csr, dense: seq<seq<real>>, keep: seq<seq<bool>>, rows: nat, cols: nat, i: nat)
    requires IsGrid(dense, rows, cols) && IsGrid(keep, rows, cols)
    requires A.numRows == rows && A.numCols == cols && Shaped(A) && i < rows
    requires Zip(A.colIndices, A.values) == KeptBefore(dense, keep, rows, cols, rows)
    requires forall r :: 0 <= r <= rows ==> A.rowPtr[r] == |KeptBefore(dense, keep, rows, cols, r)|
    ensures RowEntries(A, i) == KeptCells(dense[i], keep[i], cols)
    ensures SortedColumns(RowEntries(A, i), cols)
  {
    RowStretch(dense, keep, rows, cols, i);
    EntriesAreZipSlice(A, A.rowPtr[i], A.rowPtr[i + 1]);
    KeptCellsSorted(dense[i], keep[i], cols);
  }

  /** The entries between two stream positions are that slice of the zipped arrays. */
  lemma EntriesAreZipSlice(A: Csr, lo: int, hi: int)
    requires Shaped(A) && 0 <= lo <= hi <= A.nnz
    ensures Entries(A, lo, hi) == Zip(A.colIndices, A.values)[lo..hi]
  {
  }

  lemma StoredPointersShaped(A: Csr, dense: seq<seq<real>>, keep: seq<seq<bool>>, rows: nat, cols: nat)
    requires IsGrid(dense, rows, cols) && IsGrid(keep, rows, cols)
    requires A.numRows == rows && A.numCols == cols
    requires |A.values| == A.nnz && |A.colIndices| == A.nnz && |A.rowPtr| == rows + 1
    requires Zip(A.colIndices, A.values) == KeptBefore(dense, keep, rows, cols, rows)
    requires forall r :: 0 <= r <= rows ==> A.rowPtr[r] == |KeptBefore(dense, keep, rows, cols, r)|
    ensures Shaped(A)
  {
    forall i, j | 0 <= i <= j <= rows
      ensures A.rowPtr[i] <= A.rowPtr[j]
    {
      KeptBeforePrefix(dense, keep, rows, cols, i, j);
    }
  }

  // ---------------------------------------------------------------------
  // The built matrix computes the dense product

  /** Σ_{c < j} M[c] * x[c] where M[c] is vals[c] for a kept cell and 0 otherwise:
      one row of the dense product of the masked matrix. */
  function MaskedDot(vals: seq<real>, keep: seq<bool>, x: seq<real>, j: nat): real
    requires j <= |vals| && j <= |keep| && j <= |x|
    decreases j
  {
    if j == 0 then 0.0
    else MaskedDot(vals, keep, x, j - 1) + (if keep[j - 1] then vals[j - 1] * x[j - 1] else 0.0)
  }

  /** Summing the kept cells is summing the whole masked row: the skipped cells contribute 0. */
  lemma {:induction false} KeptCellsDot(vals: seq<real>, keep: seq<bool>, x: seq<real>, j: nat)
    requires j <= |vals| && j <= |keep| && j <= |x|
    ensures EntryDot(KeptCells(vals, keep, j), x) == MaskedDot(vals, keep, x, j)
    decreases j
  {
    if j > 0 {
      KeptCellsDot(vals, keep, x, j - 1);
      var prefix := KeptCells(vals, keep, j - 1);
      if keep[j - 1] {
        assert (prefix + [Entry(j - 1, vals[j - 1])])[..|prefix|] == prefix;
      } else {
        assert KeptCells(vals, keep, j) == prefix;
      }
    }
  }

  /** The CSR product of a built matrix equals the dense product of the masked grid. */
  lemma BuiltProductIsDense(A: Csr, dense: seq<seq<real>>, keep: seq<seq<bool>>, rows: nat, cols: nat, x: seq<real>)
    requires BuiltFrom(A, dense, keep, rows, cols) && |x| == cols
    ensures forall i :: 0 <= i < rows ==> Product(A, x)[i] == MaskedDot(dense[i], keep[i], x, cols)
  {
    forall i | 0 <= i < rows
      ensures Product(A, x)[i] == MaskedDot(dense[i], keep[i], x, cols)
    {
      KeptCellsDot(dense[i], keep[i], x, cols);
    }
  }

  /** With no cell kept the matrix stores nothing and the product is all zeros. */
  lemma {:induction false} NothingKept(A: Csr, dense: seq<seq<real>>, keep: seq<seq<bool>>, rows: nat, cols: nat, x: seq<real>)
    requires BuiltFrom(A, dense, keep, rows, cols) && |x| == cols
    requires forall r, c :: 0 <= r < rows && 0 <= c < cols ==> !keep[r][c]
    ensures A.nnz == 0
    ensures forall i :: 0 <= i < rows ==> Product(A, x)[i] == 0.0
  {
    forall i | 0 <= i <= rows
      ensures KeptBefore(dense, keep, rows, cols, i) == []
    {
      NoneKeptBefore(dense, keep, rows, cols, i);
    }
  }

  lemma {:induction false} NoneKeptBefore(dense: seq<seq<real>>, keep: seq<seq<bool>>, rows: nat, cols: nat, i: nat)
    requires IsGrid(dense, rows, cols) && IsGrid(keep, rows, cols) && i <= rows
    requires forall r, c :: 0 <= r < rows && 0 <= c < cols ==> !keep[r][c]
    ensures KeptBefore(dense, keep, rows, cols, i) == []
    decreases i
  {
    if i > 0 {
      NoneKeptBefore(dense, keep, rows, cols, i - 1);
      NoneKeptInRow(dense[i - 1], keep[i - 1], cols);
    }
  }

  lemma {:induction false} NoneKeptInRow(vals: seq<real>, keep: seq<bool>, j: nat)
    requires j <= |vals| && j <= |keep|
    requires forall c :: 0 <= c < j ==> !keep[c]
    ensures KeptCells(vals, keep, j) == []
    decreases j
  {
    if j > 0 {
      NoneKeptInRow(vals, keep, j - 1);
    }
  }

  /** A 3 x 3 example: rows {2 at column 0, 1 at column 2}, {}, {3 at column 1}. */
  function ExampleMatrix(): Csr {
    Csr(3, 3, 3, [2.0, 1.0, 3.0], [0, 2, 1], [0, 2, 2, 3])
  }

  lemma ExampleRows()
    ensures Shaped(ExampleMatrix())
    ensures RowEntries(ExampleMatrix(), 0) == [Entry(0, 2.0), Entry(2, 1.0)]
    ensures RowEntries(ExampleMatrix(), 1) == []
    ensures RowEntries(ExampleMatrix(), 2) == [Entry(1, 3.0)]
    ensures Valid(ExampleMatrix())
  {
    var A := ExampleMatrix();
    ExampleShaped();
    assert RowEntries(A, 0) == [Entry(0, 2.0), Entry(2, 1.0)];
    assert RowEntries(A, 2) == [Entry(1, 3.0)];
  }

  lemma ExampleShaped()
    ensures Shaped(ExampleMatrix())
  {
    var rowPtr := ExampleMatrix().rowPtr;
    forall i, j | 0 <= i <= j <= 3
      ensures rowPtr[i] <= rowPtr[j]
    {
    }
  }

  /** Multiplying the example by the all-ones vector gives [3, 0, 3]: the
      product the sequential kernel computes, under every static schedule and
      under every dynamic schedule. */
  lemma Example3x3(y0: seq<real>, threads: nat, chunk: nat, order: seq<nat>)
    requires |y0| == 3 && threads >= 1 && chunk >= 1
    requires IsOrdering(order, CeilDiv(3, chunk))
    ensures Valid(ExampleMatrix())
    ensures Product(ExampleMatrix(), [1.0, 1.0, 1.0]) == [3.0, 0.0, 3.0]
    ensures SpmvStatic(ExampleMatrix(), [1.0, 1.0, 1.0], y0, threads) == [3.0, 0.0, 3.0]
    ensures SpmvDynamic(ExampleMatrix(), [1.0, 1.0, 1.0], y0, chunk, order) == [3.0, 0.0, 3.0]
  {
    ExampleRows();
    var A, x := ExampleMatrix(), [1.0, 1.0, 1.0];
    assert [Entry(0, 2.0), Entry(2, 1.0)][..1] == [Entry(0, 2.0)];
    assert [Entry(0, 2.0)][..0] == [];
    assert [Entry(1, 3.0)][..0] == [];
    assert Product(A, x)[0] == 3.0;
    assert Product(A, x)[1] == 0.0;
    assert Product(A, x)[2] == 3.0;
  }
}
