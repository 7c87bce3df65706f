/** Out-of-place transpose of an N x N row-major matrix: the sequential
    kernel, the naive parallel kernel (the collapsed (i, j) loop split
    statically among the threads), the blocked parallel kernel (tiles of
    block x block cells handed out dynamically), and the verifier.

    Every kernel walks source cells p = i*N + j and writes B[j*N + i] := A[p];
    the destination of p is its mirror cell.
 */
module Transpose {
  import opened Partition
  import opened Grid
  import Compare

  /** The verifier's absolute tolerance. */
  const Tolerance: real := 0.000000001

  /** The flat index of the cell mirrored across the diagonal: (i, j) becomes (j, i). */
  function Mirror(N: nat, p: int): int
    requires N > 0
  {
    (p % N) * N + p / N
  }

  /** Mirroring cell (i, j) gives cell (j, i). */
  lemma MirrorCell(N: nat, i: int, j: int)
    requires 0 <= i < N && 0 <= j < N
    ensures Mirror(N, i * N + j) == j * N + i
  {
    FlatDivMod(i, j, N);
  }

  /** Mirroring stays inside the grid and undoes itself. */
  lemma MirrorPoint(N: nat, p: int)
    requires N > 0 && 0 <= p < N * N
    ensures 0 <= Mirror(N, p) < N * N
    ensures Mirror(N, Mirror(N, p)) == p
  {
    Unflat(p, N);
    var i, j := p / N, p % N;
    FlatBounds(j, i, N);
    MirrorCell(N, j, i);
  }

  lemma MirrorInvolution(N: nat)
    requires N > 0
    ensures forall p :: 0 <= p < N * N ==> 0 <= Mirror(N, p) < N * N && Mirror(N, Mirror(N, p)) == p
  {
    forall p | 0 <= p < N * N
      ensures 0 <= Mirror(N, p) < N * N && Mirror(N, Mirror(N, p)) == p
    {
      MirrorPoint(N, p);
    }
  }

  /** The mirror of every cell, as a table indexed by flat position. */
  function MirrorTable(N: nat): (m: seq<int>)
    ensures |m| == N * N
    ensures IsInvolution(m)
  {
    if N == 0 then []
    else
      MirrorInvolution(N);
      seq(N * N, p requires 0 <= p < N * N => Mirror(N, p))
  }

  /** m maps [0, |m|) into itself and undoes itself. */
  predicate IsInvolution(m: seq<int>) {
    forall p :: 0 <= p < |m| ==> 0 <= m[p] < |m| && m[m[p]] == p
  }

  /** Cell q of the result is read from cell m[q] of A. */
  function Permute(A: seq<real>, m: seq<int>): (B: seq<real>)
    requires |A| == |m| && IsInvolution(m)
    ensures |B| == |A|
  {
    seq(|A|, q requires 0 <= q < |A| => A[m[q]])
  }

  /** B is the transpose of A: B[j][i] == A[i][j] for every cell. */
  predicate IsTransposeOf(B: seq<real>, A: seq<real>, N: nat)
    requires |A| == N * N && |B| == N * N
  {
    forall i, j :: 0 <= i < N && 0 <= j < N ==> At(B, N, j, i) == At(A, N, i, j)
  }

  /** The reference transpose, cell q read from its mirror cell. */
  function Transposed(A: seq<real>, N: nat): (B: seq<real>)
    requires |A| == N * N
    ensures |B| == N * N
  {
    Permute(A, MirrorTable(N))
  }

  /** Reading the reference transpose at (i, j) reads A at (j, i). */
  lemma TransposedCell(A: seq<real>, N: nat, i: int, j: int)
    requires |A| == N * N && 0 <= i < N && 0 <= j < N
    ensures At(Transposed(A, N), N, i, j) == At(A, N, j, i)
  {
    FlatBounds(i, j, N);
    FlatBounds(j, i, N);
    MirrorCell(N, i, j);
  }

  /** The transpose is unique: B is a transpose of A exactly when it is the reference one. */
  lemma TransposedIsTranspose(B: seq<real>, A: seq<real>, N: nat)
    requires |A| == N * N && |B| == N * N
    ensures IsTransposeOf(B, A, N) <==> B == Transposed(A, N)
  {
    if B == Transposed(A, N) {
      forall i, j | 0 <= i < N && 0 <= j < N
        ensures At(B, N, j, i) == At(A, N, i, j)
      {
        TransposedCell(A, N, j, i);
      }
    }
    if IsTransposeOf(B, A, N) {
      forall q | 0 <= q < N * N
        ensures B[q] == Transposed(A, N)[q]
      {
        Unflat(q, N);
        TransposedCell(A, N, q / N, q % N);
        assert At(B, N, q / N, q % N) == At(A, N, q % N, q / N);
      }
    }
  }

  /** Transposing twice gives the matrix back. */
  lemma TransposeTwice(A: seq<real>, N: nat)
    requires |A| == N * N
    ensures Transposed(Transposed(A, N), N) == A
  {
  }

  /** The walk over source cells r.lo, ..., r.hi - 1, each copied to cell m[p] of B. */
  function ScatterRange(B: seq<real>, A: seq<real>, m: seq<int>, r: Range): (C: seq<real>)
    requires |A| == |m| && |B| == |m| && IsInvolution(m)
    requires 0 <= r.lo && r.hi <= |m|
    ensures |C| == |m|
    ensures forall q :: 0 <= q < |m| ==> C[q] == if r.Contains(m[q]) then A[m[q]] else B[q]
    decreases r.hi - r.lo
  {
    if r.hi <= r.lo then B
    else ScatterRange(B[m[r.lo] := A[r.lo]], A, m, Range(r.lo + 1, r.hi))
  }

  /** The ranges of a schedule walked one after another, each by ScatterRange. A
      destination cell whose source cell has one owner receives that source value;
      one whose source cell has none keeps its old value. */
  function ScatterAll(B: seq<real>, A: seq<real>, m: seq<int>, rs: seq<Range>): (C: seq<real>)
    requires |A| == |m| && |B| == |m| && IsInvolution(m)
    requires Within(rs, |m|)
    ensures |C| == |m|
    ensures forall q :: 0 <= q < |m| && Owners(rs, m[q]) <= 1 ==>
              C[q] == if Owners(rs, m[q]) == 1 then A[m[q]] else B[q]
    decreases |rs|
  {
    if |rs| == 0 then B
    else ScatterAll(ScatterRange(B, A, m, rs[0]), A, m, rs[1..])
  }

  /** Over any partition of the source cells, every destination cell is written
      exactly once, and the result is the permuted copy whatever B held before. */
  lemma ScatterOverPartition(B: seq<real>, A: seq<real>, m: seq<int>, rs: seq<Range>)
    requires |A| == |m| && |B| == |m| && IsInvolution(m)
    requires IsPartition(rs, |m|)
    ensures ScatterAll(B, A, m, rs) == Permute(A, m)
  {
  }

  /** The sequential kernel: one walk over all cells in row-major order. */
  function TransposeSequential(A: seq<real>, B0: seq<real>, N: nat): (B: seq<real>)
    requires |A| == N * N && |B0| == N * N
    ensures |B| == N * N && IsTransposeOf(B, A, N)
  {
    ChainIsPartition([Range(0, N * N)], N * N);
    ScatterOverPartition(B0, A, MirrorTable(N), [Range(0, N * N)]);
    TransposedIsTranspose(ScatterAll(B0, A, MirrorTable(N), [Range(0, N * N)]), A, N);
    ScatterAll(B0, A, MirrorTable(N), [Range(0, N * N)])
  }

  /** The naive parallel kernel: the N*N iterations of the collapsed loop split
      into one contiguous block per thread. */
  function TransposeNaive(A: seq<real>, B0: seq<real>, N: nat, threads: nat): (B: seq<real>)
    requires |A| == N * N && |B0| == N * N && threads > 0
    ensures |B| == N * N && IsTransposeOf(B, A, N)
  {
    StaticRangesPartition(N * N, threads);
    ScatterOverPartition(B0, A, MirrorTable(N), StaticRanges(N * N, threads));
    TransposedIsTranspose(ScatterAll(B0, A, MirrorTable(N), StaticRanges(N * N, threads)), A, N);
    ScatterAll(B0, A, MirrorTable(N), StaticRanges(N * N, threads))
  }

  /** The blocked parallel kernel: the tiles of the collapsed block loop, edge
      tiles clamped to N, handed out in the order `order`; each tile walks its
      rows and, within a row, its columns. */
  function TransposeBlocked(A: seq<real>, B0: seq<real>, N: nat, blockSize: nat, order: seq<nat>): (B: seq<real>)
    requires |A| == N * N && |B0| == N * N && blockSize > 0
    requires IsOrdering(order, |Tiles(N, blockSize)|)
    ensures |B| == N * N && IsTransposeOf(B, A, N)
  {
    TilesAreTiling(N, blockSize);
    ReorderTiling(Tiles(N, blockSize), order, N);
    SegmentsPartition(N, Reorder(Tiles(N, blockSize), order));
    var rs := Segments(N, Reorder(Tiles(N, blockSize), order));
    ScatterOverPartition(B0, A, MirrorTable(N), rs);
    TransposedIsTranspose(ScatterAll(B0, A, MirrorTable(N), rs), A, N);
    ScatterAll(B0, A, MirrorTable(N), rs)
  }

  /** The input matrix: cell p holds the value p, so all cells are distinct. */
  function InitializeMatrix(rows: nat, cols: nat): (m: seq<real>)
    ensures |m| == rows * cols
    ensures forall p, q :: 0 <= p < q < |m| ==> m[p] != m[q]
  {
    seq(rows * cols, p => p as real)
  }

  /** Cell (i, j) of the square input holds i*N + j. */
  lemma InitialCell(N: nat, i: int, j: int)
    requires 0 <= i < N && 0 <= j < N
    ensures At(InitializeMatrix(N, N), N, i, j) == (i * N + j) as real
  {
    FlatBounds(i, j, N);
  }

  /** After transposing the input, cell (j, i) holds the value i*N + j. */
  lemma InitialTransposed(N: nat, B0: seq<real>)
    requires |B0| == N * N
    ensures forall i, j :: 0 <= i < N && 0 <= j < N ==>
              At(TransposeSequential(InitializeMatrix(N, N), B0, N), N, j, i) == (i * N + j) as real
  {
    forall i, j | 0 <= i < N && 0 <= j < N
      ensures At(TransposeSequential(InitializeMatrix(N, N), B0, N), N, j, i) == (i * N + j) as real
    {
      InitialCell(N, i, j);
    }
  }

  /** The verifier: visit (i, j) in row-major order and compare B[j][i] with A[i][j].
      errors counts the cells off by more than the tolerance, reported holds the
      flat indices i*N + j of the first five of them, passed means there were none. */
  method VerifyTranspose(A: seq<real>, B: seq<real>, N: nat) returns (passed: bool, errors: nat, reported: seq<nat>)
    requires |A| == N * N && |B| == N * N
    ensures errors == |Compare.Mismatches(Transposed(B, N), A, Tolerance, N * N)|
    ensures reported == Compare.Mismatches(Transposed(B, N), A, Tolerance, N * N)[..Min(Compare.MaxReported, errors)]
    ensures passed <==> forall i, j :: 0 <= i < N && 0 <= j < N ==> Compare.Abs(At(B, N, j, i) - At(A, N, i, j)) <= Tolerance
  {
    passed, errors, reported := Compare.VerifyResults(Transposed(B, N), A, Tolerance);
    CloseIffCellsClose(A, B, N);
  }

  /** Comparing the reference transpose of B with A position by position is
      comparing B[j][i] with A[i][j] cell by cell. */
  lemma CloseIffCellsClose(A: seq<real>, B: seq<real>, N: nat)
    requires |A| == N * N && |B| == N * N
    ensures (forall p :: 0 <= p < N * N ==> Compare.Abs(Transposed(B, N)[p] - A[p]) <= Tolerance)
        <==> (forall i, j :: 0 <= i < N && 0 <= j < N ==> Compare.Abs(At(B, N, j, i) - At(A, N, i, j)) <= Tolerance)
  {
    if forall p :: 0 <= p < N * N ==> Compare.Abs(Transposed(B, N)[p] - A[p]) <= Tolerance {
      forall i, j | 0 <= i < N && 0 <= j < N
        ensures Compare.Abs(At(B, N, j, i) - At(A, N, i, j)) <= Tolerance
      {
        FlatBounds(i, j, N);
        TransposedCell(B, N, i, j);
      }
    } else {
      var p :| 0 <= p < N * N && Compare.Abs(Transposed(B, N)[p] - A[p]) > Tolerance;
      Unflat(p, N);
      TransposedCell(B, N, p / N, p % N);
      assert Compare.Abs(At(B, N, p % N, p / N) - At(A, N, p / N, p % N)) > Tolerance;
    }
  }

  /** The program's run: both parallel kernels, started from arbitrary output
      buffers, pass the verifier. */
  method RunTranspose(N: nat, blockSize: nat, threads: nat, order: seq<nat>, B0: seq<real>, B1: seq<real>)
    returns (naiveOk: bool, blockedOk: bool)
    requires blockSize > 0 && threads > 0
    requires |B0| == N * N && |B1| == N * N
    requires IsOrdering(order, |Tiles(N, blockSize)|)
    ensures naiveOk && blockedOk
  {
    var A := InitializeMatrix(N, N);
    var naive := TransposeNaive(A, B0, N, threads);
    var blocked := TransposeBlocked(A, B1, N, blockSize, order);
    var naiveErrors, blockedErrors, naiveReported, blockedReported;
    naiveOk, naiveErrors, naiveReported := VerifyTranspose(A, naive, N);
    blockedOk, blockedErrors, blockedReported := VerifyTranspose(A, blocked, N);
  }
}
