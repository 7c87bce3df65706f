/** Dense N x N matrix multiplication: the sequential triple loop and the
    blocked parallel kernel, in which the output tiles are handed out
    dynamically and every cell's dot product runs over the k-blocks in
    ascending order; plus the input generator and the result comparison.
 */
module MatMul {
  import opened Partition
  import opened Grid
  import Compare

  /** The comparison's absolute tolerance. */
  const Tolerance: real := 0.000001

  /** An input matrix: entry p is the p-th draw of the generator modulo 10. */
  function InitializeMatrix(draws: seq<nat>, N: nat): (m: seq<real>)
    requires |draws| >= N * N
    ensures |m| == N * N
    ensures forall p :: 0 <= p < N * N ==> 0.0 <= m[p] <= 9.0 && m[p].Floor as real == m[p]
    ensures forall p :: 0 <= p < N * N ==> m[p] == (draws[p] % 10) as real
  {
    seq(N * N, p requires 0 <= p < N * N => (draws[p] % 10) as real)
  }

  /** Row i of A. */
  function Row(A: seq<real>, N: nat, i: int): (u: seq<real>)
    requires |A| == N * N && 0 <= i < N
    ensures |u| == N
  {
    seq(N, k requires 0 <= k < N => At(A, N, i, k))
  }

  /** Column j of B. */
  function Column(B: seq<real>, N: nat, j: int): (v: seq<real>)
    requires |B| == N * N && 0 <= j < N
    ensures |v| == N
  {
    seq(N, k requires 0 <= k < N => At(B, N, k, j))
  }

  /** The running sum after the first n terms u[k] * v[k], added in ascending k. */
  function Partial(u: seq<real>, v: seq<real>, n: nat): real
    requires n <= |u| && n <= |v|
    decreases n
  {
    if n == 0 then 0.0 else Partial(u, v, n - 1) + u[n - 1] * v[n - 1]
  }

  /** The full dot product. */
  function Dot(u: seq<real>, v: seq<real>): real
    requires |u| == |v|
  {
    Partial(u, v, |u|)
  }

  /** Cell p = i*N + j of the product: row i of A times column j of B. */
  function ProductCell(A: seq<real>, B: seq<real>, N: nat, p: int): real
    requires |A| == N * N && |B| == N * N && 0 <= p < N * N
  {
    Unflat(p, N);
    Dot(Row(A, N, p / N), Column(B, N, p % N))
  }

  /** The reference product. */
  function Product(A: seq<real>, B: seq<real>, N: nat): (C: seq<real>)
    requires |A| == N * N && |B| == N * N
    ensures |C| == N * N
  {
    seq(N * N, p requires 0 <= p < N * N => ProductCell(A, B, N, p))
  }

  /** Cell (i, j) of the product is the sum over k of A[i][k] * B[k][j]. */
  lemma ProductAt(A: seq<real>, B: seq<real>, N: nat, i: int, j: int)
    requires |A| == N * N && |B| == N * N && 0 <= i < N && 0 <= j < N
    ensures At(Product(A, B, N), N, i, j) == Dot(Row(A, N, i), Column(B, N, j))
  {
    FlatBounds(i, j, N);
    FlatDivMod(i, j, N);
  }

  /** The identity matrix. */
  function Identity(N: nat): (I: seq<real>)
    ensures |I| == N * N
  {
    seq(N * N, p requires 0 <= p < N * N => if p / N == p % N then 1.0 else 0.0)
  }

  /** A unit vector picks out one term of a dot product. */
  lemma {:induction false} PartialUnit(u: seq<real>, e: seq<real>, j: int, n: nat)
    requires n <= |u| && n <= |e|
    requires forall k :: 0 <= k < |e| ==> e[k] == if k == j then 1.0 else 0.0
    ensures Partial(u, e, n) == if 0 <= j < n then u[j] else 0.0
    decreases n
  {
    if n > 0 {
      PartialUnit(u, e, j, n - 1);
    }
  }

  /** Multiplying by the identity gives the matrix back. */
  lemma ProductIdentity(A: seq<real>, N: nat)
    requires |A| == N * N
    ensures Product(A, Identity(N), N) == A
  {
    forall p | 0 <= p < N * N
      ensures Product(A, Identity(N), N)[p] == A[p]
    {
      Unflat(p, N);
      var i, j := p / N, p % N;
      forall k | 0 <= k < N
        ensures Column(Identity(N), N, j)[k] == if k == j then 1.0 else 0.0
      {
        FlatBounds(k, j, N);
        FlatDivMod(k, j, N);
      }
      PartialUnit(Row(A, N, i), Column(Identity(N), N, j), j, N);
    }
  }

  // ---------------------------------------------------------------------
  // The sequential kernel

  /** The k loop of one cell: sum A[i][k] * B[k][j] for k = 0, ..., N-1. */
  method DotLoop(A: seq<real>, B: seq<real>, N: nat, i: int, j: int) returns (sum: real)
    requires |A| == N * N && |B| == N * N && 0 <= i < N && 0 <= j < N
    ensures sum == Dot(Row(A, N, i), Column(B, N, j))
  {
    sum := 0.0;
    for k := 0 to N
      invariant sum == Partial(Row(A, N, i), Column(B, N, j), k)
    {
      FlatBounds(i, k, N);
      FlatBounds(k, j, N);
      sum := sum + A[i * N + k] * B[k * N + j];
    }
  }

  /** The j loop of row i: cells i*N .. i*N + N - 1 receive their products,
      every other cell is left alone. */
  method MultiplyRow(A: seq<real>, B: seq<real>, N: nat, i: int, C0: seq<real>) returns (C: seq<real>)
    requires |A| == N * N && |B| == N * N && |C0| == N * N && 0 <= i < N
    ensures |C| == N * N
    ensures forall q :: 0 <= q < N * N ==>
              C[q] == if i * N <= q < i * N + N then Product(A, B, N)[q] else C0[q]
  {
    C := C0;
    for j := 0 to N
      invariant |C| == N * N
      invariant forall q :: 0 <= q < N * N ==>
                  C[q] == if i * N <= q < i * N + j then Product(A, B, N)[q] else C0[q]
    {
      var sum := DotLoop(A, B, N, i, j);
      FlatBounds(i, j, N);
      FlatDivMod(i, j, N);
      C := C[i * N + j := sum];
    }
  }

  /** The sequential kernel: zero C, then fill it row by row. The result is the
      product whatever C held before. */
  method SequentialMultiply(A: seq<real>, B: seq<real>, C0: seq<real>, N: nat) returns (C: seq<real>)
    requires |A| == N * N && |B| == N * N && |C0| == N * N
    ensures C == Product(A, B, N)
  {
    C := seq(N * N, _ => 0.0);
    for i := 0 to N
      invariant |C| == N * N
      invariant forall q :: 0 <= q < N * N ==> C[q] == if q < i * N then Product(A, B, N)[q] else 0.0
    {
      C := MultiplyRow(A, B, N, i, C);
      MulStep(i, N);
    }
  }

  // ---------------------------------------------------------------------
  // The blocked parallel kernel

  /** The k loop of one k-block: the terms of r added to s in ascending k. */
  function AccRange(s: real, u: seq<real>, v: seq<real>, r: Range): real
    requires 0 <= r.lo && r.hi <= |u| && r.hi <= |v|
    decreases r.hi - r.lo
  {
    if r.hi <= r.lo then s else AccRange(s + u[r.lo] * v[r.lo], u, v, Range(r.lo + 1, r.hi))
  }

  /** The bk loop: the k-blocks walked one after another, the sum carried across. */
  function AccChunks(s: real, u: seq<real>, v: seq<real>, rs: seq<Range>): real
    requires |u| == |v| && Within(rs, |u|)
    decreases |rs|
  {
    if |rs| == 0 then s else AccChunks(AccRange(s, u, v, rs[0]), u, v, rs[1..])
  }

  /** One cell's sum in the blocked kernel: the k-blocks [bk, min(bk + bs, N)). */
  function BlockedDot(u: seq<real>, v: seq<real>, bs: nat): real
    requires |u| == |v| && bs > 0
  {
    ChunkRangesChain(|u|, bs);
    ChainOwners(ChunkRanges(|u|, bs), 0, |u|);
    AccChunks(0.0, u, v, ChunkRanges(|u|, bs))
  }

  /** Continuing the running sum over [lo, hi) gives the running sum at hi. */
  lemma {:induction false} AccRangePartial(u: seq<real>, v: seq<real>, lo: nat, hi: nat)
    requires lo <= hi <= |u| && hi <= |v|
    ensures AccRange(Partial(u, v, lo), u, v, Range(lo, hi)) == Partial(u, v, hi)
    decreases hi - lo
  {
    if lo < hi {
      assert Partial(u, v, lo + 1) == Partial(u, v, lo) + u[lo] * v[lo];
      AccRangeStep(Partial(u, v, lo), u, v, lo, hi);
      AccRangePartial(u, v, lo + 1, hi);
    }
  }

  lemma AccRangeStep(s: real, u: seq<real>, v: seq<real>, lo: nat, hi: nat)
    requires lo < hi <= |u| && hi <= |v|
    ensures AccRange(s, u, v, Range(lo, hi)) == AccRange(s + u[lo] * v[lo], u, v, Range(lo + 1, hi))
  {
    var r := Range(lo, hi);
    assert r.lo == lo && r.hi == hi;
  }

  /** Blocks laid end to end from a to b continue the running sum from a to b:
      every k in [a, b) is added exactly once, in ascending order. */
  lemma {:induction false} AccChunksPartial(u: seq<real>, v: seq<real>, rs: seq<Range>, a: nat, b: nat)
    requires |u| == |v| && b <= |u| && Chain(rs, a, b)
    ensures Within(rs, |u|)
    ensures AccChunks(Partial(u, v, a), u, v, rs) == Partial(u, v, b)
    decreases |rs|
  {
    ChainOwners(rs, a, b);
    if |rs| > 0 {
      AccRangePartial(u, v, a, rs[0].hi);
      AccChunksPartial(u, v, rs[1..], rs[0].hi, b);
    }
  }

  /** The blocked k loop computes the same sum as the plain one, for every block size. */
  lemma BlockedDotIsDot(u: seq<real>, v: seq<real>, bs: nat)
    requires |u| == |v| && bs > 0
    ensures BlockedDot(u, v, bs) == Dot(u, v)
  {
    ChunkRangesChain(|u|, bs);
    AccChunksPartial(u, v, ChunkRanges(|u|, bs), 0, |u|);
  }

  /** The blocked kernel's work for one output cell p. */
  function BlockedCell(A: seq<real>, B: seq<real>, N: nat, bs: nat): (int, real) --> real
    requires |A| == N * N && |B| == N * N && bs > 0
  {
    (p: int, c: real) requires 0 <= p < N * N =>
      Unflat(p, N);
      BlockedDot(Row(A, N, p / N), Column(B, N, p % N), bs)
  }

  /** The blocked parallel kernel: zero C, then let the output tiles, handed
      out in the order `order`, each fill their cells with the blocked dot
      product. The result is the product whatever C held before. */
  function BlockedMultiply(A: seq<real>, B: seq<real>, C0: seq<real>, N: nat, bs: nat, order: seq<nat>): (C: seq<real>)
    requires |A| == N * N && |B| == N * N && |C0| == N * N && bs > 0
    requires IsOrdering(order, |Tiles(N, bs)|)
    ensures C == Product(A, B, N)
  {
    TilesAreTiling(N, bs);
    ReorderTiling(Tiles(N, bs), order, N);
    SegmentsPartition(N, Reorder(Tiles(N, bs), order));
    var rs := Segments(N, Reorder(Tiles(N, bs), order));
    var zeros := seq(N * N, _ => 0.0);
    RunOverPartition(zeros, rs, BlockedCell(A, B, N, bs));
    BlockedCellsAreProduct(A, B, N, bs);
    Run(zeros, rs, BlockedCell(A, B, N, bs))
  }

  lemma BlockedCellsAreProduct(A: seq<real>, B: seq<real>, N: nat, bs: nat)
    requires |A| == N * N && |B| == N * N && bs > 0
    ensures forall p, c :: 0 <= p < N * N ==> BlockedCell(A, B, N, bs)(p, c) == Product(A, B, N)[p]
  {
    forall p, c | 0 <= p < N * N
      ensures BlockedCell(A, B, N, bs)(p, c) == Product(A, B, N)[p]
    {
      Unflat(p, N);
      BlockedDotIsDot(Row(A, N, p / N), Column(B, N, p % N), bs);
    }
  }

  // ---------------------------------------------------------------------
  // Comparison and the program's run

  /** The comparison of the two results: errors counts the cells off by more
      than the tolerance, passed means there were none. */
  method VerifyResults(C1: seq<real>, C2: seq<real>, N: nat) returns (passed: bool, errors: nat, reported: seq<nat>)
    requires |C1| == N * N && |C2| == N * N
    ensures errors == |Compare.Mismatches(C1, C2, Tolerance, N * N)|
    ensures reported == Compare.Mismatches(C1, C2, Tolerance, N * N)[..Min(Compare.MaxReported, errors)]
    ensures passed <==> forall p :: 0 <= p < N * N ==> Compare.Abs(C1[p] - C2[p]) <= Tolerance
  {
    passed, errors, reported := Compare.VerifyResults(C1, C2, Tolerance);
  }

  /** The program's run: both kernels on generated inputs, started from
      arbitrary output buffers, and the comparison passes. */
  method RunMultiply(drawsA: seq<nat>, drawsB: seq<nat>, N: nat, bs: nat, order: seq<nat>, C0: seq<real>, C1: seq<real>)
    returns (correct: bool)
    requires |drawsA| >= N * N && |drawsB| >= N * N && bs > 0
    requires |C0| == N * N && |C1| == N * N
    requires IsOrdering(order, |Tiles(N, bs)|)
    ensures correct
  {
    var A := InitializeMatrix(drawsA, N);
    var B := InitializeMatrix(drawsB, N);
    var sequential := SequentialMultiply(A, B, C0, N);
    var parallel := BlockedMultiply(A, B, C1, N, bs, order);
    var errors, reported;
    correct, errors, reported := VerifyResults(sequential, parallel, N);
  }
}
