/** A ten-bin histogram of integers 0..9: the data generator, the
    sequential count, the atomic-increment kernel, the local-histogram
    reduction kernel, the bar scaling of the printout and the comparison
    of two histograms.
 */
module Histogram {
  import opened Partition

  const NumBins: nat := 10

  /** Every value is a bin number. */
  predicate InBins(data: seq<int>) {
    forall i :: 0 <= i < |data| ==> 0 <= data[i] < NumBins
  }

  /** The data generator: each value is the next draw of the random stream modulo NumBins. */
  function GenerateData(draws: seq<nat>): (data: seq<int>)
    ensures |data| == |draws|
    ensures InBins(data)
    ensures forall i :: 0 <= i < |data| ==> data[i] % NumBins == draws[i] % NumBins
  {
    seq(|draws|, i requires 0 <= i < |draws| => draws[i] % NumBins)
  }

  /** How many i in [lo, hi) have data[i] == b. */
  function Count(data: seq<int>, lo: int, hi: int, b: int): nat
    requires 0 <= lo <= hi <= |data|
    decreases hi - lo
  {
    if lo == hi then 0
    else Count(data, lo, hi - 1, b) + (if data[hi - 1] == b then 1 else 0)
  }

  /** The reference histogram: bin b counts the occurrences of b in data. */
  function HistogramOf(data: seq<int>): seq<nat> {
    seq(NumBins, b requires 0 <= b < NumBins => Count(data, 0, |data|, b))
  }

  function Zeros(): seq<nat> {
    seq(NumBins, _ => 0)
  }

  /** One increment of bin v. */
  function Increment(h: seq<nat>, v: int): (h': seq<nat>)
    requires 0 <= v < |h|
    ensures |h'| == |h|
    ensures h'[v] == h[v] + 1
    ensures forall b :: 0 <= b < |h| && b != v ==> h'[b] == h[b]
  {
    h[v := h[v] + 1]
  }

  /** The sequential kernel: clear the bins, then one increment per element, in index order. */
  method HistogramSequential(data: seq<int>) returns (h: seq<nat>)
    requires InBins(data)
    ensures h == HistogramOf(data)
  {
    h := Zeros();
    for i := 0 to |data|
      invariant |h| == NumBins
      invariant forall b :: 0 <= b < NumBins ==> h[b] == Count(data, 0, i, b)
    {
      h := Increment(h, data[i]);
    }
  }

  // ---------------------------------------------------------------------
  // Weighted counts: Σ_{i < n} w(i) · [data[i] == b]

  function Weighted(data: seq<int>, b: int, n: nat, w: int -> int): int
    requires n <= |data|
  {
    if n == 0 then 0 else Weighted(data, b, n - 1, w) + (if data[n - 1] == b then w(n - 1) else 0)
  }

  /** Weighted counts only look at the weights below n, and add up weight by weight. */
  lemma {:induction false} WeightedAdd(data: seq<int>, b: int, n: nat, w: int -> int, w1: int -> int, w2: int -> int)
    requires n <= |data|
    requires forall i :: 0 <= i < n ==> w(i) == w1(i) + w2(i)
    ensures Weighted(data, b, n, w) == Weighted(data, b, n, w1) + Weighted(data, b, n, w2)
  {
    if n > 0 {
      WeightedAdd(data, b, n - 1, w, w1, w2);
    }
  }

  /** Weights that vanish on [m, n) add nothing beyond m. */
  lemma {:induction false} WeightedTail(data: seq<int>, b: int, m: nat, n: nat, w: int -> int)
    requires m <= n <= |data|
    requires forall i :: m <= i < n ==> w(i) == 0
    ensures Weighted(data, b, n, w) == Weighted(data, b, m, w)
  {
    if m < n {
      WeightedTail(data, b, m, n - 1, w);
    }
  }

  /** Unit weights count every occurrence below n once. */
  lemma {:induction false} WeightedOnes(data: seq<int>, b: int, n: nat, w: int -> int)
    requires n <= |data|
    requires forall i :: 0 <= i < n ==> w(i) == 1
    ensures Weighted(data, b, n, w) == Count(data, 0, n, b)
  {
    if n > 0 {
      WeightedOnes(data, b, n - 1, w);
    }
  }

  function Indicator(lo: int, hi: int): int -> int {
    i => if lo <= i < hi then 1 else 0
  }

  /** The indicator of [lo, hi) counts the occurrences inside [lo, hi). */
  lemma {:induction false} WeightedIndicator(data: seq<int>, b: int, lo: nat, hi: nat, n: nat)
    requires lo <= hi <= n <= |data|
    ensures Weighted(data, b, n, Indicator(lo, hi)) == Count(data, lo, hi, b)
    decreases hi
  {
    WeightedTail(data, b, hi, n, Indicator(lo, hi));
    if lo == hi {
      WeightedTail(data, b, 0, hi, Indicator(lo, hi));
    } else {
      WeightedIndicator(data, b, lo, hi - 1, hi - 1);
      WeightedAdd(data, b, hi - 1, Indicator(lo, hi), Indicator(lo, hi - 1), _ => 0);
      WeightedTail(data, b, 0, hi - 1, _ => 0);
    }
  }

  // ---------------------------------------------------------------------
  // The atomic kernel: one increment per element, in any interleaving

  /** Apply the increments of the elements visited by `visit`, in that order. */
  function TallyVisits(data: seq<int>, h: seq<nat>, visit: seq<int>): (h': seq<nat>)
    requires InBins(data) && |h| == NumBins
    requires forall p :: 0 <= p < |visit| ==> 0 <= visit[p] < |data|
    ensures |h'| == NumBins
    decreases |visit|
  {
    if |visit| == 0 then h
    else Increment(TallyVisits(data, h, visit[..|visit| - 1]), data[visit[|visit| - 1]])
  }

  /** 0, 1, ..., n-1. */
  function Indices(n: nat): (s: seq<int>)
    ensures |s| == n
  {
    seq(n, i => i)
  }

  /** visit performs every index below n exactly once, in some order. */
  predicate VisitsEachOnce(visit: seq<int>, n: nat) {
    multiset(visit) == multiset(Indices(n))
  }

  lemma {:induction false} IndicesOnce(n: nat, i: int)
    ensures multiset(Indices(n))[i] == if 0 <= i < n then 1 else 0
  {
    if n > 0 {
      IndicesOnce(n - 1, i);
      assert Indices(n) == Indices(n - 1) + [n - 1];
    }
  }

  lemma VisitsInRange(visit: seq<int>, n: nat)
    requires VisitsEachOnce(visit, n)
    ensures forall p :: 0 <= p < |visit| ==> 0 <= visit[p] < n
  {
    forall p | 0 <= p < |visit|
      ensures 0 <= visit[p] < n
    {
      assert visit[p] in multiset(visit);
      IndicesOnce(n, visit[p]);
    }
  }

  /** Bin b after the visits, starting from empty bins, counts the occurrences of b weighted by how often each index is visited. */
  lemma {:induction false} TallyVisitsCount(data: seq<int>, visit: seq<int>, b: int)
    requires InBins(data) && 0 <= b < NumBins
    requires forall p :: 0 <= p < |visit| ==> 0 <= visit[p] < |data|
    ensures TallyVisits(data, Zeros(), visit)[b] == Weighted(data, b, |data|, i => multiset(visit)[i])
    decreases |visit|
  {
    var n := |data|;
    if |visit| == 0 {
      WeightedTail(data, b, 0, n, i => multiset(visit)[i]);
    } else {
      var pre, v := visit[..|visit| - 1], visit[|visit| - 1];
      TallyVisitsCount(data, pre, b);
      assert visit == pre + [v];
      WeightedAdd(data, b, n, i => multiset(visit)[i], i => multiset(pre)[i], Indicator(v, v + 1));
      WeightedIndicator(data, b, v, v + 1, n);
    }
  }

  /** The atomic kernel: the histogram is cleared, then every element's
      increment happens once, in whatever order the threads interleave. */
  function HistogramAtomic(data: seq<int>, visit: seq<int>): (h: seq<nat>)
    requires InBins(data) && VisitsEachOnce(visit, |data|)
    ensures h == HistogramOf(data)
  {
    VisitsInRange(visit, |data|);
    var h := TallyVisits(data, Zeros(), visit);
    forall b | 0 <= b < NumBins
      ensures h[b] == Count(data, 0, |data|, b)
    {
      TallyVisitsCount(data, visit, b);
      forall i | 0 <= i < |data|
        ensures multiset(visit)[i] == 1
      {
        IndicesOnce(|data|, i);
      }
      WeightedOnes(data, b, |data|, i => multiset(visit)[i]);
    }
    h
  }

  // ---------------------------------------------------------------------
  // The reduction kernel: private histograms per range, merged in any order

  /** A thread's private histogram over its range [r.lo, r.hi), counted in index order. */
  function LocalHistogram(data: seq<int>, r: Range): (h: seq<nat>)
    requires InBins(data) && 0 <= r.lo && r.hi <= |data|
    ensures |h| == NumBins
    ensures forall b :: 0 <= b < NumBins ==> h[b] == if r.lo <= r.hi then Count(data, r.lo, r.hi, b) else 0
    decreases r.hi - r.lo
  {
    if r.hi <= r.lo then Zeros()
    else Increment(LocalHistogram(data, Range(r.lo, r.hi - 1)), data[r.hi - 1])
  }

  /** Bin-wise sum of two histograms: one critical section of the merge. */
  function Merge(h1: seq<nat>, h2: seq<nat>): (h: seq<nat>)
    requires |h1| == NumBins && |h2| == NumBins
    ensures |h| == NumBins
  {
    seq(NumBins, b requires 0 <= b < NumBins => h1[b] + h2[b])
  }

  /** The shared histogram after the threads owning rs[0], rs[1], ... merged, in that order. */
  function MergeAll(data: seq<int>, rs: seq<Range>): (h: seq<nat>)
    requires InBins(data) && Within(rs, |data|)
    ensures |h| == NumBins
    decreases |rs|
  {
    if |rs| == 0 then Zeros()
    else Merge(MergeAll(data, rs[..|rs| - 1]), LocalHistogram(data, rs[|rs| - 1]))
  }

  /** Bin b of the merge counts every occurrence once per range that owns its index. */
  lemma {:induction false} MergeAllCount(data: seq<int>, rs: seq<Range>, b: int)
    requires InBins(data) && Within(rs, |data|) && 0 <= b < NumBins
    ensures MergeAll(data, rs)[b] == Weighted(data, b, |data|, i => Owners(rs, i))
    decreases |rs|
  {
    var n := |data|;
    if |rs| == 0 {
      WeightedTail(data, b, 0, n, i => Owners(rs, i));
    } else {
      var pre, r := rs[..|rs| - 1], rs[|rs| - 1];
      MergeAllCount(data, pre, b);
      assert rs == pre + [r];
      forall i | 0 <= i < n
        ensures Owners(rs, i) == Owners(pre, i) + Indicator(r.lo, r.hi)(i)
      {
        OwnersConcat(pre, [r], i);
      }
      WeightedAdd(data, b, n, i => Owners(rs, i), i => Owners(pre, i), Indicator(r.lo, r.hi));
      if r.lo <= r.hi {
        WeightedIndicator(data, b, r.lo, r.hi, n);
      } else {
        WeightedTail(data, b, 0, n, Indicator(r.lo, r.hi));
      }
    }
  }

  /** Merging the private histograms of any partition of the indices gives the histogram. */
  lemma ReductionOverPartition(data: seq<int>, rs: seq<Range>)
    requires InBins(data) && IsPartition(rs, |data|)
    ensures MergeAll(data, rs) == HistogramOf(data)
  {
    forall b | 0 <= b < NumBins
      ensures MergeAll(data, rs)[b] == Count(data, 0, |data|, b)
    {
      MergeAllCount(data, rs, b);
      WeightedOnes(data, b, |data|, i => Owners(rs, i));
    }
  }

  /** The reduction kernel with t threads: thread k counts the k-th static block,
      and the critical sections run in the order given by `order`. */
  function HistogramReduction(data: seq<int>, threads: nat, order: seq<nat>): (h: seq<nat>)
    requires InBins(data) && threads >= 1 && IsOrdering(order, threads)
    ensures h == HistogramOf(data)
  {
    StaticRangesPartition(|data|, threads);
    ReorderPartition(StaticRanges(|data|, threads), order, |data|);
    ReductionOverPartition(data, Reorder(StaticRanges(|data|, threads), order));
    MergeAll(data, Reorder(StaticRanges(|data|, threads), order))
  }

  // ---------------------------------------------------------------------
  // Totals

  function Total(h: seq<nat>): nat {
    if |h| == 0 then 0 else Total(h[..|h| - 1]) + h[|h| - 1]
  }

  /** One increment raises the total by one. */
  lemma {:induction false} TotalIncrement(h: seq<nat>, v: int)
    requires 0 <= v < |h|
    ensures Total(Increment(h, v)) == Total(h) + 1
    decreases |h|
  {
    var h' := Increment(h, v);
    if v < |h| - 1 {
      TotalIncrement(h[..|h| - 1], v);
      assert h'[..|h| - 1] == Increment(h[..|h| - 1], v);
    } else {
      assert h'[..|h| - 1] == h[..|h| - 1];
    }
  }

  lemma {:induction false} TotalZeros(k: nat)
    requires k <= NumBins
    ensures Total(Zeros()[..k]) == 0
  {
    if k > 0 {
      TotalZeros(k - 1);
      assert Zeros()[..k][..k - 1] == Zeros()[..k - 1];
    }
  }

  /** The bins add up to the number of elements: every element lands in exactly one bin. */
  lemma TotalIsSize(data: seq<int>)
    requires InBins(data)
    ensures Total(HistogramOf(data)) == |data|
  {
    var h := Zeros();
    TotalZeros(NumBins);
    assert Zeros()[..NumBins] == Zeros();
    for i := 0 to |data|
      invariant |h| == NumBins && Total(h) == i
      invariant forall b :: 0 <= b < NumBins ==> h[b] == Count(data, 0, i, b)
    {
      TotalIncrement(h, data[i]);
      h := Increment(h, data[i]);
    }
    assert h == HistogramOf(data);
  }

  // ---------------------------------------------------------------------
  // The printout's bar scaling

  /** The largest bin count, 0 for an all-zero histogram. */
  function MaxCount(h: seq<nat>): (m: nat)
    ensures forall b :: 0 <= b < |h| ==> h[b] <= m
    ensures m == 0 || exists b :: 0 <= b < |h| && h[b] == m
  {
    if |h| == 0 then 0
    else
      var rest := MaxCount(h[..|h| - 1]);
      assert forall b :: 0 <= b < |h| - 1 ==> h[b] == h[..|h| - 1][b];
      if h[|h| - 1] > rest then h[|h| - 1] else rest
  }

  /** Bar length of a bin with `count` when the fullest bin has maxCount > 0:
      count scaled to 50 columns and rounded down; a non-empty bin whose
      scaled count rounds down to 0 gets 1. */
  function BarLength(count: nat, maxCount: nat): (len: nat)
    requires 0 < maxCount && count <= maxCount
    ensures len <= 50
    ensures len == 0 <==> count == 0
    ensures count == maxCount ==> len == 50
    ensures count * 50 >= maxCount ==> len * maxCount <= count * 50 < (len + 1) * maxCount
    ensures 0 < count && count * 50 < maxCount ==> len == 1
  {
    ScaledBounds(count, maxCount);
    var scaled := (count * 50) / maxCount;
    if scaled == 0 && count > 0 then 1 else scaled
  }

  /** The bar length is the C quotient count*50 / maxCount, except that a
      non-empty bin whose quotient is 0 gets 1. It follows from the contract alone. */
  lemma BarLengthIsQuotient(count: nat, maxCount: nat)
    requires 0 < maxCount && count <= maxCount
    ensures BarLength(count, maxCount) == if 0 < count && count * 50 < maxCount then 1 else (count * 50) / maxCount
  {
    var len, q := BarLength(count, maxCount), (count * 50) / maxCount;
    QuotientBounds(count * 50, maxCount);
    QuotientThreshold(count * 50, maxCount, 1);
    if count * 50 >= maxCount {
      if len < q {
        MulMono(len + 1, q, maxCount);
      } else if len > q {
        MulMono(q + 1, len, maxCount);
      }
    }
  }

  /** The scaled count q = count*50 / maxCount is the floor: q*maxCount <= count*50 < (q+1)*maxCount,
      q <= 50, and q == 50 for the fullest bin. */
  lemma ScaledBounds(count: nat, maxCount: nat)
    requires 0 < maxCount && count <= maxCount
    ensures (count * 50) / maxCount * maxCount <= count * 50
    ensures count * 50 < ((count * 50) / maxCount + 1) * maxCount
    ensures (count * 50) / maxCount == 0 <==> count * 50 < maxCount
    ensures (count * 50) / maxCount <= 50
    ensures count == 0 ==> (count * 50) / maxCount == 0
    ensures count == maxCount ==> (count * 50) / maxCount == 50
  {
    var scaled := count * 50;
    MulMono(count, maxCount, 50);
    QuotientBounds(scaled, maxCount);
    QuotientThreshold(scaled, maxCount, 51);
    QuotientThreshold(scaled, maxCount, 1);
    if count == maxCount {
      QuotientThreshold(scaled, maxCount, 50);
    }
  }

  /** Bars never invert the order of the counts. */
  lemma BarLengthMonotone(c1: nat, c2: nat, maxCount: nat)
    requires 0 < maxCount && c1 <= c2 <= maxCount
    ensures BarLength(c1, maxCount) <= BarLength(c2, maxCount)
  {
    MulMono(c1, c2, 50);
    DivMono(c1 * 50, c2 * 50, maxCount);
  }

  lemma DivMono(a: nat, b: nat, m: nat)
    requires a <= b && m > 0
    ensures a / m <= b / m
  {
    QuotientBounds(a, m);
    QuotientBounds(b, m);
    if a / m > b / m {
      MulMono(b / m + 1, a / m, m);
    }
  }

  /** The printout's bars as written: the scaling divides by the largest
      count, so an all-zero histogram (no elements) has no defined bars. */
  function BarsAsWritten(h: seq<nat>): (bars: Option<seq<nat>>)
    ensures bars.None? <==> MaxCount(h) == 0
    ensures bars.Some? ==> |bars.value| == |h|
  {
    if MaxCount(h) == 0 then None
    else Some(seq(|h|, b requires 0 <= b < |h| => BarLength(h[b], MaxCount(h))))
  }

  datatype Option<T> = None | Some(value: T)

  /** An empty data set makes the printout divide by zero. */
  lemma EmptyDataHasNoBars()
    ensures BarsAsWritten(HistogramOf([])) == None
  {
    var h := HistogramOf([]);
    assert forall b :: 0 <= b < NumBins ==> h[b] == 0;
  }

  /** The bars with the empty case handled: an all-zero histogram draws no bar. */
  function Bars(h: seq<nat>): (bars: seq<nat>)
    ensures |bars| == |h|
    ensures forall b :: 0 <= b < |h| ==> bars[b] <= 50 && (bars[b] == 0 <==> h[b] == 0)
    ensures forall b :: 0 <= b < |h| && h[b] == MaxCount(h) && h[b] > 0 ==> bars[b] == 50
    ensures forall a, b :: 0 <= a < |h| && 0 <= b < |h| && h[a] <= h[b] ==> bars[a] <= bars[b]
    ensures MaxCount(h) > 0 ==> BarsAsWritten(h) == Some(bars)
  {
    var m := MaxCount(h);
    if m == 0 then seq(|h|, _ => 0)
    else
      var bars := seq(|h|, b requires 0 <= b < |h| => BarLength(h[b], m));
      forall a, b | 0 <= a < |h| && 0 <= b < |h| && h[a] <= h[b]
        ensures bars[a] <= bars[b]
      {
        BarLengthMonotone(h[a], h[b], m);
      }
      bars
  }

  // ---------------------------------------------------------------------
  // Comparing two histograms

  /** The bins where h1 and h2 differ. */
  function DifferingBins(h1: seq<nat>, h2: seq<nat>, n: nat): set<int>
    requires n <= |h1| && n <= |h2|
  {
    set b | 0 <= b < n && h1[b] != h2[b]
  }

  /** Compare bin by bin: errors counts the differing bins, passed means there are none. */
  method VerifyHistograms(h1: seq<nat>, h2: seq<nat>) returns (passed: bool, errors: nat)
    requires |h1| == NumBins && |h2| == NumBins
    ensures errors == |DifferingBins(h1, h2, NumBins)|
    ensures passed <==> h1 == h2
  {
    errors := 0;
    for i := 0 to NumBins
      invariant errors == |DifferingBins(h1, h2, i)|
    {
      if h1[i] != h2[i] {
        assert DifferingBins(h1, h2, i + 1) == DifferingBins(h1, h2, i) + {i};
        errors := errors + 1;
      } else {
        assert DifferingBins(h1, h2, i + 1) == DifferingBins(h1, h2, i);
      }
    }
    if h1 != h2 {
      var b :| 0 <= b < NumBins && h1[b] != h2[b];
      assert b in DifferingBins(h1, h2, NumBins);
    }
    passed := errors == 0;
  }

  /** The program's run: the data is generated, and both parallel histograms
      agree with the sequential one whatever the interleaving. */
  method RunHistogram(draws: seq<nat>, threads: nat, visit: seq<int>, order: seq<nat>)
    returns (atomicOk: bool, reductionOk: bool)
    requires threads >= 1 && VisitsEachOnce(visit, |draws|) && IsOrdering(order, threads)
    ensures atomicOk && reductionOk
  {
    var data := GenerateData(draws);
    var sequential := HistogramSequential(data);
    var errors;
    atomicOk, errors := VerifyHistograms(sequential, HistogramAtomic(data, visit));
    reductionOk, errors := VerifyHistograms(sequential, HistogramReduction(data, threads, order));
  }
}
