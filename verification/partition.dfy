/** Owner-computes partitioning shared by every kernel.

    An index space [0, n) is split into half-open ranges; each range is
    processed by one worker, which writes only the cells of its range.
    Threads are abstracted away: a schedule is a sequence of ranges walked
    one after another, in any order.
 */
module Partition {

  /** The half-open index range [lo, hi). */
  datatype Range = Range(lo: int, hi: int) {
    predicate Contains(i: int) {
      lo <= i < hi
    }
  }

  function Min(a: int, b: int): int {
    if a <= b then a else b
  }

  /** The number of ranges of rs that contain i, i.e. how many workers write cell i. */
  function Owners(rs: seq<Range>, i: int): nat
    decreases |rs|
  {
    if |rs| == 0 then 0
    else (if rs[0].Contains(i) then 1 else 0) + Owners(rs[1..], i)
  }

  /** Every range lies inside [0, n). */
  predicate Within(rs: seq<Range>, n: int) {
    forall k :: 0 <= k < |rs| ==> 0 <= rs[k].lo && rs[k].hi <= n
  }

  /** rs splits [0, n) so that every index has exactly one owner. */
  predicate IsPartition(rs: seq<Range>, n: int) {
    && Within(rs, n)
    && forall i :: 0 <= i < n ==> Owners(rs, i) == 1
  }

  /** No index lies in two different ranges. */
  ghost predicate PairwiseDisjoint(rs: seq<Range>) {
    forall a, b, i :: 0 <= a < b < |rs| && rs[a].Contains(i) ==> !rs[b].Contains(i)
  }

  /** Some range of rs contains i. */
  predicate Owned(rs: seq<Range>, i: int) {
    exists k :: 0 <= k < |rs| && rs[k].Contains(i)
  }

  /** Every index of [0, n) lies in some range. */
  predicate Covers(rs: seq<Range>, n: int) {
    forall i :: 0 <= i < n ==> Owned(rs, i)
  }

  lemma {:induction false} OwnersPositive(rs: seq<Range>, i: int)
    ensures Owners(rs, i) > 0 <==> Owned(rs, i)
    decreases |rs|
  {
    if |rs| > 0 {
      OwnersPositive(rs[1..], i);
      if Owners(rs[1..], i) > 0 {
        var k :| 0 <= k < |rs[1..]| && rs[1..][k].Contains(i);
        assert rs[k + 1].Contains(i);
      }
      if exists k :: 0 <= k < |rs| && rs[k].Contains(i) {
        var k :| 0 <= k < |rs| && rs[k].Contains(i);
        if k > 0 {
          assert rs[1..][k - 1].Contains(i);
        }
      }
    }
  }

  lemma {:induction false} OwnersAtMostOne(rs: seq<Range>, i: int)
    ensures Owners(rs, i) <= 1 <==>
            forall a, b :: 0 <= a < b < |rs| && rs[a].Contains(i) ==> !rs[b].Contains(i)
    decreases |rs|
  {
    if |rs| > 0 {
      var rest := rs[1..];
      OwnersAtMostOne(rest, i);
      OwnersPositive(rest, i);
      if Owners(rs, i) <= 1 {
        forall a, b | 0 <= a < b < |rs| && rs[a].Contains(i)
          ensures !rs[b].Contains(i)
        {
          if a == 0 {
            assert !Owned(rest, i);
            assert rs[b] == rest[b - 1];
          } else {
            assert rest[a - 1].Contains(i);
            assert rs[b] == rest[b - 1];
          }
        }
      } else {
        if rs[0].Contains(i) {
          var k :| 0 <= k < |rest| && rest[k].Contains(i);
          assert rs[k + 1].Contains(i);
        } else {
          var a, b :| 0 <= a < b < |rest| && rest[a].Contains(i) && rest[b].Contains(i);
          assert rs[a + 1].Contains(i) && rs[b + 1].Contains(i);
        }
      }
    }
  }

  /** The owner count is the same thing as "pairwise disjoint and covering". */
  lemma PartitionIffDisjointCover(rs: seq<Range>, n: int)
    ensures IsPartition(rs, n) <==> Within(rs, n) && PairwiseDisjoint(rs) && Covers(rs, n)
  {
    forall i
      ensures Owners(rs, i) > 0 <==> Owned(rs, i)
      ensures Owners(rs, i) <= 1 <==>
              forall a, b :: 0 <= a < b < |rs| && rs[a].Contains(i) ==> !rs[b].Contains(i)
    {
      OwnersPositive(rs, i);
      OwnersAtMostOne(rs, i);
    }
    if Within(rs, n) && PairwiseDisjoint(rs) && Covers(rs, n) {
      forall i | 0 <= i < n
        ensures Owners(rs, i) == 1
      {
      }
    }
    if IsPartition(rs, n) {
      forall a, b, i | 0 <= a < b < |rs| && rs[a].Contains(i)
        ensures !rs[b].Contains(i)
      {
        assert 0 <= i < n;
        assert Owners(rs, i) == 1;
        OwnersAtMostOne(rs, i);
      }
    }
  }

  lemma {:induction false} OwnersConcat(a: seq<Range>, b: seq<Range>, i: int)
    ensures Owners(a + b, i) == Owners(a, i) + Owners(b, i)
    decreases |a|
  {
    if |a| > 0 {
      assert (a + b)[0] == a[0];
      assert (a + b)[1..] == a[1..] + b;
      OwnersConcat(a[1..], b, i);
    } else {
      assert a + b == b;
    }
  }

  /** Worker body on one range: y[i] := f(i, y[i]) for i = lo, lo+1, ..., hi-1. */
  function Fill<T(!new)>(y: seq<T>, r: Range, f: (int, T) --> T): (z: seq<T>)
    requires 0 <= r.lo && r.hi <= |y|
    requires forall i, v :: r.lo <= i < r.hi ==> f.requires(i, v)
    ensures |z| == |y|
    ensures forall i :: 0 <= i < |y| ==> z[i] == (if r.Contains(i) then f(i, y[i]) else y[i])
    decreases r.hi - r.lo
  {
    if r.hi <= r.lo then y
    else Fill(y[r.lo := f(r.lo, y[r.lo])], Range(r.lo + 1, r.hi), f)
  }

  /** The ranges of a schedule processed one after another, each by the worker body.
      A cell owned by exactly one range receives f of its original value; a cell
      owned by no range keeps its value. */
  function Run<T(!new)>(y: seq<T>, rs: seq<Range>, f: (int, T) --> T): (z: seq<T>)
    requires Within(rs, |y|)
    requires forall i, v :: 0 <= i < |y| ==> f.requires(i, v)
    ensures |z| == |y|
    ensures forall i :: 0 <= i < |y| && Owners(rs, i) <= 1 ==>
              z[i] == (if Owners(rs, i) == 1 then f(i, y[i]) else y[i])
    decreases |rs|
  {
    if |rs| == 0 then y
    else Run(Fill(y, rs[0], f), rs[1..], f)
  }

  /** Owner-computes: over any partition, every cell is transformed exactly once,
      whatever the order of the ranges. */
  lemma RunOverPartition<T(!new)>(y: seq<T>, rs: seq<Range>, f: (int, T) --> T)
    requires IsPartition(rs, |y|)
    requires forall i, v :: 0 <= i < |y| ==> f.requires(i, v)
    ensures |Run(y, rs, f)| == |y|
    ensures forall i :: 0 <= i < |y| ==> Run(y, rs, f)[i] == f(i, y[i])
  {
  }

  /** Ranges laid end to end, in ascending order, from a to b. */
  predicate Chain(rs: seq<Range>, a: int, b: int)
    decreases |rs|
  {
    if |rs| == 0 then a == b
    else rs[0].lo == a && rs[0].lo <= rs[0].hi && Chain(rs[1..], rs[0].hi, b)
  }

  lemma {:induction false} ChainOwners(rs: seq<Range>, a: int, b: int)
    requires Chain(rs, a, b)
    ensures a <= b
    ensures forall k :: 0 <= k < |rs| ==> a <= rs[k].lo && rs[k].hi <= b
    ensures forall i :: Owners(rs, i) == (if a <= i < b then 1 else 0)
    decreases |rs|
  {
    if |rs| > 0 {
      ChainOwners(rs[1..], rs[0].hi, b);
      forall k | 0 < k < |rs|
        ensures a <= rs[k].lo && rs[k].hi <= b
      {
        assert rs[k] == rs[1..][k - 1];
      }
    }
  }

  /** Consecutive ranges from 0 to n form a partition of [0, n). */
  lemma ChainIsPartition(rs: seq<Range>, n: int)
    requires Chain(rs, 0, n)
    ensures IsPartition(rs, n)
  {
    ChainOwners(rs, 0, n);
  }

  /** Ceiling division, written as (a + b - 1) / b in the source. */
  function CeilDiv(a: nat, b: nat): (q: nat)
    requires b > 0
    ensures a <= q * b
    ensures a > 0 ==> (q - 1) * b < a
    ensures a == 0 ==> q == 0
  {
    var q := (a + b - 1) / b;
    var r := (a + b - 1) % b;
    assert a + b - 1 == q * b + r;
    q
  }

  /** Fixed-size chunks: chunk k covers [k*c, min(k*c + c, n)). */
  function ChunkRanges(n: nat, c: nat): (rs: seq<Range>)
    requires c > 0
    ensures |rs| == CeilDiv(n, c)
  {
    seq(CeilDiv(n, c), k => Range(k * c, Min(k * c + c, n)))
  }

  lemma MulStep(k: int, c: int)
    ensures (k + 1) * c == k * c + c
  {
  }

  lemma MulMono(a: int, b: int, c: int)
    requires 0 <= a <= b && 0 <= c
    ensures a * c <= b * c
  {
  }

  /** n / m is the q with q*m <= n < (q+1)*m. */
  lemma QuotientBounds(n: nat, m: nat)
    requires m > 0
    ensures n / m * m <= n < (n / m + 1) * m
  {
    MulStep(n / m, m);
  }

  /** The quotient falls below t exactly when n falls below t*m. */
  lemma QuotientThreshold(n: nat, m: nat, t: nat)
    requires m > 0
    ensures n / m < t <==> n < t * m
  {
    QuotientBounds(n, m);
    if n / m < t {
      MulMono(n / m + 1, t, m);
    } else {
      MulMono(t, n / m, m);
    }
  }

  lemma {:induction false} ChunkSuffixChain(n: nat, c: nat, k: nat)
    requires c > 0 && k <= CeilDiv(n, c)
    ensures Chain(ChunkRanges(n, c)[k..], if k == CeilDiv(n, c) then n else k * c, n)
    decreases CeilDiv(n, c) - k
  {
    var rs := ChunkRanges(n, c);
    var q := CeilDiv(n, c);
    if k < q {
      ChunkSuffixChain(n, c, k + 1);
      assert rs[k..][1..] == rs[k + 1..];
      MulStep(k, c);
      MulMono(k, q - 1, c);
      assert k * c < n;
      if k + 1 < q {
        MulStep(k + 1, c);
        MulMono(k + 1, q - 1, c);
        assert Min(k * c + c, n) == (k + 1) * c;
      } else {
        assert q * c >= n;
        assert Min(k * c + c, n) == n;
      }
    }
  }

  /** The chunks are consecutive and ascending, from 0 to n. */
  lemma ChunkRangesChain(n: nat, c: nat)
    requires c > 0
    ensures Chain(ChunkRanges(n, c), 0, n)
  {
    ChunkSuffixChain(n, c, 0);
    assert ChunkRanges(n, c)[0..] == ChunkRanges(n, c);
  }

  /** The chunks are pairwise disjoint and their union is [0, n). */
  lemma ChunkRangesPartition(n: nat, c: nat)
    requires c > 0
    ensures IsPartition(ChunkRanges(n, c), n)
    ensures PairwiseDisjoint(ChunkRanges(n, c)) && Covers(ChunkRanges(n, c), n)
  {
    ChunkRangesChain(n, c);
    ChainIsPartition(ChunkRanges(n, c), n);
    PartitionIffDisjointCover(ChunkRanges(n, c), n);
  }

  /** Start of worker k's block when n iterations are split into t near-equal
      contiguous blocks: the first n % t workers get one extra iteration. */
  function StaticStart(n: nat, t: nat, k: nat): int
    requires t > 0
  {
    k * (n / t) + Min(k, n % t)
  }

  /** A static schedule without chunk size: t contiguous blocks, one per worker. */
  function StaticRanges(n: nat, t: nat): (rs: seq<Range>)
    requires t > 0
    ensures |rs| == t
  {
    seq(t, k requires 0 <= k < t => Range(StaticStart(n, t, k), StaticStart(n, t, k + 1)))
  }

  lemma StaticStep(n: nat, t: nat, k: nat)
    requires t > 0
    ensures StaticStart(n, t, k + 1) == StaticStart(n, t, k) + n / t + (if k < n % t then 1 else 0)
  {
    MulStep(k, n / t);
  }

  lemma {:induction false} StaticSuffixChain(n: nat, t: nat, k: nat)
    requires t > 0 && k <= t
    ensures Chain(StaticRanges(n, t)[k..], StaticStart(n, t, k), n)
    decreases t - k
  {
    var rs := StaticRanges(n, t);
    if k < t {
      StaticSuffixChain(n, t, k + 1);
      assert rs[k..][1..] == rs[k + 1..];
      assert rs[k..][0] == Range(StaticStart(n, t, k), StaticStart(n, t, k + 1));
      StaticMono(n, t, k);
    } else {
      StaticEnd(n, t);
    }
  }

  lemma StaticMono(n: nat, t: nat, k: nat)
    requires t > 0
    ensures StaticStart(n, t, k) <= StaticStart(n, t, k + 1)
  {
    StaticStep(n, t, k);
  }

  /** The last block ends at n. */
  lemma StaticEnd(n: nat, t: nat)
    requires t > 0
    ensures StaticStart(n, t, t) == n
  {
    assert n == t * (n / t) + n % t;
  }

  /** The static blocks partition [0, n) and their sizes differ by at most one. */
  lemma StaticRangesPartition(n: nat, t: nat)
    requires t > 0
    ensures IsPartition(StaticRanges(n, t), n)
    ensures forall k :: 0 <= k < t ==>
              n / t <= StaticRanges(n, t)[k].hi - StaticRanges(n, t)[k].lo <= n / t + 1
  {
    StaticSuffixChain(n, t, 0);
    assert StaticRanges(n, t)[0..] == StaticRanges(n, t);
    ChainIsPartition(StaticRanges(n, t), n);
    forall k | 0 <= k < t
      ensures n / t <= StaticRanges(n, t)[k].hi - StaticRanges(n, t)[k].lo <= n / t + 1
    {
      StaticStep(n, t, k);
    }
  }

  /** order lists every index of [0, m) exactly once: the order in which the
      chunks of a dynamic schedule happen to be processed. */
  predicate IsOrdering(order: seq<nat>, m: nat) {
    && |order| == m
    && (forall p :: 0 <= p < |order| ==> order[p] < m)
    && (forall k :: 0 <= k < m ==> k in order)
    && (forall p, q :: 0 <= p < q < |order| ==> order[p] != order[q])
  }

  /** The items (chunks, tiles) handed out in the order `order`. */
  function Reorder<T>(rs: seq<T>, order: seq<nat>): (out: seq<T>)
    requires IsOrdering(order, |rs|)
    ensures |out| == |rs|
  {
    seq(|order|, p requires 0 <= p < |order| => rs[order[p]])
  }

  /** Processing the chunks of a partition in any order is still a partition. */
  lemma ReorderPartition(rs: seq<Range>, order: seq<nat>, n: int)
    requires IsPartition(rs, n) && IsOrdering(order, |rs|)
    ensures IsPartition(Reorder(rs, order), n)
  {
    var out := Reorder(rs, order);
    PartitionIffDisjointCover(rs, n);
    PartitionIffDisjointCover(out, n);
    forall a, b, i | 0 <= a < b < |out| && out[a].Contains(i)
      ensures !out[b].Contains(i)
    {
      assert out[a] == rs[order[a]] && out[b] == rs[order[b]];
      assert order[a] != order[b];
    }
    forall i | 0 <= i < n
      ensures Owned(out, i)
    {
      assert Owned(rs, i);
      var k :| 0 <= k < |rs| && rs[k].Contains(i);
      assert k in order;
      var p :| 0 <= p < |order| && order[p] == k;
      assert out[p].Contains(i);
    }
  }
}
