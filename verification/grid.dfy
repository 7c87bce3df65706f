/** Row-major N x N grids stored flat, and their tiling into blocks.

    Cell (i, j) lives at p = i*N + j. A tile is a block of rows times a
    block of columns; a tile's loop (i outer, j inner) visits, for each of
    its rows, one contiguous run of p, so a list of tiles is also a list
    of one-dimensional ranges ("row segments") over [0, N*N).
 */
module Grid {
  import opened Partition

  lemma FlatBounds(i: int, j: int, N: int)
    requires 0 <= i < N && 0 <= j < N
    ensures 0 <= i * N + j < N * N
  {
    MulMono(i + 1, N, N);
    MulStep(i, N);
    MulMono(0, i, N);
  }

  lemma FlatDivMod(i: int, j: int, N: int)
    requires 0 <= i && 0 <= j < N
    ensures (i * N + j) / N == i && (i * N + j) % N == j
  {
    var q := (i * N + j) / N;
    var r := (i * N + j) % N;
    assert i * N + j == q * N + r;
    MulMono(0, i, N);
    if q < i {
      MulMono(q + 1, i, N);
      MulStep(q, N);
    }
    if q > i {
      MulMono(i + 1, q, N);
      MulStep(i, N);
    }
  }

  lemma Unflat(p: int, N: int)
    requires 0 <= N && 0 <= p < N * N
    ensures 0 <= p / N < N && 0 <= p % N < N
    ensures p == (p / N) * N + p % N
  {
    assert N != 0;
    if p / N >= N {
      MulMono(N, p / N, N);
    }
  }

  /** Cell (i, j) of an N x N flat matrix m, for any i, j in [0, N). */
  function At(m: seq<real>, N: nat, i: int, j: int): real
    requires |m| == N * N && 0 <= i < N && 0 <= j < N
  {
    FlatBounds(i, j, N);
    m[i * N + j]
  }

  /** A block of rows times a block of columns. */
  datatype Tile = Tile(rows: Range, cols: Range) {
    predicate InTile(i: int, j: int) {
      rows.Contains(i) && cols.Contains(j)
    }
  }

  /** The number of tiles containing cell (i, j). */
  function TileOwners(ts: seq<Tile>, i: int, j: int): nat
    decreases |ts|
  {
    if |ts| == 0 then 0
    else (if ts[0].InTile(i, j) then 1 else 0) + TileOwners(ts[1..], i, j)
  }

  predicate TilesWithin(ts: seq<Tile>, N: int) {
    forall k :: 0 <= k < |ts| ==>
      && 0 <= ts[k].rows.lo <= ts[k].rows.hi <= N
      && 0 <= ts[k].cols.lo <= ts[k].cols.hi <= N
  }

  /** ts covers the N x N grid with every cell in exactly one tile. */
  predicate IsTiling(ts: seq<Tile>, N: int) {
    && TilesWithin(ts, N)
    && forall i, j :: 0 <= i < N && 0 <= j < N ==> TileOwners(ts, i, j) == 1
  }

  /** One block row of tiles: the row block ra against every column block of cs. */
  function RowOfTiles(ra: Range, cs: seq<Range>): (ts: seq<Tile>)
    ensures |ts| == |cs|
    ensures forall k :: 0 <= k < |ts| ==> ts[k].rows == ra && ts[k].cols == cs[k]
    decreases |cs|
  {
    if |cs| == 0 then [] else [Tile(ra, cs[0])] + RowOfTiles(ra, cs[1..])
  }

  /** All tiles in the order of a collapsed (row block, column block) loop. */
  function TileRows(rs: seq<Range>, cs: seq<Range>): (ts: seq<Tile>)
    ensures |ts| == |rs| * |cs|
    ensures forall k :: 0 <= k < |ts| ==> ts[k].rows in rs && ts[k].cols in cs
    decreases |rs|
  {
    if |rs| == 0 then []
    else
      MulStep(|rs| - 1, |cs|);
      RowOfTiles(rs[0], cs) + TileRows(rs[1..], cs)
  }

  /** The tiles of a blocked N x N loop nest with block size bs: tile (a, b)
      covers rows [a*bs, min(a*bs + bs, N)) and columns [b*bs, min(b*bs + bs, N)). */
  function Tiles(N: nat, bs: nat): seq<Tile>
    requires bs > 0
  {
    TileRows(ChunkRanges(N, bs), ChunkRanges(N, bs))
  }

  lemma {:induction false} TileOwnersConcat(a: seq<Tile>, b: seq<Tile>, i: int, j: int)
    ensures TileOwners(a + b, i, j) == TileOwners(a, i, j) + TileOwners(b, i, j)
    decreases |a|
  {
    if |a| > 0 {
      assert (a + b)[0] == a[0];
      assert (a + b)[1..] == a[1..] + b;
      TileOwnersConcat(a[1..], b, i, j);
    } else {
      assert a + b == b;
    }
  }

  lemma {:induction false} RowOfTilesOwners(ra: Range, cs: seq<Range>, i: int, j: int)
    ensures TileOwners(RowOfTiles(ra, cs), i, j) == (if ra.Contains(i) then Owners(cs, j) else 0)
    decreases |cs|
  {
    if |cs| > 0 {
      var ts := RowOfTiles(ra, cs);
      RowOfTilesOwners(ra, cs[1..], i, j);
      TileOwnersConcat([Tile(ra, cs[0])], RowOfTiles(ra, cs[1..]), i, j);
      assert TileOwners([Tile(ra, cs[0])], i, j) == (if Tile(ra, cs[0]).InTile(i, j) then 1 else 0) by {
        assert [Tile(ra, cs[0])][1..] == [];
      }
    }
  }

  lemma Distribute(x: int, y: int, z: int)
    ensures (x + y) * z == x * z + y * z
  {
  }

  /** A cell's tile count is the product of its row's and its column's block counts. */
  lemma {:induction false} TileRowsOwners(rs: seq<Range>, cs: seq<Range>, i: int, j: int)
    ensures TileOwners(TileRows(rs, cs), i, j) == Owners(rs, i) * Owners(cs, j)
    decreases |rs|
  {
    if |rs| > 0 {
      TileRowsOwners(rs[1..], cs, i, j);
      RowOfTilesOwners(rs[0], cs, i, j);
      TileOwnersConcat(RowOfTiles(rs[0], cs), TileRows(rs[1..], cs), i, j);
      var x := if rs[0].Contains(i) then 1 else 0;
      assert Owners(rs, i) == x + Owners(rs[1..], i);
      Distribute(x, Owners(rs[1..], i), Owners(cs, j));
    }
  }

  lemma {:induction false} RowOfTilesWithin(ra: Range, cs: seq<Range>, N: int)
    requires 0 <= ra.lo <= ra.hi <= N
    requires forall k :: 0 <= k < |cs| ==> 0 <= cs[k].lo <= cs[k].hi <= N
    ensures TilesWithin(RowOfTiles(ra, cs), N)
    decreases |cs|
  {
    if |cs| > 0 {
      RowOfTilesWithin(ra, cs[1..], N);
    }
  }

  lemma {:induction false} TileRowsWithin(rs: seq<Range>, cs: seq<Range>, N: int)
    requires forall k :: 0 <= k < |rs| ==> 0 <= rs[k].lo <= rs[k].hi <= N
    requires forall k :: 0 <= k < |cs| ==> 0 <= cs[k].lo <= cs[k].hi <= N
    ensures TilesWithin(TileRows(rs, cs), N)
    decreases |rs|
  {
    if |rs| > 0 {
      TileRowsWithin(rs[1..], cs, N);
      RowOfTilesWithin(rs[0], cs, N);
    }
  }

  lemma {:induction false} ChainWellFormed(rs: seq<Range>, a: int, b: int)
    requires Chain(rs, a, b)
    ensures forall k :: 0 <= k < |rs| ==> a <= rs[k].lo <= rs[k].hi <= b
    decreases |rs|
  {
    ChainOwners(rs, a, b);
    if |rs| > 0 {
      ChainWellFormed(rs[1..], rs[0].hi, b);
      forall k | 0 < k < |rs|
        ensures rs[k].lo <= rs[k].hi
      {
        assert rs[k] == rs[1..][k - 1];
      }
    }
  }

  /** The clamped tiles cover the N x N grid, each cell exactly once. */
  lemma TilesAreTiling(N: nat, bs: nat)
    requires bs > 0
    ensures IsTiling(Tiles(N, bs), N)
  {
    var R := ChunkRanges(N, bs);
    ChunkRangesChain(N, bs);
    ChainWellFormed(R, 0, N);
    ChainOwners(R, 0, N);
    TileRowsWithin(R, R, N);
    forall i, j | 0 <= i < N && 0 <= j < N
      ensures TileOwners(Tiles(N, bs), i, j) == 1
    {
      TileRowsOwners(R, R, i, j);
    }
  }

  /** Tile membership of cell (i, j) as one-dimensional ranges: tile k becomes
      [0, 1) when it contains the cell and the empty range otherwise. */
  function CellKeys(ts: seq<Tile>, i: int, j: int): (rs: seq<Range>)
    ensures |rs| == |ts|
  {
    seq(|ts|, k requires 0 <= k < |ts| => if ts[k].InTile(i, j) then Range(0, 1) else Range(0, 0))
  }

  lemma {:induction false} CellKeysOwners(ts: seq<Tile>, i: int, j: int)
    ensures Owners(CellKeys(ts, i, j), 0) == TileOwners(ts, i, j)
    decreases |ts|
  {
    if |ts| > 0 {
      CellKeysOwners(ts[1..], i, j);
      assert CellKeys(ts, i, j)[1..] == CellKeys(ts[1..], i, j);
    }
  }

  /** Handing the tiles of a tiling out in any order still covers every cell exactly once. */
  lemma ReorderTiling(ts: seq<Tile>, order: seq<nat>, N: int)
    requires IsTiling(ts, N) && IsOrdering(order, |ts|)
    ensures IsTiling(Reorder(ts, order), N)
  {
    var out := Reorder(ts, order);
    forall i, j | 0 <= i < N && 0 <= j < N
      ensures TileOwners(out, i, j) == 1
    {
      CellKeysOwners(ts, i, j);
      CellKeysOwners(out, i, j);
      assert IsPartition(CellKeys(ts, i, j), 1);
      ReorderPartition(CellKeys(ts, i, j), order, 1);
      assert CellKeys(out, i, j) == Reorder(CellKeys(ts, i, j), order);
    }
  }

  /** The p-ranges visited by tile t's loop for its rows i, i+1, ..., rows.hi-1. */
  function TileSegments(N: int, t: Tile, i: int): seq<Range>
    decreases t.rows.hi - i
  {
    if i >= t.rows.hi then []
    else [Range(i * N + t.cols.lo, i * N + t.cols.hi)] + TileSegments(N, t, i + 1)
  }

  /** The p-ranges of a whole list of tiles, tile by tile. */
  function Segments(N: int, ts: seq<Tile>): seq<Range>
    decreases |ts|
  {
    if |ts| == 0 then [] else TileSegments(N, ts[0], ts[0].rows.lo) + Segments(N, ts[1..])
  }

  /** p lies in row i's segment [i*N + lo, i*N + hi) exactly when p is cell (i, j) with j in [lo, hi). */
  lemma SegmentMember(p: int, i: int, N: nat, lo: int, hi: int)
    requires 0 <= p < N * N && 0 <= i && 0 <= lo && hi <= N
    ensures (i * N + lo <= p < i * N + hi) <==> (p / N == i && lo <= p % N < hi)
  {
    Unflat(p, N);
    if i * N + lo <= p < i * N + hi {
      MulMono(0, i, N);
      FlatDivMod(i, p - i * N, N);
    }
  }

  lemma {:induction false} TileSegmentsWithin(N: nat, t: Tile, i: int)
    requires 0 <= t.rows.lo <= i && t.rows.hi <= N
    requires 0 <= t.cols.lo <= t.cols.hi <= N
    ensures Within(TileSegments(N, t, i), N * N)
    decreases t.rows.hi - i
  {
    if i < t.rows.hi {
      var head := Range(i * N + t.cols.lo, i * N + t.cols.hi);
      var rest: seq<Range> := TileSegments(N, t, i + 1);
      TileSegmentsWithin(N, t, i + 1);
      assert TileSegments(N, t, i) == [head] + rest;
      MulStep(i, N);
      MulMono(i + 1, N, N);
      MulMono(0, i, N);
      forall k | 0 <= k < |[head] + rest|
        ensures 0 <= ([head] + rest)[k].lo && ([head] + rest)[k].hi <= N * N
      {
        if k > 0 {
          assert ([head] + rest)[k] == rest[k - 1];
        }
      }
    }
  }

  lemma {:induction false} TileSegmentsOwners(N: nat, t: Tile, i: int, p: int)
    requires 0 <= t.rows.lo <= i && t.rows.hi <= N
    requires 0 <= t.cols.lo <= t.cols.hi <= N
    requires 0 <= p < N * N
    ensures Owners(TileSegments(N, t, i), p) ==
            (if i <= p / N && t.InTile(p / N, p % N) then 1 else 0)
    decreases t.rows.hi - i
  {
    if i < t.rows.hi {
      var head := Range(i * N + t.cols.lo, i * N + t.cols.hi);
      var rest := TileSegments(N, t, i + 1);
      TileSegmentsOwners(N, t, i + 1, p);
      assert TileSegments(N, t, i) == [head] + rest;
      OwnersConcat([head], rest, p);
      assert Owners([head], p) == (if head.Contains(p) then 1 else 0) by {
        assert [head][1..] == [];
      }
      SegmentMember(p, i, N, t.cols.lo, t.cols.hi);
    }
  }

  lemma {:induction false} TilesWithinTail(ts: seq<Tile>, N: int)
    requires |ts| > 0 && TilesWithin(ts, N)
    ensures TilesWithin(ts[1..], N)
  {
    forall k | 0 <= k < |ts[1..]|
      ensures 0 <= ts[1..][k].rows.lo <= ts[1..][k].rows.hi <= N
      ensures 0 <= ts[1..][k].cols.lo <= ts[1..][k].cols.hi <= N
    {
      assert ts[1..][k] == ts[k + 1];
    }
  }

  lemma {:induction false} SegmentsWithin(N: nat, ts: seq<Tile>)
    requires TilesWithin(ts, N)
    ensures Within(Segments(N, ts), N * N)
    decreases |ts|
  {
    if |ts| > 0 {
      var first: seq<Range> := TileSegments(N, ts[0], ts[0].rows.lo);
      var rest: seq<Range> := Segments(N, ts[1..]);
      TilesWithinTail(ts, N);
      SegmentsWithin(N, ts[1..]);
      TileSegmentsWithin(N, ts[0], ts[0].rows.lo);
      forall k | 0 <= k < |first + rest|
        ensures 0 <= (first + rest)[k].lo && (first + rest)[k].hi <= N * N
      {
        if k >= |first| {
          assert (first + rest)[k] == rest[k - |first|];
        }
      }
    }
  }

  lemma {:induction false} SegmentsOwners(N: nat, ts: seq<Tile>, p: int)
    requires TilesWithin(ts, N)
    requires 0 <= p < N * N
    ensures Owners(Segments(N, ts), p) == TileOwners(ts, p / N, p % N)
    decreases |ts|
  {
    if |ts| > 0 {
      TilesWithinTail(ts, N);
      SegmentsOwners(N, ts[1..], p);
      TileSegmentsOwners(N, ts[0], ts[0].rows.lo, p);
      OwnersConcat(TileSegments(N, ts[0], ts[0].rows.lo), Segments(N, ts[1..]), p);
      Unflat(p, N);
    }
  }

  /** The row segments of a tiling partition the flat index space [0, N*N). */
  lemma SegmentsPartition(N: nat, ts: seq<Tile>)
    requires IsTiling(ts, N)
    ensures IsPartition(Segments(N, ts), N * N)
  {
    SegmentsWithin(N, ts);
    forall p | 0 <= p < N * N
      ensures Owners(Segments(N, ts), p) == 1
    {
      SegmentsOwners(N, ts, p);
      Unflat(p, N);
    }
  }
}
