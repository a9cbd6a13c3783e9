/**
  The row-band partitioner of both threaded filters (`parallel_median_filter`
  and `parallel_ddf_filter` split the image identically): with
  `q = height / numNodes`, worker `i` gets rows `[i * q, (i + 1) * q)`, and
  the last worker's band is stretched to end at `height`.
 */
module Partitioner {
  import opened Raster

  /** The band of worker `i` out of `numNodes`. */
  function BandOf(height: nat, numNodes: nat, i: nat): Band
    requires numNodes >= 1
  {
    var q := height / numNodes;
    Band(i * q, if i == numNodes - 1 then height else (i + 1) * q)
  }

  /** The bands of all `numNodes` workers, in worker order. */
  function Bands(height: nat, numNodes: nat): seq<Band>
    requires numNodes >= 1
  {
    seq(numNodes, i requires 0 <= i < numNodes => BandOf(height, numNodes, i))
  }

  /**
    The bands tile rows `[0, height)`: the first starts at row 0, each ends
    where the next starts, the last ends at `height`, and none is reversed.
   */
  predicate Tiles(bands: seq<Band>, height: int) {
    && |bands| >= 1
    && bands[0].startRow == 0
    && bands[|bands| - 1].endRow == height
    && (forall k :: 0 <= k < |bands| - 1 ==> bands[k].endRow == bands[k + 1].startRow)
    && (forall k :: 0 <= k < |bands| ==> 0 <= bands[k].startRow <= bands[k].endRow <= height)
  }

  /** The rows covered by the first `j` bands of a tiling: `[0, DoneRows(bands, j))`. */
  function DoneRows(bands: seq<Band>, j: int): int
    requires 0 <= j <= |bands|
  {
    if j == 0 then 0 else bands[j - 1].endRow
  }

  /** Fills the workers' parameter array with their bands, one per worker. */
  method Partition(height: nat, numNodes: nat) returns (bands: array<Band>)
    requires numNodes >= 1
    ensures fresh(bands)
    ensures bands[..] == Bands(height, numNodes)
    ensures Tiles(bands[..], height)
  {
    bands := new Band[numNodes];
    var rowsPerThread := height / numNodes;
    var i := 0;
    while i < numNodes
      invariant 0 <= i <= numNodes
      invariant forall k :: 0 <= k < i ==> bands[k] == BandOf(height, numNodes, k)
    {
      bands[i] := Band(i * rowsPerThread, if i == numNodes - 1 then height else (i + 1) * rowsPerThread);
      i := i + 1;
    }
    PartitionTiles(height, numNodes);
  }

  // ---------------------------------------------------------------------------
  // Properties of the partition

  /** The partition tiles `[0, height)` for every worker count, even one exceeding `height`. */
  lemma PartitionTiles(height: nat, numNodes: nat)
    requires numNodes >= 1
    ensures Tiles(Bands(height, numNodes), height)
  {
    var q := height / numNodes;
    assert numNodes * q <= height;
    forall k | 0 <= k < numNodes
      ensures 0 <= BandOf(height, numNodes, k).startRow <= BandOf(height, numNodes, k).endRow <= height
    {
      MulMonotone(0, k, q);
      MulMonotone(k, k + 1, q);
      MulMonotone(k + 1, numNodes, q);
      MulMonotone(k, numNodes, q);
    }
  }

  /**
    Every band but the last has exactly `height / numNodes` rows; the last
    has `height / numNodes + height % numNodes`.
   */
  lemma BandSizes(height: nat, numNodes: nat, i: nat)
    requires numNodes >= 1 && i < numNodes
    ensures BandOf(height, numNodes, i).endRow - BandOf(height, numNodes, i).startRow
            == if i < numNodes - 1 then height / numNodes else height / numNodes + height % numNodes
  {
    var q, r := height / numNodes, height % numNodes;
    assert (i + 1) * q == i * q + q;
    if i == numNodes - 1 {
      assert height == (numNodes - 1) * q + q + r;
    }
  }

  /** With more workers than rows every band but the last is empty and the last holds the whole image. */
  lemma MoreNodesThanRows(height: nat, numNodes: nat)
    requires numNodes > height
    ensures forall i :: 0 <= i < numNodes - 1 ==> BandOf(height, numNodes, i) == Band(0, 0)
    ensures BandOf(height, numNodes, numNodes - 1) == Band(0, height)
  {
    assert height / numNodes == 0;
  }

  /** In a tiling, an earlier band ends no later than a later one starts. */
  lemma {:induction false} TilesOrdered(bands: seq<Band>, height: int, i: int, j: int)
    requires Tiles(bands, height) && 0 <= i < j < |bands|
    ensures bands[i].endRow <= bands[j].startRow
    decreases j - i
  {
    if i + 1 < j {
      TilesOrdered(bands, height, i, j - 1);
    }
  }

  /** In a tiling, no row belongs to two bands. */
  lemma TilesDisjoint(bands: seq<Band>, height: int, i: int, j: int, r: int)
    requires Tiles(bands, height) && 0 <= i < |bands| && 0 <= j < |bands|
    requires bands[i].startRow <= r < bands[i].endRow && bands[j].startRow <= r < bands[j].endRow
    ensures i == j
  {
    if i < j {
      TilesOrdered(bands, height, i, j);
    } else if j < i {
      TilesOrdered(bands, height, j, i);
    }
  }

  /** In a tiling, every row of `[0, height)` belongs to some band at or after band `k` if it is not above band `k`. */
  lemma {:induction false} TilesCoverFrom(bands: seq<Band>, height: int, r: int, k: int)
    requires Tiles(bands, height) && 0 <= k < |bands| && bands[k].startRow <= r < height
    ensures exists j :: k <= j < |bands| && bands[j].startRow <= r < bands[j].endRow
    decreases |bands| - k
  {
    if bands[k].endRow <= r {
      TilesCoverFrom(bands, height, r, k + 1);
    }
  }

  /** In a tiling, every row of `[0, height)` belongs to exactly one band. */
  lemma TilesCover(bands: seq<Band>, height: int, r: int)
    requires Tiles(bands, height) && 0 <= r < height
    ensures exists k :: 0 <= k < |bands| && bands[k].startRow <= r < bands[k].endRow
    ensures forall i, j ::
              (0 <= i < |bands| && 0 <= j < |bands| && bands[i].startRow <= r < bands[i].endRow
               && bands[j].startRow <= r < bands[j].endRow) ==> i == j
  {
    TilesCoverFrom(bands, height, r, 0);
    forall i, j | 0 <= i < |bands| && 0 <= j < |bands| && bands[i].startRow <= r < bands[i].endRow
              && bands[j].startRow <= r < bands[j].endRow
      ensures i == j
    {
      TilesDisjoint(bands, height, i, j, r);
    }
  }

  /**
    Workers of a tiling write disjoint parts of the shared output buffer, and
    together they cover all of it: every buffer position lies in the rows of
    exactly one band.
   */
  lemma BandWritesPartitionBuffer(s: Shape, bands: seq<Band>, idx: int)
    requires Tiles(bands, s.height) && 0 <= idx < s.Size()
    ensures exists k :: 0 <= k < |bands| && InBand(s, bands[k], idx)
    ensures forall i, j :: 0 <= i < |bands| && 0 <= j < |bands| && InBand(s, bands[i], idx) && InBand(s, bands[j], idx) ==> i == j
  {
    IndexOfCoords(s, idx);
    var r := Row(s, idx);
    TilesCover(bands, s.height, r);
    forall k | 0 <= k < |bands|
      ensures InBand(s, bands[k], idx) <==> bands[k].startRow <= r < bands[k].endRow
    {
      InBandByRow(s, bands[k], idx);
    }
  }
}
