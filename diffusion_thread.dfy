/**
  The threaded diffusion filter. Each worker copies the whole input into a
  private `temp` buffer and then, for `iterations` rounds, recomputes every
  sample of its own band of rows from its four neighbours in `temp`
  (neighbours outside the image count as equal to the centre), writes it to
  the shared `output`, and copies its band of `output` back into `temp`.

  The floating-point update is kept abstract: `cond` is the conductance as a
  function of a neighbour difference (lambda fixed), computed in exact reals,
  and `store` is the conversion of the updated value to a sample.
 */
module DiffusionThread {
  import opened Raster
  import opened Partitioner

  /** The four neighbour differences `deltaN`, `deltaS`, `deltaE`, `deltaW` of one sample. */
  datatype Deltas = Deltas(north: int, south: int, east: int, west: int)

  /** The differences to the in-image neighbours; a missing neighbour gives 0. */
  function NeighbourDeltas(t: seq<Byte>, s: Shape, y: int, x: int, c: int): Deltas
    requires |t| == s.Size() && s.InImage(y, x) && 0 <= c < s.channels
  {
    var centre: int := Sample(t, s, y, x, c);
    Deltas(
      if y > 0 then Sample(t, s, y - 1, x, c) as int - centre else 0,
      if y < s.height - 1 then Sample(t, s, y + 1, x, c) as int - centre else 0,
      if x < s.width - 1 then Sample(t, s, y, x + 1, c) as int - centre else 0,
      if x > 0 then Sample(t, s, y, x - 1, c) as int - centre else 0)
  }

  /** `0.25 * (cN * deltaN + cS * deltaS + cE * deltaE + cW * deltaW)`. */
  function Flux(cond: int -> real, d: Deltas): real {
    0.25 * (cond(d.north) * d.north as real + cond(d.south) * d.south as real
            + cond(d.east) * d.east as real + cond(d.west) * d.west as real)
  }

  /** The new value of channel `c` of pixel `(y, x)` computed from `temp == t`. */
  function DiffusedSample(t: seq<Byte>, s: Shape, y: int, x: int, c: int, cond: int -> real, store: real -> Byte): Byte
    requires |t| == s.Size() && s.InImage(y, x) && 0 <= c < s.channels
  {
    store(Sample(t, s, y, x, c) as real + Flux(cond, NeighbourDeltas(t, s, y, x, c)))
  }

  function DiffusedAtIndex(t: seq<Byte>, s: Shape, i: int, cond: int -> real, store: real -> Byte): Byte
    requires |t| == s.Size() && 0 <= i < |t|
  {
    IndexOfCoords(s, i);
    DiffusedSample(t, s, Row(s, i), Col(s, i), Chan(s, i), cond, store)
  }

  /** The first `n` samples of one diffusion round applied to every pixel of `t`. */
  function DiffusedPrefix(t: seq<Byte>, s: Shape, n: nat, cond: int -> real, store: real -> Byte): (r: seq<Byte>)
    requires |t| == s.Size() && n <= |t|
    ensures |r| == n
  {
    if n == 0 then [] else DiffusedPrefix(t, s, n - 1, cond, store) + [DiffusedAtIndex(t, s, n - 1, cond, store)]
  }

  /** One diffusion round applied to every pixel of `t`. */
  function DiffusedImage(t: seq<Byte>, s: Shape, cond: int -> real, store: real -> Byte): (r: seq<Byte>)
    requires |t| == s.Size()
    ensures |r| == |t|
  {
    DiffusedPrefix(t, s, |t|, cond, store)
  }

  /**
    A worker's `temp` after `k` rounds: each round recomputes the band from
    the previous `temp` and copies it back; the rest of `temp` is never
    refreshed.
   */
  function BandTemp(input: seq<Byte>, s: Shape, band: Band, k: nat, cond: int -> real, store: real -> Byte): (r: seq<Byte>)
    requires |input| == s.Size()
    ensures |r| == |input|
  {
    if k == 0 then input
    else
      var prev := BandTemp(input, s, band, k - 1, cond, store);
      Merge(s, band, DiffusedImage(prev, s, cond, store), prev)
  }

  /** `k` rounds of diffusion of the whole image, each round reading the result of the previous one. */
  function GlobalRounds(input: seq<Byte>, s: Shape, k: nat, cond: int -> real, store: real -> Byte): (r: seq<Byte>)
    requires |input| == s.Size()
    ensures |r| == |input|
  {
    if k == 0 then input else DiffusedImage(GlobalRounds(input, s, k - 1, cond, store), s, cond, store)
  }

  // ---------------------------------------------------------------------------
  // Properties of one round

  lemma {:induction false} DiffusedPrefixAt(t: seq<Byte>, s: Shape, n: nat, i: int, cond: int -> real, store: real -> Byte)
    requires |t| == s.Size() && 0 <= i < n <= |t|
    ensures DiffusedPrefix(t, s, n, cond, store)[i] == DiffusedAtIndex(t, s, i, cond, store)
    decreases n
  {
    if i < n - 1 {
      DiffusedPrefixAt(t, s, n - 1, i, cond, store);
    }
  }

  /** The round's result holds at each pixel's position that pixel's new value. */
  lemma DiffusedImageAt(t: seq<Byte>, s: Shape, y: int, x: int, c: int, cond: int -> real, store: real -> Byte)
    requires |t| == s.Size() && s.InImage(y, x) && 0 <= c < s.channels
    ensures 0 <= Index(s, y, x, c) < |t|
    ensures DiffusedImage(t, s, cond, store)[Index(s, y, x, c)] == DiffusedSample(t, s, y, x, c, cond, store)
  {
    IndexLayout(s, y, x, c);
    CoordsOfIndex(s, y, x, c);
    DiffusedPrefixAt(t, s, |t|, Index(s, y, x, c), cond, store);
  }

  /**
    The guards keep every read of `temp` inside the buffer and on the right
    pixel: each guarded neighbour is in the buffer, an unguarded `up` or
    `down` at the top or bottom row would leave the buffer, and an unguarded
    `left` or `right` at the first or last column would read the far end of
    the adjacent row instead.
   */
  lemma NeighbourReads(s: Shape, y: int, x: int, c: int)
    requires s.InImage(y, x) && 0 <= c < s.channels
    ensures y > 0 ==> 0 <= Index(s, y - 1, x, c) < s.Size()
    ensures y < s.height - 1 ==> 0 <= Index(s, y + 1, x, c) < s.Size()
    ensures x < s.width - 1 ==> 0 <= Index(s, y, x + 1, c) < s.Size()
    ensures x > 0 ==> 0 <= Index(s, y, x - 1, c) < s.Size()
    ensures y == 0 ==> Index(s, y - 1, x, c) < 0
    ensures y == s.height - 1 ==> Index(s, y + 1, x, c) >= s.Size()
    ensures x == 0 && y > 0 ==> Index(s, y, x - 1, c) == Index(s, y - 1, s.width - 1, c)
    ensures x == s.width - 1 && y < s.height - 1 ==> Index(s, y, x + 1, c) == Index(s, y + 1, 0, c)
  {
    if y > 0 {
      IndexLayout(s, y - 1, x, c);
    }
    if y < s.height - 1 {
      IndexLayout(s, y + 1, x, c);
    }
    if x < s.width - 1 {
      IndexLayout(s, y, x + 1, c);
    }
    if x > 0 {
      IndexLayout(s, y, x - 1, c);
    }
    if y == 0 {
      RowEdges(s, y, x, c);
    }
    if y == s.height - 1 {
      RowEdges(s, y, x, c);
    }
    if x == 0 && y > 0 {
      ColumnWraps(s, y, x, c);
    }
    if x == s.width - 1 && y < s.height - 1 {
      ColumnWraps(s, y, x, c);
    }
  }

  /** A row step from the top row leaves the buffer below, one from the bottom row leaves it above. */
  lemma RowEdges(s: Shape, y: int, x: int, c: int)
    requires s.InImage(y, x) && 0 <= c < s.channels
    ensures y == 0 ==> Index(s, y - 1, x, c) < 0
    ensures y == s.height - 1 ==> Index(s, y + 1, x, c) >= s.Size()
  {
    var len := s.RowLen();
    IndexLayout(s, y, x, c);
    IndexShift(s, y, x, c, -1, 0);
    IndexShift(s, y, x, c, 1, 0);
    if y == s.height - 1 {
      assert s.Size() == y * len + len;
    }
  }

  /** A column step past the first or last column lands on the far end of the adjacent row. */
  lemma ColumnWraps(s: Shape, y: int, x: int, c: int)
    requires s.InImage(y, x) && 0 <= c < s.channels
    ensures x == 0 ==> Index(s, y, x - 1, c) == Index(s, y - 1, s.width - 1, c)
    ensures x == s.width - 1 ==> Index(s, y, x + 1, c) == Index(s, y + 1, 0, c)
  {
    if x == 0 {
      assert (y - 1) * s.width + (s.width - 1) == y * s.width + (x - 1);
    }
    if x == s.width - 1 {
      assert (y + 1) * s.width + 0 == y * s.width + (x + 1);
    }
  }

  /**
    A sample equal to all its in-image neighbours has four zero differences,
    so the flux is 0 whatever the conductance, and the update stores the
    sample's own value.
   */
  lemma FlatNeighbourhoodZeroFlux(t: seq<Byte>, s: Shape, y: int, x: int, c: int, cond: int -> real, store: real -> Byte)
    requires |t| == s.Size() && s.InImage(y, x) && 0 <= c < s.channels
    requires y > 0 ==> Sample(t, s, y - 1, x, c) == Sample(t, s, y, x, c)
    requires y < s.height - 1 ==> Sample(t, s, y + 1, x, c) == Sample(t, s, y, x, c)
    requires x < s.width - 1 ==> Sample(t, s, y, x + 1, c) == Sample(t, s, y, x, c)
    requires x > 0 ==> Sample(t, s, y, x - 1, c) == Sample(t, s, y, x, c)
    ensures NeighbourDeltas(t, s, y, x, c) == Deltas(0, 0, 0, 0)
    ensures Flux(cond, NeighbourDeltas(t, s, y, x, c)) == 0.0
    ensures DiffusedSample(t, s, y, x, c, cond, store) == store(Sample(t, s, y, x, c) as real)
  {
  }

  /** On a constant image whose value the conversion stores unchanged, a round changes nothing. */
  lemma ConstantImageFixed(t: seq<Byte>, s: Shape, v: Byte, cond: int -> real, store: real -> Byte)
    requires |t| == s.Size() && forall i :: 0 <= i < |t| ==> t[i] == v
    requires store(v as real) == v
    ensures DiffusedImage(t, s, cond, store) == t
  {
    forall i | 0 <= i < |t|
      ensures DiffusedImage(t, s, cond, store)[i] == t[i]
    {
      IndexOfCoords(s, i);
      var y, x, c := Row(s, i), Col(s, i), Chan(s, i);
      DiffusedImageAt(t, s, y, x, c, cond, store);
      NeighbourReads(s, y, x, c);
      FlatNeighbourhoodZeroFlux(t, s, y, x, c, cond, store);
    }
  }

  // ---------------------------------------------------------------------------
  // Properties of a worker's rounds

  /** Outside its band a worker's `temp` still holds the original input after any number of rounds. */
  lemma {:induction false} StaleOutsideBand(input: seq<Byte>, s: Shape, band: Band, k: nat, cond: int -> real, store: real -> Byte, i: int)
    requires |input| == s.Size() && 0 <= i < |input| && !InBand(s, band, i)
    ensures BandTemp(input, s, band, k, cond, store)[i] == input[i]
  {
    if k > 0 {
      StaleOutsideBand(input, s, band, k - 1, cond, store, i);
    }
  }

  /** A worker alone on the whole image (one band, rows `[0, height)`) performs the global rounds. */
  lemma {:induction false} WholeImageBandIsGlobal(input: seq<Byte>, s: Shape, k: nat, cond: int -> real, store: real -> Byte)
    requires |input| == s.Size()
    ensures BandTemp(input, s, Band(0, s.height), k, cond, store) == GlobalRounds(input, s, k, cond, store)
  {
    if k > 0 {
      WholeImageBandIsGlobal(input, s, k - 1, cond, store);
      var prev := GlobalRounds(input, s, k - 1, cond, store);
      forall i | 0 <= i < |input|
        ensures InBand(s, Band(0, s.height), i)
      {
      }
      assert Merge(s, Band(0, s.height), DiffusedImage(prev, s, cond, store), prev) == DiffusedImage(prev, s, cond, store);
    }
  }

  /** In the first round every worker reads the untouched input, so its band agrees with the global round. */
  lemma FirstRoundAgrees(input: seq<Byte>, s: Shape, band: Band, cond: int -> real, store: real -> Byte, i: int)
    requires |input| == s.Size() && 0 <= i < |input| && InBand(s, band, i)
    ensures BandTemp(input, s, band, 1, cond, store)[i] == GlobalRounds(input, s, 1, cond, store)[i]
  {
  }

  /** On a constant image every worker's `temp` stays that image, round after round. */
  lemma {:induction false} ConstantImageStaysFixed(input: seq<Byte>, s: Shape, band: Band, k: nat, v: Byte, cond: int -> real, store: real -> Byte)
    requires |input| == s.Size() && forall i :: 0 <= i < |input| ==> input[i] == v
    requires store(v as real) == v
    ensures BandTemp(input, s, band, k, cond, store) == input
  {
    if k > 0 {
      ConstantImageStaysFixed(input, s, band, k - 1, v, cond, store);
      ConstantImageFixed(input, s, v, cond, store);
      assert Merge(s, band, input, input) == input;
    }
  }

  // ---------------------------------------------------------------------------
  // The worker as written

  /** The channel loop of one round at pixel `(y, x)`: read `temp`, write `output`. */
  method DiffusePixel(temp: array<Byte>, output: array<Byte>, s: Shape, y: int, x: int, cond: int -> real, store: real -> Byte)
    requires temp != output
    requires temp.Length == s.Size() && output.Length == s.Size() && s.InImage(y, x)
    modifies output
    ensures output[..] == Splice(old(output[..]), DiffusedImage(temp[..], s, cond, store), Index(s, y, x, 0), Index(s, y, x, 0) + s.channels)
  {
    ghost var ref := DiffusedImage(temp[..], s, cond, store);
    ghost var out0 := output[..];
    var base := Index(s, y, x, 0);
    SpliceEnds(out0, ref, base, base);
    var c := 0;
    while c < s.channels
      invariant 0 <= c <= s.channels
      invariant output[..] == Splice(out0, ref, base, base + c)
    {
      var v := DiffuseSample(temp, s, y, x, c, cond, store);
      DiffusedImageAt(temp[..], s, y, x, c, cond, store);
      assert Index(s, y, x, c) == base + c;
      SpliceStep(out0, ref, base, base + c);
      output[base + c] := v;
      c := c + 1;
    }
  }

  /** The neighbour differences read straight from the buffer positions the worker computes. */
  lemma DeltasByIndex(t: seq<Byte>, s: Shape, y: int, x: int, c: int)
    requires |t| == s.Size() && s.InImage(y, x) && 0 <= c < s.channels
    ensures 0 <= Index(s, y, x, c) < |t|
    ensures y > 0 ==> 0 <= Index(s, y - 1, x, c) < |t|
    ensures y < s.height - 1 ==> 0 <= Index(s, y + 1, x, c) < |t|
    ensures x < s.width - 1 ==> 0 <= Index(s, y, x + 1, c) < |t|
    ensures x > 0 ==> 0 <= Index(s, y, x - 1, c) < |t|
    ensures NeighbourDeltas(t, s, y, x, c) == Deltas(
              if y > 0 then t[Index(s, y - 1, x, c)] as int - t[Index(s, y, x, c)] as int else 0,
              if y < s.height - 1 then t[Index(s, y + 1, x, c)] as int - t[Index(s, y, x, c)] as int else 0,
              if x < s.width - 1 then t[Index(s, y, x + 1, c)] as int - t[Index(s, y, x, c)] as int else 0,
              if x > 0 then t[Index(s, y, x - 1, c)] as int - t[Index(s, y, x, c)] as int else 0)
  {
    assert 0 <= Index(s, y, x, c) < |t| by {
      IndexLayout(s, y, x, c);
    }
    assert y > 0 ==> 0 <= Index(s, y - 1, x, c) < |t| by {
      if y > 0 {
        IndexLayout(s, y - 1, x, c);
      }
    }
    assert y < s.height - 1 ==> 0 <= Index(s, y + 1, x, c) < |t| by {
      if y < s.height - 1 {
        IndexLayout(s, y + 1, x, c);
      }
    }
    assert x < s.width - 1 ==> 0 <= Index(s, y, x + 1, c) < |t| by {
      if x < s.width - 1 {
        IndexLayout(s, y, x + 1, c);
      }
    }
    assert x > 0 ==> 0 <= Index(s, y, x - 1, c) < |t| by {
      if x > 0 {
        IndexLayout(s, y, x - 1, c);
      }
    }
  }

  /** The body of the channel loop: the guarded neighbour reads and the update of one sample. */
  method DiffuseSample(temp: array<Byte>, s: Shape, y: int, x: int, c: int, cond: int -> real, store: real -> Byte)
    returns (v: Byte)
    requires temp.Length == s.Size() && s.InImage(y, x) && 0 <= c < s.channels
    ensures v == DiffusedSample(temp[..], s, y, x, c, cond, store)
  {
    ghost var t := temp[..];
    var idx := (y * s.width + x) * s.channels + c;
    var up := ((y - 1) * s.width + x) * s.channels + c;
    var down := ((y + 1) * s.width + x) * s.channels + c;
    var left := (y * s.width + (x - 1)) * s.channels + c;
    var right := (y * s.width + (x + 1)) * s.channels + c;
    DeltasByIndex(t, s, y, x, c);
    var deltaN: int := 0;
    if y > 0 {
      deltaN := temp[up] as int - temp[idx] as int;
    }
    var deltaS: int := 0;
    if y < s.height - 1 {
      deltaS := temp[down] as int - temp[idx] as int;
    }
    var deltaE: int := 0;
    if x < s.width - 1 {
      deltaE := temp[right] as int - temp[idx] as int;
    }
    var deltaW: int := 0;
    if x > 0 {
      deltaW := temp[left] as int - temp[idx] as int;
    }
    assert Deltas(deltaN, deltaS, deltaE, deltaW) == NeighbourDeltas(t, s, y, x, c);
    assert temp[idx] == Sample(t, s, y, x, c);
    var flux := Flux(cond, Deltas(deltaN, deltaS, deltaE, deltaW));
    v := store(temp[idx] as real + flux);
  }

  /** The column loop of one round on row `y`. */
  method DiffuseRow(temp: array<Byte>, output: array<Byte>, s: Shape, y: int, cond: int -> real, store: real -> Byte)
    requires temp != output
    requires temp.Length == s.Size() && output.Length == s.Size() && 0 <= y < s.height
    modifies output
    ensures output[..] == Splice(old(output[..]), DiffusedImage(temp[..], s, cond, store), y * s.RowLen(), (y + 1) * s.RowLen())
  {
    ghost var ref := DiffusedImage(temp[..], s, cond, store);
    ghost var out0 := output[..];
    ghost var lo := y * s.RowLen();
    IndexSteps(s, y, 0);
    SpliceEnds(out0, ref, lo, lo);
    ghost var base := lo;
    var x := 0;
    while x < s.width
      invariant 0 <= x <= s.width && lo <= base == Index(s, y, x, 0)
      invariant output[..] == Splice(out0, ref, lo, base)
    {
      DiffusePixel(temp, output, s, y, x, cond, store);
      IndexSteps(s, y, x);
      SpliceExtend(out0, ref, lo, base, base + s.channels);
      base := base + s.channels;
      x := x + 1;
    }
    IndexSteps(s, y, x);
  }

  /** One round over the rows of `band`: they get their new values from `temp`; no other sample is written. */
  method DiffuseBand(temp: array<Byte>, output: array<Byte>, s: Shape, band: Band, cond: int -> real, store: real -> Byte)
    requires temp != output
    requires temp.Length == s.Size() && output.Length == s.Size()
    requires 0 <= band.startRow <= band.endRow <= s.height
    modifies output
    ensures output[..] == Merge(s, band, DiffusedImage(temp[..], s, cond, store), old(output[..]))
  {
    ghost var ref := DiffusedImage(temp[..], s, cond, store);
    ghost var out0 := output[..];
    ghost var start := band.startRow * s.RowLen();
    SpliceEnds(out0, ref, start, start);
    ghost var done := start;
    var y := band.startRow;
    while y < band.endRow
      invariant band.startRow <= y <= band.endRow && start <= done == y * s.RowLen()
      invariant output[..] == Splice(out0, ref, start, done)
    {
      DiffuseRow(temp, output, s, y, cond, store);
      assert (y + 1) * s.RowLen() == done + s.RowLen();
      SpliceExtend(out0, ref, start, done, done + s.RowLen());
      done := done + s.RowLen();
      y := y + 1;
    }
  }

  /**
    The refresh at the end of an iteration: the worker copies its band's rows
    of `output` into `temp` and keeps the rest of `temp`.
   */
  method CopyBand(temp: array<Byte>, output: array<Byte>, s: Shape, band: Band)
    requires temp != output
    requires temp.Length == s.Size() && output.Length == s.Size()
    requires 0 <= band.startRow <= band.endRow <= s.height
    modifies temp
    ensures temp[..] == Merge(s, band, output[..], old(temp[..]))
  {
    ghost var t0 := temp[..];
    BandBounds(s, band);
    var lo := band.startRow * s.width * s.channels;
    var hi := band.endRow * s.width * s.channels;
    SpliceEnds(t0, output[..], lo, lo);
    var i := lo;
    while i < hi
      invariant lo <= i <= hi
      invariant temp[..] == Splice(t0, output[..], lo, i)
    {
      SpliceStep(t0, output[..], lo, i);
      temp[i] := output[i];
      i := i + 1;
    }
  }

  /** `malloc` and `memcpy` of the worker's private `temp`: a fresh copy of the whole input. */
  method CopyImage(input: seq<Byte>) returns (temp: array<Byte>)
    ensures fresh(temp) && temp[..] == input
  {
    temp := new Byte[|input|];
    forall k | 0 <= k < |input| {
      temp[k] := input[k];
    }
  }

  /**
    `apply_ddf_section`: with no rounds `output` is untouched; otherwise its
    band rows hold the worker's `temp` after `iterations` rounds and all
    other rows are untouched. `input` is only read.
   */
  method ApplyDdfSection(input: seq<Byte>, output: array<Byte>, s: Shape, band: Band, iterations: int,
                         cond: int -> real, store: real -> Byte)
    requires |input| == s.Size() && output.Length == s.Size()
    requires 0 <= band.startRow <= band.endRow <= s.height
    modifies output
    ensures iterations <= 0 ==> output[..] == old(output[..])
    ensures iterations >= 1 ==>
              output[..] == Merge(s, band, BandTemp(input, s, band, iterations, cond, store), old(output[..]))
  {
    var temp := CopyImage(input);
    ghost var out0 := output[..];
    var iter := 0;
    while iter < iterations
      invariant 0 <= iter && temp[..] == BandTemp(input, s, band, iter, cond, store)
      invariant iter == 0 ==> output[..] == out0
      invariant iter > 0 ==> iter <= iterations && output[..] == Merge(s, band, temp[..], out0)
    {
      WorkerRound(temp, output, s, band, cond, store, input, iter, out0);
      iter := iter + 1;
    }
  }

  /**
    Round `k + 1` of a worker, as the `iter` loop's invariant sees it: `temp`
    moves on to `BandTemp(input, k + 1)` and the band of `output` holds it.
   */
  method WorkerRound(temp: array<Byte>, output: array<Byte>, s: Shape, band: Band, cond: int -> real, store: real -> Byte,
                     ghost input: seq<Byte>, ghost k: nat, ghost out0: seq<Byte>)
    requires temp != output
    requires temp.Length == s.Size() && output.Length == s.Size() && |input| == s.Size() && |out0| == s.Size()
    requires 0 <= band.startRow <= band.endRow <= s.height
    requires temp[..] == BandTemp(input, s, band, k, cond, store)
    requires k == 0 ==> output[..] == out0
    requires k > 0 ==> output[..] == Merge(s, band, temp[..], out0)
    modifies temp, output
    ensures temp[..] == BandTemp(input, s, band, k + 1, cond, store)
    ensures output[..] == Merge(s, band, temp[..], out0)
  {
    ghost var tempPrev := temp[..];
    DiffuseRound(temp, output, s, band, cond, store);
    if k > 0 {
      MergeOver(s, band, temp[..], tempPrev, out0);
    }
  }

  /** One pass of the `iter` loop: recompute the band from `temp`, then copy it back into `temp`. */
  method DiffuseRound(temp: array<Byte>, output: array<Byte>, s: Shape, band: Band, cond: int -> real, store: real -> Byte)
    requires temp != output
    requires temp.Length == s.Size() && output.Length == s.Size()
    requires 0 <= band.startRow <= band.endRow <= s.height
    modifies temp, output
    ensures temp[..] == Merge(s, band, DiffusedImage(old(temp[..]), s, cond, store), old(temp[..]))
    ensures output[..] == Merge(s, band, temp[..], old(output[..]))
  {
    ghost var t0 := temp[..];
    ghost var o0 := output[..];
    DiffuseBand(temp, output, s, band, cond, store);
    assert output[..] == Merge(s, band, DiffusedImage(t0, s, cond, store), o0);
    CopyBand(temp, output, s, band);
  }

  /** Writing a band over a buffer whose band was already overwritten leaves only the last write on the band. */
  lemma MergeOver(s: Shape, band: Band, a: seq<Byte>, b: seq<Byte>, c: seq<Byte>)
    requires |a| == |b| == |c|
    ensures Merge(s, band, a, Merge(s, band, b, c)) == Merge(s, band, a, c)
  {
  }

  /**
    `parallel_ddf_filter`, with the workers run one after another: each worker
    reads only the shared `input` and its private `temp` and writes only its
    own band, so the order does not matter. Every band's rows end up as that
    worker's `temp` after `iterations` rounds.
   */
  method ParallelDdfFilter(input: seq<Byte>, output: array<Byte>, s: Shape, iterations: int, numNodes: nat,
                           cond: int -> real, store: real -> Byte)
    requires |input| == s.Size() && output.Length == s.Size() && numNodes >= 1
    modifies output
    ensures iterations <= 0 ==> output[..] == old(output[..])
    ensures iterations >= 1 ==>
              forall j, i :: 0 <= j < numNodes && 0 <= i < output.Length && InBand(s, BandOf(s.height, numNodes, j), i) ==>
                output[i] == BandTemp(input, s, BandOf(s.height, numNodes, j), iterations, cond, store)[i]
  {
    var bands := Partition(s.height, numNodes);
    ghost var bs := bands[..];
    ghost var out0 := output[..];
    var j := 0;
    while j < numNodes
      invariant 0 <= j <= numNodes
      invariant bands[..] == bs
      invariant iterations <= 0 ==> output[..] == out0
      invariant iterations >= 1 ==> forall k :: 0 <= k < j ==> WorkerWrote(s, output[..], input, bs[k], iterations, cond, store)
    {
      assert bands[j] == bs[j];
      assert 0 <= bs[j].startRow <= bs[j].endRow <= s.height;
      ghost var before := output[..];
      ApplyDdfSection(input, output, s, bands[j], iterations, cond, store);
      if iterations >= 1 {
        forall k | 0 <= k < j + 1
          ensures WorkerWrote(s, output[..], input, bs[k], iterations, cond, store)
        {
          if k < j {
            LaterWorkerKeeps(s, bs, k, j, input, before, iterations, cond, store);
          }
        }
      }
      j := j + 1;
    }
    assert forall k :: 0 <= k < numNodes ==> bs[k] == BandOf(s.height, numNodes, k);
  }

  /** Every sample in the rows of `band` holds that worker's `temp` after `iterations` rounds. */
  ghost predicate WorkerWrote(s: Shape, out: seq<Byte>, img: seq<Byte>, band: Band, iterations: nat,
                              cond: int -> real, store: real -> Byte)
    requires |out| == |img| == s.Size()
  {
    forall i :: 0 <= i < |out| && InBand(s, band, i) ==> out[i] == BandTemp(img, s, band, iterations, cond, store)[i]
  }

  /** A later worker of a tiling writes only its own rows, so what an earlier worker wrote survives. */
  lemma LaterWorkerKeeps(s: Shape, bands: seq<Band>, k: int, j: int, img: seq<Byte>, before: seq<Byte>, iterations: nat,
                         cond: int -> real, store: real -> Byte)
    requires Tiles(bands, s.height) && 0 <= k < j < |bands|
    requires |before| == |img| == s.Size()
    requires WorkerWrote(s, before, img, bands[k], iterations, cond, store)
    ensures WorkerWrote(s, Merge(s, bands[j], BandTemp(img, s, bands[j], iterations, cond, store), before), img, bands[k],
                        iterations, cond, store)
  {
    TilesOrdered(bands, s.height, k, j);
    MulMonotone(bands[k].endRow, bands[j].startRow, s.RowLen());
  }

  // ---------------------------------------------------------------------------
  // The workers synchronised after every round

  /**
    The rounds the workers evidently mean to perform together: in each round
    every band is recomputed from the same `temp`, and only after all bands
    are written is the whole `output` copied back into `temp`. The result is
    the global diffusion for any tiling.
   */
  method DiffuseSynchronized(input: seq<Byte>, output: array<Byte>, s: Shape, bands: seq<Band>, iterations: int,
                             cond: int -> real, store: real -> Byte)
    requires |input| == s.Size() && output.Length == s.Size()
    requires Tiles(bands, s.height)
    modifies output
    ensures iterations <= 0 ==> output[..] == old(output[..])
    ensures iterations >= 1 ==> output[..] == GlobalRounds(input, s, iterations, cond, store)
  {
    var temp := CopyImage(input);
    var iter := 0;
    while iter < iterations
      invariant 0 <= iter && temp[..] == GlobalRounds(input, s, iter, cond, store)
      invariant iter == 0 ==> output[..] == old(output[..])
      invariant iter > 0 ==> iter <= iterations && output[..] == temp[..]
    {
      SynchronizedRound(temp, output, s, bands, cond, store);
      iter := iter + 1;
    }
  }

  /** One synchronised round: every band of the tiling is recomputed from the same `temp`. */
  method DiffuseAllBands(temp: array<Byte>, output: array<Byte>, s: Shape, bands: seq<Band>,
                         cond: int -> real, store: real -> Byte)
    requires temp != output
    requires temp.Length == s.Size() && output.Length == s.Size()
    requires Tiles(bands, s.height)
    modifies output
    ensures output[..] == DiffusedImage(temp[..], s, cond, store)
  {
    ghost var next := DiffusedImage(temp[..], s, cond, store);
    ghost var out0 := output[..];
    SpliceEnds(out0, next, 0, 0);
    var j := 0;
    while j < |bands|
      invariant 0 <= j <= |bands|
      invariant output[..] == Splice(out0, next, 0, DoneRows(bands, j) * s.RowLen())
    {
      assert bands[j].startRow == DoneRows(bands, j);
      DiffuseBand(temp, output, s, bands[j], cond, store);
      MulMonotone(0, bands[j].startRow, s.RowLen());
      MulMonotone(bands[j].startRow, bands[j].endRow, s.RowLen());
      SpliceExtend(out0, next, 0, bands[j].startRow * s.RowLen(), bands[j].endRow * s.RowLen());
      j := j + 1;
    }
    SpliceEnds(out0, next, 0, s.Size());
  }

  /** One round followed by the barrier's refresh: `output` and `temp` both hold the round's result. */
  method SynchronizedRound(temp: array<Byte>, output: array<Byte>, s: Shape, bands: seq<Band>,
                           cond: int -> real, store: real -> Byte)
    requires temp != output
    requires temp.Length == s.Size() && output.Length == s.Size()
    requires Tiles(bands, s.height)
    modifies temp, output
    ensures output[..] == DiffusedImage(old(temp[..]), s, cond, store)
    ensures temp[..] == output[..]
  {
    DiffuseAllBands(temp, output, s, bands, cond, store);
    RefreshAll(temp, output);
  }

  /** The barrier's refresh: all of `output` is copied into `temp`. */
  method RefreshAll(temp: array<Byte>, output: array<Byte>)
    requires temp != output && temp.Length == output.Length
    modifies temp
    ensures temp[..] == output[..]
  {
    forall k | 0 <= k < temp.Length {
      temp[k] := output[k];
    }
  }

  // ---------------------------------------------------------------------------
  // Where the unsynchronised workers differ from the global rounds

  /** Conversion of the updated value to a sample by truncation toward zero, in range. */
  function Truncate(v: real): Byte {
    if v < 0.0 then 0 else if v >= 255.0 then 255 else v.Floor
  }

  /** One round on a one-pixel-wide, two-row, one-channel image `t`: each row sees only the other one. */
  lemma TwoRowRound(t: seq<Byte>, cond: int -> real, store: real -> Byte)
    requires |t| == 2
    ensures DiffusedImage(t, Shape(1, 2, 1), cond, store)
            == [store(t[0] as real + Flux(cond, Deltas(0, t[1] as int - t[0] as int, 0, 0))),
                store(t[1] as real + Flux(cond, Deltas(t[0] as int - t[1] as int, 0, 0, 0)))]
  {
    var s := Shape(1, 2, 1);
    assert s.RowLen() == 1 && s.Size() == 2;
    assert Sample(t, s, 0, 0, 0) == t[0] && Sample(t, s, 1, 0, 0) == t[1];
    assert NeighbourDeltas(t, s, 0, 0, 0) == Deltas(0, t[1] as int - t[0] as int, 0, 0);
    assert NeighbourDeltas(t, s, 1, 0, 0) == Deltas(t[0] as int - t[1] as int, 0, 0, 0);
    DiffusedImageAt(t, s, 0, 0, 0, cond, store);
    DiffusedImageAt(t, s, 1, 0, 0, cond, store);
    assert Index(s, 0, 0, 0) == 0 && Index(s, 1, 0, 0) == 1;
  }

  /** With unit conductance the flux is a quarter of the sum of the differences. */
  lemma UnitFlux(d: Deltas)
    ensures Flux((e: int) => 1.0, d) == 0.25 * (d.north + d.south + d.east + d.west) as real
  {
  }

  /** The two workers' bands of a two-row image. */
  lemma TwoBands()
    ensures Bands(2, 2) == [Band(0, 1), Band(1, 2)]
  {
    assert BandOf(2, 2, 0) == Band(0, 1);
    assert BandOf(2, 2, 1) == Band(1, 2);
  }

  /** The first global round on `t == [0, 100]` with unit conductance and truncation. */
  lemma FirstRoundOfExample(t: seq<Byte>)
    requires t == [0, 100]
    ensures DiffusedImage(t, Shape(1, 2, 1), (d: int) => 1.0, Truncate) == [25, 75]
  {
    var one := (d: int) => 1.0;
    var down, up := Deltas(0, 100, 0, 0), Deltas(-100, 0, 0, 0);
    TwoRowRound(t, one, Truncate);
    assert Flux(one, down) == 25.0 by {
      UnitFlux(down);
    }
    assert Flux(one, up) == -25.0 by {
      UnitFlux(up);
    }
    assert Truncate(0.0 + 25.0) == 25 && Truncate(100.0 - 25.0) == 75;
  }

  /** On a two-row, one-sample-per-row image, merging over band `[0, 1)` takes row 0 from `a` and row 1 from `b`. */
  lemma MergeTopRow(a: seq<Byte>, b: seq<Byte>)
    requires |a| == |b| == 2
    ensures Merge(Shape(1, 2, 1), Band(0, 1), a, b) == [a[0], b[1]]
  {
    var s := Shape(1, 2, 1);
    assert s.RowLen() == 1;
    assert InBand(s, Band(0, 1), 0) && !InBand(s, Band(0, 1), 1);
  }

  /** Worker 0's `temp` after one round on `t == [0, 100]`: its own row is updated, row 1 is stale. */
  lemma WorkerZeroAfterOneRound(t: seq<Byte>)
    requires t == [0, 100]
    ensures BandTemp(t, Shape(1, 2, 1), Band(0, 1), 1, (d: int) => 1.0, Truncate) == [25, 100]
  {
    var s := Shape(1, 2, 1);
    var one := (d: int) => 1.0;
    var g := DiffusedImage(t, s, one, Truncate);
    FirstRoundOfExample(t);
    assert BandTemp(t, s, Band(0, 1), 1, one, Truncate) == Merge(s, Band(0, 1), g, t);
    MergeTopRow(g, t);
  }

  /**
    A 1-pixel-wide, 2-row, 1-channel image `t == [0, 100]` split between two
    workers, with a conductance of 1 (the limit of a large lambda) and
    truncating conversion: after two rounds worker 0 writes 43, because its
    `temp` still holds 100 for the neighbour row that worker 1 has already
    lowered to 75; the global rounds give 37.
   */
  lemma StaleBandDiverges(t: seq<Byte>)
    requires t == [0, 100]
    ensures var s := Shape(1, 2, 1);
            var one := (d: int) => 1.0;
            && Bands(s.height, 2) == [Band(0, 1), Band(1, 2)]
            && BandTemp(t, s, Band(0, 1), 2, one, Truncate)[0] == 43
            && GlobalRounds(t, s, 2, one, Truncate)[0] == 37
  {
    var s := Shape(1, 2, 1);
    var one := (d: int) => 1.0;
    TwoBands();
    var g1 := GlobalRounds(t, s, 1, one, Truncate);
    assert g1 == [25, 75] by {
      assert GlobalRounds(t, s, 0, one, Truncate) == t;
      FirstRoundOfExample(t);
    }
    assert DiffusedImage(g1, s, one, Truncate)[0] == 37 by {
      TwoRowRound(g1, one, Truncate);
      UnitFlux(Deltas(0, 50, 0, 0));
      assert Truncate(25.0 + 12.5) == 37;
    }
    var w1 := BandTemp(t, s, Band(0, 1), 1, one, Truncate);
    assert w1 == [25, 100] by {
      WorkerZeroAfterOneRound(t);
    }
    assert DiffusedImage(w1, s, one, Truncate)[0] == 43 by {
      TwoRowRound(w1, one, Truncate);
      UnitFlux(Deltas(0, 75, 0, 0));
      assert Truncate(25.0 + 18.75) == 43;
    }
    assert BandTemp(t, s, Band(0, 1), 2, one, Truncate) == Merge(s, Band(0, 1), DiffusedImage(w1, s, one, Truncate), w1);
    MergeTopRow(DiffusedImage(w1, s, one, Truncate), w1);
  }
}
