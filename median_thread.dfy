/**
  The threaded median filter: each worker filters the rows of its band with
  a `window_size`-square window clipped at the image border, sorting the
  collected samples with the C library's `qsort` and storing the element at
  index `count / 2`; `parallel_median_filter` hands one band of the
  partition to each worker, all writing the one shared output buffer.
 */
module MedianThread {
  import opened Raster
  import opened Window
  import opened Sorting
  import opened Partitioner
  import opened RankFilter

  /**
    The comparison handed to `qsort`: the difference of the two samples,
    taken after promotion to `int`. Its sign is the order of the samples, and
    it is small enough that the subtraction never overflows.
   */
  function Compare(a: Byte, b: Byte): (r: int)
    ensures -255 <= r <= 255
    ensures r < 0 <==> a < b
    ensures r == 0 <==> a == b
    ensures r > 0 <==> a > b
  {
    a - b
  }

  /**
    `qsort(window, count, 1, compare)`. The C library routine is not part of
    this model; it is stated by its contract: the first `count` samples end
    up in ascending `Compare` order, as a rearrangement of what they were.
   */
  method Qsort(window: array<Byte>, count: nat)
    requires count <= window.Length
    modifies window
    ensures window[..count] == SortAscending(old(window[..count]))
    ensures window[count..] == old(window[count..])
    ensures forall i, j :: 0 <= i < j < count ==> Compare(window[i], window[j]) <= 0
  {
    var sorted := SortAscending(window[..count]);
    SortAscendingSorts(window[..count]);
    forall k | 0 <= k < count {
      window[k] := sorted[k];
    }
    assert window[..count] == sorted;
  }

  /** The buffer size the source allocates for a window: `window_size * window_size`. */
  function WindowArea(windowSize: int): int {
    windowSize * windowSize
  }

  /** Slots for every position of a `(2 * pad + 1)`-square window. */
  function SquareCapacity(pad: nat): nat {
    (2 * pad + 1) * (2 * pad + 1)
  }

  /**
    The buffer size this model allocates: one slot per position of the
    `(2 * pad + 1)`-square the loops visit. For odd sizes it is the source's
    `window_size * window_size`.
   */
  function WindowCapacity(windowSize: nat): (r: nat)
    ensures windowSize % 2 == 1 ==> r == WindowArea(windowSize)
    ensures r >= WindowArea(windowSize)
  {
    var side := 2 * (windowSize / 2) + 1;
    assert side == windowSize || side == windowSize + 1;
    MulMonotone(windowSize, side, windowSize);
    MulMonotone(windowSize, side, side);
    SquareCapacity(windowSize / 2)
  }

  /**
    The corrected buffer holds every window the loops can collect, for odd
    and even `window_size` alike, and is the source's size for odd ones.
   */
  lemma WindowCapacityFits(s: Shape, y: int, x: int, windowSize: nat)
    requires s.InImage(y, x)
    ensures 1 <= WindowCount(s, y, x, windowSize / 2) <= WindowCapacity(windowSize)
    ensures windowSize % 2 == 1 ==> WindowCapacity(windowSize) == WindowArea(windowSize)
  {
    WindowCountBounds(s, y, x, windowSize / 2);
  }

  /**
    For an even `window_size` the loops visit `(window_size + 1)^2`
    positions, because `pad = window_size / 2` on both sides of the centre.
    At a pixel at least `pad` rows and columns away from every border they
    all lie in the image, so the source writes more samples than its
    `window_size * window_size` buffer holds (9 into 4 for `window_size == 2`).
   */
  lemma EvenWindowOverrunsArea(img: seq<Byte>, s: Shape, y: int, x: int, c: int, windowSize: nat)
    requires |img| == s.Size() && 0 <= c < s.channels
    requires windowSize >= 2 && windowSize % 2 == 0
    requires windowSize / 2 <= y < s.height - windowSize / 2 && windowSize / 2 <= x < s.width - windowSize / 2
    ensures |WindowSamples(img, s, y, x, c, windowSize / 2)| == (windowSize + 1) * (windowSize + 1)
    ensures |WindowSamples(img, s, y, x, c, windowSize / 2)| > WindowArea(windowSize)
  {
    WindowSamplesLength(img, s, y, x, c, windowSize / 2);
    assert Span(y - windowSize / 2, y + windowSize / 2 + 1, s.height) == windowSize + 1;
    assert Span(x - windowSize / 2, x + windowSize / 2 + 1, s.width) == windowSize + 1;
    assert (windowSize + 1) * (windowSize + 1) == windowSize * windowSize + 2 * windowSize + 1;
  }

  /**
    One iteration of the channel loop of `apply_median_filter_section`:
    collect the clipped window, sort it, and take element `count / 2`.
   */
  method MedianPixel(input: seq<Byte>, s: Shape, pad: nat, y: int, x: int, c: int, window: array<Byte>)
    returns (m: Byte)
    requires window.Length == SquareCapacity(pad)
    requires |input| == s.Size() && s.InImage(y, x) && 0 <= c < s.channels
    modifies window
    ensures m == MedianAt(input, s, pad, y, x, c)
  {
    WindowCountBounds(s, y, x, pad);
    var count := GatherWindow(input, s, y, x, c, pad, window);
    Qsort(window, count);
    m := window[count / 2];
  }

  /** The channel loop of `apply_median_filter_section` at pixel `(y, x)`: all its channels get their medians. */
  method FilterPixel(input: seq<Byte>, output: array<Byte>, s: Shape, pad: nat, y: int, x: int, window: array<Byte>)
    requires output != window
    requires |input| == s.Size() && output.Length == s.Size()
    requires window.Length == SquareCapacity(pad) && s.InImage(y, x)
    modifies output, window
    ensures output[..] == Splice(old(output[..]), MedianImage(input, s, pad), Index(s, y, x, 0), Index(s, y, x, 0) + s.channels)
  {
    ghost var ref := MedianImage(input, s, pad);
    ghost var out0 := output[..];
    var base := Index(s, y, x, 0);
    SpliceEnds(out0, ref, base, base);
    var c := 0;
    while c < s.channels
      invariant 0 <= c <= s.channels
      invariant output[..] == Splice(out0, ref, base, base + c)
    {
      var m := MedianPixel(input, s, pad, y, x, c, window);
      MedianImageAt(input, s, pad, y, x, c);
      assert Index(s, y, x, c) == base + c;
      SpliceStep(out0, ref, base, base + c);
      output[base + c] := m;
      c := c + 1;
    }
  }

  /** The column loop of `apply_median_filter_section` on row `y`: every sample of the row gets its median. */
  method FilterRow(input: seq<Byte>, output: array<Byte>, s: Shape, pad: nat, y: int, window: array<Byte>)
    requires output != window
    requires |input| == s.Size() && output.Length == s.Size()
    requires window.Length == SquareCapacity(pad) && 0 <= y < s.height
    modifies output, window
    ensures output[..] == Splice(old(output[..]), MedianImage(input, s, pad), y * s.RowLen(), (y + 1) * s.RowLen())
  {
    ghost var ref := MedianImage(input, s, pad);
    ghost var out0 := output[..];
    ghost var lo := y * s.RowLen();
    IndexSteps(s, y, 0);
    SpliceEnds(out0, ref, lo, lo);
    ghost var base := lo;
    var x := 0;
    while x < s.width
      invariant 0 <= x <= s.width && lo <= base == Index(s, y, x, 0)
      invariant output[..] == Splice(out0, ref, lo, base)
    {
      FilterPixel(input, output, s, pad, y, x, window);
      IndexSteps(s, y, x);
      SpliceExtend(out0, ref, lo, base, base + s.channels);
      base := base + s.channels;
      x := x + 1;
    }
    IndexSteps(s, y, x);
  }

  /**
    `apply_median_filter_section`: every sample in the rows of `band` is set
    to the median of its clipped window; nothing outside the band is written.
   */
  method ApplyMedianFilterSection(input: seq<Byte>, output: array<Byte>, s: Shape, windowSize: nat, band: Band)
    requires |input| == s.Size() && output.Length == s.Size()
    requires windowSize >= 1
    requires 0 <= band.startRow <= band.endRow <= s.height
    modifies output
    ensures output[..] == Splice(old(output[..]), MedianImage(input, s, windowSize / 2),
                                 band.startRow * s.RowLen(), band.endRow * s.RowLen())
  {
    var window := new Byte[WindowCapacity(windowSize)];
    var pad := windowSize / 2;
    ghost var ref := MedianImage(input, s, pad);
    ghost var out0 := output[..];
    SpliceEnds(out0, ref, band.startRow * s.RowLen(), band.startRow * s.RowLen());
    var y := band.startRow;
    while y < band.endRow
      invariant band.startRow <= y <= band.endRow
      invariant output[..] == Splice(out0, ref, band.startRow * s.RowLen(), y * s.RowLen())
    {
      MulMonotone(band.startRow, y, s.RowLen());
      FilterRow(input, output, s, pad, y, window);
      SpliceExtend(out0, ref, band.startRow * s.RowLen(), y * s.RowLen(), (y + 1) * s.RowLen());
      y := y + 1;
    }
  }

  /**
    `parallel_median_filter`, with the workers run one after another: since
    the bands tile the image and each worker writes only its own rows and
    only reads `input`, the order does not matter, and the result is the
    single-worker median image.
   */
  method ParallelMedianFilter(input: seq<Byte>, output: array<Byte>, s: Shape, windowSize: nat, numNodes: nat)
    requires |input| == s.Size() && output.Length == s.Size()
    requires windowSize >= 1 && numNodes >= 1
    modifies output
    ensures output[..] == MedianImage(input, s, windowSize / 2)
  {
    var bands := Partition(s.height, numNodes);
    ghost var bs := bands[..];
    ghost var ref := MedianImage(input, s, windowSize / 2);
    ghost var out0 := output[..];
    SpliceEnds(out0, ref, 0, 0);
    var j := 0;
    while j < numNodes
      invariant 0 <= j <= numNodes
      invariant bands[..] == bs
      invariant output[..] == Splice(out0, ref, 0, DoneRows(bs, j) * s.RowLen())
    {
      assert bands[j] == bs[j];
      assert bs[j].startRow == DoneRows(bs, j);
      assert 0 <= bs[j].startRow <= bs[j].endRow <= s.height;
      ApplyMedianFilterSection(input, output, s, windowSize, bands[j]);
      MulMonotone(0, bs[j].startRow, s.RowLen());
      MulMonotone(bs[j].startRow, bs[j].endRow, s.RowLen());
      SpliceExtend(out0, ref, 0, bs[j].startRow * s.RowLen(), bs[j].endRow * s.RowLen());
      j := j + 1;
    }
    assert DoneRows(bs, numNodes) == s.height;
    SpliceEnds(out0, ref, 0, s.Size());
  }
}
