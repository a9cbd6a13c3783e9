/**
  The clipped neighbourhood window of the median and Laplacian kernels: for
  pixel `(y, x)` and channel `c`, the samples of the pixels `(y + ky, x + kx)`
  with `-pad <= ky, kx <= pad` that lie inside the image, in the order of the
  `ky`-outer, `kx`-inner loops that collect them. Out-of-image positions are
  skipped, not padded.
 */
module Window {
  import opened Raster

  /** Number of integers of `[lo, hi)` that also lie in `[0, n)`. */
  function Span(lo: int, hi: int, n: int): nat {
    var a := if lo < 0 then 0 else lo;
    var b := if hi < n then hi else n;
    if a < b then b - a else 0
  }

  /** In-image samples of channel `c` on row `ny`, columns `lo .. hi - 1`, left to right. */
  function RowSamples(img: seq<Byte>, s: Shape, c: int, ny: int, lo: int, hi: int): seq<Byte>
    requires |img| == s.Size() && 0 <= c < s.channels
    decreases hi - lo
  {
    if hi <= lo then []
    else
      RowSamples(img, s, c, ny, lo, hi - 1)
      + (if s.InImage(ny, hi - 1) then [Sample(img, s, ny, hi - 1, c)] else [])
  }

  /** In-image samples of rows `ylo .. yhi - 1`, columns `xlo .. xhi - 1`, row by row. */
  function BlockSamples(img: seq<Byte>, s: Shape, c: int, ylo: int, yhi: int, xlo: int, xhi: int): seq<Byte>
    requires |img| == s.Size() && 0 <= c < s.channels
    decreases yhi - ylo
  {
    if yhi <= ylo then []
    else BlockSamples(img, s, c, ylo, yhi - 1, xlo, xhi) + RowSamples(img, s, c, yhi - 1, xlo, xhi)
  }

  /** The samples a `(2 * pad + 1)`-square window centred on `(y, x)` collects. */
  function WindowSamples(img: seq<Byte>, s: Shape, y: int, x: int, c: int, pad: nat): seq<Byte>
    requires |img| == s.Size() && 0 <= c < s.channels
  {
    BlockSamples(img, s, c, y - pad, y + pad + 1, x - pad, x + pad + 1)
  }

  /** Number of in-image positions of that window. */
  function WindowCount(s: Shape, y: int, x: int, pad: nat): nat {
    Span(y - pad, y + pad + 1, s.height) * Span(x - pad, x + pad + 1, s.width)
  }

  /** All in-image samples of channel `c` in the given rectangle equal `v`. */
  ghost predicate ConstantOn(img: seq<Byte>, s: Shape, c: int, ylo: int, yhi: int, xlo: int, xhi: int, v: Byte)
    requires |img| == s.Size() && 0 <= c < s.channels
  {
    forall ny, nx :: ylo <= ny < yhi && xlo <= nx < xhi && s.InImage(ny, nx) ==> Sample(img, s, ny, nx, c) == v
  }

  // ---------------------------------------------------------------------------
  // How many samples a window holds

  lemma {:induction false} RowSamplesLength(img: seq<Byte>, s: Shape, c: int, ny: int, lo: int, hi: int)
    requires |img| == s.Size() && 0 <= c < s.channels
    ensures |RowSamples(img, s, c, ny, lo, hi)| == if 0 <= ny < s.height then Span(lo, hi, s.width) else 0
    decreases hi - lo
  {
    if lo < hi {
      RowSamplesLength(img, s, c, ny, lo, hi - 1);
    }
  }

  lemma {:induction false} BlockSamplesLength(img: seq<Byte>, s: Shape, c: int, ylo: int, yhi: int, xlo: int, xhi: int)
    requires |img| == s.Size() && 0 <= c < s.channels
    ensures |BlockSamples(img, s, c, ylo, yhi, xlo, xhi)| == Span(ylo, yhi, s.height) * Span(xlo, xhi, s.width)
    decreases yhi - ylo
  {
    if ylo < yhi {
      BlockSamplesLength(img, s, c, ylo, yhi - 1, xlo, xhi);
      RowSamplesLength(img, s, c, yhi - 1, xlo, xhi);
      SpanStep(ylo, yhi, s.height, Span(xlo, xhi, s.width));
    }
  }

  /** A row's samples up to column `mid`, and the one at `mid` if any, are among those up to `hi`. */
  lemma RowSamplesGrow(img: seq<Byte>, s: Shape, c: int, ny: int, lo: int, mid: int, hi: int)
    requires |img| == s.Size() && 0 <= c < s.channels && lo <= mid < hi
    ensures |RowSamples(img, s, c, ny, lo, mid)| + (if s.InImage(ny, mid) then 1 else 0) <= |RowSamples(img, s, c, ny, lo, hi)|
  {
    RowSamplesLength(img, s, c, ny, lo, mid);
    RowSamplesLength(img, s, c, ny, lo, hi);
  }

  /** Extending a range by its last row adds one row's worth of columns, if that row is in range. */
  lemma SpanStep(lo: int, hi: int, n: int, cols: nat)
    requires lo < hi
    ensures Span(lo, hi, n) * cols == Span(lo, hi - 1, n) * cols + (if 0 <= hi - 1 < n then cols else 0)
  {
    var below := Span(lo, hi - 1, n);
    if 0 <= hi - 1 < n {
      assert Span(lo, hi, n) == below + 1;
      assert (below + 1) * cols == below * cols + cols;
    } else {
      assert Span(lo, hi, n) == below;
    }
  }

  /** The window holds exactly `WindowCount` samples. */
  lemma WindowSamplesLength(img: seq<Byte>, s: Shape, y: int, x: int, c: int, pad: nat)
    requires |img| == s.Size() && 0 <= c < s.channels
    ensures |WindowSamples(img, s, y, x, c, pad)| == WindowCount(s, y, x, pad)
  {
    BlockSamplesLength(img, s, c, y - pad, y + pad + 1, x - pad, x + pad + 1);
  }

  /**
    The centre is always in the image, so a window is never empty, and it
    never holds more than `(2 * pad + 1)^2` samples.
   */
  lemma WindowCountBounds(s: Shape, y: int, x: int, pad: nat)
    requires s.InImage(y, x)
    ensures 1 <= WindowCount(s, y, x, pad) <= (2 * pad + 1) * (2 * pad + 1)
  {
    var rows := Span(y - pad, y + pad + 1, s.height);
    var cols := Span(x - pad, x + pad + 1, s.width);
    assert 1 <= rows <= 2 * pad + 1 && 1 <= cols <= 2 * pad + 1;
    ProductBounds(rows, cols, 2 * pad + 1);
  }

  /** The product of two factors in `[1, m]` lies in `[1, m * m]`. */
  lemma ProductBounds(a: int, b: int, m: int)
    requires 1 <= a <= m && 1 <= b <= m
    ensures 1 <= a * b <= m * m
  {
    MulMonotone(1, a, b);
    MulMonotone(a, m, b);
    MulMonotone(b, m, m);
  }

  /**
    The 3 x 3 window (half-width 1) has between 1 and 9 in-image positions;
    on an image of at least 2 x 2 pixels a corner has 4, another border
    pixel 6 and an interior pixel 9.
   */
  lemma NeighbourhoodCount(s: Shape, y: int, x: int)
    requires s.InImage(y, x)
    ensures 1 <= WindowCount(s, y, x, 1) <= 9
    ensures s.width >= 2 && s.height >= 2 ==>
              WindowCount(s, y, x, 1)
              == (if y == 0 || y == s.height - 1 then 2 else 3) * (if x == 0 || x == s.width - 1 then 2 else 3)
    ensures s.width == 1 && s.height == 1 ==> WindowCount(s, y, x, 1) == 1
  {
    WindowCountBounds(s, y, x, 1);
  }

  /** The three cases of `NeighbourhoodCount` on an image of at least 2 x 2 pixels. */
  lemma CornerEdgeInteriorCounts(s: Shape, y: int, x: int)
    requires s.InImage(y, x) && s.width >= 2 && s.height >= 2
    ensures (y == 0 || y == s.height - 1) && (x == 0 || x == s.width - 1) ==> WindowCount(s, y, x, 1) == 4
    ensures (0 < y < s.height - 1) != (0 < x < s.width - 1) ==> WindowCount(s, y, x, 1) == 6
    ensures 0 < y < s.height - 1 && 0 < x < s.width - 1 ==> WindowCount(s, y, x, 1) == 9
  {
    NeighbourhoodCount(s, y, x);
  }

  /** While the window is being collected, the rows gathered so far and the next row still fit. */
  lemma PartialWindowFits(img: seq<Byte>, s: Shape, y: int, x: int, c: int, pad: nat, ky: int)
    requires |img| == s.Size() && 0 <= c < s.channels && 0 <= ky + pad <= 2 * pad
    ensures |BlockSamples(img, s, c, y - pad, y + ky, x - pad, x + pad + 1)|
            + |RowSamples(img, s, c, y + ky, x - pad, x + pad + 1)| <= WindowCount(s, y, x, pad)
  {
    var cols := Span(x - pad, x + pad + 1, s.width);
    BlockSamplesLength(img, s, c, y - pad, y + ky + 1, x - pad, x + pad + 1);
    MulMonotone(Span(y - pad, y + ky + 1, s.height), Span(y - pad, y + pad + 1, s.height), cols);
  }

  // ---------------------------------------------------------------------------
  // What a window holds

  /** A window of half-width 0 holds just the centre sample. */
  lemma UnitWindow(img: seq<Byte>, s: Shape, y: int, x: int, c: int)
    requires |img| == s.Size() && s.InImage(y, x) && 0 <= c < s.channels
    ensures WindowSamples(img, s, y, x, c, 0) == [Sample(img, s, y, x, c)]
  {
    assert RowSamples(img, s, c, y, x, x + 1) == [Sample(img, s, y, x, c)];
    assert BlockSamples(img, s, c, y, y, x, x + 1) == [];
  }

  lemma {:induction false} RowSamplesConstant(img: seq<Byte>, s: Shape, c: int, ny: int, lo: int, hi: int, xlo: int, xhi: int, v: Byte)
    requires |img| == s.Size() && 0 <= c < s.channels
    requires ConstantOn(img, s, c, ny, ny + 1, xlo, xhi, v) && xlo <= lo && hi <= xhi
    ensures forall k :: 0 <= k < |RowSamples(img, s, c, ny, lo, hi)| ==> RowSamples(img, s, c, ny, lo, hi)[k] == v
    decreases hi - lo
  {
    if lo < hi {
      RowSamplesConstant(img, s, c, ny, lo, hi - 1, xlo, xhi, v);
    }
  }

  /** Every sample collected from a rectangle on which channel `c` is constant is that constant. */
  lemma {:induction false} BlockSamplesConstant(img: seq<Byte>, s: Shape, c: int, ylo: int, yhi: int, xlo: int, xhi: int, v: Byte)
    requires |img| == s.Size() && 0 <= c < s.channels
    requires ConstantOn(img, s, c, ylo, yhi, xlo, xhi, v)
    ensures forall k :: 0 <= k < |BlockSamples(img, s, c, ylo, yhi, xlo, xhi)| ==> BlockSamples(img, s, c, ylo, yhi, xlo, xhi)[k] == v
    decreases yhi - ylo
  {
    if ylo < yhi {
      BlockSamplesConstant(img, s, c, ylo, yhi - 1, xlo, xhi, v);
      RowSamplesConstant(img, s, c, yhi - 1, xlo, xhi, xlo, xhi, v);
    }
  }

  // ---------------------------------------------------------------------------
  // Collecting a window into a buffer, as the kernels' `ky`/`kx` loops do

  /**
    Fills `window[0 .. count)` with the in-image samples of the window around
    `(y, x)`, in loop order, and returns `count`. The buffer must be large
    enough for the window; the kernels prove that it is.
   */
  method GatherWindow(input: seq<Byte>, s: Shape, y: int, x: int, c: int, pad: nat, window: array<Byte>)
    returns (count: nat)
    requires |input| == s.Size() && s.InImage(y, x) && 0 <= c < s.channels
    requires WindowCount(s, y, x, pad) <= window.Length
    modifies window
    ensures count == WindowCount(s, y, x, pad)
    ensures window[..count] == WindowSamples(input, s, y, x, c, pad)
  {
    count := 0;
    var ky := -(pad as int);
    while ky <= pad
      invariant 0 <= ky + pad <= 2 * pad + 1 && count <= window.Length
      invariant window[..count] == BlockSamples(input, s, c, y - pad, y + ky, x - pad, x + pad + 1)
    {
      PartialWindowFits(input, s, y, x, c, pad, ky);
      count := GatherRow(input, s, y + ky, x, c, pad, window, count);
      ky := ky + 1;
    }
    WindowSamplesLength(input, s, y, x, c, pad);
  }

  /** The `kx` loop for one window row `ny`: its in-image samples are appended after `window[..count0]`. */
  method GatherRow(input: seq<Byte>, s: Shape, ny: int, x: int, c: int, pad: nat, window: array<Byte>, count0: nat)
    returns (count: nat)
    requires |input| == s.Size() && 0 <= c < s.channels
    requires count0 + |RowSamples(input, s, c, ny, x - pad, x + pad + 1)| <= window.Length
    modifies window
    ensures count <= window.Length
    ensures window[..count] == old(window[..count0]) + RowSamples(input, s, c, ny, x - pad, x + pad + 1)
  {
    ghost var prefix := window[..count0];
    count := count0;
    var kx := -(pad as int);
    while kx <= pad
      invariant 0 <= kx + pad <= 2 * pad + 1
      invariant count0 + |RowSamples(input, s, c, ny, x - pad, x + kx)| == count <= window.Length
      invariant window[..count] == prefix + RowSamples(input, s, c, ny, x - pad, x + kx)
    {
      var nx := x + kx;
      RowSamplesGrow(input, s, c, ny, x - pad, x + kx, x + pad + 1);
      if nx >= 0 && nx < s.width && ny >= 0 && ny < s.height {
        IndexLayout(s, ny, nx, c);
        ghost var got := window[..count];
        window[count] := input[Index(s, ny, nx, c)];
        assert window[..count + 1] == got + [Sample(input, s, ny, nx, c)];
        count := count + 1;
      }
      assert RowSamples(input, s, c, ny, x - pad, x + kx + 1)
          == RowSamples(input, s, c, ny, x - pad, x + kx) + (if s.InImage(ny, nx) then [Sample(input, s, ny, nx, c)] else []);
      kx := kx + 1;
    }
  }
}
