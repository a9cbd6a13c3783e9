/**
  The MPI "DDF" kernel, which is a 3 x 3 integer Laplacian (edge-detect)
  stencil: each output sample is the weighted sum of the in-image samples of
  its 3 x 3 window, with weight 8 at the centre and -1 at the eight
  neighbours, clamped to `[0, 255]`. Out-of-image neighbours contribute
  nothing.
 */
module LaplacianMpi {
  import opened Raster
  import opened Window

  /** The side of the stencil, and how far it reaches from its centre. */
  const KernelSize: nat := 3
  const KernelHalf: nat := KernelSize / 2

  /** The stencil weights, row `ky + 1`, column `kx + 1`. */
  const Weights: seq<seq<int>> := [[-1, -1, -1], [-1, 8, -1], [-1, -1, -1]]

  function Weight(ky: int, kx: int): int
    requires -1 <= ky <= 1 && -1 <= kx <= 1
  {
    Weights[ky + 1][kx + 1]
  }

  lemma WeightOf(ky: int, kx: int)
    requires -1 <= ky <= 1 && -1 <= kx <= 1
    ensures Weight(ky, kx) == if ky == 0 && kx == 0 then 8 else -1
  {
  }

  /** The weights are 8 at the centre and -1 elsewhere, so they sum to 0. */
  lemma WeightsShape()
    ensures forall ky, kx :: -1 <= ky <= 1 && -1 <= kx <= 1 ==>
              Weight(ky, kx) == if ky == 0 && kx == 0 then 8 else -1
    ensures Weights[0][0] + Weights[0][1] + Weights[0][2] + Weights[1][0] + Weights[1][1]
            + Weights[1][2] + Weights[2][0] + Weights[2][1] + Weights[2][2] == 0
  {
  }

  /** The stored sample: the sum saturated to the byte range, 0 below it and 255 above it. */
  function Clamp(v: int): (r: Byte)
    ensures 0 <= v <= 255 ==> r == v
    ensures r == 0 <==> v <= 0
    ensures r == 255 <==> v >= 255
  {
    if v > 255 then 255 else if v < 0 then 0 else v
  }

  /** The clamp stores the byte nearest to the sum: no other byte is closer. */
  lemma ClampIsNearest(v: int, b: Byte)
    ensures (if Clamp(v) <= v then v - Clamp(v) else Clamp(v) - v) <= (if b <= v then v - b else b - v)
  {
  }

  /**
    The weighted in-image samples of row `ny`, columns `lo .. hi - 1`, for
    the stencil centred on `(y, x)`, accumulated left to right.
   */
  function WeightedRow(img: seq<Byte>, s: Shape, c: int, y: int, x: int, ny: int, lo: int, hi: int): int
    requires |img| == s.Size() && 0 <= c < s.channels
    requires y - 1 <= ny <= y + 1 && x - 1 <= lo && hi <= x + 2
    decreases hi - lo
  {
    if hi <= lo then 0
    else
      WeightedRow(img, s, c, y, x, ny, lo, hi - 1)
      + (if s.InImage(ny, hi - 1) then Sample(img, s, ny, hi - 1, c) * Weight(ny - y, hi - 1 - x) else 0)
  }

  /** The weighted in-image samples of stencil rows `ylo .. yhi - 1`, row by row. */
  function WeightedBlock(img: seq<Byte>, s: Shape, c: int, y: int, x: int, ylo: int, yhi: int): int
    requires |img| == s.Size() && 0 <= c < s.channels
    requires y - 1 <= ylo && yhi <= y + 2
    decreases yhi - ylo
  {
    if yhi <= ylo then 0
    else WeightedBlock(img, s, c, y, x, ylo, yhi - 1) + WeightedRow(img, s, c, y, x, yhi - 1, x - 1, x + 2)
  }

  /** The accumulated `sum` of the stencil at channel `c` of pixel `(y, x)`. */
  function KernelSum(img: seq<Byte>, s: Shape, y: int, x: int, c: int): int
    requires |img| == s.Size() && 0 <= c < s.channels
  {
    WeightedBlock(img, s, c, y, x, y - 1, y + 2)
  }

  /** The output sample at channel `c` of pixel `(y, x)`. */
  function LaplacianAt(img: seq<Byte>, s: Shape, y: int, x: int, c: int): Byte
    requires |img| == s.Size() && 0 <= c < s.channels
  {
    Clamp(KernelSum(img, s, y, x, c))
  }

  /** The output sample at buffer position `i`. */
  function LaplacianAtIndex(img: seq<Byte>, s: Shape, i: int): Byte
    requires |img| == s.Size() && 0 <= i < |img|
  {
    IndexOfCoords(s, i);
    LaplacianAt(img, s, Row(s, i), Col(s, i), Chan(s, i))
  }

  /** The first `n` samples of the filtered image. */
  function LaplacianPrefix(img: seq<Byte>, s: Shape, n: nat): (r: seq<Byte>)
    requires |img| == s.Size() && n <= |img|
    ensures |r| == n
  {
    if n == 0 then [] else LaplacianPrefix(img, s, n - 1) + [LaplacianAtIndex(img, s, n - 1)]
  }

  /** The whole filtered image. */
  function LaplacianImage(img: seq<Byte>, s: Shape): (r: seq<Byte>)
    requires |img| == s.Size()
    ensures |r| == |img|
  {
    LaplacianPrefix(img, s, |img|)
  }

  lemma {:induction false} LaplacianPrefixAt(img: seq<Byte>, s: Shape, n: nat, i: int)
    requires |img| == s.Size() && 0 <= i < n <= |img|
    ensures LaplacianPrefix(img, s, n)[i] == LaplacianAtIndex(img, s, i)
    decreases n
  {
    var p, e := LaplacianPrefix(img, s, n - 1), LaplacianAtIndex(img, s, n - 1);
    assert LaplacianPrefix(img, s, n) == p + [e];
    if i < n - 1 {
      LaplacianPrefixAt(img, s, n - 1, i);
      assert (p + [e])[i] == p[i];
    }
  }

  /** The filtered image holds at each pixel's position that pixel's output sample. */
  lemma LaplacianImageAt(img: seq<Byte>, s: Shape, y: int, x: int, c: int)
    requires |img| == s.Size() && s.InImage(y, x) && 0 <= c < s.channels
    ensures 0 <= Index(s, y, x, c) < |img|
    ensures LaplacianImage(img, s)[Index(s, y, x, c)] == LaplacianAt(img, s, y, x, c)
  {
    IndexLayout(s, y, x, c);
    CoordsOfIndex(s, y, x, c);
    LaplacianPrefixAt(img, s, |img|, Index(s, y, x, c));
  }

  // ---------------------------------------------------------------------------
  // The stencil as centre against neighbours

  /** The sum of a sequence of samples, accumulated left to right. */
  function Sum(w: seq<Byte>): int {
    if w == [] then 0 else Sum(w[..|w| - 1]) + w[|w| - 1]
  }

  lemma {:induction false} SumAppend(a: seq<Byte>, b: seq<Byte>)
    ensures Sum(a + b) == Sum(a) + Sum(b)
    decreases |b|
  {
    if b != [] {
      var ab := a + b;
      assert ab != [];
      assert ab[..|ab| - 1] == a + b[..|b| - 1];
      assert ab[|ab| - 1] == b[|b| - 1];
      assert Sum(ab) == Sum(a + b[..|b| - 1]) + b[|b| - 1];
      SumAppend(a, b[..|b| - 1]);
    } else {
      assert a + b == a;
    }
  }

  lemma {:induction false} SumConstant(w: seq<Byte>, v: Byte)
    requires forall k :: 0 <= k < |w| ==> w[k] == v
    ensures Sum(w) == |w| * v
    decreases |w|
  {
    if w != [] {
      SumConstant(w[..|w| - 1], v);
    }
  }

  /** Nine times the centre sample when the row `ny` and the columns `[lo, hi)` contain it, else 0. */
  function RowCentre(img: seq<Byte>, s: Shape, c: int, y: int, x: int, ny: int, lo: int, hi: int): int
    requires |img| == s.Size() && 0 <= c < s.channels
  {
    if ny == y && lo <= x < hi && s.InImage(y, x) then 9 * Sample(img, s, y, x, c) else 0
  }

  /** Adding column `hi - 1` to a weighted row adds to the centre term exactly what it adds to the row, less its sample. */
  lemma WeightedRowStep(img: seq<Byte>, s: Shape, c: int, y: int, x: int, ny: int, lo: int, hi: int)
    requires |img| == s.Size() && 0 <= c < s.channels
    requires y - 1 <= ny <= y + 1 && x - 1 <= lo < hi <= x + 2
    ensures WeightedRow(img, s, c, y, x, ny, lo, hi) - RowCentre(img, s, c, y, x, ny, lo, hi) + Sum(RowSamples(img, s, c, ny, lo, hi))
            == WeightedRow(img, s, c, y, x, ny, lo, hi - 1) - RowCentre(img, s, c, y, x, ny, lo, hi - 1)
               + Sum(RowSamples(img, s, c, ny, lo, hi - 1))
  {
    var col := hi - 1;
    var last := if s.InImage(ny, col) then [Sample(img, s, ny, col, c)] else [];
    var lastSum: int := if s.InImage(ny, col) then Sample(img, s, ny, col, c) else 0;
    var term := if s.InImage(ny, col) then Sample(img, s, ny, col, c) * Weight(ny - y, col - x) else 0;
    assert Sum(RowSamples(img, s, c, ny, lo, hi)) == Sum(RowSamples(img, s, c, ny, lo, col)) + lastSum by {
      SumAppend(RowSamples(img, s, c, ny, lo, col), last);
      assert last == [] || last[..0] == [];
    }
    assert WeightedRow(img, s, c, y, x, ny, lo, hi) == WeightedRow(img, s, c, y, x, ny, lo, col) + term;
    assert term == RowCentre(img, s, c, y, x, ny, lo, hi) - RowCentre(img, s, c, y, x, ny, lo, col) - lastSum by {
      if s.InImage(ny, col) {
        WeightOf(ny - y, col - x);
      }
    }
  }

  /** Row form: the weighted row is nine times the centre, if the row holds it, minus the plain sum of its samples. */
  lemma {:induction false} WeightedRowSplit(img: seq<Byte>, s: Shape, c: int, y: int, x: int, ny: int, lo: int, hi: int)
    requires |img| == s.Size() && 0 <= c < s.channels
    requires y - 1 <= ny <= y + 1 && x - 1 <= lo && hi <= x + 2
    ensures WeightedRow(img, s, c, y, x, ny, lo, hi)
            == RowCentre(img, s, c, y, x, ny, lo, hi) - Sum(RowSamples(img, s, c, ny, lo, hi))
    decreases hi - lo
  {
    if lo < hi {
      WeightedRowSplit(img, s, c, y, x, ny, lo, hi - 1);
      WeightedRowStep(img, s, c, y, x, ny, lo, hi);
    }
  }

  lemma {:induction false} WeightedBlockSplit(img: seq<Byte>, s: Shape, c: int, y: int, x: int, ylo: int, yhi: int)
    requires |img| == s.Size() && 0 <= c < s.channels
    requires y - 1 <= ylo && yhi <= y + 2
    ensures WeightedBlock(img, s, c, y, x, ylo, yhi)
            == (if ylo <= y < yhi && s.InImage(y, x) then 9 * Sample(img, s, y, x, c) else 0)
               - Sum(BlockSamples(img, s, c, ylo, yhi, x - 1, x + 2))
    decreases yhi - ylo
  {
    if ylo < yhi {
      WeightedBlockSplit(img, s, c, y, x, ylo, yhi - 1);
      WeightedRowSplit(img, s, c, y, x, yhi - 1, x - 1, x + 2);
      SumAppend(BlockSamples(img, s, c, ylo, yhi - 1, x - 1, x + 2), RowSamples(img, s, c, yhi - 1, x - 1, x + 2));
    }
  }

  /**
    The stencil sum is eight times the centre minus the sum of the in-image
    neighbours, the neighbours being the 3 x 3 window without its centre.
   */
  lemma KernelSumIsCentreMinusNeighbours(img: seq<Byte>, s: Shape, y: int, x: int, c: int)
    requires |img| == s.Size() && s.InImage(y, x) && 0 <= c < s.channels
    ensures KernelSum(img, s, y, x, c)
            == 8 * Sample(img, s, y, x, c) - (Sum(WindowSamples(img, s, y, x, c, 1)) - Sample(img, s, y, x, c))
  {
    WeightedBlockSplit(img, s, c, y, x, y - 1, y + 2);
  }

  /** Where the window is constant, the sum is the centre's weight left over by the missing neighbours. */
  lemma KernelSumOfConstantWindow(img: seq<Byte>, s: Shape, y: int, x: int, c: int, v: Byte)
    requires |img| == s.Size() && s.InImage(y, x) && 0 <= c < s.channels
    requires ConstantOn(img, s, c, y - 1, y + 2, x - 1, x + 2, v)
    ensures KernelSum(img, s, y, x, c) == (9 - WindowCount(s, y, x, 1)) * v
  {
    var n := WindowCount(s, y, x, 1);
    KernelSumIsCentreMinusNeighbours(img, s, y, x, c);
    assert Sample(img, s, y, x, c) == v;
    assert Sum(WindowSamples(img, s, y, x, c, 1)) == n * v by {
      BlockSamplesConstant(img, s, c, y - 1, y + 2, x - 1, x + 2, v);
      WindowSamplesLength(img, s, y, x, c, 1);
      SumConstant(WindowSamples(img, s, y, x, c, 1), v);
    }
    LeftoverWeight(n, v);
  }

  /** The centre's weight 8, less the `n - 1` neighbours' weights, leaves `9 - n` times the common value. */
  lemma LeftoverWeight(n: int, v: int)
    ensures 8 * v - (n * v - v) == (9 - n) * v
  {
    assert (9 - n) * v == 9 * v - n * v;
  }

  /** The weights sum to 0: a pixel whose whole 3 x 3 neighbourhood is in the image and constant outputs 0. */
  lemma FlatNeighbourhoodIsZero(img: seq<Byte>, s: Shape, y: int, x: int, c: int, v: Byte)
    requires |img| == s.Size() && 0 < y < s.height - 1 && 0 < x < s.width - 1 && 0 <= c < s.channels
    requires ConstantOn(img, s, c, y - 1, y + 2, x - 1, x + 2, v)
    ensures LaplacianAt(img, s, y, x, c) == 0
  {
    KernelSumOfConstantWindow(img, s, y, x, c, v);
    NeighbourhoodCount(s, y, x);
  }

  /**
    On an image whose channel `c` is `v` everywhere (at least 2 x 2 pixels), a
    corner outputs `min(5v, 255)`, another border pixel `min(3v, 255)` and an
    interior pixel 0: the missing neighbours no longer cancel the centre.
   */
  lemma ConstantImageOutputs(img: seq<Byte>, s: Shape, y: int, x: int, c: int, v: Byte)
    requires |img| == s.Size() && s.InImage(y, x) && 0 <= c < s.channels
    requires s.width >= 2 && s.height >= 2
    requires ConstantOn(img, s, c, 0, s.height, 0, s.width, v)
    ensures (y == 0 || y == s.height - 1) && (x == 0 || x == s.width - 1) ==>
              LaplacianAt(img, s, y, x, c) == if 5 * v < 255 then 5 * v else 255
    ensures (0 < y < s.height - 1) != (0 < x < s.width - 1) ==>
              LaplacianAt(img, s, y, x, c) == if 3 * v < 255 then 3 * v else 255
    ensures 0 < y < s.height - 1 && 0 < x < s.width - 1 ==> LaplacianAt(img, s, y, x, c) == 0
  {
    KernelSumOfConstantWindow(img, s, y, x, c, v);
    CornerEdgeInteriorCounts(s, y, x);
  }

  /** A 1 x 1 image maps its sample `v` to `min(8v, 255)`. */
  lemma SinglePixelOutput(img: seq<Byte>, s: Shape, c: int)
    requires |img| == s.Size() && s.width == 1 && s.height == 1 && 0 <= c < s.channels
    ensures LaplacianAt(img, s, 0, 0, c) == if 8 * Sample(img, s, 0, 0, c) < 255 then 8 * Sample(img, s, 0, 0, c) else 255
  {
    var v := Sample(img, s, 0, 0, c);
    assert ConstantOn(img, s, c, -1, 2, -1, 2, v);
    KernelSumOfConstantWindow(img, s, 0, 0, c, v);
    NeighbourhoodCount(s, 0, 0);
  }

  // ---------------------------------------------------------------------------
  // The kernel as written

  /** The `ky`/`kx` loops of `apply_ddf_section` accumulating `sum` at channel `c` of pixel `(y, x)`. */
  method StencilSum(input: seq<Byte>, s: Shape, y: int, x: int, c: int) returns (sum: int)
    requires |input| == s.Size() && s.InImage(y, x) && 0 <= c < s.channels
    ensures sum == KernelSum(input, s, y, x, c)
  {
    sum := 0;
    var ky := -(KernelHalf as int);
    while ky <= KernelHalf
      invariant -1 <= ky <= 2
      invariant sum == WeightedBlock(input, s, c, y, x, y - 1, y + ky)
    {
      var kx := -(KernelHalf as int);
      while kx <= KernelHalf
        invariant -1 <= kx <= 2
        invariant sum == WeightedBlock(input, s, c, y, x, y - 1, y + ky) + WeightedRow(input, s, c, y, x, y + ky, x - 1, x + kx)
      {
        var nx := x + kx;
        var ny := y + ky;
        if nx >= 0 && ny >= 0 && nx < s.width && ny < s.height {
          IndexLayout(s, ny, nx, c);
          sum := sum + input[Index(s, ny, nx, c)] * Weights[ky + KernelHalf][kx + KernelHalf];
        }
        kx := kx + 1;
      }
      ky := ky + 1;
    }
  }

  /** The channel loop of `apply_ddf_section` at pixel `(y, x)`. */
  method LaplacianPixel(input: seq<Byte>, output: array<Byte>, s: Shape, y: int, x: int)
    requires |input| == s.Size() && output.Length == s.Size() && s.InImage(y, x)
    modifies output
    ensures output[..] == Splice(old(output[..]), LaplacianImage(input, s), Index(s, y, x, 0), Index(s, y, x, 0) + s.channels)
  {
    ghost var ref := LaplacianImage(input, s);
    ghost var out0 := output[..];
    var base := Index(s, y, x, 0);
    SpliceEnds(out0, ref, base, base);
    var c := 0;
    while c < s.channels
      invariant 0 <= c <= s.channels
      invariant output[..] == Splice(out0, ref, base, base + c)
    {
      var sum := StencilSum(input, s, y, x, c);
      LaplacianImageAt(input, s, y, x, c);
      assert Index(s, y, x, c) == base + c;
      SpliceStep(out0, ref, base, base + c);
      output[base + c] := if sum > 255 then 255 else if sum < 0 then 0 else sum;
      c := c + 1;
    }
  }

  /** The column loop of `apply_ddf_section` on row `y`. */
  method LaplacianRow(input: seq<Byte>, output: array<Byte>, s: Shape, y: int)
    requires |input| == s.Size() && output.Length == s.Size() && 0 <= y < s.height
    modifies output
    ensures output[..] == Splice(old(output[..]), LaplacianImage(input, s), y * s.RowLen(), (y + 1) * s.RowLen())
  {
    ghost var ref := LaplacianImage(input, s);
    ghost var out0 := output[..];
    ghost var lo := y * s.RowLen();
    IndexSteps(s, y, 0);
    SpliceEnds(out0, ref, lo, lo);
    ghost var base := lo;
    var x := 0;
    while x < s.width
      invariant 0 <= x <= s.width && lo <= base == Index(s, y, x, 0)
      invariant output[..] == Splice(out0, ref, lo, base)
    {
      LaplacianPixel(input, output, s, y, x);
      IndexSteps(s, y, x);
      SpliceExtend(out0, ref, lo, base, base + s.channels);
      base := base + s.channels;
      x := x + 1;
    }
    IndexSteps(s, y, x);
  }

  /**
    `apply_ddf_section`: every sample of the buffer is replaced by the
    clamped stencil sum of its 3 x 3 window, read from `input` alone.
   */
  method ApplyDdfSection(input: seq<Byte>, output: array<Byte>, s: Shape)
    requires |input| == s.Size() && output.Length == s.Size()
    modifies output
    ensures output[..] == LaplacianImage(input, s)
  {
    ghost var ref := LaplacianImage(input, s);
    ghost var out0 := output[..];
    SpliceEnds(out0, ref, 0, 0);
    ghost var done := 0;
    var y := 0;
    while y < s.height
      invariant 0 <= y <= s.height && done == y * s.RowLen()
      invariant output[..] == Splice(out0, ref, 0, done)
    {
      LaplacianRow(input, output, s, y);
      MulMonotone(0, y, s.RowLen());
      assert (y + 1) * s.RowLen() == done + s.RowLen();
      SpliceExtend(out0, ref, 0, done, done + s.RowLen());
      done := done + s.RowLen();
      y := y + 1;
    }
    SpliceEnds(out0, ref, 0, done);
  }
}
