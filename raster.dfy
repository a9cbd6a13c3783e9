/**
  The raster layout shared by every filter: a row-major, channel-interleaved
  buffer of 8-bit samples in which channel `c` of pixel `(y, x)` sits at
  `(y * width + x) * channels + c`, and the horizontal row bands that the
  threaded filters hand to their workers.
 */
module Raster {

  /** One 8-bit sample, C's `unsigned char`. */
  type Byte = b: int | 0 <= b < 256

  /** Geometry of an image buffer. */
  datatype Shape = Shape(width: nat, height: nat, channels: nat) {

    /** Number of samples in one image row. */
    function RowLen(): nat { width * channels }

    /** Number of samples in the whole buffer, `width * height * channels`. */
    function Size(): nat { height * RowLen() }

    /** True when pixel `(y, x)` lies inside the image. */
    predicate InImage(y: int, x: int) { 0 <= y < height && 0 <= x < width }
  }

  /** Buffer position of channel `c` of pixel `(y, x)`. */
  function Index(s: Shape, y: int, x: int, c: int): int {
    (y * s.width + x) * s.channels + c
  }

  /**
    Quotient and remainder of a non-negative `a` by a positive `d`, by repeated
    subtraction. They agree with `a / d` and `a % d`; the recursive form
    keeps the solver from unfolding a division of two unknowns wherever a
    position is turned back into coordinates.
   */
  function Quot(a: nat, d: nat): nat
    requires d > 0
    decreases a
  {
    if a < d then 0 else 1 + Quot(a - d, d)
  }

  function Rem(a: nat, d: nat): nat
    requires d > 0
    decreases a
  {
    if a < d then a else Rem(a - d, d)
  }

  /** The row, column and channel of buffer position `i` (inverse of `Index`). */
  function Row(s: Shape, i: nat): nat
    requires s.RowLen() > 0
  {
    Quot(i, s.RowLen())
  }

  function Col(s: Shape, i: nat): nat
    requires s.RowLen() > 0 && s.channels > 0
  {
    Quot(Rem(i, s.RowLen()), s.channels)
  }

  function Chan(s: Shape, i: nat): nat
    requires s.RowLen() > 0 && s.channels > 0
  {
    Rem(Rem(i, s.RowLen()), s.channels)
  }

  /** The sample of channel `c` at pixel `(y, x)`. */
  function Sample(img: seq<Byte>, s: Shape, y: int, x: int, c: int): Byte
    requires |img| == s.Size() && s.InImage(y, x) && 0 <= c < s.channels
  {
    IndexLayout(s, y, x, c);
    img[Index(s, y, x, c)]
  }

  /** A half-open range `[startRow, endRow)` of image rows owned by one worker. */
  datatype Band = Band(startRow: int, endRow: int)

  /** True when buffer position `i` lies in one of the rows of `band`. */
  predicate InBand(s: Shape, band: Band, i: int) {
    band.startRow * s.RowLen() <= i < band.endRow * s.RowLen()
  }

  // ---------------------------------------------------------------------------
  // Arithmetic of the layout

  lemma MulMonotone(a: int, b: int, k: nat)
    requires a <= b
    ensures a * k <= b * k
  {
    assert b * k - a * k == (b - a) * k;
  }

  /** A band of image rows is a range of buffer positions inside the buffer. */
  lemma BandBounds(s: Shape, band: Band)
    requires 0 <= band.startRow <= band.endRow <= s.height
    ensures band.startRow * s.width * s.channels == band.startRow * s.RowLen()
    ensures band.endRow * s.width * s.channels == band.endRow * s.RowLen()
    ensures 0 <= band.startRow * s.RowLen() <= band.endRow * s.RowLen() <= s.Size()
  {
    MulMonotone(0, band.startRow, s.RowLen());
    MulMonotone(band.startRow, band.endRow, s.RowLen());
    MulMonotone(band.endRow, s.height, s.RowLen());
  }

  /** `Quot` and `Rem` split `a` into whole multiples of `d` and a remainder below `d`. */
  lemma {:induction false} QuotRemSplit(a: nat, d: nat)
    requires d > 0
    ensures a == Quot(a, d) * d + Rem(a, d) && Rem(a, d) < d
    decreases a
  {
    if a >= d {
      QuotRemSplit(a - d, d);
      assert (1 + Quot(a - d, d)) * d == d + Quot(a - d, d) * d;
    }
  }

  /** That split is unique: any `q * d + r` with `0 <= r < d` has quotient `q` and remainder `r`. */
  lemma {:induction false} QuotRemUnique(a: nat, d: nat, q: nat, r: nat)
    requires d > 0 && r < d && a == q * d + r
    ensures Quot(a, d) == q && Rem(a, d) == r
    decreases q
  {
    if q > 0 {
      assert q * d == (q - 1) * d + d;
      QuotRemUnique(a - d, d, q - 1, r);
    }
  }

  /** Where a pixel's samples sit: inside its own row, which lies inside the buffer. */
  lemma IndexLayout(s: Shape, y: int, x: int, c: int)
    requires s.InImage(y, x) && 0 <= c < s.channels
    ensures Index(s, y, x, c) == y * s.RowLen() + (x * s.channels + c)
    ensures 0 <= x * s.channels + c < s.RowLen()
    ensures 0 <= y * s.RowLen() && (y + 1) * s.RowLen() <= s.Size()
    ensures 0 <= Index(s, y, x, c) < s.Size()
  {
    var w, ch, len := s.width, s.channels, s.RowLen();
    assert (y * w + x) * ch == y * w * ch + x * ch;
    assert y * w * ch == y * len;
    MulMonotone(x, w - 1, ch);
    assert (w - 1) * ch == len - ch;
    MulMonotone(0, y, len);
    MulMonotone(y + 1, s.height, len);
    assert (y + 1) * len == y * len + len;
  }

  /** `Row`, `Col` and `Chan` recover the coordinates that `Index` encodes. */
  lemma CoordsOfIndex(s: Shape, y: int, x: int, c: int)
    requires s.InImage(y, x) && 0 <= c < s.channels
    ensures s.RowLen() > 0 && s.channels > 0 && Index(s, y, x, c) >= 0
    ensures Row(s, Index(s, y, x, c)) == y
    ensures Col(s, Index(s, y, x, c)) == x
    ensures Chan(s, Index(s, y, x, c)) == c
  {
    IndexLayout(s, y, x, c);
    var i, r := Index(s, y, x, c), x * s.channels + c;
    QuotRemUnique(i, s.RowLen(), y, r);
    QuotRemUnique(r, s.channels, x, c);
  }

  /** Every buffer position is the `Index` of a pixel and channel of the image. */
  lemma IndexOfCoords(s: Shape, i: nat)
    requires i < s.Size()
    ensures s.RowLen() > 0 && s.channels > 0
    ensures s.InImage(Row(s, i), Col(s, i)) && 0 <= Chan(s, i) < s.channels
    ensures Index(s, Row(s, i), Col(s, i), Chan(s, i)) == i
  {
    var y, r := Quot(i, s.RowLen()), Rem(i, s.RowLen());
    var x, c := Quot(r, s.channels), Rem(r, s.channels);
    QuotRemSplit(i, s.RowLen());
    QuotRemSplit(r, s.channels);
    assert i == y * s.RowLen() + r;
    assert r == x * s.channels + c;
    if s.height <= y {
      MulMonotone(s.height, y, s.RowLen());
      assert false;
    }
    if s.width <= x {
      MulMonotone(s.width, x, s.channels);
      assert false;
    }
    IndexLayout(s, y, x, c);
  }

  /** Moving `dy` rows and `dx` columns moves the buffer position by `dy` rows' and `dx` pixels' worth of samples. */
  lemma IndexShift(s: Shape, y: int, x: int, c: int, dy: int, dx: int)
    ensures Index(s, y + dy, x + dx, c) == Index(s, y, x, c) + dy * s.RowLen() + dx * s.channels
  {
    var w, ch := s.width, s.channels;
    assert (y + dy) * w == y * w + dy * w;
    assert ((y * w + x) + (dy * w + dx)) * ch == (y * w + x) * ch + (dy * w + dx) * ch;
    assert (dy * w + dx) * ch == dy * (w * ch) + dx * ch;
  }

  /** Consecutive positions visited by the row / column / channel loops. */
  lemma IndexSteps(s: Shape, y: int, x: int)
    ensures Index(s, y, 0, 0) == y * s.RowLen()
    ensures Index(s, y, x, s.channels) == Index(s, y, x + 1, 0)
    ensures Index(s, y, s.width, 0) == (y + 1) * s.RowLen()
  {
    assert (y * s.width) * s.channels == y * (s.width * s.channels);
    assert (y * s.width + x) * s.channels + s.channels == (y * s.width + x + 1) * s.channels;
    assert (y * s.width + s.width) * s.channels == (y + 1) * (s.width * s.channels);
  }

  /** A position lies in a band exactly when its row does. */
  lemma InBandByRow(s: Shape, band: Band, i: nat)
    requires i < s.Size()
    ensures s.RowLen() > 0
    ensures InBand(s, band, i) <==> band.startRow <= Row(s, i) < band.endRow
  {
    IndexOfCoords(s, i);
    var y := Row(s, i);
    assert y * s.RowLen() <= i < (y + 1) * s.RowLen() by {
      IndexLayout(s, y, Col(s, i), Chan(s, i));
    }
    if band.startRow <= y {
      MulMonotone(band.startRow, y, s.RowLen());
    } else {
      MulMonotone(y + 1, band.startRow, s.RowLen());
    }
    if y < band.endRow {
      MulMonotone(y + 1, band.endRow, s.RowLen());
    } else {
      MulMonotone(band.endRow, y, s.RowLen());
    }
  }

  // ---------------------------------------------------------------------------
  // Writing a range of the output buffer

  /** `a` with the samples at positions `[lo, hi)` taken from `b` instead. */
  function Splice(a: seq<Byte>, b: seq<Byte>, lo: int, hi: int): (r: seq<Byte>)
    requires |a| == |b|
    ensures |r| == |a|
  {
    seq(|a|, i requires 0 <= i < |a| => if lo <= i < hi then b[i] else a[i])
  }

  /** `b` with the rows of `band` taken from `a`: what a worker writing only its band leaves in `b`. */
  function Merge(s: Shape, band: Band, a: seq<Byte>, b: seq<Byte>): (r: seq<Byte>)
    requires |a| == |b|
    ensures |r| == |a|
  {
    Splice(b, a, band.startRow * s.RowLen(), band.endRow * s.RowLen())
  }

  /** An empty range changes nothing; the whole range gives `b`. */
  lemma SpliceEnds(a: seq<Byte>, b: seq<Byte>, lo: int, hi: int)
    requires |a| == |b|
    ensures Splice(a, b, lo, lo) == a
    ensures lo <= 0 && |a| <= hi ==> Splice(a, b, lo, hi) == b
  {
  }

  /** Taking `[lo, mid)` and then `[mid, hi)` from `b` takes `[lo, hi)`. */
  lemma SpliceExtend(a: seq<Byte>, b: seq<Byte>, lo: int, mid: int, hi: int)
    requires |a| == |b| && lo <= mid <= hi
    ensures Splice(Splice(a, b, lo, mid), b, mid, hi) == Splice(a, b, lo, hi)
  {
  }

  /** Writing `b[hi]` at position `hi` extends the range by one. */
  lemma SpliceStep(a: seq<Byte>, b: seq<Byte>, lo: int, hi: int)
    requires |a| == |b| && lo <= hi && 0 <= hi < |a|
    ensures Splice(a, b, lo, hi)[hi := b[hi]] == Splice(a, b, lo, hi + 1)
  {
  }
}
