/**
  The rank-order (median) kernel as a specification: the output sample of
  channel `c` at pixel `(y, x)` is element `count / 2` of the ascending
  rearrangement of the `count` in-image samples of the window of half-width
  `pad` around it. Both median filters are proved against it.
 */
module RankFilter {
  import opened Raster
  import opened Window
  import opened Sorting

  /** The median of the clipped window of half-width `pad` around `(y, x)`. */
  function MedianAt(img: seq<Byte>, s: Shape, pad: nat, y: int, x: int, c: int): Byte
    requires |img| == s.Size() && s.InImage(y, x) && 0 <= c < s.channels
  {
    WindowSamplesLength(img, s, y, x, c, pad);
    WindowCountBounds(s, y, x, pad);
    MedianOf(WindowSamples(img, s, y, x, c, pad))
  }

  /** The filtered sample at buffer position `i`. */
  function MedianAtIndex(img: seq<Byte>, s: Shape, pad: nat, i: int): Byte
    requires |img| == s.Size() && 0 <= i < |img|
  {
    IndexOfCoords(s, i);
    MedianAt(img, s, pad, Row(s, i), Col(s, i), Chan(s, i))
  }

  /** The whole median-filtered image. */
  function MedianImage(img: seq<Byte>, s: Shape, pad: nat): (r: seq<Byte>)
    requires |img| == s.Size()
    ensures |r| == |img|
  {
    MedianPrefix(img, s, pad, |img|)
  }

  /** The first `n` samples of the median-filtered image. */
  function MedianPrefix(img: seq<Byte>, s: Shape, pad: nat, n: nat): (r: seq<Byte>)
    requires |img| == s.Size() && n <= |img|
    ensures |r| == n
  {
    if n == 0 then [] else MedianPrefix(img, s, pad, n - 1) + [MedianAtIndex(img, s, pad, n - 1)]
  }

  lemma {:induction false} MedianPrefixAt(img: seq<Byte>, s: Shape, pad: nat, n: nat, i: int)
    requires |img| == s.Size() && 0 <= i < n <= |img|
    ensures MedianPrefix(img, s, pad, n)[i] == MedianAtIndex(img, s, pad, i)
    decreases n
  {
    var p, e := MedianPrefix(img, s, pad, n - 1), MedianAtIndex(img, s, pad, n - 1);
    assert MedianPrefix(img, s, pad, n) == p + [e];
    if i < n - 1 {
      MedianPrefixAt(img, s, pad, n - 1, i);
      assert (p + [e])[i] == p[i];
    }
  }

  /** The median image holds at each pixel's position that pixel's median. */
  lemma MedianImageAt(img: seq<Byte>, s: Shape, pad: nat, y: int, x: int, c: int)
    requires |img| == s.Size() && s.InImage(y, x) && 0 <= c < s.channels
    ensures 0 <= Index(s, y, x, c) < |img|
    ensures MedianImage(img, s, pad)[Index(s, y, x, c)] == MedianAt(img, s, pad, y, x, c)
  {
    IndexLayout(s, y, x, c);
    CoordsOfIndex(s, y, x, c);
    MedianPrefixAt(img, s, pad, |img|, Index(s, y, x, c));
  }

  /** With a window of one pixel (`window_size == 1`, half-width 0) each filtered sample is its input sample. */
  lemma MedianIdentityAt(img: seq<Byte>, s: Shape, i: int)
    requires |img| == s.Size() && 0 <= i < |img|
    ensures MedianAtIndex(img, s, 0, i) == img[i]
  {
    IndexOfCoords(s, i);
    var y, x, c := Row(s, i), Col(s, i), Chan(s, i);
    UnitWindow(img, s, y, x, c);
    assert SortAscending([Sample(img, s, y, x, c)]) == [Sample(img, s, y, x, c)];
  }

  /** With `window_size == 1` the whole filtered image is the input. */
  lemma MedianIdentity(img: seq<Byte>, s: Shape)
    requires |img| == s.Size()
    ensures MedianImage(img, s, 0) == img
  {
    forall i | 0 <= i < |img|
      ensures MedianImage(img, s, 0)[i] == img[i]
    {
      MedianPrefixAt(img, s, 0, |img|, i);
      MedianIdentityAt(img, s, i);
    }
  }

  /** The output is one of the window's in-image samples, so it lies between their minimum and maximum. */
  lemma MedianIsWindowSample(img: seq<Byte>, s: Shape, pad: nat, y: int, x: int, c: int)
    requires |img| == s.Size() && s.InImage(y, x) && 0 <= c < s.channels
    ensures MedianAt(img, s, pad, y, x, c) in multiset(WindowSamples(img, s, y, x, c, pad))
  {
    WindowSamplesLength(img, s, y, x, c, pad);
    WindowCountBounds(s, y, x, pad);
    MedianIsSample(WindowSamples(img, s, y, x, c, pad));
  }

  /** Where every in-image sample of the window equals `v`, so does the output; a constant channel stays constant. */
  lemma MedianOfConstantWindow(img: seq<Byte>, s: Shape, pad: nat, y: int, x: int, c: int, v: Byte)
    requires |img| == s.Size() && s.InImage(y, x) && 0 <= c < s.channels
    requires ConstantOn(img, s, c, y - pad, y + pad + 1, x - pad, x + pad + 1, v)
    ensures MedianAt(img, s, pad, y, x, c) == v
  {
    WindowSamplesLength(img, s, y, x, c, pad);
    WindowCountBounds(s, y, x, pad);
    BlockSamplesConstant(img, s, c, y - pad, y + pad + 1, x - pad, x + pad + 1, v);
    MedianOfConstant(WindowSamples(img, s, y, x, c, pad), v);
  }
}
