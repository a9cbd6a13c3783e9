/**
  The MPI median filter's kernel: `apply_mmf_section` runs a fixed 3 x 3
  window over every row of the image it is given, clipped at the border, and
  `find_median` sorts the collected samples in place with an exchange sort
  before returning element `size / 2`.
 */
module MedianMpi {
  import opened Raster
  import opened Window
  import opened Sorting
  import opened RankFilter

  /** The fixed window side of `apply_mmf_section`. */
  const WindowSize: nat := 3

  /** Half the side: the window reaches this far from its centre. */
  const WindowHalf: nat := WindowSize / 2

  /**
    `find_median`: for each `i`, compare `window[i]` with every later sample
    and swap when it is larger, which settles the smallest remaining sample
    at `i`; then return the sample at index `size / 2`. The first `size`
    samples end up ascending and are a rearrangement of what they were, so
    the result is the rank-order median of the original samples.
   */
  method FindMedian(window: array<Byte>, size: int) returns (m: Byte)
    requires 1 <= size <= window.Length
    modifies window
    ensures Ascending(window[..size])
    ensures multiset(window[..size]) == multiset(old(window[..size]))
    ensures window[size..] == old(window[size..])
    ensures m == window[size / 2] == MedianOf(old(window[..size]))
  {
    ghost var w0 := window[..size];
    var i := 0;
    while i < size - 1
      invariant 0 <= i <= size - 1
      invariant SettledPrefix(window[..], i, size)
      invariant multiset(window[..size]) == multiset(w0)
      invariant window[size..] == old(window[size..])
    {
      SettlePass(window, i, size);
      i := i + 1;
    }
    SettledAscending(window[..], size);
    IsSortAscending(window[..size], w0);
    m := window[size / 2];
  }

  /**
    The outer loop's invariant after `i` passes: `a[..i]` is ascending and
    no sample in it exceeds a sample of `a[i .. size)`.
   */
  ghost predicate SettledPrefix(a: seq<Byte>, i: int, size: int)
    requires 0 <= i <= size <= |a|
  {
    && Ascending(a[..i])
    && forall p, k :: 0 <= p < i <= k < size ==> a[p] <= a[k]
  }

  /** A pass that rearranges `a[i .. size)` so that its first sample is the smallest extends the settled prefix by one. */
  lemma SettleStep(before: seq<Byte>, after: seq<Byte>, i: int, size: int)
    requires 0 <= i < size <= |before| == |after|
    requires SettledPrefix(before, i, size)
    requires after[..i] == before[..i]
    requires multiset(after[i..size]) == multiset(before[i..size])
    requires forall k :: i < k < size ==> after[i] <= after[k]
    ensures SettledPrefix(after, i + 1, size)
  {
    forall p | 0 <= p < i
      ensures forall k :: i <= k < size ==> after[p] <= after[k]
    {
      assert after[p] == after[..i][p] == before[..i][p] == before[p];
      RearrangedLowerBound(after[i..size], before[i..size], after[p]);
      assert forall k :: i <= k < size ==> after[k] == after[i..size][k - i];
    }
    assert forall p :: 0 <= p < i ==> after[p] == after[..i][p] == before[..i][p];
  }

  /** One pass of the outer loop of `find_median`: the settled prefix grows by one sample. */
  method SettlePass(window: array<Byte>, i: int, size: int)
    requires 0 <= i < size <= window.Length
    requires SettledPrefix(window[..], i, size)
    modifies window
    ensures SettledPrefix(window[..], i + 1, size)
    ensures multiset(window[..size]) == multiset(old(window[..size]))
    ensures window[size..] == old(window[size..])
  {
    ghost var before := window[..];
    SettleMinimum(window, i, size);
    SettleStep(before, window[..], i, size);
  }

  /** Once all but the last sample are settled, the first `size` samples are ascending. */
  lemma SettledAscending(a: seq<Byte>, size: int)
    requires 1 <= size <= |a| && SettledPrefix(a, size - 1, size)
    ensures Ascending(a[..size])
  {
  }

  /**
    The inner loop of `find_median` for one `i`: after it, `window[i]` is the
    smallest of `window[i .. size)`. Only that range is rearranged.
   */
  method SettleMinimum(window: array<Byte>, i: int, size: int)
    requires 0 <= i < size <= window.Length
    modifies window
    ensures forall k :: i < k < size ==> window[i] <= window[k]
    ensures window[..i] == old(window[..i]) && window[size..] == old(window[size..])
    ensures multiset(window[i..size]) == multiset(old(window[i..size]))
    ensures multiset(window[..size]) == multiset(old(window[..size]))
  {
    var j := i + 1;
    while j < size
      invariant i + 1 <= j <= size
      invariant forall k :: i < k < j ==> window[i] <= window[k]
      invariant window[..i] == old(window[..i]) && window[size..] == old(window[size..])
      invariant multiset(window[i..size]) == multiset(old(window[i..size]))
    {
      if window[i] > window[j] {
        ghost var before := window[..];
        window[i], window[j] := window[j], window[i];
        SwapInRange(before, i, j, size);
      }
      j := j + 1;
    }
    PrefixMultiset(old(window[..]), window[..], i, size);
  }

  /** Exchanging two samples of `a[i .. size)` rearranges that range and leaves the rest of `a` alone. */
  lemma SwapInRange(a: seq<Byte>, i: int, j: int, size: int)
    requires 0 <= i < j < size <= |a|
    ensures a[i := a[j]][j := a[i]][..i] == a[..i]
    ensures a[i := a[j]][j := a[i]][size..] == a[size..]
    ensures multiset(a[i := a[j]][j := a[i]][i..size]) == multiset(a[i..size])
  {
    var b := a[i := a[j]][j := a[i]];
    assert b[i..size] == a[i..size][0 := a[j]][j - i := a[i]];
  }

  /** Equal prefixes and rearranged middles give rearranged `[0, size)` ranges. */
  lemma PrefixMultiset(a: seq<Byte>, b: seq<Byte>, i: int, size: int)
    requires 0 <= i <= size <= |a| == |b|
    requires a[..i] == b[..i] && multiset(a[i..size]) == multiset(b[i..size])
    ensures multiset(a[..size]) == multiset(b[..size])
  {
    assert a[..size] == a[..i] + a[i..size];
    assert b[..size] == b[..i] + b[i..size];
  }

  /** One pass of the channel loop of `apply_mmf_section`: collect the clipped 3 x 3 window and take its median. */
  method MmfMedianPixel(input: seq<Byte>, s: Shape, y: int, x: int, c: int, window: array<Byte>) returns (m: Byte)
    requires window.Length == WindowSize * WindowSize
    requires |input| == s.Size() && s.InImage(y, x) && 0 <= c < s.channels
    modifies window
    ensures m == MedianAt(input, s, WindowHalf, y, x, c)
  {
    NeighbourhoodCount(s, y, x);
    var count := GatherWindow(input, s, y, x, c, WindowHalf, window);
    m := FindMedian(window, count);
  }

  /** The channel loop of `apply_mmf_section` at pixel `(y, x)`. */
  method MmfPixel(input: seq<Byte>, output: array<Byte>, s: Shape, y: int, x: int, window: array<Byte>)
    requires output != window
    requires |input| == s.Size() && output.Length == s.Size()
    requires window.Length == WindowSize * WindowSize && s.InImage(y, x)
    modifies output, window
    ensures output[..] == Splice(old(output[..]), MedianImage(input, s, WindowHalf), Index(s, y, x, 0), Index(s, y, x, 0) + s.channels)
  {
    ghost var ref := MedianImage(input, s, WindowHalf);
    ghost var out0 := output[..];
    var base := Index(s, y, x, 0);
    SpliceEnds(out0, ref, base, base);
    var c := 0;
    while c < s.channels
      invariant 0 <= c <= s.channels
      invariant output[..] == Splice(out0, ref, base, base + c)
    {
      var m := MmfMedianPixel(input, s, y, x, c, window);
      MedianImageAt(input, s, WindowHalf, y, x, c);
      assert Index(s, y, x, c) == base + c;
      SpliceStep(out0, ref, base, base + c);
      output[base + c] := m;
      c := c + 1;
    }
  }

  /** The column loop of `apply_mmf_section` on row `y`. */
  method MmfRow(input: seq<Byte>, output: array<Byte>, s: Shape, y: int, window: array<Byte>)
    requires output != window
    requires |input| == s.Size() && output.Length == s.Size()
    requires window.Length == WindowSize * WindowSize && 0 <= y < s.height
    modifies output, window
    ensures output[..] == Splice(old(output[..]), MedianImage(input, s, WindowHalf), y * s.RowLen(), (y + 1) * s.RowLen())
  {
    ghost var ref := MedianImage(input, s, WindowHalf);
    ghost var out0 := output[..];
    ghost var lo := y * s.RowLen();
    IndexSteps(s, y, 0);
    SpliceEnds(out0, ref, lo, lo);
    ghost var base := lo;
    var x := 0;
    while x < s.width
      invariant 0 <= x <= s.width && lo <= base == Index(s, y, x, 0)
      invariant output[..] == Splice(out0, ref, lo, base)
    {
      MmfPixel(input, output, s, y, x, window);
      IndexSteps(s, y, x);
      SpliceExtend(out0, ref, lo, base, base + s.channels);
      base := base + s.channels;
      x := x + 1;
    }
    IndexSteps(s, y, x);
  }

  /**
    `apply_mmf_section`: every sample of the buffer is replaced by the median
    of its clipped 3 x 3 window, read from `input` alone.
   */
  method ApplyMmfSection(input: seq<Byte>, output: array<Byte>, s: Shape)
    requires |input| == s.Size() && output.Length == s.Size()
    modifies output
    ensures output[..] == MedianImage(input, s, WindowHalf)
  {
    var window := new Byte[WindowSize * WindowSize];
    ghost var ref := MedianImage(input, s, WindowHalf);
    ghost var out0 := output[..];
    SpliceEnds(out0, ref, 0, 0);
    ghost var done := 0;
    var y := 0;
    while y < s.height
      invariant 0 <= y <= s.height && done == y * s.RowLen()
      invariant output[..] == Splice(out0, ref, 0, done)
    {
      MmfRow(input, output, s, y, window);
      MulMonotone(0, y, s.RowLen());
      assert (y + 1) * s.RowLen() == done + s.RowLen();
      SpliceExtend(out0, ref, 0, done, done + s.RowLen());
      done := done + s.RowLen();
      y := y + 1;
    }
    SpliceEnds(out0, ref, 0, done);
  }
}
