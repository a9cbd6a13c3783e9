# Band-parallel image filters, modelled in Dafny

The repository filters raster images stored as one row-major buffer of
`unsigned char` samples, where channel `c` of pixel `(y, x)` sits at
`(y * width + x) * channels + c`. It has four filter programs:

- `MMF-thread.c` is a median filter. It uses a `window_size`-square window
  clipped at the image border and sorts each window with `qsort`. Worker
  threads each filter one band of rows of the shared output.
- `MMF.c` is a 3 x 3 median filter. Its own exchange sort is `find_median`.
  Each MPI process runs it on its section.
- `DDF.c` is a 3 x 3 integer edge stencil. It computes `8 * centre - sum of
  the in-image neighbours`, clamped to `[0, 255]`.
- `DDF-thread.c` is an iterative four-neighbour diffusion filter. Worker
  threads each update one band of rows, `iterations` times. Each worker keeps
  a private copy `temp` of the image.

The model has one module per concept:

- `Raster` (raster.dfy) holds the buffer layout and its inverse. It also
  defines row bands and `Splice`/`Merge`, which describe a buffer that took
  one range of positions from another.
- `Window` (window.dfy) lists the in-image samples of a clipped window, in
  the order the loops collect them, and says how many there are.
  `GatherWindow` is the collecting loop.
- `Sorting` (sorting.dfy) is a reference ascending sort. It proves that a
  sorted rearrangement is unique, and defines the median as the element at
  `count / 2`.
- `Partitioner` (partition.dfy) is the row-band split that both threaded
  programs use, with its tiling lemmas.
- `RankFilter` (rank_filter.dfy) specifies the median-filtered image.
- `MedianThread`, `MedianMpi`, `LaplacianMpi` and `DiffusionThread` model
  the four programs. Each loop nest is imperative Dafny over arrays, proved
  against the specification functions.

The threaded drivers run their workers one after another. Each median
worker reads only `input` and writes only its own rows, and the bands tile
the image. The model proves that in that case the result is the
single-worker image. The diffusion workers also write only their own rows.
Each reads only its private `temp` and its own band of `output`, which no
other worker writes, so their order does not change the result either.

Some loop bodies are their own methods so that each proof stays small:
`GatherRow`, `SettlePass`, `WorkerRound` and `SynchronizedRound`.

Nothing clamps or rejects a worker count larger than the row count. Every
band except the last is then empty (`Partitioner.MoreNodesThanRows`).

## Model

| member | source | states |
|---|---|---|
| Raster.IndexLayout | MMF-thread.c:45-51 | for an in-image pixel and channel, `(y * width + x) * channels + c` lies inside the `width * height * channels` buffer, within row `y`'s slice |
| Raster.CoordsOfIndex | MMF.c:29-42 | the row, column and channel recovered from a pixel's buffer position are that pixel's, so distinct samples get distinct positions |
| Raster.IndexOfCoords | MMF.c:29-42 | every buffer position is the position of exactly one in-image pixel and channel, so the three loops reach every position |
| Raster.IndexShift | DDF-thread.c:49-53 | moving `dy` rows and `dx` columns moves the buffer position by `dy * width * channels + dx * channels` |
| Raster.InBandByRow | DDF-thread.c:46-49 | a buffer position lies in a band's slice exactly when its row is in `[start_row, end_row)` |
| Raster.BandBounds | DDF-thread.c:73 | the band's byte range `start_row * width * channels .. end_row * width * channels` is ordered and inside the buffer |
| Window.WindowSamplesLength | MMF-thread.c:39-45 | the collected window holds one sample per in-image position of the `(2 * pad + 1)`-square |
| Window.WindowCountBounds | MMF-thread.c:37-45 | `count` is at least 1, because the centre is in the image, and at most `(2 * pad + 1)^2` |
| Window.NeighbourhoodCount | MMF.c:25-41 | the 3 x 3 `count` is in `1..9`; with width and height at least 2 it is the product of the rows and columns present; a 1 x 1 image gives 1 |
| Window.CornerEdgeInteriorCounts | MMF.c:33-41 | with width and height at least 2, a corner collects 4 samples, a non-corner border pixel 6, an interior pixel 9 |
| Window.UnitWindow | MMF-thread.c:39-45 | with `pad == 0` the window is the centre sample alone |
| Window.GatherWindow | MMF-thread.c:37-48 | the `ky`/`kx` loops leave `count` equal to the number of in-image positions and `window[0..count)` equal to those samples, in row-major order |
| Window.GatherRow | MMF-thread.c:40-47 | the `kx` loop appends exactly the in-image samples of one window row after the first `count` samples and leaves those samples alone |
| Sorting.SortAscendingSorts | MMF-thread.c:50 | the reference sort is ascending and a rearrangement of its input |
| Sorting.AscendingUnique | MMF.c:11-19 | two ascending sequences with the same multiset are equal, so every correct sort gives the same `window[count / 2]` |
| Sorting.IsSortAscending | MMF.c:11-19 | any ascending rearrangement of a window equals the reference sort of it |
| Sorting.MedianIsSample | MMF.c:20 | the element at `size / 2` of the sorted window is one of the window's samples |
| Sorting.MedianOfConstant | MMF-thread.c:50-51 | the median of a window whose samples all equal `v` is `v` |
| Partitioner.Partition | MMF-thread.c:70-79 | the worker array holds band `[i * q, (i + 1) * q)` for worker `i` with `q = height / num_nodes`; the last band ends at `height`; together they tile `[0, height)` |
| Partitioner.PartitionTiles | DDF-thread.c:91-101 | for every `num_nodes >= 1` the bands start at row 0, each ends where the next starts, the last ends at `height`, and none is reversed or leaves the image |
| Partitioner.BandSizes | MMF-thread.c:70-79 | every band but the last has `height / num_nodes` rows, and the last has `height / num_nodes + height % num_nodes` |
| Partitioner.MoreNodesThanRows | MMF-thread.c:70-79 | when `num_nodes > height` every band but the last is empty and the last is the whole image |
| Partitioner.TilesOrdered | MMF-thread.c:78-79 | in a tiling an earlier band ends no later than a later band starts |
| Partitioner.TilesDisjoint | MMF-thread.c:78-79 | in a tiling no row belongs to two bands |
| Partitioner.TilesCover | MMF-thread.c:78-79 | in a tiling every row of the image belongs to exactly one band |
| Partitioner.BandWritesPartitionBuffer | MMF-thread.c:34-51 | the workers' output slices are pairwise disjoint and cover every buffer position, so the threads' writes never race |
| RankFilter.MedianImage | MMF-thread.c:34-51 | the filtered image has one sample per input sample; `RankFilter.MedianImageAt` gives each one |
| RankFilter.MedianImageAt | MMF-thread.c:39-51 | the filtered image holds, at each sample's position, element `count / 2` of the sorted in-image window samples of the same channel |
| RankFilter.MedianIdentityAt | MMF-thread.c:29-51 | with `window_size == 1` the filtered sample at each buffer position equals the input sample there |
| RankFilter.MedianIdentity | MMF-thread.c:29-51 | with `window_size == 1` the whole filtered image equals the input image |
| RankFilter.MedianIsWindowSample | MMF.c:33-42 | each output sample is one of the in-image window samples of its channel, so it lies between their minimum and maximum |
| RankFilter.MedianOfConstantWindow | MMF-thread.c:45-51 | where a channel is constant `v` over the window, the output sample is `v`; a constant channel is mapped to itself |
| MedianThread.Compare | MMF-thread.c:23-25 | the comparison's sign is the order of the two samples, and its value lies in `[-255, 255]`, so the subtraction cannot overflow |
| MedianThread.Qsort | MMF-thread.c:50 | the first `count` slots become their ascending rearrangement, ordered by `Compare`; the rest of the buffer is untouched |
| MedianThread.WindowCapacity | MMF-thread.c:29-31 | the model's window buffer has `window_size^2` slots for odd sizes and never fewer |
| MedianThread.WindowCapacityFits | MMF-thread.c:29-45 | the corrected buffer of `(2 * pad + 1)^2` slots holds every clipped window, and for odd sizes it is the source's `window_size^2` |
| MedianThread.EvenWindowOverrunsArea | MMF-thread.c:29-45 | for an even `window_size`, at a pixel far enough from every border, the loops collect `(window_size + 1)^2` samples, more than the `window_size^2` allocated |
| MedianThread.MedianPixel | MMF-thread.c:37-51 | collect, sort, pick: the value stored is the median of the pixel's clipped window |
| MedianThread.FilterPixel | MMF-thread.c:36-52 | the channel loop writes exactly the pixel's `channels` samples of the median image and nothing else |
| MedianThread.FilterRow | MMF-thread.c:35-53 | the column loop writes exactly row `y` of the median image and nothing else |
| MedianThread.ApplyMedianFilterSection | MMF-thread.c:28-56 | the worker writes the median image's rows `[start_row, end_row)` into `output`, leaves every other position as it was, and never writes `input` |
| MedianThread.ParallelMedianFilter | MMF-thread.c:66-88 | after all workers have run, `output` is the median image of `input`, whatever the worker count |
| MedianMpi.FindMedian | MMF.c:10-21 | `window[0..size)` ends ascending and a rearrangement of what it was, the rest is untouched, and the result is the sorted window's element `size / 2` |
| MedianMpi.SettleMinimum | MMF.c:12-18 | the inner `j` loop leaves at `window[i]` a minimum of `window[i..size)`, rearranges only that range, and keeps the rest |
| MedianMpi.SettlePass | MMF.c:11-19 | one outer iteration extends the sorted prefix of settled minima by one and keeps the window's multiset |
| MedianMpi.SettleStep | MMF.c:11-19 | settling the minimum of the unsorted range extends the settled prefix by one |
| MedianMpi.SettledAscending | MMF.c:11-19 | once `size - 1` positions are settled, `window[0..size)` is ascending |
| MedianMpi.SwapInRange | MMF.c:13-17 | the exchange of `window[i]` and `window[j]` keeps the samples of `[i, size)` and changes nothing outside it |
| MedianMpi.MmfMedianPixel | MMF.c:32-42 | the stored value is the median of the pixel's clipped 3 x 3 window |
| MedianMpi.MmfPixel | MMF.c:31-43 | the channel loop writes exactly the pixel's samples of the 3 x 3 median image |
| MedianMpi.MmfRow | MMF.c:30-44 | the column loop writes exactly row `y` of the 3 x 3 median image |
| MedianMpi.ApplyMmfSection | MMF.c:24-46 | every position of `output` is written, with the 3 x 3 median image of `input` |
| LaplacianMpi.WeightOf | DDF.c:13-17 | the weight table holds 8 at the centre and -1 elsewhere |
| LaplacianMpi.WeightsShape | DDF.c:13-17 | the nine weights are 8 at the centre and -1 around it, and they sum to 0 |
| LaplacianMpi.Clamp | DDF.c:32 | the stored value equals the sum when that lies in `[0, 255]`; it is 0 exactly when the sum is not positive and 255 exactly when the sum is at least 255 |
| LaplacianMpi.ClampIsNearest | DDF.c:32 | the clamped value is the byte nearest to the sum |
| LaplacianMpi.LaplacianImage | DDF.c:19-35 | the stencil image has one sample per input sample; `LaplacianMpi.LaplacianImageAt` gives each one |
| LaplacianMpi.LaplacianImageAt | DDF.c:19-32 | the stencil image holds, at each sample's position, the clamped weighted sum of that sample's in-image 3 x 3 neighbourhood |
| LaplacianMpi.KernelSumIsCentreMinusNeighbours | DDF.c:22-31 | the weighted sum is `8 * centre` minus the sum of the in-image neighbours of the same channel |
| LaplacianMpi.KernelSumOfConstantWindow | DDF.c:23-31 | on a constant neighbourhood of value `v` the sum is `(9 - count) * v`, the centre's weight left by the missing neighbours |
| LaplacianMpi.FlatNeighbourhoodIsZero | DDF.c:13-32 | a pixel whose full 3 x 3 neighbourhood is in the image and constant outputs 0 |
| LaplacianMpi.ConstantImageOutputs | DDF.c:27-32 | on a constant image `v` with width and height at least 2, corners give `min(5v, 255)`, other border pixels `min(3v, 255)` and interior pixels 0 |
| LaplacianMpi.SinglePixelOutput | DDF.c:27-32 | a 1 x 1 image maps `v` to `min(8v, 255)` |
| LaplacianMpi.StencilSum | DDF.c:22-31 | the `ky`/`kx` loops accumulate exactly the weighted sum over the in-image neighbourhood |
| LaplacianMpi.LaplacianPixel | DDF.c:21-33 | the channel loop writes exactly the pixel's samples of the stencil image |
| LaplacianMpi.LaplacianRow | DDF.c:20-34 | the column loop writes exactly row `y` of the stencil image |
| LaplacianMpi.ApplyDdfSection | DDF.c:10-36 | every position of `output` is written, with the stencil image of `input` |
| DiffusionThread.NeighbourReads | DDF-thread.c:49-59 | each guarded read of `up`, `down`, `right`, `left` is inside the buffer; unguarded, `up` and `down` leave the buffer and `left`/`right` at the border land on the neighbouring row's last or first pixel |
| DiffusionThread.RowEdges | DDF-thread.c:50-57 | in the top row `up` is negative, and in the bottom row `down` is past the end |
| DiffusionThread.ColumnWraps | DDF-thread.c:52-59 | in the first column `left` is the previous row's last pixel, and in the last column `right` is the next row's first pixel |
| DiffusionThread.DeltasByIndex | DDF-thread.c:49-59 | the four differences read through `idx`, `up`, `down`, `left`, `right` are the neighbour differences, or 0 where the guard fails |
| DiffusionThread.FlatNeighbourhoodZeroFlux | DDF-thread.c:56-68 | a sample equal to all its in-image neighbours has four zero differences and a zero update whatever the (finite) conductances, so it is stored as `store(v)` |
| DiffusionThread.ConstantImageFixed | DDF-thread.c:46-68 | on a constant image that the conversion stores unchanged, a round changes nothing |
| DiffusionThread.DiffusedImage | DDF-thread.c:46-68 | one round's image has one sample per input sample; `DiffusionThread.DiffusedImageAt` gives each one |
| DiffusionThread.DiffusedImageAt | DDF-thread.c:49-68 | one round's image holds, at each sample's position, `temp[idx] + 0.25 * (cN * deltaN + cS * deltaS + cE * deltaE + cW * deltaW)` as stored |
| DiffusionThread.BandTemp | DDF-thread.c:40-73 | a worker's `temp` after `k` rounds has the image's length |
| DiffusionThread.GlobalRounds | DDF-thread.c:44-68 | `k` rounds over the whole image keep the image's length |
| DiffusionThread.StaleOutsideBand | DDF-thread.c:40-73 | outside its band a worker's `temp` still holds `input` after any number of rounds, so it never sees its neighbours' updates |
| DiffusionThread.WholeImageBandIsGlobal | DDF-thread.c:44-73 | a single worker owning every row computes exactly `k` whole-image rounds |
| DiffusionThread.FirstRoundAgrees | DDF-thread.c:40-68 | after the first round every worker's band agrees with the whole-image round |
| DiffusionThread.ConstantImageStaysFixed | DDF-thread.c:44-73 | on a constant image stored unchanged, every worker's `temp` stays that image |
| DiffusionThread.DiffuseSample | DDF-thread.c:49-68 | the value computed for one sample is its diffused value under the guarded reads |
| DiffusionThread.DiffusePixel | DDF-thread.c:48-69 | the channel loop writes exactly the pixel's samples of the round's image |
| DiffusionThread.DiffuseRow | DDF-thread.c:47-70 | the column loop writes exactly row `y` of the round's image |
| DiffusionThread.DiffuseBand | DDF-thread.c:46-71 | the row loop writes the round's image into the band of `output` and nothing else |
| DiffusionThread.CopyBand | DDF-thread.c:73 | the `memcpy` copies exactly the band of `output` into `temp` and nothing else |
| DiffusionThread.CopyImage | DDF-thread.c:40-41 | the fresh `temp` is a copy of `input` |
| DiffusionThread.DiffuseRound | DDF-thread.c:44-74 | one iteration updates `temp` on the band with the round computed from the old `temp`, and the band of `output` equals the band of the new `temp` |
| DiffusionThread.WorkerRound | DDF-thread.c:45-73 | one iteration moves the worker from `k` rounds to `k + 1` and leaves its band of `output` equal to its band of `temp` |
| DiffusionThread.ApplyDdfSection | DDF-thread.c:30-77 | with `iterations <= 0`, `output` is untouched; otherwise its band holds the band of the worker's `temp` after `iterations` rounds and the rest of `output` is untouched |
| DiffusionThread.LaterWorkerKeeps | DDF-thread.c:92-109 | a worker that runs later does not disturb a band an earlier worker already wrote |
| DiffusionThread.ParallelDdfFilter | DDF-thread.c:87-110 | with `iterations <= 0`, `output` is untouched; otherwise each band holds its own worker's result after `iterations` rounds |
| DiffusionThread.DiffuseAllBands | DDF-thread.c:46-71 | running every band's row loop over the same snapshot writes the whole round's image |
| DiffusionThread.RefreshAll | DDF-thread.c:73 | the refresh copies every band of `output` into the shared snapshot |
| DiffusionThread.SynchronizedRound | DDF-thread.c:44-74 | one barrier-synchronised round writes the whole round's image and makes it the next snapshot |
| DiffusionThread.DiffuseSynchronized | DDF-thread.c:44-74 | with a shared, synchronised snapshot, `iterations` rounds give the whole-image rounds `GlobalRounds`; with `iterations <= 0`, `output` is untouched |
| DiffusionThread.TwoRowRound | DDF-thread.c:49-68 | on a one-column, two-row image each row's update uses only the other row's difference |
| DiffusionThread.UnitFlux | DDF-thread.c:62-68 | with every conductance 1, the update is a quarter of the sum of the four differences |
| DiffusionThread.TwoBands | DDF-thread.c:91-101 | two workers on two rows get bands `[0, 1)` and `[1, 2)` |
| DiffusionThread.FirstRoundOfExample | DDF-thread.c:68 | with unit conductance and truncation, one round maps `[0, 100]` to `[25, 75]` |
| DiffusionThread.MergeTopRow | DDF-thread.c:73 | on a two-row image the top band's refresh takes row 0 from `output` and keeps row 1 |
| DiffusionThread.WorkerZeroAfterOneRound | DDF-thread.c:44-73 | after one round, worker 0's `temp` for `[0, 100]` is `[25, 100]`: row 1 is still the input |
| DiffusionThread.StaleBandDiverges | DDF-thread.c:40-73 | after two rounds on `[0, 100]`, worker 0 stores 43 where the whole-image rounds give 37 |

## Left out

- Image loading and saving through `stb_image`/`stb_image_write`, the `main` functions and their argument handling are not modelled. They are file I/O and a foreign library.
- Thread creation and joining are not modelled: the workers run one after another. The model proves that their bands are disjoint and cover the image. Each worker reads only `input`, its own private `temp` and its own band of `output`, which no other worker writes, so the interleaving cannot change the result.
- The MPI scatter/gather in `MMF.c` and `DDF.c` is not modelled. Their `main` hands each process `width * height * channels / size` samples but passes the full `width` and `height` to the kernel, which then reads past its section. The kernels are modelled on a whole buffer of `width * height * channels` samples.
- `MMF.cpp` and `DDF.cpp` are not part of this model. They wrap OpenCV calls and MPI send/receive.
- Floating point in `DDF-thread.c` is not modelled. `conductance` (with `expf` and `lambda`) is a parameter `cond` from a difference to a real. The update is computed in exact reals, not `float`. The float-to-`unsigned char` conversion is a parameter `store`; in C it is undefined outside `[0, 255]`.
- MedianThread.Qsort: the C library's `qsort` is stated by its contract (an ascending rearrangement ordered by `Compare`), not by its algorithm.
- `input` is a value (`seq`), so aliasing between `input` and `output` is not modelled. The source always passes distinct buffers.
- DiffusionThread.FlatNeighbourhoodZeroFlux: the model assumes finite conductances (`cond` returns a real). With `lambda == 0`, or a `lambda` whose square underflows to 0, `conductance` of a zero difference is `expf(-0/0)`, which is NaN. The update at line 68 is then NaN and its conversion to `unsigned char` is undefined, so such `lambda` are outside the model. The same holds for `DiffusionThread.ConstantImageFixed` and `DiffusionThread.ConstantImageStaysFixed`.
- A failed `malloc` of `window` or `temp` is not modelled.
- 32-bit overflow of `int` index arithmetic is not modelled. Sizes are unbounded naturals, and negative `width`, `height` or `channels` cannot be expressed.
- MedianThread.ApplyMedianFilterSection: requires `window_size >= 1`, so zero and negative sizes (which `atoi` accepts) are outside the model. With `window_size == 0` the source allocates an empty buffer and still writes the centre sample into it. With `window_size == -1`, C's truncating `-1 / 2 == 0` gives `pad == 0` and the source acts as the identity filter. With `window_size <= -2`, `pad <= -1`, so the `ky`/`kx` loops never run, `count == 0`, and the source stores the uninitialised `window[0]`.
- Partitioner.Partition: requires `num_nodes >= 1`. The source divides by `num_nodes`.

## Findings

| source | as written | input that shows it | evidently intended | confidence | as-written member | corrected member |
|---|---|---|---|---|---|---|
| MMF-thread.c:29-45 | `window` gets `window_size * window_size` bytes, but the loops run `ky`, `kx` over `[-pad, pad]` with `pad = window_size / 2`. For an even size that is `(window_size + 1)^2` positions. | `window_size == 2` at any pixel with a full neighbourhood, e.g. `(1, 1)` of a 3 x 3 image: 9 samples are written into 4 bytes | allocate one slot per visited position, `(2 * pad + 1)^2` | not executed | MedianThread.EvenWindowOverrunsArea | MedianThread.WindowCapacityFits |
| DDF-thread.c:40-73 | Each worker's `temp` starts as `input` and gets back only its own band after each round. From round 2 on, a row next to a band boundary reads its neighbour band's original rows, not their updated values. | a 1 x 2 one-channel image `[0, 100]`, 2 workers, 2 iterations, conductance 1, truncating conversion: worker 0 stores 43, the whole-image rounds give 37 | every round reads one shared snapshot of the previous round, and all workers refresh it after a barrier | not executed | DiffusionThread.StaleBandDiverges | DiffusionThread.DiffuseSynchronized |
