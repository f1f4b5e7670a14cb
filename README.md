# Valley-threshold segmentation, modelled in Dafny

This project models the segmentation core of `src/segmentation.py`. That core
has three entry points:

- `valley_threshold_gray` builds a 256-bin histogram of a grayscale image and
  smooths it. It then scans the smoothed histogram for strict local maxima. With
  fewer than two peaks it falls back to `otsu_threshold`. Otherwise it sorts the
  peaks by height, takes the two tallest, puts them in index order and returns
  the first position of the smallest smoothed value between them.
- `otsu_threshold` returns 0 for an image with no histogram mass. Otherwise it
  returns the first threshold of largest between-class variance.
- `segment_color_by_valley` projects a colour image to intensity and thresholds
  it. It builds a 0/255 mask and inverts the mask when more than 85% of it is
  foreground. It then zeroes every masked-out pixel of a copy of the image.

Modules, one per file:

- `Images` (`images.dfy`) holds bytes, the error kinds and `Option`/`Result`.
  It also holds `NdArray`, a shape over a heap `array<Byte>`, and `Grid`, the
  value such an array holds at one moment.
- `Histograms` (`histogram.dfy`) models NumPy's 256-bin histogram over the range (0, 255).
- `Peaks` (`peaks.dfy`) holds the peak scan: a loop (`ScanPeaks`) proved
  against a specification function (`PeakList`).
- `Ranking` (`ranking.dfy`) holds the stable descending sort of the
  `(index, value)` pairs. It is an in-place insertion sort on an array
  (`SortInPlace`) proved equal to a functional stable sort
  (`SortByValueDesc`), and that sort is proved to be a permutation ordered by
  value, with ties in ascending index order.
- `Extrema` (`extrema.dfy`) holds first-occurrence `argmin` and `argmax`.
- `Threshold` (`threshold.dfy`) holds `valley_threshold_gray` as a method on
  the caller's array (`ValleyThresholdGray`), proved equal to the
  specification function `ValleyThreshold`. It also holds `otsu_threshold`
  (`Otsu`) and the properties of the chosen peaks and the valley.
- `Layout` (`layout.dfy`) holds the row-major offset arithmetic of a buffer with a channel axis.
- `Segment` (`segment.dfy`) holds `segment_color_by_valley` as a method that
  returns a fresh array (`SegmentColorByValley`), with the mask and the masked
  copy specified by functions.

Floating-point computations are parameters of the model. Every decision the
code takes by comparing their results is modelled exactly:

- `smooth: seq<nat> -> seq<real>` stands for `_smooth_histogram`. The result
  may have any length. `np.convolve(..., mode='same')` returns 256 values unless
  the Gaussian kernel is longer than that.
- `variance: seq<nat> -> Scores` stands for Otsu's between-class variance
  curve: 256 reals, one per candidate threshold.
- `lum: (Byte, Byte, Byte) -> Byte` stands for
  `uint8(0.114 * c0 + 0.587 * c1 + 0.299 * c2)`, applied to each pixel's
  channels 0, 1 and 2.

Errors are `Result` values. `GrayIsNone` and `NotGray2D` stand for the two
`ValueError`s of `valley_threshold_gray`, and `ColorIsNone` and `NotColor3D`
for the two of `segment_color_by_valley`. `ChannelOutOfRange` stands for the
`IndexError` that `img_color[:, :, k]` raises for the first missing channel
`k` when the channel axis has fewer than 3 entries (src/segmentation.py:102-104).

Details of the code the model keeps:

- `segment_color_by_valley` accepts any 3-D array. It reads channels 0 to 2
  and copies every channel. A channel axis shorter than 3 fails with an
  `IndexError`.
- `sigma` is never checked. In the model it lives only inside `smooth`.
- For an empty image `(mask > 0).mean()` is NaN, so `frac > 0.85` is false
  and the mask is not inverted. The model's exact test
  `100 * count > 85 * total` is also false when the image is empty.

## Model

| member | source | states |
|---|---|---|
| `Histograms.BinOf` | src/segmentation.py:31 | NumPy's bin for a byte `v` with 256 bins over (0, 255) is `v` itself, including 255 in the closed last bin |
| `Histograms.Histogram` | src/segmentation.py:31 | the histogram has exactly 256 bins |
| `Histograms.HistogramCounts` | src/segmentation.py:31 | bin `v` holds the number of samples equal to `v`, the bins add up to the sample count, and every bin of an empty image is 0 |
| `Peaks.ScanPeaks` | src/segmentation.py:36-39 | the scan loop returns exactly the peak list `PeakList(sh)` |
| `Peaks.PeakListExact` | src/segmentation.py:36-39 | every listed index lies in 1 .. len(sh)-2 and is strictly greater than both neighbours, every such index is listed, and the list is strictly ascending |
| `Peaks.PlateauHasNoPeak` | src/segmentation.py:36-39 | no index of a flat run of two or more equal values is a peak |
| `Ranking.Insert` | src/segmentation.py:47 | one insertion step keeps every element: the result is the input plus the inserted pair, as a multiset |
| `Ranking.SortByValueDesc` | src/segmentation.py:47 | the stable descending sort is a permutation of its input |
| `Ranking.InsertSplit` | src/segmentation.py:47 | the inserted pair lands right after the leading run of strictly taller pairs, so it stays in front of equal ones |
| `Ranking.InsertBack` | src/segmentation.py:47 | moving `a[i]` right past the strictly taller pairs of the sorted tail leaves `a[i..]` equal to the insertion of `a[i]` into that tail, with `a[..i]` unchanged |
| `Ranking.ShiftTaller` | src/segmentation.py:47 | the inner loop shifts the leading run of pairs strictly taller than `a[i]` one place left, stops at the first pair not taller, and leaves the rest and `a[..i]` unchanged |
| `Ranking.SortInPlace` | src/segmentation.py:47 | `peak_vals.sort(key=..., reverse=True)` in place leaves the array holding the stable descending sort of its old contents |
| `Ranking.InsertRanked` | src/segmentation.py:47 | inserting a pair that precedes all others by index into a ranked list yields a ranked list |
| `Ranking.SortByValueDescRanked` | src/segmentation.py:47 | for a list in ascending index order the sort is a permutation in which every pair is taller than every later pair, or as tall with a lower index |
| `Ranking.TallestTwoOutrankTheRest` | src/segmentation.py:46-49 | the first two sorted indices are two different peaks of the list; the first outranks every other peak and the second every peak but the first (taller, or as tall and at a lower index) |
| `Extrema.ArgMinFirst` | src/segmentation.py:58 | `np.argmin` returns a position of the smallest value with no earlier position holding it |
| `Extrema.ArgMaxFirst` | src/segmentation.py:79 | `np.nanargmax` returns a position of the largest value with no earlier position holding it |
| `Threshold.Otsu` | src/segmentation.py:63-80 | the Otsu threshold lies in 0 .. 255; it is 0 for an image with no pixels; otherwise it is the first position of the largest variance score |
| `Threshold.ValleyThreshold` | src/segmentation.py:26-29 | a missing image gives `GrayIsNone`, an image that is not 2-D gives `NotGray2D`, and a 2-D image always gives a threshold |
| `Threshold.ValleyThresholdGray` | src/segmentation.py:16-60 | the method on the caller's array returns exactly what the specification function `ValleyThreshold` gives for the array's contents |
| `Threshold.SelectValley` | src/segmentation.py:45-60 | the sort, the swap and the argmin compute the valley `Valley(sh)` |
| `Threshold.ChoosePeaks` | src/segmentation.py:46-51 | building `peak_vals`, sorting it in place, taking its first two indices and swapping them into order gives the chosen pair |
| `Threshold.ValleyBetween` | src/segmentation.py:53-59 | between two peaks `p1 < p2` the first minimum of `sh[p1..p2]` lies strictly between them, is no greater than any value in between, and is smaller than every value before it |
| `Threshold.Valley` | src/segmentation.py:53-60 | the valley lies strictly between the chosen peaks, is a minimum of `sh` on `[p1, p2]` and the first one, so the slice is never empty |
| `Threshold.ChosenAmong` | src/segmentation.py:46-51 | for any ascending list of exactly the peaks, the chosen pair is two different peaks with `p1 < p2`, each outranking every other peak |
| `Threshold.ChosenPeaksAreTallest` | src/segmentation.py:45-51 | the chosen peaks are the two tallest peaks, with ties going to the lower index, and `p1 < p2` |
| `Threshold.ValleyThresholdCorrect` | src/segmentation.py:41-60 | a 2-D image gets a threshold: Otsu's when there are fewer than two peaks, otherwise the first position of the minimum of `sh` on `[p1, p2]`, which lies strictly between the chosen peaks |
| `Segment.Luminance` | src/segmentation.py:102-105 | the intensity plane has one entry per pixel, equal to `lum` of that pixel's channels 0, 1 and 2 |
| `Segment.ThresholdMask` | src/segmentation.py:110 | entry `p` of the mask is 255 when `gray[p] > th` (or `gray[p] <= th` when inverted) and 0 otherwise |
| `Segment.ForegroundCounts` | src/segmentation.py:113-115 | the plain mask has as many foreground entries as there are pixels above `th`, and the inverted mask has the rest |
| `Segment.FinalMaskCorrect` | src/segmentation.py:110-115 | the final mask holds only 0 and 255; it is 255 exactly where `gray > th`, unless more than 85% of the pixels are above `th`, in which case it is 255 exactly where `gray <= th`; at most 85% of it is 255 |
| `Segment.MaskedPixels` | src/segmentation.py:118-119 | the masked copy has the input's size; every channel of a pixel keeps the input's value where the mask is non-zero and is 0 where it is 0 |
| `Segment.MaskedCopy` | src/segmentation.py:118-119 | the writes go to a fresh array whose contents are the masked copy of the input |
| `Segment.SegmentColorByValley` | src/segmentation.py:83-122 | a missing image, a non-3-D image and a channel axis shorter than 3 each give their own error; otherwise the result has the input's shape, lives in a fresh buffer and holds the masked copy under the final mask of the valley threshold; the mask is returned only when asked for; the caller's buffer is unchanged |

## Left out

- `src/main.py` is not part of this model. It is the interactive menu, file I/O and display, and the drawing of synthetic test images.
- `src/morphology.py` is not part of this model. Erosion, dilation and top-hat are single calls into OpenCV.
- `_smooth_histogram` (src/segmentation.py:4-13) is the parameter `smooth`. Its Gaussian weights and convolution are floating-point numerics, and any result length is allowed.
- The Otsu variance formula (src/segmentation.py:73-78) is the parameter `variance`. Its cumulative sums, the `1e-12` guard and NaN handling are floating-point details. The model's reals have no NaN, so `nanargmax` is a plain first-occurrence argmax.
- The luminosity projection (src/segmentation.py:102-105) is the parameter `lum`, one byte per pixel from its first three channels. The float32 weights and the truncating cast are not modelled.
- The float32 cast of the histogram (src/segmentation.py:32) is not modelled. Counts are natural numbers, and the smoothing parameter receives them as such.
- `Threshold.ValleyThresholdGray`: the `slice_vals.size == 0` fallback to Otsu (src/segmentation.py:55-57) is not written as code. `Threshold.Valley` proves the slice always holds at least three values, so the branch is never taken.
- `Segment.SegmentColorByValley`: `return_mask` changes the Python return type (an array or a tuple). The model always returns a pair whose mask part is `None` unless the mask was asked for.
- `sigma` is not a parameter of the model. It only reaches `_smooth_histogram`, which `smooth` stands for.
