# Grid-line finder: a Dafny model of its integer image pipeline

This project models the integer core of a Java program that finds the horizontal and
vertical grid lines in a photographed board. The pipeline has five stages:

1. **Gray-scale reduction.** `GrayScale.applyGrayScale` with its channel-combining variants.
2. **Gaussian smoothing.** `GaussianFilter.applyGaussianFilter` is a shrinking integer convolution.
3. **Gradient-based edge extraction.** `EdgeDetection` provides:
   - a gradient pass with bright-pixel exclusion and a running maximum;
   - a threshold pass;
   - a legacy path with non-maximum suppression and hysteresis.
4. **Morphological clean-up.** `ErosionDilation.erosionAndDilation` erodes 3×3 and then dilates.
5. **Hough line transform.** `HoughLineTransform` votes in an accumulator, reads it out into a sparse list, and picks lines by votes with a proximity merge. Its static proximity window shrinks on every call.

`LineCalculator` then scales the coordinates back up and takes the median spacing of the
lines as the size of one grid square.

Both packages are modelled: `imageLineExtractor` and the older `logic`. The older package's
`CannyEdge` differs in three ways:
- its gradient has no bright-pixel exclusion;
- its SCHARR preset has a different third row;
- its hysteresis overwrites the suppressed grid in place, and `getCannyEdge` returns that grid.

Its gray-scale, smoothing and suppression code is identical to the newer package and shares the
same members.

**Pixel grids**
- A pixel grid is an `array2<int>` indexed `[row, column]`.
- A cell holds the RGB value last written to it, without the alpha byte that `BufferedImage.getRGB` adds. A test against `0xFF000000` (opaque black) is therefore a test against `0`, and a test against `0xFFFFFFFF` (opaque white) is a test against `0xFFFFFF`.
- A gray level `g` is stored packed into all three channels. Readers take its low byte.

**Abstracted floating-point pieces**

These become parameters of the members that use them:
- the gradient magnitude `round(sqrt(gx² + gy²))` is `magnitude`;
- the gradient angle (`atan2` in degrees) is `angleOf`;
- the Hough projection `round(a·cos(θ/100) + b·sin(θ/100))` is `project(a, b, θ)`;
- the slope test `|−cos/sin| < 0.01` is `isHorizontal`;
- the intercept `(int)(r / sin)` is `intercept`;
- the rounded threshold products are `minThresholdOf`, `highOf` and `lowOf`;
- the luminosity weights are a function carried by the `Luminosity` variant.

Behaviour of the code that differs from a textbook Canny/Hough pipeline, modelled as written:
- **Hysteresis.** A weak pixel is compared with the three neighbours at offsets ≤ 0, and only against the literal value 255. Grids hold 0 or `0xFFFFFF`, so no weak pixel ever turns white. The model proves this in both packages.
- **Erosion.** A pixel is kept when its window holds no black pixel, not only when the whole window is white.
- **Line selection.** The vote cutoff is the fixed integer division `top / 8`.
- **Accumulator rows.** Their number comes from a projection taken row-first. Voting projects column-first, so a vote can fall outside the accumulator. `MakePolarCoordinatesGraph` returns `Failure` exactly then.

## Model

| member | source | states |
|---|---|---|
| Pixels.PackDecodes | src/imageLineExtractor/GrayScale.java:92-98 | a gray level packed into the three channels lies in 0..0xFFFFFF, and decoding its red, green or blue byte gives the gray level back |
| Pixels.JavaDiv | src/imageLineExtractor/HoughLineTransform.java:109 | Java's `/` on `int`: equal to Euclidean division for non-negative operands, rounding toward zero otherwise |
| GrayScale.Apply | src/imageLineExtractor/GrayScale.java:16-67 | each variant's gray level: AVERAGE is the floor of the channel mean, LIGHTNESS lies between the smallest and largest channel and is the floor of their mean, a channel-only variant returns its channel; the variants of src/logic/GrayScale.java:9-21 are the same |
| GrayScale.GrayPixel | src/imageLineExtractor/GrayScale.java:92-98 | the output pixel is in 0..0xFFFFFF and each of its channels decodes to the variant applied to the decoded input channels |
| GrayScale.ApplyGrayScale | src/imageLineExtractor/GrayScale.java:86-103 | the gray image has the input's dimensions and each cell depends only on the input cell at the same position; the loop of src/logic/GrayScale.java:23-39 is the same |
| GrayScale.GrayPixelIsFixed | src/imageLineExtractor/GrayScale.java:16-67 | reducing a gray pixel again with any variant except LUMINOSITY leaves it unchanged |
| GaussianFilter.SumKernel | src/imageLineExtractor/GaussianFilter.java:67-72 | the loop computes the sum of all kernel entries, as does src/logic/GaussianFilter.java:34-39 |
| GaussianFilter.Kernel3x3Sum | src/imageLineExtractor/GaussianFilter.java:13-17 | KERNEL3x3 is a square, odd, non-negative kernel whose entries sum to 16 |
| GaussianFilter.Kernel5x5Sum | src/imageLineExtractor/GaussianFilter.java:23-29 | KERNEL5x5 is a smoothing kernel whose entries sum to 273 |
| GaussianFilter.Kernel7x7Sum | src/imageLineExtractor/GaussianFilter.java:35-43 | KERNEL7x7 is a smoothing kernel whose entries sum to 1003 |
| GaussianFilter.Convolve | src/imageLineExtractor/GaussianFilter.java:78-83 | the window loops compute the kernel-weighted sum of the gray levels under the kernel |
| GaussianFilter.SumBounds | src/imageLineExtractor/GaussianFilter.java:77-84 | with non-negative weights the weighted sum lies between 0 and 255 times the kernel sum, so the quotient is a gray level |
| GaussianFilter.ApplyGaussianFilter | src/imageLineExtractor/GaussianFilter.java:63-91 | the output shrinks by twice the kernel offset in each dimension, and cell (i, j) is the packed integer quotient of the weighted window sum centred at (i + offset, j + offset) by the kernel sum; src/logic/GaussianFilter.java:30-58 is the same convolution |
| GaussianFilter.SmoothRow | src/imageLineExtractor/GaussianFilter.java:75-88 | one pass of the outer loop writes exactly one output row with the smoothed values and leaves every other cell alone |
| GaussianFilter.UniformIsFixed | src/imageLineExtractor/GaussianFilter.java:77-84 | a window of constant gray level v smooths to v |
| EdgeDetection.PresetFiltersAreBalanced | src/imageLineExtractor/EdgeDetection.java:20-37 | the entries of SOBEL and SCHARR sum to zero, read straight or transposed |
| EdgeDetection.UniformWindowHasNoGradient | src/imageLineExtractor/EdgeDetection.java:108-109 | with a balanced filter, a window of constant gray level gives Gx = Gy = 0 |
| EdgeDetection.ExcludedIffBrightWindow | src/imageLineExtractor/EdgeDetection.java:101-107 | the window scan excludes a pixel exactly when some gray level in its 3×3 window exceeds 100 |
| EdgeDetection.WindowGradient | src/imageLineExtractor/EdgeDetection.java:99-111 | the window loops report exclusion exactly for a bright window, and otherwise return Gx (straight weights) and Gy (transposed weights) |
| EdgeDetection.Normalised | src/imageLineExtractor/EdgeDetection.java:122-126 | an angle in (−180, 180] is brought into [0, 180], and a non-negative angle is kept |
| EdgeDetection.PixelGradient | src/imageLineExtractor/EdgeDetection.java:99-126 | the values written for one interior pixel: 0 for an excluded pixel, else the magnitude and the normalised angle, and the candidate for the maximum |
| EdgeDetection.GradientRow | src/imageLineExtractor/EdgeDetection.java:97-127 | one row pass writes that row's interior cells and nothing else, and folds the row's candidates into the running maximum |
| EdgeDetection.CalculateGradientAndAngle | src/imageLineExtractor/EdgeDetection.java:89-131 | same dimensions; every interior cell holds its gradient magnitude (0 when excluded) and angle; the frame stays 0; the returned maximum is `MaxGradient`: the largest magnitude over the non-excluded interior pixels, or −1 when there is none |
| EdgeDetection.MaxGradientIsMaximum | src/imageLineExtractor/EdgeDetection.java:113-116 | the maximum bounds every stored magnitude of a non-excluded interior pixel, is −1 exactly when there is none, and is attained otherwise |
| EdgeDetection.ThresholdGradient | src/imageLineExtractor/EdgeDetection.java:133-149 | same dimensions; a cell is white exactly when its amplitude exceeds the threshold, else black |
| EdgeDetection.ThresholdIsMonotone | src/imageLineExtractor/EdgeDetection.java:138-145 | raising the threshold only shrinks the set of white cells, and so their number |
| EdgeDetection.GetThresholdGradient | src/imageLineExtractor/EdgeDetection.java:81-87 | the thresholded image is the gradient of the input compared with the threshold derived from the gradient maximum |
| EdgeDetection.NeighbourOffsets | src/imageLineExtractor/EdgeDetection.java:202-215 | the `||`-joined angle chain always picks the pixels directly below and above |
| EdgeDetection.MakeCannyEdge | src/imageLineExtractor/EdgeDetection.java:191-226 | a fresh grid of the same size; an interior pixel keeps its value exactly when it is at least its lower and upper neighbour, every other cell is black; src/logic/CannyEdge.java:79-114 is the same suppression |
| EdgeDetection.WeakQueueIsSound | src/imageLineExtractor/EdgeDetection.java:238-249 | every queued pixel is in bounds and weak |
| EdgeDetection.WeakQueueIsComplete | src/imageLineExtractor/EdgeDetection.java:238-249 | every weak pixel is queued |
| EdgeDetection.WeakQueueIsSorted | src/imageLineExtractor/EdgeDetection.java:238-249 | the queue is strictly increasing in row-major order |
| EdgeDetection.WeakQueueIsWeakQueue | src/imageLineExtractor/EdgeDetection.java:238-249 | the queue is exactly the weak pixels, each once, in row-major order |
| EdgeDetection.ClassifyPixels | src/imageLineExtractor/EdgeDetection.java:238-249 | strong pixels become white, all others black, and the returned queue is the weak-pixel queue |
| EdgeDetection.ExaminedPrecedes | src/imageLineExtractor/EdgeDetection.java:254-269 | every neighbour the a, b, c, d offsets reach is in bounds and comes earlier in row-major order |
| EdgeDetection.ResolveWeakPixel | src/imageLineExtractor/EdgeDetection.java:251-270 | a weak pixel turns white exactly when an examined neighbour holds exactly 255, else black; no other cell changes |
| EdgeDetection.HysteresisThreshold | src/imageLineExtractor/EdgeDetection.java:229-273 | same dimensions; strong pixels end white and all others black, because no cell ever holds 255 and so every weak pixel ends black |
| EdgeDetection.GetCannyEdge | src/imageLineExtractor/EdgeDetection.java:178-188 | each output cell is the hysteresis class of the suppressed gradient of the input, with thresholds derived from the gradient maximum |
| CannyEdge.LogicPresetFiltersAreBalanced | src/logic/CannyEdge.java:13-22 | this package's SOBEL and SCHARR still sum to zero straight and transposed, so uniform windows give no gradient |
| CannyEdge.WindowLoop | src/logic/CannyEdge.java:46-57 | each of the two window loops computes the filter-weighted window sum, straight for Gx and transposed for Gy |
| CannyEdge.PixelGradient | src/logic/CannyEdge.java:46-71 | one interior pixel's magnitude and angle, with no exclusion |
| CannyEdge.GradientRow | src/logic/CannyEdge.java:44-72 | one row pass writes that row's interior cells only and folds them into the running maximum |
| CannyEdge.CalculateGradientAndAngle | src/logic/CannyEdge.java:38-77 | every interior cell holds its magnitude and angle with no exclusion; the frame stays 0; the returned maximum is `MaxGradient` without exclusion: the largest magnitude over the interior pixels, or −1 when there is none |
| CannyEdge.MaxGradientWithoutExclusion | src/logic/CannyEdge.java:61-63 | without exclusion the maximum is −1 exactly when the image has no interior pixel |
| CannyEdge.ClassifyInPlace | src/logic/CannyEdge.java:122-133 | in place: strong cells become white, weak cells keep their value, all others become black; the queue is the weak-pixel queue of the original grid |
| CannyEdge.EarlierEntriesComeFirst | src/logic/CannyEdge.java:135-166 | in a row-major sorted queue, a queued pixel preceding the current entry has already been resolved |
| CannyEdge.HysteresisThreshold | src/logic/CannyEdge.java:116-168 | in place: every cell ends as the hysteresis class of its original amplitude, because each examined neighbour was already black or white |
| CannyEdge.GetCannyEdge | src/logic/CannyEdge.java:26-36 | the returned grid, which hysteresis modified in place, holds the hysteresis class of the suppressed gradient of the input |
| ErosionDilation.WindowIsNonBlack | src/imageLineExtractor/ErosionDilation.java:31-40 | the erosion scan succeeds exactly when no pixel of the 3×3 window is black |
| ErosionDilation.WindowHasWhite | src/imageLineExtractor/ErosionDilation.java:48-55 | the dilation scan succeeds exactly when some pixel of the 3×3 window is white |
| ErosionDilation.Erode | src/imageLineExtractor/ErosionDilation.java:28-43 | same dimensions; an interior pixel is white exactly when its window has no black pixel; the frame is black |
| ErosionDilation.Dilate | src/imageLineExtractor/ErosionDilation.java:45-57 | same dimensions; an interior pixel is white exactly when its window in the eroded grid has a white pixel; the frame is black |
| ErosionDilation.ErosionAndDilation | src/imageLineExtractor/ErosionDilation.java:25-60 | the result is the opening of the input, cell by cell |
| ErosionDilation.OpenedIsAntiExtensive | src/imageLineExtractor/ErosionDilation.java:28-57 | every white output pixel was non-black in the input |
| ErosionDilation.OpenedOfBlackIsBlack | src/imageLineExtractor/ErosionDilation.java:31-51 | an all-black input gives an all-black output |
| ErosionDilation.OpenedKeepsRectangle | src/imageLineExtractor/ErosionDilation.java:28-57 | a white rectangle at least 3×3 on black, clear of the frame, is returned unchanged |
| Sorting.SortAsc | src/imageLineExtractor/HoughLineTransform.java:145-146 | the ascending library sort: the result is ascending and a permutation of the input |
| Sorting.SortKeepsCounts | src/imageLineExtractor/LineCalculator.java:85 | sorting keeps the number of elements below and above any value |
| Sorting.AscendingCounts | src/imageLineExtractor/LineCalculator.java:86 | in an ascending list at most k elements lie below the k-th, and at most n − k − 1 above it |
| LineCalculator.GapsUpTo | src/imageLineExtractor/LineCalculator.java:81-83 | the first n differences are `a[k+1] − a[k]` in order |
| LineCalculator.AppendGaps | src/imageLineExtractor/LineCalculator.java:81-83 | the inner loop appends exactly the consecutive differences of one array |
| LineCalculator.GetSquareSize | src/imageLineExtractor/LineCalculator.java:78-87 | the difference list of both arrays is non-empty and the result is its element at index size / 2 in ascending order |
| LineCalculator.MedianIsADifference | src/imageLineExtractor/LineCalculator.java:85-86 | the square size is one of the differences |
| LineCalculator.MedianSplitsDifferences | src/imageLineExtractor/LineCalculator.java:85-86 | at most size / 2 differences are below the square size, and at most size − 1 − size / 2 above it |
| LineCalculator.AscendingLinesGiveNonNegativeSize | src/imageLineExtractor/LineCalculator.java:82-86 | ascending coordinate arrays give a non-negative square size |
| LineCalculator.ScaledElements | src/imageLineExtractor/LineCalculator.java:58 | the scaled list holds each coordinate times the scale factor at the same position |
| LineCalculator.ScaleLines | src/imageLineExtractor/LineCalculator.java:56-60 | every coordinate of every returned array is multiplied by the scale factor in place, and nothing else changes |
| LineCalculator.SortCommutesWithScaling | src/imageLineExtractor/LineCalculator.java:85 | with a positive scale factor, sorting the scaled list equals scaling the sorted list |
| LineCalculator.ScaledLinesScaleSquareSize | src/imageLineExtractor/LineCalculator.java:56-60 | measured on scaled-up coordinates, the square size is the scale factor times the size measured before |
| Hough.HighestPointIsUnique | src/imageLineExtractor/HoughLineTransform.java:38-53 | the highest projection is uniquely determined by the image |
| Hough.FindHighestPoint | src/imageLineExtractor/HoughLineTransform.java:38-53 | the result bounds every projection of a white pixel over bins 0..628, is −1 or attained by one, and is at least −1 |
| Hough.PlotOnArray | src/imageLineExtractor/HoughLineTransform.java:55-69 | one vote in every bin whose projection is a non-negative in-range r; fails exactly when some projection is beyond the last row |
| Hough.VotesArePositiveIffHit | src/imageLineExtractor/HoughLineTransform.java:56-67 | a cell has votes exactly when its bin is visited and some white pixel projects onto its r there |
| Hough.CastVotes | src/imageLineExtractor/HoughLineTransform.java:76-82 | voting succeeds exactly when every projection fits the accumulator, and each cell then holds its vote count |
| Hough.CollectCandidates | src/imageLineExtractor/HoughLineTransform.java:84-91 | the read-out loops produce `Sparse`: every accumulator cell with a positive count, as (count, r, θ), in row-major order |
| Hough.MakePolarCoordinatesGraph | src/imageLineExtractor/HoughLineTransform.java:71-93 | fails exactly when the highest point is −1 or a vote falls outside the accumulator, else returns the sparse list of all non-empty cells |
| Hough.SparseIsSound | src/imageLineExtractor/HoughLineTransform.java:84-91 | every listed candidate is an in-range cell with its positive count |
| Hough.SparseIsComplete | src/imageLineExtractor/HoughLineTransform.java:84-91 | every cell with a positive count is listed |
| Hough.SparseIsSorted | src/imageLineExtractor/HoughLineTransform.java:84-91 | candidates appear in strictly increasing row-major order |
| Hough.SparseListsThePositiveCells | src/imageLineExtractor/HoughLineTransform.java:84-91 | the sparse list holds exactly the positive cells, each once, in row-major order |
| Hough.SortByVotes | src/imageLineExtractor/HoughLineTransform.java:107 | the sorted candidates are non-increasing in votes and a permutation of the input |
| Hough.SortByVotesIsStable | src/imageLineExtractor/HoughLineTransform.java:107 | candidates with equal votes keep their relative order |
| Hough.TopCandidateHasMostVotes | src/imageLineExtractor/HoughLineTransform.java:107-109 | the first sorted candidate is a candidate with the largest count |
| Hough.ExaminedCount | src/imageLineExtractor/HoughLineTransform.java:108-111 | the scan covers the longest prefix at or above the cutoff and stops at the first candidate below it |
| Hough.StrongCandidateIsExamined | src/imageLineExtractor/HoughLineTransform.java:107-111 | a candidate with at least an eighth of the top count lies inside the examined prefix |
| Hough.IsTooClose | src/imageLineExtractor/HoughLineTransform.java:117-123 | the loop reports exactly whether some accepted value v has v − w < r < v + w |
| Hough.FindHorizontalAndVerticalLines | src/imageLineExtractor/HoughLineTransform.java:95-150 | the returned pair is `LinesOf` of the candidates: sorted stably by descending votes, scanned until the first one below top / 8, merged by proximity within the window, both lists sorted ascending; an empty list gives two empty arrays |
| Hough.ScanOnlyAppends | src/imageLineExtractor/HoughLineTransform.java:127-131 | accepted values are only ever appended, never removed |
| Hough.VerticalSource | src/imageLineExtractor/HoughLineTransform.java:116-128 | every accepted vertical value is the r of an examined θ = 0 candidate |
| Hough.HorizontalSource | src/imageLineExtractor/HoughLineTransform.java:116-131 | every accepted horizontal value is the intercept of an examined candidate passing the slope test |
| Hough.VerticalLinesAreSound | src/imageLineExtractor/HoughLineTransform.java:107-131 | every returned vertical value is the r of a θ = 0 candidate with at least an eighth of the top count |
| Hough.HorizontalLinesAreSound | src/imageLineExtractor/HoughLineTransform.java:107-131 | every returned horizontal value is the intercept of a horizontal candidate with at least an eighth of the top count |
| Hough.AcceptCovers | src/imageLineExtractor/HoughLineTransform.java:116-131 | after a vertical or horizontal candidate is scanned, it is covered: its own value was added or an accepted value lies within the window |
| Hough.ScanCoversVertical | src/imageLineExtractor/HoughLineTransform.java:116-128 | every examined vertical candidate stays covered at the end of the scan |
| Hough.ScanCoversHorizontal | src/imageLineExtractor/HoughLineTransform.java:116-131 | every examined horizontal candidate stays covered, its r compared with the stored intercepts |
| Hough.LinesCoverStrongVerticals | src/imageLineExtractor/HoughLineTransform.java:107-146 | every vertical candidate with at least an eighth of the top count is covered by a returned vertical value |
| Hough.LinesCoverStrongHorizontals | src/imageLineExtractor/HoughLineTransform.java:107-146 | every horizontal candidate with at least an eighth of the top count is covered by a returned horizontal value |
| Hough.ScanVerticalsAreFarApart | src/imageLineExtractor/HoughLineTransform.java:118-128 | accepted vertical values are pairwise at least the window apart |
| Hough.SortKeepsFarApart | src/imageLineExtractor/HoughLineTransform.java:146 | sorting keeps values pairwise at least the window apart |
| Hough.VerticalLinesAreApart | src/imageLineExtractor/HoughLineTransform.java:118-149 | in the returned ascending vertical list, each value is at least the window beyond every earlier one |
| Hough.TopVerticalIsKept | src/imageLineExtractor/HoughLineTransform.java:107-131 | a vertical top candidate is always among the returned vertical lines |
| Hough.RepeatedCallsCompoundTheScale | src/imageLineExtractor/HoughLineTransform.java:32 | two calls with scale factors a and b leave the window divided by a · b |
| Hough.HoughLineTransform.constructor | src/imageLineExtractor/HoughLineTransform.java:11 | the proximity window starts at 60 |
| Hough.HoughLineTransform.GetLines | src/imageLineExtractor/HoughLineTransform.java:31-36 | the window is divided by the scale factor and kept for later calls; the call fails exactly when the accumulator would have no row or be too small, and otherwise returns the lines selected from the sparse list with the new window |

## Left out

- Floating-point arithmetic is not modelled; each piece is a parameter of the members that use it:
  - `Math.sqrt` and `Math.round` of the magnitude;
  - `Math.atan2` angles;
  - the `cos`/`sin` projection;
  - the slope test and the intercept cast;
  - the LUMINOSITY weights;
  - `round(alpha · maxGradient)`, `round(beta · maxThreshold)` and `round(beta · alpha · maxGradient)`.

  The model assumes two ranges of these parameters, both of which hold for the Java expressions they stand for:
  - `magnitude` returns a non-negative integer (`(int, int) -> nat`), as `Math.round(Math.sqrt(..))` does. EdgeDetection.MaxGradientIsMaximum and CannyEdge.MaxGradientWithoutExclusion rely on this: −1 then marks an image with no candidate.
  - the `Luminosity` function returns a channel value in 0..255, as weights summing to 1.00 over channels in 0..255 do.

  No other property of these numbers is assumed.
- The `BufferedImage` colour model is not modelled. That covers the alpha byte `getRGB` adds and how a `TYPE_BYTE_GRAY` image stores a packed value, including magnitudes above 255. Cells hold plain RGB integers and gradient cells hold the magnitude itself.
- EdgeDetection.HysteresisThreshold: the `== 255` neighbour test is kept as written rather than read as a test for white, so every weak pixel ends black. The same holds for CannyEdge.HysteresisThreshold.
- The diagnostic drawing is left out: the vote-graph shading in `plotOnArray`, the red-line overlay in `findHorizontalAndVerticalLines`, all `SaveImage.saveImage` calls and the `saveImage` flags. They only produce pictures.
- Image loading and rescaling are left out: `ImageIO`, `AffineTransformOp`, and everything in `LineCalculator.calculateLines` except the scale-up loop. `Main`, `App` and `src/imageLineExtractor/CalculateLines.java` are drivers of this I/O.
- src/CalculateLines.java is not part of this model: it refers to a `logic.EdgeDetection` class and a `getLines` overload that do not exist.
- src/logic/HoughLineTransform.java is not part of this model. Its voting duplicates the modelled one, and its only output is printed text and a saved image.
- Java's 32-bit `int` overflow is not modelled: the gradient sums, the vote counts and `lines[i] *= scale` use unbounded integers.
- The `long` to `int` cast of the projection is not modelled: `project` already returns the integer the cast produces.
- The shared `AtomicInteger` maximum is a local variable: the scan is single-threaded.
- The stable library sorts are modelled by functional insertion sorts with the same result: `ArrayList.sort` by descending votes, and ascending `Integer.compare`.
- EdgeDetection.IsFilter: gradient filters are 3×3, as every preset is; other sizes are not modelled.
- GaussianFilter.ApplyGaussianFilter: requires non-negative weights, an odd square kernel, a positive kernel sum and an image at least as large as the kernel. The source divides by zero on a zero kernel sum, and a smaller image makes `new BufferedImage` at src/imageLineExtractor/GaussianFilter.java:73 throw. Negative weights and even or non-square kernels are not modelled: with them the quotient need not be a gray level. Every preset meets the conditions.
- LineCalculator.GetSquareSize: requires two arrays and at least one difference. The source throws an index exception when there is no difference.
- Hough.FindHighestPoint: the row-first projection is modelled as written. The mismatch with the column-first voting is a `Failure` of Hough.MakePolarCoordinatesGraph, not a precondition.
- Hough.HoughLineTransform: the static window is a field of a class instance; callers share one instance to get the source's static behaviour.
