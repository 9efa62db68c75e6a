/**
 * Gradient thresholding and the Canny pipeline (imageLineExtractor.EdgeDetection).
 *
 * The floating-point steps are parameters: `magnitude(gx, gy)` stands for
 * `Math.round(Math.sqrt(gx*gx + gy*gy))`, `angleOf(gx, gy)` for
 * `Math.atan2(gy, gx) * 180 / Math.PI`, and the rounded thresholds derived
 * from alpha, beta and the maximum gradient are integer functions.
 *
 * A gradient cell holds the rounded magnitude; every reader masks it with
 * `& 0xFF`, which sees the same low byte as the packed `g << 16 | g << 8 | g`.
 */
module EdgeDetection {
  import opened Pixels

  const SOBEL: seq<seq<int>> := [
    [-1, 0, 1],
    [-2, 0, 2],
    [-1, 0, 1]
  ]

  const SCHARR: seq<seq<int>> := [
    [-3, 0, 3],
    [-10, 0, 10],
    [-3, 0, 3]
  ]

  /** The window is this many samples wide and high. */
  const SIZE: nat := 3

  /** Brighter samples than this exclude their window (they belong to symbols). */
  const BRIGHT_LIMIT: int := 100

  function Max(a: int, b: int): int
  {
    if a >= b then a else b
  }

  /** A 3×3 filter: the window `i + x - 1`, `j + y - 1` is centred only for this size. */
  predicate IsFilter(filter: seq<seq<int>>)
  {
    |filter| == 3 && forall y :: 0 <= y < 3 ==> |filter[y]| == 3
  }

  /** Gray level of window sample (y, x): column j + y - 1, row i + x - 1. */
  function Sample(image: array2<int>, i: int, j: int, y: int, x: int): Channel
    reads image
    requires Interior(image, i, j) && 0 <= y < 3 && 0 <= x < 3
  {
    Blue(image[i + x - 1, j + y - 1])
  }

  /** Gx weighs sample (y, x) by `filter[y][x]`, Gy by the transposed `filter[x][y]`. */
  function Weight(filter: seq<seq<int>>, transposed: bool, y: int, x: int): int
    requires IsFilter(filter) && 0 <= y < 3 && 0 <= x < 3
  {
    if transposed then filter[x][y] else filter[y][x]
  }

  /** A loop position: samples are visited y-major, and (SIZE, 0) is the end of the loops. */
  predicate Position(y: nat, x: nat)
  {
    x <= SIZE && (y < SIZE || (y == SIZE && x == 0))
  }

  /** The weighted sum of the samples visited before position (y, x). */
  function WindowSum(image: array2<int>, filter: seq<seq<int>>, transposed: bool, i: int, j: int, y: nat, x: nat): int
    reads image
    requires IsFilter(filter) && Interior(image, i, j) && Position(y, x)
    decreases y, x
  {
    if x == 0 then (if y == 0 then 0 else WindowSum(image, filter, transposed, i, j, y - 1, SIZE))
    else WindowSum(image, filter, transposed, i, j, y, x - 1) + Weight(filter, transposed, y, x - 1) * Sample(image, i, j, y, x - 1)
  }

  function Gx(image: array2<int>, filter: seq<seq<int>>, i: int, j: int): int
    reads image
    requires IsFilter(filter) && Interior(image, i, j)
  {
    WindowSum(image, filter, false, i, j, SIZE, 0)
  }

  function Gy(image: array2<int>, filter: seq<seq<int>>, i: int, j: int): int
    reads image
    requires IsFilter(filter) && Interior(image, i, j)
  {
    WindowSum(image, filter, true, i, j, SIZE, 0)
  }

  /** Whether a sample visited before position (y, x) exceeds 100. */
  predicate BrightBefore(image: array2<int>, i: int, j: int, y: nat, x: nat)
    reads image
    requires Interior(image, i, j) && Position(y, x)
    decreases y, x
  {
    if x == 0 then y > 0 && BrightBefore(image, i, j, y - 1, SIZE)
    else BrightBefore(image, i, j, y, x - 1) || Sample(image, i, j, y, x - 1) > BRIGHT_LIMIT
  }

  /** The bright-pixel exclusion, as the window loops discover it. */
  predicate Excluded(image: array2<int>, i: int, j: int)
    reads image
    requires Interior(image, i, j)
  {
    BrightBefore(image, i, j, SIZE, 0)
  }

  lemma {:induction false} BrightBeforeIsSome(image: array2<int>, i: int, j: int, y: nat, x: nat)
    requires Interior(image, i, j) && Position(y, x)
    ensures BrightBefore(image, i, j, y, x) <==>
      exists y', x' :: 0 <= y' < SIZE && 0 <= x' < SIZE && (y' < y || (y' == y && x' < x)) && Sample(image, i, j, y', x') > BRIGHT_LIMIT
    decreases y, x
  {
    if x > 0 {
      BrightBeforeIsSome(image, i, j, y, x - 1);
    } else if y > 0 {
      BrightBeforeIsSome(image, i, j, y - 1, SIZE);
    }
  }

  /** A pixel is excluded exactly when some gray level of its 3×3 window exceeds 100. */
  lemma ExcludedIffBrightWindow(image: array2<int>, i: int, j: int)
    requires Interior(image, i, j)
    ensures Excluded(image, i, j) <==>
      exists r, c :: 0 <= r < image.Length0 && 0 <= c < image.Length1 && InWindow(i, j, r, c) && Blue(image[r, c]) > BRIGHT_LIMIT
  {
    BrightBeforeIsSome(image, i, j, SIZE, 0);
    if exists r, c :: 0 <= r < image.Length0 && 0 <= c < image.Length1 && InWindow(i, j, r, c) && Blue(image[r, c]) > BRIGHT_LIMIT {
      var r, c :| 0 <= r < image.Length0 && 0 <= c < image.Length1 && InWindow(i, j, r, c) && Blue(image[r, c]) > BRIGHT_LIMIT;
      assert Sample(image, i, j, c - j + 1, r - i + 1) > BRIGHT_LIMIT;
    }
    if Excluded(image, i, j) {
      var y, x :| 0 <= y < SIZE && 0 <= x < SIZE && Sample(image, i, j, y, x) > BRIGHT_LIMIT;
      assert InWindow(i, j, i + x - 1, j + y - 1);
    }
  }

  /** Once a bright sample has been visited, the remaining samples do not change that. */
  lemma {:induction false} BrightBeforeGrows(image: array2<int>, i: int, j: int, y: nat, x: nat)
    requires Interior(image, i, j) && Position(y, x)
    requires BrightBefore(image, i, j, y, x)
    ensures Excluded(image, i, j)
    decreases SIZE - y, SIZE - x
  {
    if y < SIZE && x < SIZE {
      BrightBeforeGrows(image, i, j, y, x + 1);
    } else if y < SIZE {
      BrightBeforeGrows(image, i, j, y + 1, 0);
    }
  }

  /**
   * Whether interior pixel (i, j) is skipped: only when the exclusion is in
   * force (this package) and the window holds a bright sample.
   */
  predicate Skipped(image: array2<int>, filter: seq<seq<int>>, exclude: bool, i: int, j: int)
    reads image
    requires IsFilter(filter) && Interior(image, i, j)
  {
    exclude && Excluded(image, i, j)
  }

  /** The gradient cell at (r, c): 0 on the frame and for skipped pixels, else the magnitude. */
  function GradientCell(image: array2<int>, filter: seq<seq<int>>, magnitude: (int, int) -> nat, exclude: bool, r: int, c: int): nat
    reads image
    requires IsFilter(filter)
  {
    if !Interior(image, r, c) || Skipped(image, filter, exclude, r, c) then 0
    else magnitude(Gx(image, filter, r, c), Gy(image, filter, r, c))
  }

  /** `atan2` in degrees lies in (-180, 180]; negative angles are moved up by 180. */
  function Normalised(angle: real): (a: real)
    ensures -180.0 < angle <= 180.0 ==> 0.0 <= a <= 180.0
    ensures 0.0 <= angle ==> a == angle
  {
    if angle < 0.0 then angle + 180.0 else angle
  }

  /** The angle cell at (r, c): 0 on the frame and for skipped pixels. */
  function AngleCell(image: array2<int>, filter: seq<seq<int>>, angleOf: (int, int) -> real, exclude: bool, r: int, c: int): real
    reads image
    requires IsFilter(filter)
  {
    if !Interior(image, r, c) || Skipped(image, filter, exclude, r, c) then 0.0
    else Normalised(angleOf(Gx(image, filter, r, c), Gy(image, filter, r, c)))
  }

  /** The value the running maximum sees at an interior pixel: -1 when skipped. */
  function Candidate(image: array2<int>, filter: seq<seq<int>>, magnitude: (int, int) -> nat, exclude: bool, i: int, j: int): int
    reads image
    requires IsFilter(filter) && Interior(image, i, j)
  {
    if Skipped(image, filter, exclude, i, j) then -1
    else magnitude(Gx(image, filter, i, j), Gy(image, filter, i, j))
  }

  /** Running maximum over columns 1..m-1 of interior row i, starting from -1. */
  function MaxRow(image: array2<int>, filter: seq<seq<int>>, magnitude: (int, int) -> nat, exclude: bool, i: int, m: int): (max: int)
    reads image
    requires IsFilter(filter) && 1 <= i < image.Length0 - 1
    requires m <= 1 || m <= image.Length1 - 1
    ensures max >= -1
    decreases m
  {
    if m <= 1 then -1
    else Max(MaxRow(image, filter, magnitude, exclude, i, m - 1), Candidate(image, filter, magnitude, exclude, i, m - 1))
  }

  /** Running maximum over interior rows 1..n-1. */
  function MaxRows(image: array2<int>, filter: seq<seq<int>>, magnitude: (int, int) -> nat, exclude: bool, n: int): (max: int)
    reads image
    requires IsFilter(filter)
    requires n <= 1 || n <= image.Length0 - 1
    ensures max >= -1
    decreases n
  {
    if n <= 1 then -1
    else Max(MaxRows(image, filter, magnitude, exclude, n - 1), MaxRow(image, filter, magnitude, exclude, n - 1, image.Length1 - 1))
  }

  /** `maxGradient` after the gradient pass: it starts at -1 and takes every larger magnitude. */
  function MaxGradient(image: array2<int>, filter: seq<seq<int>>, magnitude: (int, int) -> nat, exclude: bool): int
    reads image
    requires IsFilter(filter)
  {
    MaxRows(image, filter, magnitude, exclude, if image.Length0 >= 2 then image.Length0 - 1 else 1)
  }

  lemma {:induction false} MaxRowIsMaximum(image: array2<int>, filter: seq<seq<int>>, magnitude: (int, int) -> nat, exclude: bool, i: int, m: int)
    requires IsFilter(filter) && 1 <= i < image.Length0 - 1
    requires m <= 1 || m <= image.Length1 - 1
    ensures forall c :: 1 <= c < m ==> Candidate(image, filter, magnitude, exclude, i, c) <= MaxRow(image, filter, magnitude, exclude, i, m)
    ensures MaxRow(image, filter, magnitude, exclude, i, m) == -1 ||
      exists c :: 1 <= c < m && Candidate(image, filter, magnitude, exclude, i, c) == MaxRow(image, filter, magnitude, exclude, i, m)
    decreases m
  {
    if m > 1 {
      MaxRowIsMaximum(image, filter, magnitude, exclude, i, m - 1);
    }
  }

  lemma {:induction false} MaxRowsIsMaximum(image: array2<int>, filter: seq<seq<int>>, magnitude: (int, int) -> nat, exclude: bool, n: int)
    requires IsFilter(filter)
    requires n <= 1 || n <= image.Length0 - 1
    ensures forall r, c :: 1 <= r < n && Interior(image, r, c) ==>
      Candidate(image, filter, magnitude, exclude, r, c) <= MaxRows(image, filter, magnitude, exclude, n)
    ensures MaxRows(image, filter, magnitude, exclude, n) == -1 ||
      exists r, c :: 1 <= r < n && Interior(image, r, c) &&
        Candidate(image, filter, magnitude, exclude, r, c) == MaxRows(image, filter, magnitude, exclude, n)
    decreases n
  {
    if n > 1 {
      MaxRowsIsMaximum(image, filter, magnitude, exclude, n - 1);
      MaxRowIsMaximum(image, filter, magnitude, exclude, n - 1, image.Length1 - 1);
    }
  }

  /**
   * `maxGradient` is the largest magnitude stored at a pixel that was not
   * skipped; it stays -1 exactly when every interior pixel was skipped (or
   * there is none).
   */
  lemma MaxGradientIsMaximum(image: array2<int>, filter: seq<seq<int>>, magnitude: (int, int) -> nat, exclude: bool)
    requires IsFilter(filter)
    ensures forall r, c :: Interior(image, r, c) && !Skipped(image, filter, exclude, r, c) ==>
      GradientCell(image, filter, magnitude, exclude, r, c) <= MaxGradient(image, filter, magnitude, exclude)
    ensures MaxGradient(image, filter, magnitude, exclude) == -1 <==>
      forall r, c :: Interior(image, r, c) ==> Skipped(image, filter, exclude, r, c)
    ensures MaxGradient(image, filter, magnitude, exclude) != -1 ==>
      exists r, c :: Interior(image, r, c) && !Skipped(image, filter, exclude, r, c) &&
        GradientCell(image, filter, magnitude, exclude, r, c) == MaxGradient(image, filter, magnitude, exclude)
  {
    var n := if image.Length0 >= 2 then image.Length0 - 1 else 1;
    MaxRowsIsMaximum(image, filter, magnitude, exclude, n);
    assert forall r, c :: Interior(image, r, c) ==> 1 <= r < n;
  }

  /**
   * The window loops of one interior pixel: they stop at the first sample
   * above 100, otherwise they accumulate Gx and Gy.
   */
  method WindowGradient(image: array2<int>, filter: seq<seq<int>>, i: int, j: int) returns (excluded: bool, gx: int, gy: int)
    requires IsFilter(filter) && Interior(image, i, j)
    ensures excluded == Excluded(image, i, j)
    ensures !excluded ==> gx == Gx(image, filter, i, j) && gy == Gy(image, filter, i, j)
  {
    gx, gy := 0, 0;
    var y := 0;
    while y < |filter|
      invariant 0 <= y <= SIZE
      invariant gx == WindowSum(image, filter, false, i, j, y, 0)
      invariant gy == WindowSum(image, filter, true, i, j, y, 0)
      invariant !BrightBefore(image, i, j, y, 0)
    {
      var x := 0;
      while x < |filter|
        invariant 0 <= x <= SIZE
        invariant gx == WindowSum(image, filter, false, i, j, y, x)
        invariant gy == WindowSum(image, filter, true, i, j, y, x)
        invariant !BrightBefore(image, i, j, y, x)
      {
        var sample := Blue(image[i + x - 1, j + y - 1]);
        if sample > BRIGHT_LIMIT {
          BrightBeforeGrows(image, i, j, y, x + 1);
          excluded := true;
          return;
        }
        gx := gx + filter[y][x] * sample;
        gy := gy + filter[x][y] * sample;
        x := x + 1;
      }
      y := y + 1;
    }
    excluded := false;
  }

  /** One pass of the column loop of the gradient computation, over interior row i. */
  method GradientRow(image: array2<int>, filter: seq<seq<int>>, magnitude: (int, int) -> nat, angleOf: (int, int) -> real,
                     gradient: array2<int>, angles: array2<real>, i: int, maxIn: int) returns (maxOut: int)
    requires IsFilter(filter) && gradient != image
    requires gradient.Length0 == angles.Length0 == image.Length0 && gradient.Length1 == angles.Length1 == image.Length1
    requires 1 <= i < image.Length0 - 1 && maxIn >= -1
    modifies gradient, angles
    ensures forall c :: 1 <= c < image.Length1 - 1 ==>
      gradient[i, c] == GradientCell(image, filter, magnitude, true, i, c) && angles[i, c] == AngleCell(image, filter, angleOf, true, i, c)
    ensures forall r, c :: 0 <= r < gradient.Length0 && 0 <= c < gradient.Length1 && !(r == i && 1 <= c < image.Length1 - 1) ==>
      gradient[r, c] == old(gradient[r, c]) && angles[r, c] == old(angles[r, c])
    ensures maxOut == Max(maxIn, MaxRow(image, filter, magnitude, true, i, image.Length1 - 1))
  {
    maxOut := maxIn;
    var width := image.Length1;
    var j := 1;
    while j < width - 1
      invariant 1 <= j <= if width >= 2 then width - 1 else 1
      invariant forall c :: 1 <= c < j ==>
        gradient[i, c] == old(GradientCell(image, filter, magnitude, true, i, c)) && angles[i, c] == old(AngleCell(image, filter, angleOf, true, i, c))
      invariant forall r, c :: 0 <= r < gradient.Length0 && 0 <= c < gradient.Length1 && !(r == i && 1 <= c < j) ==>
        gradient[r, c] == old(gradient[r, c]) && angles[r, c] == old(angles[r, c])
      invariant maxOut == Max(maxIn, old(MaxRow(image, filter, magnitude, true, i, j)))
    {
      var g, angle, candidate := PixelGradient(image, filter, magnitude, angleOf, i, j);
      if candidate > maxOut {
        maxOut := candidate;
      }
      gradient[i, j] := g;
      angles[i, j] := angle;
      j := j + 1;
    }
  }

  /** The body of the column loop for one interior pixel: its gradient, angle and running-maximum candidate. */
  method PixelGradient(image: array2<int>, filter: seq<seq<int>>, magnitude: (int, int) -> nat, angleOf: (int, int) -> real, i: int, j: int)
    returns (g: nat, angle: real, candidate: int)
    requires IsFilter(filter) && Interior(image, i, j)
    ensures g == GradientCell(image, filter, magnitude, true, i, j)
    ensures angle == AngleCell(image, filter, angleOf, true, i, j)
    ensures candidate == Candidate(image, filter, magnitude, true, i, j)
  {
    var excluded, gx, gy := WindowGradient(image, filter, i, j);
    if excluded {
      g, angle, candidate := 0, 0.0, -1;
    } else {
      g := magnitude(gx, gy);
      angle := Normalised(angleOf(gx, gy));
      candidate := g;
    }
  }

  /**
   * `calculateGradientAndAngle`: fresh grids of the input's size whose frame
   * stays 0; every interior pixel holds its gradient (0 when excluded), and
   * `maxGradient` is the running maximum over the pixels not excluded.
   */
  method CalculateGradientAndAngle(image: array2<int>, filter: seq<seq<int>>, magnitude: (int, int) -> nat, angleOf: (int, int) -> real)
    returns (gradient: array2<int>, angles: array2<real>, maxGradient: int)
    requires IsFilter(filter)
    ensures gradient.Length0 == angles.Length0 == image.Length0 && gradient.Length1 == angles.Length1 == image.Length1
    ensures forall r, c :: 0 <= r < gradient.Length0 && 0 <= c < gradient.Length1 ==>
      gradient[r, c] == GradientCell(image, filter, magnitude, true, r, c)
    ensures forall r, c :: 0 <= r < angles.Length0 && 0 <= c < angles.Length1 ==>
      angles[r, c] == AngleCell(image, filter, angleOf, true, r, c)
    ensures maxGradient == MaxGradient(image, filter, magnitude, true)
  {
    var width, height := image.Length1, image.Length0;
    gradient := new int[height, width]((r, c) => 0);
    angles := new real[height, width]((r, c) => 0.0);
    maxGradient := -1;
    var i := 1;
    while i < height - 1
      invariant 1 <= i <= if height >= 2 then height - 1 else 1
      invariant forall r, c :: 0 <= r < height && 0 <= c < width ==>
        gradient[r, c] == (if r < i then old(GradientCell(image, filter, magnitude, true, r, c)) else 0) &&
        angles[r, c] == (if r < i then old(AngleCell(image, filter, angleOf, true, r, c)) else 0.0)
      invariant maxGradient == old(MaxRows(image, filter, magnitude, true, i))
    {
      maxGradient := GradientRow(image, filter, magnitude, angleOf, gradient, angles, i, maxGradient);
      i := i + 1;
    }
  }

  /** The cells whose masked amplitude exceeds t. */
  function Above(grid: array2<int>, t: int): set<(int, int)>
    reads grid
  {
    set r, c | 0 <= r < grid.Length0 && 0 <= c < grid.Length1 && Blue(grid[r, c]) > t :: (r, c)
  }

  /** `thresholdGradient`: a cell is white exactly when its amplitude exceeds the threshold. */
  method ThresholdGradient(gradient: array2<int>, minThreshold: int) returns (thresholded: array2<int>)
    ensures thresholded.Length0 == gradient.Length0 && thresholded.Length1 == gradient.Length1
    ensures forall r, c :: 0 <= r < thresholded.Length0 && 0 <= c < thresholded.Length1 ==>
      thresholded[r, c] == if Blue(gradient[r, c]) > minThreshold then WHITE else BLACK
  {
    var width, height := gradient.Length1, gradient.Length0;
    thresholded := new int[height, width]((r, c) => 0);
    var i := 0;
    while i < height
      invariant 0 <= i <= height
      invariant forall r, c :: 0 <= r < height && 0 <= c < width ==>
        thresholded[r, c] == if r < i && Blue(gradient[r, c]) > minThreshold then WHITE else BLACK
    {
      var j := 0;
      while j < width
        invariant 0 <= j <= width
        invariant forall r, c :: 0 <= r < height && 0 <= c < width ==>
          thresholded[r, c] == if (r < i || (r == i && c < j)) && Blue(gradient[r, c]) > minThreshold then WHITE else BLACK
      {
        var amplitude := Blue(gradient[i, j]);
        if amplitude > minThreshold {
          thresholded[i, j] := WHITE;
        }
        j := j + 1;
      }
      i := i + 1;
    }
  }

  lemma {:induction false} SubsetCardinality<T>(a: set<T>, b: set<T>)
    requires a <= b
    ensures |a| <= |b|
  {
    if a != {} {
      var x :| x in a;
      SubsetCardinality(a - {x}, b - {x});
    }
  }

  /** Raising the threshold can only shrink the set of white cells. */
  lemma ThresholdIsMonotone(gradient: array2<int>, low: int, high: int)
    requires low <= high
    ensures Above(gradient, high) <= Above(gradient, low)
    ensures |Above(gradient, high)| <= |Above(gradient, low)|
  {
    SubsetCardinality(Above(gradient, high), Above(gradient, low));
  }

  /**
   * `getThresholdGradient`: the gradient pass followed by the threshold pass,
   * whose threshold `round(beta * alpha * maxGradient)` is `minThresholdOf`.
   */
  method GetThresholdGradient(image: array2<int>, filter: seq<seq<int>>, magnitude: (int, int) -> nat, angleOf: (int, int) -> real,
                              minThresholdOf: int -> int) returns (thresholded: array2<int>)
    requires IsFilter(filter)
    ensures thresholded.Length0 == image.Length0 && thresholded.Length1 == image.Length1
    ensures forall r, c :: 0 <= r < thresholded.Length0 && 0 <= c < thresholded.Length1 ==>
      thresholded[r, c] ==
        if Blue(GradientCell(image, filter, magnitude, true, r, c)) > minThresholdOf(MaxGradient(image, filter, magnitude, true))
        then WHITE else BLACK
  {
    var gradient, _, maxGradient := CalculateGradientAndAngle(image, filter, magnitude, angleOf);
    thresholded := ThresholdGradient(gradient, minThresholdOf(maxGradient));
  }

  /** Neighbour offsets (row, column) of the two cells non-maximum suppression compares against. */
  datatype Neighbours = Neighbours(qRow: int, qCol: int, rRow: int, rCol: int) | NoNeighbours

  /**
   * The angle chain of `makeCannyEdge`. Each test joins its bounds with `||`,
   * so the first one holds for every angle: the comparison is always against
   * the pixels directly below and above.
   */
  function NeighbourOffsets(angle: real): (n: Neighbours)
    ensures n == Neighbours(1, 0, -1, 0)
  {
    if 0.0 <= angle || angle < 22.5 || 157.5 <= angle || angle < 180.0 then Neighbours(1, 0, -1, 0)
    else if 22.5 <= angle || angle < 67.5 then Neighbours(-1, 1, 1, -1)
    else if 67.5 <= angle || angle < 112.5 then Neighbours(0, 1, 0, -1)
    else if 122.5 <= angle || angle < 157.5 then Neighbours(-1, -1, 1, 1)
    else NoNeighbours
  }

  /** A cell of the suppressed grid: kept when it is at least its vertical neighbours. */
  function SuppressedCell(gradient: array2<int>, r: int, c: int): int
    reads gradient
    requires 0 <= r < gradient.Length0 && 0 <= c < gradient.Length1
  {
    if 1 <= r < gradient.Length0 - 1 && 1 <= c < gradient.Length1 - 1 &&
       Blue(gradient[r, c]) >= Blue(gradient[r + 1, c]) && Blue(gradient[r, c]) >= Blue(gradient[r - 1, c])
    then gradient[r, c] else BLACK
  }

  /**
   * `makeCannyEdge`: whatever the angle, an interior pixel keeps its value
   * exactly when it is at least the pixels below and above it, else it turns
   * black; the frame stays black.
   */
  method MakeCannyEdge(gradient: array2<int>, angles: array2<real>) returns (cannyEdge: array2<int>)
    requires angles.Length0 == gradient.Length0 && angles.Length1 == gradient.Length1
    ensures fresh(cannyEdge)
    ensures cannyEdge.Length0 == gradient.Length0 && cannyEdge.Length1 == gradient.Length1
    ensures forall r, c :: 0 <= r < cannyEdge.Length0 && 0 <= c < cannyEdge.Length1 ==>
      cannyEdge[r, c] == SuppressedCell(gradient, r, c)
  {
    var width, height := gradient.Length1, gradient.Length0;
    cannyEdge := new int[height, width]((r, c) => 0);
    var i := 1;
    while i < height - 1
      invariant 1 <= i <= if height >= 2 then height - 1 else 1
      invariant forall r, c :: 0 <= r < height && 0 <= c < width ==>
        cannyEdge[r, c] == if r < i then SuppressedCell(gradient, r, c) else BLACK
    {
      var j := 1;
      while j < width - 1
        invariant 1 <= j <= if width >= 2 then width - 1 else 1
        invariant forall r, c :: 0 <= r < height && 0 <= c < width ==>
          cannyEdge[r, c] == if r < i || (r == i && c < j) then SuppressedCell(gradient, r, c) else BLACK
      {
        var q: int, s: int := -1, -1;
        var n := NeighbourOffsets(angles[i, j]);
        if n.Neighbours? {
          q := Blue(gradient[i + n.qRow, j + n.qCol]);
          s := Blue(gradient[i + n.rRow, j + n.rCol]);
        }
        if Blue(gradient[i, j]) >= q && Blue(gradient[i, j]) >= s {
          cannyEdge[i, j] := gradient[i, j];
        } else {
          cannyEdge[i, j] := BLACK;
        }
        j := j + 1;
      }
      i := i + 1;
    }
  }

  /** A weak amplitude lies strictly between the two thresholds and is resolved later. */
  predicate IsWeak(amplitude: int, minThreshold: int, maxThreshold: int)
  {
    minThreshold < amplitude < maxThreshold
  }

  /** A strong amplitude is above the lower threshold and at least the upper one. */
  predicate IsStrong(amplitude: int, minThreshold: int, maxThreshold: int)
  {
    minThreshold < amplitude && maxThreshold <= amplitude
  }

  /** The cell value hysteresis leaves: white for strong amplitudes, black for all others. */
  function Resolved(amplitude: int, minThreshold: int, maxThreshold: int): int
  {
    if IsStrong(amplitude, minThreshold, maxThreshold) then WHITE else BLACK
  }

  /** A queued weak pixel, as the pair `{j, i}` (column first). */
  datatype WeakPixel = WeakPixel(col: int, row: int)

  /**
   * The weak-pixel queue of a grid: exactly its weak cells, each in bounds,
   * in strictly increasing row-major order.
   */
  predicate IsWeakQueue(grid: array2<int>, minThreshold: int, maxThreshold: int, weakPixels: seq<WeakPixel>)
    reads grid
  {
    (forall k :: 0 <= k < |weakPixels| ==>
      0 <= weakPixels[k].row < grid.Length0 && 0 <= weakPixels[k].col < grid.Length1 &&
      IsWeak(Blue(grid[weakPixels[k].row, weakPixels[k].col]), minThreshold, maxThreshold)) &&
    (forall r, c :: 0 <= r < grid.Length0 && 0 <= c < grid.Length1 && IsWeak(Blue(grid[r, c]), minThreshold, maxThreshold) ==>
      WeakPixel(c, r) in weakPixels) &&
    (forall k, l :: 0 <= k < l < |weakPixels| ==>
      Precedes(weakPixels[k].row, weakPixels[k].col, weakPixels[l].row, weakPixels[l].col))
  }

  /** The weak cells among columns 0..j-1 of row i, left to right. */
  function WeakInRow(grid: array2<int>, minThreshold: int, maxThreshold: int, i: int, j: int): seq<WeakPixel>
    reads grid
    requires 0 <= i < grid.Length0 && 0 <= j <= grid.Length1
    decreases j
  {
    if j == 0 then []
    else
      WeakInRow(grid, minThreshold, maxThreshold, i, j - 1) +
      (if IsWeak(Blue(grid[i, j - 1]), minThreshold, maxThreshold) then [WeakPixel(j - 1, i)] else [])
  }

  /** The weak cells of rows 0..i-1, in the row-major order the classifying loops visit them. */
  function WeakQueue(grid: array2<int>, minThreshold: int, maxThreshold: int, i: int): seq<WeakPixel>
    reads grid
    requires 0 <= i <= grid.Length0
    decreases i
  {
    if i == 0 then []
    else WeakQueue(grid, minThreshold, maxThreshold, i - 1) + WeakInRow(grid, minThreshold, maxThreshold, i - 1, grid.Length1)
  }

  /** Each queued cell of row i lies in that row, in a column below j, and is weak. */
  lemma {:induction false} WeakInRowIsSound(grid: array2<int>, minThreshold: int, maxThreshold: int, i: int, j: int)
    requires 0 <= i < grid.Length0 && 0 <= j <= grid.Length1
    ensures forall k :: 0 <= k < |WeakInRow(grid, minThreshold, maxThreshold, i, j)| ==>
      var p := WeakInRow(grid, minThreshold, maxThreshold, i, j)[k];
      p.row == i && 0 <= p.col < j && IsWeak(Blue(grid[i, p.col]), minThreshold, maxThreshold)
    decreases j
  {
    if j > 0 {
      WeakInRowIsSound(grid, minThreshold, maxThreshold, i, j - 1);
      var p := WeakInRow(grid, minThreshold, maxThreshold, i, j - 1);
      var w: seq<WeakPixel> := if IsWeak(Blue(grid[i, j - 1]), minThreshold, maxThreshold) then [WeakPixel(j - 1, i)] else [];
      assert WeakInRow(grid, minThreshold, maxThreshold, i, j) == p + w;
      forall k | 0 <= k < |p + w|
        ensures var q := (p + w)[k]; q.row == i && 0 <= q.col < j && IsWeak(Blue(grid[i, q.col]), minThreshold, maxThreshold)
      {
        if k < |p| {
          assert (p + w)[k] == p[k];
        } else {
          assert (p + w)[k] == w[0];
        }
      }
    }
  }

  /** Every weak cell of row i below column j is queued. */
  lemma {:induction false} WeakInRowIsComplete(grid: array2<int>, minThreshold: int, maxThreshold: int, i: int, j: int)
    requires 0 <= i < grid.Length0 && 0 <= j <= grid.Length1
    ensures forall c :: 0 <= c < j && IsWeak(Blue(grid[i, c]), minThreshold, maxThreshold) ==>
      WeakPixel(c, i) in WeakInRow(grid, minThreshold, maxThreshold, i, j)
    decreases j
  {
    if j > 0 {
      WeakInRowIsComplete(grid, minThreshold, maxThreshold, i, j - 1);
      var p := WeakInRow(grid, minThreshold, maxThreshold, i, j - 1);
      var w: seq<WeakPixel> := if IsWeak(Blue(grid[i, j - 1]), minThreshold, maxThreshold) then [WeakPixel(j - 1, i)] else [];
      assert WeakInRow(grid, minThreshold, maxThreshold, i, j) == p + w;
      forall c | 0 <= c < j && IsWeak(Blue(grid[i, c]), minThreshold, maxThreshold)
        ensures WeakPixel(c, i) in p + w
      {
        if c < j - 1 {
          assert WeakPixel(c, i) in p;
        } else {
          assert (p + w)[|p|] == WeakPixel(c, i);
        }
      }
    }
  }

  /** The queued cells of row i come in strictly increasing column order. */
  lemma {:induction false} WeakInRowIsOrdered(grid: array2<int>, minThreshold: int, maxThreshold: int, i: int, j: int)
    requires 0 <= i < grid.Length0 && 0 <= j <= grid.Length1
    ensures forall k, l :: 0 <= k < l < |WeakInRow(grid, minThreshold, maxThreshold, i, j)| ==>
      WeakInRow(grid, minThreshold, maxThreshold, i, j)[k].col < WeakInRow(grid, minThreshold, maxThreshold, i, j)[l].col
    decreases j
  {
    if j > 0 {
      WeakInRowIsOrdered(grid, minThreshold, maxThreshold, i, j - 1);
      WeakInRowIsSound(grid, minThreshold, maxThreshold, i, j - 1);
      var p := WeakInRow(grid, minThreshold, maxThreshold, i, j - 1);
      var w: seq<WeakPixel> := if IsWeak(Blue(grid[i, j - 1]), minThreshold, maxThreshold) then [WeakPixel(j - 1, i)] else [];
      assert WeakInRow(grid, minThreshold, maxThreshold, i, j) == p + w;
      forall k, l | 0 <= k < l < |p + w|
        ensures (p + w)[k].col < (p + w)[l].col
      {
        if l < |p| {
          assert (p + w)[k] == p[k] && (p + w)[l] == p[l];
        } else {
          assert (p + w)[k] == p[k] && (p + w)[l] == w[0];
        }
      }
    }
  }

  /** The three facts about one row together. */
  lemma WeakInRowFacts(grid: array2<int>, minThreshold: int, maxThreshold: int, i: int, j: int)
    requires 0 <= i < grid.Length0 && 0 <= j <= grid.Length1
    ensures forall k :: 0 <= k < |WeakInRow(grid, minThreshold, maxThreshold, i, j)| ==>
      var p := WeakInRow(grid, minThreshold, maxThreshold, i, j)[k];
      p.row == i && 0 <= p.col < j && IsWeak(Blue(grid[i, p.col]), minThreshold, maxThreshold)
    ensures forall c :: 0 <= c < j && IsWeak(Blue(grid[i, c]), minThreshold, maxThreshold) ==>
      WeakPixel(c, i) in WeakInRow(grid, minThreshold, maxThreshold, i, j)
    ensures forall k, l :: 0 <= k < l < |WeakInRow(grid, minThreshold, maxThreshold, i, j)| ==>
      WeakInRow(grid, minThreshold, maxThreshold, i, j)[k].col < WeakInRow(grid, minThreshold, maxThreshold, i, j)[l].col
  {
    WeakInRowIsSound(grid, minThreshold, maxThreshold, i, j);
    WeakInRowIsComplete(grid, minThreshold, maxThreshold, i, j);
    WeakInRowIsOrdered(grid, minThreshold, maxThreshold, i, j);
  }

  /** Every queued cell lies in rows 0..i-1 and is weak. */
  lemma {:induction false} WeakQueueIsSound(grid: array2<int>, minThreshold: int, maxThreshold: int, i: int)
    requires 0 <= i <= grid.Length0
    ensures forall k :: 0 <= k < |WeakQueue(grid, minThreshold, maxThreshold, i)| ==>
      var p := WeakQueue(grid, minThreshold, maxThreshold, i)[k];
      0 <= p.row < i && 0 <= p.col < grid.Length1 && IsWeak(Blue(grid[p.row, p.col]), minThreshold, maxThreshold)
    decreases i
  {
    if i > 0 {
      WeakQueueIsSound(grid, minThreshold, maxThreshold, i - 1);
      WeakInRowFacts(grid, minThreshold, maxThreshold, i - 1, grid.Length1);
      var p: seq<WeakPixel> := WeakQueue(grid, minThreshold, maxThreshold, i - 1);
      var w: seq<WeakPixel> := WeakInRow(grid, minThreshold, maxThreshold, i - 1, grid.Length1);
      forall k | 0 <= k < |p + w|
        ensures 0 <= (p + w)[k].row < i && 0 <= (p + w)[k].col < grid.Length1
        ensures IsWeak(Blue(grid[(p + w)[k].row, (p + w)[k].col]), minThreshold, maxThreshold)
      {
        if k < |p| {
          assert (p + w)[k] == p[k];
        } else {
          assert (p + w)[k] == w[k - |p|];
        }
      }
    }
  }

  /** Every weak cell of rows 0..i-1 is queued. */
  lemma {:induction false} WeakQueueIsComplete(grid: array2<int>, minThreshold: int, maxThreshold: int, i: int)
    requires 0 <= i <= grid.Length0
    ensures forall r, c :: 0 <= r < i && 0 <= c < grid.Length1 && IsWeak(Blue(grid[r, c]), minThreshold, maxThreshold) ==>
      WeakPixel(c, r) in WeakQueue(grid, minThreshold, maxThreshold, i)
    decreases i
  {
    if i > 0 {
      WeakQueueIsComplete(grid, minThreshold, maxThreshold, i - 1);
      WeakInRowFacts(grid, minThreshold, maxThreshold, i - 1, grid.Length1);
    }
  }

  /** The queue is strictly increasing in row-major order. */
  lemma {:induction false} WeakQueueIsSorted(grid: array2<int>, minThreshold: int, maxThreshold: int, i: int)
    requires 0 <= i <= grid.Length0
    ensures forall k, l :: 0 <= k < l < |WeakQueue(grid, minThreshold, maxThreshold, i)| ==>
      var p, p' := WeakQueue(grid, minThreshold, maxThreshold, i)[k], WeakQueue(grid, minThreshold, maxThreshold, i)[l];
      Precedes(p.row, p.col, p'.row, p'.col)
    decreases i
  {
    if i > 0 {
      WeakQueueIsSorted(grid, minThreshold, maxThreshold, i - 1);
      WeakQueueIsSound(grid, minThreshold, maxThreshold, i - 1);
      WeakInRowFacts(grid, minThreshold, maxThreshold, i - 1, grid.Length1);
      var p: seq<WeakPixel> := WeakQueue(grid, minThreshold, maxThreshold, i - 1);
      var w: seq<WeakPixel> := WeakInRow(grid, minThreshold, maxThreshold, i - 1, grid.Length1);
      forall k, l | 0 <= k < l < |p + w|
        ensures Precedes((p + w)[k].row, (p + w)[k].col, (p + w)[l].row, (p + w)[l].col)
      {
        if l < |p| {
          assert (p + w)[k] == p[k] && (p + w)[l] == p[l];
        } else if k < |p| {
          assert (p + w)[k] == p[k] && (p + w)[l] == w[l - |p|];
        } else {
          assert (p + w)[k] == w[k - |p|] && (p + w)[l] == w[l - |p|];
        }
      }
    }
  }

  /**
   * The queue the classifying loops build holds exactly the weak cells, each
   * once, strictly ordered row by row and left to right.
   */
  lemma WeakQueueIsWeakQueue(grid: array2<int>, minThreshold: int, maxThreshold: int)
    ensures IsWeakQueue(grid, minThreshold, maxThreshold, WeakQueue(grid, minThreshold, maxThreshold, grid.Length0))
  {
    WeakQueueIsSound(grid, minThreshold, maxThreshold, grid.Length0);
    WeakQueueIsComplete(grid, minThreshold, maxThreshold, grid.Length0);
    WeakQueueIsSorted(grid, minThreshold, maxThreshold, grid.Length0);
  }

  /**
   * The first hysteresis pass over a fresh grid: strong cells are written
   * white, the others black (weak ones are left as the fresh grid's 0) and the
   * weak ones are queued in row-major order.
   */
  method ClassifyPixels(image: array2<int>, minThreshold: int, maxThreshold: int)
    returns (hysteresis: array2<int>, weakPixels: seq<WeakPixel>)
    ensures fresh(hysteresis)
    ensures hysteresis.Length0 == image.Length0 && hysteresis.Length1 == image.Length1
    ensures forall r, c :: 0 <= r < hysteresis.Length0 && 0 <= c < hysteresis.Length1 ==>
      hysteresis[r, c] == Resolved(Blue(image[r, c]), minThreshold, maxThreshold)
    ensures weakPixels == WeakQueue(image, minThreshold, maxThreshold, image.Length0)
  {
    var width, height := image.Length1, image.Length0;
    hysteresis := new int[height, width]((r, c) => 0);
    weakPixels := [];
    var i := 0;
    while i < height
      invariant 0 <= i <= height
      invariant forall r, c :: 0 <= r < height && 0 <= c < width ==>
        hysteresis[r, c] == if r < i then Resolved(Blue(old(image[r, c])), minThreshold, maxThreshold) else BLACK
      invariant weakPixels == old(WeakQueue(image, minThreshold, maxThreshold, i))
    {
      var j := 0;
      while j < width
        invariant 0 <= j <= width
        invariant forall r, c :: 0 <= r < height && 0 <= c < width ==>
          hysteresis[r, c] == if Precedes(r, c, i, j) then Resolved(Blue(old(image[r, c])), minThreshold, maxThreshold) else BLACK
        invariant weakPixels == old(WeakQueue(image, minThreshold, maxThreshold, i) + WeakInRow(image, minThreshold, maxThreshold, i, j))
      {
        var amplitude := Blue(image[i, j]);
        if amplitude <= minThreshold {
          hysteresis[i, j] := BLACK;
        } else if amplitude >= maxThreshold {
          hysteresis[i, j] := WHITE;
        } else {
          weakPixels := weakPixels + [WeakPixel(j, i)];
        }
        j := j + 1;
      }
      i := i + 1;
    }
  }

  /**
   * The cells the neighbour loops examine for the weak pixel at (row, col):
   * column offsets a..b-1 and row offsets c..d-1, all of them -1 or 0, with
   * the pixel itself skipped.
   */
  predicate Examined(height: int, width: int, row: int, col: int, r: int, c: int)
  {
    var a := if col != 0 then -1 else 0;
    var b := if col != height then 1 else 0;
    var lo := if row != 0 then -1 else 0;
    var hi := if row != width then 1 else 0;
    a <= c - col < b && lo <= r - row < hi && !(r == row && c == col)
  }

  /** Every examined cell lies inside the grid and strictly before the weak pixel in row-major order. */
  lemma ExaminedPrecedes(height: int, width: int, row: int, col: int, r: int, c: int)
    requires 0 <= row < height && 0 <= col < width
    requires Examined(height, width, row, col, r, c)
    ensures 0 <= r < height && 0 <= c < width
    ensures Precedes(r, c, row, col)
  {
  }

  /**
   * The second hysteresis pass for one weak pixel: it turns white exactly when
   * an examined neighbour holds exactly 255, and black otherwise; no other
   * cell changes.
   */
  method ResolveWeakPixel(grid: array2<int>, row: int, col: int)
    requires 0 <= row < grid.Length0 && 0 <= col < grid.Length1
    modifies grid
    ensures forall r, c :: 0 <= r < grid.Length0 && 0 <= c < grid.Length1 && !(r == row && c == col) ==>
      grid[r, c] == old(grid[r, c])
    ensures grid[row, col] ==
      if (exists r, c :: 0 <= r < grid.Length0 && 0 <= c < grid.Length1 &&
            Examined(grid.Length0, grid.Length1, row, col, r, c) && old(grid[r, c]) == 255)
      then WHITE else BLACK
  {
    var height, width := grid.Length0, grid.Length1;
    var a := if col != 0 then -1 else 0;
    var b := if col != height then 1 else 0;
    var c := if row != 0 then -1 else 0;
    var d := if row != width then 1 else 0;
    var i := a;
    while i < b
      invariant a <= i <= b
      invariant forall r, k :: 0 <= r < height && 0 <= k < width && !(r == row && k == col) ==> grid[r, k] == old(grid[r, k])
      invariant grid[row, col] == if i == a then old(grid[row, col]) else BLACK
      invariant forall r, k :: 0 <= r < height && 0 <= k < width && Examined(height, width, row, col, r, k) && k - col < i ==>
        grid[r, k] != 255
    {
      var j := c;
      while j < d
        invariant c <= j <= d
        invariant forall r, k :: 0 <= r < height && 0 <= k < width && !(r == row && k == col) ==> grid[r, k] == old(grid[r, k])
        invariant grid[row, col] == if i == a then old(grid[row, col]) else BLACK
        invariant forall r, k :: (0 <= r < height && 0 <= k < width && Examined(height, width, row, col, r, k) &&
          (k - col < i || (k - col == i && r - row < j))) ==> grid[r, k] != 255
      {
        if i == 0 && j == 0 {
          j := j + 1;
          continue;
        }
        if grid[row + j, col + i] == 255 {
          grid[row, col] := WHITE;
          return;
        }
        j := j + 1;
      }
      grid[row, col] := BLACK;
      i := i + 1;
    }
  }

  /**
   * `hysteresisThreshold`: the output is written on a fresh grid, which only
   * ever holds black and white, so no neighbour ever reads exactly 255 and
   * every weak pixel ends black. Strong pixels are white, all others black.
   */
  method HysteresisThreshold(image: array2<int>, minThreshold: int, maxThreshold: int) returns (hysteresis: array2<int>)
    ensures hysteresis.Length0 == image.Length0 && hysteresis.Length1 == image.Length1
    ensures forall r, c :: 0 <= r < hysteresis.Length0 && 0 <= c < hysteresis.Length1 ==>
      hysteresis[r, c] == Resolved(Blue(image[r, c]), minThreshold, maxThreshold)
  {
    var weakPixels;
    hysteresis, weakPixels := ClassifyPixels(image, minThreshold, maxThreshold);
    WeakQueueIsWeakQueue(image, minThreshold, maxThreshold);
    var k := 0;
    while k < |weakPixels|
      invariant 0 <= k <= |weakPixels|
      invariant old(IsWeakQueue(image, minThreshold, maxThreshold, weakPixels))
      invariant forall r, c :: 0 <= r < hysteresis.Length0 && 0 <= c < hysteresis.Length1 ==>
        hysteresis[r, c] == Resolved(Blue(old(image[r, c])), minThreshold, maxThreshold)
    {
      var weakPixel := weakPixels[k];
      ResolveWeakPixel(hysteresis, weakPixel.row, weakPixel.col);
      k := k + 1;
    }
  }

  /**
   * `getCannyEdge`: gradient, suppression and hysteresis in sequence. The
   * upper threshold `round(alpha * maxGradient)` is `highOf`, the lower
   * `round(beta * maxThreshold)` is `lowOf`.
   */
  method GetCannyEdge(image: array2<int>, filter: seq<seq<int>>, magnitude: (int, int) -> nat, angleOf: (int, int) -> real,
                      highOf: int -> int, lowOf: int -> int) returns (edges: array2<int>)
    requires IsFilter(filter)
    ensures edges.Length0 == image.Length0 && edges.Length1 == image.Length1
    ensures forall r, c :: 0 <= r < edges.Length0 && 0 <= c < edges.Length1 ==>
      var maxThreshold := highOf(MaxGradient(image, filter, magnitude, true));
      edges[r, c] == Resolved(Blue(SuppressedGradient(image, filter, magnitude, true, r, c)), lowOf(maxThreshold), maxThreshold)
  {
    var gradient, angles, maxGradient := CalculateGradientAndAngle(image, filter, magnitude, angleOf);
    var cannyEdge := MakeCannyEdge(gradient, angles);
    var maxThreshold := highOf(maxGradient);
    var minThreshold := lowOf(maxThreshold);
    edges := HysteresisThreshold(cannyEdge, minThreshold, maxThreshold);
  }

  /** The suppressed gradient of the input at (r, c), in terms of the input alone. */
  function SuppressedGradient(image: array2<int>, filter: seq<seq<int>>, magnitude: (int, int) -> nat, exclude: bool, r: int, c: int): int
    reads image
    requires IsFilter(filter)
  {
    var g := GradientCell(image, filter, magnitude, exclude, r, c);
    if Interior(image, r, c) &&
       Blue(g) >= Blue(GradientCell(image, filter, magnitude, exclude, r + 1, c)) &&
       Blue(g) >= Blue(GradientCell(image, filter, magnitude, exclude, r - 1, c))
    then g else BLACK
  }

  /** The sum of the weights visited before position (y, x). */
  function WeightSum(filter: seq<seq<int>>, transposed: bool, y: nat, x: nat): int
    requires IsFilter(filter) && Position(y, x)
    decreases y, x
  {
    if x == 0 then (if y == 0 then 0 else WeightSum(filter, transposed, y - 1, SIZE))
    else WeightSum(filter, transposed, y, x - 1) + Weight(filter, transposed, y, x - 1)
  }

  lemma {:induction false} UniformWindowSum(image: array2<int>, filter: seq<seq<int>>, transposed: bool, i: int, j: int, y: nat, x: nat, v: int)
    requires IsFilter(filter) && Interior(image, i, j) && Position(y, x)
    requires UniformWindow(image, 1, i, j, v)
    ensures WindowSum(image, filter, transposed, i, j, y, x) == v * WeightSum(filter, transposed, y, x)
    decreases y, x
  {
    if x > 0 {
      UniformWindowSum(image, filter, transposed, i, j, y, x - 1, v);
      assert Sample(image, i, j, y, x - 1) == v by {
        assert InWindow(i, j, i + x - 2, j + y - 1);
      }
      MulDistributes(v, WeightSum(filter, transposed, y, x - 1), Weight(filter, transposed, y, x - 1));
    } else if y > 0 {
      UniformWindowSum(image, filter, transposed, i, j, y - 1, SIZE, v);
    }
  }

  /** A filter whose weights add up to zero, read either way round. */
  predicate IsBalanced(filter: seq<seq<int>>)
  {
    IsFilter(filter) && WeightSum(filter, false, SIZE, 0) == 0 && WeightSum(filter, true, SIZE, 0) == 0
  }

  /** On a window of constant gray level both gradient components vanish. */
  lemma UniformWindowHasNoGradient(image: array2<int>, filter: seq<seq<int>>, i: int, j: int, v: int)
    requires IsBalanced(filter) && Interior(image, i, j)
    requires UniformWindow(image, 1, i, j, v)
    ensures Gx(image, filter, i, j) == 0 && Gy(image, filter, i, j) == 0
  {
    UniformWindowSum(image, filter, false, i, j, SIZE, 0, v);
    UniformWindowSum(image, filter, true, i, j, SIZE, 0, v);
  }

  /** SOBEL and SCHARR weights add up to zero. */
  lemma PresetFiltersAreBalanced()
    ensures IsBalanced(SOBEL) && IsBalanced(SCHARR)
  {
    assert WeightSum(SOBEL, false, SIZE, 0) == 0;
    assert WeightSum(SOBEL, true, SIZE, 0) == 0;
    assert WeightSum(SCHARR, false, SIZE, 0) == 0;
    assert WeightSum(SCHARR, true, SIZE, 0) == 0;
  }
}
