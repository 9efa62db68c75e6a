/**
 * The older Canny pipeline (logic.CannyEdge).
 *
 * It differs from imageLineExtractor.EdgeDetection in three observable ways:
 * the gradient has no bright-pixel exclusion (Gx and Gy are accumulated by
 * two separate window loops), its SCHARR kernel has a different third row,
 * and hysteresis overwrites the suppressed grid in place. The suppression
 * pass is the same code and is shared.
 */
module CannyEdge {
  import opened Pixels
  import opened EdgeDetection

  const LOGIC_SOBEL: seq<seq<int>> := [
    [-1, 0, 1],
    [-2, 0, 2],
    [-1, 0, 1]
  ]

  const LOGIC_SCHARR: seq<seq<int>> := [
    [-3, 0, 3],
    [-10, 0, 10],
    [-10, 0, 10]
  ]

  /** Both presets of this package still have weights summing to zero, read either way round. */
  lemma LogicPresetFiltersAreBalanced()
    ensures IsBalanced(LOGIC_SOBEL) && IsBalanced(LOGIC_SCHARR)
  {
    assert WeightSum(LOGIC_SOBEL, false, SIZE, 0) == 0;
    assert WeightSum(LOGIC_SOBEL, true, SIZE, 0) == 0;
    assert WeightSum(LOGIC_SCHARR, false, SIZE, 0) == 0;
    assert WeightSum(LOGIC_SCHARR, true, SIZE, 0) == 0;
  }

  /** One of the two window loops: the weighted sum of all nine samples. */
  method WindowLoop(image: array2<int>, filter: seq<seq<int>>, transposed: bool, i: int, j: int) returns (sum: int)
    requires IsFilter(filter) && Interior(image, i, j)
    ensures sum == WindowSum(image, filter, transposed, i, j, SIZE, 0)
  {
    sum := 0;
    var y := 0;
    while y < |filter|
      invariant 0 <= y <= 3
      invariant sum == WindowSum(image, filter, transposed, i, j, y, 0)
    {
      var x := 0;
      while x < |filter|
        invariant 0 <= x <= 3
        invariant sum == WindowSum(image, filter, transposed, i, j, y, x)
      {
        var w := if transposed then filter[x][y] else filter[y][x];
        var sample := Blue(image[i + x - 1, j + y - 1]);
        assert w == Weight(filter, transposed, y, x) && sample == Sample(image, i, j, y, x);
        sum := sum + w * sample;
        x := x + 1;
      }
      y := y + 1;
    }
  }

  /** The column-loop body for one interior pixel: Gx loop, Gy loop, magnitude and angle. */
  method PixelGradient(image: array2<int>, filter: seq<seq<int>>, magnitude: (int, int) -> nat, angleOf: (int, int) -> real, i: int, j: int)
    returns (g: nat, angle: real)
    requires IsFilter(filter) && Interior(image, i, j)
    ensures g == GradientCell(image, filter, magnitude, false, i, j)
    ensures g == Candidate(image, filter, magnitude, false, i, j)
    ensures angle == AngleCell(image, filter, angleOf, false, i, j)
  {
    var gx := WindowLoop(image, filter, false, i, j);
    var gy := WindowLoop(image, filter, true, i, j);
    g := magnitude(gx, gy);
    angle := Normalised(angleOf(gx, gy));
  }

  /** One pass of the column loop over interior row i. */
  method GradientRow(image: array2<int>, filter: seq<seq<int>>, magnitude: (int, int) -> nat, angleOf: (int, int) -> real,
                     gradient: array2<int>, angles: array2<real>, i: int, maxIn: int) returns (maxOut: int)
    requires IsFilter(filter) && gradient != image
    requires gradient.Length0 == angles.Length0 == image.Length0 && gradient.Length1 == angles.Length1 == image.Length1
    requires 1 <= i < image.Length0 - 1 && maxIn >= -1
    modifies gradient, angles
    ensures forall c :: 1 <= c < image.Length1 - 1 ==>
      gradient[i, c] == GradientCell(image, filter, magnitude, false, i, c) && angles[i, c] == AngleCell(image, filter, angleOf, false, i, c)
    ensures forall r, c :: 0 <= r < gradient.Length0 && 0 <= c < gradient.Length1 && !(r == i && 1 <= c < image.Length1 - 1) ==>
      gradient[r, c] == old(gradient[r, c]) && angles[r, c] == old(angles[r, c])
    ensures maxOut == Max(maxIn, MaxRow(image, filter, magnitude, false, i, image.Length1 - 1))
  {
    maxOut := maxIn;
    var width := image.Length1;
    var j := 1;
    while j < width - 1
      invariant 1 <= j <= if width >= 2 then width - 1 else 1
      invariant forall c :: 1 <= c < j ==>
        gradient[i, c] == old(GradientCell(image, filter, magnitude, false, i, c)) && angles[i, c] == old(AngleCell(image, filter, angleOf, false, i, c))
      invariant forall r, c :: 0 <= r < gradient.Length0 && 0 <= c < gradient.Length1 && !(r == i && 1 <= c < j) ==>
        gradient[r, c] == old(gradient[r, c]) && angles[r, c] == old(angles[r, c])
      invariant maxOut == Max(maxIn, old(MaxRow(image, filter, magnitude, false, i, j)))
    {
      var roundedG, angle := PixelGradient(image, filter, magnitude, angleOf, i, j);
      if roundedG > maxOut {
        maxOut := roundedG;
      }
      gradient[i, j] := roundedG;
      angles[i, j] := angle;
      j := j + 1;
    }
  }

  /**
   * `calculateGradientAndAngle` of this package: every interior pixel holds
   * its magnitude (nothing is excluded), the frame stays 0, and `maxGradient`
   * is the maximum over all interior pixels (-1 when there are none).
   */
  method CalculateGradientAndAngle(image: array2<int>, filter: seq<seq<int>>, magnitude: (int, int) -> nat, angleOf: (int, int) -> real)
    returns (gradient: array2<int>, angles: array2<real>, maxGradient: int)
    requires IsFilter(filter)
    ensures gradient.Length0 == angles.Length0 == image.Length0 && gradient.Length1 == angles.Length1 == image.Length1
    ensures forall r, c :: 0 <= r < gradient.Length0 && 0 <= c < gradient.Length1 ==>
      gradient[r, c] == GradientCell(image, filter, magnitude, false, r, c)
    ensures forall r, c :: 0 <= r < angles.Length0 && 0 <= c < angles.Length1 ==>
      angles[r, c] == AngleCell(image, filter, angleOf, false, r, c)
    ensures maxGradient == MaxGradient(image, filter, magnitude, false)
  {
    var width, height := image.Length1, image.Length0;
    gradient := new int[height, width]((r, c) => 0);
    angles := new real[height, width]((r, c) => 0.0);
    maxGradient := -1;
    var i := 1;
    while i < height - 1
      invariant 1 <= i <= if height >= 2 then height - 1 else 1
      invariant forall r, c :: 0 <= r < height && 0 <= c < width ==>
        gradient[r, c] == (if r < i then old(GradientCell(image, filter, magnitude, false, r, c)) else 0) &&
        angles[r, c] == (if r < i then old(AngleCell(image, filter, angleOf, false, r, c)) else 0.0)
      invariant maxGradient == old(MaxRows(image, filter, magnitude, false, i))
    {
      maxGradient := GradientRow(image, filter, magnitude, angleOf, gradient, angles, i, maxGradient);
      i := i + 1;
    }
  }

  /** Without the exclusion, `maxGradient` is -1 only when the image has no interior pixel. */
  lemma MaxGradientWithoutExclusion(image: array2<int>, filter: seq<seq<int>>, magnitude: (int, int) -> nat)
    requires IsFilter(filter)
    ensures MaxGradient(image, filter, magnitude, false) == -1 <==> image.Length0 < 3 || image.Length1 < 3
  {
    MaxGradientIsMaximum(image, filter, magnitude, false);
    if image.Length0 >= 3 && image.Length1 >= 3 {
      assert Interior(image, 1, 1);
    }
  }

  /**
   * The first hysteresis pass, in place: non-weak cells are overwritten with
   * black or white, weak cells keep their value and are queued in row-major
   * order.
   */
  method ClassifyInPlace(image: array2<int>, minThreshold: int, maxThreshold: int) returns (weakPixels: seq<WeakPixel>)
    modifies image
    ensures forall r, c :: 0 <= r < image.Length0 && 0 <= c < image.Length1 ==>
      image[r, c] == if IsWeak(Blue(old(image[r, c])), minThreshold, maxThreshold) then old(image[r, c])
                     else Resolved(Blue(old(image[r, c])), minThreshold, maxThreshold)
    ensures weakPixels == old(WeakQueue(image, minThreshold, maxThreshold, image.Length0))
  {
    var width, height := image.Length1, image.Length0;
    weakPixels := [];
    var i := 0;
    while i < height
      invariant 0 <= i <= height
      invariant forall r, c :: 0 <= r < height && 0 <= c < width ==>
        image[r, c] == if r < i && !IsWeak(Blue(old(image[r, c])), minThreshold, maxThreshold)
                       then Resolved(Blue(old(image[r, c])), minThreshold, maxThreshold) else old(image[r, c])
      invariant weakPixels == old(WeakQueue(image, minThreshold, maxThreshold, i))
    {
      var j := 0;
      while j < width
        invariant 0 <= j <= width
        invariant forall r, c :: 0 <= r < height && 0 <= c < width ==>
          image[r, c] == if Precedes(r, c, i, j) && !IsWeak(Blue(old(image[r, c])), minThreshold, maxThreshold)
                         then Resolved(Blue(old(image[r, c])), minThreshold, maxThreshold) else old(image[r, c])
        invariant weakPixels == old(WeakQueue(image, minThreshold, maxThreshold, i) + WeakInRow(image, minThreshold, maxThreshold, i, j))
      {
        var amplitude := Blue(image[i, j]);
        if amplitude <= minThreshold {
          image[i, j] := BLACK;
        } else if amplitude >= maxThreshold {
          image[i, j] := WHITE;
        } else {
          weakPixels := weakPixels + [WeakPixel(j, i)];
        }
        j := j + 1;
      }
      i := i + 1;
    }
  }

  /**
   * In a queue sorted strictly in row-major order, an entry that precedes
   * entry k sits among the first k entries.
   */
  lemma EarlierEntriesComeFirst(weakPixels: seq<WeakPixel>, k: int, p: WeakPixel)
    requires 0 <= k < |weakPixels|
    requires forall m, l :: 0 <= m < l < |weakPixels| ==>
      Precedes(weakPixels[m].row, weakPixels[m].col, weakPixels[l].row, weakPixels[l].col)
    requires p in weakPixels && Precedes(p.row, p.col, weakPixels[k].row, weakPixels[k].col)
    ensures p in weakPixels[..k]
  {
    var m :| 0 <= m < |weakPixels| && weakPixels[m] == p;
    assert m < k;
    assert weakPixels[..k][m] == p;
  }

  /**
   * `hysteresisThreshold` of this package, in place. The weak pixels are
   * resolved in row-major order and every examined neighbour comes earlier in
   * that order, so it already holds black or white, never 255: every weak
   * pixel ends black, strong pixels white, all others black.
   */
  method HysteresisThreshold(image: array2<int>, minThreshold: int, maxThreshold: int)
    modifies image
    ensures forall r, c :: 0 <= r < image.Length0 && 0 <= c < image.Length1 ==>
      image[r, c] == Resolved(Blue(old(image[r, c])), minThreshold, maxThreshold)
  {
    WeakQueueIsWeakQueue(image, minThreshold, maxThreshold);
    var weakPixels := ClassifyInPlace(image, minThreshold, maxThreshold);
    var k := 0;
    while k < |weakPixels|
      invariant 0 <= k <= |weakPixels|
      invariant old(IsWeakQueue(image, minThreshold, maxThreshold, weakPixels))
      invariant forall r, c :: 0 <= r < image.Length0 && 0 <= c < image.Length1 ==>
        image[r, c] == if IsWeak(Blue(old(image[r, c])), minThreshold, maxThreshold) && WeakPixel(c, r) !in weakPixels[..k]
                       then old(image[r, c]) else Resolved(Blue(old(image[r, c])), minThreshold, maxThreshold)
    {
      var weakPixel := weakPixels[k];
      forall r, c | 0 <= r < image.Length0 && 0 <= c < image.Length1 &&
                    Examined(image.Length0, image.Length1, weakPixel.row, weakPixel.col, r, c)
        ensures image[r, c] != 255
      {
        ExaminedPrecedes(image.Length0, image.Length1, weakPixel.row, weakPixel.col, r, c);
        if IsWeak(Blue(old(image[r, c])), minThreshold, maxThreshold) {
          EarlierEntriesComeFirst(weakPixels, k, WeakPixel(c, r));
        }
      }
      assert weakPixel !in weakPixels[..k];
      ResolveWeakPixel(image, weakPixel.row, weakPixel.col);
      assert weakPixels[..k + 1] == weakPixels[..k] + [weakPixel];
      k := k + 1;
    }
  }

  /**
   * `getCannyEdge` of this package: gradient without exclusion, suppression,
   * then hysteresis on the suppressed grid itself, which is returned.
   */
  method GetCannyEdge(image: array2<int>, filter: seq<seq<int>>, magnitude: (int, int) -> nat, angleOf: (int, int) -> real,
                      highOf: int -> int, lowOf: int -> int) returns (cannyEdge: array2<int>)
    requires IsFilter(filter)
    ensures cannyEdge.Length0 == image.Length0 && cannyEdge.Length1 == image.Length1
    ensures forall r, c :: 0 <= r < cannyEdge.Length0 && 0 <= c < cannyEdge.Length1 ==>
      var maxThreshold := highOf(MaxGradient(image, filter, magnitude, false));
      cannyEdge[r, c] == Resolved(Blue(SuppressedGradient(image, filter, magnitude, false, r, c)), lowOf(maxThreshold), maxThreshold)
  {
    var gradient, angles, maxGradient := CalculateGradientAndAngle(image, filter, magnitude, angleOf);
    cannyEdge := MakeCannyEdge(gradient, angles);
    var maxThreshold := highOf(maxGradient);
    var minThreshold := lowOf(maxThreshold);
    HysteresisThreshold(cannyEdge, minThreshold, maxThreshold);
  }
}
