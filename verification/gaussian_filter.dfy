/**
 * Gaussian smoothing (imageLineExtractor.GaussianFilter).
 *
 * A square kernel of odd size n is laid over every pixel that lies at least
 * `offset = n / 2` away from each border; the weighted sum of the gray levels
 * under it is divided (integer division) by the sum of the kernel's entries.
 * The output is smaller than the input by `offset` on every side.
 */
module GaussianFilter {
  import opened Pixels

  const KERNEL3x3: seq<seq<int>> := [
    [1, 2, 1],
    [2, 4, 2],
    [1, 2, 1]
  ]

  const KERNEL5x5: seq<seq<int>> := [
    [1, 4, 7, 4, 1],
    [4, 16, 26, 16, 4],
    [7, 26, 41, 26, 7],
    [4, 16, 26, 16, 4],
    [1, 4, 7, 4, 1]
  ]

  const KERNEL7x7: seq<seq<int>> := [
    [0, 0, 1, 2, 1, 0, 0],
    [0, 3, 13, 22, 13, 3, 0],
    [1, 13, 59, 97, 59, 13, 1],
    [2, 22, 97, 159, 97, 22, 2],
    [1, 13, 59, 97, 59, 13, 1],
    [0, 3, 13, 22, 13, 3, 0],
    [0, 0, 1, 2, 1, 0, 0]
  ]

  /** Every row is at least as long as the kernel has rows. */
  predicate IsSquare(kernel: seq<seq<int>>)
  {
    forall y :: 0 <= y < |kernel| ==> |kernel[y]| == |kernel|
  }

  /** A smoothing kernel: square, odd-sized, with non-negative weights. */
  predicate IsSmoothingKernel(kernel: seq<seq<int>>)
  {
    IsSquare(kernel) && |kernel| % 2 == 1 &&
    forall y, x :: 0 <= y < |kernel| && 0 <= x < |kernel| ==> kernel[y][x] >= 0
  }

  /** The sum of the first m entries of a row. */
  function RowTotal(row: seq<int>, m: nat): int
    requires m <= |row|
  {
    if m == 0 then 0 else RowTotal(row, m - 1) + row[m - 1]
  }

  /** The sum of all entries in the first m rows. */
  function KernelSumTo(kernel: seq<seq<int>>, m: nat): int
    requires IsSquare(kernel) && m <= |kernel|
  {
    if m == 0 then 0 else KernelSumTo(kernel, m - 1) + RowTotal(kernel[m - 1], |kernel|)
  }

  /** The normalisation divisor: the sum of every kernel entry. */
  function KernelSum(kernel: seq<seq<int>>): int
    requires IsSquare(kernel)
  {
    KernelSumTo(kernel, |kernel|)
  }

  /** The loop that accumulates `kernelSum`, entry by entry in row-major order. */
  method SumKernel(kernel: seq<seq<int>>) returns (kernelSum: int)
    requires IsSquare(kernel)
    ensures kernelSum == KernelSum(kernel)
  {
    kernelSum := 0;
    var i := 0;
    while i < |kernel|
      invariant 0 <= i <= |kernel|
      invariant kernelSum == KernelSumTo(kernel, i)
    {
      var j := 0;
      while j < |kernel|
        invariant 0 <= j <= |kernel|
        invariant kernelSum == KernelSumTo(kernel, i) + RowTotal(kernel[i], j)
      {
        kernelSum := kernelSum + kernel[i][j];
        j := j + 1;
      }
      i := i + 1;
    }
  }

  /** The preset kernels are smoothing kernels; KERNEL3x3 sums to 16. */
  lemma Kernel3x3Sum()
    ensures IsSmoothingKernel(KERNEL3x3) && KernelSum(KERNEL3x3) == 16
  {
    var k := KERNEL3x3;
    assert RowTotal(k[0], 3) == 4 && RowTotal(k[1], 3) == 8 && RowTotal(k[2], 3) == 4;
  }

  lemma Kernel5x5Sum()
    ensures IsSmoothingKernel(KERNEL5x5) && KernelSum(KERNEL5x5) == 273
  {
    var k := KERNEL5x5;
    assert RowTotal(k[0], 5) == 17 && RowTotal(k[1], 5) == 66 && RowTotal(k[2], 5) == 107;
    assert RowTotal(k[3], 5) == 66 && RowTotal(k[4], 5) == 17;
  }

  lemma Kernel7x7Sum()
    ensures IsSmoothingKernel(KERNEL7x7) && KernelSum(KERNEL7x7) == 1003
  {
    var k := KERNEL7x7;
    assert RowTotal(k[0], 7) == 4 && RowTotal(k[1], 7) == 54 && RowTotal(k[2], 7) == 243;
    assert RowTotal(k[3], 7) == 401;
    assert RowTotal(k[4], 7) == 243 && RowTotal(k[5], 7) == 54 && RowTotal(k[6], 7) == 4;
  }

  /** The pixel at (i, j) lies at least `offset` away from every border. */
  predicate Centred(image: array2<int>, offset: nat, i: int, j: int)
  {
    offset <= i < image.Length0 - offset && offset <= j < image.Length1 - offset
  }

  /** Gray level under kernel entry (y, x) when the kernel is centred on (i, j). */
  function Under(image: array2<int>, offset: nat, i: int, j: int, y: nat, x: nat): Channel
    reads image
    requires Centred(image, offset, i, j) && y <= 2 * offset && x <= 2 * offset
  {
    Blue(image[i + y - offset, j + x - offset])
  }

  /** Weighted sum of the first m entries of kernel row y. */
  function WeightedRow(image: array2<int>, kernel: seq<seq<int>>, i: int, j: int, y: nat, m: nat): int
    reads image
    requires IsSmoothingKernel(kernel) && Centred(image, |kernel| / 2, i, j)
    requires y < |kernel| && m <= |kernel|
  {
    if m == 0 then 0
    else WeightedRow(image, kernel, i, j, y, m - 1) + Under(image, |kernel| / 2, i, j, y, m - 1) * kernel[y][m - 1]
  }

  /** Weighted sum over the first m kernel rows. */
  function WeightedSum(image: array2<int>, kernel: seq<seq<int>>, i: int, j: int, m: nat): int
    reads image
    requires IsSmoothingKernel(kernel) && Centred(image, |kernel| / 2, i, j)
    requires m <= |kernel|
  {
    if m == 0 then 0
    else WeightedSum(image, kernel, i, j, m - 1) + WeightedRow(image, kernel, i, j, m - 1, |kernel|)
  }

  /**
   * The smoothed gray level at (i, j): the full weighted sum divided by the
   * kernel sum. With non-negative weights it is again a gray level.
   */
  function Smoothed(image: array2<int>, kernel: seq<seq<int>>, i: int, j: int): (gray: Channel)
    reads image
    requires IsSmoothingKernel(kernel) && KernelSum(kernel) > 0
    requires Centred(image, |kernel| / 2, i, j)
  {
    var s := WeightedSum(image, kernel, i, j, |kernel|);
    assert 0 <= s / KernelSum(kernel) <= 255 by {
      SumBounds(image, kernel, i, j, |kernel|);
      DivBound(s, KernelSum(kernel));
    }
    s / KernelSum(kernel)
  }

  lemma DivBound(s: int, d: int)
    requires d > 0 && 0 <= s <= 255 * d
    ensures 0 <= s / d <= 255
  {
  }

  lemma {:induction false} RowBounds(image: array2<int>, kernel: seq<seq<int>>, i: int, j: int, y: nat, m: nat)
    requires IsSmoothingKernel(kernel) && Centred(image, |kernel| / 2, i, j)
    requires y < |kernel| && m <= |kernel|
    ensures 0 <= WeightedRow(image, kernel, i, j, y, m) <= 255 * RowTotal(kernel[y], m)
  {
    if m > 0 {
      RowBounds(image, kernel, i, j, y, m - 1);
      var w := kernel[y][m - 1];
      var g := Under(image, |kernel| / 2, i, j, y, m - 1);
      assert 0 <= g * w <= 255 * w;
    }
  }

  /** With non-negative weights the window sum lies between 0 and 255 times the weight total. */
  lemma {:induction false} SumBounds(image: array2<int>, kernel: seq<seq<int>>, i: int, j: int, m: nat)
    requires IsSmoothingKernel(kernel) && Centred(image, |kernel| / 2, i, j)
    requires m <= |kernel|
    ensures 0 <= WeightedSum(image, kernel, i, j, m) <= 255 * KernelSumTo(kernel, m)
  {
    if m > 0 {
      SumBounds(image, kernel, i, j, m - 1);
      RowBounds(image, kernel, i, j, m - 1, |kernel|);
    }
  }

  /** The weighted sum of the window around (i, j) — the two inner loops. */
  method Convolve(image: array2<int>, kernel: seq<seq<int>>, i: int, j: int) returns (gaussianSum: int)
    requires IsSmoothingKernel(kernel) && Centred(image, |kernel| / 2, i, j)
    ensures gaussianSum == WeightedSum(image, kernel, i, j, |kernel|)
  {
    var offset := |kernel| / 2;
    gaussianSum := 0;
    var y := -offset;
    while y <= offset
      invariant -offset <= y <= offset + 1
      invariant gaussianSum == WeightedSum(image, kernel, i, j, y + offset)
    {
      var x := -offset;
      while x <= offset
        invariant -offset <= x <= offset + 1
        invariant gaussianSum == WeightedSum(image, kernel, i, j, y + offset) + WeightedRow(image, kernel, i, j, y + offset, x + offset)
      {
        var pixelValue := Blue(image[i + y, j + x]);
        gaussianSum := gaussianSum + pixelValue * kernel[y + offset][x + offset];
        x := x + 1;
      }
      y := y + 1;
    }
  }

  /**
   * `applyGaussianFilter`: output pixel (i - offset, j - offset) is the packed
   * smoothed gray level of input pixel (i, j); the output shrinks by `offset`
   * on every side. A zero kernel sum would divide by zero.
   */
  method ApplyGaussianFilter(image: array2<int>, kernel: seq<seq<int>>) returns (blurredImage: array2<int>)
    requires IsSmoothingKernel(kernel) && KernelSum(kernel) > 0
    requires image.Length0 > 2 * (|kernel| / 2) && image.Length1 > 2 * (|kernel| / 2)
    ensures blurredImage.Length0 == image.Length0 - 2 * (|kernel| / 2)
    ensures blurredImage.Length1 == image.Length1 - 2 * (|kernel| / 2)
    ensures forall i, j :: 0 <= i < blurredImage.Length0 && 0 <= j < blurredImage.Length1 ==>
      blurredImage[i, j] == Pack(Smoothed(image, kernel, i + |kernel| / 2, j + |kernel| / 2))
  {
    var width, height := image.Length1, image.Length0;
    var offset := |kernel| / 2;
    var kernelSum := SumKernel(kernel);
    blurredImage := new int[height - 2 * offset, width - 2 * offset];
    var i := offset;
    while i < height - offset
      invariant offset <= i <= height - offset
      invariant forall i', j' :: 0 <= i' < i - offset && 0 <= j' < width - 2 * offset ==>
        blurredImage[i', j'] == Pack(old(Smoothed(image, kernel, i' + offset, j' + offset)))
    {
      SmoothRow(image, kernel, kernelSum, blurredImage, i);
      i := i + 1;
    }
  }

  /** One pass of the column loop: fills output row i - offset and nothing else. */
  method SmoothRow(image: array2<int>, kernel: seq<seq<int>>, kernelSum: int, blurredImage: array2<int>, i: int)
    requires IsSmoothingKernel(kernel) && kernelSum == KernelSum(kernel) > 0
    requires blurredImage != image
    requires blurredImage.Length0 == image.Length0 - 2 * (|kernel| / 2)
    requires blurredImage.Length1 == image.Length1 - 2 * (|kernel| / 2)
    requires |kernel| / 2 <= i < image.Length0 - |kernel| / 2
    modifies blurredImage
    ensures forall i', j' :: 0 <= i' < blurredImage.Length0 && 0 <= j' < blurredImage.Length1 ==>
      blurredImage[i', j'] == if i' == i - |kernel| / 2
        then Pack(Smoothed(image, kernel, i, j' + |kernel| / 2))
        else old(blurredImage[i', j'])
  {
    var offset := |kernel| / 2;
    var row := i - offset;
    var j := offset;
    while j < image.Length1 - offset
      invariant offset <= j <= image.Length1 - offset
      invariant forall i', j' :: 0 <= i' < blurredImage.Length0 && 0 <= j' < blurredImage.Length1 ==>
        blurredImage[i', j'] == if i' == row && j' < j - offset
          then Pack(old(Smoothed(image, kernel, i, j' + offset)))
          else old(blurredImage[i', j'])
    {
      var gaussianSum := Convolve(image, kernel, i, j);
      var gaussianValue := gaussianSum / kernelSum;
      assert gaussianValue == Smoothed(image, kernel, i, j);
      blurredImage[row, j - offset] := Pack(gaussianValue);
      j := j + 1;
    }
  }

  lemma {:induction false} UniformRow(image: array2<int>, kernel: seq<seq<int>>, i: int, j: int, y: nat, m: nat, v: int)
    requires IsSmoothingKernel(kernel) && Centred(image, |kernel| / 2, i, j)
    requires y < |kernel| && m <= |kernel|
    requires UniformWindow(image, |kernel| / 2, i, j, v)
    ensures WeightedRow(image, kernel, i, j, y, m) == v * RowTotal(kernel[y], m)
  {
    if m > 0 {
      UniformRow(image, kernel, i, j, y, m - 1, v);
      var offset := |kernel| / 2;
      assert Blue(image[i + y - offset, j + (m - 1) - offset]) == v;
      var a, w := RowTotal(kernel[y], m - 1), kernel[y][m - 1];
      MulDistributes(v, a, w);
    }
  }

  lemma {:induction false} UniformSum(image: array2<int>, kernel: seq<seq<int>>, i: int, j: int, m: nat, v: int)
    requires IsSmoothingKernel(kernel) && Centred(image, |kernel| / 2, i, j)
    requires m <= |kernel|
    requires UniformWindow(image, |kernel| / 2, i, j, v)
    ensures WeightedSum(image, kernel, i, j, m) == v * KernelSumTo(kernel, m)
  {
    if m > 0 {
      UniformSum(image, kernel, i, j, m - 1, v);
      UniformRow(image, kernel, i, j, m - 1, |kernel|, v);
      var a, b := KernelSumTo(kernel, m - 1), RowTotal(kernel[m - 1], |kernel|);
      MulDistributes(v, a, b);
    }
  }

  /** A window of constant gray level v is smoothed to v itself. */
  lemma UniformIsFixed(image: array2<int>, kernel: seq<seq<int>>, i: int, j: int, v: int)
    requires IsSmoothingKernel(kernel) && KernelSum(kernel) > 0
    requires Centred(image, |kernel| / 2, i, j)
    requires UniformWindow(image, |kernel| / 2, i, j, v)
    ensures Smoothed(image, kernel, i, j) == v
  {
    UniformSum(image, kernel, i, j, |kernel|, v);
    MulDivCancel(v, KernelSum(kernel));
  }

  lemma MulDivCancel(v: int, k: int)
    requires k > 0
    ensures (v * k) / k == v
  {
    var q, r := (v * k) / k, (v * k) % k;
    assert (v - q) * k == r;
    MulBelowDivisor(v - q, k);
  }

  /** A multiple of k > 0 that lies in [0, k) is zero times k. */
  lemma MulBelowDivisor(d: int, k: int)
    requires k > 0 && 0 <= d * k < k
    ensures d == 0
  {
    if d != 0 {
      MulAtLeast(if d > 0 then d else -d, k);
      assert false;
    }
  }

  lemma MulAtLeast(d: int, k: int)
    requires d >= 1 && k > 0
    ensures d * k >= k
  {
  }
}
