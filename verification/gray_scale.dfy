/**
 * Grayscale reduction (imageLineExtractor.GrayScale).
 *
 * The pluggable conversion lambdas become a closed set of variants. The
 * luminosity variant weighs the channels with floating-point factors and
 * truncates; the model receives that rounding as the variant's own function.
 */
module GrayScale {
  import opened Pixels

  datatype GrayScaleFunction =
    | Average
    | Luminosity(weighted: (Channel, Channel, Channel) -> Channel)
    | Lightness
    | RedChannelOnly
    | GreenChannelOnly
    | BlueChannelOnly

  function Max3(a: int, b: int, c: int): int
  {
    if a >= b && a >= c then a else if b >= c then b else c
  }

  function Min3(a: int, b: int, c: int): int
  {
    if a <= b && a <= c then a else if b <= c then b else c
  }

  /** The gray level a variant assigns to one pixel's three channels. */
  function Apply(f: GrayScaleFunction, red: Channel, green: Channel, blue: Channel): (gray: Channel)
    // AVERAGE is the integer mean: the floor of (red + green + blue) / 3
    ensures f.Average? ==> 3 * gray <= red + green + blue < 3 * gray + 3
    // LIGHTNESS lies between the darkest and the brightest channel
    ensures f.Lightness? ==> Min3(red, green, blue) <= gray <= Max3(red, green, blue)
    ensures f.Lightness? ==> 2 * gray <= Max3(red, green, blue) + Min3(red, green, blue) < 2 * gray + 2
    // the channel-only variants pass their channel through
    ensures f.RedChannelOnly? ==> gray == red
    ensures f.GreenChannelOnly? ==> gray == green
    ensures f.BlueChannelOnly? ==> gray == blue
  {
    match f
    case Average => (red + green + blue) / 3
    case Luminosity(weighted) => weighted(red, green, blue)
    case Lightness => (Max3(red, green, blue) + Min3(red, green, blue)) / 2
    case RedChannelOnly => red
    case GreenChannelOnly => green
    case BlueChannelOnly => blue
  }

  /**
   * The value `applyGrayScale` stores for an input pixel: its channels are
   * unpacked, combined, and the gray level is packed into all three channels.
   */
  function GrayPixel(f: GrayScaleFunction, rgb: int): (pixel: int)
    ensures 0 <= pixel <= WHITE
    ensures var gray := Apply(f, Red(rgb), Green(rgb), Blue(rgb));
      Red(pixel) == gray && Green(pixel) == gray && Blue(pixel) == gray
  {
    var gray := Apply(f, Red(rgb), Green(rgb), Blue(rgb));
    PackDecodes(gray);
    Pack(gray)
  }

  /**
   * Fills a fresh grid of the input's size; every output pixel is computed
   * from the input pixel at the same position only.
   */
  method ApplyGrayScale(image: array2<int>, f: GrayScaleFunction) returns (grayImage: array2<int>)
    ensures grayImage.Length0 == image.Length0 && grayImage.Length1 == image.Length1
    ensures forall i, j :: 0 <= i < image.Length0 && 0 <= j < image.Length1 ==>
      grayImage[i, j] == GrayPixel(f, image[i, j])
  {
    var height, width := image.Length0, image.Length1;
    grayImage := new int[height, width];
    var i := 0;
    while i < height
      invariant 0 <= i <= height
      invariant forall i', j' :: 0 <= i' < i && 0 <= j' < width ==> grayImage[i', j'] == GrayPixel(f, image[i', j'])
    {
      var j := 0;
      while j < width
        invariant 0 <= j <= width
        invariant forall i', j' :: 0 <= i' < i && 0 <= j' < width ==> grayImage[i', j'] == GrayPixel(f, image[i', j'])
        invariant forall j' :: 0 <= j' < j ==> grayImage[i, j'] == GrayPixel(f, image[i, j'])
      {
        var rgb := image[i, j];
        var red, green, blue := Red(rgb), Green(rgb), Blue(rgb);
        var gray := Apply(f, red, green, blue);
        grayImage[i, j] := Pack(gray);
        j := j + 1;
      }
      i := i + 1;
    }
  }

  /** Re-reducing a gray pixel by AVERAGE or LIGHTNESS (or any channel) is the identity. */
  lemma {:induction false} GrayPixelIsFixed(f: GrayScaleFunction, g: GrayScaleFunction, rgb: int)
    requires !g.Luminosity?
    ensures GrayPixel(g, GrayPixel(f, rgb)) == GrayPixel(f, rgb)
  {
    var gray := Apply(f, Red(rgb), Green(rgb), Blue(rgb));
    assert Apply(g, gray, gray, gray) == gray;
  }
}
