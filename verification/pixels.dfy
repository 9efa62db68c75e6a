/**
 * Packed pixel values shared by every stage.
 *
 * A grid cell holds the 32-bit RGB value a stage last stored there (0 when
 * nothing was stored). The three colour channels are read the way the Java
 * code reads them, `(rgb >> 16) & 0xFF`, `(rgb >> 8) & 0xFF` and `rgb & 0xFF`.
 * For a positive divisor Dafny's `/` is floor division and `%` the
 * non-negative remainder, which is exactly an arithmetic right shift followed
 * by a mask, for negative (alpha-carrying) values too.
 */
module Pixels {

  /** A channel value, the range of `x & 0xFF`. */
  type Channel = x: int | 0 <= x <= 255

  /** Binary images store black as 0 and white as 0xFFFFFF. */
  const BLACK: int := 0
  const WHITE: int := 0xFF_FFFF

  function Red(rgb: int): (c: Channel)
  {
    (rgb / 0x1_0000) % 0x100
  }

  function Green(rgb: int): (c: Channel)
  {
    (rgb / 0x100) % 0x100
  }

  /** `rgb & 0xFF`, also the gray level of a gray pixel. */
  function Blue(rgb: int): (c: Channel)
  {
    rgb % 0x100
  }

  /** `(gray << 16) | (gray << 8) | gray`: the three shifted copies do not overlap. */
  function Pack(gray: Channel): (rgb: int)
  {
    gray * 0x1_0000 + gray * 0x100 + gray
  }

  /** The pixels the 3×3-window loops visit: rows 1..height-2, columns 1..width-2. */
  predicate Interior(image: array2<int>, i: int, j: int)
  {
    1 <= i < image.Length0 - 1 && 1 <= j < image.Length1 - 1
  }

  /** Cell (r, c) lies in the 3×3 window centred on (i, j). */
  predicate InWindow(i: int, j: int, r: int, c: int)
  {
    i - 1 <= r <= i + 1 && j - 1 <= c <= j + 1
  }

  /** Every gray level in the square of half-width offset centred on (i, j) equals v. */
  predicate UniformWindow(image: array2<int>, offset: nat, i: int, j: int, v: int)
    reads image
  {
    forall r, c ::
      (i - offset <= r <= i + offset && j - offset <= c <= j + offset &&
       0 <= r < image.Length0 && 0 <= c < image.Length1) ==> Blue(image[r, c]) == v
  }

  /** Strict row-major order. */
  predicate Precedes(r1: int, c1: int, r2: int, c2: int)
  {
    r1 < r2 || (r1 == r2 && c1 < c2)
  }

  /** Decoding any channel of a packed gray level yields that gray level. */
  lemma PackDecodes(gray: Channel)
    ensures 0 <= Pack(gray) <= WHITE
    ensures Red(Pack(gray)) == gray && Green(Pack(gray)) == gray && Blue(Pack(gray)) == gray
  {
    var rgb := Pack(gray);
    assert rgb / 0x1_0000 == gray by {
      assert rgb == gray * 0x1_0000 + gray * 0x101 && 0 <= gray * 0x101 < 0x1_0000;
    }
    assert rgb / 0x100 == gray * 0x101 by {
      assert rgb == gray * 0x101 * 0x100 + gray;
    }
  }

  /** Multiplication distributes over a sum; kept apart so that larger proofs stay linear. */
  lemma MulDistributes(v: int, a: int, b: int)
    ensures v * (a + b) == v * a + v * b
  {
  }

  /** Java's `/` on `int`: the quotient is truncated toward zero. */
  function JavaDiv(a: int, b: int): (q: int)
    requires b != 0
    ensures a >= 0 && b > 0 ==> q == a / b
    ensures b > 0 ==> (a >= 0 ==> b * q <= a < b * q + b) && (a < 0 ==> b * q - b < a <= b * q)
  {
    if (a >= 0) == (b > 0) then
      (if a >= 0 then a else -a) / (if b > 0 then b else -b)
    else
      -((if a >= 0 then a else -a) / (if b > 0 then b else -b))
  }
}
