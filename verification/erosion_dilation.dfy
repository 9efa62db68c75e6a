/**
 * Binary morphology on a thresholded grid (imageLineExtractor.ErosionDilation).
 *
 * The input holds black (0) and other values; a cell "is black" when it holds
 * exactly BLACK. Erosion writes white where the whole 3×3 window is non-black,
 * dilation of the eroded grid writes white where some window cell is white.
 * Both fresh grids start black and their one-pixel frame is never written.
 */
module ErosionDilation {
  import opened Pixels

  /** No cell of the window around interior pixel (i, j) is black. */
  ghost predicate NoBlackInWindow(grid: array2<int>, i: int, j: int)
    reads grid
    requires Interior(grid, i, j)
  {
    forall r, c :: InWindow(i, j, r, c) ==> grid[r, c] != BLACK
  }

  /** Some cell of the window around interior pixel (i, j) is white. */
  ghost predicate WhiteInWindow(grid: array2<int>, i: int, j: int)
    reads grid
    requires Interior(grid, i, j)
  {
    exists r, c :: InWindow(i, j, r, c) && grid[r, c] == WHITE
  }

  /** The eroded cell at (r, c). */
  ghost function Eroded(image: array2<int>, r: int, c: int): int
    reads image
  {
    if Interior(image, r, c) && NoBlackInWindow(image, r, c) then WHITE else BLACK
  }

  /** The dilated cell at (r, c). */
  ghost function Dilated(grid: array2<int>, r: int, c: int): int
    reads grid
  {
    if Interior(grid, r, c) && WhiteInWindow(grid, r, c) then WHITE else BLACK
  }

  /** The result of erosion followed by dilation, read off the input directly. */
  ghost function Opened(image: array2<int>, r: int, c: int): int
    reads image
  {
    if Interior(image, r, c) && exists r', c' :: InWindow(r, c, r', c') && Eroded(image, r', c') == WHITE then WHITE else BLACK
  }

  /** The two innermost loops of erosion: they stop at the first black cell, row by row. */
  method WindowIsNonBlack(image: array2<int>, i: int, j: int) returns (nonBlack: bool)
    requires Interior(image, i, j)
    ensures nonBlack <==> NoBlackInWindow(image, i, j)
  {
    var offset1 := -1;
    while offset1 <= 1
      invariant -1 <= offset1 <= 2
      invariant forall r, c :: InWindow(i, j, r, c) && r < i + offset1 ==> image[r, c] != BLACK
    {
      var offset2 := -1;
      while offset2 <= 1
        invariant -1 <= offset2 <= 2
        invariant forall r, c :: InWindow(i, j, r, c) && (r < i + offset1 || (r == i + offset1 && c < j + offset2)) ==>
          image[r, c] != BLACK
      {
        if image[i + offset1, j + offset2] == BLACK {
          return false;
        }
        offset2 := offset2 + 1;
      }
      offset1 := offset1 + 1;
    }
    return true;
  }

  /** The two innermost loops of dilation: they stop at the first white cell, row by row. */
  method WindowHasWhite(grid: array2<int>, i: int, j: int) returns (found: bool)
    requires Interior(grid, i, j)
    ensures found <==> WhiteInWindow(grid, i, j)
  {
    var offset1 := -1;
    while offset1 <= 1
      invariant -1 <= offset1 <= 2
      invariant forall r, c :: InWindow(i, j, r, c) && r < i + offset1 ==> grid[r, c] != WHITE
    {
      var offset2 := -1;
      while offset2 <= 1
        invariant -1 <= offset2 <= 2
        invariant forall r, c :: InWindow(i, j, r, c) && (r < i + offset1 || (r == i + offset1 && c < j + offset2)) ==>
          grid[r, c] != WHITE
      {
        if grid[i + offset1, j + offset2] == WHITE {
          return true;
        }
        offset2 := offset2 + 1;
      }
      offset1 := offset1 + 1;
    }
    return false;
  }

  /** The erosion pass: a fresh black grid whose interior cells turn white when their window has no black cell. */
  method Erode(image: array2<int>) returns (eroded: array2<int>)
    ensures eroded.Length0 == image.Length0 && eroded.Length1 == image.Length1
    ensures forall r, c :: 0 <= r < eroded.Length0 && 0 <= c < eroded.Length1 ==> eroded[r, c] == Eroded(image, r, c)
  {
    var height, width := image.Length0, image.Length1;
    eroded := new int[height, width]((r, c) => BLACK);
    var i := 1;
    while i < height - 1
      invariant 1 <= i <= if height >= 2 then height - 1 else 1
      invariant forall r, c :: 0 <= r < height && 0 <= c < width ==>
        eroded[r, c] == if r < i then old(Eroded(image, r, c)) else BLACK
    {
      var j := 1;
      while j < width - 1
        invariant 1 <= j <= if width >= 2 then width - 1 else 1
        invariant forall r, c :: 0 <= r < height && 0 <= c < width ==>
          eroded[r, c] == if r < i || (r == i && c < j) then old(Eroded(image, r, c)) else BLACK
      {
        if image[i, j] != BLACK {
          var nonBlack := WindowIsNonBlack(image, i, j);
          if nonBlack {
            eroded[i, j] := WHITE;
          }
        }
        j := j + 1;
      }
      i := i + 1;
    }
  }

  /** The dilation pass over the eroded grid: interior cells turn white when their window holds a white cell. */
  method Dilate(eroded: array2<int>) returns (dilate: array2<int>)
    ensures dilate.Length0 == eroded.Length0 && dilate.Length1 == eroded.Length1
    ensures forall r, c :: 0 <= r < dilate.Length0 && 0 <= c < dilate.Length1 ==> dilate[r, c] == Dilated(eroded, r, c)
  {
    var height, width := eroded.Length0, eroded.Length1;
    dilate := new int[height, width]((r, c) => BLACK);
    var i := 1;
    while i < height - 1
      invariant 1 <= i <= if height >= 2 then height - 1 else 1
      invariant forall r, c :: 0 <= r < height && 0 <= c < width ==>
        dilate[r, c] == if r < i then old(Dilated(eroded, r, c)) else BLACK
    {
      var j := 1;
      while j < width - 1
        invariant 1 <= j <= if width >= 2 then width - 1 else 1
        invariant forall r, c :: 0 <= r < height && 0 <= c < width ==>
          dilate[r, c] == if r < i || (r == i && c < j) then old(Dilated(eroded, r, c)) else BLACK
      {
        var found := WindowHasWhite(eroded, i, j);
        if found {
          dilate[i, j] := WHITE;
        }
        j := j + 1;
      }
      i := i + 1;
    }
  }

  /**
   * `erosionAndDilation`: the input's size, a black frame, and every interior
   * cell white exactly when some window cell survives erosion.
   */
  method ErosionAndDilation(image: array2<int>) returns (dilate: array2<int>)
    ensures dilate.Length0 == image.Length0 && dilate.Length1 == image.Length1
    ensures forall r, c :: 0 <= r < dilate.Length0 && 0 <= c < dilate.Length1 ==> dilate[r, c] == Opened(image, r, c)
  {
    var eroded := Erode(image);
    dilate := Dilate(eroded);
    forall r, c | 0 <= r < dilate.Length0 && 0 <= c < dilate.Length1
      ensures dilate[r, c] == Opened(image, r, c)
    {
      if Interior(image, r, c) {
        assert WhiteInWindow(eroded, r, c) <==> exists r', c' :: InWindow(r, c, r', c') && Eroded(image, r', c') == WHITE;
      }
    }
  }

  /** A cell that erosion keeps white had only non-black cells around it, itself included. */
  lemma ErodedWhiteWindow(image: array2<int>, i: int, j: int, r: int, c: int)
    requires Eroded(image, i, j) == WHITE && InWindow(i, j, r, c)
    ensures Interior(image, i, j) && 0 <= r < image.Length0 && 0 <= c < image.Length1 && image[r, c] != BLACK
  {
  }

  /** Opening never adds white: a white result cell was non-black in the input. */
  lemma OpenedIsAntiExtensive(image: array2<int>, r: int, c: int)
    requires 0 <= r < image.Length0 && 0 <= c < image.Length1
    ensures Opened(image, r, c) == WHITE ==> image[r, c] != BLACK
  {
    if Opened(image, r, c) == WHITE {
      var r', c' :| InWindow(r, c, r', c') && Eroded(image, r', c') == WHITE;
      ErodedWhiteWindow(image, r', c', r, c);
    }
  }

  /** An all-black input gives an all-black result. */
  lemma OpenedOfBlackIsBlack(image: array2<int>)
    requires forall r, c :: 0 <= r < image.Length0 && 0 <= c < image.Length1 ==> image[r, c] == BLACK
    ensures forall r, c :: 0 <= r < image.Length0 && 0 <= c < image.Length1 ==> Opened(image, r, c) == BLACK
  {
    forall r, c | 0 <= r < image.Length0 && 0 <= c < image.Length1
      ensures Opened(image, r, c) == BLACK
    {
      OpenedIsAntiExtensive(image, r, c);
    }
  }

  /** The cells of the rectangle rows top..bottom, columns left..right. */
  predicate InRectangle(top: int, left: int, bottom: int, right: int, r: int, c: int)
  {
    top <= r <= bottom && left <= c <= right
  }

  function Clamp(x: int, lo: int, hi: int): int
  {
    if x < lo then lo else if x > hi then hi else x
  }

  /**
   * A white rectangle of at least 3×3 cells that keeps off the frame, on a
   * black background, comes out unchanged.
   */
  lemma OpenedKeepsRectangle(image: array2<int>, top: int, left: int, bottom: int, right: int)
    requires 1 <= top && top + 2 <= bottom <= image.Length0 - 2
    requires 1 <= left && left + 2 <= right <= image.Length1 - 2
    requires forall r, c :: 0 <= r < image.Length0 && 0 <= c < image.Length1 ==>
      image[r, c] == if InRectangle(top, left, bottom, right, r, c) then WHITE else BLACK
    ensures forall r, c :: 0 <= r < image.Length0 && 0 <= c < image.Length1 ==> Opened(image, r, c) == image[r, c]
  {
    forall r, c | 0 <= r < image.Length0 && 0 <= c < image.Length1
      ensures Opened(image, r, c) == image[r, c]
    {
      OpenedIsAntiExtensive(image, r, c);
      if InRectangle(top, left, bottom, right, r, c) {
        var r', c' := Clamp(r, top + 1, bottom - 1), Clamp(c, left + 1, right - 1);
        assert forall y, x :: InWindow(r', c', y, x) ==> InRectangle(top, left, bottom, right, y, x);
        assert Eroded(image, r', c') == WHITE;
        assert InWindow(r, c, r', c');
      }
    }
  }
}
