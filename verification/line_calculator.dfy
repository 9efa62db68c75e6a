/**
 * The integer tail of the line calculator (imageLineExtractor.LineCalculator):
 * scaling the detected line coordinates back up, and the median spacing of
 * consecutive lines, which is the size of one grid square.
 */
module LineCalculator {
  import opened Sorting

  /** The first n consecutive differences of a, in order. */
  function GapsUpTo(a: seq<int>, n: nat): (gaps: seq<int>)
    requires n < |a| || n == 0
    ensures |gaps| == n
    ensures forall k :: 0 <= k < n ==> gaps[k] == a[k + 1] - a[k]
  {
    if n == 0 then [] else GapsUpTo(a, n - 1) + [a[n] - a[n - 1]]
  }

  /** All consecutive differences of a; none when a has fewer than two entries. */
  function Gaps(a: seq<int>): seq<int>
  {
    if |a| <= 1 then [] else GapsUpTo(a, |a| - 1)
  }

  /** The element in the middle of the ascending order (the upper one of the two middles for an even count). */
  function Median(d: seq<int>): int
    requires |d| > 0
  {
    SortAsc(d)[|d| / 2]
  }

  /** The differences `getSquareSize` collects from the horizontal and then the vertical coordinates. */
  function SquareGaps(horizontal: seq<int>, vertical: seq<int>): seq<int>
  {
    Gaps(horizontal) + Gaps(vertical)
  }

  /**
   * `getSquareSize`: collects the consecutive differences of both coordinate
   * arrays, sorts them and returns the one at index size / 2. With no
   * difference at all the final index access fails, hence the precondition.
   */
  method GetSquareSize(linesCoords: array<array<int>>) returns (size: int)
    requires linesCoords.Length >= 2
    requires linesCoords[0].Length >= 2 || linesCoords[1].Length >= 2
    ensures |SquareGaps(linesCoords[0][..], linesCoords[1][..])| > 0
    ensures size == Median(SquareGaps(linesCoords[0][..], linesCoords[1][..]))
  {
    var linesDifferences: seq<int> := [];
    var i := 0;
    while i < 2
      invariant 0 <= i <= 2
      invariant linesDifferences == if i == 0 then [] else if i == 1 then Gaps(linesCoords[0][..])
        else SquareGaps(linesCoords[0][..], linesCoords[1][..])
    {
      linesDifferences := AppendGaps(linesCoords[i], linesDifferences);
      i := i + 1;
    }
    linesDifferences := SortAsc(linesDifferences);
    size := linesDifferences[|linesDifferences| / 2];
  }

  /** The inner loop of `getSquareSize`: appends the consecutive differences of one array. */
  method AppendGaps(lines: array<int>, before: seq<int>) returns (after: seq<int>)
    ensures after == before + Gaps(lines[..])
  {
    after := before;
    var j := 0;
    while j < lines.Length - 1
      invariant 0 <= j <= if lines.Length >= 1 then lines.Length - 1 else 0
      invariant after == before + GapsUpTo(lines[..], j)
    {
      after := after + [lines[j + 1] - lines[j]];
      j := j + 1;
    }
  }

  /** The square size is one of the collected differences. */
  lemma MedianIsADifference(d: seq<int>)
    requires |d| > 0
    ensures Median(d) in d
  {
    var sorted := SortAsc(d);
    assert sorted[|d| / 2] in multiset(sorted);
  }

  /** At most half of the differences lie below the square size, and at most half above it. */
  lemma MedianSplitsDifferences(d: seq<int>)
    requires |d| > 0
    ensures CountLess(d, Median(d)) <= |d| / 2
    ensures CountGreater(d, Median(d)) <= |d| - 1 - |d| / 2
  {
    AscendingCounts(SortAsc(d), |d| / 2);
    SortKeepsCounts(d, Median(d));
  }

  /** Ascending coordinate arrays have non-negative gaps, so the square size is not negative. */
  lemma AscendingLinesGiveNonNegativeSize(horizontal: seq<int>, vertical: seq<int>)
    requires Ascending(horizontal) && Ascending(vertical)
    requires |SquareGaps(horizontal, vertical)| > 0
    ensures Median(SquareGaps(horizontal, vertical)) >= 0
  {
    var d := SquareGaps(horizontal, vertical);
    MedianIsADifference(d);
    assert forall k :: 0 <= k < |d| ==> d[k] >= 0 by {
      forall k | 0 <= k < |d|
        ensures d[k] >= 0
      {
        if k < |Gaps(horizontal)| {
          assert d[k] == horizontal[k + 1] - horizontal[k];
        } else {
          assert d[k] == vertical[k - |Gaps(horizontal)| + 1] - vertical[k - |Gaps(horizontal)|];
        }
      }
    }
  }

  /** Every coordinate multiplied by the scale factor. */
  function Scaled(s: seq<int>, scale: int): (r: seq<int>)
    ensures |r| == |s|
  {
    if s == [] then [] else [s[0] * scale] + Scaled(s[1..], scale)
  }

  /** Scaling multiplies each coordinate, keeping its position. */
  lemma {:induction false} ScaledElements(s: seq<int>, scale: int)
    ensures forall k :: 0 <= k < |s| ==> Scaled(s, scale)[k] == s[k] * scale
  {
    if s != [] {
      ScaledElements(s[1..], scale);
      forall k | 0 <= k < |s|
        ensures Scaled(s, scale)[k] == s[k] * scale
      {
        if k > 0 {
          assert Scaled(s, scale)[k] == Scaled(s[1..], scale)[k - 1];
        }
      }
    }
  }

  /**
   * The scale-up loop of `calculateLines`: every coordinate of every returned
   * array is multiplied by the scale factor in place; nothing else changes.
   * The arrays are distinct, as `getLines` allocates each of them.
   */
  method ScaleLines(linesCoords: array<array<int>>, scale: int)
    requires forall k, l :: 0 <= k < l < linesCoords.Length ==> linesCoords[k] != linesCoords[l]
    modifies set k | 0 <= k < linesCoords.Length :: linesCoords[k]
    ensures forall k :: 0 <= k < linesCoords.Length ==> linesCoords[k][..] == Scaled(old(linesCoords[k][..]), scale)
  {
    var k := 0;
    while k < linesCoords.Length
      invariant 0 <= k <= linesCoords.Length
      invariant forall l :: 0 <= l < k ==> linesCoords[l][..] == Scaled(old(linesCoords[l][..]), scale)
      invariant forall l :: k <= l < linesCoords.Length ==> linesCoords[l][..] == old(linesCoords[l][..])
    {
      var lines := linesCoords[k];
      var i := 0;
      while i < lines.Length
        invariant 0 <= i <= lines.Length
        invariant forall l :: 0 <= l < linesCoords.Length && l != k ==> linesCoords[l][..] == old(linesCoords[l][..]) || l < k
        invariant forall l :: 0 <= l < k ==> linesCoords[l][..] == Scaled(old(linesCoords[l][..]), scale)
        invariant forall m :: 0 <= m < lines.Length ==> lines[m] == if m < i then old(lines[m]) * scale else old(lines[m])
      {
        lines[i] := lines[i] * scale;
        i := i + 1;
      }
      ScaledElements(old(lines[..]), scale);
      assert lines[..] == Scaled(old(lines[..]), scale);
      k := k + 1;
    }
  }

  lemma MulSubtracts(x: int, y: int, scale: int)
    ensures x * scale - y * scale == (x - y) * scale
  {
  }

  lemma ScalingIsMonotone(x: int, y: int, scale: int)
    requires scale >= 1
    ensures x <= y <==> x * scale <= y * scale
  {
    MulSubtracts(y, x, scale);
    MulSubtracts(x, y, scale);
  }

  lemma {:induction false} InsertCommutesWithScaling(x: int, s: seq<int>, scale: int)
    requires scale >= 1
    ensures Insert(x * scale, Scaled(s, scale)) == Scaled(Insert(x, s), scale)
  {
    if s != [] {
      ScalingIsMonotone(x, s[0], scale);
      var rest := Scaled(s[1..], scale);
      assert Scaled(s, scale) == [s[0] * scale] + rest;
      if x > s[0] {
        InsertCommutesWithScaling(x, s[1..], scale);
        assert Insert(x * scale, Scaled(s, scale)) == [s[0] * scale] + Insert(x * scale, rest) by {
          assert Scaled(s, scale)[1..] == rest;
        }
        ScaledCons(s[0], Insert(x, s[1..]), scale);
      } else {
        ScaledCons(x, s, scale);
      }
    }
  }

  lemma ScaledCons(y: int, t: seq<int>, scale: int)
    ensures Scaled([y] + t, scale) == [y * scale] + Scaled(t, scale)
  {
    assert ([y] + t)[1..] == t;
  }

  lemma {:induction false} SortCommutesWithScaling(s: seq<int>, scale: int)
    requires scale >= 1
    ensures SortAsc(Scaled(s, scale)) == Scaled(SortAsc(s), scale)
  {
    if s != [] {
      SortCommutesWithScaling(s[1..], scale);
      InsertCommutesWithScaling(s[0], SortAsc(s[1..]), scale);
      assert Scaled(s, scale)[1..] == Scaled(s[1..], scale);
    }
  }

  /**
   * Measured on the scaled-up coordinates, the square size is the scale
   * factor times the size measured before the scale-up.
   */
  lemma ScaledLinesScaleSquareSize(horizontal: seq<int>, vertical: seq<int>, scale: int)
    requires scale >= 1
    requires |SquareGaps(horizontal, vertical)| > 0
    ensures |SquareGaps(Scaled(horizontal, scale), Scaled(vertical, scale))| > 0
    ensures Median(SquareGaps(Scaled(horizontal, scale), Scaled(vertical, scale)))
      == Median(SquareGaps(horizontal, vertical)) * scale
  {
    var d := SquareGaps(horizontal, vertical);
    var e := SquareGaps(Scaled(horizontal, scale), Scaled(vertical, scale));
    GapsScale(horizontal, scale);
    GapsScale(vertical, scale);
    ScaledConcat(Gaps(horizontal), Gaps(vertical), scale);
    assert e == Scaled(d, scale);
    SortCommutesWithScaling(d, scale);
    var middle := |d| / 2;
    ScaledElements(SortAsc(d), scale);
    assert Median(e) == Scaled(SortAsc(d), scale)[middle];
  }

  lemma {:induction false} ScaledConcat(s: seq<int>, t: seq<int>, scale: int)
    ensures Scaled(s + t, scale) == Scaled(s, scale) + Scaled(t, scale)
  {
    if s == [] {
      assert s + t == t;
    } else {
      var a, u := s[0], s[1..];
      ScaledConcat(u, t, scale);
      assert s + t == [a] + (u + t) by {
        assert s == [a] + u;
      }
      ScaledCons(a, u + t, scale);
      assert Scaled(s, scale) == [a * scale] + Scaled(u, scale) by {
        assert s == [a] + u;
        ScaledCons(a, u, scale);
      }
      ConcatAssociates([a * scale], Scaled(u, scale), Scaled(t, scale));
    }
  }

  lemma ConcatAssociates(x: seq<int>, y: seq<int>, z: seq<int>)
    ensures x + (y + z) == (x + y) + z
  {
  }

  lemma GapsScale(a: seq<int>, scale: int)
    ensures Gaps(Scaled(a, scale)) == Scaled(Gaps(a), scale)
  {
    if |a| > 1 {
      GapsUpToScale(a, Scaled(a, scale), scale);
    }
  }

  lemma GapsUpToScale(a: seq<int>, b: seq<int>, scale: int)
    requires |a| > 1 && b == Scaled(a, scale)
    ensures GapsUpTo(b, |a| - 1) == Scaled(GapsUpTo(a, |a| - 1), scale)
  {
    var g, h := GapsUpTo(b, |a| - 1), Scaled(GapsUpTo(a, |a| - 1), scale);
    ScaledElements(a, scale);
    ScaledElements(GapsUpTo(a, |a| - 1), scale);
    forall k | 0 <= k < |a| - 1
      ensures g[k] == h[k]
    {
      MulSubtracts(a[k + 1], a[k], scale);
    }
  }
}
