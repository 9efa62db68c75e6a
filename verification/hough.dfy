/**
 * Hough line transform (imageLineExtractor.HoughLineTransform).
 *
 * Every white pixel votes, for each angle bin θ = 0..628 (θ/100 radians,
 * while θ < 200π), for the distance r it projects to. The accumulator is then
 * read out into a sparse list of (votes, r, θ) candidates, which are scanned in
 * order of decreasing votes to pick vertical (θ = 0) and near-horizontal lines.
 *
 * The trigonometry is a parameter: `project(a, b, θ)` stands for
 * round(a·cos(θ/100) + b·sin(θ/100)), `isHorizontal(θ)` for the slope test
 * |−cos/sin| < 0.01 and `intercept(r, θ)` for (int)(r / sin(θ/100)).
 */
module Hough {
  import opened Pixels
  import opened Sorting

  /** Angle bins visited by `theta < 200 * Math.PI`: 0..628. */
  const THETA_BINS: nat := 629
  /** Accumulator columns, `(int) (200 * Math.PI) + 2`. */
  const COLUMNS: nat := 630
  /** Initial value of the static proximity window. */
  const INITIAL_WINDOW: int := 60

  datatype Result<T> = Success(value: T) | Failure

  /** One non-empty accumulator cell: its count, its row r and its column θ. */
  datatype Candidate = Candidate(votes: int, r: int, theta: int)

  // ---------------------------------------------------------------------------
  // findHighestPoint

  /** A white pixel at row i, column j. */
  predicate WhiteAt(image: array2<int>, i: int, j: int)
    reads image
  {
    0 <= i < image.Length0 && 0 <= j < image.Length1 && image[i, j] == WHITE
  }

  /** h is the largest of -1 and every projection `findHighestPoint` computes (row first, column second). */
  ghost predicate IsHighestPoint(image: array2<int>, project: (int, int, int) -> int, h: int)
    reads image
  {
    && h >= -1
    && (forall i, j, theta :: WhiteAt(image, i, j) && 0 <= theta < THETA_BINS ==> project(i, j, theta) <= h)
    && (h == -1 || exists i, j, theta :: WhiteAt(image, i, j) && 0 <= theta < THETA_BINS && project(i, j, theta) == h)
  }

  /** There is only one highest point. */
  lemma HighestPointIsUnique(image: array2<int>, project: (int, int, int) -> int, h: int, h': int)
    requires IsHighestPoint(image, project, h) && IsHighestPoint(image, project, h')
    ensures h == h'
  {
    if h != -1 {
      var i, j, theta :| WhiteAt(image, i, j) && 0 <= theta < THETA_BINS && project(i, j, theta) == h;
      assert h <= h';
    }
    if h' != -1 {
      var i, j, theta :| WhiteAt(image, i, j) && 0 <= theta < THETA_BINS && project(i, j, theta) == h';
      assert h' <= h;
    }
  }

  /** `findHighestPoint`: the largest projection of any white pixel over all angle bins, or -1. */
  method FindHighestPoint(image: array2<int>, project: (int, int, int) -> int) returns (highestPoint: int)
    ensures IsHighestPoint(image, project, highestPoint)
  {
    highestPoint := -1;
    var i := 0;
    while i < image.Length0
      invariant 0 <= i <= image.Length0
      invariant highestPoint >= -1
      invariant forall i', j', theta :: WhiteAt(image, i', j') && i' < i && 0 <= theta < THETA_BINS ==> project(i', j', theta) <= highestPoint
      invariant highestPoint == -1 || exists i', j', theta :: WhiteAt(image, i', j') && 0 <= theta < THETA_BINS && project(i', j', theta) == highestPoint
    {
      var j := 0;
      while j < image.Length1
        invariant 0 <= j <= image.Length1
        invariant highestPoint >= -1
        invariant forall i', j', theta :: WhiteAt(image, i', j') && (i' < i || (i' == i && j' < j)) && 0 <= theta < THETA_BINS ==>
          project(i', j', theta) <= highestPoint
        invariant highestPoint == -1 || exists i', j', theta :: WhiteAt(image, i', j') && 0 <= theta < THETA_BINS && project(i', j', theta) == highestPoint
      {
        if image[i, j] == WHITE {
          var theta := 0;
          while theta < THETA_BINS
            invariant 0 <= theta <= THETA_BINS
            invariant highestPoint >= -1
            invariant forall i', j', theta' :: WhiteAt(image, i', j') && (i' < i || (i' == i && j' < j)) && 0 <= theta' < THETA_BINS ==>
              project(i', j', theta') <= highestPoint
            invariant forall theta' :: 0 <= theta' < theta ==> project(i, j, theta') <= highestPoint
            invariant highestPoint == -1 || exists i', j', theta' :: WhiteAt(image, i', j') && 0 <= theta' < THETA_BINS && project(i', j', theta') == highestPoint
          {
            var r := project(i, j, theta);
            if r > highestPoint {
              highestPoint := r;
            }
            theta := theta + 1;
          }
        }
        j := j + 1;
      }
      i := i + 1;
    }
  }

  // ---------------------------------------------------------------------------
  // plotOnArray and the accumulator

  /** The white pixel at row i, column j votes for cell (r, θ): `plotOnArray(j, i, ...)` projects column first. */
  predicate Hit(image: array2<int>, project: (int, int, int) -> int, r: int, theta: int, i: int, j: int)
    reads image
    requires 0 <= i < image.Length0 && 0 <= j < image.Length1
  {
    image[i, j] == WHITE && 0 <= theta < THETA_BINS && project(j, i, theta) == r
  }

  /** Votes for (r, θ) from the first j pixels of row i. */
  ghost function VotesInRow(image: array2<int>, project: (int, int, int) -> int, r: int, theta: int, i: int, j: int): nat
    reads image
    requires 0 <= i < image.Length0 && 0 <= j <= image.Length1
    decreases j
  {
    if j == 0 then 0
    else VotesInRow(image, project, r, theta, i, j - 1) + (if Hit(image, project, r, theta, i, j - 1) then 1 else 0)
  }

  /** Votes for (r, θ) from rows 0..i-1. */
  ghost function VotesBefore(image: array2<int>, project: (int, int, int) -> int, r: int, theta: int, i: int): nat
    reads image
    requires 0 <= i <= image.Length0
  {
    if i == 0 then 0 else VotesBefore(image, project, r, theta, i - 1) + VotesInRow(image, project, r, theta, i - 1, image.Length1)
  }

  /** The final count of accumulator cell (r, θ). */
  ghost function Votes(image: array2<int>, project: (int, int, int) -> int, r: int, theta: int): nat
    reads image
  {
    VotesBefore(image, project, r, theta, image.Length0)
  }

  /** No white pixel projects above the accumulator's last row. */
  ghost predicate FitsAccumulator(image: array2<int>, project: (int, int, int) -> int, rows: int)
    reads image
  {
    forall i, j, theta :: WhiteAt(image, i, j) && 0 <= theta < THETA_BINS ==> project(j, i, theta) < rows
  }

  /**
   * `plotOnArray(x, y, ...)`: one vote in every column θ whose projection r is
   * not negative. An r beyond the last row makes the source fail with an index
   * out of bounds (first on the vote-graph image, then on the accumulator):
   * `ok` is false exactly then, and the accumulator is then of no further use.
   */
  method PlotOnArray(x: int, y: int, coordinateSystemArray: array2<int>, project: (int, int, int) -> int) returns (ok: bool)
    requires coordinateSystemArray.Length1 == COLUMNS
    modifies coordinateSystemArray
    ensures ok <==> forall theta :: 0 <= theta < THETA_BINS ==> project(x, y, theta) < coordinateSystemArray.Length0
    ensures ok ==> forall r, theta :: 0 <= r < coordinateSystemArray.Length0 && 0 <= theta < COLUMNS ==>
      coordinateSystemArray[r, theta] == old(coordinateSystemArray[r, theta]) + (if theta < THETA_BINS && project(x, y, theta) == r then 1 else 0)
  {
    var theta := 0;
    while theta < THETA_BINS
      invariant 0 <= theta <= THETA_BINS
      invariant forall theta' :: 0 <= theta' < theta ==> project(x, y, theta') < coordinateSystemArray.Length0
      invariant forall r, theta' :: 0 <= r < coordinateSystemArray.Length0 && 0 <= theta' < COLUMNS ==>
        coordinateSystemArray[r, theta'] == old(coordinateSystemArray[r, theta']) + (if theta' < theta && project(x, y, theta') == r then 1 else 0)
    {
      var r := project(x, y, theta);
      if r >= 0 {
        if r >= coordinateSystemArray.Length0 {
          return false;
        }
        coordinateSystemArray[r, theta] := coordinateSystemArray[r, theta] + 1;
      }
      theta := theta + 1;
    }
    return true;
  }

  /** The count of cell (r, θ) is positive iff θ is a visited bin and some white pixel projects to r there. */
  lemma VotesArePositiveIffHit(image: array2<int>, project: (int, int, int) -> int, r: int, theta: int)
    ensures Votes(image, project, r, theta) > 0 <==>
      0 <= theta < THETA_BINS && exists i, j :: WhiteAt(image, i, j) && project(j, i, theta) == r
  {
    VotesBeforeArePositiveIffHit(image, project, r, theta, image.Length0);
    if exists i, j :: 0 <= i < image.Length0 && 0 <= j < image.Length1 && Hit(image, project, r, theta, i, j) {
      var i, j :| 0 <= i < image.Length0 && 0 <= j < image.Length1 && Hit(image, project, r, theta, i, j);
      assert WhiteAt(image, i, j) && project(j, i, theta) == r;
    }
    if 0 <= theta < THETA_BINS && exists i, j :: WhiteAt(image, i, j) && project(j, i, theta) == r {
      var i, j :| WhiteAt(image, i, j) && project(j, i, theta) == r;
      assert Hit(image, project, r, theta, i, j);
    }
  }

  lemma {:induction false} VotesBeforeArePositiveIffHit(image: array2<int>, project: (int, int, int) -> int, r: int, theta: int, i: int)
    requires 0 <= i <= image.Length0
    ensures VotesBefore(image, project, r, theta, i) > 0 <==>
      exists i', j' :: 0 <= i' < i && 0 <= j' < image.Length1 && Hit(image, project, r, theta, i', j')
    decreases i
  {
    if i > 0 {
      VotesBeforeArePositiveIffHit(image, project, r, theta, i - 1);
      VotesInRowArePositiveIffHit(image, project, r, theta, i - 1, image.Length1);
      if exists i', j' :: 0 <= i' < i && 0 <= j' < image.Length1 && Hit(image, project, r, theta, i', j') {
        var i', j' :| 0 <= i' < i && 0 <= j' < image.Length1 && Hit(image, project, r, theta, i', j');
        if i' < i - 1 {
          assert VotesBefore(image, project, r, theta, i - 1) > 0;
        } else {
          assert VotesInRow(image, project, r, theta, i - 1, image.Length1) > 0;
        }
      }
    }
  }

  lemma {:induction false} VotesInRowArePositiveIffHit(image: array2<int>, project: (int, int, int) -> int, r: int, theta: int, i: int, j: int)
    requires 0 <= i < image.Length0 && 0 <= j <= image.Length1
    ensures VotesInRow(image, project, r, theta, i, j) > 0 <==> exists j' :: 0 <= j' < j && Hit(image, project, r, theta, i, j')
    decreases j
  {
    if j > 0 {
      VotesInRowArePositiveIffHit(image, project, r, theta, i, j - 1);
      if exists j' :: 0 <= j' < j && Hit(image, project, r, theta, i, j') {
        var j' :| 0 <= j' < j && Hit(image, project, r, theta, i, j');
        if j' < j - 1 {
          assert VotesInRow(image, project, r, theta, i, j - 1) > 0;
        }
      }
    }
  }

  // ---------------------------------------------------------------------------
  // makePolarCoordinatesGraph: voting and sparse extraction

  /** The candidates of row r, columns 0..theta-1, in column order. */
  ghost function SparseInRow(image: array2<int>, project: (int, int, int) -> int, r: int, theta: nat): seq<Candidate>
    reads image
    decreases theta
  {
    if theta == 0 then
      []
    else
      var votes := Votes(image, project, r, theta - 1);
      SparseInRow(image, project, r, theta - 1) + (if votes > 0 then [Candidate(votes, r, theta - 1)] else [])
  }

  /** The candidates of accumulator rows 0..rows-1, in row-major order. */
  ghost function Sparse(image: array2<int>, project: (int, int, int) -> int, rows: nat): seq<Candidate>
    reads image
  {
    if rows == 0 then [] else Sparse(image, project, rows - 1) + SparseInRow(image, project, rows - 1, COLUMNS)
  }

  /**
   * `makePolarCoordinatesGraph`: fails when the accumulator has no row (the
   * source reads the length of row 0) or when some vote falls beyond its last
   * row; otherwise the non-empty cells in row-major order.
   */
  method MakePolarCoordinatesGraph(highestPoint: int, image: array2<int>, project: (int, int, int) -> int)
    returns (result: Result<seq<Candidate>>)
    ensures result.Failure? <==> highestPoint < 0 || !FitsAccumulator(image, project, highestPoint + 1)
    ensures result.Success? ==> result.value == Sparse(image, project, highestPoint + 1)
  {
    if highestPoint < 0 {
      return Failure;
    }
    var coordinateSystemArray := new int[highestPoint + 1, COLUMNS]((r, theta) => 0);
    var ok := CastVotes(image, project, coordinateSystemArray);
    if !ok {
      return Failure;
    }
    var sortingArray := CollectCandidates(coordinateSystemArray, image, project);
    return Success(sortingArray);
  }

  /** The voting loops of `makePolarCoordinatesGraph`, over a zeroed accumulator. */
  method CastVotes(image: array2<int>, project: (int, int, int) -> int, coordinateSystemArray: array2<int>) returns (ok: bool)
    requires coordinateSystemArray != image
    requires coordinateSystemArray.Length1 == COLUMNS
    requires forall r, theta :: 0 <= r < coordinateSystemArray.Length0 && 0 <= theta < COLUMNS ==> coordinateSystemArray[r, theta] == 0
    modifies coordinateSystemArray
    ensures ok <==> FitsAccumulator(image, project, coordinateSystemArray.Length0)
    ensures ok ==> forall r, theta :: 0 <= r < coordinateSystemArray.Length0 && 0 <= theta < COLUMNS ==>
      coordinateSystemArray[r, theta] == Votes(image, project, r, theta)
  {
    var rows := coordinateSystemArray.Length0;
    var i := 0;
    while i < image.Length0
      invariant 0 <= i <= image.Length0
      invariant forall i', j', theta :: WhiteAt(image, i', j') && i' < i && 0 <= theta < THETA_BINS ==> project(j', i', theta) < rows
      invariant forall r, theta :: 0 <= r < rows && 0 <= theta < COLUMNS ==>
        coordinateSystemArray[r, theta] == old(VotesBefore(image, project, r, theta, i))
    {
      var j := 0;
      while j < image.Length1
        invariant 0 <= j <= image.Length1
        invariant forall i', j', theta :: WhiteAt(image, i', j') && (i' < i || (i' == i && j' < j)) && 0 <= theta < THETA_BINS ==>
          project(j', i', theta) < rows
        invariant forall r, theta :: 0 <= r < rows && 0 <= theta < COLUMNS ==>
          coordinateSystemArray[r, theta] == old(VotesBefore(image, project, r, theta, i) + VotesInRow(image, project, r, theta, i, j))
      {
        if image[i, j] == WHITE {
          ok := PlotOnArray(j, i, coordinateSystemArray, project);
          if !ok {
            assert WhiteAt(image, i, j);
            return;
          }
        }
        j := j + 1;
      }
      i := i + 1;
    }
    return true;
  }

  /** The read-out loops of `makePolarCoordinatesGraph`: every positive cell as (count, r, θ), row by row. */
  method CollectCandidates(coordinateSystemArray: array2<int>, ghost image: array2<int>, ghost project: (int, int, int) -> int)
    returns (sortingArray: seq<Candidate>)
    requires coordinateSystemArray.Length1 == COLUMNS
    requires forall r, theta :: 0 <= r < coordinateSystemArray.Length0 && 0 <= theta < COLUMNS ==>
      coordinateSystemArray[r, theta] == Votes(image, project, r, theta)
    ensures sortingArray == Sparse(image, project, coordinateSystemArray.Length0)
  {
    sortingArray := [];
    var r := 0;
    while r < coordinateSystemArray.Length0
      invariant 0 <= r <= coordinateSystemArray.Length0
      invariant sortingArray == Sparse(image, project, r)
    {
      var theta := 0;
      while theta < COLUMNS
        invariant 0 <= theta <= COLUMNS
        invariant sortingArray == Sparse(image, project, r) + SparseInRow(image, project, r, theta)
      {
        if coordinateSystemArray[r, theta] > 0 {
          sortingArray := sortingArray + [Candidate(coordinateSystemArray[r, theta], r, theta)];
        }
        theta := theta + 1;
      }
      r := r + 1;
    }
  }

  /** A cell the read-out lists: inside the accumulator, with its own positive count. */
  ghost predicate IsListedCell(image: array2<int>, project: (int, int, int) -> int, rows: int, c: Candidate)
    reads image
  {
    0 <= c.r < rows && 0 <= c.theta < COLUMNS && c.votes == Votes(image, project, c.r, c.theta) && c.votes > 0
  }

  /** Each candidate of row r carries r, a column below theta and that cell's own positive count. */
  lemma {:induction false} SparseInRowIsSound(image: array2<int>, project: (int, int, int) -> int, r: int, theta: nat)
    ensures forall k :: 0 <= k < |SparseInRow(image, project, r, theta)| ==>
      var c := SparseInRow(image, project, r, theta)[k];
      c.r == r && 0 <= c.theta < theta && c.votes == Votes(image, project, r, c.theta) && c.votes > 0
    decreases theta
  {
    if theta > 0 {
      SparseInRowIsSound(image, project, r, theta - 1);
      var p := SparseInRow(image, project, r, theta - 1);
      var votes := Votes(image, project, r, theta - 1);
      var w: seq<Candidate> := if votes > 0 then [Candidate(votes, r, theta - 1)] else [];
      assert SparseInRow(image, project, r, theta) == p + w;
      forall k | 0 <= k < |p + w|
        ensures var c := (p + w)[k]; c.r == r && 0 <= c.theta < theta && c.votes == Votes(image, project, r, c.theta) && c.votes > 0
      {
        if k < |p| {
          assert (p + w)[k] == p[k];
        } else {
          assert (p + w)[k] == w[0];
        }
      }
    }
  }

  /** Every positive cell of row r below column theta is listed. */
  lemma {:induction false} SparseInRowIsComplete(image: array2<int>, project: (int, int, int) -> int, r: int, theta: nat)
    ensures forall t :: 0 <= t < theta && Votes(image, project, r, t) > 0 ==>
      Candidate(Votes(image, project, r, t), r, t) in SparseInRow(image, project, r, theta)
    decreases theta
  {
    if theta > 0 {
      SparseInRowIsComplete(image, project, r, theta - 1);
      var p := SparseInRow(image, project, r, theta - 1);
      var votes := Votes(image, project, r, theta - 1);
      var w: seq<Candidate> := if votes > 0 then [Candidate(votes, r, theta - 1)] else [];
      assert SparseInRow(image, project, r, theta) == p + w;
      forall t | 0 <= t < theta && Votes(image, project, r, t) > 0
        ensures Candidate(Votes(image, project, r, t), r, t) in p + w
      {
        if t < theta - 1 {
          assert Candidate(Votes(image, project, r, t), r, t) in p;
        } else {
          assert (p + w)[|p|] == Candidate(votes, r, t);
        }
      }
    }
  }

  /** The candidates of row r come in strictly increasing column order. */
  lemma {:induction false} SparseInRowIsOrdered(image: array2<int>, project: (int, int, int) -> int, r: int, theta: nat)
    ensures forall k, l :: 0 <= k < l < |SparseInRow(image, project, r, theta)| ==>
      SparseInRow(image, project, r, theta)[k].theta < SparseInRow(image, project, r, theta)[l].theta
    decreases theta
  {
    if theta > 0 {
      SparseInRowIsOrdered(image, project, r, theta - 1);
      SparseInRowIsSound(image, project, r, theta - 1);
      var p := SparseInRow(image, project, r, theta - 1);
      var votes := Votes(image, project, r, theta - 1);
      var w: seq<Candidate> := if votes > 0 then [Candidate(votes, r, theta - 1)] else [];
      assert SparseInRow(image, project, r, theta) == p + w;
      forall k, l | 0 <= k < l < |p + w|
        ensures (p + w)[k].theta < (p + w)[l].theta
      {
        if l < |p| {
          assert (p + w)[k] == p[k] && (p + w)[l] == p[l];
        } else {
          assert (p + w)[k] == p[k] && (p + w)[l] == w[0];
        }
      }
    }
  }

  /** The three facts about one row together. */
  lemma SparseInRowFacts(image: array2<int>, project: (int, int, int) -> int, r: int, theta: nat)
    ensures forall k :: 0 <= k < |SparseInRow(image, project, r, theta)| ==>
      var c := SparseInRow(image, project, r, theta)[k];
      c.r == r && 0 <= c.theta < theta && c.votes == Votes(image, project, r, c.theta) && c.votes > 0
    ensures forall t :: 0 <= t < theta && Votes(image, project, r, t) > 0 ==>
      Candidate(Votes(image, project, r, t), r, t) in SparseInRow(image, project, r, theta)
    ensures forall k, l :: 0 <= k < l < |SparseInRow(image, project, r, theta)| ==>
      SparseInRow(image, project, r, theta)[k].theta < SparseInRow(image, project, r, theta)[l].theta
  {
    SparseInRowIsSound(image, project, r, theta);
    SparseInRowIsComplete(image, project, r, theta);
    SparseInRowIsOrdered(image, project, r, theta);
  }

  /** Every listed candidate is a positive cell with its own count. */
  lemma {:induction false} SparseIsSound(image: array2<int>, project: (int, int, int) -> int, rows: nat)
    ensures forall k :: 0 <= k < |Sparse(image, project, rows)| ==> IsListedCell(image, project, rows, Sparse(image, project, rows)[k])
  {
    if rows > 0 {
      SparseIsSound(image, project, rows - 1);
      SparseInRowFacts(image, project, rows - 1, COLUMNS);
      var p: seq<Candidate> := Sparse(image, project, rows - 1);
      var w: seq<Candidate> := SparseInRow(image, project, rows - 1, COLUMNS);
      forall k | 0 <= k < |p + w|
        ensures IsListedCell(image, project, rows, (p + w)[k])
      {
        if k < |p| {
          assert (p + w)[k] == p[k];
        } else {
          assert (p + w)[k] == w[k - |p|];
        }
      }
    }
  }

  /** Every positive cell is listed. */
  lemma {:induction false} SparseIsComplete(image: array2<int>, project: (int, int, int) -> int, rows: nat)
    ensures forall c :: IsListedCell(image, project, rows, c) ==> c in Sparse(image, project, rows)
  {
    if rows > 0 {
      SparseIsComplete(image, project, rows - 1);
      SparseInRowFacts(image, project, rows - 1, COLUMNS);
      forall c | IsListedCell(image, project, rows, c)
        ensures c in Sparse(image, project, rows)
      {
        if c.r < rows - 1 {
          assert IsListedCell(image, project, rows - 1, c);
        } else {
          assert c == Candidate(Votes(image, project, rows - 1, c.theta), rows - 1, c.theta);
        }
      }
    }
  }

  /** The list is strictly increasing in row-major (r, θ) order. */
  lemma {:induction false} SparseIsSorted(image: array2<int>, project: (int, int, int) -> int, rows: nat)
    ensures forall k, l :: 0 <= k < l < |Sparse(image, project, rows)| ==>
      var c, c' := Sparse(image, project, rows)[k], Sparse(image, project, rows)[l];
      Precedes(c.r, c.theta, c'.r, c'.theta)
  {
    if rows > 0 {
      SparseIsSorted(image, project, rows - 1);
      SparseIsSound(image, project, rows - 1);
      SparseInRowFacts(image, project, rows - 1, COLUMNS);
      var p: seq<Candidate> := Sparse(image, project, rows - 1);
      var w: seq<Candidate> := SparseInRow(image, project, rows - 1, COLUMNS);
      forall k, l | 0 <= k < l < |p + w|
        ensures Precedes((p + w)[k].r, (p + w)[k].theta, (p + w)[l].r, (p + w)[l].theta)
      {
        if l < |p| {
          assert (p + w)[k] == p[k] && (p + w)[l] == p[l];
        } else if k < |p| {
          assert IsListedCell(image, project, rows - 1, p[k]);
          assert (p + w)[k] == p[k] && (p + w)[l] == w[l - |p|];
        } else {
          assert (p + w)[k] == w[k - |p|] && (p + w)[l] == w[l - |p|];
        }
      }
    }
  }

  /**
   * The sparse list holds exactly the accumulator cells with a positive count,
   * each once, in row-major order.
   */
  lemma SparseListsThePositiveCells(image: array2<int>, project: (int, int, int) -> int, rows: nat)
    ensures forall c :: c in Sparse(image, project, rows) <==> IsListedCell(image, project, rows, c)
    ensures forall k, l :: 0 <= k < l < |Sparse(image, project, rows)| ==>
      var c, c' := Sparse(image, project, rows)[k], Sparse(image, project, rows)[l];
      Precedes(c.r, c.theta, c'.r, c'.theta)
  {
    SparseIsSound(image, project, rows);
    SparseIsComplete(image, project, rows);
    SparseIsSorted(image, project, rows);
  }

  // ---------------------------------------------------------------------------
  // findHorizontalAndVerticalLines

  /** Non-increasing in votes. */
  predicate ByVotes(s: seq<Candidate>)
  {
    forall k, l :: 0 <= k < l < |s| ==> s[k].votes >= s[l].votes
  }

  /** Inserts x in front of the first element with no more votes than x. */
  function InsertByVotes(x: Candidate, s: seq<Candidate>): (r: seq<Candidate>)
    ensures multiset(r) == multiset(s) + multiset{x}
    ensures |r| == |s| + 1
    ensures r[0] == x || (s != [] && r[0] == s[0])
  {
    if s == [] || s[0].votes <= x.votes then
      [x] + s
    else
      assert s == [s[0]] + s[1..];
      [s[0]] + InsertByVotes(x, s[1..])
  }

  lemma {:induction false} InsertByVotesKeepsOrder(x: Candidate, s: seq<Candidate>)
    requires ByVotes(s)
    ensures ByVotes(InsertByVotes(x, s))
  {
    if s != [] && s[0].votes > x.votes {
      var rest := InsertByVotes(x, s[1..]);
      InsertByVotesKeepsOrder(x, s[1..]);
      assert InsertByVotes(x, s) == [s[0]] + rest;
      assert s[0].votes >= rest[0].votes;
    }
  }

  /**
   * `sortingArray.sort((arr1, arr2) -> Integer.compare(arr2[0], arr1[0]))`:
   * the library sort is stable, so candidates with equal votes keep their
   * row-major order. Insertion from the back, in front of equal elements, is
   * that stable sort.
   */
  function SortByVotes(s: seq<Candidate>): (r: seq<Candidate>)
    ensures ByVotes(r)
    ensures multiset(r) == multiset(s)
    ensures |r| == |s|
  {
    if s == [] then
      []
    else
      assert s == [s[0]] + s[1..];
      InsertByVotesKeepsOrder(s[0], SortByVotes(s[1..]));
      InsertByVotes(s[0], SortByVotes(s[1..]))
  }

  /** The candidates with exactly v votes, in their order in s. */
  function WithVotes(s: seq<Candidate>, v: int): seq<Candidate>
  {
    if s == [] then [] else (if s[0].votes == v then [s[0]] else []) + WithVotes(s[1..], v)
  }

  lemma {:induction false} InsertByVotesIsStable(x: Candidate, s: seq<Candidate>, v: int)
    ensures WithVotes(InsertByVotes(x, s), v) == (if x.votes == v then [x] else []) + WithVotes(s, v)
  {
    if s == [] || s[0].votes <= x.votes {
      WithVotesOfCons(x, s, v);
    } else {
      var rest := InsertByVotes(x, s[1..]);
      InsertByVotesIsStable(x, s[1..], v);
      WithVotesOfCons(s[0], rest, v);
      assert s == [s[0]] + s[1..];
      WithVotesOfCons(s[0], s[1..], v);
    }
  }

  lemma WithVotesOfCons(x: Candidate, s: seq<Candidate>, v: int)
    ensures WithVotes([x] + s, v) == (if x.votes == v then [x] else []) + WithVotes(s, v)
  {
    assert ([x] + s)[0] == x && ([x] + s)[1..] == s;
  }

  /** Sorting by votes keeps the relative order of candidates with equal votes. */
  lemma {:induction false} SortByVotesIsStable(s: seq<Candidate>, v: int)
    ensures WithVotes(SortByVotes(s), v) == WithVotes(s, v)
  {
    if s != [] {
      SortByVotesIsStable(s[1..], v);
      InsertByVotesIsStable(s[0], SortByVotes(s[1..]), v);
    }
  }

  /** The coordinates accepted so far. */
  datatype Lines = Lines(horizontal: seq<int>, vertical: seq<int>)

  /** Some accepted value v has v - window < r < v + window. */
  predicate TooClose(values: seq<int>, r: int, window: int)
  {
    exists k :: 0 <= k < |values| && values[k] - window < r < values[k] + window
  }

  /**
   * One pass of the scan over candidate c: a vertical (θ = 0) or horizontal
   * candidate is dropped when its r is too close to a value of its own kind;
   * otherwise r (vertical) or the intercept (horizontal) is appended. Every
   * other candidate is skipped.
   */
  function Accept(lines: Lines, c: Candidate, window: int, isHorizontal: int -> bool, intercept: (int, int) -> int): Lines
  {
    if c.theta == 0 then
      if TooClose(lines.vertical, c.r, window) then lines else lines.(vertical := lines.vertical + [c.r])
    else if isHorizontal(c.theta) then
      if TooClose(lines.horizontal, c.r, window) then lines else lines.(horizontal := lines.horizontal + [intercept(c.r, c.theta)])
    else
      lines
  }

  /** The lines accepted from the first n candidates. */
  function Scan(sorted: seq<Candidate>, n: nat, window: int, isHorizontal: int -> bool, intercept: (int, int) -> int): Lines
    requires n <= |sorted|
  {
    if n == 0 then Lines([], []) else Accept(Scan(sorted, n - 1, window, isHorizontal, intercept), sorted[n - 1], window, isHorizontal, intercept)
  }

  /** How many leading candidates reach the cutoff: the scan breaks at the first one below it. */
  function ExaminedCount(sorted: seq<Candidate>, cutoff: int): (n: nat)
    ensures n <= |sorted|
    ensures forall k :: 0 <= k < n ==> sorted[k].votes >= cutoff
    ensures n < |sorted| ==> sorted[n].votes < cutoff
  {
    if sorted == [] || sorted[0].votes < cutoff then 0 else 1 + ExaminedCount(sorted[1..], cutoff)
  }

  /** The cutoff: an eighth of the top count, with Java's integer division. */
  function Cutoff(sorted: seq<Candidate>): int
    requires sorted != []
  {
    JavaDiv(sorted[0].votes, 8)
  }

  /** The lines the scan accepts, before the final ascending sorts. */
  function Selected(sorted: seq<Candidate>, window: int, isHorizontal: int -> bool, intercept: (int, int) -> int): Lines
  {
    if sorted == [] then Lines([], []) else Scan(sorted, ExaminedCount(sorted, Cutoff(sorted)), window, isHorizontal, intercept)
  }

  /** The pair `findHorizontalAndVerticalLines` returns for a list of candidates. */
  function LinesOf(candidates: seq<Candidate>, window: int, isHorizontal: int -> bool, intercept: (int, int) -> int): Lines
  {
    var selected := Selected(SortByVotes(candidates), window, isHorizontal, intercept);
    Lines(SortAsc(selected.horizontal), SortAsc(selected.vertical))
  }

  /** The `isTooClose` loop: stops at the first accepted value within the window. */
  method IsTooClose(lines: seq<int>, r: int, window: int) returns (isTooClose: bool)
    ensures isTooClose <==> TooClose(lines, r, window)
  {
    isTooClose := false;
    var m := 0;
    while m < |lines|
      invariant 0 <= m <= |lines|
      invariant forall m' :: 0 <= m' < m ==> !(lines[m'] - window < r < lines[m'] + window)
    {
      if lines[m] - window < r && lines[m] + window > r {
        isTooClose := true;
        break;
      }
      m := m + 1;
    }
  }

  /**
   * `findHorizontalAndVerticalLines` without its drawing: sorts the candidates
   * by votes, scans them until the first one below an eighth of the top
   * count, keeps vertical and horizontal lines that are not too close to an
   * accepted one, and returns both lists in ascending order.
   */
  method FindHorizontalAndVerticalLines(sortingArray: seq<Candidate>, window: int, isHorizontal: int -> bool, intercept: (int, int) -> int)
    returns (horizontal: seq<int>, vertical: seq<int>)
    ensures Lines(horizontal, vertical) == LinesOf(sortingArray, window, isHorizontal, intercept)
    ensures sortingArray == [] ==> horizontal == [] && vertical == []
  {
    var verticalLines: seq<int> := [];
    var horizontalLines: seq<int> := [];
    var sorted := SortByVotes(sortingArray);
    ghost var examined := if sorted == [] then 0 else ExaminedCount(sorted, Cutoff(sorted));
    var k := 0;
    while k < |sorted|
      invariant 0 <= k <= examined
      invariant Lines(horizontalLines, verticalLines) == Scan(sorted, k, window, isHorizontal, intercept)
    {
      var values := sorted[k];
      if values.votes < JavaDiv(sorted[0].votes, 8) {
        assert k == examined;
        break;
      }
      assert k < examined;
      var r := values.r;
      if values.theta == 0 || isHorizontal(values.theta) {
        var isTooClose := IsTooClose(if values.theta == 0 then verticalLines else horizontalLines, r, window);
        if !isTooClose {
          if values.theta == 0 {
            verticalLines := verticalLines + [r];
          } else {
            horizontalLines := horizontalLines + [intercept(r, values.theta)];
          }
        }
      }
      k := k + 1;
    }
    assert Lines(horizontalLines, verticalLines) == Selected(sorted, window, isHorizontal, intercept);
    horizontal := SortAsc(horizontalLines);
    vertical := SortAsc(verticalLines);
  }

  // Properties of the scan

  /** The top of the vote order is a candidate with the largest count. */
  lemma TopCandidateHasMostVotes(candidates: seq<Candidate>)
    requires candidates != []
    ensures SortByVotes(candidates)[0] in candidates
    ensures forall c :: c in candidates ==> c.votes <= SortByVotes(candidates)[0].votes
  {
    var sorted := SortByVotes(candidates);
    assert sorted[0] in multiset(sorted);
    forall c | c in candidates
      ensures c.votes <= sorted[0].votes
    {
      assert c in multiset(sorted);
      var k :| 0 <= k < |sorted| && sorted[k] == c;
      if k > 0 {
        assert sorted[0].votes >= sorted[k].votes;
      }
    }
  }

  /** The scan only ever appends: earlier results are prefixes of later ones. */
  lemma {:induction false} ScanOnlyAppends(sorted: seq<Candidate>, k: nat, n: nat, window: int, isHorizontal: int -> bool, intercept: (int, int) -> int)
    requires k <= n <= |sorted|
    ensures Scan(sorted, k, window, isHorizontal, intercept).vertical <= Scan(sorted, n, window, isHorizontal, intercept).vertical
    ensures Scan(sorted, k, window, isHorizontal, intercept).horizontal <= Scan(sorted, n, window, isHorizontal, intercept).horizontal
    decreases n
  {
    if k < n {
      ScanOnlyAppends(sorted, k, n - 1, window, isHorizontal, intercept);
    }
  }

  /** An accepted vertical value is the r of an examined θ = 0 candidate. */
  lemma {:induction false} VerticalSource(sorted: seq<Candidate>, n: nat, window: int, isHorizontal: int -> bool, intercept: (int, int) -> int, v: int)
    returns (k: nat)
    requires n <= |sorted|
    requires v in Scan(sorted, n, window, isHorizontal, intercept).vertical
    ensures k < n && sorted[k].theta == 0 && sorted[k].r == v
    decreases n
  {
    var before := Scan(sorted, n - 1, window, isHorizontal, intercept).vertical;
    if v in before {
      k := VerticalSource(sorted, n - 1, window, isHorizontal, intercept, v);
    } else {
      k := n - 1;
    }
  }

  /** An accepted horizontal value is the intercept of an examined candidate that passes the slope test. */
  lemma {:induction false} HorizontalSource(sorted: seq<Candidate>, n: nat, window: int, isHorizontal: int -> bool, intercept: (int, int) -> int, v: int)
    returns (k: nat)
    requires n <= |sorted|
    requires v in Scan(sorted, n, window, isHorizontal, intercept).horizontal
    ensures k < n && sorted[k].theta != 0 && isHorizontal(sorted[k].theta) && intercept(sorted[k].r, sorted[k].theta) == v
    decreases n
  {
    var before := Scan(sorted, n - 1, window, isHorizontal, intercept).horizontal;
    if v in before {
      k := HorizontalSource(sorted, n - 1, window, isHorizontal, intercept, v);
    } else {
      k := n - 1;
    }
  }

  /** Some value of values is own, or lies within the window of r. */
  predicate Covered(values: seq<int>, own: int, r: int, window: int)
  {
    exists v :: v in values && (v == own || v - window < r < v + window)
  }

  lemma CoveredGrows(a: seq<int>, b: seq<int>, own: int, r: int, window: int)
    requires a <= b && Covered(a, own, r, window)
    ensures Covered(b, own, r, window)
  {
    var v :| v in a && (v == own || v - window < r < v + window);
    var m :| 0 <= m < |a| && a[m] == v;
    assert b[m] == v;
    assert v in b;
  }

  lemma CoveredAfterSort(a: seq<int>, own: int, r: int, window: int)
    requires Covered(a, own, r, window)
    ensures Covered(SortAsc(a), own, r, window)
  {
    var v :| v in a && (v == own || v - window < r < v + window);
    assert v in multiset(SortAsc(a));
    assert v in SortAsc(a);
  }

  /** Passing a candidate to the scan covers it, whether it is appended or dropped as too close. */
  lemma AcceptCovers(lines: Lines, c: Candidate, window: int, isHorizontal: int -> bool, intercept: (int, int) -> int)
    ensures c.theta == 0 ==> Covered(Accept(lines, c, window, isHorizontal, intercept).vertical, c.r, c.r, window)
    ensures c.theta != 0 && isHorizontal(c.theta) ==>
      Covered(Accept(lines, c, window, isHorizontal, intercept).horizontal, intercept(c.r, c.theta), c.r, window)
  {
    var after := Accept(lines, c, window, isHorizontal, intercept);
    var values := if c.theta == 0 then lines.vertical else lines.horizontal;
    var added := if c.theta == 0 then after.vertical else after.horizontal;
    var own := if c.theta == 0 then c.r else intercept(c.r, c.theta);
    if c.theta == 0 || isHorizontal(c.theta) {
      if TooClose(values, c.r, window) {
        var m :| 0 <= m < |values| && values[m] - window < c.r < values[m] + window;
        assert added == values;
        assert values[m] in added;
      } else {
        assert added == values + [own];
        assert added[|values|] == own;
        assert own in added;
      }
    }
  }

  /** An examined vertical candidate is covered: some accepted vertical value is its r or lies within the window of it. */
  lemma {:induction false} ScanCoversVertical(sorted: seq<Candidate>, n: nat, window: int, isHorizontal: int -> bool, intercept: (int, int) -> int, k: nat)
    requires k < n <= |sorted| && sorted[k].theta == 0
    ensures Covered(Scan(sorted, n, window, isHorizontal, intercept).vertical, sorted[k].r, sorted[k].r, window)
    decreases n
  {
    var before := Scan(sorted, n - 1, window, isHorizontal, intercept);
    AcceptCovers(before, sorted[n - 1], window, isHorizontal, intercept);
    if k < n - 1 {
      ScanCoversVertical(sorted, n - 1, window, isHorizontal, intercept, k);
      ScanOnlyAppends(sorted, n - 1, n, window, isHorizontal, intercept);
      CoveredGrows(before.vertical, Scan(sorted, n, window, isHorizontal, intercept).vertical, sorted[k].r, sorted[k].r, window);
    }
  }

  /** An examined horizontal candidate is covered: some accepted horizontal value is its intercept or lies within the window of its r. */
  lemma {:induction false} ScanCoversHorizontal(sorted: seq<Candidate>, n: nat, window: int, isHorizontal: int -> bool, intercept: (int, int) -> int, k: nat)
    requires k < n <= |sorted| && sorted[k].theta != 0 && isHorizontal(sorted[k].theta)
    ensures Covered(Scan(sorted, n, window, isHorizontal, intercept).horizontal, intercept(sorted[k].r, sorted[k].theta), sorted[k].r, window)
    decreases n
  {
    var before := Scan(sorted, n - 1, window, isHorizontal, intercept);
    AcceptCovers(before, sorted[n - 1], window, isHorizontal, intercept);
    if k < n - 1 {
      ScanCoversHorizontal(sorted, n - 1, window, isHorizontal, intercept, k);
      ScanOnlyAppends(sorted, n - 1, n, window, isHorizontal, intercept);
      CoveredGrows(before.horizontal, Scan(sorted, n, window, isHorizontal, intercept).horizontal,
        intercept(sorted[k].r, sorted[k].theta), sorted[k].r, window);
    }
  }

  /** Pairwise at least window apart, in either direction. */
  predicate FarApart(s: seq<int>, window: int)
  {
    forall k, l :: 0 <= k < l < |s| ==> s[l] - s[k] >= window || s[k] - s[l] >= window
  }

  lemma {:induction false} ScanVerticalsAreFarApart(sorted: seq<Candidate>, n: nat, window: int, isHorizontal: int -> bool, intercept: (int, int) -> int)
    requires n <= |sorted|
    ensures FarApart(Scan(sorted, n, window, isHorizontal, intercept).vertical, window)
    decreases n
  {
    if n > 0 {
      ScanVerticalsAreFarApart(sorted, n - 1, window, isHorizontal, intercept);
    }
  }

  lemma FarApartCons(y: int, t: seq<int>, window: int)
    requires FarApart(t, window)
    requires forall k :: 0 <= k < |t| ==> t[k] - y >= window || y - t[k] >= window
    ensures FarApart([y] + t, window)
  {
    var s := [y] + t;
    forall k, l | 0 <= k < l < |s|
      ensures s[l] - s[k] >= window || s[k] - s[l] >= window
    {
      assert s[l] == t[l - 1];
      if k > 0 {
        assert s[k] == t[k - 1];
      }
    }
  }

  lemma {:induction false} InsertKeepsFarApart(x: int, s: seq<int>, window: int)
    requires FarApart(s, window)
    requires forall k :: 0 <= k < |s| ==> s[k] - x >= window || x - s[k] >= window
    ensures FarApart(Insert(x, s), window)
  {
    if s == [] || x <= s[0] {
      FarApartCons(x, s, window);
    } else {
      var tail := s[1..];
      assert FarApart(tail, window) by {
        forall k, l | 0 <= k < l < |tail|
          ensures tail[l] - tail[k] >= window || tail[k] - tail[l] >= window
        {
          assert tail[k] == s[k + 1] && tail[l] == s[l + 1];
        }
      }
      assert forall k :: 0 <= k < |tail| ==> tail[k] == s[k + 1];
      InsertKeepsFarApart(x, tail, window);
      var rest := Insert(x, tail);
      forall l | 0 <= l < |rest|
        ensures rest[l] - s[0] >= window || s[0] - rest[l] >= window
      {
        assert rest[l] in multiset(rest);
        if rest[l] == x {
          assert s[0] - x >= window || x - s[0] >= window;
        } else {
          assert rest[l] in multiset(tail);
          var m :| 0 <= m < |tail| && tail[m] == rest[l];
          assert s[m + 1] == rest[l];
          assert s[m + 1] - s[0] >= window || s[0] - s[m + 1] >= window;
        }
      }
      FarApartCons(s[0], rest, window);
    }
  }

  lemma {:induction false} SortKeepsFarApart(s: seq<int>, window: int)
    requires FarApart(s, window)
    ensures FarApart(SortAsc(s), window)
  {
    if s != [] {
      var tail := SortAsc(s[1..]);
      SortKeepsFarApart(s[1..], window);
      forall k | 0 <= k < |tail|
        ensures tail[k] - s[0] >= window || s[0] - tail[k] >= window
      {
        assert tail[k] in multiset(s[1..]);
        var m :| 0 <= m < |s[1..]| && s[1..][m] == tail[k];
        assert s[m + 1] == tail[k];
      }
      InsertKeepsFarApart(s[0], tail, window);
    }
  }

  /** Accepted vertical lines are pairwise at least the window apart; in the returned ascending order each is at least the window beyond every earlier one. */
  lemma VerticalLinesAreApart(candidates: seq<Candidate>, window: int, isHorizontal: int -> bool, intercept: (int, int) -> int)
    ensures var vertical := LinesOf(candidates, window, isHorizontal, intercept).vertical;
      forall k, l :: 0 <= k < l < |vertical| ==> vertical[l] - vertical[k] >= window
  {
    var sorted := SortByVotes(candidates);
    var selected := Selected(sorted, window, isHorizontal, intercept);
    if sorted != [] {
      ScanVerticalsAreFarApart(sorted, ExaminedCount(sorted, Cutoff(sorted)), window, isHorizontal, intercept);
    }
    SortKeepsFarApart(selected.vertical, window);
  }

  /**
   * Every returned vertical value is the r of a θ = 0 candidate with at least
   * an eighth (integer division) of the top count.
   */
  lemma VerticalLinesAreSound(candidates: seq<Candidate>, window: int, isHorizontal: int -> bool, intercept: (int, int) -> int)
    requires candidates != []
    ensures forall v :: v in LinesOf(candidates, window, isHorizontal, intercept).vertical ==>
      exists c :: c in candidates && c.theta == 0 && c.r == v && c.votes >= JavaDiv(SortByVotes(candidates)[0].votes, 8)
  {
    var sorted := SortByVotes(candidates);
    var n := ExaminedCount(sorted, Cutoff(sorted));
    var selected := Scan(sorted, n, window, isHorizontal, intercept).vertical;
    forall v | v in SortAsc(selected)
      ensures exists c :: c in candidates && c.theta == 0 && c.r == v && c.votes >= JavaDiv(sorted[0].votes, 8)
    {
      assert v in multiset(SortAsc(selected));
      var k := VerticalSource(sorted, n, window, isHorizontal, intercept, v);
      assert sorted[k] in multiset(sorted);
      assert sorted[k] in candidates;
    }
  }

  /**
   * Every returned horizontal value is the intercept of a candidate that
   * passes the slope test, with at least an eighth of the top count.
   */
  lemma HorizontalLinesAreSound(candidates: seq<Candidate>, window: int, isHorizontal: int -> bool, intercept: (int, int) -> int)
    requires candidates != []
    ensures forall v :: v in LinesOf(candidates, window, isHorizontal, intercept).horizontal ==>
      exists c :: c in candidates && c.theta != 0 && isHorizontal(c.theta) && intercept(c.r, c.theta) == v &&
        c.votes >= JavaDiv(SortByVotes(candidates)[0].votes, 8)
  {
    var sorted := SortByVotes(candidates);
    var n := ExaminedCount(sorted, Cutoff(sorted));
    var selected := Scan(sorted, n, window, isHorizontal, intercept).horizontal;
    forall v | v in SortAsc(selected)
      ensures exists c :: (c in candidates && c.theta != 0 && isHorizontal(c.theta) && intercept(c.r, c.theta) == v &&
        c.votes >= JavaDiv(sorted[0].votes, 8))
    {
      assert v in multiset(SortAsc(selected));
      var k := HorizontalSource(sorted, n, window, isHorizontal, intercept, v);
      assert sorted[k] in multiset(sorted);
      assert sorted[k] in candidates;
    }
  }

  /** The first position of c in s. */
  function IndexOf(s: seq<Candidate>, c: Candidate): (k: nat)
    requires c in s
    ensures k < |s| && s[k] == c
  {
    if s[0] == c then 0 else 1 + IndexOf(s[1..], c)
  }

  /** Past the examined prefix of a vote-ordered list, every count is below the cutoff. */
  lemma BelowCutoffPastExamined(sorted: seq<Candidate>)
    requires sorted != [] && ByVotes(sorted)
    ensures forall j :: ExaminedCount(sorted, Cutoff(sorted)) <= j < |sorted| ==> sorted[j].votes < Cutoff(sorted)
  {
    var n := ExaminedCount(sorted, Cutoff(sorted));
    forall j | n <= j < |sorted|
      ensures sorted[j].votes < Cutoff(sorted)
    {
      assert sorted[n].votes < Cutoff(sorted);
      if j > n {
        assert sorted[n].votes >= sorted[j].votes;
      }
    }
  }

  /** A candidate with at least an eighth of the top count is among those the scan examines. */
  lemma StrongCandidateIsExamined(candidates: seq<Candidate>, c: Candidate) returns (k: nat)
    requires c in candidates
    requires c.votes >= JavaDiv(SortByVotes(candidates)[0].votes, 8)
    ensures k < ExaminedCount(SortByVotes(candidates), Cutoff(SortByVotes(candidates)))
    ensures SortByVotes(candidates)[k] == c
  {
    var sorted := SortByVotes(candidates);
    assert c in multiset(sorted);
    k := IndexOf(sorted, c);
    BelowCutoffPastExamined(sorted);
  }

  /**
   * Every vertical candidate with at least an eighth of the top count is
   * covered by a returned vertical value: its own r, or one within the window.
   */
  lemma LinesCoverStrongVerticals(candidates: seq<Candidate>, window: int, isHorizontal: int -> bool, intercept: (int, int) -> int)
    requires candidates != []
    ensures forall c :: c in candidates && c.theta == 0 && c.votes >= JavaDiv(SortByVotes(candidates)[0].votes, 8) ==>
      Covered(LinesOf(candidates, window, isHorizontal, intercept).vertical, c.r, c.r, window)
  {
    var sorted := SortByVotes(candidates);
    var n := ExaminedCount(sorted, Cutoff(sorted));
    forall c | c in candidates && c.theta == 0 && c.votes >= JavaDiv(sorted[0].votes, 8)
      ensures Covered(LinesOf(candidates, window, isHorizontal, intercept).vertical, c.r, c.r, window)
    {
      var k := StrongCandidateIsExamined(candidates, c);
      ScanCoversVertical(sorted, n, window, isHorizontal, intercept, k);
      CoveredAfterSort(Scan(sorted, n, window, isHorizontal, intercept).vertical, c.r, c.r, window);
    }
  }

  /**
   * Every horizontal candidate with at least an eighth of the top count is
   * covered by a returned horizontal value: its own intercept, or one within
   * the window of its r (the source compares r with stored intercepts).
   */
  lemma LinesCoverStrongHorizontals(candidates: seq<Candidate>, window: int, isHorizontal: int -> bool, intercept: (int, int) -> int)
    requires candidates != []
    ensures forall c :: c in candidates && c.theta != 0 && isHorizontal(c.theta) && c.votes >= JavaDiv(SortByVotes(candidates)[0].votes, 8) ==>
      Covered(LinesOf(candidates, window, isHorizontal, intercept).horizontal, intercept(c.r, c.theta), c.r, window)
  {
    var sorted := SortByVotes(candidates);
    var n := ExaminedCount(sorted, Cutoff(sorted));
    forall c | c in candidates && c.theta != 0 && isHorizontal(c.theta) && c.votes >= JavaDiv(sorted[0].votes, 8)
      ensures Covered(LinesOf(candidates, window, isHorizontal, intercept).horizontal, intercept(c.r, c.theta), c.r, window)
    {
      var k := StrongCandidateIsExamined(candidates, c);
      ScanCoversHorizontal(sorted, n, window, isHorizontal, intercept, k);
      CoveredAfterSort(Scan(sorted, n, window, isHorizontal, intercept).horizontal, intercept(c.r, c.theta), c.r, window);
    }
  }

  /** A vertical top candidate with a non-negative count is always returned. */
  lemma TopVerticalIsKept(candidates: seq<Candidate>, window: int, isHorizontal: int -> bool, intercept: (int, int) -> int)
    requires candidates != []
    requires SortByVotes(candidates)[0].theta == 0 && SortByVotes(candidates)[0].votes >= 0
    ensures SortByVotes(candidates)[0].r in LinesOf(candidates, window, isHorizontal, intercept).vertical
  {
    var sorted := SortByVotes(candidates);
    var n := ExaminedCount(sorted, Cutoff(sorted));
    assert n >= 1;
    ScanOnlyAppends(sorted, 1, n, window, isHorizontal, intercept);
    var first := Scan(sorted, 1, window, isHorizontal, intercept);
    assert first.vertical == [sorted[0].r];
    var selected := Scan(sorted, n, window, isHorizontal, intercept);
    assert selected.vertical[0] == sorted[0].r;
    assert sorted[0].r in multiset(selected.vertical);
  }

  // ---------------------------------------------------------------------------
  // getLines and the static window

  /** A second division by a scale factor divides by the product of both factors. */
  lemma RepeatedCallsCompoundTheScale(window: int, first: int, second: int)
    requires window >= 0 && first >= 1 && second >= 1
    ensures JavaDiv(JavaDiv(window, first), second) == JavaDiv(window, first * second)
  {
    var q1, r1 := window / first, window % first;
    var q2, r2 := q1 / second, q1 % second;
    NestedQuotients(window, first, second, q1, r1, q2, r2);
    NestedRemainderFits(first, second, r1, r2);
    DivisionByRemainder(window, first * second, q2, first * r2 + r1);
  }

  /** Dividing by first and then by second leaves window = (first * second) * q2 + (first * r2 + r1). */
  lemma NestedQuotients(window: int, first: int, second: int, q1: int, r1: int, q2: int, r2: int)
    requires window == first * q1 + r1 && q1 == second * q2 + r2
    ensures window == (first * second) * q2 + (first * r2 + r1)
  {
    MulDistributes(first, second * q2, r2);
    MulAssociates(first, second, q2);
  }

  /** The combined remainder fits below the combined divisor. */
  lemma NestedRemainderFits(first: int, second: int, r1: int, r2: int)
    requires 0 <= r1 < first && 0 <= r2 < second
    ensures 0 <= first * r2 + r1 < first * second
  {
    MulNonNegative(first, r2);
    MulDistributes(first, r2, second - 1 - r2);
    MulNonNegative(first, second - 1 - r2);
    MulDistributes(first, second - 1, 1);
  }

  lemma MulAssociates(a: int, b: int, c: int)
    ensures a * (b * c) == (a * b) * c
  {
  }

  lemma MulNonNegative(a: int, b: int)
    requires a >= 0 && b >= 0
    ensures a * b >= 0
  {
  }

  /** Division is determined by any quotient and remainder that fit. */
  lemma DivisionByRemainder(a: int, d: int, q: int, r: int)
    requires d >= 1 && 0 <= r < d && a == d * q + r
    ensures a / d == q
  {
    var q', r' := a / d, a % d;
    assert a == d * q' + r' && 0 <= r' < d;
    if q' > q {
      MulDistributes(d, q, q' - q);
      MulNonNegative(d, q' - q - 1);
      MulDistributes(d, q' - q - 1, 1);
    } else if q' < q {
      MulDistributes(d, q', q - q');
      MulNonNegative(d, q - q' - 1);
      MulDistributes(d, q - q' - 1, 1);
    }
  }

  /**
   * The class holds the source's static proximity window: it starts at 60
   * and every `getLines` call divides it by its scale factor before use, so
   * the division carries over from call to call.
   */
  class HoughLineTransform {
    var upDownLeftRight: int

    constructor ()
      ensures upDownLeftRight == INITIAL_WINDOW
    {
      upDownLeftRight := INITIAL_WINDOW;
    }

    /**
     * `getLines`: divides the window, finds the highest projection, builds
     * the sparse candidate list and selects the lines with the new window.
     * Fails exactly when the accumulator would have no row or be too small.
     */
    method GetLines(image: array2<int>, scale: int, project: (int, int, int) -> int, isHorizontal: int -> bool, intercept: (int, int) -> int)
      returns (result: Result<Lines>)
      requires scale >= 1
      modifies this
      ensures upDownLeftRight == JavaDiv(old(upDownLeftRight), scale)
      ensures forall h :: IsHighestPoint(image, project, h) ==>
        (result.Failure? <==> h < 0 || !FitsAccumulator(image, project, h + 1))
      ensures forall h :: IsHighestPoint(image, project, h) && result.Success? ==>
        result.value == LinesOf(Sparse(image, project, h + 1), upDownLeftRight, isHorizontal, intercept)
    {
      upDownLeftRight := JavaDiv(upDownLeftRight, scale);
      var highestPoint := FindHighestPoint(image, project);
      forall h | IsHighestPoint(image, project, h)
        ensures h == highestPoint
      {
        HighestPointIsUnique(image, project, h, highestPoint);
      }
      var sortingArray := MakePolarCoordinatesGraph(highestPoint, image, project);
      if sortingArray.Failure? {
        return Failure;
      }
      var horizontal, vertical := FindHorizontalAndVerticalLines(sortingArray.value, upDownLeftRight, isHorizontal, intercept);
      return Success(Lines(horizontal, vertical));
    }
  }
}
