/**
 * Day 15, part 2: the one place no sensor can see (csharp/solvers/Problem15.cs).
 * The search works in "diagonal coordinates" (dx, dy) = (x + y, x - y), where
 * each sensor's diamond is a square. It keeps a list of boxes that may still
 * hold the beacon and slices every sensor's square out of them.
 */
module Problem15 {
  import opened Numerics

  /** The first box covers the diagonal coordinates of every point with 0 <= x, y <= `Size`. */
  const Size := 8_000_000
  /** The tuning frequency of a point is x times this, plus y. */
  const FrequencyFactor := 4_000_000

  /** A parsed line: the sensor at (x, y) and its closest beacon at (beaconX, beaconY). */
  datatype Sensor = Sensor(x: int, y: int, beaconX: int, beaconY: int)

  /**
   * `WeirdDiagonalRect` without its display label: the cells (dx, dy) with
   * left <= dx <= right and top <= dy <= bottom, bounds included.
   */
  datatype Box = Box(left: int, right: int, top: int, bottom: int)

  // ---------------------------------------------------------------------------
  // Diagonal coordinates

  /** `ToDiagonalCoordinates`: the sum and the difference of the coordinates. */
  function ToDiagonal(x: int, y: int): (d: (int, int))
    ensures d.0 + d.1 == 2 * x && d.0 - d.1 == 2 * y
  {
    (x + y, x - y)
  }

  /** `FromDiagonalCoordinates`: half the sum and half the difference, each divided as C# divides, toward zero. */
  function FromDiagonal(dx: int, dy: int): (p: (int, int))
    ensures (dx + dy) % 2 == 0 ==> 2 * p.0 == dx + dy && 2 * p.1 == dx - dy
  {
    if (dx + dy) % 2 == 0 then
      TruncDivExact((dx + dy) / 2, 2);
      TruncDivExact((dx - dy) / 2, 2);
      (TruncDiv(dx + dy, 2), TruncDiv(dx - dy, 2))
    else
      (TruncDiv(dx + dy, 2), TruncDiv(dx - dy, 2))
  }

  /** Every point comes back from its diagonal coordinates. */
  lemma DiagonalRoundTrip(x: int, y: int)
    ensures FromDiagonal(ToDiagonal(x, y).0, ToDiagonal(x, y).1) == (x, y)
  {
    var (dx, dy) := ToDiagonal(x, y);
    assert dx + dy == 2 * x;
  }

  /** The diagonal coordinates of a point have equal parity, and every such pair is the image of a point. */
  lemma DiagonalOnto(dx: int, dy: int)
    ensures (exists x, y :: ToDiagonal(x, y) == (dx, dy)) <==> (dx + dy) % 2 == 0
  {
    if (dx + dy) % 2 == 0 {
      var p := FromDiagonal(dx, dy);
      assert ToDiagonal(p.0, p.1) == (dx, dy);
    }
  }

  /** The Manhattan distance, `Math.Abs(sx - bx) + Math.Abs(sy - by)`. */
  function Distance(x1: int, y1: int, x2: int, y2: int): nat
  {
    Abs(x1 - x2) + Abs(y1 - y2)
  }

  /** A diamond of radius d is a square of half-side d in diagonal coordinates. */
  lemma DiamondIsSquare(x: int, y: int, sx: int, sy: int, d: int)
    ensures Distance(x, y, sx, sy) <= d <==>
      Abs(ToDiagonal(x, y).0 - ToDiagonal(sx, sy).0) <= d && Abs(ToDiagonal(x, y).1 - ToDiagonal(sx, sy).1) <= d
  {
  }

  // ---------------------------------------------------------------------------
  // Boxes

  predicate Contains(b: Box, dx: int, dy: int)
  {
    b.left <= dx <= b.right && b.top <= dy <= b.bottom
  }

  /** Some box of the list holds the cell. */
  predicate Covered(boxes: seq<Box>, dx: int, dy: int)
  {
    exists i :: 0 <= i < |boxes| && Contains(boxes[i], dx, dy)
  }

  function Width(b: Box): int { b.right - b.left + 1 }
  function Height(b: Box): int { b.bottom - b.top + 1 }

  /**
   * `BoxSize`: the width, an `int`, times the height cast to `long`; both
   * differences are taken in 32 bits and the product in 64.
   */
  function BoxSize(b: Box): (size: int)
    ensures IsInt64(size)
    ensures IsInt32(Width(b)) && IsInt32(Height(b)) ==> size == Width(b) * Height(b)
  {
    if IsInt32(Width(b)) && IsInt32(Height(b)) then
      ProductFits(Width(b), Height(b));
      Wrap64(Wrap32(Width(b)) * Wrap32(Height(b)))
    else
      Wrap64(Wrap32(Width(b)) * Wrap32(Height(b)))
  }

  /** The product of two `int` values always fits a `long`. */
  lemma ProductFits(a: int, b: int)
    requires IsInt32(a) && IsInt32(b)
    ensures IsInt64(a * b)
  {
    AbsMul(a, b);
    MulBounded(Abs(a), Abs(b), 0x8000_0000);
  }

  lemma MulBounded(a: nat, b: nat, m: nat)
    requires a <= m && b <= m
    ensures a * b <= m * m
  {
    assert a * b <= a * m;
    assert a * m <= m * m;
  }

  /** A box the list may hold: at least one cell wide and high, with both sides an `int`. */
  predicate Proper(b: Box)
  {
    1 <= Width(b) && 1 <= Height(b) && IsInt32(Width(b)) && IsInt32(Height(b))
  }

  /** A piece cut from a proper box: high enough, its width an `int` but possibly not positive. */
  predicate Piece(b: Box)
  {
    1 <= Height(b) && IsInt32(Width(b)) && IsInt32(Height(b))
  }

  /** For a piece, a positive size means a proper box, and any other size an empty one. */
  lemma PieceSize(b: Box)
    requires Piece(b)
    ensures BoxSize(b) > 0 <==> Proper(b)
    ensures BoxSize(b) <= 0 ==> forall dx, dy :: !Contains(b, dx, dy)
  {
    var w, h := Width(b), Height(b);
    assert BoxSize(b) == w * h;
    if w <= 0 {
      NonPositiveProduct(w, h);
    } else {
      MulAtLeast(w, h);
    }
  }

  lemma NonPositiveProduct(w: int, h: nat)
    requires w <= 0
    ensures w * h <= 0
  {
    assert w * h == -((-w) * h);
  }

  /** A proper box has size 1 exactly when it is a single cell. */
  lemma UnitSize(b: Box)
    requires Proper(b)
    ensures BoxSize(b) == 1 <==> b.left == b.right && b.top == b.bottom
  {
    if Width(b) > 1 {
      MulAtLeast(Height(b), Width(b));
      assert Width(b) * Height(b) == Height(b) * Width(b);
      assert Height(b) * Width(b) >= Height(b) * 2;
    } else if Height(b) > 1 {
      assert Width(b) * Height(b) == Height(b);
    }
  }

  // ---------------------------------------------------------------------------
  // Slicing one box

  /** The cells inside the open rectangle (left, right) x (top, bottom), the sensor's square. */
  predicate Inside(cut: Box, dx: int, dy: int)
  {
    cut.left < dx < cut.right && cut.top < dy < cut.bottom
  }

  /** The rectangle [left..right] x [top..bottom] does not touch the box. */
  predicate Misses(b: Box, cut: Box)
  {
    b.left > cut.right || b.right < cut.left || b.bottom < cut.top || b.top > cut.bottom
  }

  /** The columns of the box strictly between the cut's sides: the span of the top and bottom pieces. */
  function Middle(b: Box, cut: Box): (span: (int, int))
    ensures span.0 == if cut.left + 1 >= b.left then cut.left + 1 else b.left
    ensures span.1 == if cut.right - 1 <= b.right then cut.right - 1 else b.right
  {
    (Max(cut.left + 1, b.left), Min(cut.right - 1, b.right))
  }

  /** `Math.Max` and `Math.Min`. */
  function Max(a: int, b: int): int { if a >= b then a else b }
  function Min(a: int, b: int): int { if a <= b then a else b }

  /**
   * The boxes one pass of the slicing loop adds for `b`: the box itself when
   * it misses the cut, otherwise the right, left, top and bottom pieces that
   * exist, in that order.
   */
  function Slice(b: Box, cut: Box): (pieces: seq<Box>)
    ensures |pieces| <= 4
    ensures Misses(b, cut) ==> pieces == [b]
    ensures forall i :: 0 <= i < |pieces| ==> Within(pieces[i], b)
    ensures Proper(b) ==> forall i :: 0 <= i < |pieces| ==> Piece(pieces[i])
  {
    if Misses(b, cut) then [b]
    else
      var (l, r) := Middle(b, cut);
      (if cut.right <= b.right then [b.(left := cut.right)] else []) +
      (if cut.left >= b.left then [b.(right := cut.left)] else []) +
      (if cut.top >= b.top then [Box(l, r, b.top, cut.top)] else []) +
      (if cut.bottom <= b.bottom then [Box(l, r, cut.bottom, b.bottom)] else [])
  }

  lemma CoveredConcat(a: seq<Box>, c: seq<Box>, dx: int, dy: int)
    ensures Covered(a + c, dx, dy) <==> Covered(a, dx, dy) || Covered(c, dx, dy)
  {
    if Covered(a + c, dx, dy) {
      var i :| 0 <= i < |a + c| && Contains((a + c)[i], dx, dy);
      if i >= |a| {
        assert Contains(c[i - |a|], dx, dy);
      }
    }
    if Covered(c, dx, dy) {
      var i :| 0 <= i < |c| && Contains(c[i], dx, dy);
      assert (a + c)[|a| + i] == c[i];
    }
    if Covered(a, dx, dy) {
      var i :| 0 <= i < |a| && Contains(a[i], dx, dy);
      assert (a + c)[i] == a[i];
    }
  }

  lemma CoveredOne(b: Box, dx: int, dy: int)
    ensures Covered([b], dx, dy) <==> Contains(b, dx, dy)
  {
    if Contains(b, dx, dy) {
      assert [b][0] == b;
    }
  }

  lemma CoveredNone(dx: int, dy: int)
    ensures !Covered([], dx, dy)
  {
  }

  /** The pieces of a box hold exactly its cells outside the sensor's open square, as the comment in the source claims. */
  lemma SliceCovers(b: Box, cut: Box, dx: int, dy: int)
    ensures Covered(Slice(b, cut), dx, dy) <==> Contains(b, dx, dy) && !Inside(cut, dx, dy)
  {
    if Misses(b, cut) {
      CoveredOne(b, dx, dy);
    } else {
      var (l, r) := Middle(b, cut);
      var pr := if cut.right <= b.right then [b.(left := cut.right)] else [];
      var pl := if cut.left >= b.left then [b.(right := cut.left)] else [];
      var pt := if cut.top >= b.top then [Box(l, r, b.top, cut.top)] else [];
      var pb := if cut.bottom <= b.bottom then [Box(l, r, cut.bottom, b.bottom)] else [];
      assert Slice(b, cut) == pr + pl + pt + pb;
      CoveredConcat(pr + pl + pt, pb, dx, dy);
      CoveredConcat(pr + pl, pt, dx, dy);
      CoveredConcat(pr, pl, dx, dy);
      PartCovers(pr, b.(left := cut.right), dx, dy);
      PartCovers(pl, b.(right := cut.left), dx, dy);
      PartCovers(pt, Box(l, r, b.top, cut.top), dx, dy);
      PartCovers(pb, Box(l, r, cut.bottom, b.bottom), dx, dy);
    }
  }

  /** A list of at most the one piece `p` covers what `p` covers when it is there. */
  lemma PartCovers(part: seq<Box>, p: Box, dx: int, dy: int)
    requires part == [] || part == [p]
    ensures Covered(part, dx, dy) <==> part == [p] && Contains(p, dx, dy)
  {
    if part == [p] {
      CoveredOne(p, dx, dy);
    }
  }

  /** Box `p` lies inside box `b`. */
  predicate Within(p: Box, b: Box)
  {
    b.left <= p.left && p.right <= b.right && b.top <= p.top && p.bottom <= b.bottom
  }

  /** Boxes that share no cell. */
  predicate Apart(a: Box, c: Box)
  {
    a.right < c.left || c.right < a.left || a.bottom < c.top || c.bottom < a.top
  }

  lemma ApartShareNothing(a: Box, c: Box, dx: int, dy: int)
    requires Apart(a, c)
    ensures !(Contains(a, dx, dy) && Contains(c, dx, dy))
  {
  }

  /** For a sensor's cut, which is wider than it is empty, the pieces of one box share no cell. */
  lemma SliceApart(b: Box, cut: Box)
    requires cut.left < cut.right && cut.top < cut.bottom
    ensures forall i, j :: 0 <= i < j < |Slice(b, cut)| ==> Apart(Slice(b, cut)[i], Slice(b, cut)[j])
  {
  }

  /** Boxes inside boxes that are apart are apart. */
  lemma ApartWithin(a: Box, c: Box, p: Box, q: Box)
    requires Apart(a, c) && Within(p, a) && Within(q, c)
    ensures Apart(p, q)
  {
  }

  /** No two boxes of the list share a cell. */
  predicate Disjoint(boxes: seq<Box>)
  {
    forall i, j :: 0 <= i < j < |boxes| ==> Apart(boxes[i], boxes[j])
  }

  lemma DisjointConcat(x: seq<Box>, y: seq<Box>)
    requires Disjoint(x) && Disjoint(y)
    requires forall i, j :: 0 <= i < |x| && 0 <= j < |y| ==> Apart(x[i], y[j])
    ensures Disjoint(x + y)
  {
    forall i, j | 0 <= i < j < |x + y|
      ensures Apart((x + y)[i], (x + y)[j])
    {
      if j < |x| {
        assert (x + y)[i] == x[i] && (x + y)[j] == x[j];
      } else if i < |x| {
        assert (x + y)[i] == x[i] && (x + y)[j] == y[j - |x|];
      } else {
        assert (x + y)[i] == y[i - |x|] && (x + y)[j] == y[j - |x|];
      }
    }
  }

  // ---------------------------------------------------------------------------
  // One sensor

  /** The cut of a sensor: one past its square of radius `distance` on every side. */
  function Reach(s: Sensor): (cut: Box)
    ensures cut.left < cut.right && cut.top < cut.bottom
  {
    var d := Distance(s.x, s.y, s.beaconX, s.beaconY);
    var (sdx, sdy) := ToDiagonal(s.x, s.y);
    Box(sdx - d - 1, sdx + d + 1, sdy - d - 1, sdy + d + 1)
  }

  /** A point is inside a sensor's cut exactly when it is no farther from the sensor than the sensor's beacon. */
  lemma ReachIsDiamond(s: Sensor, x: int, y: int)
    ensures Inside(Reach(s), ToDiagonal(x, y).0, ToDiagonal(x, y).1) <==>
      Distance(x, y, s.x, s.y) <= Distance(s.x, s.y, s.beaconX, s.beaconY)
  {
    DiamondIsSquare(x, y, s.x, s.y, Distance(s.x, s.y, s.beaconX, s.beaconY));
  }

  /** The boxes the slicing loop collects: each box's pieces in turn. */
  function Pass(areas: seq<Box>, cut: Box): (boxes: seq<Box>)
    ensures (forall i :: 0 <= i < |areas| ==> Proper(areas[i])) ==> forall i :: 0 <= i < |boxes| ==> Piece(boxes[i])
  {
    if areas == [] then []
    else
      var rest := Pass(areas[1..], cut);
      var here := Slice(areas[0], cut);
      assert forall i :: |here| <= i < |here + rest| ==> (here + rest)[i] == rest[i - |here|];
      here + rest
  }

  /** The pass keeps exactly the cells of the old boxes outside the sensor's square. */
  lemma {:induction false} PassCovers(areas: seq<Box>, cut: Box, dx: int, dy: int)
    ensures Covered(Pass(areas, cut), dx, dy) <==> Covered(areas, dx, dy) && !Inside(cut, dx, dy)
  {
    if areas == [] {
      CoveredNone(dx, dy);
    } else {
      PassCovers(areas[1..], cut, dx, dy);
      SliceCovers(areas[0], cut, dx, dy);
      CoveredConcat(Slice(areas[0], cut), Pass(areas[1..], cut), dx, dy);
      assert areas == [areas[0]] + areas[1..];
      CoveredConcat([areas[0]], areas[1..], dx, dy);
      CoveredOne(areas[0], dx, dy);
    }
  }

  /** Every box the pass collects lies inside one of the old boxes. */
  lemma {:induction false} PassWithin(areas: seq<Box>, cut: Box, i: int) returns (j: int)
    requires 0 <= i < |Pass(areas, cut)|
    ensures 0 <= j < |areas| && Within(Pass(areas, cut)[i], areas[j])
  {
    var here := Slice(areas[0], cut);
    assert Pass(areas, cut) == here + Pass(areas[1..], cut);
    if i < |here| {
      j := 0;
    } else {
      var k := PassWithin(areas[1..], cut, i - |here|);
      j := k + 1;
    }
  }

  /** A pass over boxes that share no cell collects boxes that share no cell. */
  lemma {:induction false} PassDisjoint(areas: seq<Box>, cut: Box)
    requires cut.left < cut.right && cut.top < cut.bottom
    requires Disjoint(areas)
    ensures Disjoint(Pass(areas, cut))
  {
    if areas != [] {
      var here := Slice(areas[0], cut);
      var rest := Pass(areas[1..], cut);
      assert Pass(areas, cut) == here + rest;
      SliceApart(areas[0], cut);
      PassDisjoint(areas[1..], cut);
      forall i, j | 0 <= i < |here| && 0 <= j < |rest|
        ensures Apart(here[i], rest[j])
      {
        var k := PassWithin(areas[1..], cut, j);
        assert areas[1..][k] == areas[k + 1];
        ApartWithin(areas[0], areas[k + 1], here[i], rest[j]);
      }
      DisjointConcat(here, rest);
    }
  }

  /** `newBoxes.RemoveAll(b => BoxSize(b) <= 0)`: the boxes of positive size, in order. */
  function Sized(boxes: seq<Box>): (kept: seq<Box>)
    ensures |kept| <= |boxes|
    ensures forall i :: 0 <= i < |kept| ==> BoxSize(kept[i]) > 0 && kept[i] in boxes
  {
    if boxes == [] then []
    else
      var rest := Sized(boxes[1..]);
      if BoxSize(boxes[0]) <= 0 then rest else [boxes[0]] + rest
  }

  /** Dropping the pieces of no positive size loses no cell, and what is left is proper. */
  lemma {:induction false} SizedCovers(boxes: seq<Box>, dx: int, dy: int)
    requires forall i :: 0 <= i < |boxes| ==> Piece(boxes[i])
    ensures Covered(Sized(boxes), dx, dy) <==> Covered(boxes, dx, dy)
    ensures forall i :: 0 <= i < |Sized(boxes)| ==> Proper(Sized(boxes)[i])
  {
    if boxes == [] {
      CoveredNone(dx, dy);
    } else {
      var rest := boxes[1..];
      SizedCovers(rest, dx, dy);
      PieceSize(boxes[0]);
      assert boxes == [boxes[0]] + rest;
      CoveredConcat([boxes[0]], rest, dx, dy);
      CoveredOne(boxes[0], dx, dy);
      if BoxSize(boxes[0]) > 0 {
        CoveredConcat([boxes[0]], Sized(rest), dx, dy);
      }
    }
  }

  /** Removing boxes keeps the rest apart. */
  lemma {:induction false} SizedDisjoint(boxes: seq<Box>)
    requires Disjoint(boxes)
    ensures Disjoint(Sized(boxes))
  {
    if boxes != [] {
      var rest := boxes[1..];
      assert Disjoint(rest) by {
        forall i, j | 0 <= i < j < |rest|
          ensures Apart(rest[i], rest[j])
        {
          assert rest[i] == boxes[i + 1] && rest[j] == boxes[j + 1];
        }
      }
      SizedDisjoint(rest);
      if BoxSize(boxes[0]) > 0 {
        var kept := Sized(rest);
        forall j | 0 <= j < |kept|
          ensures Apart(boxes[0], kept[j])
        {
          var k :| 0 <= k < |rest| && rest[k] == kept[j];
          assert rest[k] == boxes[k + 1];
        }
        DisjointConcat([boxes[0]], kept);
      }
    }
  }

  /**
   * The body of the loop over sensors: every box taken from the front of the
   * list and sliced, then the boxes of no positive size removed.
   */
  method SensorPass(areas: seq<Box>, cut: Box) returns (next: seq<Box>)
    ensures next == Sized(Pass(areas, cut))
  {
    var pending := areas;
    var newBoxes: seq<Box> := [];
    while |pending| > 0
      invariant newBoxes + Pass(pending, cut) == Pass(areas, cut)
      decreases |pending|
    {
      var toSlice := pending[0];
      assert Pass(pending, cut) == Slice(toSlice, cut) + Pass(pending[1..], cut);
      pending := pending[1..];
      newBoxes := newBoxes + Slice(toSlice, cut);
    }
    assert newBoxes == Pass(areas, cut);
    next := Sized(newBoxes);
  }

  // ---------------------------------------------------------------------------
  // All sensors

  /** The first box: `new WeirdDiagonalRect(boxId, 0, size*2, -size, size)`. */
  function Initial(): (b: Box)
    ensures Proper(b)
  {
    Box(0, Size * 2, -Size, Size)
  }

  /** The boxes left after the sensors, one pass each. */
  function Remaining(sensors: seq<Sensor>): (boxes: seq<Box>)
    ensures forall i :: 0 <= i < |boxes| ==> Proper(boxes[i])
  {
    if sensors == [] then [Initial()]
    else
      var before := Remaining(sensors[..|sensors| - 1]);
      var pieces := Pass(before, Reach(sensors[|sensors| - 1]));
      SizedCovers(pieces, 0, 0);
      Sized(pieces)
  }

  /** The boxes left never overlap, so no cell is counted twice. */
  lemma {:induction false} RemainingDisjoint(sensors: seq<Sensor>)
    ensures Disjoint(Remaining(sensors))
  {
    if sensors != [] {
      var init := sensors[..|sensors| - 1];
      var cut := Reach(sensors[|sensors| - 1]);
      RemainingDisjoint(init);
      PassDisjoint(Remaining(init), cut);
      SizedDisjoint(Pass(Remaining(init), cut));
    }
  }

  /** A cell is left exactly when the first box holds it and it is inside no sensor's square. */
  lemma {:induction false} RemainingCells(sensors: seq<Sensor>, dx: int, dy: int)
    ensures Covered(Remaining(sensors), dx, dy) <==>
      Contains(Initial(), dx, dy) && forall k :: 0 <= k < |sensors| ==> !Inside(Reach(sensors[k]), dx, dy)
  {
    if sensors == [] {
      CoveredOne(Initial(), dx, dy);
    } else {
      var init := sensors[..|sensors| - 1];
      var last := sensors[|sensors| - 1];
      RemainingCells(init, dx, dy);
      var pieces := Pass(Remaining(init), Reach(last));
      assert Remaining(sensors) == Sized(pieces);
      PassCovers(Remaining(init), Reach(last), dx, dy);
      SizedCovers(pieces, dx, dy);
      assert (forall k :: 0 <= k < |sensors| ==> !Inside(Reach(sensors[k]), dx, dy)) <==>
        (forall k :: 0 <= k < |init| ==> !Inside(Reach(init[k]), dx, dy)) && !Inside(Reach(last), dx, dy);
    }
  }

  /**
   * The search's promise: a point's diagonal cell is left exactly when the
   * point lies in the first box and every sensor is closer to its own beacon
   * than to the point.
   */
  lemma RemainingPoints(sensors: seq<Sensor>, x: int, y: int)
    ensures Covered(Remaining(sensors), ToDiagonal(x, y).0, ToDiagonal(x, y).1) <==>
      Contains(Initial(), ToDiagonal(x, y).0, ToDiagonal(x, y).1) &&
      forall k :: 0 <= k < |sensors| ==>
        Distance(x, y, sensors[k].x, sensors[k].y) > Distance(sensors[k].x, sensors[k].y, sensors[k].beaconX, sensors[k].beaconY)
  {
    var (dx, dy) := ToDiagonal(x, y);
    RemainingCells(sensors, dx, dy);
    forall k | 0 <= k < |sensors|
      ensures Inside(Reach(sensors[k]), dx, dy) <==>
        Distance(x, y, sensors[k].x, sensors[k].y) <= Distance(sensors[k].x, sensors[k].y, sensors[k].beaconX, sensors[k].beaconY)
    {
      ReachIsDiamond(sensors[k], x, y);
    }
  }

  // ---------------------------------------------------------------------------
  // The report

  /** A printed candidate: the point and its tuning frequency `u.x * 4000000L + u.y`. */
  datatype Candidate = Candidate(x: int, y: int, frequency: int)

  /** The candidate printed for a box of size 1: its corner mapped back to x and y. */
  function Report(b: Box): (c: Candidate)
    ensures c.frequency == c.x * FrequencyFactor + c.y
    ensures (b.left + b.top) % 2 == 0 ==> ToDiagonal(c.x, c.y) == (b.left, b.top)
  {
    var (x, y) := FromDiagonal(b.left, b.top);
    Candidate(x, y, x * FrequencyFactor + y)
  }

  /** The candidates printed: one per box of size 1, in list order. */
  function Candidates(boxes: seq<Box>): (cs: seq<Candidate>)
    ensures |cs| <= |boxes|
    ensures forall b :: b in boxes && BoxSize(b) == 1 ==> Report(b) in cs
    ensures forall c :: c in cs ==> exists b :: b in boxes && BoxSize(b) == 1 && c == Report(b)
  {
    if boxes == [] then []
    else
      var rest := Candidates(boxes[1..]);
      assert forall b :: b in boxes ==> b == boxes[0] || b in boxes[1..];
      if BoxSize(boxes[0]) == 1 then [Report(boxes[0])] + rest else rest
  }

  /**
   * The candidate printed for a box left at the end, when its corner cell is a
   * point's, is that point: in the first box and out of every sensor's reach.
   * For a box of size 1 the corner is its only cell (`UnitSize`).
   */
  lemma CandidateUnseen(sensors: seq<Sensor>, b: Box)
    requires b in Remaining(sensors) && (b.left + b.top) % 2 == 0
    ensures var c := Report(b);
      Contains(Initial(), ToDiagonal(c.x, c.y).0, ToDiagonal(c.x, c.y).1) &&
      forall k :: 0 <= k < |sensors| ==>
        Distance(c.x, c.y, sensors[k].x, sensors[k].y) > Distance(sensors[k].x, sensors[k].y, sensors[k].beaconX, sensors[k].beaconY)
  {
    var boxes := Remaining(sensors);
    var c := Report(b);
    var j :| 0 <= j < |boxes| && boxes[j] == b;
    assert Contains(boxes[j], b.left, b.top);
    RemainingPoints(sensors, c.x, c.y);
  }

  /**
   * `Part2`: the boxes sliced by every sensor in input order, then the
   * candidates printed for the boxes of size 1.
   */
  method Part2(sensors: seq<Sensor>) returns (candidates: seq<Candidate>)
    ensures candidates == Candidates(Remaining(sensors))
  {
    var areas := [Initial()];
    for k := 0 to |sensors|
      invariant areas == Remaining(sensors[..k])
    {
      assert sensors[..k + 1][..k] == sensors[..k];
      areas := SensorPass(areas, Reach(sensors[k]));
    }
    assert sensors[..|sensors|] == sensors;
    candidates := Candidates(areas);
  }
}
