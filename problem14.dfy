/**
 * Day 14: falling sand. Each input line is a rock path, a list of points
 * joined by straight horizontal or vertical segments. The solver sizes a
 * character board with a non-zero lower x bound, draws the rock, lays a floor
 * two rows below the lowest rock and then drops grains from (500, 0): a grain
 * falls straight down, else down-left, else down-right, and otherwise comes
 * to rest as `'o'`. Pouring stops when a grain rests on the source or falls
 * past the bottom row; a grain that walks off the side of the board reads
 * outside the array and throws.
 */
module Problem14 {
  import opened Wrappers
  import opened Numerics
  import Seqs

  datatype Point = Point(x: int, y: int)

  /** Where every grain starts. */
  const Source := Point(500, 0)
  /** An unwritten array cell: `board[x, y] == 0`. */
  const Air := '\0'
  /** The width added on both sides of the rock, before any retry widens it. */
  const InitialBuffer := 10

  /** `Math.Min` and `Math.Max`. */
  function Min(a: int, b: int): int { if a <= b then a else b }
  function Max(a: int, b: int): int { if a >= b then a else b }

  /** The bounds the sizing loop computes, with their starting values. */
  datatype Box = Box(minX: int, minY: int, maxX: int, maxY: int)

  /** The points of the first paths, in the order the sizing loop visits them. */
  function Flatten(paths: seq<seq<Point>>): (points: seq<Point>)
    ensures forall k, l :: 0 <= k < |paths| && 0 <= l < |paths[k]| ==> paths[k][l] in points
    ensures forall p | p in points :: exists k :: 0 <= k < |paths| && p in paths[k]
  {
    if paths == [] then []
    else Flatten(paths[..|paths| - 1]) + paths[|paths| - 1]
  }

  /**
   * `b` is what the loop at lines 30-48 leaves: every point lies in the box,
   * and each bound is either still its starting value or met by a point.
   */
  ghost predicate IsBounds(points: seq<Point>, b: Box)
  {
    && b.minX <= 0x7fff_ffff && b.minY <= 0 && b.maxX >= 0 && b.maxY >= 0
    && (forall p | p in points :: b.minX <= p.x <= b.maxX && b.minY <= p.y <= b.maxY)
    && (b.minX == 0x7fff_ffff || exists p | p in points :: p.x == b.minX)
    && (b.minY == 0 || exists p | p in points :: p.y == b.minY)
    && (b.maxX == 0 || exists p | p in points :: p.x == b.maxX)
    && (b.maxY == 0 || exists p | p in points :: p.y == b.maxY)
  }

  /** At most one box meets `IsBounds`, so the sizing loop's result is determined. */
  lemma BoundsUnique(points: seq<Point>, a: Box, b: Box)
    requires IsBounds(points, a) && IsBounds(points, b)
    ensures a == b
  {
    assert a.minX <= b.minX by {
      if b.minX != 0x7fff_ffff {
        var p :| p in points && p.x == b.minX;
      }
    }
    assert b.minX <= a.minX by {
      if a.minX != 0x7fff_ffff {
        var p :| p in points && p.x == a.minX;
      }
    }
    assert a.minY <= b.minY by {
      if b.minY != 0 {
        var p :| p in points && p.y == b.minY;
      }
    }
    assert b.minY <= a.minY by {
      if a.minY != 0 {
        var p :| p in points && p.y == a.minY;
      }
    }
    assert a.maxX >= b.maxX by {
      if b.maxX != 0 {
        var p :| p in points && p.x == b.maxX;
      }
    }
    assert b.maxX >= a.maxX by {
      if a.maxX != 0 {
        var p :| p in points && p.x == a.maxX;
      }
    }
    assert a.maxY >= b.maxY by {
      if b.maxY != 0 {
        var p :| p in points && p.y == b.maxY;
      }
    }
    assert b.maxY >= a.maxY by {
      if a.maxY != 0 {
        var p :| p in points && p.y == a.maxY;
      }
    }
  }

  /** One pass of `Math.Min`/`Math.Max` keeps `IsBounds` for one more point. */
  lemma Widen(points: seq<Point>, b: Box, q: Point)
    requires IsBounds(points, b)
    ensures IsBounds(points + [q], Box(Min(b.minX, q.x), Min(b.minY, q.y), Max(b.maxX, q.x), Max(b.maxY, q.y)))
  {
    assert forall p | p in points :: p in points + [q];
    assert q in points + [q];
  }

  /** Lines 30-48: the bounds of all points, starting from `int.MaxValue`, 0, 0, 0. */
  method Bounds(paths: seq<seq<Point>>) returns (b: Box)
    ensures IsBounds(Flatten(paths), b)
  {
    b := Box(0x7fff_ffff, 0, 0, 0);
    var k := 0;
    while k < |paths|
      invariant 0 <= k <= |paths|
      invariant IsBounds(Flatten(paths[..k]), b)
    {
      var path := paths[k];
      assert paths[..k + 1][..k] == paths[..k];
      ghost var before := Flatten(paths[..k]);
      for l := 0 to |path|
        invariant IsBounds(before + path[..l], b)
      {
        var point := path[l];
        Widen(before + path[..l], b, point);
        assert before + path[..l + 1] == before + path[..l] + [point];
        b := Box(Min(b.minX, point.x), Min(b.minY, point.y), Max(b.maxX, point.x), Max(b.maxY, point.y));
      }
      assert path[..|path|] == path;
      k := k + 1;
    }
    assert paths[..k] == paths;
  }

  /** Line 72: one step from `pos` toward `end` along each axis by the sign of the gap. */
  function Step(pos: Point, end: Point): (next: Point)
    ensures Abs(end.x - next.x) == if pos.x == end.x then 0 else Abs(end.x - pos.x) - 1
    ensures Abs(end.y - next.y) == if pos.y == end.y then 0 else Abs(end.y - pos.y) - 1
  {
    Point(pos.x + Sign(end.x - pos.x), pos.y + Sign(end.y - pos.y))
  }

  /** The gap between `pos` and `end`, which every step shrinks. */
  function Gap(pos: Point, end: Point): nat
  {
    Abs(end.x - pos.x) + Abs(end.y - pos.y)
  }

  /** A walk that has not arrived is its first cell and the walk from the next one. */
  lemma StepCloser(pos: Point, end: Point)
    requires pos != end
    ensures Gap(Step(pos, end), end) < Gap(pos, end)
    ensures Walk(pos, end) == [pos] + Walk(Step(pos, end), end)
  {
  }

  /** The cells one segment marks, `pos` first and `end` last (lines 67-75). */
  function Walk(pos: Point, end: Point): (cells: seq<Point>)
    decreases Gap(pos, end)
    ensures |cells| > 0 && cells[0] == pos && cells[|cells| - 1] == end
  {
    if pos == end then [end] else [pos] + Walk(Step(pos, end), end)
  }

  /** A diagonal walk ends after as many steps as the larger of the two gaps. */
  lemma {:induction false} WalkLength(pos: Point, end: Point)
    decreases Gap(pos, end)
    ensures |Walk(pos, end)| == Max(Abs(end.x - pos.x), Abs(end.y - pos.y)) + 1
  {
    if pos != end {
      WalkLength(Step(pos, end), end);
    }
  }

  /** `v` lies between `a` and `b`, in either order. */
  predicate Between(a: int, b: int, v: int)
  {
    Min(a, b) <= v <= Max(a, b)
  }

  /**
   * A horizontal or vertical segment marks exactly the cells of the
   * rectangle between its ends, both ends included.
   */
  lemma {:induction false} WalkCovers(pos: Point, end: Point, c: Point)
    requires pos.x == end.x || pos.y == end.y
    decreases Gap(pos, end)
    ensures c in Walk(pos, end) <==> Between(pos.x, end.x, c.x) && Between(pos.y, end.y, c.y)
  {
    if pos != end {
      WalkCovers(Step(pos, end), end, c);
    }
  }

  /** The rock cells the segments of one path mark. */
  ghost function PathCells(path: seq<Point>): set<Point>
  {
    if |path| < 2 then {}
    else PathCells(path[..|path| - 1]) + Elements(Walk(path[|path| - 2], path[|path| - 1]))
  }

  ghost function Elements(cells: seq<Point>): set<Point>
  {
    set c | c in cells
  }

  /** The rock cells of all paths. */
  ghost function Rocks(paths: seq<seq<Point>>): set<Point>
  {
    if paths == [] then {}
    else Rocks(paths[..|paths| - 1]) + PathCells(paths[|paths| - 1])
  }

  /** Where a grain ends: at rest on a cell, or lost past the bottom row. */
  datatype Landing = Rests(at: Point) | Lost

  /**
   * The `char[,]` board of lines 50-52: x runs from `left`, y from 0 to
   * `maxY + 2`; cell (x, y) is `cells[x - left, y]`.
   */
  class Board {
    const left: int
    const maxY: int
    const cells: array2<char>

    ghost predicate Valid()
    {
      maxY >= 0 && cells.Length1 == maxY + 3
    }

    /** `Array.CreateInstance`: every cell holds `'\0'`. */
    constructor (left: int, width: nat, maxY: nat)
      ensures Valid() && this.left == left && this.maxY == maxY && cells.Length0 == width
      ensures fresh(cells)
      ensures forall p :: Inside(p) ==> At(p) == Success(Air)
    {
      this.left := left;
      this.maxY := maxY;
      cells := new char[width, maxY + 3]((i, j) => Air);
    }

    predicate Inside(p: Point)
    {
      left <= p.x < left + cells.Length0 && 0 <= p.y < cells.Length1
    }

    /** Reading `board[p.x, p.y]`, which throws outside the array's bounds. */
    function At(p: Point): (r: Result<char>)
      reads cells
      ensures r.Success? <==> Inside(p)
      ensures r.Failure? ==> r.error == IndexOutOfRangeException
    {
      if Inside(p) then Success(cells[p.x - left, p.y]) else Failure(IndexOutOfRangeException)
    }

    /** Writing `board[p.x, p.y] = c`: one cell changes, or the write throws. */
    method Write(p: Point, c: char) returns (error: Option<Exception>)
      modifies cells
      ensures error.None? <==> Inside(p)
      ensures error.Some? ==> error.value == IndexOutOfRangeException
      ensures forall q :: At(q) == if q == p && Inside(p) then Success(c) else old(At(q))
    {
      if !Inside(p) {
        return Some(IndexOutOfRangeException);
      }
      cells[p.x - left, p.y] := c;
      return None;
    }

    /** The cells holding sand. */
    ghost function Sand(): (s: set<Point>)
      reads cells
      ensures forall p :: p in s <==> At(p) == Success('o')
    {
      set x, y | left <= x < left + cells.Length0 && 0 <= y < cells.Length1 && cells[x - left, y] == 'o' :: Point(x, y)
    }

    /** The cells still holding air. */
    ghost function Airs(): (s: set<Point>)
      reads cells
      ensures forall p :: p in s <==> At(p) == Success(Air)
    {
      set x, y | left <= x < left + cells.Length0 && 0 <= y < cells.Length1 && cells[x - left, y] == Air :: Point(x, y)
    }

    /** Lines 65-76: mark every cell from `start` to `end` with rock. */
    method DrawSegment(start: Point, end: Point) returns (error: Option<Exception>)
      modifies cells
      ensures error.None? <==> forall c | c in Walk(start, end) :: Inside(c)
      ensures error.Some? ==> error.value == IndexOutOfRangeException
      ensures error.None? ==> forall q :: At(q) == if q in Walk(start, end) then Success('#') else old(At(q))
      ensures forall q :: At(q) == old(At(q)) || At(q) == Success('#')
    {
      var pos := start;
      ghost var done: seq<Point> := [];
      while pos != end
        invariant Walk(start, end) == done + Walk(pos, end)
        invariant forall c | c in done :: Inside(c)
        invariant forall q :: At(q) == if q in done then Success('#') else old(At(q))
        decreases Gap(pos, end)
      {
        error := Write(pos, '#');
        if error.Some? {
          return;
        }
        StepCloser(pos, end);
        done := done + [pos];
        pos := Step(pos, end);
      }
      error := Write(pos, '#');
      assert Walk(pos, end) == [pos];
    }

    /** Lines 53-79: draw every path, then mark the source with `'+'`. */
    method DrawPaths(paths: seq<seq<Point>>) returns (error: Option<Exception>)
      modifies cells
      ensures error.Some? ==> error.value == IndexOutOfRangeException
      ensures error.None? ==> forall p | p in Rocks(paths) && p != Source :: At(p) == Success('#')
      ensures forall q :: At(q) == old(At(q)) || At(q) == Success('#') || (q == Source && At(q) == Success('+'))
    {
      error := None;
      for k := 0 to |paths|
        invariant error.None?
        invariant forall p | p in Rocks(paths[..k]) && p != Source :: At(p) == Success('#')
        invariant forall q :: At(q) == old(At(q)) || At(q) == Success('#') || (q == Source && At(q) == Success('+'))
      {
        var path := paths[k];
        assert paths[..k + 1][..k] == paths[..k];
        ghost var drawn := Rocks(paths[..k]);
        var i := 1;
        while i < |path|
          invariant 1 <= i && error.None?
          invariant i <= |path| || |path| == 0
          invariant forall p | p in drawn + PathCells(path[..Min(i, |path|)]) && p != Source :: At(p) == Success('#')
          invariant forall q :: At(q) == old(At(q)) || At(q) == Success('#') || (q == Source && At(q) == Success('+'))
        {
          error := DrawSegment(path[i - 1], path[i]);
          if error.Some? {
            return;
          }
          assert path[..i + 1][..i] == path[..i];
          i := i + 1;
        }
        assert path[..Min(i, |path|)] == path;
        error := Write(Source, '+');
        if error.Some? {
          return;
        }
      }
      assert paths[..|paths|] == paths;
    }

    /** The floor row `maxY + 2` holds rock all the way across. */
    ghost predicate Floored()
      reads cells
    {
      forall p: Point | p.y == maxY + 2 && left <= p.x < left + cells.Length0 :: At(p) == Success('#')
    }

    /** Lines 82-85: lay the floor two rows below the lowest rock. */
    method Floor()
      requires Valid()
      modifies cells
      ensures Floored()
      ensures forall q :: At(q) == if q.y == maxY + 2 && Inside(q) then Success('#') else old(At(q))
    {
      for x := left to left + cells.Length0
        invariant forall q :: At(q) == if q.y == maxY + 2 && left <= q.x < x then Success('#') else old(At(q))
      {
        var _ := Write(Point(x, maxY + 2), '#');
      }
    }

    /**
     * Lines 92-118: where a grain at (x, y) ends. It reads the cell below,
     * then below-left, then below-right, and moves into the first that holds
     * air; a grain that reaches row `maxY + 3` is lost.
     */
    function Fall(x: int, y: int): (r: Result<Landing>)
      reads cells
      requires Valid() && y <= maxY + 3
      decreases maxY + 3 - y
      ensures r.Failure? ==> r.error == IndexOutOfRangeException
    {
      if y == maxY + 3 then Success(Lost)
      else
        match At(Point(x, y + 1))
        case Failure(e) => Failure(e)
        case Success(down) =>
          if down == Air then Fall(x, y + 1)
          else
            match At(Point(x - 1, y + 1))
            case Failure(e) => Failure(e)
            case Success(downLeft) =>
              if downLeft == Air then Fall(x - 1, y + 1)
              else
                match At(Point(x + 1, y + 1))
                case Failure(e) => Failure(e)
                case Success(downRight) =>
                  if downRight == Air then Fall(x + 1, y + 1) else Success(Rests(Point(x, y)))
    }

    /** The three cells under `p` are on the board and none holds air. */
    ghost predicate Blocked(p: Point)
      reads cells
    {
      && At(Point(p.x, p.y + 1)).Success? && At(Point(p.x, p.y + 1)).value != Air
      && At(Point(p.x - 1, p.y + 1)).Success? && At(Point(p.x - 1, p.y + 1)).value != Air
      && At(Point(p.x + 1, p.y + 1)).Success? && At(Point(p.x + 1, p.y + 1)).value != Air
    }

    /**
     * A grain comes to rest only where all three cells below are blocked, on
     * the board, no higher than it started, drifting at most one column per
     * row fallen, and on an air cell unless it never moved.
     */
    lemma {:induction false} FallRests(x: int, y: int, p: Point)
      requires Valid() && 0 <= y <= maxY + 3
      requires Fall(x, y) == Success(Rests(p))
      decreases maxY + 3 - y
      ensures Blocked(p) && Inside(p)
      ensures y <= p.y && Abs(p.x - x) <= p.y - y
      ensures p == Point(x, y) || At(p) == Success(Air)
    {
      if At(Point(x, y + 1)) == Success(Air) {
        FallRests(x, y + 1, p);
      } else if At(Point(x - 1, y + 1)) == Success(Air) {
        FallRests(x - 1, y + 1, p);
      } else if At(Point(x + 1, y + 1)) == Success(Air) {
        FallRests(x + 1, y + 1, p);
      }
    }

    /**
     * With the floor laid, a grain that starts above the floor is never
     * lost: it rests, or it walks off the side of the board.
     */
    lemma {:induction false} FloorCatches(x: int, y: int)
      requires Valid() && Floored() && 0 <= y <= maxY + 1
      decreases maxY + 3 - y
      ensures Fall(x, y) != Success(Lost)
    {
      if At(Point(x, y + 1)) == Success(Air) {
        FloorCatches(x, y + 1);
      } else if At(Point(x - 1, y + 1)) == Success(Air) {
        FloorCatches(x - 1, y + 1);
      } else if At(Point(x + 1, y + 1)) == Success(Air) {
        FloorCatches(x + 1, y + 1);
      }
    }

    /** Lines 91-118: follow one grain from the source without changing the board. */
    method Drop() returns (r: Result<Landing>)
      requires Valid()
      ensures r == Fall(Source.x, Source.y)
    {
      var x, y := Source.x, Source.y;
      while true
        invariant y <= maxY + 3
        invariant Fall(x, y) == Fall(Source.x, Source.y)
        decreases maxY + 3 - y
      {
        if y == maxY + 3 {
          return Success(Lost);
        }
        var down := At(Point(x, y + 1));
        if down.Failure? {
          return Failure(down.error);
        }
        if down.value == Air {
          y := y + 1;
          continue;
        }
        var downLeft := At(Point(x - 1, y + 1));
        if downLeft.Failure? {
          return Failure(downLeft.error);
        }
        if downLeft.value == Air {
          x, y := x - 1, y + 1;
          continue;
        }
        var downRight := At(Point(x + 1, y + 1));
        if downRight.Failure? {
          return Failure(downRight.error);
        }
        if downRight.value == Air {
          x, y := x + 1, y + 1;
          continue;
        }
        return Success(Rests(Point(x, y)));
      }
    }
      /** Lines 53-85 on a fresh board: the rock, the source marker and the floor, and no sand yet. */
    method Lay(paths: seq<seq<Point>>) returns (error: Option<Exception>)
      requires Valid() && forall q :: Inside(q) ==> At(q) == Success(Air)
      modifies cells
      ensures error.Some? ==> error.value == IndexOutOfRangeException
      ensures error.None? ==> Floored() && At(Source) != Success('o') && Sand() == {}
      ensures error.None? ==> forall p | p in Rocks(paths) && p != Source :: At(p) == Success('#')
    {
      error := DrawPaths(paths);
      if error.Some? {
        return;
      }
      Floor();
      NoSand();
    }

    /** Lines 119-121: the grain is drawn as `'@'` and then left as `'o'`. */
    method Settle(p: Point)
      requires Inside(p)
      modifies cells
      ensures forall q :: At(q) == if q == p then Success('o') else old(At(q))
    {
      var marked := Write(p, '@');
      marked := Write(p, 'o');
    }

    /** Settling a grain on a cell without sand adds exactly that cell to the sand and takes it from the air. */
    twostate lemma SandAdded(p: Point)
      requires Inside(p) && old(At(p)) != Success('o')
      requires forall q :: At(q) == if q == p then Success('o') else old(At(q))
      ensures |Sand()| == |old(Sand())| + 1
      ensures old(At(p)) == Success(Air) ==> |Airs()| == |old(Airs())| - 1
    {
      assert Sand() == old(Sand()) + {p};
      if old(At(p)) == Success(Air) {
        var airs := old(Airs());
        assert Airs() == airs - {p};
        assert airs == Airs() + {p};
      }
    }

    /** A board without an `'o'` cell holds no sand. */
    lemma NoSand()
      requires forall q :: At(q) != Success('o')
      ensures Sand() == {}
    {
    }

    /**
     * Lines 88-131: drop grains until one rests on the source or one is
     * lost past the bottom row, counting the grains that came to rest. Each
     * grain turns one air cell, or finally the source, into sand.
     */
    method Pour() returns (r: Result<int>)
      requires Valid() && At(Source) != Success('o')
      modifies cells
      ensures r.Failure? ==> r.error == IndexOutOfRangeException
      ensures r.Success? ==> r.value == |Sand()| - |old(Sand())|
      ensures r.Success? ==> At(Source) == Success('o') || Fall(Source.x, Source.y) == Success(Lost)
      ensures forall q :: At(q) == old(At(q)) || (At(q) == Success('o') && (old(At(q)) == Success(Air) || q == Source))
    {
      var count := 0;
      while true
        invariant count == |Sand()| - |old(Sand())|
        invariant At(Source) != Success('o')
        invariant forall q :: At(q) == old(At(q)) || (At(q) == Success('o') && old(At(q)) == Success(Air))
        decreases |Airs()|
      {
        var landing := Drop();
        if landing.Failure? {
          return Failure(landing.error);
        }
        if landing.value.Lost? {
          return Success(count);
        }
        var p := landing.value.at;
        FallRests(Source.x, Source.y, p);
        label before:
        Settle(p);
        SandAdded@before(p);
        count := count + 1;
        if p.y == 0 {
          return Success(count);
        }
      }
    }
  }

  /** Every coordinate fits the `int` that `int.Parse` returns. */
  ghost predicate Int32Points(paths: seq<seq<Point>>)
  {
    forall k, l :: 0 <= k < |paths| && 0 <= l < |paths[k]| ==> IsInt32(paths[k][l].x) && IsInt32(paths[k][l].y)
  }

  /**
   * Lines 30-52: size the board from the bounds of the rock, `buffer`
   * columns wider on each side; `null` where `Array.CreateInstance` rejects
   * a negative length or a lower bound plus length past `int.MaxValue`.
   */
  method Allocate(paths: seq<seq<Point>>, buffer: int) returns (board: Board?)
    requires Int32Points(paths) && IsInt32(buffer)
    ensures board != null ==> fresh(board) && fresh(board.cells) && board.Valid()
    ensures board != null ==> forall q :: board.Inside(q) ==> board.At(q) == Success(Air)
  {
    var b := Bounds(paths);
    var width := Wrap32(b.maxX - b.minX + 2 * buffer);
    var height := Wrap32(b.maxY + 3);
    var left := Wrap32(b.minX - buffer);
    if width < 0 || height < 0 || left + width > 0x7fff_ffff {
      return null;
    }
    assert IsInt32(b.maxY) by {
      if b.maxY != 0 {
        var p :| p in Flatten(paths) && p.y == b.maxY;
      }
    }
    board := new Board(left, width, b.maxY);
  }

  /**
   * Lines 28-142 for one buffer width: size the board, draw the rock, lay
   * the floor and pour. A success means the sand has blocked the source,
   * the count is the number of sand cells, and the rock and the floor are
   * still in place; the board is returned for the statements about it.
   */
  method Try(paths: seq<seq<Point>>, buffer: int) returns (r: Result<int>, board: Board?)
    requires Int32Points(paths) && IsInt32(buffer)
    ensures board == null <==> r == Failure(ArgumentOutOfRangeException)
    ensures r.Failure? ==> r.error == ArgumentOutOfRangeException || r.error == IndexOutOfRangeException
    ensures r.Success? ==> board != null && board.Valid() && board.Floored()
    ensures r.Success? ==> board.At(Source) == Success('o') && r.value == |board.Sand()|
    ensures r.Success? ==> forall p | p in Rocks(paths) && p != Source :: board.At(p) == Success('#')
  {
    board := Allocate(paths, buffer);
    if board == null {
      return Failure(ArgumentOutOfRangeException), null;
    }
    var error := board.Lay(paths);
    if error.Some? {
      return Failure(error.value), board;
    }
    r := board.Pour();
    if r.Success? {
      board.FloorCatches(Source.x, Source.y);
    }
  }
}
