/**
 * Day 12: the fewest steps up a heightmap. The search runs backwards from
 * the summit `E`: a step from `head` to a neighbour `o` is allowed when `o`
 * is at most one lower, the reverse of a climb of at most one.
 */
module Problem12 {
  import opened Wrappers
  import opened Numerics

  /** `Coord`: a row and a column. */
  datatype Coord = Coord(row: int, column: int)
  {
    /** `Add`: the cell `r` rows and `c` columns away. */
    function Add(r: int, c: int): (n: Coord)
      ensures n.row - row == r && n.column - column == c
    {
      Coord(row + r, column + c)
    }
  }

  /** `CoordPath`: a cell and the path that reached it, `None` standing for `null`. */
  datatype CoordPath = CoordPath(head: Coord, path: Option<CoordPath>)

  /** The cells of a path, from its head back to where it began. */
  function Cells(p: CoordPath): (cs: seq<Coord>)
    ensures |cs| >= 1 && cs[0] == p.head
  {
    [p.head] + match p.path case None => [] case Some(q) => Cells(q)
  }

  /** `Length`: the number of links, one less than the number of cells. */
  function Length(p: CoordPath): (n: int)
    ensures n == |Cells(p)| - 1 && n >= 0
  {
    1 + match p.path case None => -1 case Some(q) => Length(q)
  }

  /** A path whose head was reached from `p` has one more link. */
  lemma LengthStep(p: CoordPath, o: Coord)
    ensures Length(CoordPath(o, Some(p))) == Length(p) + 1
    ensures Cells(CoordPath(o, Some(p))) == [o] + Cells(p)
  {
  }

  // ---------------------------------------------------------------------------
  // The map

  /** The height of a map character, with `S` read as `a` and `E` as `z`. */
  function Height(ch: char): (h: int)
    ensures ch == 'S' ==> h == 0
    ensures ch == 'E' ==> h == 25
    ensures ch != 'S' && ch != 'E' ==> h == ch as int - 'a' as int
  {
    var c := if ch == 'S' then 'a' else if ch == 'E' then 'z' else ch;
    c as int - 'a' as int
  }

  /** Every line is at least as long as the first, which sets the width. */
  predicate Rect(list: seq<string>)
  {
    list != [] && forall i :: 0 <= i < |list| ==> |list[i]| >= |list[0]|
  }

  predicate InMap(list: seq<string>, c: Coord)
    requires list != []
  {
    0 <= c.row < |list| && 0 <= c.column < |list[0]|
  }

  function CharAt(list: seq<string>, c: Coord): char
    requires Rect(list) && InMap(list, c)
  {
    list[c.row][c.column]
  }

  function HeightAt(list: seq<string>, c: Coord): int
    requires Rect(list) && InMap(list, c)
  {
    Height(CharAt(list, c))
  }

  predicate Beside(a: Coord, b: Coord)
  {
    Abs(a.row - b.row) + Abs(a.column - b.column) == 1
  }

  /** The search may go from `head` to `o`: a neighbour inside the map at most one lower. */
  predicate Step(list: seq<string>, head: Coord, o: Coord)
    requires Rect(list)
  {
    InMap(list, head) && InMap(list, o) && Beside(head, o) && HeightAt(list, head) - HeightAt(list, o) <= 1
  }

  /** A walk of the search, its cells listed from the last one back to `end`. */
  ghost predicate Walk(list: seq<string>, cs: seq<Coord>, end: Coord)
    requires Rect(list)
  {
    |cs| >= 1 && cs[|cs| - 1] == end &&
    forall i :: 0 <= i < |cs| - 1 ==> Step(list, cs[i + 1], cs[i])
  }

  /** `c` is reached from `end` by a walk of `d` steps. */
  ghost predicate Reaches(list: seq<string>, end: Coord, c: Coord, d: int)
    requires Rect(list)
  {
    exists cs :: Walk(list, cs, end) && cs[0] == c && |cs| == d + 1
  }

  ghost predicate Reachable(list: seq<string>, end: Coord, c: Coord)
    requires Rect(list)
  {
    exists cs :: Walk(list, cs, end) && cs[0] == c
  }

  /** `d` is the fewest steps from `end` to `c`. */
  ghost predicate Shortest(list: seq<string>, end: Coord, c: Coord, d: int)
    requires Rect(list)
  {
    Reaches(list, end, c, d) && forall cs :: Walk(list, cs, end) && cs[0] == c ==> |cs| - 1 >= d
  }

  /** The map has exactly one `E`, at `end`. */
  ghost predicate OneMark(list: seq<string>, ch: char, at: Coord)
    requires Rect(list)
  {
    InMap(list, at) && CharAt(list, at) == ch &&
    forall c :: InMap(list, c) && CharAt(list, c) == ch ==> c == at
  }

  // ---------------------------------------------------------------------------
  // Reading the map

  /** The cells in reading order before row `r`, column `col`. */
  predicate Before(i: int, j: int, r: int, col: int)
  {
    i < r || (i == r && j < col)
  }

  /**
   * `at` is the last cell holding `ch` among those read before (`r`, `col`),
   * or (0, 0), the `default` coordinate, when none does.
   */
  ghost predicate LastRead(list: seq<string>, ch: char, at: Coord, r: int, col: int)
    requires Rect(list)
  {
    (InMap(list, at) && Before(at.row, at.column, r, col) && CharAt(list, at) == ch &&
     forall c :: InMap(list, c) && Before(c.row, c.column, r, col) && Before(at.row, at.column, c.row, c.column)
       ==> CharAt(list, c) != ch) ||
    (at == Coord(0, 0) && forall c :: InMap(list, c) && Before(c.row, c.column, r, col) ==> CharAt(list, c) != ch)
  }

  /** The arrays the first loop fills, with the last `S` and the last `E`. */
  datatype Grid = Grid(heights: array2<int>, distance: array2<int>, start: Coord, end: Coord)

  /** The heights of every cell, `0` distance for every `E` and `-1` for the rest. */
  ghost predicate Loaded(list: seq<string>, g: Grid)
    requires Rect(list)
    reads g.heights, g.distance
  {
    g.heights != g.distance &&
    g.heights.Length0 == g.distance.Length0 == |list| && g.heights.Length1 == g.distance.Length1 == |list[0]| &&
    (forall i, j :: 0 <= i < |list| && 0 <= j < |list[0]| ==>
      g.heights[i, j] == Height(list[i][j]) && g.distance[i, j] == if list[i][j] == 'E' then 0 else -1) &&
    LastRead(list, 'S', g.start, |list|, 0) && LastRead(list, 'E', g.end, |list|, 0)
  }

  /** The cells read before (`r`, `col`) hold their heights and initial distances. */
  ghost predicate Filled(list: seq<string>, heights: array2<int>, distance: array2<int>, r: int, col: int)
    requires Rect(list)
    reads heights, distance
  {
    heights.Length0 == distance.Length0 == |list| && heights.Length1 == distance.Length1 == |list[0]| &&
    forall i, j :: 0 <= i < |list| && 0 <= j < |list[0]| && Before(i, j, r, col) ==>
      heights[i, j] == Height(list[i][j]) && distance[i, j] == if list[i][j] == 'E' then 0 else -1
  }

  /** Reading one more cell keeps the last mark read. */
  lemma LastReadStep(list: seq<string>, ch: char, at: Coord, r: int, col: int)
    requires Rect(list) && 0 <= r < |list| && 0 <= col < |list[0]| && LastRead(list, ch, at, r, col)
    ensures list[r][col] == ch ==> LastRead(list, ch, Coord(r, col), r, col + 1)
    ensures list[r][col] != ch ==> LastRead(list, ch, at, r, col + 1)
  {
    var here := Coord(r, col);
    assert CharAt(list, here) == list[r][col];
    forall c | InMap(list, c) && Before(c.row, c.column, r, col + 1)
      ensures Before(c.row, c.column, r, col) || c == here
    {
    }
  }

  /** The end of a row is the start of the next. */
  lemma LastReadRow(list: seq<string>, ch: char, at: Coord, r: int)
    requires Rect(list) && LastRead(list, ch, at, r, |list[0]|)
    ensures LastRead(list, ch, at, r + 1, 0)
  {
    forall c | InMap(list, c)
      ensures Before(c.row, c.column, r, |list[0]|) == Before(c.row, c.column, r + 1, 0)
    {
    }
  }

  /** The inner loop of the first loop: one line of the map. */
  method ReadRow(list: seq<string>, heights: array2<int>, distance: array2<int>, i0: int, start: Coord, end: Coord)
    returns (start': Coord, end': Coord)
    requires Rect(list) && 0 <= i0 < |list| && heights != distance
    requires Filled(list, heights, distance, i0, 0)
    requires LastRead(list, 'S', start, i0, 0) && LastRead(list, 'E', end, i0, 0)
    modifies heights, distance
    ensures Filled(list, heights, distance, i0 + 1, 0)
    ensures LastRead(list, 'S', start', i0 + 1, 0) && LastRead(list, 'E', end', i0 + 1, 0)
  {
    start', end' := start, end;
    var nCols := heights.Length1;
    for i1 := 0 to nCols
      invariant Filled(list, heights, distance, i0, i1)
      invariant LastRead(list, 'S', start', i0, i1) && LastRead(list, 'E', end', i0, i1)
    {
      LastReadStep(list, 'S', start', i0, i1);
      LastReadStep(list, 'E', end', i0, i1);
      distance[i0, i1] := -1;
      var c := list[i0][i1];
      if c == 'S' {
        start' := Coord(i0, i1);
      } else if c == 'E' {
        end' := Coord(i0, i1);
        distance[i0, i1] := 0;
      }
      heights[i0, i1] := Height(c);
    }
    LastReadRow(list, 'S', start', i0);
    LastReadRow(list, 'E', end', i0);
  }

  /**
   * The first loop of `ExecuteCoreAsync`. An empty input fails on `list[0]`
   * with `ArgumentOutOfRangeException`; a line shorter than the first fails on
   * `list[i0][i1]` with `IndexOutOfRangeException`.
   */
  method Load(list: seq<string>) returns (r: Result<Grid>)
    ensures list == [] ==> r == Failure(ArgumentOutOfRangeException)
    ensures list != [] && !Rect(list) ==> r == Failure(IndexOutOfRangeException)
    ensures Rect(list) ==> r.Success? && fresh(r.value.heights) && fresh(r.value.distance) && Loaded(list, r.value)
  {
    if list == [] {
      return Failure(ArgumentOutOfRangeException);
    }
    var nRows := |list|;
    var nCols := |list[0]|;
    if exists i :: 0 <= i < nRows && |list[i]| < nCols {
      return Failure(IndexOutOfRangeException);
    }
    var heights := new int[nRows, nCols];
    var distance := new int[nRows, nCols];
    var start, end := Coord(0, 0), Coord(0, 0);
    for i0 := 0 to nRows
      invariant Filled(list, heights, distance, i0, 0)
      invariant LastRead(list, 'S', start, i0, 0) && LastRead(list, 'E', end, i0, 0)
    {
      start, end := ReadRow(list, heights, distance, i0, start, end);
    }
    return Success(Grid(heights, distance, start, end));
  }

  // ---------------------------------------------------------------------------
  // The search

  /** The entry of the array at `c`, and -1 outside it. */
  function At(a: array2<int>, c: Coord): int
    reads a
  {
    if 0 <= c.row < a.Length0 && 0 <= c.column < a.Length1 then a[c.row, c.column] else -1
  }

  /** The heights array holds the map's heights. */
  ghost predicate Heights(list: seq<string>, heights: array2<int>)
    requires Rect(list)
    reads heights
  {
    heights.Length0 == |list| && heights.Length1 == |list[0]| &&
    forall c :: InMap(list, c) ==> At(heights, c) == HeightAt(list, c)
  }

  /** The distance array as a value: `dist` agrees with it everywhere, -1 outside. */
  ghost predicate Mirrors(distance: array2<int>, dist: Coord -> int)
    reads distance
  {
    forall c :: At(distance, c) == dist(c)
  }

  /** `dist` with the entry at `o` replaced by `v`. */
  ghost function Update(dist: Coord -> int, o: Coord, v: int): (d: Coord -> int)
    ensures d(o) == v && forall c :: c != o ==> d(c) == dist(c)
  {
    c => if c == o then v else dist(c)
  }

  /**
   * Outside the map there is no distance, every `E` is at distance 0, and any
   * other cell with a distance is reached from `end` in that many steps.
   */
  ghost predicate Sound(list: seq<string>, dist: Coord -> int, end: Coord)
    requires Rect(list)
  {
    forall c ::
      (!InMap(list, c) ==> dist(c) == -1) &&
      (InMap(list, c) && CharAt(list, c) == 'E' ==> dist(c) == 0) &&
      (InMap(list, c) && CharAt(list, c) != 'E' && dist(c) != -1 ==> Reaches(list, end, c, dist(c)))
  }

  /** The cells still without a distance. */
  ghost predicate Unset(list: seq<string>, dist: Coord -> int, unset: set<Coord>)
    requires Rect(list)
  {
    forall c :: c in unset <==> InMap(list, c) && dist(c) == -1
  }

  /**
   * `bestPath` is a walk from `end` to `start` as long as the start's
   * distance, and it is `null` exactly when that distance was never set.
   */
  ghost predicate Best(list: seq<string>, dist: Coord -> int, start: Coord, end: Coord, bestPath: Option<CoordPath>)
    requires Rect(list)
  {
    (bestPath.Some? ==>
      InMap(list, start) && CharAt(list, start) != 'E' && bestPath.value.head == start &&
      Walk(list, Cells(bestPath.value), end) && dist(start) == Length(bestPath.value)) &&
    (bestPath.None? ==> !InMap(list, start) || CharAt(list, start) == 'E' || dist(start) == -1)
  }

  /** Every queued path is a walk from `end`; one that has left `end` ends at a cell whose distance is its length. */
  ghost predicate Walks(list: seq<string>, dist: Coord -> int, queue: seq<CoordPath>, end: Coord)
    requires Rect(list)
  {
    (forall i :: 0 <= i < |queue| ==> Walk(list, Cells(queue[i]), end)) &&
    (forall i :: 0 <= i < |queue| && Length(queue[i]) > 0 ==> dist(queue[i].head) == Length(queue[i]))
  }

  /** The lengths in the queue never go down. */
  ghost predicate Ordered(queue: seq<CoordPath>)
  {
    forall i, j :: 0 <= i <= j < |queue| ==> Length(queue[i]) <= Length(queue[j])
  }

  /** Every expanded cell has a distance, and each step from it leads to a cell at most one further. */
  ghost predicate Closed(list: seq<string>, dist: Coord -> int, done: set<Coord>)
    requires Rect(list)
  {
    forall h :: h in done ==>
      InMap(list, h) && dist(h) != -1 &&
      (forall o :: Step(list, h, o) ==> dist(o) != -1 && dist(o) <= dist(h) + 1)
  }

  /** Every cell with a distance is expanded or at the head of a queued path. */
  ghost predicate Covered(list: seq<string>, dist: Coord -> int, queue: seq<CoordPath>, done: set<Coord>)
    requires Rect(list)
  {
    forall c :: InMap(list, c) && dist(c) != -1 ==> c in done || exists i :: 0 <= i < |queue| && queue[i].head == c
  }

  /**
   * The state of the search between two iterations of its `while` loop. The
   * queue is in order of length and no longer than its first plus one, and no
   * distance exceeds that either, which is what makes the search a
   * breadth-first one. With a single `E`, the expanded cells are closed.
   */
  ghost predicate Searching(list: seq<string>, dist: Coord -> int, queue: seq<CoordPath>,
                            bestPath: Option<CoordPath>, start: Coord, end: Coord, unset: set<Coord>, done: set<Coord>)
    requires Rect(list)
  {
    Sound(list, dist, end) && Walks(list, dist, queue, end) && Ordered(queue) &&
    (queue != [] ==> (forall i :: 0 <= i < |queue| ==> Length(queue[i]) <= Length(queue[0]) + 1) &&
                     (forall c :: dist(c) <= Length(queue[0]) + 1)) &&
    Unset(list, dist, unset) && Best(list, dist, start, end, bestPath) &&
    (OneMark(list, 'E', end) ==> Closed(list, dist, done) && Covered(list, dist, queue, done))
  }

  /** The state while the neighbours of `p`, taken from the front of the queue, are tried. */
  ghost predicate Relaxing(list: seq<string>, dist: Coord -> int, p: CoordPath, queue: seq<CoordPath>,
                           bestPath: Option<CoordPath>, start: Coord, end: Coord, unset: set<Coord>, done: set<Coord>)
    requires Rect(list)
  {
    Sound(list, dist, end) && Walk(list, Cells(p), end) && Walks(list, dist, queue, end) && Ordered(queue) &&
    (forall i :: 0 <= i < |queue| ==> Length(p) <= Length(queue[i]) <= Length(p) + 1) &&
    (forall c :: dist(c) <= Length(p) + 1) &&
    Unset(list, dist, unset) && Best(list, dist, start, end, bestPath) &&
    (OneMark(list, 'E', end) ==>
      Closed(list, dist, done) && Covered(list, dist, queue, done + {p.head}) && dist(p.head) == Length(p))
  }

  /** A walk extended by one step is a walk. */
  lemma {:induction false} WalkStep(list: seq<string>, p: CoordPath, o: Coord, end: Coord)
    requires Rect(list) && Walk(list, Cells(p), end) && Step(list, p.head, o)
    ensures Walk(list, Cells(CoordPath(o, Some(p))), end)
  {
    LengthStep(p, o);
    var cs := Cells(CoordPath(o, Some(p)));
    forall i | 0 <= i < |cs| - 1
      ensures Step(list, cs[i + 1], cs[i])
    {
      if i > 0 {
        assert cs[i + 1] == Cells(p)[i] && cs[i] == Cells(p)[i - 1];
      }
    }
  }

  /** The rest of the queue is still made of walks, in order, within one of the first path's length. */
  lemma {:induction false} WalksTail(list: seq<string>, dist: Coord -> int, queue: seq<CoordPath>, end: Coord)
    requires Rect(list) && Walks(list, dist, queue, end) && Ordered(queue) && queue != []
    requires forall i :: 0 <= i < |queue| ==> Length(queue[i]) <= Length(queue[0]) + 1
    ensures Walks(list, dist, queue[1..], end) && Ordered(queue[1..])
    ensures forall i :: 0 <= i < |queue| - 1 ==> Length(queue[0]) <= Length(queue[1..][i]) <= Length(queue[0]) + 1
  {
    var rest := queue[1..];
    forall i | 0 <= i < |rest|
      ensures Walk(list, Cells(rest[i]), end)
      ensures Length(rest[i]) > 0 ==> dist(rest[i].head) == Length(rest[i])
      ensures Length(queue[0]) <= Length(rest[i]) <= Length(queue[0]) + 1
    {
      assert rest[i] == queue[i + 1];
    }
    forall i, j | 0 <= i <= j < |rest|
      ensures Length(rest[i]) <= Length(rest[j])
    {
      assert rest[i] == queue[i + 1] && rest[j] == queue[j + 1];
    }
  }

  /** A cell covered by the queue is covered by its rest once the first head counts as expanded. */
  lemma {:induction false} CoveredTail(list: seq<string>, dist: Coord -> int, queue: seq<CoordPath>, done: set<Coord>)
    requires Rect(list) && Covered(list, dist, queue, done) && queue != []
    ensures Covered(list, dist, queue[1..], done + {queue[0].head})
  {
    var rest := queue[1..];
    forall c | InMap(list, c) && dist(c) != -1
      ensures c in done + {queue[0].head} || exists i :: 0 <= i < |rest| && rest[i].head == c
    {
      if c !in done + {queue[0].head} {
        var i :| 0 <= i < |queue| && queue[i].head == c;
        assert rest[i - 1].head == c;
      }
    }
  }

  /** Taking the first path off the queue starts its expansion. */
  lemma {:induction false} StartExpanding(list: seq<string>, dist: Coord -> int, queue: seq<CoordPath>, bestPath: Option<CoordPath>,
                                          start: Coord, end: Coord, unset: set<Coord>, done: set<Coord>)
    requires Rect(list) && Searching(list, dist, queue, bestPath, start, end, unset, done) && queue != []
    ensures Relaxing(list, dist, queue[0], queue[1..], bestPath, start, end, unset, done)
  {
    var p := queue[0];
    WalksTail(list, dist, queue, end);
    if OneMark(list, 'E', end) {
      assert dist(p.head) == Length(p) by {
        if Length(p) == 0 {
          assert Walk(list, Cells(p), end);
        }
      }
      CoveredTail(list, dist, queue, done);
    }
  }

  /** Giving a cell without a distance the length of a walk to it keeps the distances sound. */
  lemma {:induction false} SoundSet(list: seq<string>, dist: Coord -> int, end: Coord, o: Coord, d: int)
    requires Rect(list) && Sound(list, dist, end) && InMap(list, o) && dist(o) == -1 && Reaches(list, end, o, d)
    ensures Sound(list, Update(dist, o, d), end)
  {
  }

  /** Queuing the path to a newly set cell keeps the queue made of walks, in order of length. */
  lemma {:induction false} WalksSet(list: seq<string>, dist: Coord -> int, queue: seq<CoordPath>, end: Coord, step: CoordPath)
    requires Rect(list) && Walks(list, dist, queue, end) && Ordered(queue) && dist(step.head) == -1
    requires Walk(list, Cells(step), end) && Length(step) > 0
    requires forall i :: 0 <= i < |queue| ==> Length(queue[i]) <= Length(step)
    ensures Walks(list, Update(dist, step.head, Length(step)), queue + [step], end) && Ordered(queue + [step])
  {
    var dist', queue' := Update(dist, step.head, Length(step)), queue + [step];
    forall i | 0 <= i < |queue'|
      ensures Walk(list, Cells(queue'[i]), end)
      ensures Length(queue'[i]) > 0 ==> dist'(queue'[i].head) == Length(queue'[i])
    {
      if i < |queue| {
        assert queue'[i] == queue[i];
      }
    }
    forall i, j | 0 <= i <= j < |queue'|
      ensures Length(queue'[i]) <= Length(queue'[j])
    {
      if j < |queue| {
        assert queue'[i] == queue[i] && queue'[j] == queue[j];
      }
    }
  }

  /** Setting a cell without a distance leaves the expanded cells closed. */
  lemma {:induction false} ClosedSet(list: seq<string>, dist: Coord -> int, done: set<Coord>, o: Coord, d: int)
    requires Rect(list) && Closed(list, dist, done) && dist(o) == -1
    ensures Closed(list, Update(dist, o, d), done)
  {
    var dist' := Update(dist, o, d);
    forall h | h in done
      ensures InMap(list, h) && dist'(h) != -1
      ensures forall o' :: Step(list, h, o') ==> dist'(o') != -1 && dist'(o') <= dist'(h) + 1
    {
    }
  }

  /** A newly set cell is at the head of the last queued path. */
  lemma {:induction false} CoveredSet(list: seq<string>, dist: Coord -> int, queue: seq<CoordPath>, done: set<Coord>, step: CoordPath, d: int)
    requires Rect(list) && Covered(list, dist, queue, done)
    ensures Covered(list, Update(dist, step.head, d), queue + [step], done)
  {
    var dist', queue' := Update(dist, step.head, d), queue + [step];
    forall c | InMap(list, c) && dist'(c) != -1
      ensures c in done || exists i :: 0 <= i < |queue'| && queue'[i].head == c
    {
      if c == step.head {
        assert queue'[|queue|].head == c;
      } else if c !in done {
        var i :| 0 <= i < |queue| && queue[i].head == c;
        assert queue'[i].head == c;
      }
    }
  }

  /**
   * One relaxation keeps the state of the expansion: `o`, a step from the
   * head of `p` with no distance yet, gets the length of the extended path,
   * which is queued and becomes the best path when `o` is the start.
   */
  lemma {:induction false} Relaxed(list: seq<string>, dist: Coord -> int, p: CoordPath, o: Coord, queue: seq<CoordPath>,
                bestPath: Option<CoordPath>, start: Coord, end: Coord, unset: set<Coord>, done: set<Coord>)
    requires Rect(list) && Relaxing(list, dist, p, queue, bestPath, start, end, unset, done)
    requires Step(list, p.head, o) && dist(o) == -1
    ensures o in unset
    ensures Relaxing(list, Update(dist, o, Length(p) + 1), p, queue + [CoordPath(o, Some(p))],
                     if o == start then Some(CoordPath(o, Some(p))) else bestPath, start, end, unset - {o}, done)
  {
    var step := CoordPath(o, Some(p));
    LengthStep(p, o);
    WalkStep(list, p, o, end);
    var dist' := Update(dist, o, Length(step));
    assert Reaches(list, end, o, Length(step)) by {
      assert Cells(step)[0] == o;
    }
    SoundSet(list, dist, end, o, Length(step));
    WalksSet(list, dist, queue, end, step);
    var best' := if o == start then Some(step) else bestPath;
    assert Unset(list, dist', unset - {o});
    assert Best(list, dist', start, end, best');
    if OneMark(list, 'E', end) {
      ClosedSet(list, dist, done, o, Length(step));
      CoveredSet(list, dist, queue, done + {p.head}, step, Length(step));
    }
  }

  /**
   * One option of the `foreach` loop. A cell inside the map, at most one
   * lower than the head of `p` and not yet at a shorter distance, gets the
   * length of the extended path, and that path is queued; reaching `start`
   * makes it the best path. In a breadth-first search no distance is ever
   * longer than the new path, so only cells still at -1 are updated.
   */
  method Relax(ghost list: seq<string>, heights: array2<int>, distance: array2<int>, p: CoordPath, o: Coord,
               queue: seq<CoordPath>, bestPath: Option<CoordPath>, start: Coord, ghost end: Coord,
               ghost dist: Coord -> int, ghost unset: set<Coord>, ghost done: set<Coord>)
    returns (queue': seq<CoordPath>, bestPath': Option<CoordPath>, ghost dist': Coord -> int, ghost unset': set<Coord>)
    requires Rect(list) && Heights(list, heights) && heights != distance
    requires distance.Length0 == |list| && distance.Length1 == |list[0]| && Mirrors(distance, dist)
    requires Relaxing(list, dist, p, queue, bestPath, start, end, unset, done)
    requires |list[0]| > 0 ==> InMap(list, end)
    requires Beside(p.head, o)
    modifies distance
    ensures Mirrors(distance, dist') && Relaxing(list, dist', p, queue', bestPath', start, end, unset', done)
    ensures Step(list, p.head, o) ==> dist'(o) != -1 && dist'(o) <= Length(p) + 1
    ensures forall c :: dist(c) != -1 ==> dist'(c) == dist(c)
    ensures unset' <= unset && (unset' == unset ==> queue' == queue)
  {
    queue', bestPath', dist', unset' := queue, bestPath, dist, unset;
    if o.row < 0 || o.row >= distance.Length0 || o.column < 0 || o.column >= distance.Length1 {
      return;
    }
    var head := p.head;
    assert InMap(list, head) by {
      if Length(p) > 0 {
        assert Step(list, Cells(p)[1], Cells(p)[0]);
      }
    }
    var step := CoordPath(o, Some(p));
    var jump := heights[head.row, head.column] - heights[o.row, o.column];
    assert jump == HeightAt(list, head) - HeightAt(list, o) by {
      assert At(heights, head) == HeightAt(list, head) && At(heights, o) == HeightAt(list, o);
    }
    if jump > 1 {
      return;
    }
    LengthStep(p, o);
    assert distance[o.row, o.column] == dist(o) by {
      assert At(distance, o) == dist(o);
    }
    if distance[o.row, o.column] == -1 || distance[o.row, o.column] > Length(step) {
      Relaxed(list, dist, p, o, queue, bestPath, start, end, unset, done);
      dist' := Assign(distance, o, Length(step), dist);
      queue' := queue + [step];
      unset' := unset - {o};
      if o == start {
        bestPath' := Some(step);
      }
    }
  }

  /** `distance[o.Row, o.Column] = step.Length`, mirrored in the ghost distances. */
  method Assign(distance: array2<int>, o: Coord, d: int, ghost dist: Coord -> int) returns (ghost dist': Coord -> int)
    requires 0 <= o.row < distance.Length0 && 0 <= o.column < distance.Length1 && Mirrors(distance, dist)
    modifies distance
    ensures dist' == Update(dist, o, d) && Mirrors(distance, dist')
  {
    distance[o.row, o.column] := d;
    dist' := Update(dist, o, d);
    forall c
      ensures At(distance, c) == dist'(c)
    {
      if c != o {
        assert old(At(distance, c)) == dist(c);
      }
    }
  }

  /** The cells tried from `h`, in the source's order: up, down, left, right. They are exactly the cells beside `h`. */
  function Options(h: Coord): (os: seq<Coord>)
    ensures |os| == 4 && forall o :: o in os <==> Beside(h, o)
  {
    [h.Add(-1, 0), h.Add(1, 0), h.Add(0, -1), h.Add(0, 1)]
  }

  /** Once every step from the head of `p` has a distance, the head counts as expanded. */
  lemma {:induction false} FinishExpanding(list: seq<string>, dist: Coord -> int, p: CoordPath, queue: seq<CoordPath>,
                                           bestPath: Option<CoordPath>, start: Coord, end: Coord, unset: set<Coord>, done: set<Coord>)
    requires Rect(list) && Relaxing(list, dist, p, queue, bestPath, start, end, unset, done)
    requires forall o :: o in Options(p.head) && Step(list, p.head, o) ==> dist(o) != -1 && dist(o) <= Length(p) + 1
    ensures Searching(list, dist, queue, bestPath, start, end, unset, done + {p.head})
  {
    if OneMark(list, 'E', end) {
      assert InMap(list, p.head) by {
        assert dist(p.head) != -1;
      }
    }
  }

  /**
   * One iteration of the `while` loop: the first path leaves the queue and
   * the four cells beside its head are tried in the source's order.
   */
  method Visit(ghost list: seq<string>, heights: array2<int>, distance: array2<int>, queue: seq<CoordPath>,
               bestPath: Option<CoordPath>, start: Coord, ghost end: Coord,
               ghost dist: Coord -> int, ghost unset: set<Coord>, ghost done: set<Coord>)
    returns (queue': seq<CoordPath>, bestPath': Option<CoordPath>, ghost dist': Coord -> int,
             ghost unset': set<Coord>, ghost done': set<Coord>)
    requires Rect(list) && Heights(list, heights) && heights != distance
    requires distance.Length0 == |list| && distance.Length1 == |list[0]| && Mirrors(distance, dist)
    requires Searching(list, dist, queue, bestPath, start, end, unset, done) && queue != []
    requires |list[0]| > 0 ==> InMap(list, end)
    modifies distance
    ensures Mirrors(distance, dist') && Searching(list, dist', queue', bestPath', start, end, unset', done')
    ensures forall c :: dist(c) != -1 ==> dist'(c) == dist(c)
    ensures unset' < unset || (unset' == unset && |queue'| < |queue|)
  {
    var path := queue[0];
    var head := path.head;
    StartExpanding(list, dist, queue, bestPath, start, end, unset, done);
    queue', bestPath', dist', unset' := queue[1..], bestPath, dist, unset;
    var options := Options(head);
    for k := 0 to |options|
      invariant Heights(list, heights)
      invariant Mirrors(distance, dist') && Relaxing(list, dist', path, queue', bestPath', start, end, unset', done)
      invariant forall o :: o in options[..k] && Step(list, head, o) ==> dist'(o) != -1 && dist'(o) <= Length(path) + 1
      invariant forall c :: dist(c) != -1 ==> dist'(c) == dist(c)
      invariant unset' <= unset && (unset' == unset ==> queue' == queue[1..])
    {
      assert options[..k + 1] == options[..k] + [options[k]];
      queue', bestPath', dist', unset' :=
        Relax(list, heights, distance, path, options[k], queue', bestPath', start, end, dist', unset', done);
    }
    assert options[..|options|] == options;
    FinishExpanding(list, dist', path, queue', bestPath', start, end, unset', done);
    done' := done + {head};
  }

  /** The distances before the search: 0 at every `E`, -1 everywhere else. */
  ghost function Initial(list: seq<string>): (d: Coord -> int)
    requires Rect(list)
    ensures forall c :: InMap(list, c) ==> d(c) == if CharAt(list, c) == 'E' then 0 else -1
    ensures forall c :: !InMap(list, c) ==> d(c) == -1
  {
    c => if InMap(list, c) && CharAt(list, c) == 'E' then 0 else -1
  }

  /** The queue holding only the empty path at `end` starts the search. */
  lemma {:induction false} SearchStart(list: seq<string>, start: Coord, end: Coord, unset: set<Coord>)
    requires Rect(list)
    requires forall c :: c in unset <==> InMap(list, c) && CharAt(list, c) != 'E'
    ensures Searching(list, Initial(list), [CoordPath(end, None)], None, start, end, unset, {})
  {
    var queue := [CoordPath(end, None)];
    assert Cells(queue[0]) == [end];
    if OneMark(list, 'E', end) {
      assert Covered(list, Initial(list), queue, {}) by {
        forall c | InMap(list, c) && Initial(list)(c) != -1
          ensures queue[0].head == c
        {
        }
      }
    }
  }

  /**
   * With a single `E` and the queue empty, every walk from `end` ends at a
   * cell whose distance is set and no longer than the walk.
   */
  lemma {:induction false} Optimal(list: seq<string>, dist: Coord -> int, end: Coord, done: set<Coord>, cs: seq<Coord>)
    requires Rect(list) && OneMark(list, 'E', end) && Sound(list, dist, end)
    requires Closed(list, dist, done) && Covered(list, dist, [], done)
    requires Walk(list, cs, end)
    ensures dist(cs[0]) != -1 && dist(cs[0]) <= |cs| - 1
    decreases |cs|
  {
    if |cs| > 1 {
      var rest := cs[1..];
      assert Walk(list, rest, end) by {
        forall i | 0 <= i < |rest| - 1
          ensures Step(list, rest[i + 1], rest[i])
        {
          assert rest[i + 1] == cs[i + 2] && rest[i] == cs[i + 1];
        }
      }
      Optimal(list, dist, end, done, rest);
      assert Step(list, cs[1], cs[0]);
      assert cs[1] in done;
    }
  }

  /**
   * With a single `E`, when the queue runs empty a cell is left at -1 exactly
   * when no walk reaches it, and otherwise holds the fewest steps to it.
   */
  lemma {:induction false} SearchDone(list: seq<string>, dist: Coord -> int, end: Coord, done: set<Coord>)
    requires Rect(list) && OneMark(list, 'E', end) && Sound(list, dist, end)
    requires Closed(list, dist, done) && Covered(list, dist, [], done)
    ensures forall c :: InMap(list, c) ==>
      (dist(c) == -1 <==> !Reachable(list, end, c)) && (dist(c) != -1 ==> Shortest(list, end, c, dist(c)))
  {
    forall c | InMap(list, c)
      ensures dist(c) == -1 <==> !Reachable(list, end, c)
      ensures dist(c) != -1 ==> Shortest(list, end, c, dist(c))
    {
      forall cs | Walk(list, cs, end) && cs[0] == c
        ensures dist(c) != -1 && |cs| - 1 >= dist(c)
      {
        Optimal(list, dist, end, done, cs);
      }
      if dist(c) != -1 {
        if CharAt(list, c) == 'E' {
          assert Walk(list, [end], end);
        }
        assert Reaches(list, end, c, dist(c));
        var cs :| Walk(list, cs, end) && cs[0] == c && |cs| == dist(c) + 1;
      }
    }
  }

  /**
   * The `while` loop of `ExecuteCoreAsync`: a breadth-first search backwards
   * from `end`. Every `E` keeps distance 0, every other distance set is the
   * length of a walk from `end`, and `bestPath` is the walk that reached the
   * start. With a single `E` the distances are the fewest steps, and -1 marks
   * exactly the cells no walk reaches.
   */
  method Search(ghost list: seq<string>, heights: array2<int>, distance: array2<int>, start: Coord, end: Coord)
    returns (bestPath: Option<CoordPath>, ghost dist: Coord -> int)
    requires Rect(list) && Heights(list, heights) && heights != distance
    requires distance.Length0 == |list| && distance.Length1 == |list[0]| && Mirrors(distance, Initial(list))
    requires |list[0]| > 0 ==> InMap(list, end)
    modifies distance
    ensures Mirrors(distance, dist) && Sound(list, dist, end) && Best(list, dist, start, end, bestPath)
    ensures OneMark(list, 'E', end) ==> forall c :: InMap(list, c) ==>
      (dist(c) == -1 <==> !Reachable(list, end, c)) && (dist(c) != -1 ==> Shortest(list, end, c, dist(c)))
  {
    var locations := [CoordPath(end, None)];
    bestPath := None;
    dist := Initial(list);
    ghost var unset := set i, j | 0 <= i < |list| && 0 <= j < |list[0]| && list[i][j] != 'E' :: Coord(i, j);
    forall c
      ensures c in unset <==> InMap(list, c) && CharAt(list, c) != 'E'
    {
      if InMap(list, c) && CharAt(list, c) != 'E' {
        assert c == Coord(c.row, c.column);
      }
    }
    ghost var done: set<Coord> := {};
    SearchStart(list, start, end, unset);
    while locations != []
      invariant Mirrors(distance, dist) && Searching(list, dist, locations, bestPath, start, end, unset, done)
      decreases |unset|, |locations|
    {
      ghost var unset0 := unset;
      locations, bestPath, dist, unset, done := Visit(list, heights, distance, locations, bestPath, start, end, dist, unset, done);
      if unset < unset0 {
        assert unset0 == unset + (unset0 - unset);
      }
    }
    if OneMark(list, 'E', end) {
      SearchDone(list, dist, end, done);
    }
  }

  // ---------------------------------------------------------------------------
  // The answers

  /** A cell of height 0 that the search gave a distance. */
  ghost predicate Lowland(heights: array2<int>, distance: array2<int>, c: Coord)
    reads heights, distance
  {
    At(heights, c) == 0 && At(distance, c) != -1
  }

  /**
   * The last loop of `ExecuteCoreAsync`: the smallest distance of a cell of
   * height 0, or `int.MaxValue` when no such cell has a distance.
   */
  method Trail(heights: array2<int>, distance: array2<int>) returns (trail: int)
    requires heights.Length0 == distance.Length0 && heights.Length1 == distance.Length1
    ensures forall c :: Lowland(heights, distance, c) ==> trail <= At(distance, c)
    ensures trail == 0x7fff_ffff || exists c :: Lowland(heights, distance, c) && At(distance, c) == trail
    ensures trail <= 0x7fff_ffff
  {
    trail := 0x7fff_ffff;
    for i0 := 0 to heights.Length0
      invariant forall c :: Lowland(heights, distance, c) && c.row < i0 ==> trail <= At(distance, c)
      invariant trail == 0x7fff_ffff || exists c :: Lowland(heights, distance, c) && At(distance, c) == trail
      invariant trail <= 0x7fff_ffff
    {
      for i1 := 0 to heights.Length1
        invariant forall c :: Lowland(heights, distance, c) && Before(c.row, c.column, i0, i1) ==> trail <= At(distance, c)
        invariant trail == 0x7fff_ffff || exists c :: Lowland(heights, distance, c) && At(distance, c) == trail
        invariant trail <= 0x7fff_ffff
      {
        var height := heights[i0, i1];
        if height != 0 {
          continue;
        }
        if distance[i0, i1] < trail && distance[i0, i1] != -1 {
          trail := distance[i0, i1];
          assert Lowland(heights, distance, Coord(i0, i1));
        }
      }
    }
  }

  /**
   * `t` is the fewest steps from `end` to any cell of height 0 (an `a` or the
   * `S`), or `int.MaxValue` when no such cell is reached.
   */
  ghost predicate Lowest(list: seq<string>, end: Coord, t: int)
    requires Rect(list)
  {
    (forall c, d :: InMap(list, c) && HeightAt(list, c) == 0 && Shortest(list, end, c, d) ==> t <= d) &&
    (t == 0x7fff_ffff || exists c :: InMap(list, c) && HeightAt(list, c) == 0 && Shortest(list, end, c, t))
  }

  /** The fewest steps to a cell are unique. */
  lemma ShortestUnique(list: seq<string>, end: Coord, c: Coord, d1: int, d2: int)
    requires Rect(list) && Shortest(list, end, c, d1) && Shortest(list, end, c, d2)
    ensures d1 == d2
  {
    var cs1 :| Walk(list, cs1, end) && cs1[0] == c && |cs1| == d1 + 1;
    var cs2 :| Walk(list, cs2, end) && cs2[0] == c && |cs2| == d2 + 1;
  }

  /** When a mark occurs once, the last one read is that one. */
  lemma LastIsOnly(list: seq<string>, ch: char, at: Coord, m: Coord)
    requires Rect(list) && LastRead(list, ch, at, |list|, 0) && OneMark(list, ch, m)
    ensures at == m
  {
    assert Before(m.row, m.column, |list|, 0);
  }

  /** The smallest distance of a cell of height 0, once the search is done with a single `E`, is the fewest steps. */
  lemma {:induction false} TrailIsLowest(list: seq<string>, heights: array2<int>, distance: array2<int>,
                                         dist: Coord -> int, end: Coord, trail: int)
    requires Rect(list) && Heights(list, heights) && Mirrors(distance, dist)
    requires forall c :: InMap(list, c) ==>
      (dist(c) == -1 <==> !Reachable(list, end, c)) && (dist(c) != -1 ==> Shortest(list, end, c, dist(c)))
    requires forall c :: Lowland(heights, distance, c) ==> trail <= At(distance, c)
    requires trail == 0x7fff_ffff || exists c :: Lowland(heights, distance, c) && At(distance, c) == trail
    ensures Lowest(list, end, trail)
  {
    forall c, d | InMap(list, c) && HeightAt(list, c) == 0 && Shortest(list, end, c, d)
      ensures trail <= d
    {
      var cs :| Walk(list, cs, end) && cs[0] == c && |cs| == d + 1;
      assert Reachable(list, end, c);
      ShortestUnique(list, end, c, d, dist(c));
      assert Lowland(heights, distance, c);
    }
    if trail != 0x7fff_ffff {
      var c :| Lowland(heights, distance, c) && At(distance, c) == trail;
      assert InMap(list, c) && HeightAt(list, c) == 0;
    }
  }

  /**
   * `ExecuteCoreAsync`: read the map, search from `E`, and answer with the
   * length of the path that reached `S` and the best trail. An empty input
   * and a line shorter than the first fail as reading does; a start the
   * search never reached fails on `bestPath.Length` with
   * `NullReferenceException`. With a single `S` and a single `E`, the answers
   * are the fewest steps from `S` to `E` and from any height-0 cell to `E`.
   */
  method Execute(list: seq<string>) returns (r: Result<(int, int)>)
    ensures list == [] ==> r == Failure(ArgumentOutOfRangeException)
    ensures list != [] && !Rect(list) ==> r == Failure(IndexOutOfRangeException)
    ensures Rect(list) ==> r.Success? || r == Failure(NullReferenceException)
    ensures forall e, s :: Rect(list) && OneMark(list, 'E', e) && OneMark(list, 'S', s) ==>
      (r.Success? <==> Reachable(list, e, s)) &&
      (r.Success? ==> Shortest(list, e, s, r.value.0) && Lowest(list, e, r.value.1))
  {
    var loaded := Load(list);
    if loaded.Failure? {
      return Failure(loaded.error);
    }
    var g := loaded.value;
    assert Rect(list);
    assert Heights(list, g.heights) by {
      forall c | InMap(list, c)
        ensures At(g.heights, c) == HeightAt(list, c)
      {
      }
    }
    assert Mirrors(g.distance, Initial(list));
    assert |list[0]| > 0 ==> InMap(list, g.end);
    var bestPath, dist := Search(list, g.heights, g.distance, g.start, g.end);
    if bestPath.None? {
      r := Failure(NullReferenceException);
    } else {
      var trail := Trail(g.heights, g.distance);
      r := Success((Length(bestPath.value), trail));
    }
    forall e, s | OneMark(list, 'E', e) && OneMark(list, 'S', s)
      ensures (r.Success? <==> Reachable(list, e, s))
      ensures r.Success? ==> Shortest(list, e, s, r.value.0) && Lowest(list, e, r.value.1)
    {
      LastIsOnly(list, 'E', g.end, e);
      LastIsOnly(list, 'S', g.start, s);
      if r.Success? {
        TrailIsLowest(list, g.heights, g.distance, dist, e, r.value.1);
      }
    }
  }
}
