/**
 * Day 8: the tree-height grid. Every digit of the input is a tree; a tree is
 * visible when, along at least one of the four directions, every tree up to
 * the edge is strictly shorter. Its scenic score multiplies the four viewing
 * distances, each counting the trees seen up to and including the first one
 * at least as tall. The loader fills a 2-D array from the lines; the survey
 * fills a `visible` and a `score` array cell by cell.
 */
module Problem8 {
  import opened Wrappers
  import opened Numerics
  import opened Text
  import Helpers

  /** `int.Parse` of a character that is not a decimal digit. */
  const FormatError := FormatException
  /** A row longer than the first one writes past the array's second dimension. */
  const IndexOutOfRange := IndexOutOfRangeException
  /** `list[0]` of an empty input. */
  const ArgumentOutOfRange := ArgumentOutOfRangeException
  /** `Max` of no scores. */
  const InvalidOperation := InvalidOperationException

  /** Tree heights, row by row. */
  type Grid = seq<seq<int>>

  function Width(g: Grid): nat
  {
    if |g| == 0 then 0 else |g[0]|
  }

  predicate Rectangular(g: Grid)
  {
    forall r :: 0 <= r < |g| ==> |g[r]| == Width(g)
  }

  predicate InGrid(g: Grid, r: int, c: int)
  {
    Rectangular(g) && 0 <= r < |g| && 0 <= c < Width(g)
  }

  /** The heights held by a 2-D array, as a grid. */
  function Cells(h: array2<int>): (g: Grid)
    reads h
    ensures |g| == h.Length0
    ensures forall r :: 0 <= r < |g| ==> |g[r]| == h.Length1
    ensures Rectangular(g)
    ensures forall r, c :: 0 <= r < h.Length0 && 0 <= c < h.Length1 ==> g[r][c] == h[r, c]
  {
    seq(h.Length0, r requires 0 <= r < h.Length0 reads h => seq(h.Length1, c requires 0 <= c < h.Length1 reads h => h[r, c]))
  }

  /** The array holds the grid `g`. */
  predicate Holds(h: array2<int>, g: Grid)
    reads h
  {
    |g| == h.Length0 && Rectangular(g) && (|g| > 0 ==> Width(g) == h.Length1) &&
    forall r, c :: 0 <= r < h.Length0 && 0 <= c < h.Length1 ==> g[r][c] == h[r, c]
  }

  // ---------------------------------------------------------------------
  // Loading the grid
  // ---------------------------------------------------------------------

  /**
   * What the parse loop meets in `row` from column `c` on. Each character is
   * parsed before it is stored, so a non-digit past the width is reported as
   * a format error, and a digit past the width as an index error.
   */
  function RowError(row: string, width: nat, c: nat): (e: Option<Exception>)
    ensures e.Some? ==> e.value in {FormatError, IndexOutOfRange}
    decreases |row| - c
  {
    if c >= |row| then None
    else if !IsDigit(row[c]) then Some(FormatError)
    else if c >= width then Some(IndexOutOfRange)
    else RowError(row, width, c + 1)
  }

  /** The first error met in the rows from `r` on. */
  function LinesError(lines: seq<string>, width: nat, r: nat): (e: Option<Exception>)
    ensures e.Some? ==> e.value in {FormatError, IndexOutOfRange}
    decreases |lines| - r
  {
    if r >= |lines| then None
    else if RowError(lines[r], width, 0).Some? then RowError(lines[r], width, 0)
    else LinesError(lines, width, r + 1)
  }

  /** The height stored for column `c` of a row: its digit, or the array's initial 0 past a short row's end. */
  function HeightAt(row: string, c: int): (h: int)
    ensures 0 <= h <= 9
  {
    if 0 <= c < |row| && IsDigit(row[c]) then DigitOf(row[c]) else 0
  }

  /** The grid the loader builds: as many rows as lines, as wide as the first line. */
  function Heights(lines: seq<string>): (r: Result<Grid>)
    ensures r.Success? ==> |lines| > 0 && |r.value| == |lines| && Rectangular(r.value) && Width(r.value) == |lines[0]|
    ensures r.Failure? ==> r.error in {ArgumentOutOfRange, FormatError, IndexOutOfRange}
  {
    if |lines| == 0 then Failure(ArgumentOutOfRange)
    else match LinesError(lines, |lines[0]|, 0)
      case Some(e) => Failure(e)
      case None => Success(seq(|lines|, i requires 0 <= i < |lines| => seq(|lines[0]|, j => HeightAt(lines[i], j))))
  }

  /** Every character of `row` from column `c` on is a digit inside the width. */
  predicate LoadsCleanly(row: string, width: nat, c: nat)
  {
    forall k :: c <= k < |row| ==> IsDigit(row[k]) && k < width
  }

  /** A row loads without error from column `c` on iff each remaining character is a digit inside the width. */
  lemma {:induction false} RowErrorNone(row: string, width: nat, c: nat)
    ensures RowError(row, width, c).None? <==> LoadsCleanly(row, width, c)
    decreases |row| - c
  {
    if c < |row| {
      RowErrorNone(row, width, c + 1);
      if IsDigit(row[c]) && c < width {
        assert RowError(row, width, c) == RowError(row, width, c + 1);
        LoadsCleanlyStep(row, width, c);
      } else {
        assert RowError(row, width, c).Some?;
        assert !(IsDigit(row[c]) && c < width);
      }
    }
  }

  lemma LoadsCleanlyStep(row: string, width: nat, c: nat)
    requires c < |row| && IsDigit(row[c]) && c < width
    ensures LoadsCleanly(row, width, c) <==> LoadsCleanly(row, width, c + 1)
  {
    if LoadsCleanly(row, width, c + 1) {
      forall k | c <= k < |row|
        ensures IsDigit(row[k]) && k < width
      {
        if k > c {
          assert c + 1 <= k < |row|;
        }
      }
    } else {
      var k :| c + 1 <= k < |row| && !(IsDigit(row[k]) && k < width);
      assert c <= k < |row|;
    }
  }



  /** No row from `r` on has an error iff each of them loads cleanly. */
  lemma {:induction false} LinesErrorNone(lines: seq<string>, width: nat, r: nat)
    ensures LinesError(lines, width, r).None? <==> forall i :: r <= i < |lines| ==> RowError(lines[i], width, 0).None?
    decreases |lines| - r
  {
    if r < |lines| {
      LinesErrorNone(lines, width, r + 1);
    }
  }

  /** The input loads iff there is a line, every line is all digits, and no line is longer than the first. */
  lemma HeightsSucceed(lines: seq<string>)
    ensures Heights(lines).Success? <==>
      |lines| > 0 && forall i :: 0 <= i < |lines| ==> AllDigits(lines[i]) && |lines[i]| <= |lines[0]|
  {
    if |lines| > 0 {
      var w := |lines[0]|;
      LinesErrorNone(lines, w, 0);
      forall i | 0 <= i < |lines|
        ensures RowError(lines[i], w, 0).None? <==> AllDigits(lines[i]) && |lines[i]| <= w
      {
        RowErrorNone(lines[i], w, 0);
        if |lines[i]| > w {
          assert !(IsDigit(lines[i][w]) && w < w);
        }
      }
    }
  }

  /** Every loaded height is a single decimal digit, the one at that place of the input or 0 past a short line. */
  lemma HeightsAreDigits(lines: seq<string>, i: nat, j: nat)
    requires Heights(lines).Success? && i < |lines| && j < |lines[0]|
    ensures Heights(lines).value[i][j] == HeightAt(lines[i], j)
    ensures 0 <= Heights(lines).value[i][j] <= 9
    ensures j < |lines[i]| ==> IsDigit(lines[i][j]) && Heights(lines).value[i][j] == DigitOf(lines[i][j])
  {
    HeightsSucceed(lines);
  }

  lemma SameGrid(a: Grid, b: Grid)
    requires |a| == |b|
    requires forall i :: 0 <= i < |a| ==> |a[i]| == |b[i]|
    requires forall i, j :: 0 <= i < |a| && 0 <= j < |a[i]| ==> a[i][j] == b[i][j]
    ensures a == b
  {
    forall i | 0 <= i < |a|
      ensures a[i] == b[i]
    {
    }
  }

  /** The nested parse loop: it stops at the first error and otherwise holds the loaded grid. */
  method Load(lines: seq<string>) returns (height: array2<int>, error: Option<Exception>)
    ensures error.Some? <==> Heights(lines).Failure?
    ensures error.Some? ==> error.value == Heights(lines).error
    ensures error.None? ==> Heights(lines) == Success(Cells(height))
  {
    error := None;
    if |lines| == 0 {
      height := new int[0, 0];
      return height, Some(ArgumentOutOfRange);
    }
    var w := |lines[0]|;
    height := new int[|lines|, w]((i, j) => 0);
    var r := 0;
    while r < |lines|
      invariant 0 <= r <= |lines|
      invariant height.Length0 == |lines| && height.Length1 == w
      invariant LinesError(lines, w, 0) == LinesError(lines, w, r)
      invariant forall i, j :: 0 <= i < r && 0 <= j < w ==> height[i, j] == HeightAt(lines[i], j)
      invariant forall i, j :: r <= i < |lines| && 0 <= j < w ==> height[i, j] == 0
    {
      var row := lines[r];
      var c := 0;
      while c < |row|
        invariant 0 <= c <= |row|
        invariant RowError(row, w, 0) == RowError(row, w, c)
        invariant forall i, j :: 0 <= i < r && 0 <= j < w ==> height[i, j] == HeightAt(lines[i], j)
        invariant forall j :: 0 <= j < c && j < w ==> height[r, j] == HeightAt(row, j)
        invariant forall j :: c <= j < w ==> height[r, j] == 0
        invariant forall i, j :: r < i < |lines| && 0 <= j < w ==> height[i, j] == 0
      {
        if !IsDigit(row[c]) {
          return height, Some(FormatError);
        }
        if c >= w {
          return height, Some(IndexOutOfRange);
        }
        height[r, c] := DigitOf(row[c]);
        c := c + 1;
      }
      assert RowError(row, w, 0).None?;
      r := r + 1;
    }
    SameGrid(Heights(lines).value, Cells(height));
  }

  // ---------------------------------------------------------------------
  // Visibility and viewing distances
  // ---------------------------------------------------------------------

  datatype Direction = Up | Down | Left | Right

  /** `Any(i => height[i, c] >= x)` over the rows `lo` to `hi - 1` of column `c`, scanned in order. */
  predicate AnyInColumn(g: Grid, c: int, lo: int, hi: int, x: int)
    requires Rectangular(g) && 0 <= c < Width(g) && 0 <= lo && hi <= |g|
    decreases hi - lo
  {
    lo < hi && (g[lo][c] >= x || AnyInColumn(g, c, lo + 1, hi, x))
  }

  /** `Any(i => height[r, i] >= x)` over the columns `lo` to `hi - 1` of row `r`, scanned in order. */
  predicate AnyInRow(g: Grid, r: int, lo: int, hi: int, x: int)
    requires Rectangular(g) && 0 <= r < |g| && 0 <= lo && hi <= Width(g)
    decreases hi - lo
  {
    lo < hi && (g[r][lo] >= x || AnyInRow(g, r, lo + 1, hi, x))
  }

  /** The scan finds a tree at least as tall iff the column holds one in that range. */
  lemma {:induction false} AnyInColumnExists(g: Grid, c: int, lo: int, hi: int, x: int)
    requires Rectangular(g) && 0 <= c < Width(g) && 0 <= lo && hi <= |g|
    ensures AnyInColumn(g, c, lo, hi, x) <==> exists i :: lo <= i < hi && g[i][c] >= x
    decreases hi - lo
  {
    if lo < hi {
      AnyInColumnExists(g, c, lo + 1, hi, x);
      if exists i :: lo <= i < hi && g[i][c] >= x {
        var i :| lo <= i < hi && g[i][c] >= x;
        if i != lo {
          assert lo + 1 <= i < hi && g[i][c] >= x;
        }
      }
    }
  }

  /** The scan finds a tree at least as tall iff the row holds one in that range. */
  lemma {:induction false} AnyInRowExists(g: Grid, r: int, lo: int, hi: int, x: int)
    requires Rectangular(g) && 0 <= r < |g| && 0 <= lo && hi <= Width(g)
    ensures AnyInRow(g, r, lo, hi, x) <==> exists i :: lo <= i < hi && g[r][i] >= x
    decreases hi - lo
  {
    if lo < hi {
      AnyInRowExists(g, r, lo + 1, hi, x);
      if exists i :: lo <= i < hi && g[r][i] >= x {
        var i :| lo <= i < hi && g[r][i] >= x;
        if i != lo {
          assert lo + 1 <= i < hi && g[r][i] >= x;
        }
      }
    }
  }

  /** The `Any` test of the rows above, the rows below, the columns left or the columns right of (r, c). */
  predicate Blocked(g: Grid, r: int, c: int, d: Direction)
    requires InGrid(g, r, c)
  {
    var x := g[r][c];
    match d
    case Up => AnyInColumn(g, c, 0, r, x)
    case Down => AnyInColumn(g, c, r + 1, |g|, x)
    case Left => AnyInRow(g, r, 0, c, x)
    case Right => AnyInRow(g, r, c + 1, Width(g), x)
  }

  /** Direction `d` is blocked iff some tree on that side, in the same row or column, is at least as tall. */
  lemma BlockedExists(g: Grid, r: int, c: int, d: Direction)
    requires InGrid(g, r, c)
    ensures Blocked(g, r, c, d) <==> match d
      case Up => exists i :: 0 <= i < r && g[i][c] >= g[r][c]
      case Down => exists i :: r + 1 <= i < |g| && g[i][c] >= g[r][c]
      case Left => exists i :: 0 <= i < c && g[r][i] >= g[r][c]
      case Right => exists i :: c + 1 <= i < Width(g) && g[r][i] >= g[r][c]
  {
    match d
    case Up => AnyInColumnExists(g, c, 0, r, g[r][c]);
    case Down => AnyInColumnExists(g, c, r + 1, |g|, g[r][c]);
    case Left => AnyInRowExists(g, r, 0, c, g[r][c]);
    case Right => AnyInRowExists(g, r, c + 1, Width(g), g[r][c]);
  }

  /** The tree at (r, c) is visible: some direction holds no tree at least as tall. */
  predicate Visible(g: Grid, r: int, c: int)
    requires InGrid(g, r, c)
  {
    !Blocked(g, r, c, Up) || !Blocked(g, r, c, Down) || !Blocked(g, r, c, Left) || !Blocked(g, r, c, Right)
  }

  /** How many trees stand between (r, c) and the edge of the grid in direction `d`. */
  function Reach(g: Grid, r: int, c: int, d: Direction): nat
    requires InGrid(g, r, c)
  {
    match d
    case Up => r
    case Down => |g| - 1 - r
    case Left => c
    case Right => Width(g) - 1 - c
  }

  /** The `k`-th tree seen from (r, c) looking in direction `d`, nearest first. */
  function TreeAt(g: Grid, r: int, c: int, d: Direction, k: int): int
    requires InGrid(g, r, c) && 0 <= k < Reach(g, r, c, d)
  {
    match d
    case Up => g[r - 1 - k][c]
    case Down => g[r + 1 + k][c]
    case Left => g[r][c - 1 - k]
    case Right => g[r][c + 1 + k]
  }

  /**
   * The counting loop from the `k`-th tree on: trees are counted up to and
   * including the first one at least as tall as the tree at (r, c), or to the edge.
   */
  function ViewFrom(g: Grid, r: int, c: int, d: Direction, k: nat): (n: nat)
    requires InGrid(g, r, c) && k <= Reach(g, r, c, d)
    ensures k + n <= Reach(g, r, c, d)
    decreases Reach(g, r, c, d) - k
  {
    if k == Reach(g, r, c, d) then 0
    else if TreeAt(g, r, c, d, k) >= g[r][c] then 1
    else 1 + ViewFrom(g, r, c, d, k + 1)
  }

  /** The viewing distance from (r, c) in direction `d`. */
  function Distance(g: Grid, r: int, c: int, d: Direction): nat
    requires InGrid(g, r, c)
  {
    ViewFrom(g, r, c, d, 0)
  }

  /**
   * What the count from the `k`-th tree means: it is 0 exactly at the edge,
   * every tree it passes is shorter, and unless it runs to the edge it stops
   * on a tree at least as tall.
   */
  lemma {:induction false} ViewFromStops(g: Grid, r: int, c: int, d: Direction, k: nat)
    requires InGrid(g, r, c) && k <= Reach(g, r, c, d)
    ensures var n := ViewFrom(g, r, c, d, k);
      && (n == 0 <==> k == Reach(g, r, c, d))
      && (forall j :: k <= j < k + n - 1 ==> TreeAt(g, r, c, d, j) < g[r][c])
      && (k + n < Reach(g, r, c, d) ==> TreeAt(g, r, c, d, k + n - 1) >= g[r][c])
    decreases Reach(g, r, c, d) - k
  {
    if k < Reach(g, r, c, d) && TreeAt(g, r, c, d, k) < g[r][c] {
      ViewFromStops(g, r, c, d, k + 1);
    }
  }

  /** The three properties of `ViewFromStops` pin the count down: any count that has them is `ViewFrom`. */
  lemma {:induction false} ViewFromUnique(g: Grid, r: int, c: int, d: Direction, k: nat, n: nat)
    requires InGrid(g, r, c) && k + n <= Reach(g, r, c, d)
    requires n == 0 <==> k == Reach(g, r, c, d)
    requires forall j :: k <= j < k + n - 1 ==> TreeAt(g, r, c, d, j) < g[r][c]
    requires k + n < Reach(g, r, c, d) ==> TreeAt(g, r, c, d, k + n - 1) >= g[r][c]
    ensures n == ViewFrom(g, r, c, d, k)
    decreases Reach(g, r, c, d) - k
  {
    if k < Reach(g, r, c, d) && TreeAt(g, r, c, d, k) < g[r][c] {
      ViewFromUnique(g, r, c, d, k + 1, n - 1);
    }
  }

  /** Looking along direction `d`, the `Any` test finds a tree at least as tall iff the line of sight holds one. */
  lemma BlockedAlongLine(g: Grid, r: int, c: int, d: Direction)
    requires InGrid(g, r, c)
    ensures Blocked(g, r, c, d) <==> exists k :: 0 <= k < Reach(g, r, c, d) && TreeAt(g, r, c, d, k) >= g[r][c]
  {
    BlockedExists(g, r, c, d);
    var x := g[r][c];
    if Blocked(g, r, c, d) {
      match d
      case Up =>
        var i :| 0 <= i < r && g[i][c] >= x;
        assert TreeAt(g, r, c, d, r - 1 - i) >= x;
      case Down =>
        var i :| r + 1 <= i < |g| && g[i][c] >= x;
        assert TreeAt(g, r, c, d, i - r - 1) >= x;
      case Left =>
        var i :| 0 <= i < c && g[r][i] >= x;
        assert TreeAt(g, r, c, d, c - 1 - i) >= x;
      case Right =>
        var i :| c + 1 <= i < Width(g) && g[r][i] >= x;
        assert TreeAt(g, r, c, d, i - c - 1) >= x;
    }
    if k :| 0 <= k < Reach(g, r, c, d) && TreeAt(g, r, c, d, k) >= x {
      match d
      case Up => assert g[r - 1 - k][c] >= x;
      case Down => assert g[r + 1 + k][c] >= x;
      case Left => assert g[r][c - 1 - k] >= x;
      case Right => assert g[r][c + 1 + k] >= x;
    }
  }

  /** From (r, c) in direction `d` the view reaches the edge, and the tree at the edge is shorter. */
  predicate SeesEdge(g: Grid, r: int, c: int, d: Direction)
    requires InGrid(g, r, c)
  {
    var n := Reach(g, r, c, d);
    Distance(g, r, c, d) == n && (n == 0 || TreeAt(g, r, c, d, n - 1) < g[r][c])
  }

  /** Nothing blocks direction `d` iff the viewing distance that way runs to the edge past a shorter edge tree. */
  lemma ClearIffSeesEdge(g: Grid, r: int, c: int, d: Direction)
    requires InGrid(g, r, c)
    ensures !Blocked(g, r, c, d) <==> SeesEdge(g, r, c, d)
  {
    BlockedAlongLine(g, r, c, d);
    ViewFromStops(g, r, c, d, 0);
    if SeesEdge(g, r, c, d) && Blocked(g, r, c, d) {
      assert false;
    }
  }

  /** A tree is visible iff its view in some direction reaches the edge past a shorter edge tree. */
  lemma VisibleIffSeesEdge(g: Grid, r: int, c: int)
    requires InGrid(g, r, c)
    ensures Visible(g, r, c) <==> exists d :: SeesEdge(g, r, c, d)
  {
    ClearIffSeesEdge(g, r, c, Up);
    ClearIffSeesEdge(g, r, c, Down);
    ClearIffSeesEdge(g, r, c, Left);
    ClearIffSeesEdge(g, r, c, Right);
    if exists d :: SeesEdge(g, r, c, d) {
      var d :| SeesEdge(g, r, c, d);
      match d
      case Up => assert !Blocked(g, r, c, Up);
      case Down => assert !Blocked(g, r, c, Down);
      case Left => assert !Blocked(g, r, c, Left);
      case Right => assert !Blocked(g, r, c, Right);
    }
  }

  predicate OnEdge(g: Grid, r: int, c: int)
  {
    r == 0 || c == 0 || r == |g| - 1 || c == Width(g) - 1
  }

  /** Edge trees are always visible, and some viewing distance of theirs is 0; inner trees see at least one tree each way. */
  lemma EdgeTrees(g: Grid, r: int, c: int)
    requires InGrid(g, r, c)
    ensures OnEdge(g, r, c) ==> Visible(g, r, c)
    ensures OnEdge(g, r, c) <==> exists d :: Distance(g, r, c, d) == 0
  {
    if r == 0 {
      assert Distance(g, r, c, Up) == 0 && !Blocked(g, r, c, Up);
    } else if c == 0 {
      assert Distance(g, r, c, Left) == 0 && !Blocked(g, r, c, Left);
    } else if r == |g| - 1 {
      assert Distance(g, r, c, Down) == 0 && !Blocked(g, r, c, Down);
    } else if c == Width(g) - 1 {
      assert Distance(g, r, c, Right) == 0 && !Blocked(g, r, c, Right);
    } else {
      forall d
        ensures Distance(g, r, c, d) != 0
      {
        assert Reach(g, r, c, d) > 0;
      }
    }
  }

  /** `fs[0] * fs[1] * ...` multiplied left to right in unchecked 32-bit arithmetic. */
  function WrappedProduct(fs: seq<int>): int
    requires |fs| >= 1
  {
    if |fs| == 1 then fs[0] else Wrap32(WrappedProduct(fs[..|fs| - 1]) * fs[|fs| - 1])
  }

  /** The exact product of `fs`. */
  function ExactProduct(fs: seq<int>): int
  {
    if |fs| == 0 then 1 else ExactProduct(fs[..|fs| - 1]) * fs[|fs| - 1]
  }

  /** A zero factor anywhere makes both the wrapped and the exact product 0. */
  lemma {:induction false} ProductZero(fs: seq<int>, i: int)
    requires 0 <= i < |fs| && fs[i] == 0
    ensures WrappedProduct(fs) == 0 && ExactProduct(fs) == 0
    decreases |fs|
  {
    if i < |fs| - 1 {
      ProductZero(fs[..|fs| - 1], i);
    }
  }

  lemma {:induction false} ExactProductNonNegative(fs: seq<int>)
    requires forall i :: 0 <= i < |fs| ==> fs[i] >= 0
    ensures ExactProduct(fs) >= 0
    decreases |fs|
  {
    if |fs| > 0 {
      ExactProductNonNegative(fs[..|fs| - 1]);
    }
  }

  lemma ProductGrows(p: int, f: int)
    requires p >= 0 && f >= 1
    ensures p <= p * f
  {
  }

  /** With non-negative factors whose exact product fits in an `int`, no step wraps. */
  lemma {:induction false} ProductExact(fs: seq<int>)
    requires |fs| >= 1 && forall i :: 0 <= i < |fs| ==> fs[i] >= 0
    requires IsInt32(ExactProduct(fs))
    ensures WrappedProduct(fs) == ExactProduct(fs)
    decreases |fs|
  {
    var init, last := fs[..|fs| - 1], fs[|fs| - 1];
    if |fs| == 1 {
      assert ExactProduct(init) == 1;
    } else if last == 0 {
      ProductZero(fs, |fs| - 1);
    } else {
      ExactProductNonNegative(init);
      ProductGrows(ExactProduct(init), last);
      ProductExact(init);
    }
  }

  /** Four non-negative factors whose product fits in an `int` multiply without wrapping. */
  lemma FourFactorsExact(a: int, b: int, c: int, d: int)
    requires a >= 0 && b >= 0 && c >= 0 && d >= 0 && IsInt32(a * b * c * d)
    ensures WrappedProduct([a, b, c, d]) == a * b * c * d
  {
    var fs := [a, b, c, d];
    assert ExactProduct([a]) == a by {
      assert [a][..0] == [];
    }
    assert ExactProduct([a, b]) == a * b by {
      assert [a, b][..1] == [a];
    }
    assert ExactProduct([a, b, c]) == a * b * c by {
      assert [a, b, c][..2] == [a, b];
    }
    assert fs[..3] == [a, b, c];
    ProductExact(fs);
  }

  /** `up * down * left * right`. */
  function Scenic(g: Grid, r: int, c: int): int
    requires InGrid(g, r, c)
  {
    WrappedProduct([Distance(g, r, c, Up), Distance(g, r, c, Down), Distance(g, r, c, Left), Distance(g, r, c, Right)])
  }

  /** Edge trees score 0; any other tree scores the exact product of its four distances whenever that fits in an `int`. */
  lemma ScenicScore(g: Grid, r: int, c: int)
    requires InGrid(g, r, c)
    ensures OnEdge(g, r, c) ==> Scenic(g, r, c) == 0
    ensures var p := Distance(g, r, c, Up) * Distance(g, r, c, Down) * Distance(g, r, c, Left) * Distance(g, r, c, Right);
      IsInt32(p) ==> Scenic(g, r, c) == p
  {
    var up, down, left, right := Distance(g, r, c, Up), Distance(g, r, c, Down), Distance(g, r, c, Left), Distance(g, r, c, Right);
    var fs := [up, down, left, right];
    EdgeTrees(g, r, c);
    if OnEdge(g, r, c) {
      var d :| Distance(g, r, c, d) == 0;
      match d
      case Up => ProductZero(fs, 0);
      case Down => ProductZero(fs, 1);
      case Left => ProductZero(fs, 2);
      case Right => ProductZero(fs, 3);
    }
    if IsInt32(up * down * left * right) {
      FourFactorsExact(up, down, left, right);
    }
  }

  // ---------------------------------------------------------------------
  // The survey loops
  // ---------------------------------------------------------------------

  /** Counting upwards from (r, c): the loop over rows r - 1 down to 0. */
  method LookUp(height: array2<int>, ghost g: Grid, r: nat, c: nat) returns (up: nat)
    requires Holds(height, g) && r < height.Length0 && c < height.Length1
    ensures up == Distance(g, r, c, Up)
  {
    up := 0;
    var i: int := r - 1;
    while i >= 0
      invariant -1 <= i < r && up == r - 1 - i
      invariant Distance(g, r, c, Up) == up + ViewFrom(g, r, c, Up, up)
    {
      up := up + 1;
      if height[i, c] >= height[r, c] {
        return;
      }
      i := i - 1;
    }
  }

  /** Counting leftwards from (r, c): the loop over columns c - 1 down to 0. */
  method LookLeft(height: array2<int>, ghost g: Grid, r: nat, c: nat) returns (left: nat)
    requires Holds(height, g) && r < height.Length0 && c < height.Length1
    ensures left == Distance(g, r, c, Left)
  {
    left := 0;
    var i: int := c - 1;
    while i >= 0
      invariant -1 <= i < c && left == c - 1 - i
      invariant Distance(g, r, c, Left) == left + ViewFrom(g, r, c, Left, left)
    {
      left := left + 1;
      if height[r, i] >= height[r, c] {
        return;
      }
      i := i - 1;
    }
  }

  /** Counting downwards from (r, c): the loop over rows r + 1 to the last. */
  method LookDown(height: array2<int>, ghost g: Grid, r: nat, c: nat) returns (down: nat)
    requires Holds(height, g) && r < height.Length0 && c < height.Length1
    ensures down == Distance(g, r, c, Down)
  {
    down := 0;
    var i := r + 1;
    while i < height.Length0
      invariant r + 1 <= i <= height.Length0 && down == i - r - 1
      invariant Distance(g, r, c, Down) == down + ViewFrom(g, r, c, Down, down)
    {
      down := down + 1;
      if height[i, c] >= height[r, c] {
        return;
      }
      i := i + 1;
    }
  }

  /** Counting rightwards from (r, c): the loop over columns c + 1 to the last. */
  method LookRight(height: array2<int>, ghost g: Grid, r: nat, c: nat) returns (right: nat)
    requires Holds(height, g) && r < height.Length0 && c < height.Length1
    ensures right == Distance(g, r, c, Right)
  {
    right := 0;
    var i := c + 1;
    while i < height.Length1
      invariant c + 1 <= i <= height.Length1 && right == i - c - 1
      invariant Distance(g, r, c, Right) == right + ViewFrom(g, r, c, Right, right)
    {
      right := right + 1;
      if height[r, i] >= height[r, c] {
        return;
      }
      i := i + 1;
    }
  }

  /** One pass of the survey's loop body: the visibility test and the four counting loops of one tree. */
  method SurveyCell(height: array2<int>, ghost g: Grid, r: nat, c: nat) returns (visible: bool, score: int)
    requires Holds(height, g) && r < height.Length0 && c < height.Length1
    ensures visible == Visible(g, r, c)
    ensures score == Scenic(g, r, c)
  {
    var x := height[r, c];
    var clearUp := !(exists i | 0 <= i < r :: height[i, c] >= x);
    BlockedExists(g, r, c, Up);
    assert clearUp == !Blocked(g, r, c, Up);
    var clearDown := !(exists i | r + 1 <= i < height.Length0 :: height[i, c] >= x);
    BlockedExists(g, r, c, Down);
    assert clearDown == !Blocked(g, r, c, Down);
    var clearLeft := !(exists i | 0 <= i < c :: height[r, i] >= x);
    BlockedExists(g, r, c, Left);
    assert clearLeft == !Blocked(g, r, c, Left);
    var clearRight := !(exists i | c + 1 <= i < height.Length1 :: height[r, i] >= x);
    BlockedExists(g, r, c, Right);
    assert clearRight == !Blocked(g, r, c, Right);
    visible := clearUp || clearDown || clearLeft || clearRight;
    var up: int := LookUp(height, g, r, c);
    var left: int := LookLeft(height, g, r, c);
    var down: int := LookDown(height, g, r, c);
    var right: int := LookRight(height, g, r, c);
    score := WrappedProduct([up, down, left, right]);
  }

  /**
   * The inner loop of the survey: row `r` of `visible` and `score` filled
   * with `seen` and `scenic`, the visibility and scores of that row's trees,
   * and the other rows untouched.
   */
  method SurveyRow(height: array2<int>, ghost g: Grid, visible: array2<bool>, score: array2<int>, r: nat,
                   ghost seen: seq<bool>, ghost scenic: seq<int>)
    requires Holds(height, g) && score != height
    requires r < height.Length0
    requires visible.Length0 == score.Length0 == height.Length0
    requires visible.Length1 == score.Length1 == height.Length1 == |seen| == |scenic|
    requires forall j {:trigger Visible(g, r, j)} :: 0 <= j < |seen| ==> seen[j] == Visible(g, r, j)
    requires forall j {:trigger Scenic(g, r, j)} :: 0 <= j < |scenic| ==> scenic[j] == Scenic(g, r, j)
    modifies visible, score
    ensures forall j :: 0 <= j < height.Length1 ==> visible[r, j] == seen[j] && score[r, j] == scenic[j]
    ensures forall i, j :: 0 <= i < height.Length0 && i != r && 0 <= j < height.Length1 ==>
      visible[i, j] == old(visible[i, j]) && score[i, j] == old(score[i, j])
  {
    for c := 0 to height.Length1
      invariant forall j :: 0 <= j < c ==> visible[r, j] == seen[j] && score[r, j] == scenic[j]
      invariant forall i, j :: 0 <= i < height.Length0 && i != r && 0 <= j < height.Length1 ==>
        visible[i, j] == old(visible[i, j]) && score[i, j] == old(score[i, j])
    {
      var v, s := SurveyCell(height, g, r, c);
      visible[r, c] := v;
      score[r, c] := s;
    }
  }

  /** The survey fills `visible` and `score` for every tree of the grid. */
  method Survey(height: array2<int>) returns (visible: array2<bool>, score: array2<int>)
    ensures fresh(visible) && fresh(score)
    ensures visible.Length0 == score.Length0 == height.Length0
    ensures visible.Length1 == score.Length1 == height.Length1
    ensures forall r, c :: 0 <= r < height.Length0 && 0 <= c < height.Length1 ==>
      visible[r, c] == Visible(Cells(height), r, c) && score[r, c] == Scenic(Cells(height), r, c)
  {
    ghost var g := Cells(height);
    assert Holds(height, g);
    visible := new bool[height.Length0, height.Length1];
    score := new int[height.Length0, height.Length1];
    for r := 0 to height.Length0
      invariant forall i, j :: 0 <= i < r && 0 <= j < height.Length1 ==> visible[i, j] == Visible(g, i, j)
      invariant forall i, j :: 0 <= i < r && 0 <= j < height.Length1 ==> score[i, j] == Scenic(g, i, j)
    {
      ghost var seen := seq(height.Length1, j requires 0 <= j < height.Length1 => Visible(g, r, j));
      ghost var scenic := seq(height.Length1, j requires 0 <= j < height.Length1 => Scenic(g, r, j));
      SurveyRow(height, g, visible, score, r, seen, scenic);
    }
  }

  // ---------------------------------------------------------------------
  // The answers
  // ---------------------------------------------------------------------

  /** A 2-D array enumerated as `Cast<T>()` does: row after row. */
  function Flatten<T>(a: array2<T>): (s: seq<T>)
    reads a
    ensures |s| == a.Length0 * a.Length1
    ensures forall k :: 0 <= k < |s| ==>
      var cell := Helpers.CellOrder(a.Length0, a.Length1)[k];
      s[k] == a[cell.0, cell.1]
  {
    var cells := Helpers.CellOrder(a.Length0, a.Length1);
    seq(|cells|, k requires 0 <= k < |cells| reads a => a[cells[k].0, cells[k].1])
  }

  /** `Count(v => v)`. */
  function Count(s: seq<bool>): (n: nat)
    ensures n <= |s|
  {
    if |s| == 0 then 0 else Count(s[..|s| - 1]) + (if s[|s| - 1] then 1 else 0)
  }

  /** The count is the number of true entries. */
  lemma {:induction false} CountIsTrueEntries(s: seq<bool>)
    ensures Count(s) == multiset(s)[true]
  {
    if |s| > 0 {
      CountIsTrueEntries(s[..|s| - 1]);
      assert s == s[..|s| - 1] + [s[|s| - 1]];
    }
  }

  /** The visibility of every tree, row after row. */
  function VisibleCells(g: Grid): (s: seq<bool>)
    requires Rectangular(g)
    ensures |s| == |g| * Width(g)
  {
    var cells := Helpers.CellOrder(|g|, Width(g));
    seq(|cells|, k requires 0 <= k < |cells| => Visible(g, cells[k].0, cells[k].1))
  }

  /** The scenic score of every tree, row after row. */
  function ScoreCells(g: Grid): (s: seq<int>)
    requires Rectangular(g)
    ensures |s| == |g| * Width(g)
  {
    var cells := Helpers.CellOrder(|g|, Width(g));
    seq(|cells|, k requires 0 <= k < |cells| => Scenic(g, cells[k].0, cells[k].1))
  }

  /** Tree (r, c) stands at position `r * width + c` of the row-major listing. */
  lemma CellListed(g: Grid, r: int, c: int)
    requires InGrid(g, r, c)
    ensures 0 <= r * Width(g) + c < |VisibleCells(g)| == |ScoreCells(g)|
    ensures VisibleCells(g)[r * Width(g) + c] == Visible(g, r, c)
    ensures ScoreCells(g)[r * Width(g) + c] == Scenic(g, r, c)
  {
    Helpers.CellOrderIndex(|g|, Width(g), r, c);
  }

  /** `Max()`: the largest score; an empty sequence throws. */
  function Max(s: seq<int>): (r: Result<int>)
    ensures r.Failure? <==> |s| == 0
    ensures r.Failure? ==> r.error == InvalidOperation
    ensures r.Success? ==> r.value in s && forall k :: 0 <= k < |s| ==> s[k] <= r.value
  {
    if |s| == 0 then Failure(InvalidOperation)
    else if |s| == 1 then Success(s[0])
    else
      var rest := Max(s[1..]).value;
      assert rest in s[1..];
      Success(if s[0] >= rest then s[0] else rest)
  }

  /**
   * The enumeration the program's last line takes the maximum of: the
   * single-value `AsEnumerable` extension applies to the whole score array,
   * so the sequence holds the array itself.
   */
  function ReportedScores(score: array2<int>): (s: seq<array2<int>>)
    ensures |s| == 1
  {
    Helpers.Singleton(score)
  }

  /** However many trees there are, the enumeration has one element, the array itself, so no score is compared. */
  lemma ReportedScoresIsTheArray(score: array2<int>)
    requires score.Length0 * score.Length1 != 1
    ensures |ReportedScores(score)| != score.Length0 * score.Length1
    ensures ReportedScores(score)[0] == score
  {
  }

  lemma MaxBounds(s: seq<int>, k: int)
    requires 0 <= k < |s|
    ensures Max(s).Success? && s[k] <= Max(s).value
  {
  }

  /** The best score is at least the score of every tree. */
  lemma BestBoundsAll(g: Grid, r: int, c: int)
    requires InGrid(g, r, c)
    ensures Max(ScoreCells(g)).Success?
    ensures Scenic(g, r, c) <= Max(ScoreCells(g)).value
  {
    CellListed(g, r, c);
    MaxBounds(ScoreCells(g), r * Width(g) + c);
  }

  /** The two results: the number of visible trees and the best scenic score (throws on an empty grid). */
  datatype Report = Report(visibleCount: nat, best: Result<int>)

  function Expected(lines: seq<string>): Result<Report>
  {
    match Heights(lines)
    case Failure(e) => Failure(e)
    case Success(g) => Success(Report(Count(VisibleCells(g)), Max(ScoreCells(g))))
  }

  /** Load, survey, count the visible trees and take the best score; the load's error is passed on. */
  method Execute(lines: seq<string>) returns (r: Result<Report>)
    ensures r == Expected(lines)
  {
    var height, error := Load(lines);
    if error.Some? {
      return Failure(error.value);
    }
    ghost var g := Cells(height);
    var visible, score := Survey(height);
    assert Flatten(visible) == VisibleCells(g);
    assert Flatten(score) == ScoreCells(g);
    var count := Count(Flatten(visible));
    var best := Max(Flatten(score));
    return Success(Report(count, best));
  }

  /** The reported count is the number of visible trees, and the best score bounds every tree's score. */
  lemma ExpectedAnswers(lines: seq<string>, r: int, c: int)
    requires Heights(lines).Success? && InGrid(Heights(lines).value, r, c)
    ensures Expected(lines).Success?
    ensures Expected(lines).value.visibleCount == multiset(VisibleCells(Heights(lines).value))[true]
    ensures Expected(lines).value.best.Success?
    ensures Scenic(Heights(lines).value, r, c) <= Expected(lines).value.best.value
  {
    var g := Heights(lines).value;
    CountIsTrueEntries(VisibleCells(g));
    BestBoundsAll(g, r, c);
  }
}
