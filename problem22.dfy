/**
 * Day 22: walking the monkey map. The map is a jagged `char[][]` of open
 * tiles `'.'`, walls `'#'` and blanks `' '`; the last input line holds the
 * instructions, runs of digits (a number of steps) and `R`/`L` turns. The
 * walker starts on the first open tile of the top row facing right and
 * leaves a heading mark on every tile it enters. Part 1 wraps a step that
 * leaves the map around to the far end of the same row or column; part 2
 * folds the map into a cube with a fixed table of edge transitions for the
 * 50-wide net of the puzzle input. The answer is the password
 * 1000 * row + 4 * column + facing.
 */
module Problem22 {
  import opened Wrappers
  import opened Numerics

  /** The map after `TakeWhile(non-empty).Select(ToArray)`: row y, column x. */
  type Map = seq<seq<char>>

  /** A position and heading: `coord` with `(dx, dy)`. */
  datatype State = State(x: int, y: int, dx: int, dy: int)

  /** The four unit headings; y grows downwards. */
  predicate IsHeading(dx: int, dy: int)
  {
    (dx == 0 && (dy == 1 || dy == -1)) || (dy == 0 && (dx == 1 || dx == -1))
  }

  /** Lines 157 and 32: turning right maps (dx, dy) to (-dy, dx). */
  function Right(dx: int, dy: int): (h: (int, int))
    ensures IsHeading(dx, dy) ==> IsHeading(h.0, h.1)
  {
    (-dy, dx)
  }

  /** Lines 161 and 36: turning left maps (dx, dy) to (dy, -dx). */
  function Left(dx: int, dy: int): (h: (int, int))
    ensures IsHeading(dx, dy) ==> IsHeading(h.0, h.1)
  {
    (dy, -dx)
  }

  /** A left turn undoes a right turn and the other way round. */
  lemma TurnsCancel(dx: int, dy: int)
    ensures Left(Right(dx, dy).0, Right(dx, dy).1) == (dx, dy)
    ensures Right(Left(dx, dy).0, Left(dx, dy).1) == (dx, dy)
  {
  }

  /** Four right turns restore the heading. */
  lemma FourRights(dx: int, dy: int)
    ensures var h1 := Right(dx, dy); var h2 := Right(h1.0, h1.1); var h3 := Right(h2.0, h2.1);
      Right(h3.0, h3.1) == (dx, dy)
  {
  }

  /** Lines 185-194: right 0, down 1, left 2, up 3. */
  function Facing(dx: int, dy: int): (f: int)
    requires IsHeading(dx, dy)
    ensures 0 <= f < 4
  {
    if (dx, dy) == (1, 0) then 0
    else if (dx, dy) == (-1, 0) then 2
    else if (dx, dy) == (0, 1) then 1
    else 3
  }

  /**
   * The facing value names the heading uniquely, and a right turn adds one
   * to it modulo 4, a left turn three.
   */
  lemma FacingTurns(dx: int, dy: int, ex: int, ey: int)
    requires IsHeading(dx, dy) && IsHeading(ex, ey)
    ensures Facing(dx, dy) == Facing(ex, ey) ==> (dx, dy) == (ex, ey)
    ensures Facing(Right(dx, dy).0, Right(dx, dy).1) == (Facing(dx, dy) + 1) % 4
    ensures Facing(Left(dx, dy).0, Left(dx, dy).1) == (Facing(dx, dy) + 3) % 4
  {
  }

  /** Lines 174-183: the mark left on a tile the walker enters. */
  function Display(dx: int, dy: int): (c: char)
    requires IsHeading(dx, dy)
    ensures c != '#' && c != ' '
    ensures c == (if Facing(dx, dy) == 0 then '>' else if Facing(dx, dy) == 1 then 'v' else if Facing(dx, dy) == 2 then '<' else '^')
  {
    if (dx, dy) == (1, 0) then '>'
    else if (dx, dy) == (-1, 0) then '<'
    else if (dx, dy) == (0, 1) then 'v'
    else '^'
  }

  /** Line 172: `(Y + 1) * 1000 + (X + 1) * 4 + facing` in 32-bit `int` arithmetic. */
  function Password(s: State): int
    requires IsHeading(s.dx, s.dy)
  {
    Wrap32((s.y + 1) * 1000 + (s.x + 1) * 4 + Facing(s.dx, s.dy))
  }

  /** A quotient and remainder in range are the ones `/` and `%` give. */
  lemma QuotientRemainder(p: int, q: int, r: int, d: int)
    requires d > 0 && 0 <= r < d && p == q * d + r
    ensures p / d == q && p % d == r
  {
    var j := q - p / d;
    assert j * d == q * d - (p / d) * d;
    OnlySmallMultipleIsZero(j, d);
  }

  /** For a map under 249 columns the password gives back row, column and facing. */
  lemma PasswordDecodes(s: State)
    requires IsHeading(s.dx, s.dy) && 0 <= s.x < 249 && 0 <= s.y < 2_000_000
    ensures Password(s) / 1000 == s.y + 1
    ensures Password(s) % 1000 / 4 == s.x + 1
    ensures Password(s) % 4 == Facing(s.dx, s.dy)
  {
    var f := Facing(s.dx, s.dy);
    var r := (s.x + 1) * 4 + f;
    var p := (s.y + 1) * 1000 + r;
    assert IsInt32(p);
    assert Password(s) == p;
    QuotientRemainder(p, s.y + 1, r, 1000);
    QuotientRemainder(r, s.x + 1, f, 4);
    QuotientRemainder(p, (s.y + 1) * 250 + s.x + 1, f, 4);
  }

  /** Lines 39 and 164: one more character of a step count, `move * 10 + (c - '0')` as `int`. */
  function Accumulate(move: int, c: char): int
  {
    Wrap32(move * 10 + (c as int - '0' as int))
  }

  predicate IsDigit(c: char)
  {
    '0' <= c <= '9'
  }

  /** The value of one decimal digit. */
  function DigitValue(c: char): (d: nat)
    requires IsDigit(c)
    ensures d < 10
  {
    c as int - '0' as int
  }

  /** The decimal number a string of digits spells. */
  function DecimalValue(s: seq<char>): nat
    requires forall i :: 0 <= i < |s| ==> IsDigit(s[i])
  {
    if s == [] then 0 else DecimalValue(s[..|s| - 1]) * 10 + DigitValue(s[|s| - 1])
  }

  /** A longer string of digits is worth at least as much as its prefix. */
  lemma {:induction false} DecimalPrefix(a: seq<char>, b: seq<char>)
    requires forall i :: 0 <= i < |a + b| ==> IsDigit((a + b)[i])
    ensures forall i :: 0 <= i < |a| ==> IsDigit(a[i])
    ensures DecimalValue(a) <= DecimalValue(a + b)
    decreases |b|
  {
    assert forall i :: 0 <= i < |a| ==> (a + b)[i] == a[i];
    if b != [] {
      var c := a + b[..|b| - 1];
      assert (a + b)[..|a + b| - 1] == c;
      assert forall i :: 0 <= i < |c| ==> c[i] == (a + b)[i];
      DecimalPrefix(a, b[..|b| - 1]);
      assert DecimalValue(a + b) == DecimalValue(c) * 10 + DigitValue(b[|b| - 1]);
    } else {
      assert a + b == a;
    }
  }

  /** The lines before the first empty one: the map rows. */
  function MapLines(data: seq<string>): (grid: Map)
    ensures |grid| <= |data| && grid == data[..|grid|]
    ensures forall r :: 0 <= r < |grid| ==> grid[r] != ""
    ensures |grid| < |data| ==> data[|grid|] == ""
  {
    if data == [] || data[0] == "" then [] else [data[0]] + MapLines(data[1..])
  }

  /** `Array.IndexOf(row, c)` from index `i`: the first position of `c`, or -1. */
  function IndexOf(row: seq<char>, c: char, i: nat := 0): (r: int)
    decreases |row| - i
    ensures r == -1 || (i <= r < |row| && row[r] == c)
  {
    if i >= |row| then -1 else if row[i] == c then i else IndexOf(row, c, i + 1)
  }

  /** The position found is the first one, and -1 means there is none. */
  lemma {:induction false} IndexOfFirst(row: seq<char>, c: char, i: nat)
    decreases |row| - i
    ensures IndexOf(row, c, i) == -1 <==> forall j :: i <= j < |row| ==> row[j] != c
    ensures IndexOf(row, c, i) >= 0 ==> forall j :: i <= j < IndexOf(row, c, i) ==> row[j] != c
  {
    if i < |row| && row[i] != c {
      IndexOfFirst(row, c, i + 1);
    }
  }

  /** Lines 74-85 and 203-214: a cell is on the map when it exists and is not blank. */
  predicate IsInMap(grid: Map, x: int, y: int)
  {
    0 <= x && 0 <= y && y < |grid| && x < |grid[y]| && grid[y][x] != ' '
  }

  /** `map[y][x]` can be read without an `IndexOutOfRangeException`. */
  predicate InRange(grid: Map, x: int, y: int)
  {
    0 <= y < |grid| && 0 <= x < |grid[y]|
  }

  /** The room left in the direction opposite to the heading, which rewinding uses up. */
  function Room(grid: Map, x: int, y: int, dx: int, dy: int): int
  {
    if dx > 0 then x
    else if dx < 0 then (if 0 <= y < |grid| then |grid[y]| else 0) - x
    else if dy > 0 then y
    else |grid| - y
  }

  /** Lines 90-98: step back against the heading while on the map; the last cell on it. */
  function Rewind(grid: Map, x: int, y: int, dx: int, dy: int): (int, int)
    requires IsHeading(dx, dy)
    decreases Room(grid, x, y, dx, dy)
  {
    if IsInMap(grid, x, y) then Rewind(grid, x - dx, y - dy, dx, dy) else (x + dx, y + dy)
  }

  /** `p` lies on the row or column through (x, y), at or behind it against the heading. */
  predicate Behind(p: (int, int), x: int, y: int, dx: int, dy: int)
  {
    && (dx == 0 ==> p.0 == x) && (dy == 0 ==> p.1 == y)
    && (dx > 0 ==> p.0 <= x) && (dx < 0 ==> p.0 >= x)
    && (dy > 0 ==> p.1 <= y) && (dy < 0 ==> p.1 >= y)
  }

  /**
   * From a cell on the map, rewinding ends on the same row or column, behind
   * the cell, on a cell of the map whose neighbour further back is off it.
   */
  lemma {:induction false} RewindFarEnd(grid: Map, x: int, y: int, dx: int, dy: int)
    requires IsHeading(dx, dy) && IsInMap(grid, x, y)
    decreases Room(grid, x, y, dx, dy)
    ensures IsInMap(grid, Rewind(grid, x, y, dx, dy).0, Rewind(grid, x, y, dx, dy).1)
    ensures !IsInMap(grid, Rewind(grid, x, y, dx, dy).0 - dx, Rewind(grid, x, y, dx, dy).1 - dy)
    ensures Behind(Rewind(grid, x, y, dx, dy), x, y, dx, dy)
  {
    if IsInMap(grid, x - dx, y - dy) {
      RewindFarEnd(grid, x - dx, y - dy, dx, dy);
    }
  }

  /** Lines 69-99: the next cell, wrapping to the far end of the row or column off the map. */
  function FlatStep(grid: Map, x: int, y: int, dx: int, dy: int): (int, int)
    requires IsHeading(dx, dy)
  {
    if IsInMap(grid, x + dx, y + dy) then (x + dx, y + dy) else Rewind(grid, x, y, dx, dy)
  }

  /** From a cell on the map the flat step always lands on the map. */
  lemma FlatStepOnMap(grid: Map, x: int, y: int, dx: int, dy: int)
    requires IsHeading(dx, dy) && IsInMap(grid, x, y)
    ensures IsInMap(grid, FlatStep(grid, x, y, dx, dy).0, FlatStep(grid, x, y, dx, dy).1)
  {
    if !IsInMap(grid, x + dx, y + dy) {
      RewindFarEnd(grid, x, y, dx, dy);
    }
  }

  /** Part 1's `FindNextStep` (lines 69-99), with its rewinding loop. */
  method FindFlatStep(chars: Map, x: int, y: int, dx: int, dy: int) returns (nx: int, ny: int)
    requires IsHeading(dx, dy)
    ensures (nx, ny) == FlatStep(chars, x, y, dx, dy)
  {
    nx := x + dx;
    ny := y + dy;
    if IsInMap(chars, nx, ny) {
      return;
    }
    nx := nx - dx;
    ny := ny - dy;
    while IsInMap(chars, nx, ny)
      invariant Rewind(chars, nx, ny, dx, dy) == Rewind(chars, x, y, dx, dy)
      decreases Room(chars, nx, ny, dx, dy)
    {
      nx := nx - dx;
      ny := ny - dy;
    }
    nx := nx + dx;
    ny := ny + dy;
  }

  /** C#'s `v / 50`, which truncates toward zero: the cube face index along one axis. */
  function Block(v: int): int
  {
    if v >= 0 then v / 50 else -((-v) / 50)
  }

  /**
   * Lines 219-311: the cube edge table for the 50-wide net with faces
   * A (1, 0), B (2, 0), C (1, 1), D (1, 2), E (0, 2) and F (0, 3); `None`
   * where no case matches.
   */
  function CubeEdge(x: int, y: int, dx: int, dy: int): (r: Option<State>)
    ensures r.Some? ==> IsHeading(r.value.dx, r.value.dy)
  {
    match (Block(x), Block(y), dx, dy)
    case (1, 0, -1, 0) => Some(State(0, 3 * 50 - y - 1, 1, 0))
    case (1, 0, 0, -1) => Some(State(0, x + 2 * 50, 1, 0))
    case (2, 0, 1, 0) => Some(State(50 * 2 - 1, 50 * 3 - y - 1, -1, 0))
    case (2, 0, 0, -1) => Some(State(x - 2 * 50, 50 * 4 - 1, dx, dy))
    case (2, 0, 0, 1) => Some(State(50 * 2 - 1, x - 50, -1, 0))
    case (1, 1, 1, 0) => Some(State(50 + y, 50 - 1, 0, -1))
    case (1, 1, -1, 0) => Some(State(y - 50, 2 * 50, 0, 1))
    case (1, 2, 1, 0) => Some(State(50 * 3 - 1, 3 * 50 - y - 1, -1, 0))
    case (1, 2, 0, 1) => Some(State(50 - 1, x + 2 * 50, -1, 0))
    case (0, 2, -1, 0) => Some(State(50, 3 * 50 - y - 1, 1, 0))
    case (0, 2, 0, -1) => Some(State(50, x + 50, 1, 0))
    case (0, 3, -1, 0) => Some(State(y - 2 * 50, 0, 0, 1))
    case (0, 3, 1, 0) => Some(State(y - 2 * 50, 3 * 50 - 1, 0, -1))
    case (0, 3, 0, 1) => Some(State(x + 2 * 50, 0, dx, dy))
    case _ => None
  }

  /** The step from (x, y) leaves the 50 by 50 block the cell lies in. */
  predicate LeavesFace(x: int, y: int, dx: int, dy: int)
  {
    (x + dx) / 50 != x / 50 || (y + dy) / 50 != y / 50
  }

  /**
   * The edge transitions come in inverse pairs: leaving the face again from
   * the arrival cell against the arrival heading returns to the cell left,
   * facing opposite to the heading it left with.
   */
  lemma CubeEdgeInverse(x: int, y: int, dx: int, dy: int)
    requires 0 <= x && 0 <= y && IsHeading(dx, dy) && LeavesFace(x, y, dx, dy)
    requires CubeEdge(x, y, dx, dy).Some?
    ensures var t := CubeEdge(x, y, dx, dy).value;
      CubeEdge(t.x, t.y, -t.dx, -t.dy) == Some(State(x, y, -dx, -dy))
  {
  }

  /** Part 2's `FindNextStep` (lines 196-314): a step on the map, else the cube edge table. */
  function CubeStep(grid: Map, s: State): (t: State)
    requires IsHeading(s.dx, s.dy)
    ensures IsHeading(t.dx, t.dy)
  {
    if IsInMap(grid, s.x + s.dx, s.y + s.dy) then State(s.x + s.dx, s.y + s.dy, s.dx, s.dy)
    else match CubeEdge(s.x, s.y, s.dx, s.dy)
      case Some(t) => t
      case None => State(s.x + s.dx, s.y + s.dy, s.dx, s.dy)
  }

  /** The next cell and heading, by the flat rule (part 1) or the cube rule (part 2). */
  function NextStep(grid: Map, s: State, cube: bool): (t: State)
    requires IsHeading(s.dx, s.dy)
    ensures IsHeading(t.dx, t.dy)
  {
    if cube then CubeStep(grid, s)
    else var p := FlatStep(grid, s.x, s.y, s.dx, s.dy); State(p.0, p.1, s.dx, s.dy)
  }

  /** `map[y][x] = c`. */
  function Marked(grid: Map, x: int, y: int, c: char): (m: Map)
    requires InRange(grid, x, y)
    ensures |m| == |grid| && forall r :: 0 <= r < |m| ==> |m[r]| == |grid[r]|
  {
    grid[y := grid[y][x := c]]
  }

  /**
   * The loop at lines 105-118 and 321-334 for `k` more steps: each step
   * reads the next cell, stops before a wall, and otherwise moves there and
   * marks it with the (new) heading.
   */
  function Steps(grid: Map, s: State, k: int, cube: bool): (r: Result<(Map, State)>)
    requires IsHeading(s.dx, s.dy)
    decreases k
    ensures r.Success? ==> IsHeading(r.value.1.dx, r.value.1.dy)
    ensures r.Failure? ==> r.error == IndexOutOfRangeException
  {
    if k <= 0 then Success((grid, s))
    else
      var n := NextStep(grid, s, cube);
      if !InRange(grid, n.x, n.y) then Failure(IndexOutOfRangeException)
      else if grid[n.y][n.x] == '#' then Success((grid, s))
      else Steps(Marked(grid, n.x, n.y, Display(n.dx, n.dy)), n, k - 1, cube)
  }

  /** `a` and `b` have the same shape and the same walls. */
  ghost predicate SameWalls(a: Map, b: Map)
  {
    && |a| == |b|
    && (forall r :: 0 <= r < |a| ==> |a[r]| == |b[r]|)
    && (forall r, c :: 0 <= r < |a| && 0 <= c < |a[r]| ==> (a[r][c] == '#' <==> b[r][c] == '#'))
  }

  /** `a` and `b` have the same shape, the same walls and the same blanks. */
  ghost predicate SameTerrain(a: Map, b: Map)
  {
    && SameWalls(a, b)
    && (forall r, c :: 0 <= r < |a| && 0 <= c < |a[r]| ==> (a[r][c] == ' ' <==> b[r][c] == ' '))
  }

  /** Marking an open cell keeps the walls, and keeps the blanks when the cell is not blank. */
  lemma MarkKeepsTerrain(grid: Map, x: int, y: int, c: char)
    requires InRange(grid, x, y) && grid[y][x] != '#' && c != '#' && c != ' '
    ensures SameWalls(grid, Marked(grid, x, y, c))
    ensures grid[y][x] != ' ' ==> SameTerrain(grid, Marked(grid, x, y, c))
  {
  }

  /**
   * A move stops before a wall: starting on a cell that is not a wall, the
   * walker ends on a cell that is not a wall, and the walls stay where they
   * were.
   */
  lemma {:induction false} StepsAvoidWalls(grid: Map, s: State, k: int, cube: bool)
    requires IsHeading(s.dx, s.dy) && InRange(grid, s.x, s.y) && grid[s.y][s.x] != '#'
    requires Steps(grid, s, k, cube).Success?
    decreases k
    ensures var (m, t) := Steps(grid, s, k, cube).value;
      SameWalls(grid, m) && InRange(m, t.x, t.y) && grid[t.y][t.x] != '#'
  {
    if k > 0 {
      var n := NextStep(grid, s, cube);
      if grid[n.y][n.x] != '#' {
        var marked := Marked(grid, n.x, n.y, Display(n.dx, n.dy));
        MarkKeepsTerrain(grid, n.x, n.y, Display(n.dx, n.dy));
        StepsAvoidWalls(marked, n, k - 1, cube);
      }
    }
  }

  /**
   * On the flat map a walker on the map never reads outside it: every move
   * succeeds, ends on the map, and only overwrites open tiles.
   */
  lemma {:induction false} FlatStaysOnMap(grid: Map, s: State, k: int)
    requires IsHeading(s.dx, s.dy) && IsInMap(grid, s.x, s.y)
    decreases k
    ensures Steps(grid, s, k, false).Success?
    ensures var (m, t) := Steps(grid, s, k, false).value;
      SameTerrain(grid, m) && IsInMap(m, t.x, t.y)
  {
    if k > 0 {
      FlatStepOnMap(grid, s.x, s.y, s.dx, s.dy);
      var n := NextStep(grid, s, false);
      if grid[n.y][n.x] != '#' {
        var marked := Marked(grid, n.x, n.y, Display(n.dx, n.dy));
        MarkKeepsTerrain(grid, n.x, n.y, Display(n.dx, n.dy));
        FlatStaysOnMap(marked, n, k - 1);
        assert SameTerrain(marked, Steps(marked, n, k - 1, false).value.0);
      }
    }
  }

  /** Lines 101-122 and 316-339: part 2 first marks the current cell; then the steps. */
  function Moved(grid: Map, s: State, move: int, cube: bool): (r: Result<(Map, State)>)
    requires IsHeading(s.dx, s.dy)
    ensures r.Success? ==> IsHeading(r.value.1.dx, r.value.1.dy)
    ensures r.Failure? ==> r.error == IndexOutOfRangeException
  {
    if !cube then Steps(grid, s, move, false)
    else if !InRange(grid, s.x, s.y) then Failure(IndexOutOfRangeException)
    else Steps(Marked(grid, s.x, s.y, Display(s.dx, s.dy)), s, move, true)
  }

  /**
   * Lines 151-167 (and 25-42): each `R` or `L` first makes the pending move,
   * which resets the count, then turns; any other character is a digit of
   * the count. The result is the map, the state and the pending count.
   */
  function Follow(grid: Map, s: State, move: int, instructions: seq<char>, cube: bool): (r: Result<(Map, State, int)>)
    requires IsHeading(s.dx, s.dy)
    decreases |instructions|
    ensures r.Success? ==> IsHeading(r.value.1.dx, r.value.1.dy)
    ensures r.Failure? ==> r.error == IndexOutOfRangeException
  {
    if instructions == [] then Success((grid, s, move))
    else
      var c := instructions[0];
      if c == 'R' || c == 'L' then
        match Moved(grid, s, move, cube)
        case Failure(e) => Failure(e)
        case Success((m, t)) =>
          var h := if c == 'R' then Right(t.dx, t.dy) else Left(t.dx, t.dy);
          Follow(m, State(t.x, t.y, h.0, h.1), 0, instructions[1..], cube)
      else Follow(grid, s, Accumulate(move, c), instructions[1..], cube)
  }

  /** A run of digits only builds up the count, to its decimal value while that fits an `int`. */
  lemma {:induction false} FollowDigits(grid: Map, s: State, done: seq<char>, digits: seq<char>, cube: bool)
    requires IsHeading(s.dx, s.dy)
    requires forall i :: 0 <= i < |done + digits| ==> IsDigit((done + digits)[i])
    requires DecimalValue(done + digits) < 0x8000_0000
    decreases |digits|
    ensures forall i :: 0 <= i < |done| ==> IsDigit(done[i])
    ensures Follow(grid, s, DecimalValue(done), digits, cube) == Success((grid, s, DecimalValue(done + digits)))
  {
    assert forall i :: 0 <= i < |done| ==> (done + digits)[i] == done[i];
    if digits == [] {
      assert done + digits == done;
    } else {
      var next := done + [digits[0]];
      assert next + digits[1..] == done + digits;
      assert next[..|next| - 1] == done;
      DecimalPrefix(next, digits[1..]);
      assert DecimalValue(next) == DecimalValue(done) * 10 + DigitValue(digits[0]);
      FollowDigits(grid, s, next, digits[1..], cube);
    }
  }

  /**
   * Lines 140-172 (part 2) and 15-45 (part 1): read the map and the last
   * line, start on the first open tile of the top row facing right, follow
   * the instructions, make the last move and give the password.
   */
  function Solution(data: seq<string>, cube: bool): (r: Result<int>)
    ensures r.Failure? ==> r.error == InvalidOperationException || r.error == IndexOutOfRangeException
  {
    var grid := MapLines(data);
    if data == [] then Failure(InvalidOperationException)
    else if grid == [] then Failure(IndexOutOfRangeException)
    else
      var start := State(IndexOf(grid[0], '.'), 0, 1, 0);
      if !InRange(grid, start.x, 0) then Failure(IndexOutOfRangeException)
      else
        var marked := Marked(grid, start.x, 0, Display(1, 0));
        match Follow(marked, start, 0, data[|data| - 1], cube)
        case Failure(e) => Failure(e)
        case Success((m, s, move)) =>
          match Moved(m, s, move, cube)
          case Failure(e) => Failure(e)
          case Success((_, t)) => Success(Password(t))
  }

  /** On the flat map every instruction string succeeds once there is an open tile in the top row. */
  lemma {:induction false} FlatFollowSucceeds(grid: Map, s: State, move: int, instructions: seq<char>)
    requires IsHeading(s.dx, s.dy) && IsInMap(grid, s.x, s.y)
    decreases |instructions|
    ensures Follow(grid, s, move, instructions, false).Success?
    ensures IsInMap(Follow(grid, s, move, instructions, false).value.0, Follow(grid, s, move, instructions, false).value.1.x, Follow(grid, s, move, instructions, false).value.1.y)
  {
    if instructions != [] {
      var c := instructions[0];
      if c == 'R' || c == 'L' {
        FlatStaysOnMap(grid, s, move);
        var (m, t) := Steps(grid, s, move, false).value;
        var h := if c == 'R' then Right(t.dx, t.dy) else Left(t.dx, t.dy);
        FlatFollowSucceeds(m, State(t.x, t.y, h.0, h.1), 0, instructions[1..]);
      } else {
        FlatFollowSucceeds(grid, s, Accumulate(move, c), instructions[1..]);
      }
    }
  }

  /** Part 1 fails only on an empty input, an empty first line or a top row without an open tile. */
  lemma FlatSolutionFails(data: seq<string>)
    ensures Solution(data, false).Failure? <==>
      data == [] || MapLines(data) == [] || IndexOf(MapLines(data)[0], '.') == -1
  {
    var grid := MapLines(data);
    if data != [] && grid != [] {
      var x := IndexOf(grid[0], '.');
      if x != -1 {
        var marked := Marked(grid, x, 0, Display(1, 0));
        assert IsInMap(marked, x, 0);
        FlatFollowSucceeds(marked, State(x, 0, 1, 0), 0, data[|data| - 1]);
        var (m, s, move) := Follow(marked, State(x, 0, 1, 0), 0, data[|data| - 1], false).value;
        FlatStaysOnMap(m, s, move);
      }
    }
  }

  /**
   * The walker of `Part1`/`Part2`: the map, `coord`, the heading and the
   * pending count, which the local functions update in place.
   */
  class Walker {
    var grid: Map
    var x: int
    var y: int
    var dx: int
    var dy: int
    var move: int
    /** Part 2's cube rule rather than part 1's flat wrap. */
    const cube: bool

    ghost function At(): State
      reads this
    {
      State(x, y, dx, dy)
    }

    constructor (grid: Map, x: int, cube: bool)
      ensures this.grid == grid && At() == State(x, 0, 1, 0) && move == 0 && this.cube == cube
    {
      this.grid := grid;
      this.x, this.y := x, 0;
      this.dx, this.dy := 1, 0;
      this.move := 0;
      this.cube := cube;
    }

    /** One step of the move loop: the next cell and heading. */
    method FindNextStep(sx: int, sy: int) returns (n: State)
      requires IsHeading(dx, dy)
      ensures n == NextStep(grid, State(sx, sy, dx, dy), cube)
    {
      if cube {
        n := CubeStep(grid, State(sx, sy, dx, dy));
      } else {
        var nx, ny := FindFlatStep(grid, sx, sy, dx, dy);
        n := State(nx, ny, dx, dy);
      }
    }

    /**
     * One pass of the loop body at lines 107-117 and 323-333: find the next
     * cell; stop before a wall, or move there and mark it. Stated against
     * `Steps` with `k` steps still to go.
     */
    method Advance(ghost k: int) returns (stop: bool, error: Option<Exception>)
      requires IsHeading(dx, dy) && k > 0
      modifies this
      ensures IsHeading(dx, dy) && move == old(move)
      ensures error.Some? ==> error == Some(IndexOutOfRangeException) && Steps(old(grid), old(At()), k, cube).Failure?
      ensures error.None? && stop ==> Steps(old(grid), old(At()), k, cube) == Success((grid, At()))
      ensures error.None? && !stop ==> Steps(old(grid), old(At()), k, cube) == Steps(grid, At(), k - 1, cube)
    {
      var n := FindNextStep(x, y);
      if !InRange(grid, n.x, n.y) {
        return false, Some(IndexOutOfRangeException);
      }
      if grid[n.y][n.x] == '#' {
        return true, None;
      }
      x, y, dx, dy := n.x, n.y, n.dx, n.dy;
      grid := Marked(grid, x, y, Display(dx, dy));
      return false, None;
    }

    /** The loop at lines 105-118 and 321-334: up to `count` steps, stopping before a wall. */
    method Walk(count: int) returns (error: Option<Exception>)
      requires IsHeading(dx, dy)
      modifies this
      ensures IsHeading(dx, dy) && move == old(move)
      ensures if error.None? then Steps(old(grid), old(At()), count, cube) == Success((grid, At()))
        else error == Some(IndexOutOfRangeException) && Steps(old(grid), old(At()), count, cube).Failure?
    {
      ghost var target := Steps(grid, At(), count, cube);
      var i := 0;
      while i < count
        invariant 0 <= i && (i <= count || count <= 0)
        invariant IsHeading(dx, dy) && move == old(move)
        invariant target == Steps(grid, At(), count - i, cube)
      {
        var stop;
        stop, error := Advance(count - i);
        if error.Some? {
          return;
        }
        if stop {
          break;
        }
        i := i + 1;
      }
      return None;
    }

    /** Lines 101-122 and 316-339: make the pending move and reset the count. */
    method DoMove() returns (error: Option<Exception>)
      requires IsHeading(dx, dy)
      modifies this
      ensures IsHeading(dx, dy)
      ensures if error.None? then Moved(old(grid), old(At()), old(move), cube) == Success((grid, At())) && move == 0
        else error == Some(IndexOutOfRangeException) && Moved(old(grid), old(At()), old(move), cube).Failure?
    {
      if cube {
        if !InRange(grid, x, y) {
          return Some(IndexOutOfRangeException);
        }
        grid := Marked(grid, x, y, Display(dx, dy));
      }
      error := Walk(move);
      if error.None? {
        move := 0;
      }
    }

    /** One pass of the `switch` at lines 153-166: a turn after the pending move, or a digit. */
    method Obey(c: char, ghost rest: seq<char>) returns (error: Option<Exception>)
      requires IsHeading(dx, dy)
      modifies this
      ensures IsHeading(dx, dy)
      ensures if error.None? then Follow(old(grid), old(At()), old(move), [c] + rest, cube) == Follow(grid, At(), move, rest, cube)
        else error == Some(IndexOutOfRangeException) && Follow(old(grid), old(At()), old(move), [c] + rest, cube).Failure?
    {
      assert ([c] + rest)[1..] == rest;
      if c == 'R' || c == 'L' {
        error := DoMove();
        if error.Some? {
          return;
        }
        if c == 'R' {
          dx, dy := -dy, dx;
        } else {
          dx, dy := dy, -dx;
        }
      } else {
        move := move * 10 + (c as int - '0' as int);
        move := Wrap32(move);
        error := None;
      }
    }

    /** Lines 151-167: the instruction loop. */
    method Run(instructions: seq<char>) returns (error: Option<Exception>)
      requires IsHeading(dx, dy)
      modifies this
      ensures IsHeading(dx, dy)
      ensures if error.None? then Follow(old(grid), old(At()), old(move), instructions, cube) == Success((grid, At(), move))
        else error == Some(IndexOutOfRangeException) && Follow(old(grid), old(At()), old(move), instructions, cube).Failure?
    {
      ghost var target := Follow(grid, At(), move, instructions, cube);
      for j := 0 to |instructions|
        invariant IsHeading(dx, dy)
        invariant target == Follow(grid, At(), move, instructions[j..], cube)
      {
        assert instructions[j..] == [instructions[j]] + instructions[j + 1..];
        error := Obey(instructions[j], instructions[j + 1..]);
        if error.Some? {
          return;
        }
      }
      assert instructions[|instructions|..] == [];
      return None;
    }
  }

  /** `Part1` (`cube` false) and `Part2` (`cube` true): the password, or the exception that ends the run. */
  method Solve(data: seq<string>, cube: bool) returns (r: Result<int>)
    ensures r == Solution(data, cube)
  {
    var grid := MapLines(data);
    if data == [] {
      return Failure(InvalidOperationException);
    }
    var instructions := data[|data| - 1];
    if grid == [] {
      return Failure(IndexOutOfRangeException);
    }
    var x := IndexOf(grid[0], '.');
    if !InRange(grid, x, 0) {
      return Failure(IndexOutOfRangeException);
    }
    var walker := new Walker(grid, x, cube);
    walker.grid := Marked(walker.grid, x, 0, Display(1, 0));
    var error := walker.Run(instructions);
    if error.Some? {
      return Failure(error.value);
    }
    error := walker.DoMove();
    if error.Some? {
      return Failure(error.value);
    }
    return Success(Password(State(walker.x, walker.y, walker.dx, walker.dy)));
  }
}
