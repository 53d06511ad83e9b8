/**
 * Day 24: crossing a valley full of blizzards. Blizzards move one cell a
 * minute and wrap around inside the valley's bounds, so the pattern repeats
 * after a common multiple of the valley's width and height. A cache holds,
 * for each minute of that cycle, which cells a blizzard occupies.
 */
module Problem24 {
  import opened Wrappers
  import opened Numerics
  import opened Seqs

  /** `Point2<sbyte>`: a cell of the valley. */
  datatype Point = Point(x: int, y: int)
  {
    /** `Add`: the cell `dx` columns and `dy` rows away. */
    function Add(dx: int, dy: int): (p: Point)
      ensures p.x - x == dx && p.y - y == dy
    {
      Point(x + dx, y + dy)
    }
  }

  /** `Rect2<sbyte>`: an inclusive rectangle of cells. */
  datatype Rect = Rect(left: int, top: int, right: int, bottom: int)
  {
    predicate IsInBounds(p: Point)
    {
      left <= p.x <= right && top <= p.y <= bottom
    }

    function Width(): int { right - left + 1 }

    function Height(): int { bottom - top + 1 }

    /** At least one cell across and one down. */
    predicate Proper() { Width() >= 1 && Height() >= 1 }
  }

  /**
   * `PosMod`: the remainder in [0, `m`). `Helpers.PosMod` is not part of this
   * model; this is the behaviour its name and its use promise.
   */
  function PosMod(a: int, m: int): (r: int)
    requires m > 0
    ensures 0 <= r < m && a - r == (a / m) * m
  {
    a % m
  }

  /** The remainder does not see whole multiples of `m`. */
  lemma {:induction false} PosModShift(a: int, k: int, m: int)
    requires m > 0
    ensures PosMod(a + k * m, m) == PosMod(a, m)
  {
    var x := a + k * m;
    var j := x / m - a / m - k;
    assert j * m == (x / m) * m - (a / m) * m - k * m;
    assert j * m == PosMod(a, m) - PosMod(x, m);
    OnlySmallMultipleIsZero(j, m);
  }

  /** A value already in [0, `m`) is its own remainder. */
  lemma {:induction false} PosModSmall(a: int, m: int)
    requires 0 <= a < m
    ensures PosMod(a, m) == a
  {
    var j := a / m;
    assert j * m == a - PosMod(a, m);
    OnlySmallMultipleIsZero(j, m);
  }

  /** `Blizzard`: where it starts and the step it takes each minute. */
  datatype Blizzard = Blizzard(start: Point, dx: int, dy: int)
  {
    /** `AtTime`: the cell the blizzard occupies after `time` minutes, wrapping inside `bounds`. */
    function AtTime(bounds: Rect, time: int): (p: Point)
      requires bounds.Proper()
      ensures bounds.IsInBounds(p)
    {
      Point(PosMod(start.x + dx * time - bounds.left, bounds.Width()) + bounds.left,
            PosMod(start.y + dy * time - bounds.top, bounds.Height()) + bounds.top)
    }
  }

  /** Waiting `k` periods moves a coordinate by a whole multiple of the period. */
  lemma {:induction false} Advance(s: int, d: int, time: int, k: int, m: int, low: int)
    requires m > 0
    ensures PosMod(s + d * (time + k * m) - low, m) == PosMod(s + d * time - low, m)
  {
    assert d * (time + k * m) == d * time + d * (k * m);
    assert d * (k * m) == (d * k) * m;
    PosModShift(s + d * time - low, d * k, m);
  }

  /** The column repeats every `Width()` minutes and the row every `Height()` minutes. */
  lemma {:induction false} AtTimePeriodic(b: Blizzard, bounds: Rect, time: int, k: int)
    requires bounds.Proper()
    ensures b.AtTime(bounds, time + k * bounds.Width()).x == b.AtTime(bounds, time).x
    ensures b.AtTime(bounds, time + k * bounds.Height()).y == b.AtTime(bounds, time).y
  {
    Advance(b.start.x, b.dx, time, k, bounds.Width(), bounds.left);
    Advance(b.start.y, b.dy, time, k, bounds.Height(), bounds.top);
  }

  /** After a common multiple of the width and the height, every blizzard is back where it was. */
  lemma {:induction false} AtTimeCycle(b: Blizzard, bounds: Rect, time: int, cycle: int)
    requires bounds.Proper() && cycle % bounds.Width() == 0 && cycle % bounds.Height() == 0
    ensures b.AtTime(bounds, time + cycle) == b.AtTime(bounds, time)
  {
    var w, h := bounds.Width(), bounds.Height();
    assert cycle == (cycle / w) * w && cycle == (cycle / h) * h;
    AtTimePeriodic(b, bounds, time, cycle / w);
    AtTimePeriodic(b, bounds, time, cycle / h);
  }

  /** A blizzard that starts inside the bounds is at its start at time 0. */
  lemma AtTimeZero(b: Blizzard, bounds: Rect)
    requires bounds.Proper() && bounds.IsInBounds(b.start)
    ensures b.AtTime(bounds, 0) == b.start
  {
    PosModSmall(b.start.x - bounds.left, bounds.Width());
    PosModSmall(b.start.y - bounds.top, bounds.Height());
  }

  // ---------------------------------------------------------------------------
  // The blizzard cache

  /** Some blizzard occupies `location` after `time` minutes. */
  predicate Occupied(blizzards: seq<Blizzard>, bounds: Rect, location: Point, time: int)
    requires bounds.Proper()
  {
    exists b :: b in blizzards && b.AtTime(bounds, time) == location
  }

  /**
   * What `IsBlizzardAt` answers. The minute is first reduced with C#'s `%`,
   * which keeps the sign of a negative time and then fails as an index, as
   * does a location outside the bounds.
   */
  function Lookup(blizzards: seq<Blizzard>, bounds: Rect, cycle: int, location: Point, time: int): (r: Result<bool>)
    requires bounds.Proper() && cycle > 0
  {
    var t := TruncRem(time, cycle);
    if t < 0 || !bounds.IsInBounds(location) then Failure(IndexOutOfRangeException)
    else Success(Occupied(blizzards, bounds, location, t))
  }

  /** A minute and the same minute one cycle later get the same answer. */
  lemma LookupPeriodic(blizzards: seq<Blizzard>, bounds: Rect, cycle: int, location: Point, time: int)
    requires bounds.Proper() && cycle > 0 && time >= 0
    ensures Lookup(blizzards, bounds, cycle, location, time + cycle) == Lookup(blizzards, bounds, cycle, location, time)
  {
    PosModShift(time, 1, cycle);
  }

  /**
   * When the cycle is a common multiple of the width and the height, the
   * answer for any minute from 0 on is whether a blizzard is there at that
   * very minute, and a negative minute that is not a whole number of cycles fails.
   */
  lemma LookupExact(blizzards: seq<Blizzard>, bounds: Rect, cycle: int, location: Point, time: int)
    requires bounds.Proper() && cycle > 0 && cycle % bounds.Width() == 0 && cycle % bounds.Height() == 0
    ensures time >= 0 && bounds.IsInBounds(location) ==>
      Lookup(blizzards, bounds, cycle, location, time) == Success(Occupied(blizzards, bounds, location, time))
    ensures time < 0 && (-time) % cycle != 0 ==> Lookup(blizzards, bounds, cycle, location, time) == Failure(IndexOutOfRangeException)
  {
    if time >= 0 {
      var t := time % cycle;
      assert TruncRem(time, cycle) == t;
      var k := time / cycle;
      assert time == t + k * cycle;
      forall b | b in blizzards
        ensures b.AtTime(bounds, t) == b.AtTime(bounds, time)
      {
        CycleMultiple(b, bounds, t, cycle, k);
      }
    }
  }

  /** Whole cycles bring every blizzard back. */
  lemma {:induction false} CycleMultiple(b: Blizzard, bounds: Rect, t: int, cycle: int, k: nat)
    requires bounds.Proper() && cycle % bounds.Width() == 0 && cycle % bounds.Height() == 0
    ensures b.AtTime(bounds, t + k * cycle) == b.AtTime(bounds, t)
  {
    if k > 0 {
      CycleMultiple(b, bounds, t, cycle, k - 1);
      AtTimeCycle(b, bounds, t + (k - 1) * cycle, cycle);
      assert t + (k - 1) * cycle + cycle == t + k * cycle;
    }
  }

  /**
   * `BlizzardLocations`: the blizzards, their bounds, the cycle and the
   * cache, one lazily built grid per minute of the cycle (`None` stands for
   * an entry still `null`).
   */
  class BlizzardLocations {
    const blizzards: seq<Blizzard>
    const bounds: Rect
    const cycle: int
    const cache: array<Option<array2<bool>>>
    ghost var Repr: set<object>

    /** The grid for minute `t` marks exactly the occupied cells, indexed from the top-left corner. */
    ghost predicate Holds(t: int, a: array2<bool>)
      requires bounds.Proper()
      reads a
    {
      a.Length0 == bounds.Width() && a.Length1 == bounds.Height() &&
      forall i, j :: 0 <= i < a.Length0 && 0 <= j < a.Length1 ==>
        a[i, j] == Occupied(blizzards, bounds, Point(i + bounds.left, j + bounds.top), t)
    }

    ghost predicate Valid()
      reads this, Repr
    {
      this in Repr && cache in Repr && bounds.Proper() && cycle > 0 && cache.Length == cycle &&
      forall t :: 0 <= t < cycle && cache[t].Some? ==> cache[t].value in Repr && Holds(t, cache[t].value)
    }

    /**
     * The cycle is `Helpers.Lcm` of the width and the height, which is not
     * part of this model: the constructor takes it, and a positive common
     * multiple is all the model uses.
     */
    constructor(blizzards: seq<Blizzard>, bounds: Rect, cycle: int)
      requires bounds.Proper() && cycle > 0 && cycle % bounds.Width() == 0 && cycle % bounds.Height() == 0
      ensures Valid() && fresh(Repr)
      ensures this.blizzards == blizzards && this.bounds == bounds && this.cycle == cycle
      ensures forall t :: 0 <= t < cycle ==> cache[t].None?
    {
      this.blizzards := blizzards;
      this.bounds := bounds;
      this.cycle := cycle;
      var c := new Option<array2<bool>>[cycle](_ => None);
      this.cache := c;
      Repr := {this, c};
    }

    /** The `foreach` loop that fills a fresh grid for minute `t`. */
    method Fill(t: int) returns (a: array2<bool>)
      requires bounds.Proper()
      ensures fresh(a) && Holds(t, a)
    {
      a := new bool[bounds.Width(), bounds.Height()]((i, j) => false);
      for k := 0 to |blizzards|
        invariant a.Length0 == bounds.Width() && a.Length1 == bounds.Height()
        invariant forall i, j :: 0 <= i < a.Length0 && 0 <= j < a.Length1 ==>
          (a[i, j] <==> exists m :: 0 <= m < k && blizzards[m].AtTime(bounds, t) == Point(i + bounds.left, j + bounds.top))
      {
        var p := blizzards[k].AtTime(bounds, t);
        a[p.x - bounds.left, p.y - bounds.top] := true;
        assert Point(p.x - bounds.left + bounds.left, p.y - bounds.top + bounds.top) == p;
      }
      forall i, j | 0 <= i < a.Length0 && 0 <= j < a.Length1
        ensures a[i, j] == Occupied(blizzards, bounds, Point(i + bounds.left, j + bounds.top), t)
      {
        var here := Point(i + bounds.left, j + bounds.top);
        if Occupied(blizzards, bounds, here, t) {
          var b :| b in blizzards && b.AtTime(bounds, t) == here;
          var m :| 0 <= m < |blizzards| && blizzards[m] == b;
        }
      }
    }

    /**
     * `IsBlizzardAt`: reduce the minute modulo the cycle, build that
     * minute's grid on first use, and read the location from it.
     */
    method IsBlizzardAt(location: Point, time: int) returns (r: Result<bool>)
      requires Valid()
      modifies Repr
      ensures Valid() && fresh(Repr - old(Repr))
      ensures r == Lookup(blizzards, bounds, cycle, location, time)
    {
      var t := TruncRem(time, cycle);
      if t < 0 {
        return Failure(IndexOutOfRangeException);
      }
      var grid := cache[t];
      if grid.None? {
        var a := Fill(t);
        cache[t] := Some(a);
        Repr := Repr + {a};
        grid := Some(a);
      }
      var a := grid.value;
      if !bounds.IsInBounds(location) {
        return Failure(IndexOutOfRangeException);
      }
      assert Point(location.x - bounds.left + bounds.left, location.y - bounds.top + bounds.top) == location;
      return Success(a[location.x - bounds.left, location.y - bounds.top]);
    }
  }

  // ---------------------------------------------------------------------------
  // Search states and their successors

  /**
   * `GameState`: where the expedition stands after `time` minutes, with the
   * blizzards and their cache. `previous` is kept for rendering only.
   */
  datatype GameState = GameState(
    blizzards: seq<Blizzard>,
    blizzardMap: BlizzardLocations,
    bounds: Rect,
    location: Point,
    time: int,
    previous: Option<GameState>)
  {
    /** The cache can answer: its bounds are a real rectangle and its cycle is positive. */
    predicate Ready()
    {
      blizzardMap.bounds.Proper() && blizzardMap.cycle > 0
    }

    /**
     * `Move`: step to a cell at most one step away (counting straight
     * steps) and let a minute pass; anything farther is an `ArgumentException`.
     */
    function Move(next: Point): (r: Result<GameState>)
      ensures r.Failure? <==> Abs(next.y - location.y) + Abs(next.x - location.x) > 1
      ensures r.Failure? ==> r.error == ArgumentException
      ensures r.Success? ==>
        r.value.blizzards == blizzards && r.value.blizzardMap == blizzardMap && r.value.bounds == bounds &&
        r.value.location == next && r.value.time == Wrap32(time + 1) && r.value.previous == None
    {
      if Abs(next.y - location.y) + Abs(next.x - location.x) > 1 then Failure(ArgumentException)
      else Success(this.(location := next, time := Wrap32(time + 1), previous := None))
    }
  }

  /** What `WillBeInBlizzard` answers: the cache's answer for the next minute. */
  function Blizzarded(s: GameState, p: Point): Result<bool>
    requires s.Ready()
  {
    var m := s.blizzardMap;
    Lookup(m.blizzards, m.bounds, m.cycle, p, Wrap32(s.time + 1))
  }

  /** `WillBeInBlizzard`: asks the cache about `p` one minute later. */
  method WillBeInBlizzard(s: GameState, p: Point) returns (r: Result<bool>)
    requires s.blizzardMap.Valid()
    modifies s.blizzardMap.Repr
    ensures s.blizzardMap.Valid() && fresh(s.blizzardMap.Repr - old(s.blizzardMap.Repr))
    ensures s.Ready() && r == Blizzarded(s, p)
  {
    r := s.blizzardMap.IsBlizzardAt(p, Wrap32(s.time + 1));
  }

  /**
   * The rule `TryPoint` applies to a candidate cell: the start and the end
   * are always allowed, any other cell must be inside `bounds` and free of
   * blizzards next minute. A failing cache lookup fails the whole rule.
   */
  function Allowed(s: GameState, bounds: Rect, start: Point, end: Point, l: Point): (r: Result<bool>)
    requires s.Ready()
    ensures r == Success(true) <==>
      l == end || l == start || (bounds.IsInBounds(l) && Blizzarded(s, l) == Success(false))
    ensures r.Failure? <==>
      l != end && l != start && bounds.IsInBounds(l) && Blizzarded(s, l).Failure?
  {
    if l == end || l == start then Success(true)
    else if !bounds.IsInBounds(l) then Success(false)
    else
      match Blizzarded(s, l)
      case Failure(e) => Failure(e)
      case Success(b) => Success(!b)
  }

  /** `TryPoint`: the candidate cell `dx`, `dy` away and whether it is allowed. */
  method TryPoint(s: GameState, bounds: Rect, start: Point, end: Point, dx: int, dy: int)
    returns (r: Result<bool>, l: Point)
    requires s.blizzardMap.Valid()
    modifies s.blizzardMap.Repr
    ensures s.blizzardMap.Valid() && fresh(s.blizzardMap.Repr - old(s.blizzardMap.Repr))
    ensures l == s.location.Add(dx, dy) && s.Ready() && r == Allowed(s, bounds, start, end, l)
  {
    l := s.location.Add(dx, dy);
    if l == end || l == start {
      return Success(true), l;
    }
    if !bounds.IsInBounds(l) {
      return Success(false), l;
    }
    var b := WillBeInBlizzard(s, l);
    if b.Failure? {
      return Failure(b.error), l;
    }
    r := Success(!b.value);
  }

  /** The order `NextStates` tries the moves in: right, left, down, up, stay. */
  const Deltas: seq<(int, int)> := [(1, 0), (-1, 0), (0, 1), (0, -1), (0, 0)]

  /** A move of at most one straight step. */
  predicate Short(d: (int, int))
  {
    Abs(d.0) + Abs(d.1) <= 1
  }

  /** `states` followed by what `rest` enumerates, failing when `rest` fails. */
  function Then(states: seq<GameState>, rest: Result<seq<GameState>>): (r: Result<seq<GameState>>)
    ensures r.Failure? <==> rest.Failure?
    ensures r.Success? ==>
      |r.value| == |states| + |rest.value| && r.value[..|states|] == states && r.value[|states|..] == rest.value
  {
    if rest.Failure? then rest else Success(states + rest.value)
  }

  /**
   * The successors of `s` for the moves `ds`, in order: each allowed move
   * becomes `s.Move` of its cell, and the first failing lookup fails the
   * whole enumeration.
   */
  function SuccessorsFrom(s: GameState, bounds: Rect, start: Point, end: Point, ds: seq<(int, int)>): Result<seq<GameState>>
    requires s.Ready()
  {
    if ds == [] then Success([])
    else
      var l := s.location.Add(ds[0].0, ds[0].1);
      match Allowed(s, bounds, start, end, l)
      case Failure(e) => Failure(e)
      case Success(false) => SuccessorsFrom(s, bounds, start, end, ds[1..])
      case Success(true) =>
        match s.Move(l)
        case Failure(e) => Failure(e)
        case Success(next) => Then([next], SuccessorsFrom(s, bounds, start, end, ds[1..]))
  }

  /** What `NextStates` enumerates. */
  function Successors(s: GameState, bounds: Rect, start: Point, end: Point): Result<seq<GameState>>
    requires s.Ready()
  {
    SuccessorsFrom(s, bounds, start, end, Deltas)
  }

  /** The state one short move `d` leads to. */
  function Stepped(s: GameState, d: (int, int)): GameState
  {
    s.(location := s.location.Add(d.0, d.1), time := Wrap32(s.time + 1), previous := None)
  }

  /** `Move` never throws for the five candidate moves, and leads where `Stepped` says. */
  lemma MoveShort(s: GameState, d: (int, int))
    requires Short(d)
    ensures s.Move(s.location.Add(d.0, d.1)) == Success(Stepped(s, d))
  {
  }

  /** For short moves the enumeration fails exactly when the lookup for some move fails. */
  lemma {:induction false} SuccessorsFromFails(s: GameState, bounds: Rect, start: Point, end: Point, ds: seq<(int, int)>)
    requires s.Ready() && forall k :: 0 <= k < |ds| ==> Short(ds[k])
    ensures SuccessorsFrom(s, bounds, start, end, ds).Failure? <==>
      exists k :: 0 <= k < |ds| && Allowed(s, bounds, start, end, s.location.Add(ds[k].0, ds[k].1)).Failure?
  {
    if ds != [] {
      SuccessorsFromFails(s, bounds, start, end, ds[1..]);
      var l := s.location.Add(ds[0].0, ds[0].1);
      assert s.Move(l).Success?;
      if exists k :: 0 <= k < |ds| && Allowed(s, bounds, start, end, s.location.Add(ds[k].0, ds[k].1)).Failure? {
        var k :| 0 <= k < |ds| && Allowed(s, bounds, start, end, s.location.Add(ds[k].0, ds[k].1)).Failure?;
        if k > 0 {
          assert ds[1..][k - 1] == ds[k];
        }
      }
    }
  }

  /** Whether `TryPoint` allows each move of `ds`. */
  function Flags(s: GameState, bounds: Rect, start: Point, end: Point, ds: seq<(int, int)>): (f: seq<bool>)
    requires s.Ready()
    ensures |f| == |ds|
  {
    seq(|ds|, k requires 0 <= k < |ds| => Allowed(s, bounds, start, end, s.location.Add(ds[k].0, ds[k].1)) == Success(true))
  }

  /** The states the moves at positions `idx` of `ds` lead to. */
  function StepsAt(s: GameState, ds: seq<(int, int)>, idx: seq<int>): (r: seq<GameState>)
    requires forall i :: 0 <= i < |idx| ==> 0 <= idx[i] < |ds|
    ensures |r| == |idx|
  {
    seq(|idx|, i requires 0 <= i < |idx| => Stepped(s, ds[idx[i]]))
  }

  lemma StepsAtShift(s: GameState, ds: seq<(int, int)>, tail: seq<int>)
    requires ds != [] && forall i :: 0 <= i < |tail| ==> 0 <= tail[i] < |ds| - 1
    ensures StepsAt(s, ds, Shift(tail)) == StepsAt(s, ds[1..], tail)
  {
    forall i | 0 <= i < |tail|
      ensures StepsAt(s, ds, Shift(tail))[i] == StepsAt(s, ds[1..], tail)[i]
    {
      assert ds[1..][tail[i]] == ds[tail[i] + 1];
    }
  }

  lemma FlagsTail(s: GameState, bounds: Rect, start: Point, end: Point, ds: seq<(int, int)>)
    requires s.Ready() && ds != []
    ensures Flags(s, bounds, start, end, ds) ==
      [Allowed(s, bounds, start, end, s.location.Add(ds[0].0, ds[0].1)) == Success(true)] + Flags(s, bounds, start, end, ds[1..])
  {
    var f := Flags(s, bounds, start, end, ds);
    assert f[1..] == Flags(s, bounds, start, end, ds[1..]);
    assert f == [f[0]] + f[1..];
  }

  /** One step of a successful enumeration: the first move's state, if allowed, then the rest. */
  lemma SuccessorsFromCons(s: GameState, bounds: Rect, start: Point, end: Point, ds: seq<(int, int)>)
    requires s.Ready() && ds != [] && Short(ds[0])
    requires SuccessorsFrom(s, bounds, start, end, ds).Success?
    ensures var first := if Allowed(s, bounds, start, end, s.location.Add(ds[0].0, ds[0].1)) == Success(true) then [Stepped(s, ds[0])] else [];
      SuccessorsFrom(s, bounds, start, end, ds[1..]).Success? &&
      SuccessorsFrom(s, bounds, start, end, ds).value == first + SuccessorsFrom(s, bounds, start, end, ds[1..]).value
  {
    var l := s.location.Add(ds[0].0, ds[0].1);
    assert s.Move(l).Success? ==> s.Move(l).value == Stepped(s, ds[0]);
  }

  lemma StepsAtCons(s: GameState, ds: seq<(int, int)>, tail: seq<int>)
    requires ds != [] && forall i :: 0 <= i < |tail| ==> 0 <= tail[i] < |ds| - 1
    ensures StepsAt(s, ds, [0] + Shift(tail)) == [Stepped(s, ds[0])] + StepsAt(s, ds[1..], tail)
  {
    StepsAtShift(s, ds, tail);
    assert StepsAt(s, ds, [0] + Shift(tail)) == [Stepped(s, ds[0])] + StepsAt(s, ds, Shift(tail));
  }

  /**
   * For short moves, a successful enumeration is exactly the states that
   * the allowed moves lead to, in the order of `ds`.
   */
  lemma {:induction false} SuccessorsFromSteps(s: GameState, bounds: Rect, start: Point, end: Point, ds: seq<(int, int)>)
    requires s.Ready() && forall k :: 0 <= k < |ds| ==> Short(ds[k])
    requires SuccessorsFrom(s, bounds, start, end, ds).Success?
    ensures var idx := Picks(Flags(s, bounds, start, end, ds));
      (forall i :: 0 <= i < |idx| ==> 0 <= idx[i] < |ds|) &&
      SuccessorsFrom(s, bounds, start, end, ds).value == StepsAt(s, ds, idx)
  {
    var flags := Flags(s, bounds, start, end, ds);
    PicksFacts(flags);
    if ds != [] {
      SuccessorsFromCons(s, bounds, start, end, ds);
      SuccessorsFromSteps(s, bounds, start, end, ds[1..]);
      FlagsTail(s, bounds, start, end, ds);
      var tail := Picks(Flags(s, bounds, start, end, ds[1..]));
      assert flags[1..] == Flags(s, bounds, start, end, ds[1..]);
      if flags[0] {
        assert Picks(flags) == [0] + Shift(tail);
        StepsAtCons(s, ds, tail);
      } else {
        assert Picks(flags) == Shift(tail);
        StepsAtShift(s, ds, tail);
      }
    }
  }

  /**
   * `NextStates`: the successors come in the order right, left, down, up,
   * stay, at most five, and each is the state its move leads to; a move is
   * there exactly when `TryPoint` allows it.
   */
  lemma NextStatesShape(s: GameState, bounds: Rect, start: Point, end: Point)
    requires s.Ready()
    ensures var r := Successors(s, bounds, start, end);
      var idx := Picks(Flags(s, bounds, start, end, Deltas));
      r.Success? ==>
        |r.value| <= 5 && |idx| == |r.value| &&
        (forall i :: 0 <= i < |idx| ==> 0 <= idx[i] < 5 && r.value[i] == Stepped(s, Deltas[idx[i]])) &&
        (forall i, j :: 0 <= i < j < |idx| ==> idx[i] < idx[j]) &&
        (forall k :: 0 <= k < 5 ==>
          (k in idx <==> Allowed(s, bounds, start, end, s.location.Add(Deltas[k].0, Deltas[k].1)) == Success(true)))
    ensures Successors(s, bounds, start, end).Failure? <==>
      exists k :: 0 <= k < 5 && Allowed(s, bounds, start, end, s.location.Add(Deltas[k].0, Deltas[k].1)).Failure?
  {
    SuccessorsFromFails(s, bounds, start, end, Deltas);
    var flags := Flags(s, bounds, start, end, Deltas);
    var idx := Picks(flags);
    PicksFacts(flags);
    if Successors(s, bounds, start, end).Success? {
      SuccessorsFromSteps(s, bounds, start, end, Deltas);
      IncreasingBounded(idx, 5);
    }
  }

  lemma ThenThen(states: seq<GameState>, more: seq<GameState>, rest: Result<seq<GameState>>)
    ensures Then(states, Then(more, rest)) == Then(states + more, rest)
  {
    if rest.Success? {
      assert states + (more + rest.value) == states + more + rest.value;
    }
  }

  /** One `if (TryPoint(dx, dy, out n)) yield return gameState.Move(n);` of `NextStates`. */
  method Offer(s: GameState, bounds: Rect, start: Point, end: Point, states: seq<GameState>, ds: seq<(int, int)>)
    returns (r: Result<seq<GameState>>)
    requires s.blizzardMap.Valid() && ds != []
    modifies s.blizzardMap.Repr
    ensures s.blizzardMap.Valid() && fresh(s.blizzardMap.Repr - old(s.blizzardMap.Repr))
    ensures s.Ready()
    ensures r.Failure? ==> r == Then(states, SuccessorsFrom(s, bounds, start, end, ds))
    ensures r.Success? ==>
      Then(states, SuccessorsFrom(s, bounds, start, end, ds)) == Then(r.value, SuccessorsFrom(s, bounds, start, end, ds[1..]))
  {
    var ok, l := TryPoint(s, bounds, start, end, ds[0].0, ds[0].1);
    if ok.Failure? {
      assert SuccessorsFrom(s, bounds, start, end, ds) == Failure(ok.error);
      return Failure(ok.error);
    }
    if !ok.value {
      return Success(states);
    }
    var next := s.Move(l);
    if next.Failure? {
      return Failure(next.error);
    }
    r := Success(states + [next.value]);
    ThenThen(states, [next.value], SuccessorsFrom(s, bounds, start, end, ds[1..]));
  }

  /**
   * The `NextStates` iterator as a method: five `TryPoint`s in the order of
   * `Deltas`, each allowed cell followed by a `Move`.
   */
  method NextStates(s: GameState, bounds: Rect, start: Point, end: Point) returns (r: Result<seq<GameState>>)
    requires s.blizzardMap.Valid()
    modifies s.blizzardMap.Repr
    ensures s.blizzardMap.Valid() && fresh(s.blizzardMap.Repr - old(s.blizzardMap.Repr))
    ensures s.Ready() && r == Successors(s, bounds, start, end)
  {
    ghost var goal := Successors(s, bounds, start, end);
    var ds := Deltas;
    r := Offer(s, bounds, start, end, [], ds);
    if r.Failure? {
      return;
    }
    ds := ds[1..];
    r := Offer(s, bounds, start, end, r.value, ds);
    if r.Failure? {
      return;
    }
    ds := ds[1..];
    r := Offer(s, bounds, start, end, r.value, ds);
    if r.Failure? {
      return;
    }
    ds := ds[1..];
    r := Offer(s, bounds, start, end, r.value, ds);
    if r.Failure? {
      return;
    }
    ds := ds[1..];
    r := Offer(s, bounds, start, end, r.value, ds);
    if r.Success? {
      assert ds[1..] == [];
      assert r.value + [] == r.value;
    }
  }
}
