/**
 * Day 9: a rope of ten knots on an unbounded grid. Each input line moves the
 * head a number of single steps in one direction; after every step each knot
 * in turn is dragged after the knot ahead of it. The program collects the
 * positions visited by knot 1 and by the last knot.
 */
module Problem9 {
  import opened Numerics
  import Seqs

  /** A knot's position; `y` grows downwards, since "U" lowers it. */
  datatype Pos = Pos(x: int, y: int)

  const Origin := Pos(0, 0)

  /** The length of the `positions` array. */
  const Knots := 10

  /** One input line: a direction letter and a number of steps. */
  datatype Motion = Motion(dir: char, count: nat)

  /** The test at the start of `DragTail`: within one step on both axes. */
  predicate Touching(a: Pos, b: Pos)
  {
    Abs(a.x - b.x) <= 1 && Abs(a.y - b.y) <= 1
  }

  /** The Chebyshev distance: the larger of the two axis distances. */
  function Dist(a: Pos, b: Pos): nat
  {
    if Abs(a.x - b.x) >= Abs(a.y - b.y) then Abs(a.x - b.x) else Abs(a.y - b.y)
  }

  lemma DistTriangle(a: Pos, b: Pos, c: Pos)
    ensures Dist(a, c) <= Dist(a, b) + Dist(b, c)
  {
  }

  // ---------------------------------------------------------------------
  // One step
  // ---------------------------------------------------------------------

  /**
   * `DragTail`: where the knot at `b` ends up once the knot ahead of it is at
   * `a`. A touching knot stays; otherwise it moves one unit towards `a` on
   * each axis where they differ, which brings it exactly one step closer.
   */
  function DragTail(a: Pos, b: Pos): Pos
  {
    if Abs(a.x - b.x) <= 1 && Abs(a.y - b.y) <= 1 then b
    else Pos(b.x + Sign(a.x - b.x), b.y + Sign(a.y - b.y))
  }

  /**
   * A touching knot stays put; any other knot moves exactly one step and
   * comes exactly one step closer, so a knot at most two away ends up touching.
   */
  lemma DragTailCloses(a: Pos, b: Pos)
    ensures Touching(a, b) ==> DragTail(a, b) == b
    ensures Dist(DragTail(a, b), b) <= 1
    ensures !Touching(a, b) ==> Dist(DragTail(a, b), b) == 1 && Dist(a, DragTail(a, b)) == Dist(a, b) - 1
    ensures Dist(a, b) <= 2 ==> Touching(a, DragTail(a, b))
  {
  }

  /** The `switch` on the direction letter: R, L, U and D move the head one unit, any other letter leaves it. */
  function MoveHead(h: Pos, dir: char): (r: Pos)
    ensures dir in "RLUD" ==> Abs(r.x - h.x) + Abs(r.y - h.y) == 1
    ensures dir !in "RLUD" ==> r == h
  {
    match dir
    case 'R' => Pos(h.x + 1, h.y)
    case 'L' => Pos(h.x - 1, h.y)
    case 'U' => Pos(h.x, h.y - 1)
    case 'D' => Pos(h.x, h.y + 1)
    case _ => h
  }

  /** The inner loop from knot `i` on: each later knot is dragged after the one ahead of it, in order. */
  function FollowFrom(rope: seq<Pos>, i: nat): (r: seq<Pos>)
    requires i < |rope|
    ensures |r| == |rope|
    decreases |rope| - i
  {
    if i == |rope| - 1 then rope
    else FollowFrom(rope[i + 1 := DragTail(rope[i], rope[i + 1])], i + 1)
  }

  /** The inner loop from knot `i` on leaves knots 0 to `i` where they are. */
  lemma {:induction false} FollowFromKeepsAhead(rope: seq<Pos>, i: nat)
    requires i < |rope|
    ensures forall j :: 0 <= j <= i ==> FollowFrom(rope, i)[j] == rope[j]
    decreases |rope| - i
  {
    if i < |rope| - 1 {
      FollowFromKeepsAhead(rope[i + 1 := DragTail(rope[i], rope[i + 1])], i + 1);
    }
  }

  /** One step of the head in direction `dir`, with the rest of the rope following. */
  function Step(rope: seq<Pos>, dir: char): (r: seq<Pos>)
    requires |rope| > 0
    ensures |r| == |rope| && r[0] == MoveHead(rope[0], dir)
  {
    FollowFromKeepsAhead(rope[0 := MoveHead(rope[0], dir)], 0);
    FollowFrom(rope[0 := MoveHead(rope[0], dir)], 0)
  }

  // ---------------------------------------------------------------------
  // Whole runs
  // ---------------------------------------------------------------------

  /** The rope after the single steps `steps`, every knot starting at the origin. */
  function Rope(steps: seq<char>): (r: seq<Pos>)
    ensures |r| == Knots
  {
    if |steps| == 0 then seq(Knots, _ => Origin)
    else Step(Rope(steps[..|steps| - 1]), steps[|steps| - 1])
  }

  function Repeat(d: char, n: nat): (s: seq<char>)
    ensures |s| == n && forall k :: 0 <= k < n ==> s[k] == d
  {
    seq(n, _ => d)
  }

  /** The motions as single steps: `count` copies of each direction letter, in order. */
  function Steps(motions: seq<Motion>): (s: seq<char>)
  {
    if |motions| == 0 then []
    else
      var last := motions[|motions| - 1];
      Steps(motions[..|motions| - 1]) + Repeat(last.dir, last.count)
  }

  /** The positions knot `k` has been at: the origin, then its place after each step. */
  function Trail(steps: seq<char>, k: nat): (t: set<Pos>)
    requires k < Knots
    ensures Origin in t && Rope(steps)[k] in t
  {
    if |steps| == 0 then {Origin}
    else Trail(steps[..|steps| - 1], k) + {Rope(steps)[k]}
  }

  // ---------------------------------------------------------------------
  // Properties
  // ---------------------------------------------------------------------

  /** Every pair of consecutive knots touches. */
  predicate Taut(rope: seq<Pos>)
  {
    forall i :: 0 <= i < |rope| - 1 ==> Touching(rope[i], rope[i + 1])
  }

  /**
   * The inner loop restores a taut rope when only the pair at `i` may have
   * come apart, by at most two, and it moves each knot by at most one step.
   */
  lemma {:induction false} FollowFromTaut(rope: seq<Pos>, i: nat)
    requires i < |rope|
    requires forall j :: 0 <= j < i ==> Touching(rope[j], rope[j + 1])
    requires forall j :: i + 1 <= j < |rope| - 1 ==> Touching(rope[j], rope[j + 1])
    requires i + 1 < |rope| ==> Dist(rope[i], rope[i + 1]) <= 2
    ensures Taut(FollowFrom(rope, i))
    ensures forall j :: 0 <= j < |rope| ==> Dist(FollowFrom(rope, i)[j], rope[j]) <= 1
    decreases |rope| - i
  {
    if i < |rope| - 1 {
      var b := DragTail(rope[i], rope[i + 1]);
      DragTailCloses(rope[i], rope[i + 1]);
      var next := rope[i + 1 := b];
      if i + 2 < |rope| {
        DistTriangle(b, rope[i + 1], rope[i + 2]);
      }
      FollowFromTaut(next, i + 1);
      var r := FollowFrom(next, i + 1);
      FollowFromKeepsAhead(next, i + 1);
      forall j | 0 <= j < |rope|
        ensures Dist(r[j], rope[j]) <= 1
      {
        if j <= i + 1 {
          assert r[j] == next[j];
        }
      }
    }
  }

  /** A step keeps the rope taut and moves each knot by at most one step. */
  lemma StepKeepsTaut(rope: seq<Pos>, dir: char)
    requires |rope| > 0 && Taut(rope)
    ensures Taut(Step(rope, dir))
    ensures forall j :: 0 <= j < |rope| ==> Dist(Step(rope, dir)[j], rope[j]) <= 1
  {
    var h := MoveHead(rope[0], dir);
    var moved := rope[0 := h];
    if 1 < |rope| {
      DistTriangle(h, rope[0], rope[1]);
    }
    FollowFromTaut(moved, 0);
    FollowFromKeepsAhead(moved, 0);
    var r := FollowFrom(moved, 0);
    forall j | 0 <= j < |rope|
      ensures Dist(r[j], rope[j]) <= 1
    {
      if j == 0 {
        assert r[0] == h;
      } else {
        assert moved[j] == rope[j];
      }
    }
  }

  /** After every step each pair of consecutive knots touches, and no knot is further than the number of steps from the origin. */
  lemma {:induction false} RopeInvariant(steps: seq<char>)
    ensures Taut(Rope(steps))
    ensures forall k :: 0 <= k < Knots ==> Dist(Rope(steps)[k], Origin) <= |steps|
  {
    if |steps| > 0 {
      var init := steps[..|steps| - 1];
      RopeInvariant(init);
      StepKeepsTaut(Rope(init), steps[|steps| - 1]);
      forall k | 0 <= k < Knots
        ensures Dist(Rope(steps)[k], Origin) <= |steps|
      {
        DistTriangle(Rope(steps)[k], Rope(init)[k], Origin);
      }
    }
  }

  /** The head ends up as far right as the R steps outnumber the L steps, and as far down as the D steps outnumber the U steps. */
  lemma {:induction false} HeadPosition(steps: seq<char>)
    ensures Rope(steps)[0] == Pos(multiset(steps)['R'] as int - multiset(steps)['L'] as int, multiset(steps)['D'] as int - multiset(steps)['U'] as int)
  {
    if |steps| > 0 {
      var init, last := steps[..|steps| - 1], steps[|steps| - 1];
      HeadPosition(init);
      assert steps == init + [last];
      assert multiset(steps) == multiset(init) + multiset{last};
    }
  }

  /** A position is in knot `k`'s trail iff it is the origin or where the knot stood after one of the steps. */
  lemma {:induction false} TrailVisits(steps: seq<char>, k: nat, p: Pos)
    requires k < Knots
    ensures p in Trail(steps, k) <==> p == Origin || exists j :: 1 <= j <= |steps| && Rope(steps[..j])[k] == p
  {
    if |steps| > 0 {
      var init := steps[..|steps| - 1];
      TrailVisits(init, k, p);
      if exists j :: 1 <= j <= |init| && Rope(init[..j])[k] == p {
        var j :| 1 <= j <= |init| && Rope(init[..j])[k] == p;
        assert init[..j] == steps[..j];
      }
      if p == Rope(steps)[k] {
        assert steps[..|steps|] == steps;
      }
      if j :| 1 <= j <= |steps| && Rope(steps[..j])[k] == p {
        if j < |steps| {
          assert init[..j] == steps[..j];
          assert p in Trail(init, k);
        } else {
          assert steps[..j] == steps;
          assert p == Rope(steps)[k];
        }
      }
    }
  }

  /** The trail only grows: the trail of a prefix of the steps is part of the whole trail. */
  lemma {:induction false} TrailGrows(steps: seq<char>, k: nat, n: nat)
    requires k < Knots && n <= |steps|
    ensures Trail(steps[..n], k) <= Trail(steps, k)
    decreases |steps|
  {
    if n < |steps| {
      var init := steps[..|steps| - 1];
      assert init[..n] == steps[..n];
      TrailGrows(init, k, n);
    } else {
      assert steps[..n] == steps;
    }
  }

  // ---------------------------------------------------------------------
  // The program
  // ---------------------------------------------------------------------

  /** Appending a step to the steps taken applies one more `Step` to the rope. */
  lemma RopeSnoc(steps: seq<char>, d: char)
    ensures Rope(steps + [d]) == Step(Rope(steps), d)
  {
    assert (steps + [d])[..|steps|] == steps;
  }

  /** Appending a step adds the knot's new position to its trail. */
  lemma TrailSnoc(steps: seq<char>, d: char, k: nat)
    requires k < Knots
    ensures Trail(steps + [d], k) == Trail(steps, k) + {Rope(steps + [d])[k]}
  {
    assert (steps + [d])[..|steps|] == steps;
  }

  /** One pass of the step loop's body: the `switch` moving the head, then the loop dragging knots 1 to 9 in turn. */
  method StepRope(positions: array<Pos>, dir: char)
    requires positions.Length == Knots
    modifies positions
    ensures positions[..] == Step(old(positions[..]), dir)
  {
    ghost var rope := positions[..];
    var hx, hy := positions[0].x, positions[0].y;
    match dir {
      case 'R' => hx := hx + 1;
      case 'L' => hx := hx - 1;
      case 'U' => hy := hy - 1;
      case 'D' => hy := hy + 1;
      case _ =>
    }
    positions[0] := Pos(hx, hy);
    assert positions[..] == rope[0 := MoveHead(rope[0], dir)];
    for it := 0 to Knots - 1
      invariant FollowFrom(positions[..], it) == Step(rope, dir)
    {
      positions[it + 1] := DragTail(positions[it], positions[it + 1]);
    }
  }

  lemma RepeatSnoc(before: seq<char>, d: char, i: nat)
    ensures before + Repeat(d, i) + [d] == before + Repeat(d, i + 1)
  {
    assert Repeat(d, i) + [d] == Repeat(d, i + 1);
    Seqs.AppendAssoc(before, Repeat(d, i), [d]);
  }

  /** The loop over one motion's `count` steps, adding knot 1 and the last knot to their sets after each step. */
  method RunMotion(positions: array<Pos>, dir: char, c: nat, shortTail: set<Pos>, longTail: set<Pos>, ghost before: seq<char>)
      returns (shortAfter: set<Pos>, longAfter: set<Pos>)
    requires positions.Length == Knots && positions[..] == Rope(before)
    requires shortTail == Trail(before, 1) && longTail == Trail(before, Knots - 1)
    modifies positions
    ensures positions[..] == Rope(before + Repeat(dir, c))
    ensures shortAfter == Trail(before + Repeat(dir, c), 1) && longAfter == Trail(before + Repeat(dir, c), Knots - 1)
  {
    shortAfter, longAfter := shortTail, longTail;
    ghost var steps := before;
    assert before + Repeat(dir, 0) == before;
    for i := 0 to c
      invariant steps == before + Repeat(dir, i)
      invariant positions[..] == Rope(steps)
      invariant shortAfter == Trail(steps, 1) && longAfter == Trail(steps, Knots - 1)
    {
      StepRope(positions, dir);
      RopeSnoc(steps, dir);
      TrailSnoc(steps, dir, 1);
      TrailSnoc(steps, dir, Knots - 1);
      shortAfter := shortAfter + {positions[1]};
      longAfter := longAfter + {positions[Knots - 1]};
      RepeatSnoc(before, dir, i);
      steps := steps + [dir];
    }
  }

  /** The program: run every motion step by step, collecting where knot 1 and the last knot have been. */
  method Execute(motions: seq<Motion>) returns (shortCount: nat, longCount: nat)
    ensures shortCount == |Trail(Steps(motions), 1)|
    ensures longCount == |Trail(Steps(motions), Knots - 1)|
  {
    var positions := new Pos[Knots](_ => Origin);
    var shortTail := {Origin};
    var longTail := {Origin};
    assert positions[..] == Rope([]);
    for m := 0 to |motions|
      invariant positions[..] == Rope(Steps(motions[..m]))
      invariant shortTail == Trail(Steps(motions[..m]), 1) && longTail == Trail(Steps(motions[..m]), Knots - 1)
    {
      assert motions[..m + 1][..m] == motions[..m];
      shortTail, longTail := RunMotion(positions, motions[m].dir, motions[m].count, shortTail, longTail, Steps(motions[..m]));
    }
    assert motions[..|motions|] == motions;
    shortCount := |shortTail|;
    longCount := |longTail|;
  }
}
