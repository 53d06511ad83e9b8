/**
 * Day 18: the surface of a droplet of unit cubes. Part 1 counts every cube
 * face that does not touch another cube; part 2 counts only the faces whose
 * air can reach the outside of the droplet's bounding box.
 */
module Problem18 {
  import opened Wrappers
  import opened Numerics
  import opened Types

  // ---------------------------------------------------------------------------
  // Neighbours

  /** Two points that share a face. */
  predicate Adjacent(p: IPoint3, q: IPoint3)
  {
    Abs(p.x - q.x) + Abs(p.y - q.y) + Abs(p.z - q.z) == 1
  }

  /** The six points sharing a face with `p`, in the order the solver looks at them. */
  function Neighbours(p: IPoint3): (ns: seq<IPoint3>)
    ensures |ns| == 6
    ensures forall i :: 0 <= i < 6 ==> Adjacent(p, ns[i]) && Adjacent(ns[i], p)
    ensures forall q :: Adjacent(p, q) ==> q in ns
  {
    [IPoint3(p.x - 1, p.y, p.z), IPoint3(p.x + 1, p.y, p.z),
     IPoint3(p.x, p.y - 1, p.z), IPoint3(p.x, p.y + 1, p.z),
     IPoint3(p.x, p.y, p.z - 1), IPoint3(p.x, p.y, p.z + 1)]
  }

  /** The set the solver builds from the input lines. */
  function Cubes(points: seq<IPoint3>): (cubes: set<IPoint3>)
    ensures forall q :: q in cubes <==> q in points
  {
    set q | q in points
  }

  // ---------------------------------------------------------------------------
  // Part 1

  /** How many of the points are not cubes. */
  function Missing(cubes: set<IPoint3>, ns: seq<IPoint3>): (n: nat)
    ensures n <= |ns|
    ensures n == 0 <==> forall i :: 0 <= i < |ns| ==> ns[i] in cubes
  {
    if ns == [] then 0 else (if ns[0] in cubes then 0 else 1) + Missing(cubes, ns[1..])
  }

  /** The faces of the listed cubes that touch no cube. */
  function Faces(cubes: set<IPoint3>, points: seq<IPoint3>): (n: nat)
    ensures n <= 6 * |points|
  {
    if points == [] then 0
    else Faces(cubes, points[..|points| - 1]) + Missing(cubes, Neighbours(points[|points| - 1]))
  }

  /** `Part1`: the loop over the cubes with its six tests per cube. */
  method Part1(points: seq<IPoint3>) returns (total: int)
    requires forall i, j :: 0 <= i < j < |points| ==> points[i] != points[j]
    ensures total == Faces(Cubes(points), points)
    ensures 0 <= total <= 6 * |points|
  {
    var cubes := Cubes(points);
    total := 0;
    for k := 0 to |points|
      invariant total == Faces(cubes, points[..k])
    {
      var p := points[k];
      assert points[..k + 1][..k] == points[..k];
      assert Faces(cubes, points[..k + 1]) == Faces(cubes, points[..k]) + Missing(cubes, Neighbours(p));
      SixMissing(cubes, Neighbours(p));
      if IPoint3(p.x - 1, p.y, p.z) !in cubes {
        total := total + 1;
      }
      if IPoint3(p.x + 1, p.y, p.z) !in cubes {
        total := total + 1;
      }
      if IPoint3(p.x, p.y - 1, p.z) !in cubes {
        total := total + 1;
      }
      if IPoint3(p.x, p.y + 1, p.z) !in cubes {
        total := total + 1;
      }
      if IPoint3(p.x, p.y, p.z - 1) !in cubes {
        total := total + 1;
      }
      if IPoint3(p.x, p.y, p.z + 1) !in cubes {
        total := total + 1;
      }
    }
    assert points[..|points|] == points;
  }

  /** `Missing` of six points, one test at a time. */
  lemma SixMissing(cubes: set<IPoint3>, ns: seq<IPoint3>)
    requires |ns| == 6
    ensures Missing(cubes, ns) == (if ns[0] in cubes then 0 else 1) + (if ns[1] in cubes then 0 else 1)
      + (if ns[2] in cubes then 0 else 1) + (if ns[3] in cubes then 0 else 1)
      + (if ns[4] in cubes then 0 else 1) + (if ns[5] in cubes then 0 else 1)
  {
    assert ns[5..][1..] == [];
    assert Missing(cubes, ns[5..]) == (if ns[5] in cubes then 0 else 1);
    assert ns[4..][1..] == ns[5..];
    assert Missing(cubes, ns[4..]) == (if ns[4] in cubes then 0 else 1) + Missing(cubes, ns[5..]);
    assert ns[3..][1..] == ns[4..];
    assert Missing(cubes, ns[3..]) == (if ns[3] in cubes then 0 else 1) + Missing(cubes, ns[4..]);
    assert ns[2..][1..] == ns[3..];
    assert Missing(cubes, ns[2..]) == (if ns[2] in cubes then 0 else 1) + Missing(cubes, ns[3..]);
    assert ns[1..][1..] == ns[2..];
    assert Missing(cubes, ns[1..]) == (if ns[1] in cubes then 0 else 1) + Missing(cubes, ns[2..]);
    assert Missing(cubes, ns) == (if ns[0] in cubes then 0 else 1) + Missing(cubes, ns[1..]);
  }

  // ---------------------------------------------------------------------------
  // Part 2: the bounding box

  /** The componentwise minimum and maximum the two `Aggregate` calls compute. */
  datatype Bounds = Bounds(lo: IPoint3, hi: IPoint3)

  predicate InBox(b: Bounds, q: IPoint3)
  {
    b.lo.x <= q.x <= b.hi.x && b.lo.y <= q.y <= b.hi.y && b.lo.z <= q.z <= b.hi.z
  }

  /** `int.Min` and `int.Max`. */
  function Min(a: int, b: int): int { if a <= b then a else b }
  function Max(a: int, b: int): int { if a >= b then a else b }

  /**
   * The two `Aggregate` calls, folding from the first point; `Aggregate` of an
   * empty sequence throws `InvalidOperationException`. The box is the smallest
   * one holding every point: each of its sides touches one.
   */
  function BoundsOf(points: seq<IPoint3>): (r: Result<Bounds>)
    ensures points == [] <==> r == Failure(InvalidOperationException)
    ensures r.Success? ==> forall i :: 0 <= i < |points| ==> InBox(r.value, points[i])
    ensures r.Success? ==>
      (exists i :: 0 <= i < |points| && points[i].x == r.value.lo.x) &&
      (exists i :: 0 <= i < |points| && points[i].y == r.value.lo.y) &&
      (exists i :: 0 <= i < |points| && points[i].z == r.value.lo.z) &&
      (exists i :: 0 <= i < |points| && points[i].x == r.value.hi.x) &&
      (exists i :: 0 <= i < |points| && points[i].y == r.value.hi.y) &&
      (exists i :: 0 <= i < |points| && points[i].z == r.value.hi.z)
  {
    if points == [] then Failure(InvalidOperationException)
    else if |points| == 1 then Success(Bounds(points[0], points[0]))
    else
      var init := points[..|points| - 1];
      var p := points[|points| - 1];
      var b := BoundsOf(init).value;
      assert forall i :: 0 <= i < |init| ==> init[i] == points[i];
      Success(Bounds(IPoint3(Min(b.lo.x, p.x), Min(b.lo.y, p.y), Min(b.lo.z, p.z)),
                     IPoint3(Max(b.hi.x, p.x), Max(b.hi.y, p.y), Max(b.hi.z, p.z))))
  }

  // ---------------------------------------------------------------------------
  // Part 2: what "exterior" means

  /** A walk through air: no step lands on a cube and each step crosses one face. */
  ghost predicate AirPath(cubes: set<IPoint3>, path: seq<IPoint3>)
  {
    |path| >= 1 &&
    (forall i :: 0 <= i < |path| ==> path[i] !in cubes) &&
    (forall i :: 0 <= i < |path| - 1 ==> Adjacent(path[i], path[i + 1]))
  }

  /** `q` is air from which a walk through air leaves the bounding box. */
  ghost predicate Escapes(cubes: set<IPoint3>, b: Bounds, q: IPoint3)
  {
    exists path :: AirPath(cubes, path) && path[0] == q && !InBox(b, path[|path| - 1])
  }

  /** A cube never escapes. */
  lemma CubeTrapped(cubes: set<IPoint3>, b: Bounds, q: IPoint3)
    ensures q in cubes ==> !Escapes(cubes, b, q)
  {
  }

  /** Air outside the box has already escaped. */
  lemma OutsideEscapes(cubes: set<IPoint3>, b: Bounds, q: IPoint3)
    requires !InBox(b, q)
    ensures q !in cubes ==> Escapes(cubes, b, q)
  {
    if q !in cubes {
      assert AirPath(cubes, [q]);
    }
  }

  /** Two walks joined end to start are a walk. */
  lemma JoinPaths(cubes: set<IPoint3>, a: seq<IPoint3>, c: seq<IPoint3>)
    requires AirPath(cubes, a) && AirPath(cubes, c) && a[|a| - 1] == c[0]
    ensures AirPath(cubes, a + c[1..]) && (a + c[1..])[0] == a[0]
    ensures (a + c[1..])[|a + c[1..]| - 1] == c[|c| - 1]
  {
    var w := a + c[1..];
    forall i | 0 <= i < |w| - 1
      ensures Adjacent(w[i], w[i + 1])
    {
      if i < |a| - 1 {
        assert w[i] == a[i] && w[i + 1] == a[i + 1];
      } else {
        assert w[i] == c[i - |a| + 1] && w[i + 1] == c[i - |a| + 2];
      }
    }
  }

  function Reverse(s: seq<IPoint3>): (r: seq<IPoint3>)
    ensures |r| == |s| && forall i :: 0 <= i < |s| ==> r[i] == s[|s| - 1 - i]
  {
    if s == [] then [] else Reverse(s[1..]) + [s[0]]
  }

  lemma AdjacentSymmetric(p: IPoint3, q: IPoint3)
    ensures Adjacent(p, q) == Adjacent(q, p)
  {
  }

  /** Air joined to `q` by a walk escapes exactly when `q` does. */
  lemma {:induction false} SameRegion(cubes: set<IPoint3>, b: Bounds, path: seq<IPoint3>)
    requires AirPath(cubes, path)
    ensures Escapes(cubes, b, path[0]) == Escapes(cubes, b, path[|path| - 1])
  {
    var p, q := path[0], path[|path| - 1];
    if Escapes(cubes, b, q) {
      var out :| AirPath(cubes, out) && out[0] == q && !InBox(b, out[|out| - 1]);
      JoinPaths(cubes, path, out);
    }
    if Escapes(cubes, b, p) {
      var out :| AirPath(cubes, out) && out[0] == p && !InBox(b, out[|out| - 1]);
      var back := Reverse(path);
      forall i | 0 <= i < |back| - 1
        ensures Adjacent(back[i], back[i + 1])
      {
        AdjacentSymmetric(path[|path| - 2 - i], path[|path| - 1 - i]);
      }
      assert AirPath(cubes, back);
      JoinPaths(cubes, back, out);
    }
  }

  /**
   * A region of air inside the box that every neighbour of its points either
   * stays in or is a cube: nothing in it escapes.
   */
  lemma Trapped(cubes: set<IPoint3>, b: Bounds, region: set<IPoint3>, p: IPoint3)
    requires p in region
    requires forall q :: q in region ==> InBox(b, q) && Enclosed(cubes, region, q)
    ensures !Escapes(cubes, b, p)
  {
    forall path | AirPath(cubes, path) && path[0] == p
      ensures InBox(b, path[|path| - 1])
    {
      StaysInRegion(cubes, b, region, path, |path| - 1);
    }
  }

  /** Every neighbour of `q` is a cube or lies in `region`. */
  ghost predicate Enclosed(cubes: set<IPoint3>, region: set<IPoint3>, q: IPoint3)
  {
    forall i :: 0 <= i < 6 ==> Neighbours(q)[i] in cubes || Neighbours(q)[i] in region
  }

  lemma {:induction false} StaysInRegion(cubes: set<IPoint3>, b: Bounds, region: set<IPoint3>, path: seq<IPoint3>, k: nat)
    requires AirPath(cubes, path) && path[0] in region && k < |path|
    requires forall q :: q in region ==> InBox(b, q) && Enclosed(cubes, region, q)
    ensures path[k] in region
  {
    if k > 0 {
      StaysInRegion(cubes, b, region, path, k - 1);
      var q := path[k - 1];
      assert Adjacent(q, path[k]);
      var i :| 0 <= i < 6 && Neighbours(q)[i] == path[k];
      assert Enclosed(cubes, region, q);
    }
  }

  /** The box grown by one on every side. */
  function Grown(b: Bounds): Bounds
  {
    Bounds(IPoint3(b.lo.x - 1, b.lo.y - 1, b.lo.z - 1), IPoint3(b.hi.x + 1, b.hi.y + 1, b.hi.z + 1))
  }

  /** The points of the grown box, as a finite set: the only points the flood fill can mark. */
  ghost function Grid(b: Bounds): (g: set<IPoint3>)
    ensures forall q :: q in g <==> InBox(Grown(b), q)
  {
    var g := set x, y, z | b.lo.x - 1 <= x <= b.hi.x + 1 && b.lo.y - 1 <= y <= b.hi.y + 1
                           && b.lo.z - 1 <= z <= b.hi.z + 1 :: IPoint3(x, y, z);
    assert forall q :: InBox(Grown(b), q) ==> IPoint3(q.x, q.y, q.z) in g;
    g
  }

  /** A step from inside the box stays inside the grown box. */
  lemma StepFromBox(b: Bounds, from: IPoint3, q: IPoint3)
    requires InBox(b, from) && Adjacent(from, q)
    ensures InBox(Grown(b), q)
  {
  }

  // ---------------------------------------------------------------------------
  // Part 2: the flood fill

  /**
   * The queue and the marks after some `TryEnqueue` calls around `from`: the
   * old queue is a prefix of the new one, every point added to the queue is
   * newly marked, and every newly marked point is queued and next to `from`.
   */
  ghost predicate Grew(visited: set<IPoint3>, unknown: seq<IPoint3>, visited': set<IPoint3>, unknown': seq<IPoint3>, from: IPoint3)
  {
    visited <= visited' && |unknown| <= |unknown'| && unknown'[..|unknown|] == unknown &&
    (forall j :: |unknown| <= j < |unknown'| ==> unknown'[j] in visited' && unknown'[j] !in visited) &&
    (forall q :: q in visited' && q !in visited ==> q in unknown' && Adjacent(from, q)) &&
    (visited' == visited ==> unknown' == unknown)
  }

  lemma GrewTrans(v0: set<IPoint3>, u0: seq<IPoint3>, v1: set<IPoint3>, u1: seq<IPoint3>,
                  v2: set<IPoint3>, u2: seq<IPoint3>, from: IPoint3)
    requires Grew(v0, u0, v1, u1, from) && Grew(v1, u1, v2, u2, from)
    ensures Grew(v0, u0, v2, u2, from)
  {
    assert u2[..|u0|] == u1[..|u1|][..|u0|];
    forall j | |u0| <= j < |u2|
      ensures u2[j] in v2 && u2[j] !in v0
    {
      if j < |u1| {
        assert u2[j] == u2[..|u1|][j];
      }
    }
    forall q | q in v2 && q !in v0
      ensures q in u2
    {
      if q in v1 {
        assert q == u1[..|u1|][IndexOf(u1, q)] == u2[IndexOf(u1, q)];
      }
    }
  }

  function IndexOf(s: seq<IPoint3>, q: IPoint3): (i: nat)
    requires q in s
    ensures i < |s| && s[i] == q
  {
    if s[0] == q then 0 else 1 + IndexOf(s[1..], q)
  }

  /** Every marked point is joined to `p` by the walk stored for it. */
  ghost predicate Linked(cubes: set<IPoint3>, p: IPoint3, visited: set<IPoint3>, via: map<IPoint3, seq<IPoint3>>)
  {
    via.Keys == visited &&
    forall q :: q in via ==> AirPath(cubes, via[q]) && via[q][0] == p && via[q][|via[q]| - 1] == q
  }

  /**
   * The state `Part2` shares between the calls of its local function
   * `Exterior`: the cubes, their bounding box and the `cache` of decided points.
   */
  class Scan {
    const cubes: set<IPoint3>
    const bounds: Bounds
    var cache: map<IPoint3, bool>

    /** Every cached answer is whether that point escapes. */
    ghost predicate Valid()
      reads this
    {
      forall q :: q in cache ==> cache[q] == Escapes(cubes, bounds, q)
    }

    constructor (cubes: set<IPoint3>, bounds: Bounds)
      ensures this.cubes == cubes && this.bounds == bounds && cache == map[]
      ensures Valid()
    {
      this.cubes := cubes;
      this.bounds := bounds;
      cache := map[];
    }

    /**
     * `QuickCheck`: a point outside the box is exterior, a cached point has
     * its cached answer, any other point is undecided.
     */
    function QuickCheck(q: IPoint3): (r: Option<bool>)
      reads this
      ensures r.None? <==> InBox(bounds, q) && q !in cache
      ensures !InBox(bounds, q) ==> r == Some(true)
      ensures Valid() && q !in cubes && r.Some? ==> r.value == Escapes(cubes, bounds, q)
    {
      if !InBox(bounds, q) then
        OutsideEscapes(cubes, bounds, q);
        Some(true)
      else if q in cache then Some(cache[q])
      else None
    }

    /**
     * `TryEnqueue`: air not seen before is marked and queued; a cube or a
     * marked point is left alone. The ghost `via` keeps a walk from `p` to
     * every marked point.
     */
    method TryEnqueue(q: IPoint3, visited: set<IPoint3>, unknown: seq<IPoint3>, ghost from: IPoint3,
                      ghost p: IPoint3, ghost via: map<IPoint3, seq<IPoint3>>, ghost route: seq<IPoint3>)
      returns (visited': set<IPoint3>, unknown': seq<IPoint3>, ghost via': map<IPoint3, seq<IPoint3>>)
      requires AirPath(cubes, route) && route[0] == p && route[|route| - 1] == from && Adjacent(from, q)
      requires Linked(cubes, p, visited, via)
      ensures q in visited || q in cubes ==> visited' == visited && unknown' == unknown
      ensures q !in visited && q !in cubes ==> visited' == visited + {q} && unknown' == unknown + [q]
      ensures Linked(cubes, p, visited', via')
      ensures Grew(visited, unknown, visited', unknown', from)
      ensures visited <= visited' && (q in cubes || q in visited')
    {
      if q in visited {
        return visited, unknown, via;
      }
      if q in cubes {
        return visited, unknown, via;
      }
      via' := via[q := route + [q]];
      assert AirPath(cubes, route + [q]) by {
        var w := route + [q];
        forall i | 0 <= i < |w| - 1
          ensures Adjacent(w[i], w[i + 1])
        {
          if i < |route| - 1 {
            assert w[i] == route[i] && w[i + 1] == route[i + 1];
          }
        }
      }
      visited' := visited + {q};
      unknown' := unknown + [q];
    }

    /**
     * The six `TryEnqueue` calls around `from`, a point reached from `p` by
     * `route`, taken in the order of `Neighbours`.
     */
    method Expand(from: IPoint3, visited: set<IPoint3>, unknown: seq<IPoint3>,
                  ghost p: IPoint3, ghost via: map<IPoint3, seq<IPoint3>>, ghost route: seq<IPoint3>)
      returns (visited': set<IPoint3>, unknown': seq<IPoint3>, ghost via': map<IPoint3, seq<IPoint3>>)
      requires AirPath(cubes, route) && route[0] == p && route[|route| - 1] == from
      requires Linked(cubes, p, visited, via)
      ensures Linked(cubes, p, visited', via')
      ensures Grew(visited, unknown, visited', unknown', from)
      ensures Enclosed(cubes, visited', from)
    {
      var ns := Neighbours(from);
      visited', unknown', via' := visited, unknown, via;
      for k := 0 to 6
        invariant Linked(cubes, p, visited', via')
        invariant Grew(visited, unknown, visited', unknown', from)
        invariant forall i :: 0 <= i < k ==> ns[i] in cubes || ns[i] in visited'
      {
        var v, u, w := TryEnqueue(ns[k], visited', unknown', from, p, via', route);
        GrewTrans(visited, unknown, visited', unknown', v, u, from);
        forall i | 0 <= i <= k
          ensures ns[i] in cubes || ns[i] in v
        {
          if i < k {
            assert ns[i] in cubes || ns[i] in visited';
          }
        }
        visited', unknown', via' := v, u, w;
      }
    }

    /**
     * The flood fill from `p` between two steps: every queued point is marked,
     * every marked point is queued or already expanded (inside the box, all its
     * neighbours cubes or marked), `p` is expanded, and the marks stay in the
     * grown box.
     */
    ghost predicate Filling(p: IPoint3, visited: set<IPoint3>, unknown: seq<IPoint3>, via: map<IPoint3, seq<IPoint3>>)
    {
      Linked(cubes, p, visited, via) &&
      (forall i :: 0 <= i < |unknown| ==> unknown[i] in visited) &&
      (forall q :: q in visited ==> q in unknown || (InBox(bounds, q) && Enclosed(cubes, visited, q))) &&
      p !in cubes && InBox(bounds, p) && Enclosed(cubes, visited, p) &&
      visited <= Grid(bounds)
    }

    /** The first fill step around `p` itself. */
    method Start(p: IPoint3) returns (visited: set<IPoint3>, unknown: seq<IPoint3>, ghost via: map<IPoint3, seq<IPoint3>>)
      requires p !in cubes && InBox(bounds, p)
      ensures Filling(p, visited, unknown, via)
    {
      assert AirPath(cubes, [p]);
      visited, unknown, via := Expand(p, {}, [], p, map[], [p]);
      forall q | q in visited
        ensures q in Grid(bounds)
      {
        StepFromBox(bounds, p, q);
      }
    }

    /** One fill step: the point taken from the queue is undecided, so its neighbours are tried. */
    method Advance(p: IPoint3, visited: set<IPoint3>, unknown: seq<IPoint3>, ghost via: map<IPoint3, seq<IPoint3>>)
      returns (visited': set<IPoint3>, unknown': seq<IPoint3>, ghost via': map<IPoint3, seq<IPoint3>>)
      requires Filling(p, visited, unknown, via) && unknown != [] && InBox(bounds, unknown[0])
      ensures Filling(p, visited', unknown', via')
      ensures visited <= visited' <= Grid(bounds)
      ensures visited' == visited ==> |unknown'| < |unknown|
    {
      var check := unknown[0];
      var rest := unknown[1..];
      assert forall q :: q in unknown && q != check ==> q in rest;
      visited', unknown', via' := Expand(check, visited, rest, p, via, via[check]);
      forall q | q in visited' && q !in visited
        ensures q in Grid(bounds)
      {
        StepFromBox(bounds, check, q);
      }
      forall q | q in visited'
        ensures q in unknown' || (InBox(bounds, q) && Enclosed(cubes, visited', q))
      {
        if q in visited && q != check && q in rest {
          assert q == rest[IndexOf(rest, q)] == unknown'[IndexOf(rest, q)];
        }
      }
    }

    /** A shrinking unmarked part of the grid, or else a shorter queue. */
    lemma Progress(visited: set<IPoint3>, visited': set<IPoint3>)
      requires visited <= visited' <= Grid(bounds) && visited' != visited
      ensures |Grid(bounds) - visited'| < |Grid(bounds) - visited|
    {
      var q :| q in visited' && q !in visited;
      var small, large := Grid(bounds) - visited', Grid(bounds) - visited;
      assert large == small + (large - small) && small * (large - small) == {};
      assert q in large - small;
      assert |large - small| >= 1;
    }

    /**
     * The fill reached a decided point `check` with answer `v`: the answer is
     * cached for `check`, for `p` and for every point still queued.
     */
    method Settle(p: IPoint3, check: IPoint3, v: bool, unknown: seq<IPoint3>,
                  ghost visited: set<IPoint3>, ghost via: map<IPoint3, seq<IPoint3>>)
      requires Valid() && Linked(cubes, p, visited, via) && check in visited
      requires forall i :: 0 <= i < |unknown| ==> unknown[i] in visited
      requires v == Escapes(cubes, bounds, check)
      modifies this
      ensures Valid() && v == Escapes(cubes, bounds, p)
      ensures old(cache).Keys + {check, p} <= cache.Keys
      ensures forall i :: 0 <= i < |unknown| ==> unknown[i] in cache
    {
      SameRegion(cubes, bounds, via[check]);
      Record(check, v);
      Record(p, v);
      var rest := unknown;
      ghost var n := 0;
      while rest != []
        invariant 0 <= n <= |unknown| && rest == unknown[n..]
        invariant Valid() && old(cache).Keys + {check, p} <= cache.Keys
        invariant forall i :: 0 <= i < n ==> unknown[i] in cache
      {
        var next := rest[0];
        SameRegion(cubes, bounds, via[next]);
        Record(next, v);
        rest := rest[1..];
        n := n + 1;
      }
    }

    /** Caches the answer for `q`. */
    method Record(q: IPoint3, v: bool)
      requires Valid() && v == Escapes(cubes, bounds, q)
      modifies this
      ensures Valid() && cache == old(cache)[q := v]
    {
      cache := cache[q := v];
    }

    /** A fill whose queue ran dry has found every point `p` can reach, all inside the box. */
    lemma Exhausted(p: IPoint3, visited: set<IPoint3>, via: map<IPoint3, seq<IPoint3>>)
      requires Filling(p, visited, [], via)
      ensures !Escapes(cubes, bounds, p)
    {
      var region := visited + {p};
      forall q | q in region
        ensures InBox(bounds, q) && Enclosed(cubes, region, q)
      {
      }
      Trapped(cubes, bounds, region, p);
    }

    /**
     * `Exterior`: whether air at `p` reaches the outside of the box. An
     * undecided point starts a flood fill that stops at the first decided
     * point, whose answer is cached for it, for `p` and for everything still
     * queued; a fill that runs dry caches `p` as enclosed. Cached answers
     * are never dropped.
     */
    method Exterior(p: IPoint3) returns (r: bool)
      requires Valid()
      modifies this
      ensures Valid()
      ensures r == Escapes(cubes, bounds, p)
      ensures old(cache).Keys <= cache.Keys
      ensures InBox(bounds, p) && p !in cubes ==> p in cache
    {
      if p in cubes {
        CubeTrapped(cubes, bounds, p);
        return false;
      }
      var easyPeasy := QuickCheck(p);
      if easyPeasy.Some? {
        return easyPeasy.value;
      }
      var visited, unknown, via := Start(p);
      while unknown != []
        invariant Filling(p, visited, unknown, via)
        invariant cache == old(cache) && p !in cache
        decreases |Grid(bounds) - visited|, |unknown|
      {
        var res := QuickCheck(unknown[0]);
        if res.Some? {
          Settle(p, unknown[0], res.value, unknown[1..], visited, via);
          return res.value;
        }
        ghost var before := visited;
        visited, unknown, via := Advance(p, visited, unknown, via);
        if visited != before {
          Progress(before, visited);
        }
      }
      Exhausted(p, visited, via);
      // `cache.Add`: `p` is not yet a key, so it does not throw.
      Record(p, false);
      return false;
    }

    /** The six `Exterior` tests of one cube in `Part2`. */
    method ExteriorAround(p: IPoint3) returns (n: int)
      requires Valid()
      modifies this
      ensures Valid()
      ensures n == Escaping(cubes, bounds, Neighbours(p))
    {
      SixEscaping(cubes, bounds, Neighbours(p));
      n := 0;
      n := Tally(IPoint3(p.x - 1, p.y, p.z), n);
      n := Tally(IPoint3(p.x + 1, p.y, p.z), n);
      n := Tally(IPoint3(p.x, p.y - 1, p.z), n);
      n := Tally(IPoint3(p.x, p.y + 1, p.z), n);
      n := Tally(IPoint3(p.x, p.y, p.z - 1), n);
      n := Tally(IPoint3(p.x, p.y, p.z + 1), n);
    }

    /** One test of `Part2`: the count goes up by one when `q` is exterior. */
    method Tally(q: IPoint3, n: int) returns (n': int)
      requires Valid()
      modifies this
      ensures Valid()
      ensures n' == n + if Escapes(cubes, bounds, q) then 1 else 0
    {
      n' := n;
      var e := Exterior(q);
      if e {
        n' := n' + 1;
      }
    }
  }

  // ---------------------------------------------------------------------------
  // Part 2: the count

  /** How many of the points are air that escapes the box; never more than the points that are not cubes. */
  ghost function Escaping(cubes: set<IPoint3>, b: Bounds, ns: seq<IPoint3>): (n: nat)
    ensures n <= Missing(cubes, ns)
  {
    if ns == [] then 0
    else
      CubeTrapped(cubes, b, ns[0]);
      (if Escapes(cubes, b, ns[0]) then 1 else 0) + Escaping(cubes, b, ns[1..])
  }

  /** The faces of the listed cubes whose neighbouring air escapes the box. */
  ghost function ExteriorFaces(cubes: set<IPoint3>, b: Bounds, points: seq<IPoint3>): nat
  {
    if points == [] then 0
    else ExteriorFaces(cubes, b, points[..|points| - 1]) + Escaping(cubes, b, Neighbours(points[|points| - 1]))
  }

  /** The exterior surface is part of the whole surface: part 2 never exceeds part 1. */
  lemma {:induction false} ExteriorAtMostFaces(cubes: set<IPoint3>, b: Bounds, points: seq<IPoint3>)
    ensures ExteriorFaces(cubes, b, points) <= Faces(cubes, points)
  {
    if points != [] {
      ExteriorAtMostFaces(cubes, b, points[..|points| - 1]);
    }
  }

  /** `Escaping` of six points, one test at a time. */
  lemma SixEscaping(cubes: set<IPoint3>, b: Bounds, ns: seq<IPoint3>)
    requires |ns| == 6
    ensures Escaping(cubes, b, ns) == (if Escapes(cubes, b, ns[0]) then 1 else 0) + (if Escapes(cubes, b, ns[1]) then 1 else 0)
      + (if Escapes(cubes, b, ns[2]) then 1 else 0) + (if Escapes(cubes, b, ns[3]) then 1 else 0)
      + (if Escapes(cubes, b, ns[4]) then 1 else 0) + (if Escapes(cubes, b, ns[5]) then 1 else 0)
  {
    assert ns[5..][1..] == [];
    assert Escaping(cubes, b, ns[5..]) == (if Escapes(cubes, b, ns[5]) then 1 else 0);
    assert ns[4..][1..] == ns[5..];
    assert Escaping(cubes, b, ns[4..]) == (if Escapes(cubes, b, ns[4]) then 1 else 0) + Escaping(cubes, b, ns[5..]);
    assert ns[3..][1..] == ns[4..];
    assert Escaping(cubes, b, ns[3..]) == (if Escapes(cubes, b, ns[3]) then 1 else 0) + Escaping(cubes, b, ns[4..]);
    assert ns[2..][1..] == ns[3..];
    assert Escaping(cubes, b, ns[2..]) == (if Escapes(cubes, b, ns[2]) then 1 else 0) + Escaping(cubes, b, ns[3..]);
    assert ns[1..][1..] == ns[2..];
    assert Escaping(cubes, b, ns[1..]) == (if Escapes(cubes, b, ns[1]) then 1 else 0) + Escaping(cubes, b, ns[2..]);
    assert Escaping(cubes, b, ns) == (if Escapes(cubes, b, ns[0]) then 1 else 0) + Escaping(cubes, b, ns[1..]);
  }

  /**
   * `Part2`: the bounding box, then the six `Exterior` tests per cube sharing
   * one cache. With no cubes, `Aggregate` throws.
   */
  method Part2(points: seq<IPoint3>) returns (r: Result<int>)
    requires forall i, j :: 0 <= i < j < |points| ==> points[i] != points[j]
    ensures points == [] ==> r == Failure(InvalidOperationException)
    ensures points != [] ==> r == Success(ExteriorFaces(Cubes(points), BoundsOf(points).value, points))
  {
    var bounds := BoundsOf(points);
    if bounds.Failure? {
      return Failure(bounds.error);
    }
    var cubes := Cubes(points);
    var b := bounds.value;
    var scan := new Scan(cubes, b);
    var total := 0;
    for k := 0 to |points|
      invariant scan.cubes == cubes && scan.bounds == b && scan.Valid()
      invariant total == ExteriorFaces(cubes, b, points[..k])
    {
      var p := points[k];
      assert points[..k + 1][..k] == points[..k];
      var n := scan.ExteriorAround(p);
      total := total + n;
    }
    assert points[..|points|] == points;
    return Success(total);
  }
}
