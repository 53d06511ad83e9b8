/**
 * Problem 19: robot factories. A state is the production rate, the stock and the
 * minutes remaining; the search is a hand-inlined breadth-first search whose
 * cache maps (stock, production) to the most minutes remaining seen there.
 */
module Problem19 {
  import opened Numerics
  import opened Wrappers
  import Algorithms
  import opened Seqs

  newtype int16 = x: int | -0x8000 <= x < 0x8000

  /** The unchecked `(short)` cast of an `int` result. */
  function Short(x: int): int16
  {
    Wrap16(x) as int16
  }

  /** A vector of ore, clay, obsidian and geode counts, each a C# `short`. */
  datatype Resource = Resource(ore: int16, clay: int16, obsidian: int16, geode: int16)

  const Zero := Resource(0, 0, 0, 0)

  /** `a + b`: componentwise, each sum cast back to `short`. */
  function Plus(a: Resource, b: Resource): (r: Resource)
    ensures IsInt16(a.ore as int + b.ore as int) ==> r.ore as int == a.ore as int + b.ore as int
    ensures IsInt16(a.clay as int + b.clay as int) ==> r.clay as int == a.clay as int + b.clay as int
    ensures IsInt16(a.obsidian as int + b.obsidian as int) ==> r.obsidian as int == a.obsidian as int + b.obsidian as int
    ensures IsInt16(a.geode as int + b.geode as int) ==> r.geode as int == a.geode as int + b.geode as int
  {
    Resource(Short(a.ore as int + b.ore as int), Short(a.clay as int + b.clay as int),
             Short(a.obsidian as int + b.obsidian as int), Short(a.geode as int + b.geode as int))
  }

  /** `a - b`: componentwise, each difference cast back to `short`. */
  function Minus(a: Resource, b: Resource): (r: Resource)
    ensures IsInt16(a.ore as int - b.ore as int) ==> r.ore as int == a.ore as int - b.ore as int
    ensures IsInt16(a.clay as int - b.clay as int) ==> r.clay as int == a.clay as int - b.clay as int
    ensures IsInt16(a.obsidian as int - b.obsidian as int) ==> r.obsidian as int == a.obsidian as int - b.obsidian as int
    ensures IsInt16(a.geode as int - b.geode as int) ==> r.geode as int == a.geode as int - b.geode as int
  {
    Resource(Short(a.ore as int - b.ore as int), Short(a.clay as int - b.clay as int),
             Short(a.obsidian as int - b.obsidian as int), Short(a.geode as int - b.geode as int))
  }

  /** `a * b`: every component scaled by the `int` b, each product cast back to `short`. */
  function Times(a: Resource, b: int): (r: Resource)
    ensures IsInt16(a.ore as int * b) ==> r.ore as int == a.ore as int * b
    ensures IsInt16(a.clay as int * b) ==> r.clay as int == a.clay as int * b
    ensures IsInt16(a.obsidian as int * b) ==> r.obsidian as int == a.obsidian as int * b
    ensures IsInt16(a.geode as int * b) ==> r.geode as int == a.geode as int * b
  {
    Resource(Short(a.ore as int * b), Short(a.clay as int * b), Short(a.obsidian as int * b), Short(a.geode as int * b))
  }

  /** `-` undoes `+` and `+` undoes `-`, even when a component wraps around. */
  lemma MinusUndoesPlus(a: Resource, b: Resource)
    ensures Minus(Plus(a, b), b) == a
    ensures Plus(Minus(a, b), b) == a
  {
    MinusAfterPlus(a, b);
    PlusAfterMinus(a, b);
  }

  lemma MinusAfterPlus(a: Resource, b: Resource)
    ensures Minus(Plus(a, b), b) == a
  {
    ShortCancel(a.ore, b.ore);
    ShortCancel(a.clay, b.clay);
    ShortCancel(a.obsidian, b.obsidian);
    ShortCancel(a.geode, b.geode);
  }

  lemma PlusAfterMinus(a: Resource, b: Resource)
    ensures Plus(Minus(a, b), b) == a
  {
    ShortCancel(a.ore, b.ore);
    ShortCancel(a.clay, b.clay);
    ShortCancel(a.obsidian, b.obsidian);
    ShortCancel(a.geode, b.geode);
  }

  lemma ShortCancel(x: int16, y: int16)
    ensures Short(Short(x as int + y as int) as int - y as int) == x
    ensures Short(Short(x as int - y as int) as int + y as int) == x
  {
    Wrap16Cancel(x as int, y as int);
  }

  /**
   * When no component leaves the `short` range, `+` is exact componentwise
   * addition; scaling by 1 and adding `Zero` change nothing.
   */
  lemma ExactWithoutOverflow(a: Resource, b: Resource)
    ensures IsInt16(a.ore as int + b.ore as int) && IsInt16(a.clay as int + b.clay as int)
            && IsInt16(a.obsidian as int + b.obsidian as int) && IsInt16(a.geode as int + b.geode as int)
            ==> Plus(a, b) == Resource(a.ore + b.ore, a.clay + b.clay, a.obsidian + b.obsidian, a.geode + b.geode)
    ensures Times(a, 1) == a && Times(a, 0) == Zero && Plus(a, Zero) == a
  {
  }

  /** `CompareTo`: 1 when `a` exceeds `b` in every component, -1 when it is below in every one, else 0. */
  function CompareTo(a: Resource, b: Resource): (r: int)
    ensures r == -1 || r == 0 || r == 1
    ensures r == 1 <==> StrictlyAbove(a, b)
    ensures r == -1 <==> StrictlyAbove(b, a)
    ensures r == 0 <==> !StrictlyAbove(a, b) && !StrictlyAbove(b, a)
    ensures r == 1 ==> AtLeast(a, b) && a != b
    ensures r == -1 ==> AtMost(a, b) && a != b
  {
    if (a.ore) > (b.ore) && (a.clay) > (b.clay)
       && (a.obsidian) > (b.obsidian) && (a.geode) > (b.geode) then 1
    else if (a.ore) < (b.ore) && (a.clay) < (b.clay)
       && (a.obsidian) < (b.obsidian) && (a.geode) < (b.geode) then -1
    else 0
  }

  /** Every component of `a` strictly larger than the same component of `b`. */
  predicate StrictlyAbove(a: Resource, b: Resource)
  {
    a.ore > b.ore && a.clay > b.clay && a.obsidian > b.obsidian && a.geode > b.geode
  }

  /** `a > b` and `a < b` go through `CompareTo`. */
  predicate Greater(a: Resource, b: Resource) { CompareTo(a, b) > 0 }
  predicate Less(a: Resource, b: Resource) { CompareTo(a, b) < 0 }

  /** `a >= b`: every component at least as large. */
  predicate AtLeast(a: Resource, b: Resource)
  {
    (a.ore) >= (b.ore) && (a.clay) >= (b.clay)
    && (a.obsidian) >= (b.obsidian) && (a.geode) >= (b.geode)
  }

  /** `a <= b`: every component at most as large. */
  predicate AtMost(a: Resource, b: Resource)
  {
    (a.ore) <= (b.ore) && (a.clay) <= (b.clay)
    && (a.obsidian) <= (b.obsidian) && (a.geode) <= (b.geode)
  }

  /**
   * The order the operators define: `>` is strict dominance in all four
   * components and `<` its mirror; `CompareTo` is sign-antisymmetric; `>` is
   * irreflexive and transitive and implies `>=`.
   */
  lemma DominanceOrder(a: Resource, b: Resource, c: Resource)
    ensures CompareTo(a, b) == -CompareTo(b, a)
    ensures Greater(a, b) <==> Less(b, a)
    ensures Greater(a, b) <==> StrictlyAbove(a, b)
    ensures Less(a, b) <==> StrictlyAbove(b, a)
    ensures Greater(a, b) ==> AtLeast(a, b) && a != b
    ensures !Greater(a, a) && CompareTo(a, a) == 0
    ensures Greater(a, b) && Greater(b, c) ==> Greater(a, c)
  {
  }

  /** `>=` and `<=` are mirror images and form a partial order: reflexive, antisymmetric, transitive. */
  lemma ComponentwiseOrder(a: Resource, b: Resource, c: Resource)
    ensures AtLeast(a, b) <==> AtMost(b, a)
    ensures AtLeast(a, a)
    ensures AtLeast(a, b) && AtLeast(b, a) ==> a == b
    ensures AtLeast(a, b) && AtLeast(b, c) ==> AtLeast(a, c)
  {
  }

  datatype Robot = Robot(cost: Resource, produce: Resource)

  datatype Blueprint = Blueprint(id: int, robots: seq<Robot>)

  datatype FactoryState = FactoryState(production: Resource, stock: Resource, remaining: int)

  /**
   * The four robots of a parsed blueprint line, each producing one unit of its
   * resource; the byte costs become the `short` components.
   */
  function ParsedBlueprint(id: int, oreOreCost: bv8, clayOreCost: bv8, obsidianOreCost: bv8, obsidianClayCost: bv8,
                           geodeOreCost: bv8, geodeObsidianCost: bv8): (bp: Blueprint)
    ensures |bp.robots| == 4
    ensures bp.robots[0].produce == Resource(1, 0, 0, 0) && bp.robots[1].produce == Resource(0, 1, 0, 0)
    ensures bp.robots[2].produce == Resource(0, 0, 1, 0) && bp.robots[3].produce == Resource(0, 0, 0, 1)
    ensures forall r :: r in bp.robots ==> AtLeast(r.cost, Zero) && r.cost.geode == 0
  {
    Blueprint(id, [
      Robot(Resource(oreOreCost as int16, 0, 0, 0), Resource(1, 0, 0, 0)),
      Robot(Resource(clayOreCost as int16, 0, 0, 0), Resource(0, 1, 0, 0)),
      Robot(Resource(obsidianOreCost as int16, obsidianClayCost as int16, 0, 0), Resource(0, 0, 1, 0)),
      Robot(Resource(geodeOreCost as int16, 0, geodeObsidianCost as int16, 0), Resource(0, 0, 0, 1))])
  }

  /** One minute passes: the stock grows by the production and one minute is used. */
  function StepState(s: FactoryState): (r: FactoryState)
    ensures r.production == s.production && r.remaining == s.remaining - 1
  {
    s.(stock := Plus(s.stock, s.production), remaining := s.remaining - 1)
  }

  /**
   * Building `robot`: pay its cost, let a minute pass, then add its production.
   */
  function Build(s: FactoryState, robot: Robot): (r: FactoryState)
    ensures r.remaining == s.remaining - 1
  {
    var spendResources := s.(stock := Minus(s.stock, robot.cost));
    var produce := StepState(spendResources);
    produce.(production := Plus(produce.production, robot.produce))
  }

  /**
   * Waiting a minute adds exactly the production to the stock: taking it away
   * again gives back the old stock, however the components wrap.
   */
  lemma StepStateAccumulates(s: FactoryState)
    ensures StepState(s).production == s.production
    ensures Minus(StepState(s).stock, s.production) == s.stock
  {
    MinusUndoesPlus(s.stock, s.production);
  }

  /**
   * Building a robot adds exactly its production to the production, and the new
   * stock is the old stock less the cost plus the old production: removing the
   * production and paying the cost back gives the old stock.
   */
  lemma BuildPaysAndProduces(s: FactoryState, robot: Robot)
    ensures Minus(Build(s, robot).production, robot.produce) == s.production
    ensures Plus(Minus(Build(s, robot).stock, s.production), robot.cost) == s.stock
  {
    MinusUndoesPlus(s.production, robot.produce);
    MinusUndoesPlus(Minus(s.stock, robot.cost), s.production);
    MinusUndoesPlus(s.stock, robot.cost);
  }

  /** The componentwise maximum of two resource vectors (`short.Max` per component). */
  function ShortMax(x: int16, y: int16): int16
  {
    if x >= y then x else y
  }

  function Max(a: Resource, b: Resource): Resource
  {
    Resource(ShortMax(a.ore, b.ore), ShortMax(a.clay, b.clay), ShortMax(a.obsidian, b.obsidian), ShortMax(a.geode, b.geode))
  }

  /**
   * `maxCosts`: the robot costs aggregated with `Max`, left to right. It bounds
   * every cost, and each of its components is some robot's cost component.
   */
  function MaxCosts(robots: seq<Robot>): (m: Resource)
    requires |robots| > 0
    ensures forall r :: r in robots ==> AtLeast(m, r.cost)
    ensures exists r :: r in robots && r.cost.ore == m.ore
    ensures exists r :: r in robots && r.cost.clay == m.clay
    ensures exists r :: r in robots && r.cost.obsidian == m.obsidian
    ensures exists r :: r in robots && r.cost.geode == m.geode
    decreases |robots|
  {
    if |robots| == 1 then robots[0].cost
    else
      var prefix := robots[..|robots| - 1];
      var last := robots[|robots| - 1];
      assert robots == prefix + [last];
      var m := MaxCosts(prefix);
      Max(m, last.cost)
  }

  /**
   * Whether `robot` is built from state `s`: it is affordable, and it is not an
   * ore, clay or obsidian robot whose resource is already produced at least as
   * fast as the largest cost in that resource.
   */
  predicate Buildable(robot: Robot, maxCosts: Resource, s: FactoryState)
  {
    && AtLeast(s.stock, robot.cost)
    && !(robot.produce.ore != 0 && (maxCosts.ore) <= (s.production.ore))
    && !(robot.produce.clay != 0 && (maxCosts.clay) <= (s.production.clay))
    && !(robot.produce.obsidian != 0 && (maxCosts.obsidian) <= (s.production.obsidian))
  }

  /** After building a geode or an obsidian robot no further successor is generated. */
  predicate Stops(robot: Robot)
  {
    robot.produce.geode != 0 || robot.produce.obsidian != 0
  }

  /**
   * The successors offered while visiting `robots[i-1]`, `robots[i-2]`, ..., `robots[0]`
   * (the list reversed), followed by waiting a minute unless a stopping robot was built.
   */
  function Offers(robots: seq<Robot>, i: nat, maxCosts: Resource, s: FactoryState): (r: seq<FactoryState>)
    requires i <= |robots|
    ensures 0 < |r| <= i + 1
    ensures forall x :: x in r ==> x.remaining == s.remaining - 1
    decreases i
  {
    if i == 0 then [StepState(s)]
    else
      var robot := robots[i - 1];
      if Buildable(robot, maxCosts, s) then [Build(s, robot)] + (if Stops(robot) then [] else Offers(robots, i - 1, maxCosts, s))
      else Offers(robots, i - 1, maxCosts, s)
  }

  /** Every offer is waiting a minute or building one of the buildable robots. */
  lemma {:induction false} OffersAreMoves(robots: seq<Robot>, i: nat, maxCosts: Resource, s: FactoryState)
    requires i <= |robots|
    ensures forall x :: x in Offers(robots, i, maxCosts, s) ==>
              x == StepState(s) || exists j :: 0 <= j < i && Buildable(robots[j], maxCosts, s) && x == Build(s, robots[j])
    decreases i
  {
    if i > 0 {
      OffersAreMoves(robots, i - 1, maxCosts, s);
    }
  }

  /** Each buildable robot after the last buildable stopping robot is offered. */
  lemma {:induction false} BuildableIsOffered(robots: seq<Robot>, i: nat, maxCosts: Resource, s: FactoryState, j: nat)
    requires j < i <= |robots| && Buildable(robots[j], maxCosts, s)
    requires forall k :: j < k < i ==> !(Buildable(robots[k], maxCosts, s) && Stops(robots[k]))
    ensures Build(s, robots[j]) in Offers(robots, i, maxCosts, s)
    decreases i
  {
    if j < i - 1 {
      BuildableIsOffered(robots, i - 1, maxCosts, s, j);
    }
  }

  /** When no buildable robot stops the visit, the last offer is waiting a minute. */
  lemma {:induction false} WaitsUnlessStopped(robots: seq<Robot>, i: nat, maxCosts: Resource, s: FactoryState)
    requires i <= |robots|
    requires forall k :: 0 <= k < i ==> !(Buildable(robots[k], maxCosts, s) && Stops(robots[k]))
    ensures var r := Offers(robots, i, maxCosts, s); r[|r| - 1] == StepState(s)
    decreases i
  {
    if i > 0 {
      WaitsUnlessStopped(robots, i - 1, maxCosts, s);
    }
  }

  /**
   * A buildable geode or obsidian robot ends the visit: when it is the last
   * such robot, its build is the last offer and no wait is offered after it.
   */
  lemma {:induction false} StopsAtLastStopper(robots: seq<Robot>, i: nat, maxCosts: Resource, s: FactoryState, j: nat)
    requires j < i <= |robots| && Buildable(robots[j], maxCosts, s) && Stops(robots[j])
    requires forall k :: j < k < i ==> !(Buildable(robots[k], maxCosts, s) && Stops(robots[k]))
    ensures var r := Offers(robots, i, maxCosts, s); r[|r| - 1] == Build(s, robots[j])
    decreases i
  {
    if j < i - 1 {
      StopsAtLastStopper(robots, i - 1, maxCosts, s, j);
    }
  }

  /** The successors of a dequeued state with minutes left. */
  function NextStates(bp: Blueprint, maxCosts: Resource, s: FactoryState): seq<FactoryState>
  {
    if s.remaining >= 1 then Offers(bp.robots, |bp.robots|, maxCosts, s) else [StepState(s)]
  }

  function Key(s: FactoryState): (Resource, Resource) { (s.stock, s.production) }

  predicate MoreGeodes(a: FactoryState, b: FactoryState) { (a.stock.geode) > (b.stock.geode) }

  /**
   * The search seen through the generic engine: a state with no minutes left has
   * no successors; the identity is (stock, production), the score is the minutes
   * remaining, and a score is better when it is strictly larger.
   */
  function Rules(bp: Blueprint, maxCosts: Resource): Algorithms.Callbacks<FactoryState, (Resource, Resource), int>
  {
    Algorithms.Callbacks(
      (s: FactoryState) => if s.remaining == 0 then [] else NextStates(bp, maxCosts, s),
      MoreGeodes,
      Some(Key),
      (s: FactoryState) => s.remaining,
      (a: int, b: int) => a > b)
  }

  lemma RulesNextStates(bp: Blueprint, maxCosts: Resource, s: FactoryState)
    ensures Rules(bp, maxCosts).nextStates(s) == if s.remaining == 0 then [] else NextStates(bp, maxCosts, s)
  {
  }

  /**
   * `TryEnqueue`: a state is queued only if its (stock, production) key is new
   * or it has strictly more minutes remaining than cached; the cache then holds
   * its minutes.
   */
  method TryEnqueue(queue: seq<FactoryState>, cache: map<(Resource, Resource), int>, s: FactoryState)
    returns (queue': seq<FactoryState>, cache': map<(Resource, Resource), int>)
    ensures Key(s) !in cache || cache[Key(s)] < s.remaining ==> queue' == queue + [s] && cache' == cache[Key(s) := s.remaining]
    ensures Key(s) in cache && cache[Key(s)] >= s.remaining ==> queue' == queue && cache' == cache
  {
    var found := Key(s) in cache;
    if found && cache[Key(s)] >= s.remaining {
      return queue, cache;
    }
    queue', cache' := queue + [s], cache[Key(s) := s.remaining];
  }

  function Pow(b: nat, e: nat): nat
  {
    if e == 0 then 1 else b * Pow(b, e - 1)
  }

  /** The termination measure: each queued state weighs base^remaining. */
  function Potential(base: nat, q: seq<FactoryState>): nat
  {
    if q == [] then 0 else Pow(base, if q[0].remaining > 0 then q[0].remaining else 0) + Potential(base, q[1..])
  }

  lemma {:induction false} PotentialAppend(base: nat, a: seq<FactoryState>, b: seq<FactoryState>)
    ensures Potential(base, a + b) == Potential(base, a) + Potential(base, b)
    decreases |a|
  {
    if a == [] {
      assert a + b == b;
    } else {
      assert (a + b)[0] == a[0];
      assert (a + b)[1..] == a[1..] + b;
      PotentialAppend(base, a[1..], b);
    }
  }

  lemma {:induction false} PotentialUniform(base: nat, q: seq<FactoryState>, e: nat)
    requires forall x :: x in q ==> x.remaining == e
    ensures Potential(base, q) == |q| * Pow(base, e)
    decreases |q|
  {
    if q != [] {
      PotentialUniform(base, q[1..], e);
    }
  }

  /** Expanding the head state replaces its weight by a strictly smaller total. */
  lemma ExpansionShrinks(bp: Blueprint, maxCosts: Resource, queue: seq<FactoryState>, cache: map<(Resource, Resource), int>,
                         admitted: seq<FactoryState>)
    requires queue != [] && queue[0].remaining >= 1
    requires admitted == Algorithms.AdmitAll(Rules(bp, maxCosts), cache, NextStates(bp, maxCosts, queue[0])).0
    ensures Potential(|bp.robots| + 2, queue[1..] + admitted) < Potential(|bp.robots| + 2, queue)
    ensures forall x :: x in admitted ==> x.remaining == queue[0].remaining - 1
  {
    var ns := NextStates(bp, maxCosts, queue[0]);
    Algorithms.AdmittedFromCandidates(Rules(bp, maxCosts), cache, ns);
    PotentialShrinks(|bp.robots| + 2, queue, admitted);
  }

  /** Replacing the head by fewer than `base` states one minute younger lowers the potential. */
  lemma PotentialShrinks(base: nat, queue: seq<FactoryState>, admitted: seq<FactoryState>)
    requires queue != [] && queue[0].remaining >= 1 && |admitted| < base
    requires forall x :: x in admitted ==> x.remaining == queue[0].remaining - 1
    ensures Potential(base, queue[1..] + admitted) < Potential(base, queue)
  {
    var r := queue[0].remaining;
    PotentialUniform(base, admitted, r - 1);
    PotentialAppend(base, queue[1..], admitted);
    PowPositive(base, r - 1);
    MulStrict(|admitted|, base, Pow(base, r - 1));
  }

  lemma {:induction false} PowPositive(b: nat, e: nat)
    requires b > 0
    ensures Pow(b, e) > 0
  {
    if e > 0 {
      PowPositive(b, e - 1);
    }
  }

  lemma MulStrict(x: nat, y: nat, c: nat)
    requires x < y && c > 0
    ensures x * c < y * c
  {
  }

  lemma OffersSkip(robots: seq<Robot>, i: nat, maxCosts: Resource, s: FactoryState)
    requires 0 < i <= |robots| && !Buildable(robots[i - 1], maxCosts, s)
    ensures Offers(robots, i, maxCosts, s) == Offers(robots, i - 1, maxCosts, s)
  {
  }

  lemma OffersBuild(robots: seq<Robot>, i: nat, maxCosts: Resource, s: FactoryState)
    requires 0 < i <= |robots| && Buildable(robots[i - 1], maxCosts, s)
    ensures Offers(robots, i, maxCosts, s)
            == [Build(s, robots[i - 1])] + (if Stops(robots[i - 1]) then [] else Offers(robots, i - 1, maxCosts, s))
  {
  }

  /** The engine's dedup rule under `Rules` is the rule `TryEnqueue` applies. */
  lemma RulesAdmitSnoc(bp: Blueprint, maxCosts: Resource, cache: map<(Resource, Resource), int>,
                       offered: seq<FactoryState>, x: FactoryState)
    ensures var (admitted, table) := Algorithms.AdmitAll(Rules(bp, maxCosts), cache, offered);
            Algorithms.AdmitAll(Rules(bp, maxCosts), cache, offered + [x])
            == if Key(x) !in table || table[Key(x)] < x.remaining then (admitted + [x], table[Key(x) := x.remaining])
               else (admitted, table)
  {
    assert (offered + [x])[..|offered|] == offered;
  }

  /**
   * `TryEnqueue` on one more offer extends the engine's admission of the
   * offers so far by that offer.
   */
  method EnqueueOffer(bp: Blueprint, maxCosts: Resource, cache: map<(Resource, Resource), int>,
                      queue: seq<FactoryState>, ghost offered: seq<FactoryState>, ghost admitted: seq<FactoryState>,
                      q: seq<FactoryState>, c: map<(Resource, Resource), int>, x: FactoryState)
    returns (q': seq<FactoryState>, c': map<(Resource, Resource), int>, ghost admitted': seq<FactoryState>)
    requires q == queue + admitted && (admitted, c) == Algorithms.AdmitAll(Rules(bp, maxCosts), cache, offered)
    ensures q' == queue + admitted' && (admitted', c') == Algorithms.AdmitAll(Rules(bp, maxCosts), cache, offered + [x])
  {
    RulesAdmitSnoc(bp, maxCosts, cache, offered, x);
    q', c' := TryEnqueue(q, c, x);
    admitted' := Algorithms.AdmitAll(Rules(bp, maxCosts), cache, offered + [x]).0;
  }

  /**
   * The robot loop of one expansion: visit the robots from last to first,
   * offering each build that is affordable and not skipped to `TryEnqueue`,
   * and stop after a geode or obsidian robot. What was offered is the
   * successor list less the final wait, which is left out exactly when the
   * loop stopped early.
   */
  method VisitRobots(bp: Blueprint, maxCosts: Resource, state: FactoryState,
                     queue: seq<FactoryState>, cache: map<(Resource, Resource), int>)
    returns (queue': seq<FactoryState>, cache': map<(Resource, Resource), int>, stopped: bool,
             ghost offered: seq<FactoryState>, ghost admitted: seq<FactoryState>)
    ensures queue' == queue + admitted && (admitted, cache') == Algorithms.AdmitAll(Rules(bp, maxCosts), cache, offered)
    ensures stopped ==> offered == Offers(bp.robots, |bp.robots|, maxCosts, state)
    ensures !stopped ==> offered + [StepState(state)] == Offers(bp.robots, |bp.robots|, maxCosts, state)
  {
    ghost var all := Offers(bp.robots, |bp.robots|, maxCosts, state);
    offered := [];
    queue', cache', admitted := queue, cache, [];
    stopped := false;
    var i := |bp.robots|;
    while i > 0 && !stopped
      invariant 0 <= i <= |bp.robots|
      invariant !stopped ==> offered + Offers(bp.robots, i, maxCosts, state) == all
      invariant stopped ==> offered == all
      invariant queue' == queue + admitted && (admitted, cache') == Algorithms.AdmitAll(Rules(bp, maxCosts), cache, offered)
    {
      i := i - 1;
      queue', cache', stopped, offered, admitted := VisitRobot(bp, maxCosts, state, i, cache, queue, offered, admitted, queue', cache');
    }
  }

  /**
   * One turn of the robot loop, on `bp.robots[i]`: skip it when it is not
   * affordable or its resource is already produced at the most any robot
   * costs, otherwise offer its build, and stop after a geode or obsidian robot.
   */
  method VisitRobot(bp: Blueprint, maxCosts: Resource, state: FactoryState, i: nat, cache: map<(Resource, Resource), int>,
                    queue: seq<FactoryState>, ghost offered: seq<FactoryState>, ghost admitted: seq<FactoryState>,
                    q: seq<FactoryState>, c: map<(Resource, Resource), int>)
    returns (q': seq<FactoryState>, c': map<(Resource, Resource), int>, stop: bool,
             ghost offered': seq<FactoryState>, ghost admitted': seq<FactoryState>)
    requires i < |bp.robots|
    requires q == queue + admitted && (admitted, c) == Algorithms.AdmitAll(Rules(bp, maxCosts), cache, offered)
    ensures q' == queue + admitted' && (admitted', c') == Algorithms.AdmitAll(Rules(bp, maxCosts), cache, offered')
    ensures stop ==> offered' == offered + Offers(bp.robots, i + 1, maxCosts, state)
    ensures !stop ==> offered' + Offers(bp.robots, i, maxCosts, state) == offered + Offers(bp.robots, i + 1, maxCosts, state)
  {
    q', c', stop, offered', admitted' := q, c, false, offered, admitted;
    var r := bp.robots[i];
    if !AtLeast(state.stock, r.cost)
       || (r.produce.ore != 0 && maxCosts.ore <= state.production.ore)
       || (r.produce.clay != 0 && maxCosts.clay <= state.production.clay)
       || (r.produce.obsidian != 0 && maxCosts.obsidian <= state.production.obsidian)
    {
      OffersSkip(bp.robots, i + 1, maxCosts, state);
      return;
    }
    var addRobot := Build(state, r);
    OffersBuild(bp.robots, i + 1, maxCosts, state);
    q', c', admitted' := EnqueueOffer(bp, maxCosts, cache, queue, offered, admitted, q, c, addRobot);
    offered' := offered + [addRobot];
    if r.produce.geode != 0 || r.produce.obsidian != 0 {
      assert Stops(r);
      AppendEmpty([addRobot]);
      stop := true;
    } else {
      AppendAssoc(offered, [addRobot], Offers(bp.robots, i, maxCosts, state));
    }
  }

  /**
   * One dequeued state with minutes left: the robot loop, then the wait unless
   * a geode or obsidian robot was built. Everything queued is what the engine
   * admits from the state's successors under `Rules`.
   */
  method Expand(bp: Blueprint, maxCosts: Resource, state: FactoryState,
                queue: seq<FactoryState>, cache: map<(Resource, Resource), int>)
    returns (queue': seq<FactoryState>, cache': map<(Resource, Resource), int>, ghost admitted: seq<FactoryState>)
    requires state.remaining != 0
    ensures queue' == queue + admitted
    ensures (admitted, cache') == Algorithms.AdmitAll(Rules(bp, maxCosts), cache, NextStates(bp, maxCosts, state))
  {
    ghost var offered: seq<FactoryState> := [];
    queue', cache', admitted := queue, cache, [];
    var stopped := false;
    if state.remaining >= 1 {
      queue', cache', stopped, offered, admitted := VisitRobots(bp, maxCosts, state, queue, cache);
    }
    if !stopped {
      queue', cache', admitted := EnqueueOffer(bp, maxCosts, cache, queue, offered, admitted, queue', cache', StepState(state));
    }
  }

  /**
   * One turn of the search loop after the head state is taken: it is expanded
   * when it has minutes left. The rest of the queue is followed by what the
   * engine admits from the head's successors, and the queue's weight drops.
   */
  method ExpandHead(bp: Blueprint, maxCosts: Resource, queue: seq<FactoryState>, cache: map<(Resource, Resource), int>)
    returns (queue': seq<FactoryState>, cache': map<(Resource, Resource), int>, ghost admitted: seq<FactoryState>)
    requires queue != [] && forall x :: x in queue ==> x.remaining >= 0
    ensures queue' == queue[1..] + admitted
    ensures (admitted, cache') == Algorithms.AdmitAll(Rules(bp, maxCosts), cache, Rules(bp, maxCosts).nextStates(queue[0]))
    ensures forall x :: x in queue' ==> x.remaining >= 0
    ensures Potential(|bp.robots| + 2, queue') < Potential(|bp.robots| + 2, queue)
  {
    var state := queue[0];
    var q := queue;
    cache', admitted := cache, [];
    RulesNextStates(bp, maxCosts, state);
    if state.remaining != 0 {
      q, cache', admitted := Expand(bp, maxCosts, state, queue, cache);
      ExpansionShrinks(bp, maxCosts, queue, cache, admitted);
    } else {
      assert q == queue + admitted;
      assert Potential(|bp.robots| + 2, queue) == 1 + Potential(|bp.robots| + 2, queue[1..]);
    }
    TailOfAppend(queue, admitted);
    queue' := q[1..];
  }

  /** The state the search starts from: one ore robot, nothing in stock. */
  function Initial(remaining: int): FactoryState
  {
    FactoryState(Resource(1, 0, 0, 0), Zero, remaining)
  }

  /**
   * `SolveBluePrintIteratively`. It always terminates. It fails as `Aggregate`
   * does on a blueprint without robots. Otherwise the result is the running best
   * by geode count over the dequeued states, which are all the states ever
   * queued, and no dequeued state has more geodes. The queue and cache follow
   * the engine's trace from a cache already holding the initial state.
   */
  method SolveBlueprintIteratively(bp: Blueprint, remaining: int)
    returns (result: Result<FactoryState>, ghost dequeued: seq<FactoryState>, ghost cache: map<(Resource, Resource), int>)
    requires remaining >= 0
    ensures result.Failure? <==> bp.robots == []
    ensures result.Success? ==>
      && |dequeued| > 0 && dequeued[0] == Initial(remaining)
      && result.value == Algorithms.BestAfter(MoreGeodes, Initial(remaining), dequeued)
      && (forall s :: s in dequeued ==> (s.stock.geode) <= (result.value.stock.geode))
      && (dequeued[1..], cache)
         == Algorithms.ExpandAll(Rules(bp, MaxCosts(bp.robots)), map[Key(Initial(remaining)) := remaining], dequeued)
  {
    if bp.robots == [] {
      return Failure(InvalidOperationException), [], map[];
    }
    var bestState := Initial(remaining);
    var maxCosts := MaxCosts(bp.robots);
    ghost var cb := Rules(bp, maxCosts);
    var queue: seq<FactoryState> := [];
    var loopCache: map<(Resource, Resource), int> := map[];
    queue, loopCache := TryEnqueue(queue, loopCache, bestState);
    ghost var cache0 := loopCache;
    assert cache0 == map[Key(Initial(remaining)) := remaining];
    dequeued := [];
    assert ([] + queue)[1..] == [];
    while queue != []
      invariant forall x :: x in queue ==> x.remaining >= 0
      invariant |dequeued + queue| > 0 && (dequeued + queue)[0] == Initial(remaining)
      invariant ((dequeued + queue)[1..], loopCache) == Algorithms.ExpandAll(cb, cache0, dequeued)
      invariant bestState == Algorithms.BestAfter(MoreGeodes, Initial(remaining), dequeued)
      decreases Potential(|bp.robots| + 2, queue)
    {
      var state := queue[0];
      Algorithms.BestAfterSnoc(MoreGeodes, Initial(remaining), dequeued, state);
      if (state.stock.geode) > (bestState.stock.geode) {
        bestState := state;
      }
      var queue', loopCache', admitted := ExpandHead(bp, maxCosts, queue, loopCache);
      Algorithms.TraceStep(cb, cache0, dequeued, queue, loopCache, admitted, loopCache');
      dequeued, queue, loopCache := dequeued + [state], queue', loopCache';
    }
    assert dequeued + queue == dequeued;
    Algorithms.BestIsMaximal(MoreGeodes, Initial(remaining), dequeued);
    return Success(bestState), dequeued, loopCache;
  }
}
