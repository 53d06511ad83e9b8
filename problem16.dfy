/**
 * Day 16: opening pressure valves in a network of tunnels. Valves get small
 * numeric ids, sets of valves are 64-bit masks, and `GetNextStep` explores
 * the paths from one valve with a queue, keeping the best score seen per
 * state.
 */
module Problem16 {
  import opened Wrappers

  /** A C# `byte`. */
  newtype Byte = x: int | 0 <= x < 256

  /** `NodeId`: a valve's id. */
  datatype NodeId = NodeId(value: Byte)

  /** The 64 bits of a C# `long`, bit 0 first. */
  type Word = w: seq<bool> | |w| == 64 witness seq(64, _ => false)

  function Zero(): Word
  {
    seq(64, _ => false)
  }

  /** `a | b`. */
  function Or(a: Word, b: Word): Word
  {
    seq(64, i requires 0 <= i < 64 => a[i] || b[i])
  }

  /** `a & b`. */
  function And(a: Word, b: Word): Word
  {
    seq(64, i requires 0 <= i < 64 => a[i] && b[i])
  }

  /** `a & ~b`. */
  function AndNot(a: Word, b: Word): Word
  {
    seq(64, i requires 0 <= i < 64 => a[i] && !b[i])
  }

  /** `w != 0`. */
  predicate NonZero(w: Word)
  {
    exists i | 0 <= i < 64 :: w[i]
  }

  /** The bit `1L << id` sets: a `long` shift uses only the low six bits of its count. */
  function Bit(id: NodeId): (k: nat)
    ensures k < 64
  {
    id.value as int % 64
  }

  /** `GetMask`: `1L << id`. */
  function Mask(id: NodeId): Word
  {
    seq(64, i => i == Bit(id))
  }

  /** Two ids share a bit exactly when their low six bits agree. */
  predicate SameBit(x: NodeId, y: NodeId)
  {
    Bit(x) == Bit(y)
  }

  /** Below 64, ids share a bit only with themselves. */
  lemma SameBitSmall(x: NodeId, y: NodeId)
    requires x.value < 64 && y.value < 64
    ensures SameBit(x, y) <==> x == y
  {
  }

  /** `NodeSet`: a set of valves as the bits of a `long`. */
  datatype NodeSet = NodeSet(value: Word)
  {
    function Add(node: NodeId): NodeSet
    {
      NodeSet(Or(value, Mask(node)))
    }

    function Remove(node: NodeId): NodeSet
    {
      NodeSet(AndNot(value, Mask(node)))
    }

    predicate Contains(node: NodeId)
    {
      NonZero(And(value, Mask(node)))
    }

    /** The members among the ids below `n`, in ascending order. */
    function MembersBelow(n: nat): seq<NodeId>
      requires n <= 64
    {
      if n == 0 then []
      else MembersBelow(n - 1) + (if Contains(NodeId((n - 1) as Byte)) then [NodeId((n - 1) as Byte)] else [])
    }

    /** `Enumerate`: the ids 0 to 63 that the set contains, in ascending order. */
    method Enumerate() returns (r: seq<NodeId>)
      ensures r == MembersBelow(64)
    {
      r := [];
      var id: Byte := 0;
      while id < 64
        invariant id <= 64
        invariant r == MembersBelow(id as nat)
      {
        if Contains(NodeId(id)) {
          r := r + [NodeId(id)];
        }
        id := id + 1;
      }
    }
  }

  /** `NodeSet.Empty`, also `new NodeSet()`. */
  const Empty := NodeSet(Zero())

  /** A set contains an id exactly when the id's bit is set. */
  lemma ContainsBit(s: NodeSet, x: NodeId)
    ensures s.Contains(x) <==> s.value[Bit(x)]
  {
    if s.value[Bit(x)] {
      assert And(s.value, Mask(x))[Bit(x)];
    }
  }

  /** `Add` makes its id a member and leaves every id on another bit as it was. */
  lemma AddContains(s: NodeSet, x: NodeId, y: NodeId)
    ensures s.Add(x).Contains(y) <==> s.Contains(y) || SameBit(x, y)
  {
    ContainsBit(s.Add(x), y);
    ContainsBit(s, y);
  }

  /** `Remove` takes its id out and leaves every id on another bit as it was. */
  lemma RemoveContains(s: NodeSet, x: NodeId, y: NodeId)
    ensures s.Remove(x).Contains(y) <==> s.Contains(y) && !SameBit(x, y)
  {
    ContainsBit(s.Remove(x), y);
    ContainsBit(s, y);
  }

  /** Adding twice is adding once. */
  lemma AddIdempotent(s: NodeSet, x: NodeId)
    ensures s.Add(x).Add(x) == s.Add(x)
  {
    assert s.Add(x).Add(x).value == s.Add(x).value;
  }

  /** Removing an absent id changes nothing. */
  lemma RemoveAbsent(s: NodeSet, x: NodeId)
    requires !s.Contains(x)
    ensures s.Remove(x) == s
  {
    ContainsBit(s, x);
    assert s.Remove(x).value == s.value;
  }

  /** The empty set holds no id. */
  lemma EmptyContainsNone(x: NodeId)
    ensures !Empty.Contains(x)
  {
    ContainsBit(Empty, x);
  }

  /** `MembersBelow(n)` holds exactly the members below `n`. */
  lemma {:induction false} MembersBelowIn(s: NodeSet, n: nat, x: NodeId)
    requires n <= 64
    ensures x in s.MembersBelow(n) <==> x.value as int < n && s.Contains(x)
  {
    if n > 0 {
      MembersBelowIn(s, n - 1, x);
    }
  }

  /** `MembersBelow(n)` is strictly ascending. */
  lemma {:induction false} MembersBelowAscending(s: NodeSet, n: nat)
    requires n <= 64
    ensures forall i, j | 0 <= i < j < |s.MembersBelow(n)| :: s.MembersBelow(n)[i].value < s.MembersBelow(n)[j].value
  {
    if n > 0 {
      MembersBelowAscending(s, n - 1);
      var r := s.MembersBelow(n - 1);
      forall i | 0 <= i < |r|
        ensures r[i].value as int < n - 1
      {
        MembersBelowIn(s, n - 1, r[i]);
      }
    }
  }

  /** `MembersBelow(n)` has at most `n` ids. */
  lemma {:induction false} MembersBelowLength(s: NodeSet, n: nat)
    requires n <= 64
    ensures |s.MembersBelow(n)| <= n
  {
    if n > 0 {
      MembersBelowLength(s, n - 1);
    }
  }

  /** `Enumerate` yields exactly the ids below 64 that the set contains, in ascending order. */
  lemma EnumerateMembers(s: NodeSet)
    ensures forall x :: x in s.MembersBelow(64) <==> x.value < 64 && s.Contains(x)
    ensures forall i, j | 0 <= i < j < |s.MembersBelow(64)| :: s.MembersBelow(64)[i].value < s.MembersBelow(64)[j].value
  {
    forall x
      ensures x in s.MembersBelow(64) <==> x.value < 64 && s.Contains(x)
    {
      MembersBelowIn(s, 64, x);
    }
    MembersBelowAscending(s, 64);
  }

  /** The `Aggregate` in `From`: or-ing each id's mask into `acc`, left to right. */
  function FromAcc(acc: Word, nodes: seq<NodeId>): Word
    decreases |nodes|
  {
    if nodes == [] then acc else FromAcc(Or(acc, Mask(nodes[0])), nodes[1..])
  }

  /** `NodeSet.From(nodes)`. */
  function From(nodes: seq<NodeId>): NodeSet
  {
    NodeSet(FromAcc(Zero(), nodes))
  }

  lemma {:induction false} FromAccContains(acc: Word, nodes: seq<NodeId>, y: NodeId)
    ensures NodeSet(FromAcc(acc, nodes)).Contains(y) <==> NodeSet(acc).Contains(y) || exists n :: n in nodes && SameBit(n, y)
    decreases |nodes|
  {
    if nodes != [] {
      FromAccContains(Or(acc, Mask(nodes[0])), nodes[1..], y);
      AddContains(NodeSet(acc), nodes[0], y);
      assert NodeSet(Or(acc, Mask(nodes[0]))) == NodeSet(acc).Add(nodes[0]);
      assert forall n :: n in nodes <==> n == nodes[0] || n in nodes[1..];
    }
  }

  /** `From(nodes)` contains exactly the ids sharing a bit with a listed id. */
  lemma FromContains(nodes: seq<NodeId>, y: NodeId)
    ensures From(nodes).Contains(y) <==> exists n :: n in nodes && SameBit(n, y)
  {
    FromAccContains(Zero(), nodes, y);
    EmptyContainsNone(y);
  }

  /** With ids below 64, `From(nodes)` contains exactly the listed ids. */
  lemma FromContainsSmall(nodes: seq<NodeId>, y: NodeId)
    requires forall n | n in nodes :: n.value < 64
    requires y.value < 64
    ensures From(nodes).Contains(y) <==> y in nodes
  {
    FromContains(nodes, y);
    if From(nodes).Contains(y) {
      var n :| n in nodes && SameBit(n, y);
      SameBitSmall(n, y);
    }
  }

  /** The number of members below 64. */
  function Count(s: NodeSet): (c: nat)
    ensures c <= 64
  {
    MembersBelowLength(s, 64);
    |s.MembersBelow(64)|
  }

  /** Adding a new id below `n` adds one member below `n`. */
  lemma {:induction false} MembersBelowAdd(s: NodeSet, x: NodeId, n: nat)
    requires n <= 64
    ensures |s.Add(x).MembersBelow(n)| == |s.MembersBelow(n)| + (if Bit(x) < n && !s.Contains(x) then 1 else 0)
  {
    if n > 0 {
      MembersBelowAdd(s, x, n - 1);
      var y := NodeId((n - 1) as Byte);
      AddContains(s, x, y);
      if SameBit(x, y) {
        ContainsBit(s, x);
        ContainsBit(s, y);
      }
    }
  }

  /** Adding an absent id adds one to the count. */
  lemma CountAdd(s: NodeSet, x: NodeId)
    requires !s.Contains(x)
    ensures Count(s.Add(x)) == Count(s) + 1
  {
    MembersBelowAdd(s, x, 64);
  }

  /** The empty set has no members below 64. */
  lemma {:induction false} CountEmptyBelow(n: nat)
    requires n <= 64
    ensures Empty.MembersBelow(n) == []
  {
    if n > 0 {
      CountEmptyBelow(n - 1);
      EmptyContainsNone(NodeId((n - 1) as Byte));
    }
  }

  /** A set of one id has one member. */
  lemma CountSingle(x: NodeId)
    ensures Count(Empty.Add(x)) == 1
  {
    CountEmptyBelow(64);
    EmptyContainsNone(x);
    CountAdd(Empty, x);
  }

  /** `TwoNodes`: an unordered pair of ids, stored smaller first. */
  datatype TwoNodes = TwoNodes(a: NodeId, b: NodeId)
  {
    /** The constructor: swaps the two ids when `a` is the larger. */
    static function Of(a: NodeId, b: NodeId): (t: TwoNodes)
      ensures t.a.value <= t.b.value
      ensures (t.a == a && t.b == b) || (t.a == b && t.b == a)
    {
      if a.value > b.value then TwoNodes(b, a) else TwoNodes(a, b)
    }
  }

  /** The order of the two ids makes no difference: `Equals` compares `A` and `B`. */
  lemma TwoNodesSymmetric(a: NodeId, b: NodeId)
    ensures TwoNodes.Of(a, b) == TwoNodes.Of(b, a)
  {
  }

  /** The dictionary's lookup: the id recorded for `key`, if any. */
  function Find(entries: seq<(string, NodeId)>, key: string): (r: Option<NodeId>)
    ensures r.None? <==> forall k | 0 <= k < |entries| :: entries[k].0 != key
    ensures r.Some? ==> exists k | 0 <= k < |entries| :: entries[k] == (key, r.value)
  {
    if entries == [] then None
    else if entries[0].0 == key then Some(entries[0].1)
    else
      var r := Find(entries[1..], key);
      assert forall k | 1 <= k < |entries| :: entries[k] == entries[1..][k - 1];
      r
  }

  /** `First(p => p.Value == id).Key` over the dictionary in insertion order. */
  function FirstKey(entries: seq<(string, NodeId)>, id: NodeId): (r: Result<string>)
    ensures r.Failure? <==> forall k | 0 <= k < |entries| :: entries[k].1 != id
    ensures r.Failure? ==> r.error == InvalidOperationException
    ensures r.Success? ==> exists k | 0 <= k < |entries| :: entries[k] == (r.value, id) && forall j | 0 <= j < k :: entries[j].1 != id
  {
    if entries == [] then Failure(InvalidOperationException)
    else if entries[0].1 == id then Success(entries[0].0)
    else
      var r := FirstKey(entries[1..], id);
      assert forall k | 1 <= k < |entries| :: entries[k] == entries[1..][k - 1];
      if r.Success? then
        var k :| 0 <= k < |entries[1..]| && entries[1..][k] == (r.value, id) && forall j | 0 <= j < k :: entries[1..][j].1 != id;
        assert entries[k + 1] == (r.value, id);
        r
      else r
  }

  /** The id for the name that arrives after `count` others: `(byte)count`, which wraps at 256. */
  function IdFor(count: nat): NodeId
  {
    NodeId((count % 256) as Byte)
  }

  lemma IdForSmall(count: nat)
    requires count < 256
    ensures IdFor(count) == NodeId(count as Byte)
  {
  }

  /** The ids handed out in order: the `k`-th name got `(byte)k`, and no name twice. */
  ghost predicate Numbered(entries: seq<(string, NodeId)>)
  {
    (forall k | 0 <= k < |entries| :: entries[k].1 == IdFor(k)) &&
    (forall i, j | 0 <= i < j < |entries| :: entries[i].0 != entries[j].0)
  }

  /** `Mapping`: names to ids, handed out in order of first appearance. */
  class Mapping
  {
    /** The dictionary's pairs in insertion order, the order it enumerates them in. */
    var entries: seq<(string, NodeId)>

    ghost predicate Valid()
      reads this
    {
      Numbered(entries)
    }

    constructor()
      ensures entries == [] && Valid()
    {
      entries := [];
    }

    /** `GetNodeId`: the recorded id, or a new one numbered by the count of names so far. */
    method GetNodeId(node: string) returns (id: NodeId)
      requires Valid()
      modifies this
      ensures Valid()
      ensures Find(old(entries), node).Some? ==> id == Find(old(entries), node).value && entries == old(entries)
      ensures Find(old(entries), node).None? ==> id == IdFor(|old(entries)|) && entries == old(entries) + [(node, id)]
    {
      var found := Find(entries, node);
      if found.Some? {
        return found.value;
      }
      id := IdFor(|entries|);
      entries := entries + [(node, id)];
    }

    /** `Name`: the first name recorded with `id`. */
    function Name(id: NodeId): (r: Result<string>)
      reads this
    {
      FirstKey(entries, id)
    }
  }

  /** A name keeps its id: a lookup that succeeds is not changed by names added later. */
  lemma {:induction false} FindPrefix(entries: seq<(string, NodeId)>, more: seq<(string, NodeId)>, key: string)
    requires Find(entries, key).Some?
    ensures Find(entries + more, key) == Find(entries, key)
  {
    if entries[0].0 != key {
      assert (entries + more)[1..] == entries[1..] + more;
      FindPrefix(entries[1..], more, key);
    }
  }

  /** `Name(GetNodeId(n)) == n` while at most 256 names have been seen. */
  lemma NameRoundTrip(entries: seq<(string, NodeId)>, key: string)
    requires Numbered(entries) && |entries| <= 256
    requires Find(entries, key).Some?
    ensures FirstKey(entries, Find(entries, key).value) == Success(key)
  {
    var id := Find(entries, key).value;
    var k :| 0 <= k < |entries| && entries[k] == (key, id);
    var r := FirstKey(entries, id);
    var m :| 0 <= m < |entries| && entries[m] == (r.value, id) && forall j | 0 <= j < m :: entries[j].1 != id;
    IdForSmall(m);
    IdForSmall(k);
  }

  /** `Score`: the minutes left and the pressure released. */
  datatype Score = Score(remaining: int, totalPressure: int)
  {
    predicate IsBetterThan(other: Score)
    {
      if remaining > other.remaining then true
      else totalPressure > other.totalPressure
    }
  }

  /** A score is not better than itself. */
  lemma IsBetterThanIrreflexive(s: Score)
    ensures !s.IsBetterThan(s)
  {
  }

  /** A score fails to be better exactly when it is no larger in either field. */
  lemma NotBetterThan(s: Score, t: Score)
    ensures !s.IsBetterThan(t) <==> s.remaining <= t.remaining && s.totalPressure <= t.totalPressure
  {
  }

  /** `IsBetterThan` is not an order: two scores can each be better than the other. */
  lemma IsBetterThanNotAsymmetric()
    ensures exists s: Score, t: Score :: s.IsBetterThan(t) && t.IsBetterThan(s)
  {
    var s, t := Score(1, 0), Score(0, 1);
    assert s.IsBetterThan(t) && t.IsBetterThan(s);
  }

  /** `Comparer<int>.Default.Compare`. */
  function Compare(x: int, y: int): int
  {
    if x < y then -1 else if x > y then 1 else 0
  }

  /** `Inverted.Compare`: the default order reversed, so the largest comes first. */
  function InvertedCompare(x: int, y: int): (c: int)
    ensures c < 0 <==> x > y
    ensures c == 0 <==> x == y
    ensures c > 0 <==> x < y
  {
    Compare(y, x)
  }

  /** `NodeDescriptor`: a valve, its flow rate and the valves its tunnels lead to. */
  datatype NodeDescriptor = NodeDescriptor(id: NodeId, flowRate: int, edges: NodeSet)

  /** `EasyState`: where the walker stands and which valves are open. */
  datatype EasyState = EasyState(location: NodeId, openedNodes: NodeSet)

  /** `EasyPath`: a walker's position, history since the last opening, and score. */
  datatype EasyPath = EasyPath(
    location: NodeId,
    openedNodes: NodeSet,
    visited: NodeSet,
    remaining: int,
    totalPressure: int,
    previous: Option<EasyPath>)
  {
    /** `GetStateAndScore`. */
    function StateAndScore(): (EasyState, Score)
    {
      (EasyState(location, openedNodes), Score(remaining, totalPressure))
    }
  }

  /** The path `GetNextStep` starts from: nothing released yet, only the start visited. */
  function Initial(start: NodeId, remaining: int, alreadyOpen: NodeSet): EasyPath
  {
    EasyPath(start, alreadyOpen, Empty.Add(start), remaining, 0, None)
  }

  /** The guard on opening the valve where the path stands. */
  predicate CanOpen(path: EasyPath, desc: NodeDescriptor)
  {
    !path.openedNodes.Contains(path.location) && desc.flowRate != 0
  }

  /** Opening the valve where the path stands. */
  function Opened(path: EasyPath, desc: NodeDescriptor): EasyPath
  {
    path.(
      remaining := path.remaining - 1,
      openedNodes := path.openedNodes.Add(path.location),
      totalPressure := path.totalPressure + desc.flowRate * (path.remaining - 1),
      visited := Empty.Add(path.location),
      previous := Some(path))
  }

  /** Walking down a tunnel to `edge`. */
  function MovedTo(path: EasyPath, edge: NodeId): EasyPath
  {
    path.(location := edge, remaining := path.remaining - 1, visited := path.visited.Add(edge))
  }

  /** The start has released nothing and has visited only its own valve. */
  lemma InitialVisits(start: NodeId, remaining: int, alreadyOpen: NodeSet, x: NodeId)
    ensures Initial(start, remaining, alreadyOpen).totalPressure == 0
    ensures Initial(start, remaining, alreadyOpen).visited.Contains(x) <==> SameBit(start, x)
  {
    AddContains(Empty, start, x);
    EmptyContainsNone(x);
  }

  /**
   * Opening takes one minute and releases the valve's flow for every minute
   * left after it; the valve is then open, and only it counts as visited.
   */
  lemma OpenedSpec(path: EasyPath, desc: NodeDescriptor, x: NodeId)
    ensures Opened(path, desc).location == path.location
    ensures Opened(path, desc).remaining == path.remaining - 1
    ensures Opened(path, desc).totalPressure - path.totalPressure == desc.flowRate * Opened(path, desc).remaining
    ensures Opened(path, desc).openedNodes.Contains(x) <==> path.openedNodes.Contains(x) || SameBit(path.location, x)
    ensures Opened(path, desc).visited.Contains(x) <==> SameBit(path.location, x)
    ensures Opened(path, desc).previous == Some(path)
  {
    AddContains(path.openedNodes, path.location, x);
    AddContains(Empty, path.location, x);
    EmptyContainsNone(x);
  }

  /**
   * A move takes one minute and releases nothing; it adds the new valve to
   * the visited ones and keeps the link to the path before the last opening.
   */
  lemma MovedToSpec(path: EasyPath, edge: NodeId, x: NodeId)
    ensures MovedTo(path, edge).location == edge
    ensures MovedTo(path, edge).remaining == path.remaining - 1
    ensures MovedTo(path, edge).totalPressure == path.totalPressure
    ensures MovedTo(path, edge).openedNodes == path.openedNodes
    ensures MovedTo(path, edge).visited.Contains(x) <==> path.visited.Contains(x) || SameBit(edge, x)
    ensures MovedTo(path, edge).previous == path.previous
  {
    AddContains(path.visited, edge, x);
  }

  /** `c` is one of the paths `GetNextStep` offers when it takes `p` off the queue. */
  ghost predicate IsChild(c: EasyPath, p: EasyPath, nodes: map<NodeId, NodeDescriptor>)
  {
    p.location in nodes &&
    ((CanOpen(p, nodes[p.location]) && c == Opened(p, nodes[p.location])) ||
     (nodes[p.location].edges.Contains(c.location) && c.location.value < 64 &&
      !p.visited.Contains(c.location) && c == MovedTo(p, c.location)))
  }

  /** Progress of a path: opened valves first, then valves visited since the last opening. */
  function Rank(p: EasyPath): (r: nat)
    ensures r <= 64 * 65 + 64
  {
    Count(p.openedNodes) * 65 + Count(p.visited)
  }

  /** Every offered path has made progress over the path it came from. */
  lemma ChildRank(c: EasyPath, p: EasyPath, nodes: map<NodeId, NodeDescriptor>)
    requires IsChild(c, p, nodes)
    ensures Rank(c) > Rank(p)
  {
    var desc := nodes[p.location];
    if CanOpen(p, desc) && c == Opened(p, desc) {
      CountAdd(p.openedNodes, p.location);
      CountSingle(p.location);
    } else {
      CountAdd(p.visited, c.location);
    }
  }

  function Pow(b: nat, e: nat): (r: nat)
    ensures b > 0 ==> r > 0
  {
    if e == 0 then 1 else b * Pow(b, e - 1)
  }

  lemma {:induction false} PowGrows(d: nat, e: nat)
    requires d < e
    ensures 66 * Pow(66, d) <= Pow(66, e)
  {
    if d + 1 < e {
      PowGrows(d, e - 1);
    }
  }

  /** A path's share of the work left: paths with more progress weigh less. */
  function Weight(p: EasyPath): nat
  {
    Pow(66, 64 * 65 + 64 - Rank(p))
  }

  /** A path weighs more than 66 of its children together (at most 65 can be offered). */
  lemma ChildWeight(c: EasyPath, p: EasyPath, nodes: map<NodeId, NodeDescriptor>)
    requires IsChild(c, p, nodes)
    ensures 66 * Weight(c) <= Weight(p)
  {
    ChildRank(c, p, nodes);
    PowGrows(64 * 65 + 64 - Rank(c), 64 * 65 + 64 - Rank(p));
  }

  function Total(ps: seq<EasyPath>): nat
  {
    if ps == [] then 0 else Weight(ps[0]) + Total(ps[1..])
  }

  lemma {:induction false} TotalAppend(ps: seq<EasyPath>, x: EasyPath)
    ensures Total(ps + [x]) == Total(ps) + Weight(x)
  {
    if ps != [] {
      assert (ps + [x])[1..] == ps[1..] + [x];
      TotalAppend(ps[1..], x);
    }
  }

  /** The locals `TryEnqueue` updates: the queue, the best score per state, and the best path. */
  datatype Frontier = Frontier(pending: seq<EasyPath>, history: map<EasyState, Score>, best: EasyPath)

  /** A path joins the queue when it has time left and its state is new or its score is better. */
  predicate Admitted(history: map<EasyState, Score>, path: EasyPath)
  {
    path.remaining != 0 &&
    (path.StateAndScore().0 !in history || path.StateAndScore().1.IsBetterThan(history[path.StateAndScore().0]))
  }

  /** `TryEnqueue`. */
  function TryEnqueue(f: Frontier, path: EasyPath): (g: Frontier)
    ensures path.remaining == 0 ==> g == f
    ensures path.remaining != 0 ==>
      (g.best == f.best && path.totalPressure <= f.best.totalPressure) ||
      (g.best == path && f.best.totalPressure < path.totalPressure)
    ensures Admitted(f.history, path) ==>
      g.pending == f.pending + [path] && g.history == f.history[path.StateAndScore().0 := path.StateAndScore().1]
    ensures !Admitted(f.history, path) ==> g.pending == f.pending && g.history == f.history
  {
    if path.remaining == 0 then f
    else
      var best := if f.best.totalPressure < path.totalPressure then path else f.best;
      var (state, score) := path.StateAndScore();
      if state in f.history && !score.IsBetterThan(f.history[state]) then f.(best := best)
      else Frontier(f.pending + [path], f.history[state := score], best)
  }

  /** The moves offered from `path` along `edges`: one to each edge not yet visited, in order. */
  function Moves(path: EasyPath, edges: seq<NodeId>): seq<EasyPath>
  {
    if edges == [] then []
    else
      var e := edges[|edges| - 1];
      Moves(path, edges[..|edges| - 1]) + (if path.visited.Contains(e) then [] else [MovedTo(path, e)])
  }

  /**
   * What expanding `path` offers, in order: opening its valve when that is
   * allowed, then a move to each tunnel's valve in `Enumerate` order.
   */
  function Children(path: EasyPath, desc: NodeDescriptor): seq<EasyPath>
  {
    (if CanOpen(path, desc) then [Opened(path, desc)] else []) + Moves(path, desc.edges.MembersBelow(64))
  }

  /** `TryEnqueue` called on each path in turn. */
  function OfferAll(f: Frontier, cs: seq<EasyPath>): Frontier
  {
    if cs == [] then f else TryEnqueue(OfferAll(f, cs[..|cs| - 1]), cs[|cs| - 1])
  }

  /** A path is among the moves iff it is the move to some listed edge not yet visited. */
  lemma {:induction false} MovesIn(path: EasyPath, edges: seq<NodeId>, c: EasyPath)
    ensures c in Moves(path, edges) <==> exists e | e in edges :: !path.visited.Contains(e) && c == MovedTo(path, e)
  {
    if edges != [] {
      var init := edges[..|edges| - 1];
      MovesIn(path, init, c);
      assert forall e | e in edges :: e in init || e == edges[|edges| - 1];
      if c in Moves(path, init) {
        var e :| e in init && !path.visited.Contains(e) && c == MovedTo(path, e);
        assert e in edges;
      }
    }
  }

  lemma {:induction false} MovesLength(path: EasyPath, edges: seq<NodeId>)
    ensures |Moves(path, edges)| <= |edges|
  {
    if edges != [] {
      MovesLength(path, edges[..|edges| - 1]);
    }
  }

  /**
   * The offers are exactly the opening, when allowed, and the moves to the
   * unvisited valves below 64 that a tunnel leads to; at most 65 of them.
   */
  lemma ChildrenSpec(path: EasyPath, desc: NodeDescriptor, c: EasyPath)
    ensures c in Children(path, desc) <==>
      (CanOpen(path, desc) && c == Opened(path, desc)) ||
      (exists e: NodeId | e.value < 64 && desc.edges.Contains(e) :: !path.visited.Contains(e) && c == MovedTo(path, e))
    ensures |Children(path, desc)| <= 65
  {
    var es := desc.edges.MembersBelow(64);
    MovesIn(path, es, c);
    EnumerateMembers(desc.edges);
    MovesLength(path, es);
    MembersBelowLength(desc.edges, 64);
  }

  /** Every offer is a child of the path expanded. */
  lemma ChildrenAreChildren(path: EasyPath, nodes: map<NodeId, NodeDescriptor>, c: EasyPath)
    requires path.location in nodes && c in Children(path, nodes[path.location])
    ensures IsChild(c, path, nodes)
  {
    ChildrenSpec(path, nodes[path.location], c);
    if !(CanOpen(path, nodes[path.location]) && c == Opened(path, nodes[path.location])) {
      var e: NodeId :| e.value < 64 && nodes[path.location].edges.Contains(e) && !path.visited.Contains(e) && c == MovedTo(path, e);
      assert c.location == e;
    }
  }

  /**
   * A run of offers never lowers the best, and ends with a best that released
   * at least as much as every offered path with time left, whether or not the
   * history test then refused it; the best is the old one or an offered path.
   */
  lemma {:induction false} OfferAllBest(f: Frontier, cs: seq<EasyPath>)
    ensures f.best.totalPressure <= OfferAll(f, cs).best.totalPressure
    ensures forall c | c in cs && c.remaining != 0 :: c.totalPressure <= OfferAll(f, cs).best.totalPressure
    ensures OfferAll(f, cs).best == f.best || OfferAll(f, cs).best in cs
  {
    if cs != [] {
      var init := cs[..|cs| - 1];
      OfferAllBest(f, init);
      assert forall c | c in cs :: c in init || c == cs[|cs| - 1];
    }
  }

  /** The offers add at most a 66th of the parent's weight each to the queue. */
  lemma {:induction false} OfferAllWeight(f: Frontier, cs: seq<EasyPath>, p: EasyPath, nodes: map<NodeId, NodeDescriptor>)
    requires forall c | c in cs :: IsChild(c, p, nodes)
    ensures 66 * Total(OfferAll(f, cs).pending) <= 66 * Total(f.pending) + |cs| * Weight(p)
  {
    if cs != [] {
      var init := cs[..|cs| - 1];
      assert forall c | c in init :: c in cs;
      OfferAllWeight(f, init, p, nodes);
      assert cs[|cs| - 1] in cs;
      OfferWeight(OfferAll(f, init), cs[|cs| - 1], p, nodes, Total(f.pending), |init|);
    }
  }

  /** Expanding a path leaves the queue lighter than it was with the path still in it. */
  lemma ExpandShrinks(f: Frontier, p: EasyPath, nodes: map<NodeId, NodeDescriptor>)
    requires p.location in nodes
    ensures Total(OfferAll(f, Children(p, nodes[p.location])).pending) < Total(f.pending) + Weight(p)
  {
    var cs := Children(p, nodes[p.location]);
    forall c | c in cs
      ensures IsChild(c, p, nodes)
    {
      ChildrenAreChildren(p, nodes, c);
    }
    ChildrenSpec(p, nodes[p.location], p);
    OfferAllWeight(f, cs, p, nodes);
    FewChildren(Total(OfferAll(f, cs).pending), Total(f.pending), Weight(p), |cs|);
  }

  /**
   * The search `GetNextStep` runs, from a queue, history and best path: take
   * the head off, fail if its valve is unknown, otherwise offer its children
   * and go on; the best path once the queue is empty.
   */
  function Search(nodes: map<NodeId, NodeDescriptor>, f: Frontier): (r: Result<EasyPath>)
    ensures r.Failure? ==> r.error == KeyNotFoundException
    decreases Total(f.pending)
  {
    if f.pending == [] then Success(f.best)
    else
      var path := f.pending[0];
      if path.location !in nodes then Failure(KeyNotFoundException)
      else
        var rest := f.(pending := f.pending[1..]);
        ExpandShrinks(rest, path, nodes);
        Search(nodes, OfferAll(rest, Children(path, nodes[path.location])))
  }

  /** A path with time left that came off some already expanded path. */
  ghost predicate Offered(c: EasyPath, expanded: seq<EasyPath>, nodes: map<NodeId, NodeDescriptor>)
  {
    c.remaining != 0 && exists j | 0 <= j < |expanded| :: IsChild(c, expanded[j], nodes)
  }

  /** Every expanded path after the first was offered by an earlier one. */
  ghost predicate Explored(expanded: seq<EasyPath>, nodes: map<NodeId, NodeDescriptor>)
  {
    forall i | 1 <= i < |expanded| :: Offered(expanded[i], expanded[..i], nodes)
  }

  /** What holds of the search between two dequeues. */
  ghost predicate Sound(f: Frontier, expanded: seq<EasyPath>, init: EasyPath, nodes: map<NodeId, NodeDescriptor>)
  {
    (expanded == [] ==> f.pending == [init] && f.best == init) &&
    (expanded != [] ==>
      expanded[0] == init && Explored(expanded, nodes) &&
      (forall q | q in expanded :: q.location in nodes) &&
      (forall q | q in f.pending :: Offered(q, expanded, nodes)) &&
      (f.best == init || Offered(f.best, expanded, nodes))) &&
    (forall q | q in expanded :: q.totalPressure <= f.best.totalPressure) &&
    (forall q | q in f.pending :: q.totalPressure <= f.best.totalPressure)
  }

  lemma OfferedGrows(c: EasyPath, expanded: seq<EasyPath>, x: EasyPath, nodes: map<NodeId, NodeDescriptor>)
    requires Offered(c, expanded, nodes)
    ensures Offered(c, expanded + [x], nodes)
  {
    var j :| 0 <= j < |expanded| && IsChild(c, expanded[j], nodes);
    assert (expanded + [x])[j] == expanded[j];
  }

  /** Taking the head of the queue extends the explored paths. */
  lemma SoundNext(f: Frontier, expanded: seq<EasyPath>, init: EasyPath, nodes: map<NodeId, NodeDescriptor>)
    requires Sound(f, expanded, init, nodes) && f.pending != []
    ensures (expanded + [f.pending[0]])[0] == init
    ensures Explored(expanded + [f.pending[0]], nodes)
    ensures forall q | q in f.pending[1..] :: expanded != [] && Offered(q, expanded, nodes)
  {
    var e := expanded + [f.pending[0]];
    assert e[..|expanded|] == expanded;
    forall i | 1 <= i < |e|
      ensures Offered(e[i], e[..i], nodes)
    {
      if i < |expanded| {
        assert e[..i] == expanded[..i];
      }
    }
  }

  /** With the head's valve known, the search is sound again after taking it off the queue. */
  lemma SoundDequeue(f: Frontier, expanded: seq<EasyPath>, init: EasyPath, nodes: map<NodeId, NodeDescriptor>)
    requires Sound(f, expanded, init, nodes) && f.pending != [] && f.pending[0].location in nodes
    ensures Sound(f.(pending := f.pending[1..]), expanded + [f.pending[0]], init, nodes)
  {
    SoundNext(f, expanded, init, nodes);
    var x := f.pending[0];
    forall q | q in f.pending[1..]
      ensures Offered(q, expanded + [x], nodes)
    {
      OfferedGrows(q, expanded, x, nodes);
    }
    if f.best != init {
      OfferedGrows(f.best, expanded, x, nodes);
    }
  }

  /** Offering a child of the last expanded path keeps the search sound. */
  lemma SoundOffer(f: Frontier, expanded: seq<EasyPath>, init: EasyPath, nodes: map<NodeId, NodeDescriptor>, c: EasyPath)
    requires Sound(f, expanded, init, nodes) && expanded != []
    requires IsChild(c, expanded[|expanded| - 1], nodes)
    ensures Sound(TryEnqueue(f, c), expanded, init, nodes)
  {
    if c.remaining != 0 {
      assert Offered(c, expanded, nodes);
    }
  }

  /** Offering a child adds at most its weight, a 66th of its parent's, to the queue. */
  lemma OfferWeight(f: Frontier, c: EasyPath, p: EasyPath, nodes: map<NodeId, NodeDescriptor>, rest: nat, n: nat)
    requires IsChild(c, p, nodes)
    requires 66 * Total(f.pending) <= 66 * rest + n * Weight(p)
    ensures 66 * Total(TryEnqueue(f, c).pending) <= 66 * rest + (n + 1) * Weight(p)
  {
    ChildWeight(c, p, nodes);
    TotalAppend(f.pending, c);
    assert (n + 1) * Weight(p) == n * Weight(p) + Weight(p);
  }

  /** At most 65 children weigh less than their parent. */
  lemma FewChildren(total: nat, rest: nat, w: nat, n: nat)
    requires 66 * total <= 66 * rest + n * w
    requires n <= 65 && w > 0
    ensures total < rest + w
  {
    assert n * w <= 65 * w;
  }

  /** Offering children of the last expanded path, one after another, keeps the search sound. */
  lemma {:induction false} OfferAllSound(f: Frontier, cs: seq<EasyPath>, expanded: seq<EasyPath>, init: EasyPath, nodes: map<NodeId, NodeDescriptor>)
    requires Sound(f, expanded, init, nodes) && expanded != []
    requires forall c | c in cs :: IsChild(c, expanded[|expanded| - 1], nodes)
    ensures Sound(OfferAll(f, cs), expanded, init, nodes)
  {
    if cs != [] {
      var init' := cs[..|cs| - 1];
      assert forall c | c in init' :: c in cs;
      OfferAllSound(f, init', expanded, init, nodes);
      assert cs[|cs| - 1] in cs;
      SoundOffer(OfferAll(f, init'), expanded, init, nodes, cs[|cs| - 1]);
    }
  }

  /** Every child with time left of every expanded path released no more than `best`. */
  ghost predicate ChildrenBounded(best: EasyPath, expanded: seq<EasyPath>, nodes: map<NodeId, NodeDescriptor>)
  {
    forall j, c | 0 <= j < |expanded| && expanded[j].location in nodes &&
                  c in Children(expanded[j], nodes[expanded[j].location]) && c.remaining != 0 ::
      c.totalPressure <= best.totalPressure
  }

  /** Expanding one more path keeps every child of the expanded paths under the best. */
  lemma BoundedAfterExpand(f: Frontier, path: EasyPath, expanded: seq<EasyPath>, nodes: map<NodeId, NodeDescriptor>)
    requires ChildrenBounded(f.best, expanded, nodes) && path.location in nodes
    ensures ChildrenBounded(OfferAll(f, Children(path, nodes[path.location])).best, expanded + [path], nodes)
  {
    var g := OfferAll(f, Children(path, nodes[path.location]));
    OfferAllBest(f, Children(path, nodes[path.location]));
    var e := expanded + [path];
    forall j, c | 0 <= j < |e| && e[j].location in nodes && c in Children(e[j], nodes[e[j].location]) && c.remaining != 0
      ensures c.totalPressure <= g.best.totalPressure
    {
      if j < |expanded| {
        assert e[j] == expanded[j];
      }
    }
  }

  /** When the queue runs dry, the best path is the start or an offered path at least as good as every expanded one. */
  lemma SoundDone(f: Frontier, expanded: seq<EasyPath>, init: EasyPath, nodes: map<NodeId, NodeDescriptor>)
    requires Sound(f, expanded, init, nodes) && f.pending == []
    ensures expanded != [] && expanded[0] == init && Explored(expanded, nodes)
    ensures forall q | q in expanded :: q.location in nodes
    ensures f.best == init || Offered(f.best, expanded, nodes)
    ensures forall q | q in expanded :: q.totalPressure <= f.best.totalPressure
  {
  }

  /**
   * The body of `GetNextStep`'s loop for a path already taken off the queue:
   * offer opening its valve, then a move down each tunnel to a valve not yet
   * visited, in ascending id order.
   */
  method Expand(nodes: map<NodeId, NodeDescriptor>, path: EasyPath, f: Frontier,
                ghost expanded: seq<EasyPath>, ghost init: EasyPath)
    returns (g: Frontier)
    requires Sound(f, expanded, init, nodes) && expanded != [] && expanded[|expanded| - 1] == path
    requires path.location in nodes
    ensures g == OfferAll(f, Children(path, nodes[path.location]))
    ensures Sound(g, expanded, init, nodes)
    ensures Total(g.pending) < Total(f.pending) + Weight(path)
  {
    var desc := nodes[path.location];
    ghost var opens: seq<EasyPath> := [];
    g := f;
    if CanOpen(path, desc) {
      opens := [Opened(path, desc)];
      assert opens[..0] == [];
      g := TryEnqueue(g, Opened(path, desc));
    }
    assert g == OfferAll(f, opens + Moves(path, []));
    var edges := desc.edges.Enumerate();
    for k := 0 to |edges|
      invariant g == OfferAll(f, opens + Moves(path, edges[..k]))
    {
      var edge := edges[k];
      ghost var before := opens + Moves(path, edges[..k]);
      assert edges[..k + 1][..k] == edges[..k];
      assert Moves(path, edges[..k + 1]) ==
        Moves(path, edges[..k]) + (if path.visited.Contains(edge) then [] else [MovedTo(path, edge)]);
      if path.visited.Contains(edge) {
        assert opens + Moves(path, edges[..k + 1]) == before;
        continue;
      }
      assert opens + Moves(path, edges[..k + 1]) == before + [MovedTo(path, edge)];
      assert (before + [MovedTo(path, edge)])[..|before|] == before;
      g := TryEnqueue(g, MovedTo(path, edge));
    }
    assert edges[..|edges|] == edges;
    forall c | c in Children(path, desc)
      ensures IsChild(c, path, nodes)
    {
      ChildrenAreChildren(path, nodes, c);
    }
    OfferAllSound(f, Children(path, desc), expanded, init, nodes);
    ExpandShrinks(f, path, nodes);
  }

  /**
   * `GetNextStep`: the best path found from `start` by expanding queued
   * paths in order. `expanded` lists the paths taken off the queue.
   */
  method GetNextStep(nodes: map<NodeId, NodeDescriptor>, start: NodeId, remaining: int, alreadyOpen: NodeSet)
    returns (r: Result<EasyPath>, ghost expanded: seq<EasyPath>)
    ensures r == Search(nodes, Frontier([Initial(start, remaining, alreadyOpen)], map[], Initial(start, remaining, alreadyOpen)))
    ensures expanded != [] && expanded[0] == Initial(start, remaining, alreadyOpen)
    ensures Explored(expanded, nodes)
    ensures forall i | 0 <= i < |expanded| - 1 :: expanded[i].location in nodes
    ensures r.Failure? <==> expanded[|expanded| - 1].location !in nodes
    ensures r.Failure? ==> r.error == KeyNotFoundException
    ensures r.Success? ==> r.value == expanded[0] || Offered(r.value, expanded, nodes)
    ensures r.Success? ==> forall q | q in expanded :: q.totalPressure <= r.value.totalPressure
    ensures r.Success? ==>
      forall j, c | 0 <= j < |expanded| && expanded[j].location in nodes &&
                    c in Children(expanded[j], nodes[expanded[j].location]) && c.remaining != 0 ::
        c.totalPressure <= r.value.totalPressure
  {
    var init := Initial(start, remaining, alreadyOpen);
    var f := Frontier([init], map[], init);
    ghost var f0 := f;
    expanded := [];
    while f.pending != []
      invariant Sound(f, expanded, init, nodes)
      invariant Search(nodes, f) == Search(nodes, f0)
      invariant ChildrenBounded(f.best, expanded, nodes)
      decreases Total(f.pending)
    {
      var path := f.pending[0];
      SoundNext(f, expanded, init, nodes);
      if path.location !in nodes {
        expanded := expanded + [path];
        return Failure(KeyNotFoundException), expanded;
      }
      SoundDequeue(f, expanded, init, nodes);
      var rest := f.(pending := f.pending[1..]);
      BoundedAfterExpand(rest, path, expanded, nodes);
      expanded := expanded + [path];
      f := Expand(nodes, path, rest, expanded, init);
    }
    SoundDone(f, expanded, init, nodes);
    r := Success(f.best);
  }
}
