/**
 * Day 3: rucksack priorities. Each line's two halves share one item type,
 * and each group of three lines shares one badge; both sums add item
 * priorities. The loop version is checked against a LINQ version.
 */
module Problem3 {
  import opened Wrappers
  import Seqs

  /** `Single` on a sequence that does not hold exactly one element throws. */
  const InvalidOperation := InvalidOperationException

  /** `CalculatePriority`. */
  function Priority(c: char): int
  {
    if c <= 'Z' then c as int - 'A' as int + 27 else c as int - 'a' as int + 1
  }

  /** Lower-case letters are worth 1..26 and upper-case letters 27..52, one value per letter. */
  lemma PriorityOfLetters(c: char, d: char)
    ensures 'a' <= c <= 'z' ==> Priority(c) == c as int - 'a' as int + 1 && 1 <= Priority(c) <= 26
    ensures 'A' <= c <= 'Z' ==> Priority(c) == c as int - 'A' as int + 27 && 27 <= Priority(c) <= 52
    ensures IsLetter(c) && IsLetter(d) && Priority(c) == Priority(d) ==> c == d
  {
  }

  predicate IsLetter(c: char) { 'a' <= c <= 'z' || 'A' <= c <= 'Z' }

  /** The item types in a string, as `new HashSet<char>(s)` holds them. */
  function Chars(s: string): set<char>
  {
    set c | c in s
  }

  /** `s` holds exactly one element. */
  predicate IsSingleton(s: set<char>)
  {
    s != {} && forall x, y :: x in s && y in s ==> x == y
  }

  /** `Single` on a set: its one element, or `InvalidOperationException`. */
  function Single(s: set<char>): (r: Result<char>)
    ensures r.Success? <==> IsSingleton(s)
    ensures r.Success? ==> s == {r.value}
  {
    if !IsSingleton(s) then Failure(InvalidOperation)
    else
      var c :| c in s;
      Success(c)
  }

  lemma SingleOfSingleton(c: char)
    ensures Single({c}) == Success(c)
  {
  }

  /** The two ways of saying "exactly one element" agree. */
  lemma SingletonIsSizeOne(s: set<char>)
    ensures IsSingleton(s) <==> |s| == 1
  {
    if IsSingleton(s) {
      var c :| c in s;
      assert s == {c};
    } else if s != {} {
      var x, y :| x in s && y in s && x != y;
      assert {x, y} <= s;
      assert |{x, y}| == 2;
      Seqs.SubsetSize({x, y}, s);
    }
  }

  /** The priority of the one item type both halves of a line share. */
  function LinePriority(line: string): Result<int>
  {
    match Single(Chars(line[..|line| / 2]) * Chars(line[|line| / 2..]))
    case Failure(e) => Failure(e)
    case Success(c) => Success(Priority(c))
  }

  /**
   * A line succeeds exactly when its halves share one item type, and its
   * priority is then that item's priority.
   */
  lemma LinePriorityIsSharedItem(line: string)
    ensures LinePriority(line).Success? <==> |Chars(line[..|line| / 2]) * Chars(line[|line| / 2..])| == 1
    ensures LinePriority(line).Success? ==>
      exists c :: Chars(line[..|line| / 2]) * Chars(line[|line| / 2..]) == {c} && LinePriority(line).value == Priority(c)
  {
    SingletonIsSizeOne(Chars(line[..|line| / 2]) * Chars(line[|line| / 2..]));
  }

  /** The priority of the one item type three lines share. */
  function GroupPriority(a: string, b: string, c: string): Result<int>
  {
    match Single(Chars(a) * Chars(b) * Chars(c))
    case Failure(e) => Failure(e)
    case Success(x) => Success(Priority(x))
  }

  /** Adds two partial results; the first failure wins. */
  function Plus(a: Result<int>, b: Result<int>): (r: Result<int>)
    ensures r.Success? <==> a.Success? && b.Success?
    ensures r.Success? ==> r.value == a.value + b.value
  {
    match a
    case Failure(e) => Failure(e)
    case Success(x) =>
      match b
      case Failure(e) => Failure(e)
      case Success(y) => Success(x + y)
  }

  /** A group succeeds exactly when its three lines share one item type, worth that item's priority. */
  lemma GroupPriorityIsBadge(a: string, b: string, c: string)
    ensures GroupPriority(a, b, c).Success? <==> |Chars(a) * Chars(b) * Chars(c)| == 1
    ensures GroupPriority(a, b, c).Success? ==>
      exists x :: Chars(a) * Chars(b) * Chars(c) == {x} && GroupPriority(a, b, c).value == Priority(x)
  {
    SingletonIsSizeOne(Chars(a) * Chars(b) * Chars(c));
  }

  /** The sum of the first `n` partial results; the first failure wins. */
  function Total(ps: seq<Result<int>>, n: nat): Result<int>
    requires n <= |ps|
  {
    if n == 0 then Success(0) else Plus(Total(ps, n - 1), ps[n - 1])
  }

  lemma TotalStep(ps: seq<Result<int>>, n: nat, total: int, p: int)
    requires n < |ps| && Total(ps, n) == Success(total) && ps[n] == Success(p)
    ensures Total(ps, n + 1) == Success(total + p)
  {
  }

  /** A failure among the first `n` results is a failure of the first `m`. */
  lemma {:induction false} TotalFailureStays(ps: seq<Result<int>>, n: nat, m: nat)
    requires n <= m <= |ps| && Total(ps, n).Failure?
    ensures Total(ps, m).Failure?
    decreases m
  {
    if m > n {
      TotalFailureStays(ps, n, m - 1);
    }
  }

  /** The total succeeds exactly when every one of the first `n` results does. */
  lemma {:induction false} TotalSucceedsIffAll(ps: seq<Result<int>>, n: nat)
    requires n <= |ps|
    ensures Total(ps, n).Success? <==> forall j :: 0 <= j < n ==> ps[j].Success?
  {
    if n > 0 {
      TotalSucceedsIffAll(ps, n - 1);
    }
  }

  /** Each line's priority, in order. */
  function LinePriorities(lines: seq<string>): (r: seq<Result<int>>)
    ensures |r| == |lines|
  {
    seq(|lines|, i requires 0 <= i < |lines| => LinePriority(lines[i]))
  }

  /** Each complete group's badge priority, in order. */
  function GroupPriorities(lines: seq<string>): (r: seq<Result<int>>)
    ensures |r| == |lines| / 3
  {
    seq(|lines| / 3, k requires 0 <= k < |lines| / 3 => GroupPriority(lines[3 * k], lines[3 * k + 1], lines[3 * k + 2]))
  }

  /** The sum of line priorities. */
  function RucksackSum(lines: seq<string>): Result<int>
  {
    Total(LinePriorities(lines), |lines|)
  }

  /** The sum of badge priorities over the complete groups of three lines. */
  function BadgeSum(lines: seq<string>): Result<int>
  {
    Total(GroupPriorities(lines), |lines| / 3)
  }

  /** Line `i` lies in group `i / 3`. */
  lemma GroupOfLine(i: int, k: int, g: int)
    requires i == 3 * k + g && 0 <= g < 3
    ensures i / 3 == k
  {
  }

  /** `group` holds the item-type sets of the lines of group `k` read so far. */
  predicate GroupHolds(lines: seq<string>, k: nat, group: seq<set<char>>)
  {
    3 * k + |group| <= |lines| && forall g :: 0 <= g < |group| ==> group[g] == Chars(lines[3 * k + g])
  }

  lemma GroupGrows(lines: seq<string>, k: nat, group: seq<set<char>>, i: nat)
    requires GroupHolds(lines, k, group) && i == 3 * k + |group| < |lines|
    ensures GroupHolds(lines, k, group + [Chars(lines[i])])
  {
  }

  lemma GroupComplete(lines: seq<string>, k: nat, group: seq<set<char>>)
    requires GroupHolds(lines, k, group) && |group| == 3
    ensures group[0] * group[1] * group[2] == Chars(lines[3 * k]) * Chars(lines[3 * k + 1]) * Chars(lines[3 * k + 2])
  {
  }

  /**
   * One step of the loop in `CompartmentOverlap`: adds line `i`'s priority,
   * and the group's badge when line `i` completes the `k + 1`st group.
   */
  method ReadLine(lines: seq<string>, i: nat, k: nat, group: seq<set<char>>, compartmentOverlap: int, badgeOverlap: int)
    returns (ok: bool, k': nat, group': seq<set<char>>, compartmentOverlap': int, badgeOverlap': int)
    requires i < |lines| && i == 3 * k + |group| && |group| < 3
    requires GroupHolds(lines, k, group)
    requires Total(LinePriorities(lines), i) == Success(compartmentOverlap)
    requires Total(GroupPriorities(lines), k) == Success(badgeOverlap)
    ensures !ok ==> LinePriorities(lines)[i].Failure? || (k < |lines| / 3 && GroupPriorities(lines)[k].Failure?)
    ensures ok ==> i + 1 == 3 * k' + |group'| && |group'| < 3
    ensures ok ==> GroupHolds(lines, k', group')
    ensures ok ==> Total(LinePriorities(lines), i + 1) == Success(compartmentOverlap')
    ensures ok ==> Total(GroupPriorities(lines), k') == Success(badgeOverlap')
  {
    ghost var ps, gs := LinePriorities(lines), GroupPriorities(lines);
    var line := lines[i];
    var priority := LinePriority(line);
    assert ps[i] == priority;
    if priority.Failure? {
      return false, k, group, compartmentOverlap, badgeOverlap;
    }
    compartmentOverlap' := compartmentOverlap + priority.value;
    TotalStep(ps, i, compartmentOverlap, priority.value);
    assert Total(ps, i + 1) == Success(compartmentOverlap');
    group' := group + [Chars(line)];
    GroupGrows(lines, k, group, i);
    k', badgeOverlap' := k, badgeOverlap;
    if |group'| == 3 {
      GroupOfLine(i + 1, k + 1, 0);
      GroupComplete(lines, k, group');
      var badge := Single(group'[0] * group'[1] * group'[2]);
      assert gs[k] == GroupPriority(lines[3 * k], lines[3 * k + 1], lines[3 * k + 2]);
      k', group' := k + 1, [];
      if badge.Failure? {
        return false, k', group', compartmentOverlap', badgeOverlap';
      }
      badgeOverlap' := badgeOverlap + Priority(badge.value);
      TotalStep(gs, k, badgeOverlap, Priority(badge.value));
    }
    ok := true;
  }

  /** A line or badge that fails fails the whole sum. */
  lemma LineFailureFails(lines: seq<string>, i: nat, k: nat)
    requires i < |lines|
    requires LinePriorities(lines)[i].Failure? || (k < |lines| / 3 && GroupPriorities(lines)[k].Failure?)
    ensures RucksackSum(lines).Failure? || BadgeSum(lines).Failure?
  {
    if LinePriorities(lines)[i].Failure? {
      TotalFailureStays(LinePriorities(lines), i + 1, |lines|);
    } else {
      TotalFailureStays(GroupPriorities(lines), k + 1, |lines| / 3);
    }
  }

  /**
   * `CompartmentOverlap`: the loop over the lines, with the current group
   * of item-type sets. Its sums are the line sum and the badge sum of the
   * complete groups; a trailing group of fewer than three lines is dropped.
   */
  method CompartmentOverlap(lines: seq<string>) returns (r: Result<(int, int)>)
    ensures r.Success? <==> RucksackSum(lines).Success? && BadgeSum(lines).Success?
    ensures r.Success? ==> r.value == (RucksackSum(lines).value, BadgeSum(lines).value)
  {
    var group: seq<set<char>> := [];
    var compartmentOverlap, badgeOverlap := 0, 0;
    var i, k := 0, 0;
    while i < |lines|
      invariant 0 <= i <= |lines| && i == 3 * k + |group| && |group| < 3
      invariant GroupHolds(lines, k, group)
      invariant Total(LinePriorities(lines), i) == Success(compartmentOverlap)
      invariant Total(GroupPriorities(lines), k) == Success(badgeOverlap)
    {
      var ok, k';
      ok, k', group, compartmentOverlap, badgeOverlap := ReadLine(lines, i, k, group, compartmentOverlap, badgeOverlap);
      if !ok {
        LineFailureFails(lines, i, k);
        return Failure(InvalidOperation);
      }
      i, k := i + 1, k';
    }
    GroupOfLine(i, k, |group|);
    return Success((compartmentOverlap, badgeOverlap));
  }

  /**
   * The value of a trailing chunk of one or two lines in LINQ: two lines
   * intersect as sets, but a single line is aggregated to itself, so
   * `Single` sees its characters with repeats.
   */
  function PartialChunkPriority(rest: seq<string>): (r: Result<int>)
    requires 1 <= |rest| <= 2
  {
    if |rest| == 1 then
      if |rest[0]| == 1 then Success(Priority(rest[0][0])) else Failure(InvalidOperation)
    else
      match Single(Chars(rest[0]) * Chars(rest[1]))
      case Failure(e) => Failure(e)
      case Success(c) => Success(Priority(c))
  }

  /**
   * `Chunk(3)`: the lines in consecutive chunks of three; the last chunk is
   * shorter when the count is not a multiple of three.
   */
  function Chunks(lines: seq<string>): (r: seq<seq<string>>)
    ensures forall i | 0 <= i < |r| :: 1 <= |r[i]| <= 3
    decreases |lines|
  {
    if lines == [] then []
    else if |lines| <= 3 then [lines]
    else [lines[..3]] + Chunks(lines[3..])
  }

  /** One chunk's `Aggregate(Intersect)`, `Single` and `CalculatePriority`. */
  function ChunkPriority(chunk: seq<string>): Result<int>
    requires 1 <= |chunk| <= 3
  {
    if |chunk| == 3 then GroupPriority(chunk[0], chunk[1], chunk[2]) else PartialChunkPriority(chunk)
  }

  /** Each chunk's priority, in order. */
  function ChunkPriorities(chunks: seq<seq<string>>): (r: seq<Result<int>>)
    requires forall i | 0 <= i < |chunks| :: 1 <= |chunks[i]| <= 3
    ensures |r| == |chunks|
  {
    seq(|chunks|, i requires 0 <= i < |chunks| => ChunkPriority(chunks[i]))
  }

  /** `Where(chunk => chunk.Length == 3)`: the chunks of exactly three lines. */
  function FullChunks(chunks: seq<seq<string>>): (r: seq<seq<string>>)
    ensures forall i | 0 <= i < |r| :: |r[i]| == 3
  {
    if chunks == [] then []
    else (if |chunks[0]| == 3 then [chunks[0]] else []) + FullChunks(chunks[1..])
  }

  /**
   * `WithLinq` (and `WithQuerySyntax`, the same pipeline in query syntax),
   * as written: part 1 sums the lines' priorities, part 2 the priorities of
   * all chunks, including a trailing partial one.
   */
  function LinqSums(lines: seq<string>): (r: Result<(int, int)>)
    ensures RucksackSum(lines).Failure? ==> r == Failure(RucksackSum(lines).error)
    ensures r.Success? ==> RucksackSum(lines).Success? && r.value.0 == RucksackSum(lines).value
  {
    match RucksackSum(lines)
    case Failure(e) => Failure(e)
    case Success(part1) =>
      var chunks := Chunks(lines);
      match Total(ChunkPriorities(chunks), |chunks|)
      case Failure(e) => Failure(e)
      case Success(part2) => Success((part1, part2))
  }

  /** The same pipeline with the partial chunk filtered out before part 2. */
  function WholeGroupSums(lines: seq<string>): Result<(int, int)>
  {
    match RucksackSum(lines)
    case Failure(e) => Failure(e)
    case Success(part1) =>
      var chunks := FullChunks(Chunks(lines));
      match Total(ChunkPriorities(chunks), |chunks|)
      case Failure(e) => Failure(e)
      case Success(part2) => Success((part1, part2))
  }

  lemma GroupPrioritiesTail(lines: seq<string>)
    requires |lines| >= 3
    ensures GroupPriorities(lines) == [GroupPriority(lines[0], lines[1], lines[2])] + GroupPriorities(lines[3..])
  {
    var gs, hs := GroupPriorities(lines), GroupPriorities(lines[3..]);
    forall k | 1 <= k < |gs|
      ensures gs[k] == hs[k - 1]
    {
      assert lines[3 * k] == lines[3..][3 * (k - 1)];
      assert lines[3 * k + 1] == lines[3..][3 * (k - 1) + 1];
      assert lines[3 * k + 2] == lines[3..][3 * (k - 1) + 2];
    }
  }

  lemma ChunkPrioritiesCons(c: seq<string>, cs: seq<seq<string>>)
    requires 1 <= |c| <= 3 && forall i | 0 <= i < |cs| :: 1 <= |cs[i]| <= 3
    ensures ChunkPriorities([c] + cs) == [ChunkPriority(c)] + ChunkPriorities(cs)
  {
  }

  /** The full chunks, priced, are the loop's groups of three, priced. */
  lemma {:induction false} FullChunkPriorities(lines: seq<string>)
    ensures ChunkPriorities(FullChunks(Chunks(lines))) == GroupPriorities(lines)
    decreases |lines|
  {
    if |lines| > 3 {
      var rest := lines[3..];
      FullChunkPriorities(rest);
      assert Chunks(lines) == [lines[..3]] + Chunks(rest);
      assert FullChunks(Chunks(lines)) == [lines[..3]] + FullChunks(Chunks(rest));
      ChunkPrioritiesCons(lines[..3], FullChunks(Chunks(rest)));
      GroupPrioritiesTail(lines);
    } else if |lines| == 3 {
      assert FullChunks(Chunks(lines)) == [lines];
    }
  }

  /** On a whole number of groups every chunk is full. */
  lemma {:induction false} ChunksAllFull(lines: seq<string>)
    requires |lines| % 3 == 0
    ensures FullChunks(Chunks(lines)) == Chunks(lines)
    decreases |lines|
  {
    if |lines| > 3 {
      ChunksAllFull(lines[3..]);
      assert Chunks(lines) == [lines[..3]] + Chunks(lines[3..]);
      assert FullChunks(Chunks(lines)) == [lines[..3]] + FullChunks(Chunks(lines[3..]));
    } else if |lines| == 3 {
      assert FullChunks(Chunks(lines)) == [lines];
    }
  }

  /** With the partial chunk filtered out, the LINQ sums are exactly the loop's sums, failures included. */
  lemma WholeGroupSumsMatchLoop(lines: seq<string>)
    ensures WholeGroupSums(lines).Success? <==> RucksackSum(lines).Success? && BadgeSum(lines).Success?
    ensures WholeGroupSums(lines).Success? ==> WholeGroupSums(lines).value == (RucksackSum(lines).value, BadgeSum(lines).value)
  {
    FullChunkPriorities(lines);
  }

  /** On a whole number of groups the LINQ sums as written equal the filtered ones, and so the loop's. */
  lemma LinqSumsOnWholeGroups(lines: seq<string>)
    requires |lines| % 3 == 0
    ensures LinqSums(lines) == WholeGroupSums(lines)
  {
    ChunksAllFull(lines);
  }

  lemma AaPriorities()
    ensures LinePriority("aa") == Success(1)
    ensures GroupPriority("aa", "aa", "aa") == Success(1)
    ensures PartialChunkPriority(["aa", "aa"]) == Success(1)
  {
    assert Chars("aa") == {'a'};
    assert "aa"[..1] == "a" && "aa"[1..] == "a";
    assert Chars("a") == {'a'};
    SingleOfSingleton('a');
  }

  /** The five lines "aa" fall into one chunk of three and one of two. */
  lemma FiveAaChunks()
    ensures Chunks(["aa", "aa", "aa", "aa", "aa"]) == [["aa", "aa", "aa"], ["aa", "aa"]]
    ensures FullChunks(Chunks(["aa", "aa", "aa", "aa", "aa"])) == [["aa", "aa", "aa"]]
  {
    var lines := ["aa", "aa", "aa", "aa", "aa"];
    var chunks := Chunks(lines);
    assert lines[..3] == ["aa", "aa", "aa"] && lines[3..] == ["aa", "aa"];
    assert chunks == [lines[..3], lines[3..]];
    assert chunks[1..] == [lines[3..]] && chunks[1..][1..] == [];
    assert FullChunks(chunks[1..]) == [];
  }

  lemma FiveAaLines()
    ensures RucksackSum(["aa", "aa", "aa", "aa", "aa"]) == Success(5)
  {
    var lines := ["aa", "aa", "aa", "aa", "aa"];
    AaPriorities();
    var ps := LinePriorities(lines);
    assert forall i :: 0 <= i < 5 ==> ps[i] == Success(1);
    TotalStep(ps, 0, 0, 1);
    TotalStep(ps, 1, 1, 1);
    TotalStep(ps, 2, 2, 1);
    TotalStep(ps, 3, 3, 1);
    TotalStep(ps, 4, 4, 1);
  }

  /** Five lines "aa": the loop's badge sum is 1, the LINQ one counts the partial chunk too and is 2. */
  lemma PartialGroupCounted()
    ensures WholeGroupSums(["aa", "aa", "aa", "aa", "aa"]) == Success((5, 1))
    ensures LinqSums(["aa", "aa", "aa", "aa", "aa"]) == Success((5, 2))
  {
    var lines := ["aa", "aa", "aa", "aa", "aa"];
    AaPriorities();
    FiveAaLines();
    FiveAaChunks();
    var all := ChunkPriorities([["aa", "aa", "aa"], ["aa", "aa"]]);
    assert all == [Success(1), Success(1)];
    TotalStep(all, 0, 0, 1);
    TotalStep(all, 1, 1, 1);
    var some := ChunkPriorities([["aa", "aa", "aa"]]);
    assert some == [Success(1)];
    TotalStep(some, 0, 0, 1);
  }
}
