/**
 * Day 4 (earlier project): pairs of section ranges. The loop counts the
 * pairs where one range contains the other and the pairs that overlap,
 * and a LINQ version is compared with it.
 */
module Problem4 {
  import opened Wrappers
  import opened Numerics
  import Helpers

  const OutOfRange := ArgumentOutOfRangeException

  /** One input line `aStart-aEnd,bStart-bEnd`, as the `\d+` groups parse. */
  datatype Assignment = Assignment(aStart: int, aEnd: int, bStart: int, bEnd: int)

  /** Each number is a run of digits that fits in an `int`. */
  predicate Parsed(t: Assignment)
  {
    0 <= t.aStart <= Helpers.INT_MAX && 0 <= t.aEnd <= Helpers.INT_MAX
    && 0 <= t.bStart <= Helpers.INT_MAX && 0 <= t.bEnd <= Helpers.INT_MAX
  }

  predicate AllParsed(pairs: seq<Assignment>)
  {
    forall i :: 0 <= i < |pairs| ==> Parsed(pairs[i])
  }

  /** The sections `start..end`, inclusive. */
  function Sections(start: int, end: int): set<int>
    decreases end - start
  {
    if end < start then {} else Sections(start, end - 1) + {end}
  }

  /** `Sections` holds exactly the integers from `start` to `end`, and there are `end - start + 1` of them. */
  lemma {:induction false} SectionsContents(start: int, end: int)
    ensures forall x :: x in Sections(start, end) <==> start <= x <= end
    ensures |Sections(start, end)| == if start <= end then end - start + 1 else 0
    decreases end - start
  {
    if start <= end {
      SectionsContents(start, end - 1);
    }
  }

  /**
   * `Enumerable.Range(start, end - start + 1).ToHashSet()`: the count is
   * computed in 32 bits, and a negative count throws.
   */
  function SectionRange(start: int, end: int): (r: Result<set<int>>)
    requires 0 <= start <= Helpers.INT_MAX && 0 <= end <= Helpers.INT_MAX
    ensures r.Success? <==> !RangeThrows(start, end)
    ensures r.Success? ==> r.value == Sections(start, end)
  {
    var count := Wrap32(end - start + 1);
    assert start == 0 && end == Helpers.INT_MAX ==> count == -0x8000_0000;
    if count < 0 then Failure(OutOfRange)
    else Success(Sections(start, start + count - 1))
  }

  /** The three numbers the program compares: both range sizes and the size of their intersection. */
  datatype Sizes = Sizes(a: int, b: int, overlap: int)

  /** `Enumerable.Range(start, end - start + 1)` throws for these bounds. */
  predicate RangeThrows(start: int, end: int)
  {
    end + 1 < start || (start == 0 && end == Helpers.INT_MAX)
  }

  /** The number of sections in `start..end`. */
  function Length(start: int, end: int): nat
  {
    if start <= end then end - start + 1 else 0
  }

  function Max(x: int, y: int): int { if x >= y then x else y }
  function Min(x: int, y: int): int { if x <= y then x else y }

  /**
   * What one turn of the loop computes, in interval arithmetic: the two
   * range lengths and the length of their common part.
   */
  function PairSizes(t: Assignment): Result<Sizes>
  {
    if RangeThrows(t.aStart, t.aEnd) || RangeThrows(t.bStart, t.bEnd) then Failure(OutOfRange)
    else Success(Sizes(Length(t.aStart, t.aEnd), Length(t.bStart, t.bEnd), Length(Max(t.aStart, t.bStart), Min(t.aEnd, t.bEnd))))
  }

  /** `overlapCount == a.Count || overlapCount == b.Count`. */
  predicate Contained(s: Sizes)
  {
    s.overlap == s.a || s.overlap == s.b
  }

  /** `overlapCount != 0`. */
  predicate Overlapping(s: Sizes)
  {
    s.overlap != 0
  }

  /** The two counts over the first `n` results; the first failure wins. */
  function Counts(sizes: seq<Result<Sizes>>, n: nat): (r: Result<(int, int)>)
    requires n <= |sizes|
    ensures r.Success? ==> 0 <= r.value.0 <= n && 0 <= r.value.1 <= n
  {
    if n == 0 then Success((0, 0))
    else
      match Counts(sizes, n - 1)
      case Failure(e) => Failure(e)
      case Success(c) =>
        match sizes[n - 1]
        case Failure(e) => Failure(e)
        case Success(s) =>
          Success((c.0 + (if Contained(s) then 1 else 0), c.1 + (if Overlapping(s) then 1 else 0)))
  }

  /** The loop's per-pair results, in order. */
  function LoopSizes(pairs: seq<Assignment>): (r: seq<Result<Sizes>>)
    ensures |r| == |pairs|
  {
    seq(|pairs|, i requires 0 <= i < |pairs| => PairSizes(pairs[i]))
  }

  lemma CountsStep(sizes: seq<Result<Sizes>>, n: nat, c: (int, int), s: Sizes)
    requires n < |sizes| && Counts(sizes, n) == Success(c) && sizes[n] == Success(s)
    ensures Counts(sizes, n + 1) == Success((c.0 + (if Contained(s) then 1 else 0), c.1 + (if Overlapping(s) then 1 else 0)))
  {
  }

  /** The body of the loop up to the comparison: both ranges as sets and the size of their intersection. */
  method MeasurePair(t: Assignment) returns (r: Result<Sizes>)
    requires Parsed(t)
    ensures r == PairSizes(t)
  {
    var a := SectionRange(t.aStart, t.aEnd);
    if a.Failure? {
      return Failure(a.error);
    }
    var b := SectionRange(t.bStart, t.bEnd);
    if b.Failure? {
      return Failure(b.error);
    }
    var overlapCount := |a.value * b.value|;
    SectionsContents(t.aStart, t.aEnd);
    SectionsContents(t.bStart, t.bEnd);
    SectionsMeet(t.aStart, t.aEnd, t.bStart, t.bEnd);
    SectionsContents(Max(t.aStart, t.bStart), Min(t.aEnd, t.bEnd));
    return Success(Sizes(|a.value|, |b.value|, overlapCount));
  }

  /** The two counters' update for one pair. */
  method Tally(count: int, anyOver: int, s: Sizes) returns (count': int, anyOver': int)
    ensures count' == count + (if Contained(s) then 1 else 0)
    ensures anyOver' == anyOver + (if Overlapping(s) then 1 else 0)
  {
    count', anyOver' := count, anyOver;
    if s.overlap == s.a || s.overlap == s.b {
      count' := count' + 1;
    }
    if s.overlap != 0 {
      anyOver' := anyOver' + 1;
    }
  }

  /**
   * The loop of `ExecuteCoreAsync`: for each pair, both ranges are built as
   * sets; the pair counts as contained when the intersection is as large as
   * one of them and as overlapping when it is not empty.
   */
  method CountOverlaps(pairs: seq<Assignment>) returns (r: Result<(int, int)>)
    requires AllParsed(pairs)
    ensures r == Counts(LoopSizes(pairs), |pairs|)
  {
    ghost var sizes := LoopSizes(pairs);
    var count, anyOver := 0, 0;
    var i := 0;
    while i < |pairs|
      invariant 0 <= i <= |pairs|
      invariant Counts(sizes, i) == Success((count, anyOver))
    {
      var s := MeasurePair(pairs[i]);
      assert sizes[i] == s;
      if s.Failure? {
        FailureIsFirst(sizes, i + 1, |pairs|);
        return Failure(s.error);
      }
      CountsStep(sizes, i, (count, anyOver), s.value);
      count, anyOver := Tally(count, anyOver, s.value);
      i := i + 1;
    }
    return Success((count, anyOver));
  }

  /** Once a prefix fails, the whole count fails with the same error. */
  lemma {:induction false} FailureIsFirst(sizes: seq<Result<Sizes>>, n: nat, m: nat)
    requires n <= m <= |sizes| && Counts(sizes, n).Failure?
    ensures Counts(sizes, m) == Counts(sizes, n)
    decreases m
  {
    if m > n {
      FailureIsFirst(sizes, n, m - 1);
    }
  }

  /** Two section ranges meet in the range from the later start to the earlier end. */
  lemma SectionsMeet(s1: int, e1: int, s2: int, e2: int)
    ensures Sections(s1, e1) * Sections(s2, e2) == Sections(Max(s1, s2), Min(e1, e2))
  {
    SectionsContents(s1, e1);
    SectionsContents(s2, e2);
    SectionsContents(Max(s1, s2), Min(e1, e2));
    forall x
      ensures x in Sections(s1, e1) * Sections(s2, e2) <==> x in Sections(Max(s1, s2), Min(e1, e2))
    {
    }
  }

  /** A pair is counted as contained iff one range lies inside the other (an empty range lies inside any). */
  lemma ContainedIffNested(t: Assignment)
    requires PairSizes(t).Success?
    ensures Contained(PairSizes(t).value) <==>
      t.aStart > t.aEnd || t.bStart > t.bEnd
      || (t.bStart <= t.aStart && t.aEnd <= t.bEnd)
      || (t.aStart <= t.bStart && t.bEnd <= t.aEnd)
  {
  }

  /** A pair is counted as overlapping iff both ranges are non-empty and each starts no later than the other ends. */
  lemma OverlappingIffMeet(t: Assignment)
    requires PairSizes(t).Success?
    ensures Overlapping(PairSizes(t).value) <==>
      t.aStart <= t.aEnd && t.bStart <= t.bEnd && t.aStart <= t.bEnd && t.bStart <= t.aEnd
  {
  }

  /** `start..(end + 1)` in `ExecuteLinq`: the addition wraps, and a negative index throws. */
  function LinqRange(start: int, end: int): (r: Result<Helpers.Range>)
    requires 0 <= start <= Helpers.INT_MAX && 0 <= end <= Helpers.INT_MAX
    ensures r.Success? <==> end < Helpers.INT_MAX
    ensures r.Success? ==> r.value == Helpers.Range(Helpers.Index(start, false), Helpers.Index(end + 1, false))
  {
    var last := Wrap32(end + 1);
    assert end == Helpers.INT_MAX ==> last == -0x8000_0000;
    if last < 0 then Failure(OutOfRange)
    else Success(Helpers.Range(Helpers.Index(start, false), Helpers.Index(last, false)))
  }

  /** `GetOffsetAndLength(int.MaxValue).Length`. */
  function LinqLength(r: Helpers.Range): (n: Result<int>)
    requires r.start.value <= Helpers.INT_MAX && r.end.value <= Helpers.INT_MAX
  {
    match Helpers.GetOffsetAndLength(r, Helpers.INT_MAX)
    case Failure(e) => Failure(e)
    case Success(p) => Success(p.1)
  }

  /**
   * One projection of `ExecuteLinq` as written. `AsEnumerable` on a range
   * binds to the generic one-element overload, so the "intersection" is of
   * two one-element sequences of ranges.
   */
  function LinqSizes(t: Assignment): (r: Result<Sizes>)
    requires Parsed(t)
  {
    match LinqRange(t.aStart, t.aEnd)
    case Failure(e) => Failure(e)
    case Success(ra) =>
      match LinqRange(t.bStart, t.bEnd)
      case Failure(e) => Failure(e)
      case Success(rb) =>
        match LinqLength(ra)
        case Failure(e) => Failure(e)
        case Success(a) =>
          match LinqLength(rb)
          case Failure(e) => Failure(e)
          case Success(b) =>
            Success(Sizes(a, b, |set x | x in Helpers.Singleton(ra) && x in Helpers.Singleton(rb)|))
  }

  /** As written, the "overlap" is 1 when the two ranges are identical and 0 otherwise. */
  lemma LinqOverlapComparesRanges(t: Assignment)
    requires Parsed(t) && LinqSizes(t).Success?
    ensures LinqSizes(t).value.overlap == if t.aStart == t.bStart && t.aEnd == t.bEnd then 1 else 0
  {
    var ra := LinqRange(t.aStart, t.aEnd).value;
    var rb := LinqRange(t.bStart, t.bEnd).value;
    var common := set x | x in Helpers.Singleton(ra) && x in Helpers.Singleton(rb);
    if ra == rb {
      assert common == {ra};
    } else {
      assert common == {};
    }
  }

  /**
   * The same projection with the `Range` overload of `AsEnumerable` (the one
   * the other project's helpers define): the ranges' values are intersected.
   */
  function FixedLinqSizes(t: Assignment): (r: Result<Sizes>)
    requires Parsed(t)
  {
    match LinqRange(t.aStart, t.aEnd)
    case Failure(e) => Failure(e)
    case Success(ra) =>
      match LinqRange(t.bStart, t.bEnd)
      case Failure(e) => Failure(e)
      case Success(rb) =>
        match Helpers.RangeValues(ra)
        case Failure(e) => Failure(e)
        case Success(va) =>
          match Helpers.RangeValues(rb)
          case Failure(e) => Failure(e)
          case Success(vb) => Success(Sizes(|va|, |vb|, |set x | x in va && x in vb|))
  }

  /** The values of `start..(end + 1)` are the sections `start..end`. */
  lemma RangeValuesAreSections(start: int, end: int) returns (v: seq<int>)
    requires 0 <= start <= Helpers.INT_MAX && 0 <= end < Helpers.INT_MAX && start <= end + 1
    ensures Helpers.RangeValues(Helpers.Range(Helpers.Index(start, false), Helpers.Index(end + 1, false))) == Success(v)
    ensures |v| == Length(start, end)
    ensures forall x :: x in v <==> start <= x <= end
  {
    v := Helpers.RangeValues(Helpers.Range(Helpers.Index(start, false), Helpers.Index(end + 1, false))).value;
    forall x | start <= x <= end
      ensures x in v
    {
      assert v[x - start] == x;
    }
  }

  /** The values two ranges have in common are the sections of their common part. */
  lemma CommonValues(va: seq<int>, vb: seq<int>, t: Assignment)
    requires forall x :: x in va <==> t.aStart <= x <= t.aEnd
    requires forall x :: x in vb <==> t.bStart <= x <= t.bEnd
    ensures |set x | x in va && x in vb| == Length(Max(t.aStart, t.bStart), Min(t.aEnd, t.bEnd))
  {
    SectionsContents(Max(t.aStart, t.bStart), Min(t.aEnd, t.bEnd));
    forall x
      ensures x in (set x | x in va && x in vb) <==> x in Sections(Max(t.aStart, t.bStart), Min(t.aEnd, t.bEnd))
    {
    }
    assert (set x | x in va && x in vb) == Sections(Max(t.aStart, t.bStart), Min(t.aEnd, t.bEnd));
  }

  /** Away from `int.MaxValue`, the corrected projection gives the loop's numbers and fails exactly when it does. */
  lemma FixedLinqMatchesLoop(t: Assignment)
    requires Parsed(t) && t.aEnd < Helpers.INT_MAX && t.bEnd < Helpers.INT_MAX
    ensures FixedLinqSizes(t) == PairSizes(t)
  {
    if t.aStart <= t.aEnd + 1 && t.bStart <= t.bEnd + 1 {
      var va := RangeValuesAreSections(t.aStart, t.aEnd);
      var vb := RangeValuesAreSections(t.bStart, t.bEnd);
      CommonValues(va, vb, t);
    }
  }

  /** `ExecuteLinq` as written: both counts over the projected pairs. */
  function LinqCounts(pairs: seq<Assignment>): Result<(int, int)>
    requires AllParsed(pairs)
  {
    Counts(seq(|pairs|, i requires 0 <= i < |pairs| && AllParsed(pairs) => LinqSizes(pairs[i])), |pairs|)
  }

  /** `ExecuteLinq` with the `Range` overload. */
  function FixedLinqCounts(pairs: seq<Assignment>): (r: Result<(int, int)>)
    requires AllParsed(pairs)
    ensures (forall i :: 0 <= i < |pairs| ==> pairs[i].aEnd < Helpers.INT_MAX && pairs[i].bEnd < Helpers.INT_MAX)
      ==> r == Counts(LoopSizes(pairs), |pairs|)
  {
    var sizes := seq(|pairs|, i requires 0 <= i < |pairs| => FixedLinqSizes(pairs[i]));
    if forall i :: 0 <= i < |pairs| ==> pairs[i].aEnd < Helpers.INT_MAX && pairs[i].bEnd < Helpers.INT_MAX then
      assert sizes == LoopSizes(pairs) by {
        forall i | 0 <= i < |pairs|
          ensures sizes[i] == LoopSizes(pairs)[i]
        {
          FixedLinqMatchesLoop(pairs[i]);
        }
      }
      Counts(sizes, |pairs|)
    else
      Counts(sizes, |pairs|)
  }

  /** The pair 2-4,3-3: the loop counts it as contained and overlapping, `ExecuteLinq` as written counts neither. */
  lemma LinqMissesNestedPair()
    ensures Counts(LoopSizes([Assignment(2, 4, 3, 3)]), 1) == Success((1, 1))
    ensures LinqCounts([Assignment(2, 4, 3, 3)]) == Success((0, 0))
  {
    var t := Assignment(2, 4, 3, 3);
    assert PairSizes(t) == Success(Sizes(3, 1, 1));
    assert LoopSizes([t])[0] == PairSizes(t);
    assert LinqRange(2, 4) == Success(Helpers.Range(Helpers.Index(2, false), Helpers.Index(5, false)));
    assert LinqRange(3, 3) == Success(Helpers.Range(Helpers.Index(3, false), Helpers.Index(4, false)));
    LinqOverlapComparesRanges(t);
    assert LinqSizes(t) == Success(Sizes(3, 1, 0));
    var ls := seq(1, i requires 0 <= i < 1 && AllParsed([t]) => LinqSizes([t][i]));
    assert ls[0] == LinqSizes(t);
    assert Counts(ls, 1) == Success((0, 0));
  }
}
