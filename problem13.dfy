/**
 * Problem 13: nested packets such as `[1,[2,3],[]]`, a recursive comparison
 * between them, a recursive-descent parser, and the decoder key computed
 * from where two divider packets land once everything is sorted.
 */
module Problem13 {
  import opened Wrappers
  import opened Numerics
  import opened Seqs
  import opened Text

  /** `IntPacket(Value)` or `ListPacket(Packets)`. */
  datatype Packet = Int(value: int) | List(items: seq<Packet>)

  function Size(p: Packet): nat
  {
    match p
    case Int(_) => 1
    case List(xs) => 1 + SizeOf(xs)
  }

  function SizeOf(xs: seq<Packet>): nat
  {
    if xs == [] then 0 else Size(xs[0]) + SizeOf(xs[1..])
  }

  // ---------------------------------------------------------------------------
  // Comparison
  // ---------------------------------------------------------------------------

  /**
   * `a.CompareTo(b)`. Two ints compare by value (`int.CompareTo` answers -1, 0
   * or 1); an int met by a list is wrapped in a one-element list; two lists go
   * through `CompareItems`, the index loop.
   */
  function Compare(a: Packet, b: Packet): (r: int)
    ensures -1 <= r <= 1
    ensures a.Int? && b.Int? ==> (r < 0 <==> a.value < b.value) && (r == 0 <==> a.value == b.value)
    decreases Size(a) + Size(b), 0
  {
    match (a, b)
    case (Int(x), Int(y)) => Sign(x - y)
    case (Int(_), List(ys)) =>
      assert SizeOf([a]) == 1;
      CompareItems([a], ys)
    case (List(xs), Int(_)) =>
      assert SizeOf([b]) == 1;
      CompareItems(xs, [b])
    case (List(xs), List(ys)) => CompareItems(xs, ys)
  }

  /**
   * The loop over the index `i` of two lists: a list that runs out first is
   * less, two that run out together are equal, and otherwise the first element
   * comparison that is not 0 is the answer.
   */
  function CompareItems(xs: seq<Packet>, ys: seq<Packet>): (r: int)
    ensures -1 <= r <= 1
    ensures xs == [] ==> (r == 0 <==> ys == [])
    ensures xs != [] && ys == [] ==> r == 1
    decreases SizeOf(xs) + SizeOf(ys), 1
  {
    if xs == [] then (if ys == [] then 0 else -1)
    else if ys == [] then 1
    else
      var sub := Compare(xs[0], ys[0]);
      if sub != 0 then sub else CompareItems(xs[1..], ys[1..])
  }

  /** An int compared with a list behaves exactly like the one-element list holding it, on either side. */
  lemma IntActsAsSingleton(x: int, ys: seq<Packet>)
    ensures Compare(Int(x), List(ys)) == Compare(List([Int(x)]), List(ys))
    ensures Compare(List(ys), Int(x)) == Compare(List(ys), List([Int(x)]))
  {
  }

  /**
   * Lexicographic order: after a common prefix of `k` elements that compare
   * equal, the first difference decides; if one list ends there it is the
   * lesser one, and lists that end together are equal.
   */
  lemma {:induction false} FirstDifferenceDecides(xs: seq<Packet>, ys: seq<Packet>, k: nat)
    requires k <= |xs| && k <= |ys|
    requires forall i :: 0 <= i < k ==> Compare(xs[i], ys[i]) == 0
    ensures k == |xs| && k == |ys| ==> CompareItems(xs, ys) == 0
    ensures k == |xs| && k < |ys| ==> CompareItems(xs, ys) == -1
    ensures k < |xs| && k == |ys| ==> CompareItems(xs, ys) == 1
    ensures k < |xs| && k < |ys| && Compare(xs[k], ys[k]) != 0 ==>
              CompareItems(xs, ys) == Compare(xs[k], ys[k])
    decreases k
  {
    if k > 0 {
      assert Compare(xs[0], ys[0]) == 0;
      FirstDifferenceDecides(xs[1..], ys[1..], k - 1);
    }
  }

  /** Swapping the arguments negates the answer (what `List.Sort` relies on). */
  lemma {:induction false} CompareAntisymmetric(a: Packet, b: Packet)
    ensures Compare(a, b) == -Compare(b, a)
    decreases Size(a) + Size(b), 0
  {
    match (a, b)
    case (Int(x), Int(y)) =>
    case (Int(_), List(ys)) =>
      assert SizeOf([a]) == 1;
      ItemsAntisymmetric([a], ys);
    case (List(xs), Int(_)) =>
      assert SizeOf([b]) == 1;
      ItemsAntisymmetric(xs, [b]);
    case (List(xs), List(ys)) =>
      ItemsAntisymmetric(xs, ys);
  }

  lemma {:induction false} ItemsAntisymmetric(xs: seq<Packet>, ys: seq<Packet>)
    ensures CompareItems(xs, ys) == -CompareItems(ys, xs)
    decreases SizeOf(xs) + SizeOf(ys), 1
  {
    if xs != [] && ys != [] {
      CompareAntisymmetric(xs[0], ys[0]);
      ItemsAntisymmetric(xs[1..], ys[1..]);
    }
  }

  /** Every packet compares equal to itself. */
  lemma {:induction false} CompareReflexive(p: Packet)
    ensures Compare(p, p) == 0
    decreases Size(p), 0
  {
    if p.List? {
      ItemsReflexive(p.items);
    }
  }

  lemma {:induction false} ItemsReflexive(xs: seq<Packet>)
    ensures CompareItems(xs, xs) == 0
    decreases SizeOf(xs), 1
  {
    if xs != [] {
      CompareReflexive(xs[0]);
      ItemsReflexive(xs[1..]);
    }
  }

  // ---------------------------------------------------------------------------
  // Parsing
  // ---------------------------------------------------------------------------

  const IndexOutOfRange := IndexOutOfRangeException
  const INT_MAX := 0x7FFF_FFFF

  /** The length of the run of digits that starts `s`. */
  function DigitRun(s: string): (n: nat)
    ensures n <= |s|
    ensures forall i :: 0 <= i < n ==> IsDigit(s[i])
    ensures n < |s| ==> !IsDigit(s[n])
  {
    if s == [] || !IsDigit(s[0]) then 0 else 1 + DigitRun(s[1..])
  }

  /**
   * What `ParseLine(line, out rest)` returns: the packet at the front of
   * `line` and the text after it, or the exception it throws.
   */
  function ParsePacket(line: string): (r: Result<(Packet, string)>)
    ensures r.Success? ==> |r.value.1| < |line| && line[|line| - |r.value.1|..] == r.value.1
    decreases |line|, 1
  {
    if |line| == 0 then Failure(IndexOutOfRange)
    else if line[0] == '[' then
      if |line| < 2 then Failure(IndexOutOfRange)
      else if line[1] == ']' then Success((List([]), line[2..]))
      else ParseItems(line, [])
    else
      var n := DigitRun(line);
      if n == 0 then Failure(FormatException)
      else
        var v := DecimalValue(line[..n]);
        if v > INT_MAX then Failure(OverflowException) else Success((Int(v), line[n..]))
  }

  /**
   * The `while (line[0] != ']')` loop: `items` have been read, and `line`
   * starts at the character before the next item (the opening '[' or a
   * separator) or at the closing ']'.
   */
  function ParseItems(line: string, items: seq<Packet>): (r: Result<(Packet, string)>)
    ensures r.Success? ==> |r.value.1| < |line| && line[|line| - |r.value.1|..] == r.value.1
    decreases |line|, 0
  {
    if |line| == 0 then Failure(IndexOutOfRange)
    else if line[0] == ']' then Success((List(items), line[1..]))
    else match ParsePacket(line[1..])
      case Failure(e) => Failure(e)
      case Success((p, rest)) => ParseItems(rest, items + [p])
  }

  /** `ParseLine`: recursive descent, with a loop collecting the items of a list. */
  method ParseLine(line: string) returns (r: Result<(Packet, string)>)
    ensures r == ParsePacket(line)
    decreases |line|
  {
    if |line| == 0 {
      return Failure(IndexOutOfRange);
    }
    if line[0] == '[' {
      if |line| < 2 {
        return Failure(IndexOutOfRange);
      }
      if line[1] == ']' {
        return Success((List([]), line[2..]));
      }
      var subPackets: seq<Packet> := [];
      var rest := line;
      while true
        invariant |rest| <= |line|
        invariant ParseItems(rest, subPackets) == ParsePacket(line)
        decreases |rest|
      {
        if |rest| == 0 {
          return Failure(IndexOutOfRange);
        }
        if rest[0] == ']' {
          break;
        }
        var sub := ParseLine(rest[1..]);
        if sub.Failure? {
          return Failure(sub.error);
        }
        subPackets := subPackets + [sub.value.0];
        rest := sub.value.1;
      }
      return Success((List(subPackets), rest[1..]));
    }
    var i := 0;
    while i < |line| && IsDigit(line[i])
      invariant 0 <= i <= |line|
      invariant forall k :: 0 <= k < i ==> IsDigit(line[k])
    {
      i := i + 1;
    }
    assert i == DigitRun(line);
    if i == 0 {
      return Failure(FormatException);
    }
    var value := DecimalValue(line[..i]);
    if value > INT_MAX {
      return Failure(OverflowException);
    }
    return Success((Int(value), line[i..]));
  }

  /** "[]" gives the empty list and consumes exactly two characters. */
  lemma ParsesEmptyList(rest: string)
    ensures ParsePacket("[]" + rest) == Success((List([]), rest))
  {
    assert ("[]" + rest)[2..] == rest;
  }

  /** A run of digits gives that number, and the rest starts at the first non-digit. */
  lemma ParsesDigitRun(digits: string, rest: string)
    requires digits != [] && forall i :: 0 <= i < |digits| ==> IsDigit(digits[i])
    requires rest == [] || !IsDigit(rest[0])
    requires DecimalValue(digits) <= INT_MAX
    ensures ParsePacket(digits + rest) == Success((Int(DecimalValue(digits)), rest))
  {
    var line := digits + rest;
    DigitRunOf(digits, rest);
    assert line[..|digits|] == digits;
    assert line[|digits|..] == rest;
  }

  lemma DigitRunOf(digits: string, rest: string)
    requires forall i :: 0 <= i < |digits| ==> IsDigit(digits[i])
    requires rest == [] || !IsDigit(rest[0])
    ensures DigitRun(digits + rest) == |digits|
  {
    var line := digits + rest;
    assert forall i :: 0 <= i < |digits| ==> line[i] == digits[i];
    assert |digits| < |line| ==> line[|digits|] == rest[0];
  }

  // ---------------------------------------------------------------------------
  // Printing, the parser's partner
  // ---------------------------------------------------------------------------

  /** A packet the parser can produce: every int fits an `int` and is not negative. */
  predicate Printable(p: Packet)
  {
    match p
    case Int(v) => 0 <= v <= INT_MAX
    case List(xs) => forall i :: 0 <= i < |xs| ==> Printable(xs[i])
  }

  /** The packet in the puzzle's notation: `[` items separated by `,` `]`. */
  function Format(p: Packet): (s: string)
    requires Printable(p)
    ensures s != [] && s[0] != ']' && s[0] != ','
  {
    match p
    case Int(v) => Decimal(v)
    case List(xs) => "[" + (Join(xs) + "]")
  }

  function Join(xs: seq<Packet>): (s: string)
    requires forall i :: 0 <= i < |xs| ==> Printable(xs[i])
    ensures xs != [] ==> s != [] && s[0] != ']'
  {
    if xs == [] then ""
    else if |xs| == 1 then Format(xs[0])
    else Format(xs[0]) + ("," + Join(xs[1..]))
  }

  lemma OpensList(line: string)
    requires |line| >= 2 && line[0] == '[' && line[1] != ']'
    ensures ParsePacket(line) == ParseItems(line, [])
  {
  }

  lemma ReadsItem(line: string, items: seq<Packet>, p: Packet, rest: string)
    requires |line| > 0 && line[0] != ']'
    requires ParsePacket(line[1..]) == Success((p, rest))
    ensures ParseItems(line, items) == ParseItems(rest, items + [p])
  {
  }

  lemma ClosesList(line: string, items: seq<Packet>)
    requires |line| > 0 && line[0] == ']'
    ensures ParseItems(line, items) == Success((List(items), line[1..]))
  {
  }

  /** Parsing a printed packet gives it back and stops right after it. */
  lemma {:induction false} ParseFormat(p: Packet, rest: string)
    requires Printable(p)
    requires rest == [] || !IsDigit(rest[0])
    ensures ParsePacket(Format(p) + rest) == Success((p, rest))
  {
    match p
    case Int(v) =>
      ParsesDigitRun(Decimal(v), rest);
    case List(xs) =>
      if xs == [] {
        assert Format(p) == "[]";
        ParsesEmptyList(rest);
      } else {
        var items := Join(xs) + ("]" + rest);
        var line := "[" + items;
        assert Format(p) == "[" + (Join(xs) + "]");
        AppendAssoc("[", Join(xs) + "]", rest);
        AppendAssoc(Join(xs), "]", rest);
        assert Format(p) + rest == line;
        assert line[1] == Join(xs)[0];
        OpensList(line);
        ParseItemsFormat(xs, [], '[', rest);
        assert [] + xs == xs;
      }
  }

  /** The item loop reads a printed, non-empty item list back. */
  lemma {:induction false} ParseItemsFormat(xs: seq<Packet>, done: seq<Packet>, c: char, rest: string)
    requires xs != [] && forall i :: 0 <= i < |xs| ==> Printable(xs[i])
    requires c != ']'
    requires rest == [] || !IsDigit(rest[0])
    ensures ParseItems([c] + (Join(xs) + ("]" + rest)), done) == Success((List(done + xs), rest))
    decreases xs
  {
    var line := [c] + (Join(xs) + ("]" + rest));
    DropFirst(c, Join(xs) + ("]" + rest));
    if |xs| == 1 {
      ParseFormat(xs[0], "]" + rest);
      ReadsItem(line, done, xs[0], "]" + rest);
      ClosesList("]" + rest, done + [xs[0]]);
      DropFirst(']', rest);
      MoveFirst(done, xs);
      assert xs[1..] == [];
      AppendEmpty(done + [xs[0]]);
    } else {
      var more := Join(xs[1..]) + ("]" + rest);
      AppendAssoc(",", Join(xs[1..]), "]" + rest);
      AppendAssoc(Format(xs[0]), "," + Join(xs[1..]), "]" + rest);
      assert line[1..] == Format(xs[0]) + ([','] + more);
      ParseFormat(xs[0], [','] + more);
      ReadsItem(line, done, xs[0], [','] + more);
      ParseItemsFormat(xs[1..], done + [xs[0]], ',', rest);
      MoveFirst(done, xs);
    }
  }

  // ---------------------------------------------------------------------------
  // Answers
  // ---------------------------------------------------------------------------

  /** The 1-based indices of the pairs that are in the right order. */
  function InOrder(pairs: seq<(Packet, Packet)>): (r: seq<nat>)
    ensures forall i :: 1 <= i <= |pairs| ==> (i in r <==> Compare(pairs[i - 1].0, pairs[i - 1].1) < 0)
    ensures forall x :: x in r ==> 1 <= x <= |pairs|
    ensures forall j, k :: 0 <= j < k < |r| ==> r[j] < r[k]
  {
    if pairs == [] then []
    else
      var n := |pairs|;
      var init := InOrder(pairs[..n - 1]);
      assert forall j :: 0 <= j < n - 1 ==> pairs[..n - 1][j] == pairs[j];
      assert |pairs[..n - 1]| == n - 1;
      assert forall j :: 0 <= j < |init| ==> init[j] in init;
      if Compare(pairs[n - 1].0, pairs[n - 1].1) < 0 then init + [n] else init
  }

  const Divider2 := List([List([Int(2)])])
  const Divider6 := List([List([Int(6)])])

  /** How many packets of `ps` compare below `d`. */
  function CountBelow(ps: seq<Packet>, d: Packet): nat
  {
    if ps == [] then 0
    else CountBelow(ps[..|ps| - 1], d) + (if Compare(ps[|ps| - 1], d) < 0 then 1 else 0)
  }

  lemma {:induction false} CountBelowAppend(a: seq<Packet>, b: seq<Packet>, d: Packet)
    ensures CountBelow(a + b, d) == CountBelow(a, d) + CountBelow(b, d)
    decreases |b|
  {
    if b != [] {
      var b' := b[..|b| - 1];
      assert (a + b)[..|a + b| - 1] == a + b';
      CountBelowAppend(a, b', d);
    } else {
      assert a + b == a;
    }
  }

  /** The count depends only on which packets there are, not on their order. */
  lemma {:induction false} CountBelowPermutation(a: seq<Packet>, b: seq<Packet>, d: Packet)
    requires multiset(a) == multiset(b)
    ensures CountBelow(a, d) == CountBelow(b, d)
    decreases |a|
  {
    if a != [] {
      var x := a[|a| - 1];
      var a' := a[..|a| - 1];
      var j := FindLast(a, b);
      var b' := b[..j] + b[j + 1..];
      CountBelowPermutation(a', b', d);
      assert b == b[..j] + [x] + b[j + 1..];
      CountBelowAppend(b[..j] + [x], b[j + 1..], d);
      CountBelowAppend(b[..j], [x], d);
      CountBelowAppend(b[..j], b[j + 1..], d);
      assert CountBelow([x], d) == (if Compare(x, d) < 0 then 1 else 0) by {
        assert [x][..0] == [];
      }
    } else {
      assert b == [];
    }
  }

  predicate Sorted(s: seq<Packet>)
  {
    forall i, j :: 0 <= i < j < |s| ==> Compare(s[i], s[j]) <= 0
  }

  /** `List.IndexOf`: the first position holding `x`, or -1. */
  function IndexOf(s: seq<Packet>, x: Packet): (k: int)
    ensures -1 <= k < |s|
    ensures k >= 0 ==> s[k] == x && forall i :: 0 <= i < k ==> s[i] != x
    ensures k == -1 ==> x !in s
  {
    if s == [] then -1
    else if s[0] == x then 0
    else
      var k := IndexOf(s[1..], x);
      if k == -1 then -1 else k + 1
  }

  /** Where the dividers land once sorted: the product of their 1-based positions. */
  function DecoderKey(sorted: seq<Packet>): (key: int)
    ensures key >= 0
    ensures key > 0 <==> Divider2 in sorted && Divider6 in sorted
  {
    (IndexOf(sorted, Divider2) + 1) * (IndexOf(sorted, Divider6) + 1)
  }

  /**
   * In a sorted arrangement, a packet that nothing else compares equal to
   * sits after exactly the packets below it.
   */
  lemma PositionIsCountBelow(s: seq<Packet>, k: nat, rest: seq<Packet>)
    requires Sorted(s) && k < |s|
    requires multiset(s) == multiset(rest + [s[k]])
    requires forall p :: p in rest ==> Compare(p, s[k]) != 0
    ensures k == CountBelow(rest, s[k])
  {
    var d := s[k];
    var before, after := s[..k], s[k + 1..];
    Others(s, k, rest);
    BeforeIsBelow(s, k, rest);
    AfterIsNotBelow(s, k);
    assert forall j :: 0 <= j < |after| ==> after[j] == s[k + 1 + j];
    AllBelow(before, d);
    NoneBelow(after, d);
    CountBelowAppend(before, after, d);
    CountBelowPermutation(before + after, rest, d);
  }

  lemma BeforeIsBelow(s: seq<Packet>, k: nat, rest: seq<Packet>)
    requires Sorted(s) && k < |s|
    requires multiset(s[..k] + s[k + 1..]) == multiset(rest)
    requires forall p :: p in rest ==> Compare(p, s[k]) != 0
    ensures forall i :: 0 <= i < k ==> Compare(s[..k][i], s[k]) < 0
  {
    forall i | 0 <= i < k
      ensures Compare(s[..k][i], s[k]) < 0
    {
      var x := s[..k][i];
      assert x == s[i];
      assert x == (s[..k] + s[k + 1..])[i];
      assert x in multiset(rest);
      assert x in rest;
    }
  }

  lemma AfterIsNotBelow(s: seq<Packet>, k: nat)
    requires Sorted(s) && k < |s|
    ensures forall j :: k < j < |s| ==> Compare(s[j], s[k]) >= 0
  {
    forall j | k < j < |s|
      ensures Compare(s[j], s[k]) >= 0
    {
      CompareAntisymmetric(s[j], s[k]);
    }
  }

  lemma {:induction false} AllBelow(s: seq<Packet>, d: Packet)
    requires forall i :: 0 <= i < |s| ==> Compare(s[i], d) < 0
    ensures CountBelow(s, d) == |s|
    decreases |s|
  {
    if s != [] {
      AllBelow(s[..|s| - 1], d);
    }
  }

  lemma {:induction false} NoneBelow(s: seq<Packet>, d: Packet)
    requires forall i :: 0 <= i < |s| ==> Compare(s[i], d) >= 0
    ensures CountBelow(s, d) == 0
    decreases |s|
  {
    if s != [] {
      NoneBelow(s[..|s| - 1], d);
    }
  }

  /** Where one divider lands, given the one other packet that joined the list with it. */
  lemma DividerSlot(packets: seq<Packet>, sorted: seq<Packet>, d: Packet, other: Packet)
    requires Sorted(sorted)
    requires multiset(sorted) == multiset(packets + [other] + [d])
    requires forall p :: p in packets ==> Compare(p, d) != 0
    requires Compare(other, d) != 0
    ensures IndexOf(sorted, d) == CountBelow(packets, d) + (if Compare(other, d) < 0 then 1 else 0)
  {
    assert d in multiset(sorted);
    var k := IndexOf(sorted, d);
    PositionIsCountBelow(sorted, k, packets + [other]);
    CountBelowAppend(packets, [other], d);
    assert [other][..0] == [];
  }

  /**
   * The decoder key of any sorted arrangement of the packets and the two
   * dividers, provided no packet ties with a divider: [[2]] comes after the
   * packets below it, [[6]] after the packets below it and [[2]].
   */
  lemma DecoderKeyCounts(packets: seq<Packet>, sorted: seq<Packet>)
    requires Sorted(sorted)
    requires multiset(sorted) == multiset(packets + [Divider2, Divider6])
    requires forall p :: p in packets ==> Compare(p, Divider2) != 0 && Compare(p, Divider6) != 0
    ensures DecoderKey(sorted) == (CountBelow(packets, Divider2) + 1) * (CountBelow(packets, Divider6) + 2)
  {
    DividersOrdered();
    LastTwo(packets, Divider2, Divider6);
    DividerSlot(packets, sorted, Divider2, Divider6);
    DividerSlot(packets, sorted, Divider6, Divider2);
    var below2, below6 := CountBelow(packets, Divider2), CountBelow(packets, Divider6);
    assert IndexOf(sorted, Divider2) + 1 == below2 + 1;
    assert IndexOf(sorted, Divider6) + 1 == below6 + 2;
  }

  lemma DividersOrdered()
    ensures Compare(Divider6, Divider2) == 1 && Compare(Divider2, Divider6) == -1
  {
    assert Compare(Divider6, Divider2) == 1;
    CompareAntisymmetric(Divider2, Divider6);
  }
}
