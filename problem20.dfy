/**
 * Day 20: mixing an encrypted list. Every number is tagged with its
 * original position and multiplied by the key; each round moves the
 * numbers, in original order, forward or backward by their own value in a
 * circular list; the answer adds the numbers 1000, 2000 and 3000 places
 * after the zero.
 */
module Problem20 {
  import opened Wrappers
  import opened Numerics

  /** A list element: its original position and its (multiplied) value. */
  datatype Entry = Entry(index: int, value: int)

  /** Line 18: tag each number with its position and multiply it by the key, in `long`. */
  function Tag(values: seq<int>, key: int): (nums: seq<Entry>)
    ensures |nums| == |values|
    ensures forall i :: 0 <= i < |values| ==> nums[i].index == i && nums[i].value == Wrap64(values[i] * key)
  {
    seq(|values|, i requires 0 <= i < |values| => Entry(i, Wrap64(values[i] * key)))
  }

  /** Line 23, `List.FindIndex`: the first position from `i` on holding the element tagged `t`, or -1. */
  function IndexOfTag(nums: seq<Entry>, t: int, i: nat := 0): (r: int)
    ensures r == -1 || i <= r < |nums|
    ensures r >= 0 ==> nums[r].index == t
    decreases |nums| - i
  {
    if i >= |nums| then -1
    else if nums[i].index == t then i
    else IndexOfTag(nums, t, i + 1)
  }

  /** The search finds the first element tagged `t`, and gives -1 only when there is none. */
  lemma {:induction false} IndexOfTagFirst(nums: seq<Entry>, t: int, i: nat := 0)
    ensures IndexOfTag(nums, t, i) >= 0 ==> forall j :: i <= j < IndexOfTag(nums, t, i) ==> nums[j].index != t
    ensures IndexOfTag(nums, t, i) == -1 ==> forall j :: i <= j < |nums| ==> nums[j].index != t
    decreases |nums| - i
  {
    if i < |nums| && nums[i].index != t {
      IndexOfTagFirst(nums, t, i + 1);
    }
  }

  /** Line 36, `List.FindIndex`: the first position from `i` on holding the value zero, or -1. */
  function IndexOfZero(nums: seq<Entry>, i: nat := 0): (r: int)
    ensures r == -1 || i <= r < |nums|
    ensures r >= 0 ==> nums[r].value == 0
    decreases |nums| - i
  {
    if i >= |nums| then -1
    else if nums[i].value == 0 then i
    else IndexOfZero(nums, i + 1)
  }

  /** The search finds the first zero. */
  lemma {:induction false} IndexOfZeroFirst(nums: seq<Entry>, i: nat := 0)
    ensures IndexOfZero(nums, i) >= 0 ==> forall j :: i <= j < IndexOfZero(nums, i) ==> nums[j].value != 0
    ensures IndexOfZero(nums, i) == -1 ==> forall j :: i <= j < |nums| ==> nums[j].value != 0
    decreases |nums| - i
  {
    if i < |nums| && nums[i].value != 0 {
      IndexOfZeroFirst(nums, i + 1);
    }
  }

  /**
   * C#'s `%` by a positive divisor: truncated, so the remainder takes the
   * dividend's sign; written as repeated subtraction towards zero.
   */
  function Remainder(a: int, m: int): (r: int)
    requires m > 0
    ensures -m < r < m
    ensures r == 0 || ((r > 0) <==> (a > 0))
    decreases Abs(a)
  {
    if a >= m then Remainder(a - m, m)
    else if a <= -m then Remainder(a + m, m)
    else a
  }

  /** `Remainder` is the truncated remainder of `Numerics`. */
  lemma {:induction false} RemainderTruncates(a: int, m: int)
    requires m > 0
    ensures Remainder(a, m) == TruncRem(a, m)
    decreases Abs(a)
  {
    if a >= m {
      RemainderTruncates(a - m, m);
      ModShift(a - m, m);
    } else if a <= -m {
      RemainderTruncates(a + m, m);
      ModShift(-a - m, m);
    } else {
      ModUnique(Abs(a), 0, m);
    }
  }

  /** Adding the divisor leaves the Euclidean remainder alone. */
  lemma ModShift(x: int, m: int)
    requires x >= 0 && m > 0
    ensures (x + m) % m == x % m
  {
    DivNat(x, m);
    var q := x / m;
    assert x + m == x % m + (q + 1) * m;
    ModUnique(x % m, q + 1, m);
  }

  /**
   * Lines 26-31: the position where the removed element goes back, among
   * the `m` remaining ones. The sum is `long` arithmetic, `%` truncates,
   * and an empty remainder divides by zero.
   */
  function NewIndex(which: int, value: int, m: int): (r: Result<int>)
    requires m >= 0
    ensures r.Failure? <==> m == 0
    ensures r.Failure? ==> r.error == DivideByZeroException
    ensures r.Success? ==> 0 <= r.value < m
  {
    if m == 0 then Failure(DivideByZeroException)
    else
      var n := Remainder(Wrap64(which + value + m), m);
      Success(Remainder(if n < 0 then n + m else n, m))
  }

  /** Without overflow the new position is the old one moved by the value, around a circle of `m` places. */
  lemma NewIndexCongruent(which: int, value: int, m: int)
    requires m > 0 && IsInt64(which + value + m)
    ensures (NewIndex(which, value, m).value - (which + value)) % m == 0
  {
    var s := which + value + m;
    var n := Remainder(s, m);
    var k := if n < 0 then n + m else n;
    var r := NewIndex(which, value, m).value;
    assert r == k;
    var q := TruncDiv(s, m);
    assert s == q * m + n by {
      RemainderTruncates(s, m);
    }
    var a := if n < 0 then 2 else 1;
    MulModZero(a - q, m);
    Distribute(a, q, m);
    assert r - (which + value) == (a - q) * m;
  }

  /** Multiplication distributes over a difference. */
  lemma Distribute(a: int, q: int, m: int)
    ensures (a - q) * m == a * m - q * m
  {
  }

  /** A multiple of `m` leaves no Euclidean remainder. */
  lemma MulModZero(c: int, m: int)
    requires m > 0
    ensures (c * m) % m == 0
  {
    var r := (c * m) % m;
    var d := (c * m) / m;
    assert c * m == d * m + r;
    assert (c - d) * m == r;
    OnlySmallMultipleIsZero(c - d, m);
  }

  /** `x` inserted at position `n` of `s`: `List.Insert`. */
  function Insert(s: seq<Entry>, n: int, x: Entry): (r: seq<Entry>)
    requires 0 <= n <= |s|
    ensures |r| == |s| + 1 && r[n] == x && r[..n] == s[..n] && r[n + 1..] == s[n..]
  {
    s[..n] + [x] + s[n..]
  }

  /** `s` without position `k`: `List.RemoveAt`. */
  function RemoveAt(s: seq<Entry>, k: int): (r: seq<Entry>)
    requires 0 <= k < |s|
    ensures |r| == |s| - 1 && r[..k] == s[..k] && r[k..] == s[k + 1..]
  {
    s[..k] + s[k + 1..]
  }

  /** Removing what was just inserted gives back the list. */
  lemma RemoveInsert(s: seq<Entry>, n: int, x: Entry)
    requires 0 <= n <= |s|
    ensures RemoveAt(Insert(s, n, x), n) == s
  {
    var r := Insert(s, n, x);
    assert RemoveAt(r, n) == r[..n] + r[n + 1..];
    assert s == s[..n] + s[n..];
  }

  /** Inserting adds the element to the multiset of the list. */
  lemma InsertMultiset(s: seq<Entry>, n: int, x: Entry)
    requires 0 <= n <= |s|
    ensures multiset(Insert(s, n, x)) == multiset(s) + multiset{x}
  {
    assert s == s[..n] + s[n..];
  }

  /** Removing takes the element out of the multiset of the list. */
  lemma RemoveAtMultiset(s: seq<Entry>, k: int)
    requires 0 <= k < |s|
    ensures multiset(RemoveAt(s, k)) + multiset{s[k]} == multiset(s)
  {
    assert s == s[..k] + [s[k]] + s[k + 1..];
  }

  /** Some element is tagged `t`. */
  ghost predicate HasTag(nums: seq<Entry>, t: int)
  {
    exists j :: 0 <= j < |nums| && nums[j].index == t
  }

  /**
   * Lines 23-31: move the element tagged `t`. An absent tag reads
   * `nums[-1]`; a list of one element leaves nothing to take `%` of.
   */
  function Move(nums: seq<Entry>, t: int): (r: Result<seq<Entry>>)
    ensures r.Success? ==> |r.value| == |nums|
    ensures r.Failure? ==> r.error == ArgumentOutOfRangeException || r.error == DivideByZeroException
  {
    var which := IndexOfTag(nums, t);
    if which < 0 then Failure(ArgumentOutOfRangeException)
    else
      var rest := RemoveAt(nums, which);
      match NewIndex(which, nums[which].value, |rest|)
      case Failure(e) => Failure(e)
      case Success(n) => Success(Insert(rest, n, nums[which]))
  }

  /**
   * A move keeps the same elements; the moved element is the first one
   * tagged `t`, and it lands at `NewIndex` among the others, which keep
   * their order.
   */
  lemma MoveEffect(nums: seq<Entry>, t: int) returns (which: int, n: int)
    requires Move(nums, t).Success?
    ensures which == IndexOfTag(nums, t) && 0 <= which < |nums|
    ensures n == NewIndex(which, nums[which].value, |nums| - 1).value && 0 <= n < |nums|
    ensures multiset(Move(nums, t).value) == multiset(nums)
    ensures Move(nums, t).value[n] == nums[which] && nums[which].index == t
    ensures RemoveAt(Move(nums, t).value, n) == RemoveAt(nums, which)
  {
    which := IndexOfTag(nums, t);
    var rest := RemoveAt(nums, which);
    n := NewIndex(which, nums[which].value, |rest|).value;
    var r := Insert(rest, n, nums[which]);
    assert Move(nums, t) == Success(r);
    InsertMultiset(rest, n, nums[which]);
    RemoveAtMultiset(nums, which);
    RemoveInsert(rest, n, nums[which]);
  }

  /**
   * A move fails exactly when the tag is missing (an index out of range)
   * or the list has one element (a division by zero).
   */
  lemma MoveFails(nums: seq<Entry>, t: int)
    ensures Move(nums, t).Failure? <==> !HasTag(nums, t) || |nums| == 1
    ensures !HasTag(nums, t) ==> Move(nums, t) == Failure(ArgumentOutOfRangeException)
    ensures HasTag(nums, t) && |nums| == 1 ==> Move(nums, t) == Failure(DivideByZeroException)
  {
    var which := IndexOfTag(nums, t);
    if which >= 0 {
      assert nums[which].index == t;
    } else {
      IndexOfTagFirst(nums, t);
    }
  }

  /** Something that moves the element tagged `t`; `Moving()` is the source's move. */
  type Mover = (seq<Entry>, int) -> Result<seq<Entry>>

  function Moving(): (move: Mover)
    ensures forall nums, t :: move(nums, t) == Move(nums, t)
  {
    (nums: seq<Entry>, t: int) => Move(nums, t)
  }

  /**
   * What the rounds rely on from a move: it only reorders, it succeeds
   * whenever the tag is present in a list of other than one element, and
   * on one element it divides by zero.
   */
  ghost predicate Mixes(move: Mover)
  {
    forall nums, t ::
      && (move(nums, t).Success? ==> multiset(move(nums, t).value) == multiset(nums))
      && (HasTag(nums, t) && |nums| != 1 ==> move(nums, t).Success?)
      && (HasTag(nums, t) && |nums| == 1 ==> move(nums, t) == Failure(DivideByZeroException))
  }

  /** The source's move has those properties. */
  lemma MovingMixes()
    ensures Mixes(Moving())
  {
    forall nums, t
      ensures && (Move(nums, t).Success? ==> multiset(Move(nums, t).value) == multiset(nums))
              && (HasTag(nums, t) && |nums| != 1 ==> Move(nums, t).Success?)
              && (HasTag(nums, t) && |nums| == 1 ==> Move(nums, t) == Failure(DivideByZeroException))
    {
      MoveFails(nums, t);
      if Move(nums, t).Success? {
        var _, _ := MoveEffect(nums, t);
      }
    }
  }

  /** Lines 20-31: the moves of tags `0 .. k-1`, in that order. */
  function MovesUpTo(nums: seq<Entry>, k: nat, move: Mover): Result<seq<Entry>>
  {
    if k == 0 then Success(nums)
    else
      match MovesUpTo(nums, k - 1, move)
      case Failure(e) => Failure(e)
      case Success(nums') => move(nums', k - 1)
  }

  /** One round: every original position moved once, in original order. */
  function Round(nums: seq<Entry>, move: Mover): (r: Result<seq<Entry>>)
    ensures |nums| == 0 ==> r == Success(nums)
    ensures Mixes(move) && r.Success? ==> multiset(r.value) == multiset(nums)
  {
    var r := MovesUpTo(nums, |nums|, move);
    assert Mixes(move) && r.Success? ==> multiset(r.value) == multiset(nums) by {
      if Mixes(move) && r.Success? {
        MovesPermute(nums, |nums|, move);
      }
    }
    r
  }

  /** `iterations` rounds in a row. */
  function Rounds(nums: seq<Entry>, iterations: nat, move: Mover): (r: Result<seq<Entry>>)
    ensures |nums| == 0 ==> r == Success(nums)
    ensures Mixes(move) && r.Success? ==> multiset(r.value) == multiset(nums)
  {
    if iterations == 0 then Success(nums)
    else
      match Rounds(nums, iterations - 1, move)
      case Failure(e) => Failure(e)
      case Success(nums') => Round(nums', move)
  }

  /** Moves only reorder: the list stays a permutation of the tagged numbers. */
  lemma {:induction false} MovesPermute(nums: seq<Entry>, k: nat, move: Mover)
    requires Mixes(move) && MovesUpTo(nums, k, move).Success?
    ensures multiset(MovesUpTo(nums, k, move).value) == multiset(nums)
  {
    if k > 0 {
      MovesPermute(nums, k - 1, move);
      var nums' := MovesUpTo(nums, k - 1, move).value;
      assert MovesUpTo(nums, k, move) == move(nums', k - 1);
    }
  }

  /** Every position `0 .. |nums|-1` is some element's tag. */
  ghost predicate Tagged(nums: seq<Entry>)
  {
    forall t :: 0 <= t < |nums| ==> HasTag(nums, t)
  }

  /** A freshly tagged list carries every tag. */
  lemma TagTagged(values: seq<int>, key: int)
    ensures Tagged(Tag(values, key))
  {
    var nums := Tag(values, key);
    forall t | 0 <= t < |nums|
      ensures HasTag(nums, t)
    {
      assert nums[t].index == t;
    }
  }

  /** A permutation of a list carrying every tag carries every tag. */
  lemma PermutationTagged(a: seq<Entry>, b: seq<Entry>)
    requires Tagged(a) && multiset(a) == multiset(b)
    ensures Tagged(b)
  {
    assert |a| == |multiset(a)| == |multiset(b)| == |b|;
    forall t | 0 <= t < |b|
      ensures HasTag(b, t)
    {
      assert HasTag(a, t);
      var i :| 0 <= i < |a| && a[i].index == t;
      assert a[i] in multiset(b);
      var j :| 0 <= j < |b| && b[j] == a[i];
    }
  }

  /** With every tag present, the moves of one round all succeed unless the list has one element. */
  lemma {:induction false} MovesSucceed(nums: seq<Entry>, k: nat, move: Mover)
    requires Mixes(move) && Tagged(nums) && |nums| != 1 && k <= |nums|
    ensures MovesUpTo(nums, k, move).Success?
  {
    if k > 0 {
      MovesSucceed(nums, k - 1, move);
      var nums' := MovesUpTo(nums, k - 1, move).value;
      MovesPermute(nums, k - 1, move);
      PermutationTagged(nums, nums');
      assert HasTag(nums', k - 1);
      assert |nums'| == |multiset(nums')| == |nums|;
    }
  }

  /** Mixing a tagged list never fails unless it has exactly one element, and then the first move divides by zero. */
  lemma {:induction false} RoundsSucceed(nums: seq<Entry>, iterations: nat, move: Mover)
    requires Mixes(move) && Tagged(nums)
    ensures Rounds(nums, iterations, move).Failure? <==> |nums| == 1 && iterations > 0
    ensures Rounds(nums, iterations, move).Failure? ==> Rounds(nums, iterations, move).error == DivideByZeroException
  {
    if iterations > 0 {
      RoundsSucceed(nums, iterations - 1, move);
      if Rounds(nums, iterations - 1, move).Success? {
        var nums' := Rounds(nums, iterations - 1, move).value;
        PermutationTagged(nums, nums');
        assert |nums'| == |multiset(nums')| == |nums|;
        if |nums| == 1 {
          assert HasTag(nums', 0);
          assert Round(nums', move) == move(nums', 0) by {
            assert MovesUpTo(nums', 0, move) == Success(nums');
          }
        } else {
          MovesSucceed(nums', |nums'|, move);
        }
      }
    }
  }

  /** Once a move fails, the later moves keep that failure. */
  lemma {:induction false} MovesFailureStays(nums: seq<Entry>, j: nat, k: nat, move: Mover)
    requires j <= k && MovesUpTo(nums, j, move).Failure?
    ensures MovesUpTo(nums, k, move) == MovesUpTo(nums, j, move)
  {
    if j < k {
      MovesFailureStays(nums, j, k - 1, move);
    }
  }

  /** Once a round fails, the later rounds keep that failure. */
  lemma {:induction false} RoundsFailureStays(nums: seq<Entry>, j: nat, k: nat, move: Mover)
    requires j <= k && Rounds(nums, j, move).Failure?
    ensures Rounds(nums, k, move) == Rounds(nums, j, move)
  {
    if j < k {
      RoundsFailureStays(nums, j, k - 1, move);
    }
  }

  /**
   * Lines 36-41: the values 1000, 2000 and 3000 places after the first
   * zero, wrapping around, added in `long`. Without a zero `FindIndex`
   * gives -1 and the offsets count from there; an empty list divides by zero.
   */
  function Answer(nums: seq<Entry>): (r: Result<int>)
    ensures r.Failure? <==> |nums| == 0
    ensures r.Failure? ==> r.error == DivideByZeroException
    ensures r.Success? ==> IsInt64(r.value)
  {
    if |nums| == 0 then Failure(DivideByZeroException)
    else
      var zero := IndexOfZero(nums);
      var x := nums[(zero + 1000) % |nums|].value;
      var y := nums[(zero + 2000) % |nums|].value;
      var z := nums[(zero + 3000) % |nums|].value;
      Success(Wrap64(Wrap64(x + y) + z))
  }

  /** The list read circularly from position `z`. */
  function Rotated(nums: seq<Entry>, z: int): (r: seq<Entry>)
    requires 0 <= z < |nums|
    ensures |r| == |nums|
  {
    nums[z..] + nums[..z]
  }

  /** Reading circularly from `z`, place `k` is position `(z + k) % n`. */
  lemma RotatedAt(nums: seq<Entry>, z: int, k: nat)
    requires 0 <= z < |nums|
    ensures Rotated(nums, z)[k % |nums|] == nums[(z + k) % |nums|]
  {
    var n := |nums|;
    var i := k % n;
    DivNat(k, n);
    var p := (z + k) % n;
    assert (z + k) - p == ((z + k) / n) * n;
    if i < n - z {
      assert Rotated(nums, z)[i] == nums[z + i];
      assert z + i == p by {
        assert z + k == z + i + (k / n) * n;
        ModUnique(z + i, k / n, n);
      }
    } else {
      assert Rotated(nums, z)[i] == nums[i - (n - z)];
      assert z + i - n == p by {
        assert z + k == (z + i - n) + (k / n + 1) * n;
        ModUnique(z + i - n, k / n + 1, n);
      }
    }
  }

  /** A value below `n` plus a multiple of `n` leaves that value as remainder. */
  lemma ModUnique(r: int, q: int, n: int)
    requires n > 0 && 0 <= r < n
    ensures (r + q * n) % n == r
  {
    var m := (r + q * n) % n;
    var d := (r + q * n) / n;
    assert r + q * n == d * n + m;
    assert (q - d) * n == m - r;
    OnlySmallMultipleIsZero(q - d, n);
  }

  /** With a zero in the list, the answer adds the 1000th, 2000th and 3000th values after it, going round the circle. */
  lemma AnswerAfterZero(nums: seq<Entry>, z: int)
    requires 0 <= z < |nums| && nums[z].value == 0
    requires forall j :: 0 <= j < z ==> nums[j].value != 0
    ensures var n := |nums|;
      var c := Rotated(nums, z);
      Answer(nums) == Success(Wrap64(c[1000 % n].value + c[2000 % n].value + c[3000 % n].value))
  {
    var n := |nums|;
    IndexOfZeroFirst(nums);
    assert IndexOfZero(nums) == z;
    RotatedAt(nums, z, 1000);
    RotatedAt(nums, z, 2000);
    RotatedAt(nums, z, 3000);
    var x := nums[(z + 1000) % n].value;
    var y := nums[(z + 2000) % n].value;
    WrapAbsorbs(0x8000_0000_0000_0000, x + y, nums[(z + 3000) % n].value);
  }

  /** `Run` as the source computes it: tag, mix `iterations` rounds (none when negative), then read the answer. */
  function Mix(values: seq<int>, key: int, iterations: int): (r: Result<int>)
    ensures r.Success? ==> IsInt64(r.value)
    ensures |values| == 0 ==> r == Failure(DivideByZeroException)
  {
    match Rounds(Tag(values, key), if iterations < 0 then 0 else iterations, Moving())
    case Failure(e) => Failure(e)
    case Success(mixed) => Answer(mixed)
  }

  /** Mixing fails only on an empty list, or on a single number that has to move, and always by dividing by zero. */
  lemma MixFails(values: seq<int>, key: int, iterations: int)
    ensures Mix(values, key, iterations).Failure? <==> |values| == 0 || (|values| == 1 && iterations > 0)
    ensures Mix(values, key, iterations).Failure? ==> Mix(values, key, iterations).error == DivideByZeroException
  {
    var nums := Tag(values, key);
    TagTagged(values, key);
    MovingMixes();
    var n := if iterations < 0 then 0 else iterations;
    RoundsSucceed(nums, n, Moving());
    if Rounds(nums, n, Moving()).Success? {
      var mixed := Rounds(nums, n, Moving()).value;
      assert |mixed| == |multiset(mixed)| == |values|;
    }
  }

  /**
   * `Run`: the list is a local `List` changed in place by `RemoveAt` and
   * `Insert`; returns the answer instead of printing it.
   */
  method Run(values: seq<int>, key: int, iterations: int) returns (r: Result<int>)
    ensures r == Mix(values, key, iterations)
  {
    var mixed := MixRounds(Tag(values, key), iterations);
    if mixed.Failure? {
      return Failure(mixed.error);
    }
    r := Answer(mixed.value);
  }

  /** The outer loop (line 19): `iterations` rounds, none when it is negative. */
  method MixRounds(start: seq<Entry>, iterations: int) returns (r: Result<seq<Entry>>)
    ensures r == Rounds(start, if iterations < 0 then 0 else iterations, Moving())
  {
    var rounds: nat := if iterations < 0 then 0 else iterations;
    var nums := start;
    var iter: nat := 0;
    while iter < rounds
      invariant iter <= rounds
      invariant Rounds(start, iter, Moving()) == Success(nums)
    {
      var e := MixRound(nums);
      if e.Failure? {
        RoundsFailureStays(start, iter + 1, rounds, Moving());
        return e;
      }
      nums := e.value;
      iter := iter + 1;
    }
    return Success(nums);
  }

  /** The inner loop (lines 20-32): move the elements tagged 0, 1, ... in turn. */
  method MixRound(start: seq<Entry>) returns (r: Result<seq<Entry>>)
    ensures r == Round(start, Moving())
  {
    assert Round(start, Moving()) == MovesUpTo(start, |start|, Moving());
    var nums := start;
    var i := 0;
    while i < |start|
      invariant 0 <= i <= |start|
      invariant MovesUpTo(start, i, Moving()) == Success(nums)
    {
      var moved := MoveOne(nums, i);
      assert MovesUpTo(start, i + 1, Moving()) == moved;
      if moved.Failure? {
        MovesFailureStays(start, i + 1, |start|, Moving());
        return moved;
      }
      nums := moved.value;
      i := i + 1;
    }
    return Success(nums);
  }

  /** Lines 23-31: one move, on a list that `RemoveAt` and `Insert` change. */
  method MoveOne(nums: seq<Entry>, t: int) returns (r: Result<seq<Entry>>)
    ensures r == Move(nums, t)
  {
    var which := IndexOfTag(nums, t);
    if which < 0 {
      return Failure(ArgumentOutOfRangeException);
    }
    var v := nums[which];
    var rest := RemoveAt(nums, which);
    if |rest| == 0 {
      return Failure(DivideByZeroException);
    }
    var n := Remainder(Wrap64(which + v.value + |rest|), |rest|);
    if n < 0 {
      n := n + |rest|;
    }
    assert NewIndex(which, v.value, |rest|) == Success(Remainder(n, |rest|));
    return Success(Insert(rest, Remainder(n, |rest|), v));
  }

  /** `ExecuteCore`: one plain round, then ten rounds with the decryption key. */
  method Execute(values: seq<int>) returns (r: Result<(int, int)>)
    ensures r.Success? <==> Mix(values, 1, 1).Success? && Mix(values, 811589153, 10).Success?
    ensures r.Success? ==> r.value == (Mix(values, 1, 1).value, Mix(values, 811589153, 10).value)
    ensures r.Failure? ==> r.error == (if Mix(values, 1, 1).Failure? then Mix(values, 1, 1) else Mix(values, 811589153, 10)).error
  {
    var first := Run(values, 1, 1);
    if first.Failure? {
      return Failure(first.error);
    }
    var second := Run(values, 811589153, 10);
    if second.Failure? {
      return Failure(second.error);
    }
    return Success((first.value, second.value));
  }
}
