/**
 * Day 21: a troop of monkeys, each either shouting a number or waiting for
 * two other monkeys and combining their numbers with an operator. Values are
 * C# `long?`: arithmetic wraps at 64 bits, division truncates toward zero,
 * and an unknown (null) operand makes the arithmetic result unknown. Part two
 * makes the human unknown, turns the root into an equality test and pushes
 * the wanted result back down the tree to solve for the human.
 */
module Problem21 {
  import opened Wrappers
  import opened Numerics

  const KeyNotFound := KeyNotFoundException
  const NotSupported := NotSupportedException
  const ArgumentError := ArgumentException
  const DivideByZero := DivideByZeroException
  const Overflow := OverflowException
  const InvalidCast := InvalidCastException

  const LONG_MIN := -0x8000_0000_0000_0000

  /** `Wait` is a `WaitMonkey`, `Number` an `IntMonkey` whose number may be unknown. */
  datatype Monkey =
    | Wait(aMonkey: string, bMonkey: string, operation: char)
    | Number(number: Option<int>)

  /** Every known number in the troop fits in a `long`. */
  predicate Longs(m: map<string, Monkey>)
  {
    forall x :: x in m && m[x].Number? && m[x].number.Some? ==> IsInt64(m[x].number.value)
  }

  /**
   * A ranking witnessing that no monkey waits, directly or not, on itself:
   * each waiting monkey's two operands rank strictly lower.
   */
  predicate Ranked(m: map<string, Monkey>, rank: map<string, nat>)
  {
    forall x :: x in m ==>
      && x in rank
      && (m[x].Wait? ==>
            && m[x].aMonkey in rank && rank[m[x].aMonkey] < rank[x]
            && m[x].bMonkey in rank && rank[m[x].bMonkey] < rank[x])
  }

  /** C# `long` division: throws on a zero divisor and on the one quotient that overflows. */
  function Divide(x: int, y: int): (r: Result<int>)
    ensures r.Failure? <==> y == 0 || (x == LONG_MIN && y == -1)
    ensures r.Success? ==> Abs(r.value) * Abs(y) <= Abs(x)
    ensures r.Success? && IsInt64(x) ==> IsInt64(r.value)
  {
    if y == 0 then Failure(DivideByZero)
    else if x == LONG_MIN && y == -1 then Failure(Overflow)
    else
      QuotientBounds(x, y);
      Success(TruncDiv(x, y))
  }

  lemma QuotientBounds(x: int, y: int)
    requires y != 0 && !(x == LONG_MIN && y == -1)
    ensures Abs(TruncDiv(x, y)) * Abs(y) <= Abs(x)
    ensures IsInt64(x) ==> IsInt64(TruncDiv(x, y))
  {
    var q := TruncDiv(x, y);
    DivNat(Abs(x), Abs(y));
    assert Abs(q) * Abs(y) <= Abs(x);
    if Abs(q) >= 1 {
      MulAtLeast(Abs(y), Abs(q));
      assert Abs(y) * Abs(q) == Abs(q) * Abs(y);
    }
    assert Abs(q) <= Abs(x);
    if IsInt64(x) && Abs(q) == 0x8000_0000_0000_0000 {
      assert Abs(y) == 1 && x == LONG_MIN;
      assert y == 1;
    }
  }

  /** The value `WaitMonkey.GetResult` computes from its operands' values. */
  function Combine(op: char, a: Option<int>, b: Option<int>): (r: Result<Option<int>>)
    ensures op in "+-*/" && (a.None? || b.None?) ==> r == Success(None)
    ensures op == '=' ==> r == Success(Some(if a == b then 1 else 0))
    ensures op !in "+-*/=" ==> r == Failure(NotSupported)
    ensures r.Success? && r.value.Some? && (a.Some? ==> IsInt64(a.value)) ==> IsInt64(r.value.value)
  {
    if op == '=' then Success(Some(if a == b then 1 else 0))
    else if op !in "+-*/" then Failure(NotSupported)
    else if a.None? || b.None? then Success(None)
    else if op == '+' then Success(Some(Wrap64(a.value + b.value)))
    else if op == '-' then Success(Some(Wrap64(a.value - b.value)))
    else if op == '*' then Success(Some(Wrap64(a.value * b.value)))
    else
      match Divide(a.value, b.value)
      case Failure(e) => Failure(e)
      case Success(q) => Success(Some(q))
  }

  /**
   * `GetResult`: a monkey's value, evaluating the left operand before the
   * right one; a name missing from the troop throws.
   */
  function GetResult(m: map<string, Monkey>, ghost rank: map<string, nat>, name: string): (r: Result<Option<int>>)
    requires Ranked(m, rank)
    ensures name !in m ==> r == Failure(KeyNotFound)
    ensures Longs(m) && r.Success? && r.value.Some? ==> IsInt64(r.value.value)
    decreases if name in m then rank[name] + 1 else 0
  {
    if name !in m then Failure(KeyNotFound)
    else match m[name]
      case Number(n) => Success(n)
      case Wait(a, b, op) =>
        match GetResult(m, rank, a)
        case Failure(e) => Failure(e)
        case Success(x) =>
          match GetResult(m, rank, b)
          case Failure(e) => Failure(e)
          case Success(y) => Combine(op, x, y)
  }

  /** The value pushed to the unknown right operand when the left one is `x` and the result must be `r`. */
  function RightOperand(op: char, x: int, r: int): (p: Result<int>)
    ensures p.Failure? <==> op !in "+-*/=" || (op == '*' && Divide(r, x).Failure?) || (op == '/' && Divide(x, r).Failure?)
    ensures p.Success? && IsInt64(x) && IsInt64(r) ==> IsInt64(p.value)
  {
    match op
    case '+' => Success(Wrap64(r - x))
    case '-' => Success(Wrap64(x - r))
    case '*' => Divide(r, x)
    case '/' => Divide(x, r)
    case '=' => Success(x)
    case _ => Failure(NotSupported)
  }

  /** The value pushed to the unknown left operand when the right one is `y` and the result must be `r`. */
  function LeftOperand(op: char, y: int, r: int): (p: Result<int>)
    ensures p.Failure? <==> op !in "+-*/=" || (op == '*' && Divide(r, y).Failure?)
    ensures p.Success? && IsInt64(y) && IsInt64(r) ==> IsInt64(p.value)
  {
    match op
    case '+' => Success(Wrap64(r - y))
    case '-' => Success(Wrap64(r + y))
    case '*' => Divide(r, y)
    case '/' => Success(Wrap64(r * y))
    case '=' => Success(y)
    case _ => Failure(NotSupported)
  }

  /**
   * `PushResult` as a value: the troop after telling monkey `name` that its
   * result must be `r`. Only an unknown number is ever written, every waiting
   * monkey is kept, and the troop stays ranked and within `long`.
   */
  function Push(m: map<string, Monkey>, rank: map<string, nat>, name: string, r: int): (res: Result<map<string, Monkey>>)
    requires Ranked(m, rank)
    ensures res.Success? ==> res.value.Keys == m.Keys && Ranked(res.value, rank)
    ensures res.Success? ==> forall x :: x in m && m[x].Wait? ==> res.value[x] == m[x]
    ensures res.Success? && Longs(m) && IsInt64(r) ==> Longs(res.value)
    decreases if name in m then rank[name] + 1 else 0
  {
    if name !in m then Failure(KeyNotFound)
    else match m[name]
      case Number(_) => Success(m[name := Number(Some(r))])
      case Wait(a, b, op) =>
        match GetResult(m, rank, a)
        case Failure(e) => Failure(e)
        case Success(x) =>
          match GetResult(m, rank, b)
          case Failure(e) => Failure(e)
          case Success(y) =>
            if x.Some? && y.Some? then Success(m)
            else if x.Some? then
              match RightOperand(op, x.value, r)
              case Failure(e) => Failure(e)
              case Success(p) => Push(m, rank, b, p)
            else if y.None? then Failure(ArgumentError)
            else
              match LeftOperand(op, y.value, r)
              case Failure(e) => Failure(e)
              case Success(p) => Push(m, rank, a, p)
  }

  /** The troop of `IntMonkey` and `WaitMonkey` objects, looked up by name. */
  class Troop {
    var monkeys: map<string, Monkey>

    constructor(m: map<string, Monkey>)
      ensures monkeys == m
    {
      monkeys := m;
    }

    /**
     * `PushResult`: tells monkey `name` its result must be `result`; an
     * exception leaves the troop as it was.
     */
    method PushResult(name: string, result: int, ghost rank: map<string, nat>) returns (outcome: Result<()>)
      requires Ranked(monkeys, rank)
      modifies this
      ensures Push(old(monkeys), rank, name, result).Success? ==>
        outcome.Success? && monkeys == Push(old(monkeys), rank, name, result).value
      ensures Push(old(monkeys), rank, name, result).Failure? ==>
        outcome == Failure(Push(old(monkeys), rank, name, result).error) && monkeys == old(monkeys)
      decreases if name in monkeys then rank[name] + 1 else 0
    {
      if name !in monkeys {
        return Failure(KeyNotFound);
      }
      match monkeys[name] {
        case Number(_) =>
          monkeys := monkeys[name := Number(Some(result))];
          return Success(());
        case Wait(a, b, op) =>
          var aResult := GetResult(monkeys, rank, a);
          if aResult.Failure? {
            return Failure(aResult.error);
          }
          var bResult := GetResult(monkeys, rank, b);
          if bResult.Failure? {
            return Failure(bResult.error);
          }
          if aResult.value.Some? && bResult.value.Some? {
            return Success(());
          }
          if aResult.value.Some? {
            var pushed := RightOperand(op, aResult.value.value, result);
            if pushed.Failure? {
              return Failure(pushed.error);
            }
            outcome := PushResult(b, pushed.value, rank);
            return;
          }
          if bResult.value.None? {
            return Failure(ArgumentError);
          }
          var pushed := LeftOperand(op, bResult.value.value, result);
          if pushed.Failure? {
            return Failure(pushed.error);
          }
          outcome := PushResult(a, pushed.value, rank);
      }
    }

    /**
     * Both answers: the root's value, then the human's number after the
     * human is made unknown, the root becomes an equality test and 1 is
     * pushed into it.
     */
    method Solve(ghost rank: map<string, nat>) returns (outcome: Result<(Option<int>, Option<int>)>)
      requires Ranked(monkeys, rank)
      modifies this
      ensures "root" !in old(monkeys) ==> outcome == Failure(KeyNotFound) && monkeys == old(monkeys)
      ensures "root" in old(monkeys) && old(monkeys)["root"].Number? ==>
        outcome == Failure(InvalidCast) && monkeys == old(monkeys)
      ensures "root" in old(monkeys) && old(monkeys)["root"].Wait? ==>
        var part1 := GetResult(old(monkeys), rank, "root");
        var m2 := PartTwo(old(monkeys));
        var pushed := Push(m2, rank["humn" := 0], "root", 1);
        if part1.Failure? then outcome == Failure(part1.error) && monkeys == old(monkeys)
        else if pushed.Failure? then outcome == Failure(pushed.error) && monkeys == m2
        else monkeys == pushed.value && outcome == Success((part1.value, monkeys["humn"].number))
    {
      if "root" !in monkeys {
        return Failure(KeyNotFound);
      }
      if monkeys["root"].Number? {
        return Failure(InvalidCast);
      }
      var part1 := GetResult(monkeys, rank, "root");
      if part1.Failure? {
        return Failure(part1.error);
      }
      PartTwoRanked(monkeys, rank);
      var root := monkeys["root"];
      monkeys := monkeys["humn" := Number(None)];
      monkeys := monkeys["root" := Wait(root.aMonkey, root.bMonkey, '=')];
      var pushed := PushResult("root", 1, rank["humn" := 0]);
      if pushed.Failure? {
        return Failure(pushed.error);
      }
      return Success((part1.value, monkeys["humn"].number));
    }
  }

  /** The troop of part two: the human unknown and the root an equality test of the same operands. */
  function PartTwo(m: map<string, Monkey>): (m2: map<string, Monkey>)
    requires "root" in m && m["root"].Wait?
    ensures m2.Keys == m.Keys + {"humn"} && m2["humn"] == Number(None)
    ensures m2["root"] == m["root"].(operation := '=')
  {
    m["humn" := Number(None)]["root" := Wait(m["root"].aMonkey, m["root"].bMonkey, '=')]
  }

  /** Making the human a leaf keeps the troop ranked once the human ranks lowest. */
  lemma PartTwoRanked(m: map<string, Monkey>, rank: map<string, nat>)
    requires Ranked(m, rank) && "root" in m && m["root"].Wait?
    ensures Ranked(PartTwo(m), rank["humn" := 0])
  {
    var m2 := PartTwo(m);
    var rank2 := rank["humn" := 0];
    forall x | x in m2
      ensures x in rank2 && (m2[x].Wait? ==>
        m2[x].aMonkey in rank2 && rank2[m2[x].aMonkey] < rank2[x] &&
        m2[x].bMonkey in rank2 && rank2[m2[x].bMonkey] < rank2[x])
    {
      if x != "humn" && m2[x].Wait? {
        assert m2[x].aMonkey == m[x].aMonkey && m2[x].bMonkey == m[x].bMonkey;
      }
    }
  }

  /** `IntMonkey.PushResult` stores the value, so the monkey then reports it. */
  lemma PushStores(m: map<string, Monkey>, rank: map<string, nat>, name: string, r: int)
    requires Ranked(m, rank) && name in m && m[name].Number?
    ensures Push(m, rank, name, r).Success?
    ensures GetResult(Push(m, rank, name, r).value, rank, name) == Success(Some(r))
  {
  }

  /** A waiting monkey ignores a push when both operands are known and throws when neither is. */
  lemma PushNeedsOneUnknown(m: map<string, Monkey>, rank: map<string, nat>, name: string, r: int)
    requires Ranked(m, rank) && name in m && m[name].Wait?
    requires GetResult(m, rank, m[name].aMonkey).Success? && GetResult(m, rank, m[name].bMonkey).Success?
    ensures GetResult(m, rank, m[name].aMonkey).value.Some? && GetResult(m, rank, m[name].bMonkey).value.Some?
      ==> Push(m, rank, name, r) == Success(m)
    ensures GetResult(m, rank, m[name].aMonkey).value.None? && GetResult(m, rank, m[name].bMonkey).value.None?
      ==> Push(m, rank, name, r) == Failure(ArgumentError)
  {
  }

  /** Every number below `name` is known. */
  predicate Closed(m: map<string, Monkey>, rank: map<string, nat>, name: string)
    requires Ranked(m, rank)
    decreases if name in m then rank[name] + 1 else 0
  {
    name in m &&
    match m[name]
    case Number(n) => n.Some?
    case Wait(a, b, _) => Closed(m, rank, a) && Closed(m, rank, b)
  }

  /** Writing an unknown number leaves a closed subtree, and its value, as they were. */
  lemma {:induction false} ClosedUnchanged(m: map<string, Monkey>, rank: map<string, nat>, name: string, leaf: string, v: int)
    requires Ranked(m, rank) && Closed(m, rank, name)
    requires leaf in m && m[leaf] == Number(None)
    ensures Ranked(m[leaf := Number(Some(v))], rank)
    ensures GetResult(m[leaf := Number(Some(v))], rank, name) == GetResult(m, rank, name)
    decreases rank[name]
  {
    var m' := m[leaf := Number(Some(v))];
    assert Ranked(m', rank) by {
      forall x | x in m'
        ensures x in rank && (m'[x].Wait? ==>
          m'[x].aMonkey in rank && rank[m'[x].aMonkey] < rank[x] &&
          m'[x].bMonkey in rank && rank[m'[x].bMonkey] < rank[x])
      {
        assert x in m;
      }
    }
    match m[name]
    case Number(n) =>
      assert name != leaf;
    case Wait(a, b, op) =>
      ClosedUnchanged(m, rank, a, leaf, v);
      ClosedUnchanged(m, rank, b, leaf, v);
      assert m'[name] == m[name];
  }

  /** Monkey `name` is known: closed and evaluating without an exception. */
  predicate Known(m: map<string, Monkey>, rank: map<string, nat>, name: string)
    requires Ranked(m, rank)
  {
    Closed(m, rank, name) && GetResult(m, rank, name).Success? && GetResult(m, rank, name).value.Some?
  }

  /**
   * Pushing `r` into `name` solves the equation along the path: the path
   * of unknowns from `name` ends at an unknown number, every operand off
   * the path is known, and each operator gives back the result pushed into
   * it once its unknown operand takes the value pushed on.
   */
  predicate Solvable(m: map<string, Monkey>, rank: map<string, nat>, name: string, r: int)
    requires Ranked(m, rank)
    decreases if name in m then rank[name] + 1 else 0
  {
    name in m &&
    match m[name]
    case Number(n) => n.None?
    case Wait(a, b, op) =>
      if Known(m, rank, a) then
        var x := GetResult(m, rank, a).value.value;
        && GetResult(m, rank, b) == Success(None)
        && RightOperand(op, x, r).Success?
        && Combine(op, Some(x), Some(RightOperand(op, x, r).value)) == Success(Some(r))
        && Solvable(m, rank, b, RightOperand(op, x, r).value)
      else
        && GetResult(m, rank, a) == Success(None)
        && Known(m, rank, b)
        && var y := GetResult(m, rank, b).value.value;
        && LeftOperand(op, y, r).Success?
        && Combine(op, Some(LeftOperand(op, y, r).value), Some(y)) == Success(Some(r))
        && Solvable(m, rank, a, LeftOperand(op, y, r).value)
  }

  /**
   * On a solvable path the push writes one unknown number, and afterwards
   * monkey `name` evaluates to exactly the result pushed into it.
   */
  lemma {:induction false} PushSolves(m: map<string, Monkey>, rank: map<string, nat>, name: string, r: int)
    returns (leaf: string, v: int)
    requires Ranked(m, rank) && Solvable(m, rank, name, r)
    ensures leaf in m && m[leaf] == Number(None)
    ensures Push(m, rank, name, r) == Success(m[leaf := Number(Some(v))])
    ensures Ranked(m[leaf := Number(Some(v))], rank)
    ensures GetResult(m[leaf := Number(Some(v))], rank, name) == Success(Some(r))
    decreases rank[name]
  {
    match m[name]
    case Number(n) =>
      leaf, v := name, r;
    case Wait(a, b, op) =>
      if Known(m, rank, a) {
        var x := GetResult(m, rank, a).value.value;
        var p := RightOperand(op, x, r).value;
        leaf, v := PushSolves(m, rank, b, p);
        ClosedUnchanged(m, rank, a, leaf, v);
      } else {
        var y := GetResult(m, rank, b).value.value;
        var p := LeftOperand(op, y, r).value;
        leaf, v := PushSolves(m, rank, a, p);
        ClosedUnchanged(m, rank, b, leaf, v);
      }
      assert m[leaf := Number(Some(v))][name] == m[name];
  }

  /** '+' and '-' always invert: the pushed operand gives the wanted result back, on either side. */
  lemma AddSubtractInvert(op: char, k: int, r: int)
    requires op == '+' || op == '-'
    ensures RightOperand(op, k, r).Success?
    ensures Combine(op, Some(k), Some(RightOperand(op, k, r).value)) == Success(Some(Wrap64(r)))
    ensures LeftOperand(op, k, r).Success?
    ensures Combine(op, Some(LeftOperand(op, k, r).value), Some(k)) == Success(Some(Wrap64(r)))
  {
    if op == '+' {
      AddInverts(k, r);
    } else {
      SubtractInverts(k, r);
    }
  }

  lemma AddInverts(k: int, r: int)
    ensures Wrap64(k + Wrap64(r - k)) == Wrap64(r)
    ensures Wrap64(Wrap64(r - k) + k) == Wrap64(r)
  {
    WrapAbsorbs(0x8000_0000_0000_0000, r - k, k);
    assert Wrap64(r - k) + k == k + Wrap64(r - k);
  }

  lemma SubtractInverts(k: int, r: int)
    ensures Wrap64(k - Wrap64(k - r)) == Wrap64(r)
    ensures Wrap64(Wrap64(r + k) - k) == Wrap64(r)
  {
    var half := 0x8000_0000_0000_0000;
    WrapAbsorbs(half, k - r, k);
    assert k - (k - r) == r;
    WrapAbsorbs(half, r + k, -k);
    assert Wrap64(r + k) + -k == Wrap64(r + k) - k;
  }

  /**
   * '*' inverts by integer division, so the known factor times the pushed
   * operand gives the result back exactly when the division is exact.
   */
  lemma MultiplyInvertsIffExact(k: int, r: int)
    requires IsInt64(k) && IsInt64(r) && k != 0 && !(r == LONG_MIN && k == -1)
    ensures RightOperand('*', k, r) == Success(TruncDiv(r, k)) == LeftOperand('*', k, r)
    ensures Combine('*', Some(k), Some(TruncDiv(r, k))) == Success(Some(r)) <==> TruncRem(r, k) == 0
    ensures Combine('*', Some(TruncDiv(r, k)), Some(k)) == Success(Some(r)) <==> TruncRem(r, k) == 0
  {
    var q := TruncDiv(r, k);
    var e := TruncRem(r, k);
    assert k * q == r - e;
    assert q * k == r - e;
    // `r - e` lies between 0 and `r`, so it is a `long` and wraps to itself.
    assert IsInt64(r - e);
  }

  /** '/' with an unknown divisor inverts when the known dividend is an exact, nonzero multiple of the result. */
  lemma DivisorInvertsWhenExact(x: int, r: int)
    requires IsInt64(x) && IsInt64(r) && r != 0 && x != 0 && TruncRem(x, r) == 0
    requires !(x == LONG_MIN && r == -1)
    ensures RightOperand('/', x, r).Success?
    ensures Combine('/', Some(x), Some(RightOperand('/', x, r).value)) == Success(Some(r))
  {
    var p := TruncDiv(x, r);
    assert x == p * r;
    assert p != 0;
    assert r * p == x;
    assert p == -1 ==> x == -r;
    TruncDivExact(r, p);
    assert Divide(x, p) == Success(TruncDiv(x, p));
  }

  /** An inexact division does not invert: pushing 4 into `10 / _` pushes 2, and `10 / 2` is 5. */
  lemma InexactDivisorMisses()
    ensures RightOperand('/', 10, 4) == Success(2)
    ensures Combine('/', Some(10), Some(2)) == Success(Some(5))
  {
    assert TruncDiv(10, 4) == 2;
    assert TruncDiv(10, 2) == 5;
  }

  /** '/' with an unknown dividend inverts whenever the product fits in a `long`. */
  lemma DividendInverts(y: int, r: int)
    requires IsInt64(y) && IsInt64(r) && y != 0 && IsInt64(r * y)
    ensures LeftOperand('/', y, r) == Success(r * y)
    ensures Combine('/', Some(r * y), Some(y)) == Success(Some(r))
  {
    TruncDivExact(r, y);
    if y == -1 {
      assert r * y == -r;
    }
  }

  /** A product that wraps does not invert: pushing 2^62 into `_ / 4` pushes 0, and `0 / 4` is 0. */
  lemma OverflowingDividendMisses()
    ensures LeftOperand('/', 4, 0x4000_0000_0000_0000) == Success(0)
    ensures Combine('/', Some(0), Some(4)) == Success(Some(0))
  {
    WrapUnique(0x8000_0000_0000_0000, 0, 1);
    assert 0x4000_0000_0000_0000 * 4 == 0 + 1 * (2 * 0x8000_0000_0000_0000);
    assert TruncDiv(0, 4) == 0;
  }

  /** '=' pushes the known side's value to the unknown side, and the test then yields 1. */
  lemma EqualsPushesKnownValue(k: int, r: int)
    ensures RightOperand('=', k, r) == Success(k) == LeftOperand('=', k, r)
    ensures Combine('=', Some(k), Some(k)) == Success(Some(r)) <==> r == 1
  {
  }

  /**
   * Part two: when the rebuilt troop is solvable for 1 at the root and the
   * human is its only unknown number, the push gives the human a number
   * that makes the root's two operands equal.
   */
  lemma HumanBalancesRoot(m: map<string, Monkey>, rank: map<string, nat>)
    requires "root" in m && m["root"].Wait?
    requires forall x :: x in m && x != "humn" && m[x].Number? ==> m[x].number.Some?
    requires Ranked(PartTwo(m), rank) && Solvable(PartTwo(m), rank, "root", 1)
    ensures Push(PartTwo(m), rank, "root", 1).Success?
    ensures var done := Push(PartTwo(m), rank, "root", 1).value;
      && done["humn"].Number? && done["humn"].number.Some?
      && GetResult(done, rank, m["root"].aMonkey) == GetResult(done, rank, m["root"].bMonkey)
  {
    var m2 := PartTwo(m);
    var leaf, v := PushSolves(m2, rank, "root", 1);
    assert leaf == "humn";
    var done := m2[leaf := Number(Some(v))];
    assert done["root"] == Wait(m["root"].aMonkey, m["root"].bMonkey, '=');
  }
}
