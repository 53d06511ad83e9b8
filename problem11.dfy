/**
 * Day 11: monkeys passing items. Each monkey in turn inspects every item it
 * holds: the item's worry level goes through the monkey's operation (in
 * `long` arithmetic), is divided by 3 in the first run, is reduced modulo
 * the product of all the monkeys' tests, and goes to one of two monkeys
 * depending on whether it is divisible by the monkey's own test. The
 * "monkey business" is the product of the two largest inspection counts.
 */
module Problem11 {
  import opened Wrappers
  import opened Numerics

  // ---------------------------------------------------------------------
  // Items
  // ---------------------------------------------------------------------

  /** The right operand of an operation line: the old value itself, or a `long` constant. */
  datatype Operand = Old | Amount(value: int)

  /** The three operations the closure `switch` accepts: `new = old - x`, `old + x`, `old * x`. */
  datatype Operation = Minus(operand: Operand) | Plus(operand: Operand) | Times(operand: Operand)

  /** The exact value of an operation, without the `long` wrap-around. */
  function Exact(op: Operation, item: int): int
  {
    var other := if op.operand.Old? then item else op.operand.value;
    match op
    case Minus(_) => item - other
    case Plus(_) => item + other
    case Times(_) => item * other
  }

  /** `Operation(item)`: the closure's unchecked `long` arithmetic. */
  function Inspect(op: Operation, item: int): (worry: int)
    ensures IsInt64(worry)
    ensures IsInt64(Exact(op, item)) ==> worry == Exact(op, item)
    ensures op == Minus(Old) ==> worry == 0
  {
    Wrap64(Exact(op, item))
  }

  /**
   * The closure the parser builds from an operation line (lines 48-69):
   * the monkeys only ever apply it.
   */
  function Closure(op: Operation): (f: int -> int)
    ensures forall x :: f(x) == Inspect(op, x)
  {
    x => Inspect(op, x)
  }

  const MinLong := -0x8000_0000_0000_0000

  /**
   * C#'s `%` on `long`: the truncated remainder; a zero divisor throws
   * `DivideByZeroException`, and `long.MinValue % -1` throws `OverflowException`.
   */
  function LongRem(a: int, b: int): Result<int>
  {
    if b == 0 then Failure(DivideByZeroException)
    else if a == MinLong && b == -1 then Failure(OverflowException)
    else Success(if a >= 0 then Abs(a) % Abs(b) else -(Abs(a) % Abs(b)))
  }

  /** Apart from its two exceptions, `%` on `long` is the remainder of the division truncated toward zero. */
  lemma LongRemTruncates(a: int, b: int)
    ensures LongRem(a, b).Failure? <==> b == 0 || (a == MinLong && b == -1)
    ensures LongRem(a, b).Success? ==> LongRem(a, b).value == TruncRem(a, b)
  {
  }

  /** The fixed part of a monkey: its operation, its test and the two monkeys it throws to. */
  datatype Rule = Rule(operation: int -> int, test: int, trueMonkey: int, falseMonkey: int)

  /** Where one item goes: the reduced worry level and the index of the monkey that catches it. */
  datatype Throw = Throw(value: int, target: int)

  /** The worry level before the `%= factor`: the operation's result, divided by 3 when `reduce` is set. */
  function Divided(op: int -> int, item: int, reduce: bool): int
  {
    var worry := op(item);
    if !reduce then worry else if worry >= 0 then worry / 3 else -((-worry) / 3)
  }

  /** `worry / 3` on `long` truncates toward zero. */
  lemma DividedTruncates(op: int -> int, item: int, reduce: bool)
    ensures Divided(op, item, reduce) == if reduce then TruncDiv(op(item), 3) else op(item)
  {
  }

  /** Lines 89-98 for one item: the reduced worry and its target, or the exception of one of the two `%`. */
  function Toss(rule: Rule, item: int, reduce: bool, factor: int): (r: Result<Throw>)
    ensures factor == 0 ==> r == Failure(DivideByZeroException)
    ensures rule.test == 0 ==> r.Failure?
    ensures r.Success? ==> r.value.target == rule.trueMonkey || r.value.target == rule.falseMonkey
  {
    match LongRem(Divided(rule.operation, item, reduce), factor)
    case Failure(e) => Failure(e)
    case Success(reduced) =>
      match LongRem(reduced, rule.test)
      case Failure(e) => Failure(e)
      case Success(rem) => Success(Throw(reduced, if rem == 0 then rule.trueMonkey else rule.falseMonkey))
  }

  /**
   * A toss throws only when the factor or the test is zero, or in the one
   * overflowing division; otherwise the value is the divided worry modulo
   * the factor, and the target is the true monkey iff that value is
   * divisible by the test.
   */
  lemma TossOutcome(rule: Rule, item: int, reduce: bool, factor: int)
    requires IsInt64(factor)
    ensures Toss(rule, item, reduce, factor).Failure? <==>
      factor == 0 || rule.test == 0 || (Divided(rule.operation, item, reduce) == MinLong && factor == -1)
    ensures Toss(rule, item, reduce, factor).Success? ==>
      var t := Toss(rule, item, reduce, factor).value;
      && t.value == TruncRem(Divided(rule.operation, item, reduce), factor)
      && Abs(t.value) < Abs(factor)
      && (t.target == rule.trueMonkey <== TruncRem(t.value, rule.test) == 0)
      && (t.target == rule.falseMonkey <== TruncRem(t.value, rule.test) != 0)
  {
    LongRemTruncates(Divided(rule.operation, item, reduce), factor);
    if factor != 0 && !(Divided(rule.operation, item, reduce) == MinLong && factor == -1) {
      var reduced := TruncRem(Divided(rule.operation, item, reduce), factor);
      assert Abs(reduced) < Abs(factor);
      assert reduced != MinLong;
      LongRemTruncates(reduced, rule.test);
    }
  }

  /** A multiple of `t` leaves no truncated remainder. */
  lemma MultipleRem(n: int, t: int)
    requires t != 0
    ensures TruncRem(n * t, t) == 0
  {
    TruncDivExact(n, t);
  }

  /**
   * Reducing modulo a multiple `f` of `t` does not change whether a value
   * is divisible by `t`.
   */
  lemma ResidueKeepsDivisibility(x: int, f: int, t: int)
    requires f != 0 && t != 0 && TruncRem(f, t) == 0
    ensures TruncRem(TruncRem(x, f), t) == 0 <==> TruncRem(x, t) == 0
  {
    var q := TruncDiv(x, f);
    var c := TruncDiv(f, t);
    var r := TruncRem(x, f);
    assert f == c * t;
    assert x == q * f + r;
    assert q * f == (q * c) * t by {
      assert q * (c * t) == (q * c) * t;
    }
    if TruncRem(x, t) == 0 {
      var n := TruncDiv(x, t);
      assert r == (n - q * c) * t by {
        assert x == n * t;
        assert (n - q * c) * t == n * t - (q * c) * t;
      }
      MultipleRem(n - q * c, t);
    }
    if TruncRem(r, t) == 0 {
      var m := TruncDiv(r, t);
      assert x == (m + q * c) * t by {
        assert r == m * t;
        assert (m + q * c) * t == m * t + (q * c) * t;
      }
      MultipleRem(m + q * c, t);
    }
  }

  /**
   * When the test divides the factor, the reduction modulo the factor does
   * not change where an item goes: the target is the true monkey iff the
   * divided worry itself is divisible by the test.
   */
  lemma TossKeepsRoute(rule: Rule, item: int, reduce: bool, factor: int)
    requires IsInt64(factor) && Toss(rule, item, reduce, factor).Success?
    requires rule.test != 0 && TruncRem(factor, rule.test) == 0
    ensures Toss(rule, item, reduce, factor).value.target ==
      if TruncRem(Divided(rule.operation, item, reduce), rule.test) == 0 then rule.trueMonkey else rule.falseMonkey
  {
    TossOutcome(rule, item, reduce, factor);
    ResidueKeepsDivisibility(Divided(rule.operation, item, reduce), factor, rule.test);
  }

  // ---------------------------------------------------------------------
  // The factor
  // ---------------------------------------------------------------------

  /** `Select(m => m.Test).Aggregate((a, b) => a * b)`: the tests multiplied left to right in `long`; no monkeys throws. */
  function Factor(tests: seq<int>): (r: Result<int>)
    ensures r.Failure? <==> |tests| == 0
    ensures r.Failure? ==> r.error == InvalidOperationException
  {
    if |tests| == 0 then Failure(InvalidOperationException)
    else if |tests| == 1 then Success(tests[0])
    else
      match Factor(tests[..|tests| - 1])
      case Failure(e) => Failure(e)
      case Success(f) => Success(Wrap64(f * tests[|tests| - 1]))
  }

  /** The exact product of the tests. */
  function Product(tests: seq<int>): int
  {
    if |tests| == 0 then 1 else Product(tests[..|tests| - 1]) * tests[|tests| - 1]
  }

  /** When no partial product leaves `long`, the factor is the exact product. */
  lemma {:induction false} FactorExact(tests: seq<int>)
    requires |tests| > 0 && forall n :: 1 <= n <= |tests| ==> IsInt64(Product(tests[..n]))
    ensures Factor(tests) == Success(Product(tests))
  {
    var init := tests[..|tests| - 1];
    assert tests[..|tests|] == tests;
    if |tests| == 1 {
      assert Product(tests) == Product([]) * tests[0];
    } else {
      forall n | 1 <= n <= |init|
        ensures IsInt64(Product(init[..n]))
      {
        assert init[..n] == tests[..n];
      }
      FactorExact(init);
    }
  }

  /** Every test is a factor of the exact product. */
  lemma {:induction false} ProductMultiple(tests: seq<int>, i: int) returns (c: int)
    requires 0 <= i < |tests|
    ensures Product(tests) == c * tests[i]
  {
    var init := tests[..|tests| - 1];
    if i == |tests| - 1 {
      c := Product(init);
    } else {
      var c' := ProductMultiple(init, i);
      c := c' * tests[|tests| - 1];
      calc {
        Product(tests);
        (c' * tests[i]) * tests[|tests| - 1];
        { assert (c' * tests[i]) * tests[|tests| - 1] == (c' * tests[|tests| - 1]) * tests[i]; }
        c * tests[i];
      }
    }
  }

  /** Without overflow every non-zero test divides the factor, so the reduction keeps every monkey's routing. */
  lemma FactorDivisible(tests: seq<int>, i: int)
    requires 0 <= i < |tests| && tests[i] != 0
    requires forall n :: 1 <= n <= |tests| ==> IsInt64(Product(tests[..n]))
    ensures Factor(tests).Success? && TruncRem(Factor(tests).value, tests[i]) == 0
  {
    FactorExact(tests);
    var c := ProductMultiple(tests, i);
    MultipleRem(c, tests[i]);
  }

  // ---------------------------------------------------------------------
  // Monkey business
  // ---------------------------------------------------------------------

  /** The index of a largest count other than `skip` (`skip` outside the range skips nothing). */
  function LargestExcept(xs: seq<int>, skip: int): (r: nat)
    requires |xs| > (if 0 <= skip < |xs| then 1 else 0)
    ensures r < |xs| && r != skip
    ensures forall l :: 0 <= l < |xs| && l != skip ==> xs[l] <= xs[r]
    decreases |xs|
  {
    var n := |xs| - 1;
    if n == skip then
      LargestExcept(xs[..n], skip)
    else if n == (if 0 <= skip < n then 1 else 0) then n
    else
      var p := LargestExcept(xs[..n], skip);
      if xs[p] >= xs[n] then p else n
  }

  /**
   * `OrderByDescending(i => i).Take(2).Aggregate((a, b) => a * b)`: no
   * monkeys throws, one monkey gives its own count, otherwise the product
   * of the two largest counts in `long`.
   */
  function Business(counts: seq<int>): (r: Result<int>)
    ensures r.Failure? <==> |counts| == 0
    ensures r.Failure? ==> r.error == InvalidOperationException
    ensures |counts| == 1 ==> r == Success(counts[0])
    ensures |counts| >= 2 ==> exists i, j ::
      && 0 <= i < |counts| && 0 <= j < |counts| && i != j
      && (forall l :: 0 <= l < |counts| ==> counts[l] <= counts[i])
      && (forall l :: 0 <= l < |counts| && l != i ==> counts[l] <= counts[j])
      && r == Success(Wrap64(counts[i] * counts[j]))
  {
    if |counts| == 0 then Failure(InvalidOperationException)
    else if |counts| == 1 then Success(counts[0])
    else
      var i := LargestExcept(counts, -1);
      var j := LargestExcept(counts, i);
      Success(Wrap64(counts[i] * counts[j]))
  }

  /** Among the counts the product does not depend on which of several equal largest counts is taken. */
  lemma BusinessOfTopTwo(counts: seq<int>, i: int, j: int)
    requires 0 <= i < |counts| && 0 <= j < |counts| && i != j
    requires forall l :: 0 <= l < |counts| ==> counts[l] <= counts[i]
    requires forall l :: 0 <= l < |counts| && l != i ==> counts[l] <= counts[j]
    ensures Business(counts) == Success(Wrap64(counts[i] * counts[j]))
  {
    var i' := LargestExcept(counts, -1);
    var j' := LargestExcept(counts, i');
    assert counts[i'] == counts[i];
    if j' == i {
      assert counts[j'] == counts[i'];
      assert counts[j] == counts[i'] by {
        assert counts[j] <= counts[i];
        if j != i' { assert counts[j] <= counts[j']; } 
      }
    } else if j == i' {
      assert counts[j] == counts[i'];
      assert counts[j'] <= counts[i] && counts[i] <= counts[j'];
    } else {
      assert counts[j'] <= counts[j] && counts[j] <= counts[j'];
    }
    assert counts[i'] * counts[j'] == counts[i] * counts[j];
  }

  // ---------------------------------------------------------------------
  // Monkeys as values
  // ---------------------------------------------------------------------

  /** One monkey as the round loop sees it: its rule, the items it holds and its `long` inspection count. */
  datatype MonkeyState = MonkeyState(rule: Rule, items: seq<int>, inspection: int)

  /** A monkey as parsed from its seven-line chunk. */
  datatype MonkeySpec = MonkeySpec(id: int, items: seq<int>, rule: Rule)

  /** The monkeys right after parsing: every inspection count starts at zero. */
  function Initial(specs: seq<MonkeySpec>): (ms: seq<MonkeyState>)
    ensures |ms| == |specs|
    ensures forall i :: 0 <= i < |specs| ==>
      ms[i].rule == specs[i].rule && ms[i].items == specs[i].items && ms[i].inspection == 0
  {
    seq(|specs|, i requires 0 <= i < |specs| => MonkeyState(specs[i].rule, specs[i].items, 0))
  }

  /** The inspection counts, in monkey order. */
  function Inspections(ms: seq<MonkeyState>): (r: seq<int>)
    ensures |r| == |ms| && forall i :: 0 <= i < |ms| ==> r[i] == ms[i].inspection
  {
    seq(|ms|, i requires 0 <= i < |ms| => ms[i].inspection)
  }

  /** The tests, in monkey order. */
  function Tests(ms: seq<MonkeyState>): (r: seq<int>)
    ensures |r| == |ms| && forall i :: 0 <= i < |ms| ==> r[i] == ms[i].rule.test
  {
    seq(|ms|, i requires 0 <= i < |ms| => ms[i].rule.test)
  }

  /** The same monkeys with the same rules, whatever they now hold. */
  ghost predicate SameRules(a: seq<MonkeyState>, b: seq<MonkeyState>)
  {
    |a| == |b| && forall i :: 0 <= i < |a| ==> a[i].rule == b[i].rule
  }

  /** Every inspection count is a `long`. */
  predicate Longs(ms: seq<MonkeyState>)
  {
    forall i :: 0 <= i < |ms| ==> IsInt64(ms[i].inspection)
  }

  /** The number of items all monkeys hold together. */
  function TotalItems(ms: seq<MonkeyState>): nat
  {
    if |ms| == 0 then 0 else TotalItems(ms[..|ms| - 1]) + |ms[|ms| - 1].items|
  }

  /** Replacing one monkey changes the total by the difference in what it holds. */
  lemma {:induction false} TotalUpdate(ms: seq<MonkeyState>, i: int, m: MonkeyState)
    requires 0 <= i < |ms|
    ensures TotalItems(ms[i := m]) == TotalItems(ms) - |ms[i].items| + |m.items|
    decreases |ms|
  {
    var n := |ms| - 1;
    var ms' := ms[i := m];
    assert ms'[..n] == if i == n then ms[..n] else ms[..n][i := m];
    if i < n {
      TotalUpdate(ms[..n], i, m);
    }
  }

  /** `m.Inspection++`: the handling monkey's count goes up by one, in `long`. */
  function Inspected(ms: seq<MonkeyState>, k: int): seq<MonkeyState>
    requires 0 <= k < |ms|
  {
    ms[k := ms[k].(inspection := Wrap64(ms[k].inspection + 1))]
  }

  /** `monkeys[target].Items.Add(reduced)`. */
  function Caught(ms: seq<MonkeyState>, t: Throw): seq<MonkeyState>
    requires 0 <= t.target < |ms|
  {
    ms[t.target := ms[t.target].(items := ms[t.target].items + [t.value])]
  }

  /**
   * What becomes of one item held by a monkey with a given rule. A run
   * uses `Tossing(reduce, factor)`; the round mechanics below hold for any.
   */
  type Tosser = (Rule, int) -> Result<Throw>

  /** `Toss` with the run's `reduce` flag and factor fixed. */
  function Tossing(reduce: bool, factor: int): (toss: Tosser)
    ensures forall rule, item :: toss(rule, item) == Toss(rule, item, reduce, factor)
  {
    (rule, item) => Toss(rule, item, reduce, factor)
  }

  /**
   * Lines 89-99 for one item of monkey `k`: the count goes up, the item is
   * tossed and caught; an exception from `%` or from an out-of-range
   * target ends the run.
   */
  function ThrowItem(ms: seq<MonkeyState>, k: int, item: int, toss: Tosser): (r: Result<seq<MonkeyState>>)
    requires 0 <= k < |ms|
    ensures r.Success? <==>
      (toss(ms[k].rule, item).Success? && 0 <= toss(ms[k].rule, item).value.target < |ms|)
    ensures r.Failure? && toss(ms[k].rule, item).Success? ==> r.error == ArgumentOutOfRangeException
    ensures r.Success? ==> |r.value| == |ms|
  {
    match toss(ms[k].rule, item)
    case Failure(e) => Failure(e)
    case Success(t) =>
      if 0 <= t.target < |ms| then Success(Caught(Inspected(ms, k), t)) else Failure(ArgumentOutOfRangeException)
  }

  /** A thrown item lands at the end of exactly one monkey's list, the target's. */
  lemma ThrowItemLands(ms: seq<MonkeyState>, k: int, item: int, toss: Tosser)
    requires 0 <= k < |ms| && ThrowItem(ms, k, item, toss).Success?
    ensures var r := ThrowItem(ms, k, item, toss).value;
      var t := toss(ms[k].rule, item).value;
      forall i :: 0 <= i < |ms| ==> r[i].items == if i == t.target then ms[i].items + [t.value] else ms[i].items
  {
    var t := toss(ms[k].rule, item).value;
    assert ThrowItem(ms, k, item, toss).value == Caught(Inspected(ms, k), t);
  }

  /** Only the thrower's count changes, by one. */
  lemma ThrowItemCounts(ms: seq<MonkeyState>, k: int, item: int, toss: Tosser)
    requires 0 <= k < |ms| && ThrowItem(ms, k, item, toss).Success?
    ensures var r := ThrowItem(ms, k, item, toss).value;
      forall i :: 0 <= i < |ms| ==> r[i].inspection == if i == k then Wrap64(ms[i].inspection + 1) else ms[i].inspection
  {
    var t := toss(ms[k].rule, item).value;
    assert ThrowItem(ms, k, item, toss).value == Caught(Inspected(ms, k), t);
  }

  /** One throw adds one item to the total. */
  lemma ThrowItemConserves(ms: seq<MonkeyState>, k: int, item: int, toss: Tosser)
    requires 0 <= k < |ms| && ThrowItem(ms, k, item, toss).Success?
    ensures TotalItems(ThrowItem(ms, k, item, toss).value) == TotalItems(ms) + 1
  {
    var t := toss(ms[k].rule, item).value;
    var ms1 := Inspected(ms, k);
    assert ThrowItem(ms, k, item, toss).value == Caught(ms1, t);
    TotalUpdate(ms, k, ms1[k]);
    TotalUpdate(ms1, t.target, ms1[t.target].(items := ms1[t.target].items + [t.value]));
  }

  /** Monkey `k` handling `items` in order, stopping at the first exception. */
  function Throws(ms: seq<MonkeyState>, k: int, items: seq<int>, toss: Tosser): (r: Result<seq<MonkeyState>>)
    requires 0 <= k < |ms|
    ensures r.Success? ==> |r.value| == |ms|
    decreases |items|
  {
    if |items| == 0 then Success(ms)
    else
      match Throws(ms, k, items[..|items| - 1], toss)
      case Failure(e) => Failure(e)
      case Success(ms') => ThrowItem(ms', k, items[|items| - 1], toss)
  }

  /** Handling the items one by one adds one item per handled item to the total. */
  lemma {:induction false} ThrowsConserve(ms: seq<MonkeyState>, k: int, items: seq<int>, toss: Tosser)
    requires 0 <= k < |ms| && Throws(ms, k, items, toss).Success?
    ensures TotalItems(Throws(ms, k, items, toss).value) == TotalItems(ms) + |items|
    decreases |items|
  {
    if |items| > 0 {
      var n := |items| - 1;
      ThrowsConserve(ms, k, items[..n], toss);
      ThrowItemConserves(Throws(ms, k, items[..n], toss).value, k, items[n], toss);
    }
  }

  /** Only monkey `k`'s count changes, by one per handled item. */
  lemma {:induction false} ThrowsInspections(ms: seq<MonkeyState>, k: int, items: seq<int>, toss: Tosser)
    requires 0 <= k < |ms| && IsInt64(ms[k].inspection) && Throws(ms, k, items, toss).Success?
    ensures var r := Throws(ms, k, items, toss).value;
      && r[k].inspection == Wrap64(ms[k].inspection + |items|)
      && forall i :: 0 <= i < |ms| && i != k ==> r[i].inspection == ms[i].inspection
    decreases |items|
  {
    if |items| > 0 {
      var n := |items| - 1;
      ThrowsInspections(ms, k, items[..n], toss);
      var ms' := Throws(ms, k, items[..n], toss).value;
      ThrowItemCounts(ms', k, items[n], toss);
      assert ms'[k].inspection == Wrap64(ms[k].inspection + n);
      WrapAbsorbs(0x8000_0000_0000_0000, ms[k].inspection + n, 1);
    }
  }

  /** Handling one more item: the next item is thrown from the state the earlier ones left. */
  lemma ThrowsStep(ms: seq<MonkeyState>, k: int, items: seq<int>, j: nat, toss: Tosser)
    requires 0 <= k < |ms| && j < |items| && Throws(ms, k, items[..j], toss).Success?
    ensures Throws(ms, k, items[..j + 1], toss) ==
      ThrowItem(Throws(ms, k, items[..j], toss).value, k, items[j], toss)
  {
    assert items[..j + 1][..j] == items[..j];
  }

  /** Throwing items never changes a monkey's rule. */
  lemma {:induction false} ThrowsKeepRules(ms: seq<MonkeyState>, k: int, items: seq<int>, toss: Tosser)
    requires 0 <= k < |ms| && Throws(ms, k, items, toss).Success?
    ensures SameRules(ms, Throws(ms, k, items, toss).value)
    decreases |items|
  {
    if |items| > 0 {
      ThrowsKeepRules(ms, k, items[..|items| - 1], toss);
    }
  }

  /** Once an item throws, handling more items keeps that exception. */
  lemma {:induction false} ThrowsFailureStays(ms: seq<MonkeyState>, k: int, items: seq<int>, j: nat, toss: Tosser)
    requires 0 <= k < |ms| && j <= |items| && Throws(ms, k, items[..j], toss).Failure?
    ensures Throws(ms, k, items, toss) == Throws(ms, k, items[..j], toss)
    decreases |items|
  {
    if j < |items| {
      var n := |items| - 1;
      assert items[..n][..j] == items[..j];
      ThrowsFailureStays(ms, k, items[..n], j, toss);
    } else {
      assert items[..j] == items;
    }
  }

  /** `m.Items = new List<long>()`. */
  function Cleared(ms: seq<MonkeyState>, k: int): seq<MonkeyState>
    requires 0 <= k < |ms|
  {
    ms[k := ms[k].(items := [])]
  }

  /**
   * Monkey `k`'s turn: it takes its whole list, starts a new one, and
   * throws the taken items in order; an item thrown to itself waits in the
   * new list for the next round.
   */
  function Turn(ms: seq<MonkeyState>, k: int, toss: Tosser): (r: Result<seq<MonkeyState>>)
    requires 0 <= k < |ms|
    ensures r.Success? ==> |r.value| == |ms|
  {
    Throws(Cleared(ms, k), k, ms[k].items, toss)
  }

  /** A turn keeps the number of items and raises the monkey's own count by the number it held. */
  lemma TurnEffect(ms: seq<MonkeyState>, k: int, toss: Tosser)
    requires 0 <= k < |ms| && Longs(ms) && Turn(ms, k, toss).Success?
    ensures var r := Turn(ms, k, toss).value;
      && TotalItems(r) == TotalItems(ms)
      && r[k].inspection == Wrap64(ms[k].inspection + |ms[k].items|)
      && (forall i :: 0 <= i < |ms| && i != k ==> r[i].inspection == ms[i].inspection)
      && Longs(r)
  {
    TotalUpdate(ms, k, ms[k].(items := []));
    ThrowsConserve(Cleared(ms, k), k, ms[k].items, toss);
    ThrowsInspections(Cleared(ms, k), k, ms[k].items, toss);
  }

  /** The turns of monkeys `0 .. n-1`, in list order. */
  function TurnsUpTo(ms: seq<MonkeyState>, n: nat, toss: Tosser): (r: Result<seq<MonkeyState>>)
    requires n <= |ms|
    ensures r.Success? ==> |r.value| == |ms|
  {
    if n == 0 then Success(ms)
    else
      match TurnsUpTo(ms, n - 1, toss)
      case Failure(e) => Failure(e)
      case Success(ms') => Turn(ms', n - 1, toss)
  }

  /** Turns never change the number of items. */
  lemma {:induction false} TurnsConserve(ms: seq<MonkeyState>, n: nat, toss: Tosser)
    requires n <= |ms| && Longs(ms) && TurnsUpTo(ms, n, toss).Success?
    ensures TotalItems(TurnsUpTo(ms, n, toss).value) == TotalItems(ms)
    ensures Longs(TurnsUpTo(ms, n, toss).value)
  {
    if n > 0 {
      TurnsConserve(ms, n - 1, toss);
      TurnEffect(TurnsUpTo(ms, n - 1, toss).value, n - 1, toss);
    }
  }

  /** The next monkey's turn starts from the state the earlier turns left. */
  lemma TurnsStep(ms: seq<MonkeyState>, n: nat, toss: Tosser)
    requires n < |ms| && TurnsUpTo(ms, n, toss).Success?
    ensures TurnsUpTo(ms, n + 1, toss) == Turn(TurnsUpTo(ms, n, toss).value, n, toss)
  {
  }

  /** Turns never change a monkey's rule. */
  lemma {:induction false} TurnsKeepRules(ms: seq<MonkeyState>, n: nat, toss: Tosser)
    requires n <= |ms| && TurnsUpTo(ms, n, toss).Success?
    ensures SameRules(ms, TurnsUpTo(ms, n, toss).value)
  {
    if n > 0 {
      TurnsKeepRules(ms, n - 1, toss);
      var ms' := TurnsUpTo(ms, n - 1, toss).value;
      ThrowsKeepRules(Cleared(ms', n - 1), n - 1, ms'[n - 1].items, toss);
    }
  }

  /** Once a turn throws, later turns keep that exception. */
  lemma {:induction false} TurnsFailureStays(ms: seq<MonkeyState>, j: nat, n: nat, toss: Tosser)
    requires j <= n <= |ms| && TurnsUpTo(ms, j, toss).Failure?
    ensures TurnsUpTo(ms, n, toss) == TurnsUpTo(ms, j, toss)
  {
    if j < n {
      TurnsFailureStays(ms, j, n - 1, toss);
    }
  }

  /** One round: every monkey's turn, in list order. */
  function Round(ms: seq<MonkeyState>, toss: Tosser): (r: Result<seq<MonkeyState>>)
    ensures r.Success? ==> |r.value| == |ms|
  {
    TurnsUpTo(ms, |ms|, toss)
  }

  /** `n` rounds in a row. */
  function Rounds(ms: seq<MonkeyState>, n: nat, toss: Tosser): (r: Result<seq<MonkeyState>>)
    ensures r.Success? ==> |r.value| == |ms|
  {
    if n == 0 then Success(ms)
    else
      match Rounds(ms, n - 1, toss)
      case Failure(e) => Failure(e)
      case Success(ms') => Round(ms', toss)
  }

  /** However many rounds run, every monkey keeps its rule. */
  lemma {:induction false} RoundsKeepRules(ms: seq<MonkeyState>, n: nat, toss: Tosser)
    requires Rounds(ms, n, toss).Success?
    ensures SameRules(ms, Rounds(ms, n, toss).value)
  {
    if n > 0 {
      RoundsKeepRules(ms, n - 1, toss);
      var ms' := Rounds(ms, n - 1, toss).value;
      TurnsKeepRules(ms', |ms'|, toss);
    }
  }

  /** However many rounds run, the monkeys hold the same number of items as at the start. */
  lemma {:induction false} RoundsConserve(ms: seq<MonkeyState>, n: nat, toss: Tosser)
    requires Longs(ms) && Rounds(ms, n, toss).Success?
    ensures TotalItems(Rounds(ms, n, toss).value) == TotalItems(ms)
    ensures Longs(Rounds(ms, n, toss).value)
  {
    if n > 0 {
      RoundsConserve(ms, n - 1, toss);
      var ms' := Rounds(ms, n - 1, toss).value;
      TurnsConserve(ms', |ms'|, toss);
    }
  }

  /** The next round starts from the state the earlier rounds left. */
  lemma RoundsStep(ms: seq<MonkeyState>, n: nat, toss: Tosser)
    requires Rounds(ms, n, toss).Success?
    ensures Rounds(ms, n + 1, toss) == Round(Rounds(ms, n, toss).value, toss)
  {
  }

  /** Once a round throws, later rounds keep that exception. */
  lemma {:induction false} RoundsFailureStays(ms: seq<MonkeyState>, j: nat, n: nat, toss: Tosser)
    requires j <= n && Rounds(ms, j, toss).Failure?
    ensures Rounds(ms, n, toss) == Rounds(ms, j, toss)
  {
    if j < n {
      RoundsFailureStays(ms, j, n - 1, toss);
    }
  }

  /**
   * `RunMonkeys` on parsed monkeys: the factor first (no monkeys throws),
   * then the rounds (a negative count runs none), then the business of
   * the final counts.
   */
  function Run(specs: seq<MonkeySpec>, rounds: int, reduce: bool): (r: Result<int>)
    ensures |specs| == 0 ==> r == Failure(InvalidOperationException)
  {
    var ms := Initial(specs);
    match Factor(Tests(ms))
    case Failure(e) => Failure(e)
    case Success(factor) =>
      match Rounds(ms, if rounds < 0 then 0 else rounds, Tossing(reduce, factor))
      case Failure(e) => Failure(e)
      case Success(final) => Business(Inspections(final))
  }

  // ---------------------------------------------------------------------
  // The monkeys as objects
  // ---------------------------------------------------------------------

  /** A monkey: its rule never changes; its item list is replaced and appended to, its count incremented. */
  class Monkey {
    const id: int
    const operation: int -> int
    const test: int
    const trueMonkey: int
    const falseMonkey: int
    var items: seq<int>
    var inspection: int

    constructor (id: int, items: seq<int>, test: int, trueMonkey: int, falseMonkey: int, operation: int -> int)
      ensures this.id == id && this.items == items && this.test == test
      ensures this.trueMonkey == trueMonkey && this.falseMonkey == falseMonkey && this.operation == operation
      ensures inspection == 0
    {
      this.id := id;
      this.items := items;
      this.test := test;
      this.trueMonkey := trueMonkey;
      this.falseMonkey := falseMonkey;
      this.operation := operation;
      inspection := 0;
    }

    /** This monkey as a value. */
    function State(): (m: MonkeyState)
      reads this
      ensures m.rule == Rule(operation, test, trueMonkey, falseMonkey) && m.items == items && m.inspection == inspection
    {
      MonkeyState(Rule(operation, test, trueMonkey, falseMonkey), items, inspection)
    }
  }

  /** The list holds each monkey once. */
  predicate Distinct(monkeys: seq<Monkey>)
  {
    forall i, j :: 0 <= i < j < |monkeys| ==> monkeys[i] != monkeys[j]
  }

  /** The monkeys as values, in list order. */
  function States(monkeys: seq<Monkey>): (ms: seq<MonkeyState>)
    reads monkeys
    ensures |ms| == |monkeys| && forall i :: 0 <= i < |monkeys| ==> ms[i] == monkeys[i].State()
  {
    seq(|monkeys|, i reads monkeys requires 0 <= i < |monkeys| => monkeys[i].State())
  }

  /** The body of the inner `foreach` for one item of monkey `k`. */
  method ThrowOne(monkeys: seq<Monkey>, k: int, item: int, reduce: bool, factor: int) returns (error: Option<Exception>)
    requires Distinct(monkeys) && 0 <= k < |monkeys|
    modifies monkeys
    ensures var r := ThrowItem(old(States(monkeys)), k, item, Tossing(reduce, factor));
      && (r.Success? ==> error == None && States(monkeys) == r.value)
      && (r.Failure? ==> error == Some(r.error) && States(monkeys) == Inspected(old(States(monkeys)), k))
  {
    ghost var ms := States(monkeys);
    var m := monkeys[k];
    ghost var toss := Toss(ms[k].rule, item, reduce, factor);
    var worry := m.operation(item);
    m.inspection := Wrap64(m.inspection + 1);
    assert States(monkeys) == Inspected(ms, k);
    var reduced := worry;
    if reduce {
      reduced := TruncDiv(worry, 3);
    }
    DividedTruncates(m.operation, item, reduce);
    var rem := LongRem(reduced, factor);
    if rem.Failure? {
      assert toss == Failure(rem.error);
      return Some(rem.error);
    }
    reduced := rem.value;
    rem := LongRem(reduced, m.test);
    if rem.Failure? {
      assert toss == Failure(rem.error);
      return Some(rem.error);
    }
    var matched := rem.value == 0;
    var target := if matched then m.trueMonkey else m.falseMonkey;
    assert toss == Success(Throw(reduced, target));
    if !(0 <= target < |monkeys|) {
      return Some(ArgumentOutOfRangeException);
    }
    monkeys[target].items := monkeys[target].items + [reduced];
    assert States(monkeys) == Caught(Inspected(ms, k), Throw(reduced, target));
    return None;
  }

  /** One monkey's turn (lines 85-99): take the list, start a new one, throw every taken item. */
  method RunTurn(monkeys: seq<Monkey>, k: int, reduce: bool, factor: int) returns (error: Option<Exception>)
    requires Distinct(monkeys) && 0 <= k < |monkeys|
    modifies monkeys
    ensures var r := Turn(old(States(monkeys)), k, Tossing(reduce, factor));
      && (r.Success? ==> error == None && States(monkeys) == r.value)
      && (r.Failure? ==> error == Some(r.error))
  {
    ghost var ms := States(monkeys);
    var l := monkeys[k].items;
    monkeys[k].items := [];
    assert States(monkeys) == Cleared(ms, k);
    for j := 0 to |l|
      invariant Throws(Cleared(ms, k), k, l[..j], Tossing(reduce, factor)) == Success(States(monkeys))
    {
      ThrowsStep(Cleared(ms, k), k, l, j, Tossing(reduce, factor));
      error := ThrowOne(monkeys, k, l[j], reduce, factor);
      if error.Some? {
        ThrowsFailureStays(Cleared(ms, k), k, l, j + 1, Tossing(reduce, factor));
        return;
      }
    }
    assert l[..|l|] == l;
    return None;
  }

  /** One round: every monkey's turn, in list order. */
  method RunRound(monkeys: seq<Monkey>, reduce: bool, factor: int) returns (error: Option<Exception>)
    requires Distinct(monkeys)
    modifies monkeys
    ensures var r := Round(old(States(monkeys)), Tossing(reduce, factor));
      && (r.Success? ==> error == None && States(monkeys) == r.value)
      && (r.Failure? ==> error == Some(r.error))
  {
    ghost var ms := States(monkeys);
    for k := 0 to |monkeys|
      invariant TurnsUpTo(ms, k, Tossing(reduce, factor)) == Success(States(monkeys))
    {
      TurnsStep(ms, k, Tossing(reduce, factor));
      error := RunTurn(monkeys, k, reduce, factor);
      if error.Some? {
        TurnsFailureStays(ms, k + 1, |ms|, Tossing(reduce, factor));
        return;
      }
    }
    return None;
  }

  /** Lines 41-77 after parsing: one new monkey per chunk, in input order. */
  method Build(specs: seq<MonkeySpec>) returns (monkeys: seq<Monkey>)
    ensures Distinct(monkeys) && States(monkeys) == Initial(specs)
    ensures forall i :: 0 <= i < |monkeys| ==> fresh(monkeys[i])
  {
    monkeys := [];
    for i := 0 to |specs|
      invariant Distinct(monkeys)
      invariant forall j :: 0 <= j < |monkeys| ==> fresh(monkeys[j])
      invariant States(monkeys) == Initial(specs[..i])
    {
      var spec := specs[i];
      var m := new Monkey(spec.id, spec.items, spec.rule.test, spec.rule.trueMonkey, spec.rule.falseMonkey, spec.rule.operation);
      monkeys := monkeys + [m];
    }
    assert specs[..|specs|] == specs;
  }

  /** The `round` loop (lines 81-112): `rounds` rounds, none when `rounds` is negative. */
  method RunRounds(monkeys: seq<Monkey>, rounds: int, reduce: bool, factor: int) returns (error: Option<Exception>)
    requires Distinct(monkeys)
    modifies monkeys
    ensures var r := Rounds(old(States(monkeys)), if rounds < 0 then 0 else rounds, Tossing(reduce, factor));
      && (r.Success? ==> error == None && States(monkeys) == r.value)
      && (r.Failure? ==> error == Some(r.error))
  {
    ghost var ms := States(monkeys);
    var round := 0;
    while round < rounds
      invariant round == 0 || round <= rounds
      invariant Rounds(ms, round, Tossing(reduce, factor)) == Success(States(monkeys))
    {
      RoundsStep(ms, round, Tossing(reduce, factor));
      error := RunRound(monkeys, reduce, factor);
      if error.Some? {
        RoundsFailureStays(ms, round + 1, rounds, Tossing(reduce, factor));
        return;
      }
      round := round + 1;
    }
    return None;
  }

  /**
   * `RunMonkeys` after parsing: build the monkeys, take the product of
   * their tests, run the rounds, and give the monkey business.
   */
  method RunMonkeys(specs: seq<MonkeySpec>, rounds: int, reduce: bool) returns (r: Result<int>)
    ensures r == Run(specs, rounds, reduce)
  {
    var monkeys := Build(specs);
    var f := Factor(Tests(States(monkeys)));
    if f.Failure? {
      return Failure(f.error);
    }
    var error := RunRounds(monkeys, rounds, reduce, f.value);
    if error.Some? {
      return Failure(error.value);
    }
    r := Business(Inspections(States(monkeys)));
  }

  /** The puzzle's two answers: 20 rounds dividing by 3, then 10000 rounds without. */
  method Execute(specs: seq<MonkeySpec>) returns (r: Result<(int, int)>)
    ensures r.Success? <==> Run(specs, 20, true).Success? && Run(specs, 10000, false).Success?
    ensures r.Success? ==> r.value == (Run(specs, 20, true).value, Run(specs, 10000, false).value)
    ensures r.Failure? ==> r.error == if Run(specs, 20, true).Failure? then Run(specs, 20, true).error else Run(specs, 10000, false).error
  {
    var first := RunMonkeys(specs, 20, true);
    if first.Failure? {
      return Failure(first.error);
    }
    var second := RunMonkeys(specs, 10000, false);
    if second.Failure? {
      return Failure(second.error);
    }
    return Success((first.value, second.value));
  }
}
