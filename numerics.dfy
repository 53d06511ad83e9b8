/** Fixed-width integer behaviour of C#: unchecked wrap-around and truncating division. */
module Numerics {
  import opened Wrappers

  predicate IsInt16(x: int) { -0x8000 <= x < 0x8000 }
  predicate IsInt32(x: int) { -0x8000_0000 <= x < 0x8000_0000 }
  predicate IsInt64(x: int) { -0x8000_0000_0000_0000 <= x < 0x8000_0000_0000_0000 }

  /**
   * The two's-complement reading of `x` in a word of `2 * half` values: the
   * unique integer in [-half, half) congruent to `x`, reached by adding or
   * subtracting whole words.
   */
  function WrapSigned(half: int, x: int): (r: int)
    requires half > 0
    ensures -half <= r < half
    ensures -half <= x < half ==> r == x
    decreases Abs(x) + (if x >= 0 then 1 else 0)
  {
    if x >= half then WrapSigned(half, x - 2 * half)
    else if x < -half then WrapSigned(half, x + 2 * half)
    else x
  }

  /** Wrapping changes a value by a whole number `k` of words. */
  lemma {:induction false} WrapCongruent(half: int, x: int) returns (k: int)
    requires half > 0
    ensures WrapSigned(half, x) == x + k * (2 * half)
    decreases Abs(x) + (if x >= 0 then 1 else 0)
  {
    var m := 2 * half;
    if x >= half {
      var k' := WrapCongruent(half, x - m);
      k := k' - 1;
      assert (k' - 1) * m == k' * m - m;
    } else if x < -half {
      var k' := WrapCongruent(half, x + m);
      k := k' + 1;
      assert (k' + 1) * m == k' * m + m;
    } else {
      k := 0;
    }
  }

  lemma OnlySmallMultipleIsZero(j: int, m: int)
    requires m > 0 && -m < j * m < m
    ensures j == 0
  {
  }

  /** A value in [-half, half) is the only one there in its residue class. */
  lemma WrapUnique(half: int, y: int, k: int)
    requires half > 0 && -half <= y < half
    ensures WrapSigned(half, y + k * (2 * half)) == y
  {
    var m := 2 * half;
    var x := y + k * m;
    var k1 := WrapCongruent(half, x);
    var j := k + k1;
    assert j * m == k * m + k1 * m;
    assert WrapSigned(half, x) - y == j * m;
    OnlySmallMultipleIsZero(j, m);
  }

  /** The value of an unchecked `(short)` cast. */
  function Wrap16(x: int): (r: int)
    ensures IsInt16(r)
    ensures IsInt16(x) ==> r == x
  {
    WrapSigned(0x8000, x)
  }

  /** Wrapping a short twice by opposite amounts returns it. */
  lemma Wrap16Cancel(x: int, y: int)
    requires IsInt16(x)
    ensures Wrap16(Wrap16(x + y) - y) == x
    ensures Wrap16(Wrap16(x - y) + y) == x
  {
    var k1 := WrapCongruent(0x8000, x + y);
    WrapUnique(0x8000, x, k1);
    assert Wrap16(x + y) - y == x + k1 * 0x1_0000;
    var k2 := WrapCongruent(0x8000, x - y);
    WrapUnique(0x8000, x, k2);
    assert Wrap16(x - y) + y == x + k2 * 0x1_0000;
  }

  /** The result of unchecked 32-bit `int` arithmetic whose exact value is `x`. */
  function Wrap32(x: int): (r: int)
    ensures IsInt32(r)
    ensures IsInt32(x) ==> r == x
  {
    WrapSigned(0x8000_0000, x)
  }

  /** The result of unchecked 64-bit `long` arithmetic whose exact value is `x`. */
  function Wrap64(x: int): (r: int)
    ensures IsInt64(r)
    ensures IsInt64(x) ==> r == x
  {
    WrapSigned(0x8000_0000_0000_0000, x)
  }

  /** Adding whole words does not change the wrapped value. */
  lemma WrapPeriodic(half: int, z: int, k: int)
    requires half > 0
    ensures WrapSigned(half, z + k * (2 * half)) == WrapSigned(half, z)
  {
    var m := 2 * half;
    var k1 := WrapCongruent(half, z);
    var w := WrapSigned(half, z);
    assert z + k * m == w + (k - k1) * m by {
      assert (k - k1) * m == k * m - k1 * m;
    }
    WrapUnique(half, w, k - k1);
  }

  lemma NegatedProduct(a: int, b: int)
    ensures (-a) * b == -(a * b)
  {
  }

  /** Wrapping an operand early does not change a wrapped sum or difference. */
  lemma WrapAbsorbs(half: int, x: int, y: int)
    requires half > 0
    ensures WrapSigned(half, WrapSigned(half, x) + y) == WrapSigned(half, x + y)
    ensures WrapSigned(half, y - WrapSigned(half, x)) == WrapSigned(half, y - x)
  {
    var k := WrapCongruent(half, x);
    AbsorbedInSum(half, x, y, k);
    AbsorbedInDifference(half, x, y, k);
  }

  lemma AbsorbedInSum(half: int, x: int, y: int, k: int)
    requires half > 0 && WrapSigned(half, x) == x + k * (2 * half)
    ensures WrapSigned(half, WrapSigned(half, x) + y) == WrapSigned(half, x + y)
  {
    assert WrapSigned(half, x) + y == (x + y) + k * (2 * half);
    WrapPeriodic(half, x + y, k);
  }

  lemma AbsorbedInDifference(half: int, x: int, y: int, k: int)
    requires half > 0 && WrapSigned(half, x) == x + k * (2 * half)
    ensures WrapSigned(half, y - WrapSigned(half, x)) == WrapSigned(half, y - x)
  {
    var m := 2 * half;
    assert (-k) * m == -(k * m) by {
      NegatedProduct(k, m);
    }
    WrapPeriodic(half, y - x, -k);
  }

  lemma Wrap32Accumulates(total: int, v: int)
    ensures Wrap32(Wrap32(total) + v) == Wrap32(total + v)
  {
    WrapAbsorbs(0x8000_0000, total, v);
  }

  function Abs(x: int): nat
  {
    if x < 0 then -x else x
  }

  function Sign(x: int): (r: int)
    ensures (x > 0 ==> r == 1) && (x == 0 ==> r == 0) && (x < 0 ==> r == -1)
  {
    if x > 0 then 1 else if x < 0 then -1 else 0
  }

  lemma DivNat(n: int, d: int)
    requires n >= 0 && d > 0
    ensures n / d >= 0 && 0 <= n % d < d && n == (n / d) * d + n % d
  {
  }

  /** C# `/`: the quotient rounded toward zero. */
  function TruncDiv(a: int, b: int): (q: int)
    requires b != 0
    ensures Abs(q) == Abs(a) / Abs(b)
    ensures q == 0 || ((q > 0) <==> ((a > 0) == (b > 0)))
  {
    DivNat(Abs(a), Abs(b));
    var m := Abs(a) / Abs(b);
    if (a >= 0) == (b > 0) then m else -m
  }

  /** Dividing an exact multiple gives the factor back. */
  lemma TruncDivExact(q: int, d: int)
    requires d != 0
    ensures TruncDiv(q * d, d) == q
  {
    AbsMul(q, d);
    DivNat(Abs(q) * Abs(d), Abs(d));
    MulDivCancel(Abs(q), Abs(d));
  }

  lemma AbsMul(a: int, b: int)
    ensures Abs(a * b) == Abs(a) * Abs(b)
  {
    if a < 0 && b < 0 {
      assert a * b == (-a) * (-b);
    } else if a < 0 {
      assert a * b == -((-a) * b);
    } else if b < 0 {
      assert a * b == -(a * (-b));
    }
  }

  lemma MulDivCancel(q: nat, d: nat)
    requires d > 0
    ensures (q * d) / d == q
  {
    var n := q * d;
    DivNat(n, d);
    var r := n / d;
    var s := n % d;
    assert (q - r) * d == s by {
      assert n == r * d + s;
      assert (q - r) * d == q * d - r * d;
    }
    if q > r {
      MulAtLeast(q - r, d);
    } else if q < r {
      MulAtLeast(r - q, d);
    }
  }

  lemma MulAtLeast(a: int, d: int)
    requires a >= 1 && d > 0
    ensures a * d >= d
  {
    assert a * d == (a - 1) * d + d;
  }

  /** C# `%`: the remainder left by `TruncDiv`, carrying the sign of the dividend. */
  function TruncRem(a: int, b: int): (r: int)
    requires b != 0
    ensures Abs(r) < Abs(b) && Abs(r) <= Abs(a)
    ensures r == 0 || ((r > 0) <==> (a > 0))
    ensures a == TruncDiv(a, b) * b + r
  {
    DivNat(Abs(a), Abs(b));
    var m := Abs(a) % Abs(b);
    if a >= 0 then m else -m
  }

  /** The exact sum, added left to right. */
  function Sum(xs: seq<int>): int
  {
    if xs == [] then 0 else Sum(xs[..|xs| - 1]) + xs[|xs| - 1]
  }

  /**
   * LINQ's `Sum()` over `int`: the values added left to right in a checked
   * context, so the first partial sum outside `int` throws.
   */
  function LinqSum(xs: seq<int>): (r: Result<int>)
    ensures r.Success? <==> forall n :: 0 < n <= |xs| ==> IsInt32(Sum(xs[..n]))
    ensures r.Success? ==> r.value == Sum(xs)
    ensures r.Failure? ==> r.error == OverflowException
  {
    if xs == [] then Success(0)
    else
      var init := xs[..|xs| - 1];
      assert forall n :: 0 < n <= |init| ==> init[..n] == xs[..n];
      assert xs[..|xs|] == xs;
      match LinqSum(init)
      case Failure(e) => Failure(e)
      case Success(v) => if IsInt32(v + xs[|xs| - 1]) then Success(v + xs[|xs| - 1]) else Failure(OverflowException)
  }

  /** Adding non-negative values never goes below a partial sum. */
  lemma {:induction false} SumMonotone(xs: seq<int>, n: nat)
    requires n <= |xs| && forall i :: 0 <= i < |xs| ==> xs[i] >= 0
    ensures 0 <= Sum(xs[..n]) <= Sum(xs)
    decreases |xs|
  {
    if n < |xs| {
      var init := xs[..|xs| - 1];
      assert init[..n] == xs[..n];
      SumMonotone(init, n);
    } else {
      assert xs[..n] == xs;
      if xs != [] {
        SumMonotone(xs[..|xs| - 1], |xs| - 1);
      }
    }
  }

  /** Non-negative values whose total fits an `int` are summed without overflow. */
  lemma LinqSumFits(xs: seq<int>)
    requires forall i :: 0 <= i < |xs| ==> xs[i] >= 0
    requires Sum(xs) < 0x8000_0000
    ensures LinqSum(xs) == Success(Sum(xs))
  {
    forall n | 0 < n <= |xs|
      ensures IsInt32(Sum(xs[..n]))
    {
      SumMonotone(xs, n);
    }
  }
}
