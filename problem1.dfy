/**
 * Sonar sweep (aoc Problem1): counts depth readings larger than the one
 * before, and increases of a three-reading window kept in a three-slot
 * array that starts filled with a sentinel.
 */
module Problem1 {
  import opened Wrappers
  import opened Numerics

  const SENTINEL := 99999

  /** Readings 1..n-1 that are strictly larger than the reading before them. */
  function CountIncreases(values: seq<int>, n: nat): (c: nat)
    requires n <= |values|
    ensures c <= n && (n > 0 ==> c < n)
  {
    if n <= 1 then 0
    else CountIncreases(values, n - 1) + (if values[n - 1] > values[n - 2] then 1 else 0)
  }

  /** The value reading `i` overwrites in the window: the reading three earlier, or the sentinel. */
  function Overwritten(values: seq<int>, i: nat): int
    requires i < |values|
  {
    if i >= 3 then values[i - 3] else SENTINEL
  }

  /** Readings among the first `n` that exceed the value they overwrite. */
  function CountWindowIncreases(values: seq<int>, n: nat): (c: nat)
    requires n <= |values|
    ensures c <= n
  {
    if n == 0 then 0
    else CountWindowIncreases(values, n - 1) + (if values[n - 1] > Overwritten(values, n - 1) then 1 else 0)
  }

  /** Slot `j` of the window after `n` readings: the last reading written there, or the sentinel. */
  function Slot(values: seq<int>, n: nat, j: nat): int
    requires n <= |values| && j < 3
  {
    if n == 0 then SENTINEL
    else if (n - 1) % 3 == j then values[n - 1]
    else Slot(values, n - 1, j)
  }

  /** Reading `i` goes to slot `i % 3`, which holds exactly the value it overwrites. */
  lemma {:induction false} SlotBeforeWrite(values: seq<int>, i: nat)
    requires i < |values|
    ensures Slot(values, i, i % 3) == Overwritten(values, i)
  {
    var j := i % 3;
    if i >= 3 {
      assert (i - 1) % 3 != j && (i - 2) % 3 != j && (i - 3) % 3 == j;
      assert Slot(values, i, j) == Slot(values, i - 1, j) == Slot(values, i - 2, j);
    } else if i == 2 {
      assert Slot(values, 2, 2) == Slot(values, 1, 2) == Slot(values, 0, 2);
    } else if i == 1 {
      assert Slot(values, 1, 1) == Slot(values, 0, 1);
    }
  }

  /** `sums.Sum()`: LINQ adds the three slots with overflow checking. */
  function CheckedSum(a: int, b: int, c: int): (r: Result<int>)
    ensures r.Success? <==> IsInt32(a + b) && IsInt32(a + b + c)
    ensures r.Success? ==> r.value == a + b + c
  {
    if !IsInt32(a + b) || !IsInt32(a + b + c) then Failure(OverflowException) else Success(a + b + c)
  }

  function WindowSum(values: seq<int>, n: nat): Result<int>
    requires n <= |values|
  {
    CheckedSum(Slot(values, n, 0), Slot(values, n, 1), Slot(values, n, 2))
  }

  /** The slot written `d` readings ago still holds that reading, for the last three readings. */
  lemma SlotLastWrite(values: seq<int>, n: nat, d: nat)
    requires 1 <= d <= 3 && d <= n <= |values|
    ensures Slot(values, n, (n - d) % 3) == values[n - d]
  {
    var j := (n - d) % 3;
    if d >= 2 {
      assert (n - 1) % 3 != j;
      assert Slot(values, n, j) == Slot(values, n - 1, j);
    }
    if d == 3 {
      assert (n - 2) % 3 != j;
      assert Slot(values, n - 1, j) == Slot(values, n - 2, j);
    }
  }

  /** Once three readings are in, the window sums the last three. */
  lemma WindowHoldsLastThree(values: seq<int>, n: nat)
    requires 3 <= n <= |values|
    ensures Slot(values, n, 0) + Slot(values, n, 1) + Slot(values, n, 2)
      == values[n - 1] + values[n - 2] + values[n - 3]
  {
    SlotLastWrite(values, n, 1);
    SlotLastWrite(values, n, 2);
    SlotLastWrite(values, n, 3);
    var k := (n - 1) % 3;
    if k == 0 {
      assert (n - 2) % 3 == 2 && (n - 3) % 3 == 1;
    } else if k == 1 {
      assert (n - 2) % 3 == 0 && (n - 3) % 3 == 2;
    } else {
      assert (n - 2) % 3 == 1 && (n - 3) % 3 == 0;
    }
  }

  /** The window sum rises exactly when the new reading exceeds the one it overwrites. */
  lemma WindowIncrease(values: seq<int>, i: nat)
    requires i < |values| && WindowSum(values, i).Success? && WindowSum(values, i + 1).Success?
    ensures WindowSum(values, i + 1).value > WindowSum(values, i).value <==> values[i] > Overwritten(values, i)
  {
    SlotBeforeWrite(values, i);
    var j := i % 3;
    assert forall m :: 0 <= m < 3 && m != j ==> Slot(values, i + 1, m) == Slot(values, i, m);
    assert Slot(values, i + 1, j) == values[i];
  }

  /** The loop: the two counts, or `OverflowException` from the first window sum that overflows. */
  method Run(values: seq<int>) returns (r: Result<(nat, nat)>)
    requires forall k :: 0 <= k < |values| ==> IsInt32(values[k])
    ensures r.Failure? <==> exists i :: 1 <= i <= |values| && WindowSum(values, i).Failure?
    ensures r.Success? ==> r.value == (CountIncreases(values, |values|), CountWindowIncreases(values, |values|))
  {
    var sums := new int[3];
    sums[0], sums[1], sums[2] := SENTINEL, SENTINEL, SENTINEL;
    var count, aggIncrease := 0, 0;
    var i := 0;
    while i < |values|
      invariant 0 <= i <= |values|
      invariant sums[..] == [Slot(values, i, 0), Slot(values, i, 1), Slot(values, i, 2)]
      invariant WindowSum(values, i).Success?
      invariant forall k :: 1 <= k <= i ==> WindowSum(values, k).Success?
      invariant count == CountIncreases(values, i) && aggIncrease == CountWindowIncreases(values, i)
    {
      var ok;
      ok, count, aggIncrease := ReadValue(values, i, sums, count, aggIncrease);
      if !ok {
        return Failure(OverflowException);
      }
      i := i + 1;
    }
    return Success((count, aggIncrease));
  }

  /** One turn of the loop: write reading `i` into its slot and update both counts. */
  method ReadValue(values: seq<int>, i: nat, sums: array<int>, count: nat, aggIncrease: nat)
    returns (ok: bool, count': nat, aggIncrease': nat)
    requires i < |values| && sums.Length == 3
    requires sums[..] == [Slot(values, i, 0), Slot(values, i, 1), Slot(values, i, 2)]
    requires WindowSum(values, i).Success?
    requires count == CountIncreases(values, i) && aggIncrease == CountWindowIncreases(values, i)
    modifies sums
    ensures ok <==> WindowSum(values, i + 1).Success?
    ensures sums[..] == [Slot(values, i + 1, 0), Slot(values, i + 1, 1), Slot(values, i + 1, 2)]
    ensures ok ==> count' == CountIncreases(values, i + 1) && aggIncrease' == CountWindowIncreases(values, i + 1)
  {
    var prevSum := CheckedSum(sums[0], sums[1], sums[2]);
    SlotBeforeWrite(values, i);
    sums[i % 3] := values[i];
    assert sums[..] == [Slot(values, i + 1, 0), Slot(values, i + 1, 1), Slot(values, i + 1, 2)];
    var newSum := CheckedSum(sums[0], sums[1], sums[2]);
    assert newSum == WindowSum(values, i + 1);
    count', aggIncrease' := count, aggIncrease;
    if newSum.Failure? {
      return false, count', aggIncrease';
    }
    WindowIncrease(values, i);
    if newSum.value > prevSum.value {
      aggIncrease' := aggIncrease' + 1;
    }
    if i > 0 && values[i] > values[i - 1] {
      count' := count' + 1;
    }
    return true, count', aggIncrease';
  }
}
