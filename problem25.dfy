/**
 * Problem 25: balanced base-5 ("SNAFU") numbers. The digits '2', '1', '0', '-'
 * and '=' are worth 2, 1, 0, -1 and -2, most significant first.
 */
module Problem25 {
  import opened Wrappers

  /** The `switch` on one character; any other character makes it throw. */
  function DigitValue(c: char): Option<int>
  {
    match c
    case '2' => Some(2)
    case '1' => Some(1)
    case '0' => Some(0)
    case '-' => Some(-1)
    case '=' => Some(-2)
    case _ => None
  }

  predicate IsSnafuDigit(c: char) { c in "210-=" }

  /** The value the accumulator loop reaches: Horner's rule, total = 5 * total + digit. */
  function SnafuValue(s: string): Result<int>
  {
    if s == [] then Success(0)
    else
      match SnafuValue(s[..|s| - 1])
      case Failure(e) => Failure(e)
      case Success(total) =>
        match DigitValue(s[|s| - 1])
        case None => Failure(SwitchExpressionException)
        case Some(d) => Success(5 * total + d)
  }

  /** `SnafuValue` fails exactly when some character is not a SNAFU digit. */
  lemma {:induction false} SnafuValueFailsOnForeignChar(s: string)
    ensures SnafuValue(s).Failure? <==> exists i :: 0 <= i < |s| && !IsSnafuDigit(s[i])
    decreases |s|
  {
    if s != [] {
      var init := s[..|s| - 1];
      SnafuValueFailsOnForeignChar(init);
      if exists i :: 0 <= i < |init| && !IsSnafuDigit(init[i]) {
        var i :| 0 <= i < |init| && !IsSnafuDigit(init[i]);
        assert s[i] == init[i];
      }
      if exists i :: 0 <= i < |s| && !IsSnafuDigit(s[i]) {
        var i :| 0 <= i < |s| && !IsSnafuDigit(s[i]);
        if i < |init| {
          assert init[i] == s[i];
        }
      }
    }
  }

  /** `SnafuToInt`: the accumulator loop over the characters of a line. */
  method SnafuToInt(line: string) returns (r: Result<int>)
    ensures r == SnafuValue(line)
  {
    var total := 0;
    var k := 0;
    while k < |line|
      invariant 0 <= k <= |line|
      invariant SnafuValue(line[..k]) == Success(total)
    {
      assert line[..k + 1][..k] == line[..k];
      var value := DigitValue(line[k]);
      if value.None? {
        FailureSticks(line, k + 1);
        return Failure(SwitchExpressionException);
      }
      total := 5 * total + value.value;
      k := k + 1;
    }
    assert line[..k] == line;
    return Success(total);
  }

  /** Once a prefix fails, the whole string fails. */
  lemma {:induction false} FailureSticks(s: string, k: nat)
    requires k <= |s| && SnafuValue(s[..k]).Failure?
    ensures SnafuValue(s) == SnafuValue(s[..k])
    decreases |s| - k
  {
    if k < |s| {
      assert s[..k + 1][..k] == s[..k];
      FailureSticks(s, k + 1);
    } else {
      assert s[..k] == s;
    }
  }

  function Pow5(p: nat): (r: nat)
    ensures r >= 1
  {
    if p == 0 then 1 else 5 * Pow5(p - 1)
  }

  /**
   * The exact power the source approximates with `Math.Ceiling(Math.Log(value, 5))`:
   * the least p with 5^p >= value.
   */
  function CeilLog5(value: nat, p: nat := 0): (q: nat)
    requires p == 0 || Pow5(p - 1) < value
    ensures Pow5(q) >= value && q >= p
    ensures q == 0 || Pow5(q - 1) < value
    decreases if Pow5(p) >= value then 0 else value - Pow5(p)
  {
    if Pow5(p) >= value then p else CeilLog5(value, p + 1)
  }

  /** The value of a digit list, most significant first. */
  function Value(digits: seq<int>): int
  {
    if digits == [] then 0 else 5 * Value(digits[..|digits| - 1]) + digits[|digits| - 1]
  }

  /** A list splits into a high part worth 5^|low| each and a low part. */
  lemma {:induction false} ValueAppend(high: seq<int>, low: seq<int>)
    ensures Value(high + low) == Value(high) * Pow5(|low|) + Value(low)
    decreases |low|
  {
    if low == [] {
      assert high + low == high;
    } else {
      var init := low[..|low| - 1];
      assert (high + low)[..|high + low| - 1] == high + init;
      ValueAppend(high, init);
      calc {
        Value(high + low);
        5 * Value(high + init) + low[|low| - 1];
        5 * (Value(high) * Pow5(|init|) + Value(init)) + low[|low| - 1];
        { assert 5 * (Value(high) * Pow5(|init|)) == Value(high) * (5 * Pow5(|init|)); }
        Value(high) * Pow5(|low|) + Value(low);
      }
    }
  }

  /** Moving 5 from a digit onto the next more significant one keeps the value. */
  lemma CarryKeepsValue(digits: seq<int>, i: nat)
    requires 1 <= i < |digits|
    ensures Value(digits[i := digits[i] - 5][i - 1 := digits[i - 1] + 1]) == Value(digits)
  {
    var carried := digits[i := digits[i] - 5][i - 1 := digits[i - 1] + 1];
    var pre, pre', low := digits[..i + 1], carried[..i + 1], digits[i + 1..];
    assert digits == pre + low && carried == pre' + low;
    assert pre'[..i] == pre[..i][i - 1 := digits[i - 1] + 1];
    assert Value(pre'[..i]) == Value(pre[..i]) + 1 by {
      assert pre'[..i][..i - 1] == pre[..i][..i - 1];
    }
    assert Value(pre') == Value(pre);
    ValueAppend(pre, low);
    ValueAppend(pre', low);
  }

  /** The character a digit in -2..2 is written as. */
  function DigitChar(d: int): (c: char)
    requires -2 <= d <= 2
    ensures DigitValue(c) == Some(d) && IsSnafuDigit(c)
  {
    match d
    case 2 => '2'
    case 1 => '1'
    case 0 => '0'
    case -1 => '-'
    case -2 => '='
  }

  predicate Balanced(digits: seq<int>)
  {
    forall i :: 0 <= i < |digits| ==> -2 <= digits[i] <= 2
  }

  function ToChars(digits: seq<int>): (s: string)
    requires Balanced(digits)
    ensures |s| == |digits|
    ensures forall i :: 0 <= i < |s| ==> s[i] == DigitChar(digits[i])
  {
    if digits == [] then [] else ToChars(digits[..|digits| - 1]) + [DigitChar(digits[|digits| - 1])]
  }

  /** `TrimStart('0')`. */
  function TrimLeadingZeros(s: string): (t: string)
    ensures |t| <= |s| && t == s[|s| - |t|..]
    ensures t == [] || t[0] != '0'
    ensures forall i :: 0 <= i < |s| - |t| ==> s[i] == '0'
  {
    if s != [] && s[0] == '0' then TrimLeadingZeros(s[1..]) else s
  }

  /** Written out, a balanced digit list reads back as its value. */
  lemma {:induction false} ToCharsReadsBack(digits: seq<int>)
    requires Balanced(digits)
    ensures SnafuValue(ToChars(digits)) == Success(Value(digits))
    decreases |digits|
  {
    if digits != [] {
      var init := digits[..|digits| - 1];
      ToCharsReadsBack(init);
      var d := digits[|digits| - 1];
      var s := ToChars(digits);
      assert s == ToChars(init) + [DigitChar(d)];
      assert s[..|s| - 1] == ToChars(init);
      assert DigitValue(s[|s| - 1]) == Some(d);
      assert Value(digits) == 5 * Value(init) + d;
    }
  }

  lemma {:induction false} ZerosAreWorthZero(zeros: seq<int>)
    requires forall i :: 0 <= i < |zeros| ==> zeros[i] == 0
    ensures Value(zeros) == 0
    decreases |zeros|
  {
    if zeros != [] {
      ZerosAreWorthZero(zeros[..|zeros| - 1]);
    }
  }

  /**
   * Trimming the leading '0' characters of a written digit list writes the
   * digits after its leading zeros, which are worth the same.
   */
  lemma TrimmedReadsBack(digits: seq<int>)
    requires Balanced(digits)
    ensures SnafuValue(TrimLeadingZeros(ToChars(digits))) == Success(Value(digits))
  {
    var k := TrimmedDigits(digits);
    var zeros, rest := digits[..k], digits[k..];
    BalancedSplit(digits, k);
    ZerosAreWorthZero(zeros);
    ValueAppend(zeros, rest);
    ToCharsReadsBack(rest);
  }

  /** Both parts of a balanced digit list are balanced, and together they are the list. */
  lemma BalancedSplit(digits: seq<int>, k: nat)
    requires Balanced(digits) && k <= |digits|
    ensures digits == digits[..k] + digits[k..]
    ensures Balanced(digits[..k]) && Balanced(digits[k..])
  {
  }

  /** The trimmed characters are the digits after the `k` leading zeros, written out. */
  lemma TrimmedDigits(digits: seq<int>) returns (k: nat)
    requires Balanced(digits)
    ensures k <= |digits| && TrimLeadingZeros(ToChars(digits)) == ToChars(digits[k..])
    ensures forall i :: 0 <= i < k ==> digits[..k][i] == 0
  {
    var chars := ToChars(digits);
    k := |chars| - |TrimLeadingZeros(chars)|;
    forall i | 0 <= i < k
      ensures digits[..k][i] == 0
    {
      assert chars[i] == '0' == DigitChar(digits[i]);
    }
    assert ToChars(digits[k..]) == chars[k..];
  }

  /**
   * `IntToSnafu` for a positive value: greedy base-5 digits from 5^pow down,
   * then carries from the least significant digit so every digit lands in
   * -2..2, then the characters with leading zeros trimmed. The result reads
   * back as the value, uses only SNAFU digits and has no leading '0'.
   */
  method IntToSnafu(value: int) returns (s: string)
    requires value > 0
    ensures SnafuValue(s) == Success(value)
    ensures forall i :: 0 <= i < |s| ==> IsSnafuDigit(s[i])
    ensures s != [] && s[0] != '0'
  {
    var pow := CeilLog5(value);
    var digits := Greedy(value, pow);
    digits := Carry(digits);
    var chars := ToChars(digits);
    s := TrimLeadingZeros(chars);
    TrimmedReadsBack(digits);
    var k := TrimmedDigits(digits);
  }

  /** How many times `d` fits into `rest`, by repeated subtraction, and what is left. */
  method CountFits(rest: nat, d: nat) returns (c: nat, left: nat)
    requires d > 0
    ensures rest == c * d + left && left < d
  {
    c, left := 0, rest;
    while left >= d
      invariant rest == c * d + left
    {
      c, left := c + 1, left - d;
    }
  }

  lemma FewFits(c: nat, d: nat, left: nat, m: nat)
    requires d > 0 && c * d + left < (m + 1) * d
    ensures c <= m
  {
  }

  /** The greedy pass: each digit counts how many times its power of 5 still fits. */
  method Greedy(value: int, pow: nat) returns (digits: seq<int>)
    requires 0 < value <= Pow5(pow)
    ensures |digits| == pow + 1 && Value(digits) == value
    ensures forall i :: 0 <= i < |digits| ==> 0 <= digits[i] <= 4
    ensures digits[0] <= 1
  {
    var rest: nat := value;
    digits := [];
    var k: nat := pow + 1;
    while k > 0
      invariant k <= pow + 1 && |digits| == pow + 1 - k
      invariant k == pow + 1 ==> rest == value
      invariant k <= pow ==> rest < Pow5(k)
      invariant Value(digits) * Pow5(k) + rest == value
      invariant forall i :: 0 <= i < |digits| ==> 0 <= digits[i] <= 4
      invariant |digits| > 0 ==> digits[0] <= 1
    {
      var digitValue := Pow5(k - 1);
      var c, left := CountFits(rest, digitValue);
      if k == pow + 1 {
        FewFits(c, digitValue, left, 1);
      } else {
        FewFits(c, digitValue, left, 4);
      }
      DigitStep(digits, c, digitValue, left);
      digits := digits + [c];
      rest := left;
      k := k - 1;
    }
  }

  lemma DigitStep(digits: seq<int>, c: int, d: int, left: int)
    ensures Value(digits + [c]) * d + left == Value(digits) * (5 * d) + (c * d + left)
  {
    assert (digits + [c])[..|digits|] == digits;
    assert (5 * Value(digits) + c) * d == Value(digits) * (5 * d) + c * d;
  }

  /**
   * The carry pass, from the last digit to the second: while a digit exceeds 2,
   * subtract 5 from it and add 1 to the digit before. Every digit ends in -2..2
   * and the value is unchanged.
   */
  method Carry(digits0: seq<int>) returns (digits: seq<int>)
    requires |digits0| > 0 && digits0[0] <= 1
    requires forall i :: 0 <= i < |digits0| ==> 0 <= digits0[i] <= 4
    ensures |digits| == |digits0| && Value(digits) == Value(digits0)
    ensures Balanced(digits)
  {
    digits := digits0;
    var i := |digits| - 1;
    while i >= 1
      invariant 0 <= i < |digits| == |digits0| && Value(digits) == Value(digits0)
      invariant forall j :: 0 <= j < i ==> 0 <= digits[j] <= 4
      invariant 0 <= digits[i] <= 5 && digits[0] <= 2 && (i >= 1 ==> digits[0] <= 1)
      invariant forall j :: i < j < |digits| ==> -2 <= digits[j] <= 2
    {
      ghost var before := digits;
      while digits[i] > 2
        invariant |digits| == |digits0| && Value(digits) == Value(digits0)
        invariant digits == before || (before[i] > 2 && digits == before[i := before[i] - 5][i - 1 := before[i - 1] + 1])
        decreases digits[i]
      {
        CarryKeepsValue(digits, i);
        digits := digits[i := digits[i] - 5][i - 1 := digits[i - 1] + 1];
      }
      i := i - 1;
    }
  }

  /** Round trip: for every positive value, reading back `IntToSnafu` gives the value. */
  method RoundTrip(value: int) returns (back: Result<int>)
    requires value > 0
    ensures back == Success(value)
  {
    var s := IntToSnafu(value);
    back := SnafuToInt(s);
  }
}
