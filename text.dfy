/**
 * The string handling the solvers lean on: `string.Split(char)`,
 * `StartsWith`, and `int.Parse` on decimal text.
 */
module Text {
  import opened Wrappers
  import opened Numerics

  const FormatError := FormatException
  const OverflowError := OverflowException

  /** `char.IsDigit`, for the ASCII digits. */
  predicate IsDigit(c: char) { '0' <= c <= '9' }

  predicate AllDigits(s: string)
  {
    forall i :: 0 <= i < |s| ==> IsDigit(s[i])
  }

  function DigitOf(c: char): nat
    requires IsDigit(c)
  {
    c as int - '0' as int
  }

  /** The number a string of decimal digits spells, most significant first. */
  function DecimalValue(s: string): nat
    requires AllDigits(s)
  {
    if s == [] then 0 else 10 * DecimalValue(s[..|s| - 1]) + DigitOf(s[|s| - 1])
  }

  /** The decimal digits of `n`, most significant first. */
  function Decimal(n: nat): (s: string)
    ensures s != [] && AllDigits(s)
    ensures DecimalValue(s) == n
  {
    var d := [(n % 10 + '0' as int) as char];
    if n < 10 then d
    else
      var s := Decimal(n / 10) + d;
      assert s[..|s| - 1] == Decimal(n / 10);
      s
  }

  /** `s.StartsWith(prefix)`, ordinal. */
  predicate StartsWith(s: string, prefix: string)
  {
    |prefix| <= |s| && s[..|prefix|] == prefix
  }

  /** `s.Split(sep)`: the pieces between the separators, empty pieces kept. */
  function Split(s: string, sep: char): (r: seq<string>)
    ensures |r| >= 1
    ensures forall i :: 0 <= i < |r| ==> sep !in r[i]
  {
    if s == [] then [""]
    else
      var rest := Split(s[1..], sep);
      if s[0] == sep then [""] + rest
      else [[s[0]] + rest[0]] + rest[1..]
  }

  /** `string.Join(sep, pieces)`. */
  function Joined(pieces: seq<string>, sep: char): string
    requires |pieces| >= 1
  {
    if |pieces| == 1 then pieces[0]
    else pieces[0] + [sep] + Joined(pieces[1..], sep)
  }

  /** Joining the pieces of a split gives the string back. */
  lemma {:induction false} JoinedSplit(s: string, sep: char)
    ensures Joined(Split(s, sep), sep) == s
  {
    if s != [] {
      var rest := Split(s[1..], sep);
      JoinedSplit(s[1..], sep);
      if s[0] == sep {
        assert Split(s, sep)[1..] == rest;
      } else if |rest| == 1 {
        assert Split(s, sep) == [[s[0]] + rest[0]];
      } else {
        var r := Split(s, sep);
        assert r[1..] == rest[1..];
        assert Joined(rest, sep) == rest[0] + [sep] + Joined(rest[1..], sep);
      }
    }
  }

  /** Splitting pieces joined by a separator none of them contains gives the pieces back. */
  lemma {:induction false} SplitJoined(pieces: seq<string>, sep: char)
    requires |pieces| >= 1
    requires forall i :: 0 <= i < |pieces| ==> sep !in pieces[i]
    ensures Split(Joined(pieces, sep), sep) == pieces
    decreases |pieces|, |pieces[0]|
  {
    var p := pieces[0];
    if |pieces| == 1 {
      SplitPiece(p, sep);
    } else {
      var tail := Joined(pieces[1..], sep);
      SplitJoined(pieces[1..], sep);
      SplitPrefix(p, tail, sep);
    }
  }

  /** A separator-free string is one piece. */
  lemma {:induction false} SplitPiece(p: string, sep: char)
    requires sep !in p
    ensures Split(p, sep) == [p]
    decreases |p|
  {
    if p != [] {
      SplitPiece(p[1..], sep);
      assert [p[0]] + p[1..] == p;
    }
  }

  /** A separator-free piece in front of a separator becomes the first piece. */
  lemma {:induction false} SplitPrefix(p: string, tail: string, sep: char)
    requires sep !in p
    ensures Split(p + [sep] + tail, sep) == [p] + Split(tail, sep)
    decreases |p|
  {
    var s := p + [sep] + tail;
    if p == [] {
      assert s[1..] == tail;
    } else {
      assert s[1..] == p[1..] + [sep] + tail;
      SplitPrefix(p[1..], tail, sep);
      assert [p[0]] + p[1..] == p;
    }
  }

  /** Text `int.Parse` accepts: an optional sign, then at least one digit. */
  predicate IsNumber(s: string)
  {
    var digits := if s != [] && (s[0] == '-' || s[0] == '+') then s[1..] else s;
    digits != [] && AllDigits(digits)
  }

  /** The value a number's text stands for: its digits' value, negated after a minus sign. */
  function NumberValue(s: string): int
    requires IsNumber(s)
  {
    if s[0] == '-' then -(DecimalValue(s[1..]) as int)
    else if s[0] == '+' then DecimalValue(s[1..])
    else DecimalValue(s)
  }

  /**
   * `int.Parse(s)`: the signed decimal value, `FormatException` for text
   * that is not a number and `OverflowException` for one outside `int`.
   */
  function ParseInt(s: string): (r: Result<int>)
    ensures r.Success? ==> IsNumber(s) && IsInt32(r.value)
    ensures r == Failure(FormatError) <==> !IsNumber(s)
    ensures r.Failure? ==> r.error == FormatError || r.error == OverflowError
    ensures IsNumber(s) && IsInt32(NumberValue(s)) ==> r == Success(NumberValue(s))
    ensures IsNumber(s) && !IsInt32(NumberValue(s)) ==> r == Failure(OverflowError)
  {
    var negative := s != [] && s[0] == '-';
    var digits := if s != [] && (s[0] == '-' || s[0] == '+') then s[1..] else s;
    if digits == [] || !AllDigits(digits) then Failure(FormatError)
    else
      var magnitude: int := DecimalValue(digits);
      var v := if negative then -magnitude else magnitude;
      if IsInt32(v) then Success(v) else Failure(OverflowError)
  }

  /** `n.ToString()`: a minus sign for negative values, then the digits. */
  function Signed(n: int): string
  {
    if n < 0 then "-" + Decimal(-n) else Decimal(n)
  }

  /** `int.Parse` reads back every `int` as written. */
  lemma ParseSigned(n: int)
    requires IsInt32(n)
    ensures ParseInt(Signed(n)) == Success(n)
  {
    if n < 0 {
      assert Signed(n)[1..] == Decimal(-n);
    } else {
      assert Signed(n)[0] != '-' && Signed(n)[0] != '+';
    }
  }
}
