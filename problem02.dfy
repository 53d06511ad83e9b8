/**
 * Day 2: rock, paper, scissors. Each round is a pair of letters; the two
 * plans read the second letter as a shape or as the wanted outcome. Scores
 * accumulate in C# `int`s.
 */
module Problem02 {
  import opened Wrappers
  import opened Numerics

  /** A `switch` expression with no matching arm throws. */
  const NoMatch := SwitchExpressionException

  /** The easy plan: X, Y, Z are rock, paper, scissors. */
  function BasicScore(them: char, me: char): (r: Result<int>)
    ensures r.Success? <==> me in "XYZ" && them in "ABC"
    ensures r.Success? ==> 1 <= r.value <= 9
  {
    if me !in "XYZ" || them !in "ABC" then Failure(NoMatch)
    else if me == 'X' then Success(1 + (if them == 'A' then 3 else if them == 'B' then 0 else 6))
    else if me == 'Y' then Success(2 + (if them == 'A' then 6 else if them == 'B' then 3 else 0))
    else Success(3 + (if them == 'A' then 0 else if them == 'B' then 6 else 3))
  }

  /** The complicated plan: X, Y, Z are lose, draw, win, scored with the reply that achieves it. */
  function ComplicatedScore(them: char, me: char): (r: Result<int>)
    ensures r.Success? <==> me in "XYZ" && them in "ABC"
    ensures r.Success? ==> 1 <= r.value <= 9
  {
    if me !in "XYZ" || them !in "ABC" then Failure(NoMatch)
    else if me == 'X' then Success(0 + (if them == 'A' then 3 else if them == 'B' then 1 else 2))
    else if me == 'Y' then Success(3 + (if them == 'A' then 1 else if them == 'B' then 2 else 3))
    else Success(6 + (if them == 'A' then 2 else if them == 'B' then 3 else 1))
  }

  // An independent statement of the game: shapes 0, 1, 2 are rock, paper,
  // scissors, and each shape beats the one before it, cyclically.

  function Shape(c: char): nat
    requires c in "ABCXYZ"
  {
    if c == 'A' || c == 'X' then 0 else if c == 'B' || c == 'Y' then 1 else 2
  }

  /** Points for the outcome of playing `mine` against `theirs`: 6 win, 3 draw, 0 loss. */
  function Outcome(mine: nat, theirs: nat): nat
    requires mine < 3 && theirs < 3
  {
    if mine == theirs then 3 else if mine == (theirs + 1) % 3 then 6 else 0
  }

  /** The wanted outcome in the complicated plan. */
  function Target(me: char): nat
    requires me in "XYZ"
  {
    if me == 'X' then 0 else if me == 'Y' then 3 else 6
  }

  /** The easy score is the shape value plus the outcome of playing that shape. */
  lemma BasicScoreIsShapePlusOutcome(them: char, me: char)
    requires them in "ABC" && me in "XYZ"
    ensures BasicScore(them, me) == Success(Shape(me) + 1 + Outcome(Shape(me), Shape(them)))
  {
  }

  /** The complicated score is the wanted outcome plus the value of a reply that achieves it. */
  lemma ComplicatedScoreAchievesTarget(them: char, me: char)
    requires them in "ABC" && me in "XYZ"
    ensures var reply := ComplicatedScore(them, me).value - Target(me) - 1;
      && 0 <= reply < 3
      && Outcome(reply, Shape(them)) == Target(me)
  {
  }

  /** The exact totals of both plans, failing on the first bad round. */
  function Totals(rounds: seq<(char, char)>): (r: Result<(int, int)>)
    ensures r.Success? <==> forall k :: 0 <= k < |rounds| ==> rounds[k].1 in "XYZ" && rounds[k].0 in "ABC"
    ensures r.Success? ==> |rounds| <= r.value.0 <= 9 * |rounds| && |rounds| <= r.value.1 <= 9 * |rounds|
  {
    if rounds == [] then Success((0, 0))
    else
      var init := rounds[..|rounds| - 1];
      var last := rounds[|rounds| - 1];
      match Totals(init)
      case Failure(e) => Failure(e)
      case Success((basic, complicated)) =>
        if BasicScore(last.0, last.1).Failure? then Failure(NoMatch)
        else
          assert forall k :: 0 <= k < |init| ==> init[k] == rounds[k];
          Success((basic + BasicScore(last.0, last.1).value, complicated + ComplicatedScore(last.0, last.1).value))
  }

  /** The round loop: the `int` totals are the exact totals wrapped to 32 bits. */
  method ScoreRounds(rounds: seq<(char, char)>) returns (r: Result<(int, int)>)
    ensures r.Success? <==> Totals(rounds).Success?
    ensures r.Success? ==> r.value == (Wrap32(Totals(rounds).value.0), Wrap32(Totals(rounds).value.1))
  {
    var totals := (0, 0);
    var i := 0;
    while i < |rounds|
      invariant 0 <= i <= |rounds|
      invariant Totals(rounds[..i]).Success?
      invariant totals == (Wrap32(Totals(rounds[..i]).value.0), Wrap32(Totals(rounds[..i]).value.1))
    {
      var next := ScoreRound(rounds, i, totals);
      if next.Failure? {
        return Failure(next.error);
      }
      totals := next.value;
      i := i + 1;
    }
    assert rounds[..i] == rounds;
    return Success(totals);
  }

  /** One turn of the loop: both scores of round `i` added to the running `int` totals. */
  method ScoreRound(rounds: seq<(char, char)>, i: nat, totals: (int, int)) returns (r: Result<(int, int)>)
    requires i < |rounds| && Totals(rounds[..i]).Success?
    requires totals == (Wrap32(Totals(rounds[..i]).value.0), Wrap32(Totals(rounds[..i]).value.1))
    ensures r.Failure? ==> Totals(rounds).Failure?
    ensures r.Success? ==>
      && Totals(rounds[..i + 1]).Success?
      && r.value == (Wrap32(Totals(rounds[..i + 1]).value.0), Wrap32(Totals(rounds[..i + 1]).value.1))
  {
    var (them, me) := rounds[i];
    var b := BasicScore(them, me);
    if b.Failure? {
      FailureStays(rounds, i);
      return Failure(b.error);
    }
    var c := ComplicatedScore(them, me);
    TotalsStep(rounds, i);
    Wrap32Accumulates(Totals(rounds[..i]).value.0, b.value);
    Wrap32Accumulates(Totals(rounds[..i]).value.1, c.value);
    return Success((Wrap32(totals.0 + b.value), Wrap32(totals.1 + c.value)));
  }

  /** One more good round adds its scores. */
  lemma TotalsStep(rounds: seq<(char, char)>, i: nat)
    requires i < |rounds| && Totals(rounds[..i]).Success?
    requires BasicScore(rounds[i].0, rounds[i].1).Success?
    ensures var t := Totals(rounds[..i]).value;
      var b := BasicScore(rounds[i].0, rounds[i].1).value;
      var c := ComplicatedScore(rounds[i].0, rounds[i].1).value;
      Totals(rounds[..i + 1]) == Success((t.0 + b, t.1 + c))
  {
    assert rounds[..i + 1][..i] == rounds[..i];
  }

  /** A bad round makes the whole input fail. */
  lemma FailureStays(rounds: seq<(char, char)>, i: nat)
    requires i < |rounds| && BasicScore(rounds[i].0, rounds[i].1).Failure?
    ensures Totals(rounds).Failure?
  {
  }

  /** With fewer than 2^31 / 9 rounds neither total wraps. */
  lemma SmallInputsDoNotWrap(rounds: seq<(char, char)>)
    requires Totals(rounds).Success? && 9 * |rounds| < 0x8000_0000
    ensures Wrap32(Totals(rounds).value.0) == Totals(rounds).value.0
    ensures Wrap32(Totals(rounds).value.1) == Totals(rounds).value.1
  {
  }
}
