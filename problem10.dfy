/**
 * Day 10: a CPU with one register X, starting at 1. `noop` takes one cycle
 * and `addx n` two, after which X grows by n. Each instruction object counts
 * its remaining `Delay` down on every `TryExecute` and takes effect when it
 * runs out. The program runs the instructions twice: once summing the signal
 * strength (cycle times X) at cycles 20, 60, ..., 220, and once drawing 240
 * pixels, each lit when X is within one of the pixel's column.
 */
module Problem10 {
  import opened Wrappers
  import opened Numerics
  import opened Text


  /** The two instruction classes: `DelayInstruction` (noop) and `AddXInstruction`. */
  datatype Op = Noop | AddX(amount: int)

  /** The delay each instruction class passes to the base constructor. */
  function Cycles(op: Op): nat
  {
    match op
    case Noop => 1
    case AddX(_) => 2
  }

  /** What an instruction's `Execute` does to X: noop nothing, addx `+=` its amount with `int` wrap-around. */
  function Apply(op: Op, x: int): (r: int)
    ensures op.Noop? ==> r == x
    ensures op.AddX? && IsInt32(x + op.amount) ==> r == x + op.amount
    ensures op.AddX? ==> IsInt32(r)
  {
    match op
    case Noop => x
    case AddX(a) => Wrap32(x + a)
  }

  // ---------------------------------------------------------------------
  // The machine's objects
  // ---------------------------------------------------------------------

  /** `ExecutionState`: the register dictionary, holding X = 1 at the start. */
  class ExecutionState {
    var registers: map<string, int>

    constructor()
      ensures registers == map["X" := 1]
    {
      registers := map["X" := 1];
    }

    predicate Valid()
      reads this
    {
      "X" in registers
    }
  }

  /** An instruction object with its remaining `Delay`. */
  class Instruction {
    const op: Op
    var delay: int

    constructor(op: Op)
      ensures this.op == op && delay == Cycles(op)
    {
      this.op := op;
      delay := Cycles(op);
    }

    /** `Execute`: the instruction's effect on the state. */
    method Execute(state: ExecutionState)
      requires state.Valid()
      modifies state
      ensures state.registers == old(state.registers)["X" := Apply(op, old(state.registers["X"]))]
    {
      match op {
        case Noop =>
        case AddX(amount) =>
          state.registers := state.registers["X" := Wrap32(state.registers["X"] + amount)];
      }
    }

    /** `TryExecute`: one cycle; the delay drops by one, and the effect happens once it is no longer positive. */
    method TryExecute(state: ExecutionState) returns (done: bool)
      requires state.Valid()
      modifies this, state
      ensures delay == old(delay) - 1
      ensures done <==> delay <= 0
      ensures state.registers == if done then old(state.registers)["X" := Apply(op, old(state.registers["X"]))]
        else old(state.registers)
    {
      delay := delay - 1;
      if delay > 0 {
        return false;
      }
      Execute(state);
      return true;
    }
  }

  // ---------------------------------------------------------------------
  // Parsing
  // ---------------------------------------------------------------------

  /** `ParseInstruction`: the first word picks the class; `addx` reads its amount from the second word. */
  function ParseInstruction(line: string): (r: Result<Op>)
    ensures r.Success? ==> Split(line, ' ')[0] in {"noop", "addx"}
    ensures r == Failure(ArgumentOutOfRangeException) <==> Split(line, ' ')[0] !in {"noop", "addx"}
  {
    var parts := Split(line, ' ');
    if parts[0] == "noop" then Success(Noop)
    else if parts[0] == "addx" then
      if |parts| < 2 then Failure(IndexOutOfRangeException)
      else
        match ParseInt(parts[1])
        case Failure(e) => Failure(e)
        case Success(n) => Success(AddX(n))
    else Failure(ArgumentOutOfRangeException)
  }

  /** "noop" and "addx n" for every `int` n parse to their instructions. */
  lemma ParseWritten(n: int)
    requires IsInt32(n)
    ensures ParseInstruction("noop") == Success(Noop)
    ensures ParseInstruction("addx " + Signed(n)) == Success(AddX(n))
  {
    SplitPiece("noop", ' ');
    var s := Signed(n);
    assert ' ' !in s by {
      if n < 0 {
        assert s == "-" + Decimal(-n);
      }
    }
    assert "addx " + s == "addx" + [' '] + s;
    SplitPrefix("addx", s, ' ');
    SplitPiece(s, ' ');
    ParseSigned(n);
  }

  // ---------------------------------------------------------------------
  // Cycles
  // ---------------------------------------------------------------------

  /** X after the instructions `ops` have all completed. */
  function XAfter(ops: seq<Op>): (x: int)
    ensures IsInt32(x)
  {
    if |ops| == 0 then 1 else Apply(ops[|ops| - 1], XAfter(ops[..|ops| - 1]))
  }

  /** `n` cycles that all see X = `x`. */
  function Repeat(x: int, n: nat): (r: seq<int>)
    ensures |r| == n && forall i :: 0 <= i < n ==> r[i] == x
  {
    if n == 0 then [] else Repeat(x, n - 1) + [x]
  }

  /** X during each cycle: an instruction's cycles all see X as it was before the instruction. */
  function Trace(ops: seq<Op>): (t: seq<int>)
    ensures |ops| <= |t| <= 2 * |ops|
    ensures forall i :: 0 <= i < |t| ==> IsInt32(t[i])
  {
    if |ops| == 0 then []
    else
      var init := ops[..|ops| - 1];
      Trace(init) + Repeat(XAfter(init), Cycles(ops[|ops| - 1]))
  }

  /** One more instruction: its cycles see X as the earlier ones left it, and then it applies its effect. */
  lemma TraceSnoc(ops: seq<Op>, op: Op)
    ensures Trace(ops + [op]) == Trace(ops) + Repeat(XAfter(ops), Cycles(op))
    ensures XAfter(ops + [op]) == Apply(op, XAfter(ops))
  {
    assert (ops + [op])[..|ops|] == ops;
  }

  /** The sum of the `addx` amounts. */
  function Added(ops: seq<Op>): int
  {
    if |ops| == 0 then 0
    else Added(ops[..|ops| - 1]) + (match ops[|ops| - 1] case Noop => 0 case AddX(a) => a)
  }

  /** Without overflow, X is 1 plus the sum of the `addx` amounts. */
  lemma {:induction false} XAfterAdds(ops: seq<Op>)
    requires forall n :: 0 <= n <= |ops| ==> IsInt32(1 + Added(ops[..n]))
    ensures XAfter(ops) == 1 + Added(ops)
  {
    if |ops| > 0 {
      var init := ops[..|ops| - 1];
      forall n | 0 <= n <= |init|
        ensures IsInt32(1 + Added(init[..n]))
      {
        assert init[..n] == ops[..n];
      }
      XAfterAdds(init);
      assert ops[..|ops|] == ops;
    }
  }

  /** Running more instructions only extends the trace. */
  lemma {:induction false} TracePrefix(a: seq<Op>, b: seq<Op>)
    requires a <= b
    ensures Trace(a) <= Trace(b)
    decreases |b|
  {
    if |a| < |b| {
      var init := b[..|b| - 1];
      assert a <= init;
      TracePrefix(a, init);
    } else {
      assert a == b;
    }
  }

  /** Every cycle of instruction `k` sees X as it was before `k`, i.e. after instructions 0 to k - 1. */
  lemma TraceDuring(ops: seq<Op>, k: int, j: int)
    requires 0 <= k < |ops| && 0 <= j < Cycles(ops[k])
    ensures |Trace(ops[..k])| + j < |Trace(ops)|
    ensures Trace(ops)[|Trace(ops[..k])| + j] == XAfter(ops[..k])
  {
    var upto := ops[..k + 1];
    assert upto[..k] == ops[..k];
    TracePrefix(upto, ops);
  }

  // ---------------------------------------------------------------------
  // The signal strength
  // ---------------------------------------------------------------------

  /** The `checkPoints` list the sequential run starts with. */
  const CheckPoints: seq<int> := [20, 60, 100, 140, 180, 220]

  predicate Increasing(s: seq<int>)
  {
    forall i, j :: 0 <= i < j < |s| ==> s[i] < s[j]
  }

  /** The checkpoints still in the list when the cycle counter is at `ip`: those below `ip` gone from the front. */
  function From(cps: seq<int>, ip: int): seq<int>
  {
    if |cps| == 0 || cps[0] >= ip then cps else From(cps[1..], ip)
  }

  /**
   * In an increasing list the head of the remaining checkpoints is the cycle
   * counter exactly when the counter is a checkpoint, and moving the counter
   * on removes that head and nothing else.
   */
  lemma {:induction false} FromStep(cps: seq<int>, ip: int)
    requires Increasing(cps)
    ensures (|From(cps, ip)| > 0 && From(cps, ip)[0] == ip) <==> ip in cps
    ensures From(cps, ip + 1) ==
      if |From(cps, ip)| > 0 && From(cps, ip)[0] == ip then From(cps, ip)[1..] else From(cps, ip)
  {
    if |cps| > 0 {
      if cps[0] >= ip {
        if cps[0] > ip {
          assert ip !in cps by {
            forall i | 0 <= i < |cps|
              ensures cps[i] != ip
            {
              if i > 0 {
                assert cps[0] < cps[i];
              }
            }
          }
        } else if |cps| > 1 {
          assert cps[0] < cps[1];
        }
      } else {
        FromStep(cps[1..], ip);
        assert cps == [cps[0]] + cps[1..];
      }
    }
  }

  lemma CheckPointsIncreasing()
    ensures Increasing(CheckPoints)
  {
  }

  /** `c * X` during cycle c of the trace `t`, in `int` arithmetic; a cycle outside the trace contributes nothing. */
  function Product(t: seq<int>, c: int): int
  {
    if 1 <= c <= |t| then Wrap32(c * t[c - 1]) else 0
  }

  /** The strength after the checks of cycles 1 to n: each checkpoint cycle c in `cps` adds its product, `c * X`, in `int` arithmetic. */
  function SignalUpTo(t: seq<int>, cps: seq<int>, n: nat): (strength: int)
    requires n <= |t|
    ensures IsInt32(strength)
  {
    if n == 0 then 0
    else if n in cps then Wrap32(SignalUpTo(t, cps, n - 1) + Product(t, n))
    else SignalUpTo(t, cps, n - 1)
  }

  /** Cycle n adds its product to the strength exactly when it is a checkpoint. */
  lemma SignalNext(t: seq<int>, cps: seq<int>, n: nat)
    requires 0 < n <= |t|
    ensures SignalUpTo(t, cps, n) == if n in cps then Wrap32(SignalUpTo(t, cps, n - 1) + Product(t, n)) else SignalUpTo(t, cps, n - 1)
  {
  }

  /** The strength only looks at the cycles it has passed. */
  lemma {:induction false} SignalPrefix(t: seq<int>, u: seq<int>, cps: seq<int>, n: nat)
    requires n <= |t| && t <= u
    ensures SignalUpTo(t, cps, n) == SignalUpTo(u, cps, n)
  {
    if n > 0 {
      SignalPrefix(t, u, cps, n - 1);
    }
  }

  /** The checkpoints among `cps` that cycle `n` has reached, in order. */
  function Reached(cps: seq<int>, n: int): (r: seq<int>)
    ensures forall i :: 0 <= i < |r| ==> r[i] in cps && r[i] <= n
  {
    if |cps| == 0 then []
    else
      var last := cps[|cps| - 1];
      var init := cps[..|cps| - 1];
      assert forall c :: c in init ==> c in cps;
      Reached(init, n) + (if last <= n then [last] else [])
  }

  /** In an increasing list, cycle `n` reaches one more checkpoint exactly when it is one. */
  lemma {:induction false} ReachedStep(cps: seq<int>, n: int)
    requires Increasing(cps)
    ensures Reached(cps, n) == Reached(cps, n - 1) + (if n in cps then [n] else [])
  {
    if |cps| > 0 {
      var last := cps[|cps| - 1];
      var init := cps[..|cps| - 1];
      ReachedStep(init, n);
      assert n in cps <==> n in init || n == last;
      if n in init {
        var i :| 0 <= i < |init| && init[i] == n;
        assert cps[i] < last;
      }
    }
  }

  /** Before the first cycle no checkpoint of a list of positive cycles is reached. */
  lemma {:induction false} ReachedNone(cps: seq<int>)
    requires forall i :: 0 <= i < |cps| ==> cps[i] >= 1
    ensures Reached(cps, 0) == []
  {
    if |cps| > 0 {
      ReachedNone(cps[..|cps| - 1]);
    }
  }

  /** Once every checkpoint is reached, all of them are, in order. */
  lemma {:induction false} ReachedAll(cps: seq<int>, n: int)
    requires forall i :: 0 <= i < |cps| ==> cps[i] <= n
    ensures Reached(cps, n) == cps
  {
    if |cps| > 0 {
      ReachedAll(cps[..|cps| - 1], n);
    }
  }

  /** A reference for the strength: the products of the checkpoints in `cps`, summed in order in `int` arithmetic. */
  function CheckSum(t: seq<int>, cps: seq<int>): int
  {
    if |cps| == 0 then 0
    else Wrap32(CheckSum(t, cps[..|cps| - 1]) + Product(t, cps[|cps| - 1]))
  }

  /** Reaching one more checkpoint adds its product to the reference sum. */
  lemma CheckSumSnoc(t: seq<int>, r: seq<int>, c: int)
    ensures CheckSum(t, r + [c]) == Wrap32(CheckSum(t, r) + Product(t, c))
  {
    assert (r + [c])[..|r|] == r;
  }

  /** A checkpoint cycle adds its product both to the strength and to the reference sum. */
  lemma SignalHit(t: seq<int>, cps: seq<int>, n: nat, r: seq<int>)
    requires 0 < n <= |t| && n in cps && SignalUpTo(t, cps, n - 1) == CheckSum(t, r)
    ensures SignalUpTo(t, cps, n) == CheckSum(t, r + [n])
  {
    assert SignalUpTo(t, cps, n) == Wrap32(SignalUpTo(t, cps, n - 1) + Product(t, n));
    CheckSumSnoc(t, r, n);
  }

  /** After n cycles the strength is the reference sum over the checkpoints reached. */
  lemma {:induction false} SignalIsCheckSum(t: seq<int>, cps: seq<int>, n: nat)
    requires n <= |t| && Increasing(cps) && forall i :: 0 <= i < |cps| ==> cps[i] >= 1
    ensures SignalUpTo(t, cps, n) == CheckSum(t, Reached(cps, n))
  {
    if n > 0 {
      SignalIsCheckSum(t, cps, n - 1);
      ReachedStep(cps, n);
      var r := Reached(cps, n - 1);
      if n in cps {
        assert Reached(cps, n) == r + [n];
        SignalHit(t, cps, n, r);
      } else {
        assert Reached(cps, n) == r;
        assert SignalUpTo(t, cps, n) == SignalUpTo(t, cps, n - 1);
      }
    } else {
      ReachedNone(cps);
    }
  }

  /**
   * A run of at least 220 cycles adds `c * X` exactly once for each of the
   * six checkpoints c, in order: the strength is the reference sum over all
   * of them.
   */
  lemma SignalAtCheckPoints(t: seq<int>)
    requires |t| >= 220
    ensures SignalUpTo(t, CheckPoints, |t|) == CheckSum(t, CheckPoints)
  {
    CheckPointsIncreasing();
    SignalIsCheckSum(t, CheckPoints, |t|);
    ReachedAll(CheckPoints, |t|);
  }

  /** Each line as `ParseInstruction` reads it; the drawing run reads them in order. */
  function Decoded(lines: seq<string>): (code: seq<Result<Op>>)
    ensures |code| == |lines|
  {
    seq(|lines|, i requires 0 <= i < |lines| => ParseInstruction(lines[i]))
  }

  /** The instructions of all of `code`, or its first parse error. */
  function ParseAll(code: seq<Result<Op>>): Result<seq<Op>>
  {
    if |code| == 0 then Success([])
    else
      match ParseAll(code[..|code| - 1])
      case Failure(e) => Failure(e)
      case Success(ops) =>
        match code[|code| - 1]
        case Failure(e) => Failure(e)
        case Success(op) => Success(ops + [op])
  }

  /** Reading one more line adds its instruction, or fails with its parse error. */
  lemma ParseAllSnoc(code: seq<Result<Op>>, k: nat)
    requires k < |code| && ParseAll(code[..k]).Success?
    ensures code[k].Success? ==> ParseAll(code[..k + 1]) == Success(ParseAll(code[..k]).value + [code[k].value])
    ensures code[k].Failure? ==> ParseAll(code[..k + 1]) == Failure(code[k].error)
  {
    assert code[..k + 1][..k] == code[..k];
  }

  /** Once a line fails to parse, reading further lines fails with the same exception. */
  lemma {:induction false} ParseAllFailureStays(code: seq<Result<Op>>, m: nat, n: nat)
    requires m <= n <= |code| && ParseAll(code[..m]).Failure?
    ensures ParseAll(code[..n]) == ParseAll(code[..m])
  {
    if m < n {
      ParseAllFailureStays(code, m, n - 1);
      assert code[..n][..n - 1] == code[..n - 1];
    }
  }

  /** The number of lines before the first empty one. */
  function FirstEmpty(lines: seq<string>): (e: nat)
    ensures e <= |lines| && (e < |lines| ==> |lines[e]| == 0)
    ensures forall i :: 0 <= i < e ==> |lines[i]| > 0
  {
    if |lines| == 0 || |lines[0]| == 0 then 0 else 1 + FirstEmpty(lines[1..])
  }

  /** A non-empty line before the first empty one is not the last line read. */
  lemma FirstEmptyPast(lines: seq<string>, k: nat)
    requires k <= FirstEmpty(lines) && k < |lines|
    ensures |lines[k]| > 0 <==> k < FirstEmpty(lines)
  {
  }

  /** The instructions the sequential run executes: the lines before the first empty one, or the first parse error. */
  function Program(lines: seq<string>): Result<seq<Op>>
  {
    ParseAll(Decoded(lines)[..FirstEmpty(lines)])
  }

  /** What the sequential run leaves in `strength` once every instruction has completed. */
  function Sequential(lines: seq<string>): (r: Result<int>)
    ensures r.Failure? <==> Program(lines).Failure?
    ensures r.Success? ==> IsInt32(r.value)
  {
    match Program(lines)
    case Failure(e) => Failure(e)
    case Success(ops) => Success(SignalUpTo(Trace(ops), CheckPoints, |Trace(ops)|))
  }

  /**
   * The cycles of one instruction in the sequential run: the checkpoint
   * test, `ip++` and `TryExecute`, until the instruction completes. `t` is
   * the value of X during each cycle, and this instruction's cycles see `x`.
   */
  method RunInstruction(ins: Instruction, state: ExecutionState, ip0: int, strength0: int, checkPoints0: seq<int>,
                        ghost t: seq<int>, ghost x: int)
      returns (ip: int, strength: int, checkPoints: seq<int>)
    requires state.Valid() && state.registers["X"] == x
    requires ins.delay == Cycles(ins.op)
    requires 1 <= ip0 && ip0 - 1 + Cycles(ins.op) == |t|
    requires forall j :: ip0 - 1 <= j < |t| ==> t[j] == x
    requires checkPoints0 == From(CheckPoints, ip0) && strength0 == SignalUpTo(t, CheckPoints, ip0 - 1)
    modifies ins, state
    ensures state.Valid() && state.registers["X"] == Apply(ins.op, x)
    ensures ip == |t| + 1 && checkPoints == From(CheckPoints, ip)
    ensures strength == SignalUpTo(t, CheckPoints, |t|)
  {
    ip, strength, checkPoints := ip0, strength0, checkPoints0;
    var done := false;
    while !done
      invariant state.Valid()
      invariant ip0 <= ip <= |t| + 1 && ins.delay == |t| + 1 - ip
      invariant done <==> ip == |t| + 1
      invariant state.registers["X"] == if done then Apply(ins.op, x) else x
      invariant checkPoints == From(CheckPoints, ip)
      invariant strength == SignalUpTo(t, CheckPoints, ip - 1)
      decreases |t| + 1 - ip
    {
      CheckPointsIncreasing();
      FromStep(CheckPoints, ip);
      SignalNext(t, CheckPoints, ip);
      if |checkPoints| > 0 && ip == checkPoints[0] {
        var part := Wrap32(ip * state.registers["X"]);
        strength := Wrap32(strength + part);
        checkPoints := checkPoints[1..];
      }
      assert strength == SignalUpTo(t, CheckPoints, ip);
      ip := ip + 1;
      done := ins.TryExecute(state);
    }
  }

  /** One parsed line of the sequential run: a new instruction object, run until it completes. */
  method RunLine(state: ExecutionState, ip0: int, strength0: int, checkPoints0: seq<int>, op: Op, ghost ops: seq<Op>)
      returns (ip: int, strength: int, checkPoints: seq<int>)
    requires state.Valid() && state.registers["X"] == XAfter(ops)
    requires ip0 == |Trace(ops)| + 1 && checkPoints0 == From(CheckPoints, ip0)
    requires strength0 == SignalUpTo(Trace(ops), CheckPoints, ip0 - 1)
    modifies state
    ensures state.Valid() && state.registers["X"] == XAfter(ops + [op])
    ensures ip == |Trace(ops + [op])| + 1 && checkPoints == From(CheckPoints, ip)
    ensures strength == SignalUpTo(Trace(ops + [op]), CheckPoints, ip - 1)
  {
    var ins := new Instruction(op);
    TraceSnoc(ops, op);
    SignalPrefix(Trace(ops), Trace(ops + [op]), CheckPoints, |Trace(ops)|);
    ip, strength, checkPoints := RunInstruction(ins, state, ip0, strength0, checkPoints0,
      Trace(ops + [op]), XAfter(ops));
  }

  /** `RunSequential`: parse and run the lines up to the first empty one, summing the strength at the checkpoints. */
  method RunSequential(lines: seq<string>) returns (r: Result<int>)
    ensures r == Sequential(lines)
  {
    var ip := 1;
    var checkPoints := CheckPoints;
    var strength := 0;
    var state := new ExecutionState();
    ghost var ops: seq<Op> := [];
    ghost var code := Decoded(lines);
    var k := 0;
    assert code[..0] == [];
    while k < |lines|
      invariant k <= FirstEmpty(lines) && ParseAll(code[..k]) == Success(ops)
      invariant state.Valid() && state.registers["X"] == XAfter(ops)
      invariant ip == |Trace(ops)| + 1 && checkPoints == From(CheckPoints, ip)
      invariant strength == SignalUpTo(Trace(ops), CheckPoints, ip - 1)
    {
      var line := lines[k];
      FirstEmptyPast(lines, k);
      if |line| == 0 {
        break;
      }
      var parsed := ParseInstruction(line);
      assert parsed == code[k];
      ParseAllSnoc(code, k);
      if parsed.Failure? {
        ParseAllFailureStays(code, k + 1, FirstEmpty(lines));
        return Failure(parsed.error);
      }
      ip, strength, checkPoints := RunLine(state, ip, strength, checkPoints, parsed.value, ops);
      ops := ops + [parsed.value];
      k := k + 1;
    }
    return Success(strength);
  }

  // ---------------------------------------------------------------------
  // The picture
  // ---------------------------------------------------------------------

  /** `Math.Abs(X - column) <= 1` in `int` arithmetic: the difference wraps, and `Math.Abs` throws on `int.MinValue`. */
  function Lit(x: int, column: int): Result<bool>
  {
    var d := Wrap32(x - column);
    if d == -0x8000_0000 then Failure(OverflowException) else Success(Abs(d) <= 1)
  }

  /** For an `int` X the pixel is lit iff X is within one of the column; the test throws only when the difference is exactly `int.MinValue`. */
  lemma LitMeaning(x: int, column: int)
    requires IsInt32(x) && 0 <= column < 40
    ensures Lit(x, column).Failure? <==> x - column == -0x8000_0000
    ensures Lit(x, column).Success? ==> (Lit(x, column).value <==> Abs(x - column) <= 1)
  {
    if x - column < -0x8000_0000 {
      assert WrapSigned(0x8000_0000, x - column) == x - column + 0x1_0000_0000;
    }
  }

  /** The first `n` pixels, or the exception of the first test that throws. */
  function Pixels(t: seq<int>, n: nat): (r: Result<seq<bool>>)
    requires n <= |t|
    ensures r.Success? ==> |r.value| == n
  {
    if n == 0 then Success([])
    else
      match Pixels(t, n - 1)
      case Failure(e) => Failure(e)
      case Success(p) =>
        match Lit(t[n - 1], (n - 1) % 40)
        case Failure(e) => Failure(e)
        case Success(b) => Success(p + [b])
  }

  /** Pixel i (counting from 0) is lit iff X during cycle i + 1, `t[i]`, is within one of column `i % 40`. */
  predicate Shows(pixels: seq<bool>, t: seq<int>)
  {
    |pixels| <= |t| && forall i :: 0 <= i < |pixels| ==> (pixels[i] <==> Abs(t[i] - i % 40) <= 1)
  }

  /** Pixels drawn from a trace of `int` values show that trace. */
  lemma {:induction false} PixelsMeaning(t: seq<int>, n: nat)
    requires n <= |t| && forall i :: 0 <= i < |t| ==> IsInt32(t[i])
    requires Pixels(t, n).Success?
    ensures Shows(Pixels(t, n).value, t)
  {
    if n > 0 {
      PixelsMeaning(t, n - 1);
      LitMeaning(t[n - 1], (n - 1) % 40);
    }
  }

  /** Drawing one more cycle appends its pixel. */
  lemma PixelsSnoc(t: seq<int>, n: nat, pixels: seq<bool>)
    requires n < |t| && Pixels(t, n) == Success(pixels) && Lit(t[n], n % 40).Success?
    ensures Pixels(t, n + 1) == Success(pixels + [Lit(t[n], n % 40).value])
  {
  }

  /** The pixels only look at the cycles drawn so far. */
  lemma {:induction false} PixelsPrefix(t: seq<int>, u: seq<int>, n: nat)
    requires n <= |t| && t <= u
    ensures Pixels(t, n) == Pixels(u, n)
  {
    if n > 0 {
      PixelsPrefix(t, u, n - 1);
    }
  }

  /** Once a pixel test throws, drawing further pixels throws the same exception. */
  lemma {:induction false} PixelsFailureStays(t: seq<int>, m: nat, n: nat)
    requires m <= n <= |t| && Pixels(t, m).Failure?
    ensures Pixels(t, n) == Pixels(t, m)
  {
    if m < n {
      PixelsFailureStays(t, m, n - 1);
    }
  }

  /** The screen's 240 cycles. */
  const Screen := 240

  /** The drawing run between two cycles: lines read, the pending instruction and its delay, X, and the pixels so far. */
  datatype Drawing = Drawing(read: nat, pending: Option<Op>, delay: int, x: int, pixels: seq<bool>)

  /**
   * The instruction for the next cycle: the pending one, or else the next
   * line's (past the last line `Current` is null), with its full delay.
   */
  function Fetch(code: seq<Result<Op>>, d: Drawing): (r: Result<Drawing>)
    ensures r.Success? ==> r.value.pending.Some?
  {
    if d.pending.Some? then Success(d)
    else if d.read >= |code| then Failure(NullReferenceException)
    else
      match code[d.read]
      case Failure(e) => Failure(e)
      case Success(op) => Success(d.(read := d.read + 1, pending := Some(op), delay := Cycles(op)))
  }

  /**
   * Cycle `i` with an instruction pending: draw the pixel of column
   * `(i - 1) % 40`, then `TryExecute`, which drops the instruction and
   * applies it once its delay runs out.
   */
  function Tick(d: Drawing, i: int): (r: Result<Drawing>)
    requires d.pending.Some?
    ensures r.Success? ==> |r.value.pixels| == |d.pixels| + 1 && r.value.pixels[..|d.pixels|] == d.pixels
    ensures r.Success? ==> r.value.read == d.read
    ensures r.Success? ==> (r.value.pending.None? <==> d.delay <= 1)
  {
    match Lit(d.x, (i - 1) % 40)
    case Failure(e) => Failure(e)
    case Success(lit) =>
      if d.delay - 1 > 0 then Success(d.(delay := d.delay - 1, pixels := d.pixels + [lit]))
      else Success(d.(pending := None, delay := 0, x := Apply(d.pending.value, d.x), pixels := d.pixels + [lit]))
  }

  /** Cycle `i` of the drawing run over the decoded lines `code`. */
  function DrawStep(code: seq<Result<Op>>, d: Drawing, i: int): (r: Result<Drawing>)
    ensures r.Success? ==> |r.value.pixels| == |d.pixels| + 1 && r.value.pixels[..|d.pixels|] == d.pixels
  {
    match Fetch(code, d)
    case Failure(e) => Failure(e)
    case Success(f) => Tick(f, i)
  }

  /** The drawing run after `n` cycles, or the first exception. */
  function Drawn(code: seq<Result<Op>>, n: nat): (r: Result<Drawing>)
    ensures r.Success? ==> |r.value.pixels| == n
  {
    if n == 0 then Success(Drawing(0, None, 0, 1, []))
    else
      match Drawn(code, n - 1)
      case Failure(e) => Failure(e)
      case Success(d) => DrawStep(code, d, n)
  }

  /** What the drawing run shows: the pixels of its 240 cycles. */
  function Render(lines: seq<string>): (r: Result<seq<bool>>)
    ensures r.Success? ==> |r.value| == Screen
  {
    match Drawn(Decoded(lines), Screen)
    case Failure(e) => Failure(e)
    case Success(d) => Success(d.pixels)
  }

  /** Once a cycle throws, the run has thrown. */
  lemma {:induction false} DrawnFailureStays(code: seq<Result<Op>>, m: nat, n: nat)
    requires m <= n && Drawn(code, m).Failure?
    ensures Drawn(code, n) == Drawn(code, m)
  {
    if m < n {
      DrawnFailureStays(code, m, n - 1);
    }
  }

  /** The instructions a drawing state has read: the completed ones and the pending one. */
  function ReadOps(d: Drawing, done: seq<Op>): (ops: seq<Op>)
    ensures |ops| == |done| + (if d.pending.Some? then 1 else 0)
  {
    if d.pending.Some? then done + [d.pending.value] else done
  }

  /**
   * A drawing state with an instruction pending, after `n` cycles, is ready
   * to run it after the completed instructions `done`: X is what they leave,
   * `n` counts their cycles and the pending one's elapsed cycles, and the
   * pixels are `Pixels` of the trace that includes the pending instruction.
   */
  predicate Ready(d: Drawing, done: seq<Op>, n: nat)
    requires d.pending.Some?
  {
    var op := d.pending.value;
    && d.x == XAfter(done)
    && 1 <= d.delay <= Cycles(op) && |Trace(done)| + Cycles(op) - d.delay == n
    && n <= |Trace(done + [op])| && Pixels(Trace(done + [op]), n) == Success(d.pixels)
  }

  /**
   * A drawing state between two cycles agrees with the completed
   * instructions `done`: with nothing pending, X is what they leave and
   * the pixels are those of their trace, of which `n` cycles have run; with
   * an instruction pending, it is ready and has already run a cycle of it.
   */
  predicate Agrees(d: Drawing, done: seq<Op>, n: nat)
  {
    if d.pending.None? then
      d.x == XAfter(done) && |Trace(done)| == n && Pixels(Trace(done), n) == Success(d.pixels)
    else
      Ready(d, done, n) && d.delay < Cycles(d.pending.value)
  }

  /** Fetching leaves a state ready to run the instruction it read. */
  lemma FetchReady(code: seq<Result<Op>>, d: Drawing, done: seq<Op>, n: nat)
    requires Agrees(d, done, n) && Fetch(code, d).Success?
    requires d.read <= |code| && ParseAll(code[..d.read]) == Success(ReadOps(d, done))
    ensures Fetch(code, d).value.read <= |code|
    ensures ParseAll(code[..Fetch(code, d).value.read]) == Success(ReadOps(Fetch(code, d).value, done))
    ensures Ready(Fetch(code, d).value, done, n)
  {
    if d.pending.None? {
      var op := code[d.read].value;
      ParseAllSnoc(code, d.read);
      TraceSnoc(done, op);
      PixelsPrefix(Trace(done), Trace(done + [op]), n);
    }
  }

  /** Cycle `n` of an instruction draws its pixel from X as the earlier instructions left it. */
  lemma CyclePixel(done: seq<Op>, op: Op, n: nat, pixels: seq<bool>)
    requires |Trace(done)| < n <= |Trace(done)| + Cycles(op)
    requires Pixels(Trace(done + [op]), n - 1) == Success(pixels)
    requires Lit(XAfter(done), (n - 1) % 40).Success?
    ensures Pixels(Trace(done + [op]), n) == Success(pixels + [Lit(XAfter(done), (n - 1) % 40).value])
  {
    TraceSnoc(done, op);
    PixelsSnoc(Trace(done + [op]), n - 1, pixels);
  }

  /** A cycle of a ready instruction keeps the drawing state in agreement; the instruction is done once dropped. */
  lemma TickAgrees(d: Drawing, done: seq<Op>, n: nat) returns (done': seq<Op>)
    requires n > 0 && d.pending.Some? && Ready(d, done, n - 1) && Tick(d, n).Success?
    ensures Tick(d, n).value.read == d.read
    ensures ReadOps(Tick(d, n).value, done') == ReadOps(d, done)
    ensures Agrees(Tick(d, n).value, done', n)
  {
    var op := d.pending.value;
    CyclePixel(done, op, n, d.pixels);
    if d.delay - 1 > 0 {
      done' := done;
    } else {
      done' := done + [op];
      TraceSnoc(done, op);
    }
  }

  /** A cycle that raises no exception keeps the drawing state in agreement with the instructions read. */
  lemma DrawStepAgrees(code: seq<Result<Op>>, d: Drawing, done: seq<Op>, n: nat) returns (done': seq<Op>)
    requires n > 0 && Agrees(d, done, n - 1) && DrawStep(code, d, n).Success?
    requires d.read <= |code| && ParseAll(code[..d.read]) == Success(ReadOps(d, done))
    ensures DrawStep(code, d, n).value.read <= |code|
    ensures ParseAll(code[..DrawStep(code, d, n).value.read]) == Success(ReadOps(DrawStep(code, d, n).value, done'))
    ensures Agrees(DrawStep(code, d, n).value, done', n)
  {
    FetchReady(code, d, done, n - 1);
    done' := TickAgrees(Fetch(code, d).value, done, n);
  }

  /** Every state the drawing run reaches agrees with the instructions it has read. */
  lemma {:induction false} DrawnAgrees(code: seq<Result<Op>>, n: nat) returns (done: seq<Op>)
    requires Drawn(code, n).Success?
    ensures Drawn(code, n).value.read <= |code|
    ensures ParseAll(code[..Drawn(code, n).value.read]) == Success(ReadOps(Drawn(code, n).value, done))
    ensures Agrees(Drawn(code, n).value, done, n)
  {
    if n == 0 {
      assert code[..0] == [];
      done := [];
    } else {
      var done0 := DrawnAgrees(code, n - 1);
      var d := Drawn(code, n - 1).value;
      assert Drawn(code, n) == DrawStep(code, d, n);
      done := DrawStepAgrees(code, d, done0, n);
    }
  }

  /** After `n` cycles without an exception the pixels are those of the trace of the instructions read. */
  lemma DrawnPixels(code: seq<Result<Op>>, n: nat) returns (ops: seq<Op>)
    requires Drawn(code, n).Success?
    ensures Drawn(code, n).value.read <= |code| && ParseAll(code[..Drawn(code, n).value.read]) == Success(ops)
    ensures n <= |Trace(ops)| && Pixels(Trace(ops), n) == Success(Drawn(code, n).value.pixels)
  {
    var done := DrawnAgrees(code, n);
    ops := ReadOps(Drawn(code, n).value, done);
  }

  /** After `n` cycles without an exception there are `n` pixels, and they show the trace of the instructions read. */
  lemma DrawnMeaning(code: seq<Result<Op>>, n: nat) returns (ops: seq<Op>)
    requires Drawn(code, n).Success?
    ensures Drawn(code, n).value.read <= |code| && ParseAll(code[..Drawn(code, n).value.read]) == Success(ops)
    ensures |Drawn(code, n).value.pixels| == n && Shows(Drawn(code, n).value.pixels, Trace(ops))
  {
    ops := DrawnPixels(code, n);
    PixelsMeaning(Trace(ops), n);
  }

  /**
   * A successful drawing has 240 pixels, and they show the trace of the
   * instructions on the lines read.
   */
  lemma RenderMeaning(lines: seq<string>) returns (ops: seq<Op>)
    requires Render(lines).Success?
    ensures Drawn(Decoded(lines), Screen).value.read <= |lines|
    ensures ParseAll(Decoded(lines)[..Drawn(Decoded(lines), Screen).value.read]) == Success(ops)
    ensures |Render(lines).value| == Screen && Shows(Render(lines).value, Trace(ops))
  {
    ops := DrawnMeaning(Decoded(lines), Screen);
  }

  /** The drawing state the variables of `RunRender` hold. */
  ghost function Snapshot(k: nat, ins: Instruction?, state: ExecutionState, pixels: seq<bool>): Drawing
    reads ins, state
    requires state.Valid()
  {
    Drawing(k, if ins == null then None else Some(ins.op), if ins == null then 0 else ins.delay, state.registers["X"], pixels)
  }

  /** One cycle of `RunRender`: read an instruction if none is pending, draw a pixel, then `TryExecute`. */
  method DrawCycle(lines: seq<string>, ghost code: seq<Result<Op>>, i: int,
                   k0: nat, ins0: Instruction?, state: ExecutionState, pixels0: seq<bool>)
    returns (k: nat, ins: Instruction?, pixels: seq<bool>, error: Option<Exception>)
    requires code == Decoded(lines) && state.Valid()
    modifies ins0, state
    ensures state.Valid() && (ins != null ==> ins == ins0 || fresh(ins))
    ensures error.None? ==> DrawStep(code, old(Snapshot(k0, ins0, state, pixels0)), i) == Success(Snapshot(k, ins, state, pixels))
    ensures error.Some? ==> DrawStep(code, old(Snapshot(k0, ins0, state, pixels0)), i) == Failure(error.value)
  {
    ghost var d := Snapshot(k0, ins0, state, pixels0);
    k, ins, pixels, error := k0, ins0, pixels0, None;
    if ins == null {
      if k >= |lines| {
        return k, ins, pixels, Some(NullReferenceException);
      }
      var parsed := ParseInstruction(lines[k]);
      assert parsed == code[k];
      if parsed.Failure? {
        return k, ins, pixels, Some(parsed.error);
      }
      k := k + 1;
      ins := new Instruction(parsed.value);
    }
    ghost var f := Snapshot(k, ins, state, pixels);
    assert Fetch(code, d) == Success(f);
    var lit := Lit(state.registers["X"], (i - 1) % 40);
    if lit.Failure? {
      return k, ins, pixels, Some(lit.error);
    }
    pixels := pixels + [lit.value];
    var done := ins.TryExecute(state);
    if done {
      ins := null;
    }
  }

  /** `RunRender`: 240 cycles of drawing, or the first exception. */
  method RunRender(lines: seq<string>) returns (r: Result<seq<bool>>)
    ensures r == Render(lines)
  {
    ghost var code := Decoded(lines);
    var k := 0;
    var ins: Instruction? := null;
    var state := new ExecutionState();
    var pixels: seq<bool> := [];
    for i := 1 to Screen + 1
      invariant fresh(state) && state.Valid() && (ins != null ==> fresh(ins))
      invariant Drawn(code, i - 1) == Success(Snapshot(k, ins, state, pixels))
    {
      var error;
      k, ins, pixels, error := DrawCycle(lines, code, i, k, ins, state, pixels);
      if error.Some? {
        DrawnFailureStays(code, i, Screen);
        return Failure(error.value);
      }
    }
    return Success(pixels);
  }

  // ---------------------------------------------------------------------
  // The program
  // ---------------------------------------------------------------------

  /** The two results: the signal strength and the 240 pixels. */
  datatype Output = Output(strength: int, pixels: seq<bool>)

  function Expected(lines: seq<string>): Result<Output>
  {
    match Sequential(lines)
    case Failure(e) => Failure(e)
    case Success(s) =>
      match Render(lines)
      case Failure(e) => Failure(e)
      case Success(p) => Success(Output(s, p))
  }

  /** `ExecuteCoreAsync`: the sequential run, then the drawing run over the same input. */
  method Execute(lines: seq<string>) returns (r: Result<Output>)
    ensures r == Expected(lines)
  {
    var strength := RunSequential(lines);
    if strength.Failure? {
      return Failure(strength.error);
    }
    var pixels := RunRender(lines);
    if pixels.Failure? {
      return Failure(pixels.error);
    }
    return Success(Output(strength.value, pixels.value));
  }
}
