/**
 * Day 5: supply stacks. A drawing of crates is read into a dictionary of
 * stacks, every stack is then reversed in place so that its top is the
 * highest crate of the drawing, and the rearrangement runs twice, each time
 * on a clone: the CrateMover 9000 moves crates one at a time, the 9001 moves
 * a block through a temporary stack. Both copies of the solver
 * (Problem5.cs and Problem05.cs) run this same code.
 */
module Problem5 {
  import opened Wrappers

  /** A dictionary lookup of a missing key. */
  const KeyNotFound := KeyNotFoundException
  /** `Pop` or `Peek` on an empty stack. */
  const InvalidOperation := InvalidOperationException

  /** A parsed `move N from A to B` line; `from` and `to` count stacks from 1. */
  datatype Move = Move(count: int, from: int, to: int)

  /** The two cranes: `Part1` and `Part2`. */
  datatype Crane = Mover9000 | Mover9001

  /** The stacks by 0-based index, each listed from bottom to top. */
  type Stacks = map<int, seq<char>>

  function Reversed<T>(s: seq<T>): seq<T>
  {
    seq(|s|, i requires 0 <= i < |s| => s[|s| - 1 - i])
  }

  lemma ReversedTwice<T>(s: seq<T>)
    ensures Reversed(Reversed(s)) == s
  {
    assert forall i :: 0 <= i < |s| ==> Reversed(Reversed(s))[i] == s[i];
  }

  lemma ReversedSnoc<T>(s: seq<T>, x: T)
    ensures Reversed(s + [x]) == [x] + Reversed(s)
  {
    assert forall i :: 0 <= i < |s| + 1 ==> Reversed(s + [x])[i] == ([x] + Reversed(s))[i];
  }

  /** Taking the top crate off the first `|s| - i` crates of `s` leaves one fewer and puts it after the ones already taken. */
  lemma PoppedOne<T>(s: seq<T>, i: nat)
    requires i < |s|
    ensures s[..|s| - i][..|s| - i - 1] == s[..|s| - (i + 1)]
    ensures s[..|s| - i][|s| - i - 1] == s[|s| - (i + 1)]
    ensures Reversed(s[|s| - (i + 1)..]) == Reversed(s[|s| - i..]) + [s[|s| - (i + 1)]]
  {
    assert s[|s| - (i + 1)..] == [s[|s| - (i + 1)]] + s[|s| - i..];
  }

  lemma {:induction false} ReversedMultiset<T>(s: seq<T>)
    ensures multiset(Reversed(s)) == multiset(s)
    decreases |s|
  {
    if s != [] {
      var p := s[..|s| - 1];
      assert s == p + [s[|s| - 1]];
      ReversedSnoc(p, s[|s| - 1]);
      ReversedMultiset(p);
    }
  }

  /** `char.IsLetter` on the ASCII characters a drawing holds. */
  predicate IsLetter(c: char)
  {
    'a' <= c <= 'z' || 'A' <= c <= 'Z'
  }

  /** A drawing line shows a crate for stack `i` at column 4i + 1. */
  predicate HasCrate(line: string, i: int)
  {
    0 <= i && i * 4 + 1 < |line| && IsLetter(line[i * 4 + 1])
  }

  /** The stacks with a crate in the line, from stack `i` on. */
  function LineCrates(line: string, i: nat): (r: set<int>)
    ensures forall k :: k in r <==> i <= k && HasCrate(line, k)
    decreases |line| - i * 4
  {
    if i * 4 + 1 >= |line| then {}
    else (if IsLetter(line[i * 4 + 1]) then {i} else {}) + LineCrates(line, i + 1)
  }

  function Get(m: Stacks, k: int): seq<char>
  {
    if k in m then m[k] else []
  }

  /** The stacks after one drawing line: each letter pushed onto its stack, a stack created on its first crate. */
  function AddedLine(m: Stacks, line: string): Stacks
  {
    map k | k in m.Keys + LineCrates(line, 0) :: Get(m, k) + if HasCrate(line, k) then [line[k * 4 + 1]] else []
  }

  /** `AddedLine` part way through the line: only the crates of stacks below `i` pushed. */
  function AddedPart(m: Stacks, line: string, i: nat): Stacks
  {
    map k | k in m.Keys + (LineCrates(line, 0) - LineCrates(line, i)) ::
      Get(m, k) + if k < i && HasCrate(line, k) then [line[k * 4 + 1]] else []
  }

  lemma AddedNone(m: Stacks, line: string)
    ensures AddedPart(m, line, 0) == m
  {
    var r := AddedPart(m, line, 0);
    assert forall k :: k in r <==> k in m;
    SameStacks(r, m);
  }

  /** Reading the column of stack `i` pushes its crate, if any, and changes no other stack. */
  lemma AddedNext(m: Stacks, line: string, i: nat)
    requires i * 4 + 1 < |line|
    ensures var p, c := AddedPart(m, line, i), line[i * 4 + 1];
      AddedPart(m, line, i + 1) == if IsLetter(c) then p[i := Get(p, i) + [c]] else p
  {
    var p, c := AddedPart(m, line, i), line[i * 4 + 1];
    var q := AddedPart(m, line, i + 1);
    var r := if IsLetter(c) then p[i := Get(p, i) + [c]] else p;
    assert LineCrates(line, i) == (if IsLetter(c) then {i} else {}) + LineCrates(line, i + 1);
    assert forall k :: k in q <==> k in r;
    SameStacks(q, r);
  }

  lemma AddedAll(m: Stacks, line: string, i: nat)
    requires i * 4 + 1 >= |line|
    ensures AddedPart(m, line, i) == AddedLine(m, line)
  {
    var p, q := AddedPart(m, line, i), AddedLine(m, line);
    assert LineCrates(line, i) == {};
    assert forall k :: k in p <==> k in q;
    SameStacks(p, q);
  }

  /** Writing a stack over a stack just created is the same as writing it directly. */
  lemma Overwritten(m: Stacks, k: int, v: seq<char>)
    ensures m[k := []][k := v] == m[k := v]
  {
    SameStacks(m[k := []][k := v], m[k := v]);
  }

  /** The crates drawn for stack `i`, from the highest line down. */
  function Column(drawing: seq<string>, i: int): seq<char>
  {
    if drawing == [] then []
    else
      var line := drawing[|drawing| - 1];
      Column(drawing[..|drawing| - 1], i) + if HasCrate(line, i) then [line[i * 4 + 1]] else []
  }

  /** The stacks after reading the drawing, each listed in the order its crates were pushed. */
  function Drawn(drawing: seq<string>): Stacks
  {
    if drawing == [] then map[]
    else AddedLine(Drawn(drawing[..|drawing| - 1]), drawing[|drawing| - 1])
  }

  /** Stack `i` exists exactly when the drawing shows a crate at column 4i + 1, and holds those crates top line first. */
  lemma {:induction false} DrawnColumns(drawing: seq<string>)
    ensures forall i :: i in Drawn(drawing) <==> Column(drawing, i) != []
    ensures forall i :: i in Drawn(drawing) ==> Drawn(drawing)[i] == Column(drawing, i)
    decreases |drawing|
  {
    if drawing != [] {
      DrawnColumns(drawing[..|drawing| - 1]);
    }
  }

  /**
   * After the reversal pass the top of stack `i` is the crate of the first
   * (highest) line that shows one at column 4i + 1.
   */
  lemma {:induction false} TopIsHighest(drawing: seq<string>, i: int) returns (j: nat)
    requires Column(drawing, i) != []
    ensures j < |drawing| && HasCrate(drawing[j], i)
    ensures forall l :: 0 <= l < j ==> !HasCrate(drawing[l], i)
    ensures Reversed(Column(drawing, i))[|Column(drawing, i)| - 1] == drawing[j][i * 4 + 1]
    decreases |drawing|
  {
    var init := drawing[..|drawing| - 1];
    if Column(init, i) == [] {
      j := |drawing| - 1;
      forall l | 0 <= l < j
        ensures !HasCrate(drawing[l], i)
      {
        NoCrateAbove(init, i, l);
        assert drawing[l] == init[l];
      }
    } else {
      j := TopIsHighest(init, i);
      assert drawing[j] == init[j];
      forall l | 0 <= l < j
        ensures !HasCrate(drawing[l], i)
      {
        assert drawing[l] == init[l];
      }
    }
  }

  /** An empty column means no line shows a crate there. */
  lemma {:induction false} NoCrateAbove(drawing: seq<string>, i: int, l: nat)
    requires Column(drawing, i) == [] && l < |drawing|
    ensures !HasCrate(drawing[l], i)
    decreases |drawing|
  {
    if l < |drawing| - 1 {
      NoCrateAbove(drawing[..|drawing| - 1], i, l);
      assert drawing[l] == drawing[..|drawing| - 1][l];
    }
  }

  /** The stacks in the order a `Stack<char>` enumerates them, top first. */
  function Enumerate(s: seq<char>): seq<char>
  {
    Reversed(s)
  }

  /** The reversal pass: each stack is listed and cleared, and the list pushed back in enumeration order. */
  function Flipped(m: Stacks): (r: Stacks)
    ensures r.Keys == m.Keys
    ensures forall k :: k in m ==> r[k] == Reversed(m[k])
  {
    map k | k in m :: Enumerate(m[k])
  }

  /** `stacks.ToDictionary(s => s.Key, s => new Stack<char>(s.Value.Reverse()))`: the same crates in the same order. */
  function Clone(m: Stacks): (r: Stacks)
    ensures r == m
  {
    var r := map k | k in m :: Reversed(Enumerate(m[k]));
    forall k | k in m
      ensures r[k] == m[k]
    {
      ReversedTwice(m[k]);
    }
    SameStacks(r, m);
    r
  }

  /** Two stack maps with the same numbers and the same stacks are equal. */
  lemma SameStacks(m: Stacks, r: Stacks)
    requires forall k :: k in m <==> k in r
    requires forall k | k in m :: m[k] == r[k]
    ensures m == r
  {
    if m != r {
      if forall k :: (k in m <==> k in r) && (k in m ==> m[k] == r[k]) {
        assert false;
      }
    }
  }

  /** One crate from stack `from` to stack `to`; the C# expression looks `to` up before it pops `from`. */
  function MoveOne(m: Stacks, from: int, to: int): Result<Stacks>
  {
    if to !in m || from !in m then Failure(KeyNotFound)
    else if m[from] == [] then Failure(InvalidOperation)
    else
      var s := m[from];
      var popped := m[from := s[..|s| - 1]];
      Success(popped[to := popped[to] + [s[|s| - 1]]])
  }

  /** The CrateMover 9000: `count` single-crate moves. */
  function Moved9000(m: Stacks, count: int, from: int, to: int): Result<Stacks>
    decreases count
  {
    if count <= 0 then Success(m)
    else
      match MoveOne(m, from, to)
      case Failure(e) => Failure(e)
      case Success(next) => Moved9000(next, count - 1, from, to)
  }

  /** The CrateMover 9001: the top `count` crates of `from` go onto `to` as a block. */
  function Moved9001(m: Stacks, count: int, from: int, to: int): Result<Stacks>
  {
    if count <= 0 then Success(m)
    else if from !in m then Failure(KeyNotFound)
    else if |m[from]| < count then Failure(InvalidOperation)
    else if to !in m then Failure(KeyNotFound)
    else
      var s := m[from];
      var popped := m[from := s[..|s| - count]];
      Success(popped[to := popped[to] + s[|s| - count..]])
  }

  /** One instruction; the stacks in an instruction are numbered from 1. */
  function Apply(m: Stacks, mv: Move, crane: Crane): Result<Stacks>
  {
    if crane == Mover9000 then Moved9000(m, mv.count, mv.from - 1, mv.to - 1)
    else Moved9001(m, mv.count, mv.from - 1, mv.to - 1)
  }

  /** All instructions in order, stopping at the first that throws. */
  function Rearranged(m: Stacks, moves: seq<Move>, crane: Crane): Result<Stacks>
  {
    if moves == [] then Success(m)
    else
      match Rearranged(m, moves[..|moves| - 1], crane)
      case Failure(e) => Failure(e)
      case Success(before) => Apply(before, moves[|moves| - 1], crane)
  }

  /**
   * Between two different stacks the 9000 moves the top `count` crates one
   * at a time, so they land in reversed order; it fails when either stack
   * is missing or `from` runs out of crates.
   */
  lemma {:induction false} Moved9000Reverses(m: Stacks, count: int, from: int, to: int)
    requires from != to
    ensures Moved9000(m, count, from, to) ==
      if count <= 0 then Success(m)
      else if to !in m || from !in m then Failure(KeyNotFound)
      else if |m[from]| < count then Failure(InvalidOperation)
      else Success(m[from := m[from][..|m[from]| - count]][to := m[to] + Reversed(m[from][|m[from]| - count..])])
    decreases count
  {
    if count > 0 && to in m && from in m && m[from] != [] {
      var s := m[from];
      var n := |s|;
      var next := MoveOne(m, from, to).value;
      assert next == m[from := s[..n - 1]][to := m[to] + [s[n - 1]]];
      Moved9000Reverses(next, count - 1, from, to);
      if count == 1 {
        assert s[n - 1..] == [s[n - 1]];
        assert Reversed([s[n - 1]]) == [s[n - 1]];
      } else if count <= n {
        assert s[..n - 1][..n - count] == s[..n - count];
        assert s[n - count..] == s[n - count..n - 1] + [s[n - 1]];
        assert s[..n - 1][n - 1 - (count - 1)..] == s[n - count..n - 1];
        ReversedSnoc(s[n - count..n - 1], s[n - 1]);
        var moved := Reversed(s[n - count..]);
        assert next[to] + Reversed(s[n - count..n - 1]) == m[to] + moved;
        assert next[from := s[..n - count]][to := m[to] + moved] == m[from := s[..n - count]][to := m[to] + moved];
      }
    }
  }

  /** From a stack onto itself, single-crate moves change nothing, but still need a crate to pop. */
  lemma {:induction false} Moved9000InPlace(m: Stacks, count: int, k: int)
    ensures Moved9000(m, count, k, k) ==
      if count <= 0 then Success(m)
      else if k !in m then Failure(KeyNotFound)
      else if m[k] == [] then Failure(InvalidOperation)
      else Success(m)
    decreases count
  {
    if count > 0 && k in m && m[k] != [] {
      var s := m[k];
      assert s[..|s| - 1] + [s[|s| - 1]] == s;
      assert m[k := s[..|s| - 1]][k := s] == m;
      assert MoveOne(m, k, k) == Success(m);
      Moved9000InPlace(m, count - 1, k);
    }
  }

  /**
   * Between two different stacks the cranes succeed on the same inputs,
   * and the 9000 leaves on `to` the 9001's block reversed.
   */
  lemma CranesDiffer(m: Stacks, count: int, from: int, to: int)
    requires from != to
    ensures Moved9000(m, count, from, to).Success? <==> Moved9001(m, count, from, to).Success?
    ensures Moved9000(m, count, from, to).Success? && count > 0 ==>
      var moved := m[from][|m[from]| - count..];
      Moved9001(m, count, from, to).value[to] == m[to] + moved &&
      Moved9000(m, count, from, to).value == Moved9001(m, count, from, to).value[to := m[to] + Reversed(moved)]
  {
    Moved9000Reverses(m, count, from, to);
  }

  /**
   * A successful instruction moves exactly `count` crates (none when
   * `count` is not positive) from `from` to `to` and leaves every other
   * stack as it was.
   */
  lemma MoveConserves(m: Stacks, mv: Move, crane: Crane)
    requires mv.from != mv.to && Apply(m, mv, crane).Success?
    ensures Conserves(m, Apply(m, mv, crane).value, mv.from - 1, mv.to - 1, if mv.count < 0 then 0 else mv.count)
  {
    var from, to := mv.from - 1, mv.to - 1;
    if mv.count > 0 && crane == Mover9000 {
      assert Apply(m, mv, crane) == Moved9000(m, mv.count, from, to);
      Moved9000Conserves(m, mv.count, from, to);
    } else if mv.count > 0 {
      assert Apply(m, mv, crane) == Moved9001(m, mv.count, from, to);
      Moved9001Conserves(m, mv.count, from, to);
    } else {
      assert Apply(m, mv, crane) == Success(m);
    }
  }

  lemma Moved9000Conserves(m: Stacks, count: nat, from: int, to: int)
    requires from != to && count > 0 && Moved9000(m, count, from, to).Success?
    ensures Conserves(m, Moved9000(m, count, from, to).value, from, to, count)
  {
    Moved9000Reverses(m, count, from, to);
    var s := m[from];
    var moved := s[|s| - count..];
    ReversedMultiset(moved);
    BlockShifted(m, from, to, count, Reversed(moved));
  }

  lemma Moved9001Conserves(m: Stacks, count: nat, from: int, to: int)
    requires from != to && count > 0 && Moved9001(m, count, from, to).Success?
    ensures Conserves(m, Moved9001(m, count, from, to).value, from, to, count)
  {
    var s := m[from];
    BlockShifted(m, from, to, count, s[|s| - count..]);
  }

  /**
   * `r` is `m` with `n` crates taken from `from` and put on `to`: the same
   * stack numbers, every other stack untouched, and the crates of the two
   * stacks conserved.
   */
  predicate Conserves(m: Stacks, r: Stacks, from: int, to: int, n: nat)
  {
    && r.Keys == m.Keys
    && (forall k :: k in m && k != from && k != to ==> r[k] == m[k])
    && (n > 0 ==>
      && from in m && to in m
      && |r[from]| == |m[from]| - n && |r[to]| == |m[to]| + n
      && multiset(r[from]) + multiset(r[to]) == multiset(m[from]) + multiset(m[to]))
  }

  /** Replacing the top `n` crates of `from` by a block with the same crates on `to` keeps every crate. */
  lemma BlockShifted(m: Stacks, from: int, to: int, n: nat, block: seq<char>)
    requires from != to && from in m && to in m && n <= |m[from]|
    requires |block| == n && multiset(block) == multiset(m[from][|m[from]| - n..])
    ensures Conserves(m, m[from := m[from][..|m[from]| - n]][to := m[to] + block], from, to, n)
  {
    var s := m[from];
    assert s == s[..|s| - n] + s[|s| - n..];
  }

  /** The least key of a non-empty set exists. */
  lemma {:induction false} LeastExists(keys: set<int>)
    requires keys != {}
    ensures exists k :: k in keys && forall j :: j in keys ==> k <= j
    decreases keys
  {
    if forall y :: y !in keys {
      assert false;
    }
    var x :| x in keys;
    if keys != {x} {
      LeastExists(keys - {x});
      var y :| y in keys - {x} && forall j :: j in keys - {x} ==> y <= j;
      var least := if x < y then x else y;
      forall j | j in keys
        ensures least <= j
      {
        if j != x {
          assert j in keys - {x};
        }
      }
      assert least in keys;
    }
  }

  /** The keys in ascending order, as `OrderBy(s => s.Key)` lists them. */
  function Ascending(keys: set<int>): (r: seq<int>)
    ensures forall k :: k in r <==> k in keys
    decreases keys
  {
    if keys == {} then []
    else
      LeastExists(keys);
      var k :| k in keys && forall j :: j in keys ==> k <= j;
      [k] + Ascending(keys - {k})
  }

  predicate Increasing(s: seq<int>)
  {
    forall i, j :: 0 <= i < j < |s| ==> s[i] < s[j]
  }

  /** `Ascending` lists the keys in strictly increasing order. */
  lemma {:induction false} AscendingSorted(keys: set<int>)
    ensures Increasing(Ascending(keys))
    decreases keys
  {
    if keys != {} {
      var r := Ascending(keys);
      assert r[0] in keys && r == [r[0]] + Ascending(keys - {r[0]});
      var k, rest := r[0], r[1..];
      assert forall j :: j in keys ==> k <= j;
      AscendingSorted(keys - {k});
      forall i | 0 <= i < |rest|
        ensures k < rest[i]
      {
        assert rest[i] in keys - {k};
      }
      PrependIncreasing(k, rest);
    }
  }

  lemma PrependIncreasing(k: int, rest: seq<int>)
    requires Increasing(rest)
    requires forall i :: 0 <= i < |rest| ==> k < rest[i]
    ensures Increasing([k] + rest)
  {
    forall i, j | 0 <= i < j < |rest| + 1
      ensures ([k] + rest)[i] < ([k] + rest)[j]
    {
      if i > 0 {
        assert ([k] + rest)[i] == rest[i - 1];
      }
      assert ([k] + rest)[j] == rest[j - 1];
    }
  }

  /** `Peek` of each listed stack in turn. */
  function Peeks(m: Stacks, keys: seq<int>): Result<string>
    requires forall i :: 0 <= i < |keys| ==> keys[i] in m
  {
    if keys == [] then Success([])
    else if m[keys[0]] == [] then Failure(InvalidOperation)
    else
      match Peeks(m, keys[1..])
      case Failure(e) => Failure(e)
      case Success(rest) => Success([m[keys[0]][|m[keys[0]]| - 1]] + rest)
  }

  /** Peeking the listed stacks succeeds iff none is empty, and gives their top crates in order. */
  lemma {:induction false} PeeksAreTops(m: Stacks, keys: seq<int>)
    requires forall i :: 0 <= i < |keys| ==> keys[i] in m
    ensures Peeks(m, keys).Success? <==> forall i :: 0 <= i < |keys| ==> m[keys[i]] != []
    ensures Peeks(m, keys).Success? ==>
      |Peeks(m, keys).value| == |keys| &&
      forall i :: 0 <= i < |keys| ==> Peeks(m, keys).value[i] == m[keys[i]][|m[keys[i]]| - 1]
    decreases |keys|
  {
    if keys != [] {
      PeeksAreTops(m, keys[1..]);
      assert forall i :: 1 <= i < |keys| ==> keys[i] == keys[1..][i - 1];
    }
  }

  /** `stacks.OrderBy(s => s.Key).Select(s => s.Value.Peek())`: the top crates by stack number. */
  function Tops(m: Stacks): Result<string>
  {
    Peeks(m, Ascending(m.Keys))
  }

  /** The message is the top crate of every stack by ascending stack number, and it throws iff a stack is empty. */
  lemma TopsInOrder(m: Stacks)
    ensures Tops(m).Success? <==> forall k :: k in m ==> m[k] != []
    ensures Tops(m).Success? ==>
      var keys := Ascending(m.Keys);
      |Tops(m).value| == |keys| &&
      forall i :: 0 <= i < |keys| ==> Tops(m).value[i] == m[keys[i]][|m[keys[i]]| - 1]
    ensures Increasing(Ascending(m.Keys))
  {
    var keys := Ascending(m.Keys);
    AscendingSorted(m.Keys);
    PeeksAreTops(m, keys);
    NoneEmpty(m, keys);
  }

  /** When `keys` lists exactly the stack numbers, no listed stack is empty iff no stack is. */
  lemma NoneEmpty(m: Stacks, keys: seq<int>)
    requires forall i :: 0 <= i < |keys| ==> keys[i] in m
    requires forall k :: k in m ==> k in keys
    ensures (forall i :: 0 <= i < |keys| ==> m[keys[i]] != []) <==> (forall k :: k in m ==> m[k] != [])
  {
    if forall i :: 0 <= i < |keys| ==> m[keys[i]] != [] {
      forall k | k in m
        ensures m[k] != []
      {
        var i :| 0 <= i < |keys| && keys[i] == k;
      }
    }
    if forall k :: k in m ==> m[k] != [] {
      forall i | 0 <= i < |keys|
        ensures m[keys[i]] != []
      {
        assert keys[i] in m;
      }
    }
  }

  /** The first line of the drawing with no `[` (the stack numbers), from line `n` on. */
  function DrawingEnd(lines: seq<string>, n: nat): (r: nat)
    requires n <= |lines|
    ensures n <= r <= |lines|
    ensures forall j :: n <= j < r ==> '[' in lines[j]
    ensures r < |lines| ==> '[' !in lines[r]
    decreases |lines| - n
  {
    if n == |lines| || '[' !in lines[n] then n else DrawingEnd(lines, n + 1)
  }

  /** The instruction lines: after the stack numbers and the blank line that follows them. */
  function Instructions(lines: seq<string>): seq<string>
  {
    var end := DrawingEnd(lines, 0);
    lines[if end + 2 <= |lines| then end + 2 else |lines|..]
  }

  /** The stacks the rearrangement starts from. */
  function Initial(lines: seq<string>): Stacks
  {
    Flipped(Drawn(lines[..DrawingEnd(lines, 0)]))
  }

  function Parsed(instructions: seq<string>, parse: string -> Move): seq<Move>
  {
    seq(|instructions|, i requires 0 <= i < |instructions| => parse(instructions[i]))
  }

  /** What a part prints: the top crates after the rearrangement, or the exception it throws. */
  function Outcome(m: Stacks, moves: seq<Move>, crane: Crane): Result<string>
  {
    match Rearranged(m, moves, crane)
    case Failure(e) => Failure(e)
    case Success(after) => Tops(after)
  }

  /** The dictionary of stacks that `ExecuteCore` builds and the parts rearrange. */
  class Yard {
    var stacks: Stacks

    constructor(initial: Stacks)
      ensures stacks == initial
    {
      stacks := initial;
    }

    /** One drawing line: the letter at column 4i + 1 is pushed onto stack i, which is created if absent. */
    method ReadDrawingLine(line: string)
      modifies this
      ensures stacks == AddedLine(old(stacks), line)
    {
      var i := 0;
      AddedNone(stacks, line);
      while i * 4 + 1 < |line|
        invariant stacks == AddedPart(old(stacks), line, i)
        decreases |line| - i * 4
      {
        var c := line[i * 4 + 1];
        AddedNext(old(stacks), line, i);
        if IsLetter(c) {
          ghost var p := stacks;
          if i !in stacks {
            stacks := stacks[i := []];
          }
          assert stacks[i] == Get(p, i);
          stacks := stacks[i := stacks[i] + [c]];
          Overwritten(p, i, Get(p, i) + [c]);
        }
        i := i + 1;
      }
      AddedAll(old(stacks), line, i);
    }

    /** `s.ToList()`, `s.Clear()`, then each listed crate pushed back: the stack reversed. */
    static method ReverseStack(s: seq<char>) returns (r: seq<char>)
      ensures r == Reversed(s)
    {
      var listed := Enumerate(s);
      r := [];
      for j := 0 to |listed|
        invariant r == listed[..j]
      {
        r := r + [listed[j]];
      }
      assert listed[..|listed|] == listed;
    }

    /** The reversal pass over every stack. */
    method ReverseAll()
      modifies this
      ensures stacks == Flipped(old(stacks))
    {
      var todo := stacks.Keys;
      while todo != {}
        invariant todo <= stacks.Keys && stacks.Keys == old(stacks).Keys
        invariant forall k :: k in stacks ==> stacks[k] == if k in todo then old(stacks)[k] else Reversed(old(stacks)[k])
        decreases todo
      {
        if forall y :: y !in todo {
          assert false;
        }
        var k :| k in todo;
        var flipped := ReverseStack(stacks[k]);
        stacks := stacks[k := flipped];
        todo := todo - {k};
      }
      SameStacks(stacks, Flipped(old(stacks)));
    }

    /** `count` times `stacks[to].Push(stacks[from].Pop())`, with 0-based stack numbers. */
    method CrateMover9000(count: int, from: int, to: int) returns (r: Result<()>)
      modifies this
      ensures r.Success? <==> Moved9000(old(stacks), count, from, to).Success?
      ensures r.Success? ==> stacks == Moved9000(old(stacks), count, from, to).value
      ensures r.Failure? ==> r.error == Moved9000(old(stacks), count, from, to).error
    {
      var i := 0;
      while i < count
        invariant 0 <= i && (count > 0 ==> i <= count)
        invariant Moved9000(old(stacks), count, from, to) == Moved9000(stacks, count - i, from, to)
      {
        if to !in stacks || from !in stacks {
          return Failure(KeyNotFound);
        }
        var s := stacks[from];
        if s == [] {
          return Failure(InvalidOperation);
        }
        stacks := stacks[from := s[..|s| - 1]];
        stacks := stacks[to := stacks[to] + [s[|s| - 1]]];
        i := i + 1;
      }
      return Success(());
    }

    /** The first loop of the 9001: `count` times `temp.Push(stacks[from].Pop())`. */
    method PopBlock(count: nat, from: int) returns (r: Result<seq<char>>)
      modifies this
      ensures r.Success? <==> count == 0 || (from in old(stacks) && count <= |old(stacks)[from]|)
      ensures r.Failure? ==> r.error == if from in old(stacks) then InvalidOperation else KeyNotFound
      ensures r.Success? && count > 0 ==>
        var s := old(stacks)[from];
        r.value == Reversed(s[|s| - count..]) && stacks == old(stacks)[from := s[..|s| - count]]
      ensures r.Success? && count == 0 ==> r.value == [] && stacks == old(stacks)
    {
      var temp: seq<char> := [];
      ghost var s := if from in stacks then stacks[from] else [];
      if from in stacks {
        assert s[..|s| - 0] == s;
        assert stacks[from := s] == stacks;
      }
      for i := 0 to count
        invariant from in old(stacks) ==> i <= |s| && stacks == old(stacks)[from := s[..|s| - i]]
        invariant from !in old(stacks) ==> i == 0 && stacks == old(stacks)
        invariant temp == Reversed(s[|s| - i..])
      {
        if from !in stacks {
          return Failure(KeyNotFound);
        }
        var top := stacks[from];
        if top == [] {
          return Failure(InvalidOperation);
        }
        PoppedOne(s, i);
        temp := temp + [top[|top| - 1]];
        stacks := stacks[from := top[..|top| - 1]];
      }
      return Success(temp);
    }

    /** The second loop of the 9001: `stacks[to].Push(temp.Pop())` until the block is back in its order. */
    method PushBlock(temp: seq<char>, to: int) returns (r: Result<()>)
      modifies this
      ensures r.Success? <==> temp == [] || to in old(stacks)
      ensures r.Failure? ==> r.error == KeyNotFound
      ensures r.Success? && temp != [] ==> stacks == old(stacks)[to := old(stacks)[to] + Reversed(temp)]
      ensures r.Success? && temp == [] ==> stacks == old(stacks)
    {
      ghost var moved := Reversed(temp);
      var rest := temp;
      if to in stacks {
        assert stacks[to] + moved[..0] == stacks[to];
        assert stacks[to := stacks[to]] == stacks;
      }
      assert moved[0..] == moved;
      ReversedTwice(temp);
      for j := 0 to |temp|
        invariant to in old(stacks) ==> stacks == old(stacks)[to := old(stacks)[to] + moved[..j]]
        invariant to !in old(stacks) ==> j == 0 && stacks == old(stacks)
        invariant rest == Reversed(moved[j..])
      {
        if to !in stacks {
          return Failure(KeyNotFound);
        }
        var crate := rest[|rest| - 1];
        assert moved[j..] == [moved[j]] + moved[j + 1..];
        ReversedSnoc(moved[j + 1..], moved[j]);
        assert crate == moved[j];
        assert moved[..j + 1] == moved[..j] + [crate];
        rest := rest[..|rest| - 1];
        stacks := stacks[to := stacks[to] + [crate]];
        SameStacks(stacks, old(stacks)[to := old(stacks)[to] + moved[..j + 1]]);
      }
      ReversedTwice(temp);
      assert moved[..|temp|] == moved;
      return Success(());
    }

    /** `count` crates popped from `from` onto a temporary stack, then popped from it onto `to`. */
    method CrateMover9001(count: int, from: int, to: int) returns (r: Result<()>)
      modifies this
      ensures r.Success? <==> Moved9001(old(stacks), count, from, to).Success?
      ensures r.Success? ==> stacks == Moved9001(old(stacks), count, from, to).value
      ensures r.Failure? ==> r.error == Moved9001(old(stacks), count, from, to).error
    {
      if count <= 0 {
        return Success(());
      }
      var temp := PopBlock(count, from);
      if temp.Failure? {
        return Failure(temp.error);
      }
      ghost var s := old(stacks)[from];
      ReversedTwice(s[|s| - count..]);
      r := PushBlock(temp.value, to);
    }

    /** `Part1` without its printing: every instruction with the 9000, then the tops. */
    method Part1(moves: seq<Move>) returns (tops: Result<string>)
      modifies this
      ensures tops == Outcome(old(stacks), moves, Mover9000)
    {
      for i := 0 to |moves|
        invariant Rearranged(old(stacks), moves[..i], Mover9000) == Success(stacks)
      {
        RearrangedSnoc(old(stacks), moves, i, Mover9000);
        var r := CrateMover9000(moves[i].count, moves[i].from - 1, moves[i].to - 1);
        if r.Failure? {
          RearrangedStops(old(stacks), moves, i + 1, Mover9000);
          return Failure(r.error);
        }
      }
      assert moves[..|moves|] == moves;
      return Tops(stacks);
    }

    /** `Part2` without its printing: every instruction with the 9001, then the tops. */
    method Part2(moves: seq<Move>) returns (tops: Result<string>)
      modifies this
      ensures tops == Outcome(old(stacks), moves, Mover9001)
    {
      for i := 0 to |moves|
        invariant Rearranged(old(stacks), moves[..i], Mover9001) == Success(stacks)
      {
        RearrangedSnoc(old(stacks), moves, i, Mover9001);
        var r := CrateMover9001(moves[i].count, moves[i].from - 1, moves[i].to - 1);
        if r.Failure? {
          RearrangedStops(old(stacks), moves, i + 1, Mover9001);
          return Failure(r.error);
        }
      }
      assert moves[..|moves|] == moves;
      return Tops(stacks);
    }
  }

  /** The first i + 1 instructions are the first i followed by instruction i. */
  lemma RearrangedSnoc(m: Stacks, moves: seq<Move>, i: nat, crane: Crane)
    requires i < |moves| && Rearranged(m, moves[..i], crane).Success?
    ensures Rearranged(m, moves[..i + 1], crane) == Apply(Rearranged(m, moves[..i], crane).value, moves[i], crane)
  {
    assert moves[..i + 1][..i] == moves[..i];
  }

  /** Once an instruction throws, the rest of them are never run. */
  lemma {:induction false} RearrangedStops(m: Stacks, moves: seq<Move>, n: nat, crane: Crane)
    requires 0 < n <= |moves| && Rearranged(m, moves[..n], crane).Failure?
    ensures Rearranged(m, moves, crane) == Rearranged(m, moves[..n], crane)
    decreases |moves|
  {
    if n < |moves| {
      assert moves[..|moves| - 1][..n] == moves[..n];
      RearrangedStops(m, moves[..|moves| - 1], n, crane);
    } else {
      assert moves[..n] == moves;
    }
  }

  /**
   * `ExecuteCore`: read the drawing, reverse every stack, then run both
   * parts on clones of the stacks. `parse` stands for the regular-expression
   * parse of an instruction line.
   */
  method ExecuteCore(lines: seq<string>, parse: string -> Move) returns (part1: Result<string>, part2: Result<string>)
    ensures part1 == Outcome(Initial(lines), Parsed(Instructions(lines), parse), Mover9000)
    ensures part1.Failure? ==> part2 == part1
    ensures part1.Success? ==> part2 == Outcome(Initial(lines), Parsed(Instructions(lines), parse), Mover9001)
  {
    var yard := new Yard(map[]);
    var n := 0;
    while n < |lines| && '[' in lines[n]
      invariant n <= DrawingEnd(lines, 0)
      invariant yard.stacks == Drawn(lines[..n])
      invariant DrawingEnd(lines, 0) == DrawingEnd(lines, n)
    {
      assert lines[..n + 1][..n] == lines[..n];
      yard.ReadDrawingLine(lines[n]);
      n := n + 1;
    }
    yard.ReverseAll();
    var rest := if n + 2 <= |lines| then n + 2 else |lines|;
    var instructions := lines[rest..];
    var moves := seq(|instructions|, i requires 0 <= i < |instructions| => parse(instructions[i]));
    var clone := new Yard(Clone(yard.stacks));
    part1 := clone.Part1(moves);
    if part1.Failure? {
      // the exception leaves `ExecuteCoreAsync` before part 2 starts
      return part1, part1;
    }
    clone := new Yard(Clone(yard.stacks));
    part2 := clone.Part2(moves);
  }
}
