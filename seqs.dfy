/** Small facts about sequences shared by the puzzle models. */
module Seqs {
  /** A subset is no larger than its superset. */
  lemma SubsetSize<T>(a: set<T>, b: set<T>)
    requires a <= b
    ensures |a| <= |b|
  {
    assert b == a + (b - a);
  }

  lemma AppendAssoc<T>(a: seq<T>, b: seq<T>, c: seq<T>)
    ensures a + (b + c) == a + b + c
  {
  }

  lemma AppendEmpty<T>(s: seq<T>)
    ensures s + [] == s
  {
  }

  lemma TailOfAppend<T>(q: seq<T>, a: seq<T>)
    requires q != []
    ensures (q + a)[1..] == q[1..] + a
  {
  }

  lemma DropFirst<T>(x: T, s: seq<T>)
    ensures ([x] + s)[1..] == s
  {
  }

  lemma MoveFirst<T>(done: seq<T>, xs: seq<T>)
    requires xs != []
    ensures done + [xs[0]] + xs[1..] == done + xs
  {
    assert xs == [xs[0]] + xs[1..];
  }

  /** Taking out the element at `k` leaves the rest of the multiset. */
  lemma Others<T>(s: seq<T>, k: nat, rest: seq<T>)
    requires k < |s| && multiset(s) == multiset(rest + [s[k]])
    ensures multiset(s[..k] + s[k + 1..]) == multiset(rest)
  {
    assert s == s[..k] + [s[k]] + s[k + 1..];
    assert multiset(s) == multiset(s[..k]) + multiset{s[k]} + multiset(s[k + 1..]);
    assert multiset(s[..k] + s[k + 1..]) == multiset(s[..k]) + multiset(s[k + 1..]);
    assert multiset(rest + [s[k]]) == multiset(rest) + multiset{s[k]};
    assert multiset(s[..k] + s[k + 1..]) == multiset(s) - multiset{s[k]};
  }

  /** Where the last element of `a` sits in a permutation `b` of it, and what is left of both. */
  lemma FindLast<T>(a: seq<T>, b: seq<T>) returns (j: nat)
    requires a != [] && multiset(a) == multiset(b)
    ensures j < |b| && b[j] == a[|a| - 1]
    ensures multiset(a[..|a| - 1]) == multiset(b[..j] + b[j + 1..])
  {
    var x := a[|a| - 1];
    assert a == a[..|a| - 1] + [x];
    assert x in multiset(b);
    j :| 0 <= j < |b| && b[j] == x;
    Others(b, j, a[..|a| - 1]);
  }

  lemma LastTwo<T>(a: seq<T>, x: T, y: T)
    ensures multiset(a + [x, y]) == multiset(a + [y] + [x])
    ensures a + [x, y] == a + [x] + [y]
  {
    assert a + [x, y] == a + [x] + [y];
  }

  /** The indices `tail` names, each one further on. */
  function Shift(tail: seq<int>): (r: seq<int>)
    ensures |r| == |tail| && forall i :: 0 <= i < |r| ==> r[i] == tail[i] + 1
  {
    seq(|tail|, i requires 0 <= i < |tail| => tail[i] + 1)
  }

  lemma ShiftMembers(tail: seq<int>, k: int)
    ensures k in Shift(tail) <==> k - 1 in tail
  {
    if k - 1 in tail {
      var i :| 0 <= i < |tail| && tail[i] == k - 1;
      assert Shift(tail)[i] == k;
    }
  }

  /** The positions of the `true` entries of `flags`, in order. */
  function Picks(flags: seq<bool>): seq<int>
  {
    if flags == [] then []
    else (if flags[0] then [0] else []) + Shift(Picks(flags[1..]))
  }

  /** The first step of `Picks`: the head if it is `true`, then the tail's picks moved one on. */
  lemma PicksCons(flags: seq<bool>)
    requires flags != []
    ensures Picks(flags) == (if flags[0] then [0] else []) + Shift(Picks(flags[1..]))
  {
  }

  /** Every pick is the position of a `true` entry. */
  lemma {:induction false} PicksRange(flags: seq<bool>)
    ensures forall i :: 0 <= i < |Picks(flags)| ==> 0 <= Picks(flags)[i] < |flags| && flags[Picks(flags)[i]]
  {
    if flags != [] {
      var tail := Picks(flags[1..]);
      PicksRange(flags[1..]);
      PicksCons(flags);
      var skip := if flags[0] then 1 else 0;
      var idx := Picks(flags);
      forall i | skip <= i < |idx|
        ensures 0 < idx[i] < |flags| && flags[idx[i]]
      {
        var j := i - skip;
        assert idx[i] == Shift(tail)[j] == tail[j] + 1;
        assert 0 <= tail[j] < |flags| - 1 && flags[1..][tail[j]];
      }
    }
  }

  /** The picks strictly increase. */
  lemma {:induction false} PicksIncreasing(flags: seq<bool>)
    ensures forall i, j :: 0 <= i < j < |Picks(flags)| ==> Picks(flags)[i] < Picks(flags)[j]
  {
    if flags != [] {
      var tail := Picks(flags[1..]);
      PicksIncreasing(flags[1..]);
      PicksRange(flags[1..]);
      PicksCons(flags);
      var skip := if flags[0] then 1 else 0;
      var idx := Picks(flags);
      forall i | skip <= i < |idx|
        ensures idx[i] == tail[i - skip] + 1 && 0 < idx[i]
      {
        assert idx[i] == Shift(tail)[i - skip];
      }
    }
  }

  /** Every `true` entry is picked. */
  lemma {:induction false} PicksComplete(flags: seq<bool>)
    ensures forall k :: 0 <= k < |flags| && flags[k] ==> k in Picks(flags)
  {
    if flags != [] {
      var tail := Picks(flags[1..]);
      PicksComplete(flags[1..]);
      PicksCons(flags);
      forall k | 0 <= k < |flags| && flags[k]
        ensures k in Picks(flags)
      {
        ShiftMembers(tail, k);
        if k > 0 {
          assert flags[1..][k - 1] == flags[k];
        }
      }
    }
  }

  /** `Picks` lists exactly the positions of `true`, each once, in increasing order. */
  lemma PicksFacts(flags: seq<bool>)
    ensures var idx := Picks(flags);
      (forall i :: 0 <= i < |idx| ==> 0 <= idx[i] < |flags| && flags[idx[i]]) &&
      (forall i, j :: 0 <= i < j < |idx| ==> idx[i] < idx[j]) &&
      (forall k :: 0 <= k < |flags| && flags[k] ==> k in idx)
  {
    PicksRange(flags);
    PicksIncreasing(flags);
    PicksComplete(flags);
  }

  /** A strictly increasing sequence of indices below `n` has at most `n` elements. */
  lemma {:induction false} IncreasingBounded(idx: seq<int>, n: int)
    requires n >= 0
    requires forall i :: 0 <= i < |idx| ==> 0 <= idx[i] < n
    requires forall i, j :: 0 <= i < j < |idx| ==> idx[i] < idx[j]
    ensures |idx| <= n
  {
    if |idx| > 0 {
      var last := idx[|idx| - 1];
      IncreasingBounded(idx[..|idx| - 1], last);
    }
  }
}
