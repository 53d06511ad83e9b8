/**
 * Day 6: the start-of-packet marker. The loop version slides a window of
 * `size` characters over the line while a counting dictionary tracks how
 * often each character occurs in it; the marker is reported at the end of
 * the first window whose characters are pairwise distinct. The LINQ version
 * scans the substrings of length `size` instead.
 */
module Problem6 {
  import opened Wrappers
  import opened Numerics
  import Helpers
  import Seqs

  /** `Substring` past the end of the line throws. */
  const OutOfRange := ArgumentOutOfRangeException

  function Chars(s: string): set<char>
  {
    set c | c in s
  }

  predicate Distinct(s: string)
  {
    forall j, k :: 0 <= j < k < |s| ==> s[j] != s[k]
  }

  /** The last `size` of the first `n` characters (all of them while fewer than `size` were read). */
  function Window(line: string, n: nat, size: nat): string
    requires n <= |line|
  {
    line[if n < size then 0 else n - size..n]
  }

  /** Index `i` ends a window of `size` pairwise distinct characters. */
  predicate IsMarker(line: string, i: nat, size: nat)
  {
    i < |line| && size <= i + 1 && Distinct(line[i + 1 - size..i + 1])
  }

  /** The marker position (one past its last character) of the first window ending at `i` or later. */
  function MarkerFrom(line: string, size: nat, i: nat): Option<nat>
    decreases |line| - i
  {
    if i >= |line| then None
    else if IsMarker(line, i, size) then Some(i + 1)
    else MarkerFrom(line, size, i + 1)
  }

  function FirstMarker(line: string, size: nat): Option<nat>
  {
    MarkerFrom(line, size, 0)
  }

  /** The reported position ends the earliest distinct window; nothing is reported exactly when there is none. */
  lemma {:induction false} MarkerFromIsFirst(line: string, size: nat, from: nat)
    ensures MarkerFrom(line, size, from).Some? ==>
      var p := MarkerFrom(line, size, from).value;
      from < p <= |line| && IsMarker(line, p - 1, size) &&
      forall i :: from <= i < p - 1 ==> !IsMarker(line, i, size)
    ensures MarkerFrom(line, size, from).None? <==> forall i :: from <= i < |line| ==> !IsMarker(line, i, size)
    decreases |line| - from
  {
    MarkerFromFound(line, size, from);
    MarkerFromNone(line, size, from);
  }

  lemma {:induction false} MarkerFromFound(line: string, size: nat, from: nat)
    ensures MarkerFrom(line, size, from).Some? ==>
      var p := MarkerFrom(line, size, from).value;
      from < p <= |line| && IsMarker(line, p - 1, size) &&
      forall i :: from <= i < p - 1 ==> !IsMarker(line, i, size)
    decreases |line| - from
  {
    if from < |line| && !IsMarker(line, from, size) {
      MarkerFromFound(line, size, from + 1);
    }
  }

  lemma {:induction false} MarkerFromNone(line: string, size: nat, from: nat)
    ensures MarkerFrom(line, size, from).None? <==> forall i :: from <= i < |line| ==> !IsMarker(line, i, size)
    decreases |line| - from
  {
    if from < |line| && !IsMarker(line, from, size) {
      MarkerFromNone(line, size, from + 1);
    }
  }

  /** `FirstMarker` is one past the first index ending a distinct window of `size` characters. */
  lemma FirstMarkerIsFirst(line: string, size: nat)
    ensures FirstMarker(line, size).Some? ==>
      var p := FirstMarker(line, size).value;
      size <= p <= |line| && Distinct(line[p - size..p]) &&
      forall i: nat :: i < p - 1 ==> !IsMarker(line, i, size)
    ensures FirstMarker(line, size).None? <==> forall i: nat :: i < |line| ==> !IsMarker(line, i, size)
  {
    MarkerFromIsFirst(line, size, 0);
  }

  /** A sequence has no more distinct elements than its length, and as many exactly when they are pairwise distinct. */
  lemma {:induction false} DistinctChars(s: string)
    ensures |Chars(s)| <= |s|
    ensures |Chars(s)| == |s| <==> Distinct(s)
    decreases |s|
  {
    if s != [] {
      var p, x := s[..|s| - 1], s[|s| - 1];
      assert s == p + [x];
      DistinctChars(p);
      assert Chars(s) == Chars(p) + {x};
      if x in p {
        assert Chars(s) == Chars(p);
        var j :| 0 <= j < |p| && p[j] == x;
        assert s[j] == s[|s| - 1];
      } else {
        assert Distinct(s) <==> Distinct(p) by {
          if Distinct(p) {
            forall j, k | 0 <= j < k < |s|
              ensures s[j] != s[k]
            {
              if k == |s| - 1 {
                assert p[j] == s[j];
              } else {
                assert p[j] == s[j] && p[k] == s[k];
              }
            }
          }
          if Distinct(s) {
            forall j, k | 0 <= j < k < |p|
              ensures p[j] != p[k]
            {
              assert p[j] == s[j] && p[k] == s[k];
            }
          }
        }
      }
    }
  }

  /** In a sequence of pairwise distinct elements each element occurs once. */
  lemma {:induction false} DistinctOnce(s: string, c: char)
    requires Distinct(s) && c in s
    ensures multiset(s)[c] == 1
    decreases |s|
  {
    var p, x := s[..|s| - 1], s[|s| - 1];
    assert s == p + [x];
    assert Distinct(p) by {
      forall j, k | 0 <= j < k < |p|
        ensures p[j] != p[k]
      {
        assert p[j] == s[j] && p[k] == s[k];
      }
    }
    if c == x {
      assert multiset(p)[c] == 0;
    } else {
      DistinctOnce(p, c);
    }
  }

  /** No character occurs in a string more often than the string is long. */
  lemma Occurrences(s: string, c: char)
    ensures multiset(s)[c] <= |s|
  {
    assert |multiset(s)| == |s|;
    assert multiset{c} * multiset(s) <= multiset(s);
  }

  /** The dictionary holds exactly the keys `keys`, each mapped to its multiplicity in `ms`. */
  predicate Mirrors(counts: map<char, int>, keys: set<char>, ms: multiset<char>)
  {
    counts.Keys == keys && forall c :: c in counts ==> counts[c] == ms[c]
  }

  /**
   * The dictionary after reading `n` characters: it holds a key for every
   * character read so far, and the value is how often that character occurs
   * in the window; characters that left the window stay at 0.
   */
  predicate Tracks(counts: map<char, int>, line: string, n: nat, size: nat)
    requires n <= |line|
  {
    Mirrors(counts, Chars(line[..n]), multiset(Window(line, n, size)))
  }

  /** `counts.Values.Count(v => v == 1)`. */
  function Ones(counts: map<char, int>): nat
  {
    |set c | c in counts && counts[c] == 1|
  }

  /** Once the dictionary tracks the window, exactly `size` values of 1 means the window is a marker. */
  lemma OnesMeanMarker(counts: map<char, int>, line: string, n: nat, size: nat)
    requires 1 <= n <= |line| && 1 <= size
    requires Tracks(counts, line, n, size)
    ensures Ones(counts) == size <==> IsMarker(line, n - 1, size)
  {
    var w := Window(line, n, size);
    var ones := set c | c in counts && counts[c] == 1;
    assert ones <= Chars(w) by {
      forall c | c in ones
        ensures c in w
      {
        assert multiset(w)[c] == 1;
      }
    }
    Seqs.SubsetSize(ones, Chars(w));
    DistinctChars(w);
    if Distinct(w) {
      forall c | c in Chars(w)
        ensures c in ones
      {
        DistinctOnce(w, c);
        var j :| 0 <= j < |w| && w[j] == c;
        assert c == line[(if n < size then 0 else n - size) + j];
        assert c in line[..n];
      }
      assert ones == Chars(w);
    }
  }

  /** The dictionary after one iteration: the new character counted and, once the window is full, the leaving one uncounted. */
  function NextCounts(counts: map<char, int>, line: string, n: nat, size: nat): map<char, int>
    requires n < |line|
  {
    var added := Helpers.Incremented(counts, line[n], 1);
    if n >= size then Helpers.Decremented(added, line[n - size], 1) else added
  }

  /** How the window's contents change when one more character is read. */
  lemma WindowSlides(line: string, n: nat, size: nat)
    requires n < |line| && 1 <= size
    ensures n < size ==> Window(line, n + 1, size) == Window(line, n, size) + [line[n]]
    ensures n >= size ==> line[n - size] in Window(line, n, size)
    ensures n >= size ==>
      multiset(Window(line, n + 1, size)) == multiset(Window(line, n, size)) - multiset{line[n - size]} + multiset{line[n]}
  {
    if n >= size {
      var before, after := Window(line, n, size), Window(line, n + 1, size);
      assert before == [line[n - size]] + line[n - size + 1..n];
      assert after == line[n - size + 1..n] + [line[n]];
    }
  }

  /** Incrementing a key of a dictionary that mirrors a multiset mirrors the multiset with that key added. */
  lemma CountOneMore(counts: map<char, int>, keys: set<char>, ms: multiset<char>, c: char)
    requires Mirrors(counts, keys, ms)
    requires c in counts || ms[c] == 0
    requires ms[c] < Helpers.INT_MAX
    ensures Mirrors(Helpers.Incremented(counts, c, 1), keys + {c}, ms + multiset{c})
  {
    Helpers.IncrementCounts(counts, c, 1);
  }

  /** Decrementing a present key mirrors the multiset with one copy of it removed; the key stays. */
  lemma CountOneLess(counts: map<char, int>, keys: set<char>, ms: multiset<char>, c: char)
    requires Mirrors(counts, keys, ms)
    requires c in counts && 1 <= ms[c] <= Helpers.INT_MAX
    ensures Mirrors(Helpers.Decremented(counts, c, 1), keys, ms - multiset{c})
  {
    assert Wrap32(-1) == -1;
    Helpers.IncrementCounts(counts, c, -1);
  }

  /** A character of the window has been read, so it is a key. */
  lemma WindowInPrefix(line: string, n: nat, size: nat, c: char)
    requires n <= |line|
    requires c in Window(line, n, size)
    ensures c in line[..n]
  {
    var w := Window(line, n, size);
    var j :| 0 <= j < |w| && w[j] == c;
    assert c == line[(if n < size then 0 else n - size) + j];
  }

  /** Counting the next character: the dictionary mirrors the window with that character added. */
  lemma CountNext(counts: map<char, int>, line: string, n: nat, size: nat)
    requires n < |line| <= Helpers.INT_MAX
    requires Tracks(counts, line, n, size)
    ensures Mirrors(Helpers.Incremented(counts, line[n], 1), Chars(line[..n + 1]),
      multiset(Window(line, n, size)) + multiset{line[n]})
  {
    var c, before := line[n], Window(line, n, size);
    Occurrences(before, c);
    if c in before {
      WindowInPrefix(line, n, size, c);
    }
    CountOneMore(counts, Chars(line[..n]), multiset(before), c);
    assert line[..n + 1] == line[..n] + [c];
  }

  /** One iteration keeps the dictionary tracking the window, with every count staying a small `int`. */
  lemma NextCountsTrack(counts: map<char, int>, line: string, n: nat, size: nat)
    requires n < |line| <= Helpers.INT_MAX && 1 <= size
    requires Tracks(counts, line, n, size)
    ensures Tracks(NextCounts(counts, line, n, size), line, n + 1, size)
  {
    CountNext(counts, line, n, size);
    WindowSlides(line, n, size);
    if n >= size {
      var before, gone := Window(line, n, size), line[n - size];
      WindowInPrefix(line, n, size, gone);
      Occurrences(before, gone);
      CountOneLess(Helpers.Incremented(counts, line[n], 1), Chars(line[..n + 1]), multiset(before) + multiset{line[n]}, gone);
    }
  }

  /** One iteration: count the new character and, once the window is full, uncount the one that leaves it. */
  method Step(counts: Helpers.Dictionary<char, int>, line: string, n: nat, size: nat)
    requires n < |line| <= Helpers.INT_MAX && 1 <= size
    requires Tracks(counts.items, line, n, size)
    modifies counts
    ensures counts.items == NextCounts(old(counts.items), line, n, size)
    ensures Tracks(counts.items, line, n + 1, size)
  {
    NextCountsTrack(counts.items, line, n, size);
    Helpers.Increment(counts, line[n], 1);
    if n >= size {
      Helpers.Decrement(counts, line[n - size], 1);
    }
  }

  /** `Run`: the position reported is the first marker, and nothing is reported when the line has none. */
  method Run(line: string, size: nat) returns (report: Option<nat>)
    requires |line| <= Helpers.INT_MAX && 1 <= size
    ensures report == FirstMarker(line, size)
  {
    var counts := new Helpers.Dictionary<char, int>();
    var i := 0;
    while i < |line|
      invariant i <= |line|
      invariant Tracks(counts.items, line, i, size)
      invariant FirstMarker(line, size) == MarkerFrom(line, size, i)
    {
      Step(counts, line, i, size);
      OnesMeanMarker(counts.items, line, i + 1, size);
      if Ones(counts.items) == size {
        return Some(i + 1);
      }
      i := i + 1;
    }
    return None;
  }

  /** The `size` characters from `j` on lie inside the line and are pairwise distinct. */
  predicate DistinctWindow(line: string, j: int, size: nat)
  {
    0 <= j && j + size <= |line| && |Chars(line[j..j + size])| == size
  }

  /** The LINQ scan from window start `i`: the first start whose substring has `size` distinct characters, -1 past the end. */
  function LinqHeaderFrom(line: string, size: nat, i: nat): (r: Result<int>)
    ensures r.Failure? ==> r.error == OutOfRange
    ensures r.Success? && r.value != -1 ==>
      i <= r.value && DistinctWindow(line, r.value, size) && forall j :: i <= j < r.value ==> !DistinctWindow(line, j, size)
    decreases |line| - i
  {
    if i >= |line| then Success(-1)
    else if i + size > |line| then Failure(OutOfRange)
    else if |Chars(line[i..i + size])| == size then Success(i)
    else LinqHeaderFrom(line, size, i + 1)
  }

  /** `RunLinq`: the header start plus `size`. */
  function RunLinq(line: string, size: nat): (r: Result<int>)
    ensures r.Failure? ==> r.error == OutOfRange
    ensures r.Success? && r.value != size - 1 ==>
      size <= r.value && DistinctWindow(line, r.value - size, size)
      && forall j :: 0 <= j < r.value - size ==> !DistinctWindow(line, j, size)
  {
    match LinqHeaderFrom(line, size, 0)
    case Failure(e) => Failure(e)
    case Success(start) => Success(start + size)
  }

  /** Before `size - 1` no window is full, so the search may as well start there. */
  lemma {:induction false} NoEarlyMarker(line: string, size: nat, i: nat)
    requires i + 1 <= size && i <= |line|
    ensures FirstMarker(line, size) == MarkerFrom(line, size, i)
  {
    if i > 0 {
      NoEarlyMarker(line, size, i - 1);
    }
  }

  /** The LINQ scan from window start `j` agrees with the loop's search from window end `j + size - 1`. */
  lemma {:induction false} LinqFollowsLoop(line: string, size: nat, j: nat)
    requires 1 <= size && j + size <= |line| + 1
    ensures MarkerFrom(line, size, j + size - 1).Some? ==>
      LinqHeaderFrom(line, size, j) == Success(MarkerFrom(line, size, j + size - 1).value - size)
    ensures MarkerFrom(line, size, j + size - 1).None? && j < |line| ==>
      LinqHeaderFrom(line, size, j) == Failure(OutOfRange)
    decreases |line| - j
  {
    var i := j + size - 1;
    if i < |line| {
      DistinctChars(line[j..j + size]);
      assert IsMarker(line, i, size) <==> |Chars(line[j..j + size])| == size;
      if !IsMarker(line, i, size) {
        LinqFollowsLoop(line, size, j + 1);
      }
    }
  }

  /**
   * Both versions report the same marker position when the line has one.
   * Without a marker the loop reports nothing, while the LINQ version runs
   * `Substring` past the end of a non-empty line, and on an empty line
   * reports `size - 1` from the -1 of the failed search.
   */
  lemma LinqMatchesLoop(line: string, size: nat)
    requires 1 <= size
    ensures FirstMarker(line, size).Some? ==> RunLinq(line, size) == Success(FirstMarker(line, size).value)
    ensures FirstMarker(line, size).None? ==>
      RunLinq(line, size) == if |line| == 0 then Success(size - 1) else Failure(OutOfRange)
  {
    if |line| > 0 {
      if size - 1 <= |line| {
        NoEarlyMarker(line, size, size - 1);
        LinqFollowsLoop(line, size, 0);
      } else {
        NoEarlyMarker(line, size, |line|);
      }
    }
  }
}
