/**
 * The sequential breadth-first state-space search shared by the solvers:
 * a FIFO frontier, an optional dedup table from state identity to the best
 * admitted score, and a running best state.
 */
module Algorithms {
  import opened Wrappers

  /**
   * The caller's behaviour. `getIdentity` is nullable in the source; when it is
   * `None` neither `getScore` nor `isBetterScore` is ever called.
   */
  datatype Callbacks<!S, I, !Sc> = Callbacks(
    nextStates: S -> seq<S>,
    isBetterState: (S, S) -> bool,
    getIdentity: Option<S -> I>,
    getScore: S -> Sc,
    isBetterScore: (Sc, Sc) -> bool)

  /** The running best after testing `states`, in order, against a start value. */
  function BestAfter<S>(isBetterState: (S, S) -> bool, start: S, states: seq<S>): (best: S)
    ensures best == start || best in states
    decreases |states|
  {
    if states == [] then start
    else
      var b := BestAfter(isBetterState, start, states[..|states| - 1]);
      var s := states[|states| - 1];
      if isBetterState(s, b) then s else b
  }

  lemma BestAfterSnoc<S>(isBetterState: (S, S) -> bool, start: S, states: seq<S>, s: S)
    ensures BestAfter(isBetterState, start, states + [s])
         == if isBetterState(s, BestAfter(isBetterState, start, states)) then s else BestAfter(isBetterState, start, states)
  {
    assert (states + [s])[..|states|] == states;
  }

  /** Whether the table lets successor `n` through when identities are in use. */
  predicate Admits<S, I(==), Sc>(getIdentity: S -> I, getScore: S -> Sc, isBetterScore: (Sc, Sc) -> bool,
                                 table: map<I, Sc>, n: S)
  {
    getIdentity(n) !in table || isBetterScore(getScore(n), table[getIdentity(n)])
  }

  /**
   * Processing one dequeued state's successors `ns` in order: the ones that are
   * enqueued, and the dedup table afterwards.
   */
  function AdmitAll<S, I(==), Sc>(cb: Callbacks<S, I, Sc>, table: map<I, Sc>, ns: seq<S>): (r: (seq<S>, map<I, Sc>))
    ensures table.Keys <= r.1.Keys
    ensures cb.getIdentity.None? ==> r == (ns, table)
    decreases |ns|
  {
    if ns == [] then ([], table)
    else
      var (admitted, t) := AdmitAll(cb, table, ns[..|ns| - 1]);
      var n := ns[|ns| - 1];
      assert ns == ns[..|ns| - 1] + [n];
      match cb.getIdentity
      case None => (admitted + [n], t)
      case Some(id) =>
        if Admits(id, cb.getScore, cb.isBetterScore, t, n) then (admitted + [n], t[id(n) := cb.getScore(n)])
        else (admitted, t)
  }

  /** The table after writing `getScore(n)` under `getIdentity(n)` for each `n` of `ns`, in order. */
  function Record<S, I(==), Sc>(getIdentity: S -> I, getScore: S -> Sc, table: map<I, Sc>, ns: seq<S>): map<I, Sc>
    decreases |ns|
  {
    if ns == [] then table
    else Record(getIdentity, getScore, table, ns[..|ns| - 1])[getIdentity(ns[|ns| - 1]) := getScore(ns[|ns| - 1])]
  }

  /** `Record` adds the identities written to the keys. */
  lemma {:induction false} RecordKeys<S, I, Sc>(getIdentity: S -> I, getScore: S -> Sc, table: map<I, Sc>, ns: seq<S>)
    ensures Record(getIdentity, getScore, table, ns).Keys == table.Keys + set n | n in ns :: getIdentity(n)
    decreases |ns|
  {
    if ns != [] {
      var prefix, last := ns[..|ns| - 1], ns[|ns| - 1];
      RecordKeys(getIdentity, getScore, table, prefix);
      assert ns == prefix + [last];
      assert (set n | n in ns :: getIdentity(n)) == (set n | n in prefix :: getIdentity(n)) + {getIdentity(last)};
    }
  }

  /** An identity written by `Record` maps to the score of the last state having it. */
  lemma {:induction false} RecordLatest<S, I, Sc>(getIdentity: S -> I, getScore: S -> Sc, table: map<I, Sc>, ns: seq<S>)
    ensures forall j :: 0 <= j < |ns| && (forall j' :: j < j' < |ns| ==> getIdentity(ns[j']) != getIdentity(ns[j]))
                        ==> getIdentity(ns[j]) in Record(getIdentity, getScore, table, ns)
                            && Record(getIdentity, getScore, table, ns)[getIdentity(ns[j])] == getScore(ns[j])
    decreases |ns|
  {
    if ns != [] {
      var prefix, last := ns[..|ns| - 1], ns[|ns| - 1];
      RecordLatest(getIdentity, getScore, table, prefix);
      forall j | 0 <= j < |ns| && (forall j' :: j < j' < |ns| ==> getIdentity(ns[j']) != getIdentity(ns[j]))
        ensures getIdentity(ns[j]) in Record(getIdentity, getScore, table, ns)
        ensures Record(getIdentity, getScore, table, ns)[getIdentity(ns[j])] == getScore(ns[j])
      {
        if j < |prefix| {
          assert prefix[j] == ns[j];
          assert getIdentity(last) != getIdentity(ns[j]);
        }
      }
    }
  }

  /** An identity that no state of `ns` has keeps its earlier score. */
  lemma {:induction false} RecordKeeps<S, I, Sc>(getIdentity: S -> I, getScore: S -> Sc, table: map<I, Sc>, ns: seq<S>)
    ensures forall k :: k in table && (forall n :: n in ns ==> getIdentity(n) != k)
                        ==> k in Record(getIdentity, getScore, table, ns)
                            && Record(getIdentity, getScore, table, ns)[k] == table[k]
    decreases |ns|
  {
    if ns != [] {
      var prefix, last := ns[..|ns| - 1], ns[|ns| - 1];
      RecordKeeps(getIdentity, getScore, table, prefix);
      assert forall n :: n in prefix ==> n in ns;
      assert last in ns;
    }
  }

  /**
   * What `Record` stores: the identities written are added to the keys, and an
   * identity maps to the score of the last state of `ns` having it, or keeps its
   * earlier score when no state of `ns` has it.
   */
  lemma RecordContents<S, I, Sc>(getIdentity: S -> I, getScore: S -> Sc, table: map<I, Sc>, ns: seq<S>)
    ensures Record(getIdentity, getScore, table, ns).Keys == table.Keys + set n | n in ns :: getIdentity(n)
    ensures forall j :: 0 <= j < |ns| && (forall j' :: j < j' < |ns| ==> getIdentity(ns[j']) != getIdentity(ns[j]))
                        ==> Record(getIdentity, getScore, table, ns)[getIdentity(ns[j])] == getScore(ns[j])
    ensures forall k :: k in table && (forall n :: n in ns ==> getIdentity(n) != k)
                        ==> Record(getIdentity, getScore, table, ns)[k] == table[k]
  {
    RecordKeys(getIdentity, getScore, table, ns);
    RecordLatest(getIdentity, getScore, table, ns);
    RecordKeeps(getIdentity, getScore, table, ns);
  }

  /**
   * The whole search seen as a trace: expanding `dequeued` in order, starting from
   * `table0`, yields the successors enqueued (in order) and the final table.
   */
  function ExpandAll<S, I(==), Sc>(cb: Callbacks<S, I, Sc>, table0: map<I, Sc>, dequeued: seq<S>): (r: (seq<S>, map<I, Sc>))
    decreases |dequeued|
  {
    if dequeued == [] then ([], table0)
    else
      var (enqueued, t) := ExpandAll(cb, table0, dequeued[..|dequeued| - 1]);
      var (admitted, t') := AdmitAll(cb, t, cb.nextStates(dequeued[|dequeued| - 1]));
      (enqueued + admitted, t')
  }

  lemma ExpandAllSnoc<S, I, Sc>(cb: Callbacks<S, I, Sc>, table0: map<I, Sc>, dequeued: seq<S>, state: S)
    ensures ExpandAll(cb, table0, dequeued + [state])
         == (ExpandAll(cb, table0, dequeued).0 + AdmitAll(cb, ExpandAll(cb, table0, dequeued).1, cb.nextStates(state)).0,
             AdmitAll(cb, ExpandAll(cb, table0, dequeued).1, cb.nextStates(state)).1)
  {
    assert (dequeued + [state])[..|dequeued|] == dequeued;
  }

  /** The successors of `states`, concatenated in order. */
  function Flatten<S>(nextStates: S -> seq<S>, states: seq<S>): (r: seq<S>)
    ensures forall s :: s in states ==> forall n :: n in nextStates(s) ==> n in r
    decreases |states|
  {
    if states == [] then [] else Flatten(nextStates, states[..|states| - 1]) + nextStates(states[|states| - 1])
  }

  /**
   * If "better" is a strict order, nothing tested, and not the start value, is
   * better than the final best.
   */
  lemma {:induction false} BestIsMaximal<S>(isBetterState: (S, S) -> bool, start: S, states: seq<S>)
    requires forall a :: !isBetterState(a, a)
    requires forall a, b, c :: isBetterState(a, b) && isBetterState(b, c) ==> isBetterState(a, c)
    ensures !isBetterState(start, BestAfter(isBetterState, start, states))
    ensures forall s :: s in states ==> !isBetterState(s, BestAfter(isBetterState, start, states))
    decreases |states|
  {
    if states != [] {
      var prefix, s := states[..|states| - 1], states[|states| - 1];
      assert states == prefix + [s];
      BestIsMaximal(isBetterState, start, prefix);
    }
  }

  /** The enqueued successors are drawn from the candidates: a sub-multiset of them. */
  lemma {:induction false} AdmittedAreCandidates<S, I, Sc>(cb: Callbacks<S, I, Sc>, table: map<I, Sc>, ns: seq<S>)
    ensures multiset(AdmitAll(cb, table, ns).0) <= multiset(ns)
    decreases |ns|
  {
    if ns != [] {
      var prefix := ns[..|ns| - 1];
      assert ns == prefix + [ns[|ns| - 1]];
      AdmittedAreCandidates(cb, table, prefix);
    }
  }

  /** Every enqueued successor is one of the candidates, and there are no more of them. */
  lemma {:induction false} AdmittedFromCandidates<S, I, Sc>(cb: Callbacks<S, I, Sc>, table: map<I, Sc>, ns: seq<S>)
    ensures |AdmitAll(cb, table, ns).0| <= |ns|
    ensures forall x :: x in AdmitAll(cb, table, ns).0 ==> x in ns
    decreases |ns|
  {
    if ns != [] {
      var prefix := ns[..|ns| - 1];
      assert ns == prefix + [ns[|ns| - 1]];
      AdmittedFromCandidates(cb, table, prefix);
    }
  }

  /**
   * The dedup rule, one successor at a time: candidate `ns[j]` is enqueued (and its
   * score stored under its identity) iff its identity has no entry yet or its score
   * is better than the stored one; otherwise the queue and the table are unchanged.
   */
  lemma AdmitOne<S, I, Sc>(cb: Callbacks<S, I, Sc>, table: map<I, Sc>, ns: seq<S>, j: nat)
    requires j < |ns| && cb.getIdentity.Some?
    ensures var (before, t) := AdmitAll(cb, table, ns[..j]);
            var id, n := cb.getIdentity.value, ns[j];
            AdmitAll(cb, table, ns[..j + 1])
              == if id(n) !in t || cb.isBetterScore(cb.getScore(n), t[id(n)]) then (before + [n], t[id(n) := cb.getScore(n)])
                 else (before, t)
  {
    assert ns[..j + 1][..j] == ns[..j];
  }

  /**
   * With an identity function, the table after a batch holds the earlier table
   * overwritten by the scores of the admitted successors, in order: each identity
   * maps to the score of the last admitted successor having it.
   */
  lemma {:induction false} AdmitAllRecords<S, I, Sc>(cb: Callbacks<S, I, Sc>, table: map<I, Sc>, ns: seq<S>)
    requires cb.getIdentity.Some?
    ensures AdmitAll(cb, table, ns).1 == Record(cb.getIdentity.value, cb.getScore, table, AdmitAll(cb, table, ns).0)
    decreases |ns|
  {
    if ns != [] {
      var prefix := ns[..|ns| - 1];
      AdmitAllRecords(cb, table, prefix);
      var (admitted, t) := AdmitAll(cb, table, prefix);
      var n := ns[|ns| - 1];
      var id := cb.getIdentity.value;
      if Admits(id, cb.getScore, cb.isBetterScore, t, n) {
        assert (admitted + [n])[..|admitted|] == admitted;
      }
    }
  }

  /** Writing two batches in turn is writing their concatenation. */
  lemma {:induction false} RecordAppend<S, I, Sc>(getIdentity: S -> I, getScore: S -> Sc, table: map<I, Sc>, xs: seq<S>, ys: seq<S>)
    ensures Record(getIdentity, getScore, Record(getIdentity, getScore, table, xs), ys) == Record(getIdentity, getScore, table, xs + ys)
    decreases |ys|
  {
    if ys != [] {
      var prefix := ys[..|ys| - 1];
      RecordAppend(getIdentity, getScore, table, xs, prefix);
      assert (xs + ys)[..|xs + ys| - 1] == xs + prefix;
    } else {
      assert xs + ys == xs;
    }
  }

  /**
   * Over a whole search with an identity function, the table is exactly the record
   * of the enqueued successors, starting empty: the initial state is never written,
   * and each identity holds the score of the latest successor enqueued with it.
   */
  lemma {:induction false} TableRecordsSuccessors<S, I, Sc>(cb: Callbacks<S, I, Sc>, table0: map<I, Sc>, dequeued: seq<S>)
    requires cb.getIdentity.Some?
    ensures ExpandAll(cb, table0, dequeued).1 == Record(cb.getIdentity.value, cb.getScore, table0, ExpandAll(cb, table0, dequeued).0)
    decreases |dequeued|
  {
    if dequeued != [] {
      var prefix := dequeued[..|dequeued| - 1];
      TableRecordsSuccessors(cb, table0, prefix);
      var (enqueued, t) := ExpandAll(cb, table0, prefix);
      var ns := cb.nextStates(dequeued[|dequeued| - 1]);
      AdmitAllRecords(cb, t, ns);
      RecordAppend(cb.getIdentity.value, cb.getScore, table0, enqueued, AdmitAll(cb, t, ns).0);
    }
  }

  /** Without an identity function every successor is enqueued and the table stays empty. */
  lemma {:induction false} NoIdentityEnqueuesAll<S, I, Sc>(cb: Callbacks<S, I, Sc>, table0: map<I, Sc>, dequeued: seq<S>)
    requires cb.getIdentity.None?
    ensures ExpandAll(cb, table0, dequeued) == (Flatten(cb.nextStates, dequeued), table0)
    decreases |dequeued|
  {
    if dequeued != [] {
      NoIdentityEnqueuesAll(cb, table0, dequeued[..|dequeued| - 1]);
    }
  }

  lemma ImprovesOnImproved<Sc>(isBetter: (Sc, Sc) -> bool, a: Sc, b: Sc, c: Sc)
    requires forall x, y, z :: isBetter(x, y) && isBetter(y, z) ==> isBetter(x, z)
    requires isBetter(a, b) && (b == c || isBetter(b, c))
    ensures isBetter(a, c)
  {
  }

  /**
   * If "better score" is a strict order, a stored score never gets worse: each
   * identity already in the table keeps its score or gets a better one.
   */
  lemma {:induction false} StoredScoresImprove<S, I, Sc>(cb: Callbacks<S, I, Sc>, table: map<I, Sc>, ns: seq<S>)
    requires forall a, b, c :: cb.isBetterScore(a, b) && cb.isBetterScore(b, c) ==> cb.isBetterScore(a, c)
    ensures forall k :: k in table ==> AdmitAll(cb, table, ns).1[k] == table[k]
                                       || cb.isBetterScore(AdmitAll(cb, table, ns).1[k], table[k])
    decreases |ns|
  {
    if ns != [] {
      var prefix := ns[..|ns| - 1];
      StoredScoresImprove(cb, table, prefix);
      var (admitted, t) := AdmitAll(cb, table, prefix);
      var n := ns[|ns| - 1];
      if cb.getIdentity.Some? && Admits(cb.getIdentity.value, cb.getScore, cb.isBetterScore, t, n) {
        var id := cb.getIdentity.value;
        assert AdmitAll(cb, table, ns).1 == t[id(n) := cb.getScore(n)];
        forall k | k in table
          ensures AdmitAll(cb, table, ns).1[k] == table[k] || cb.isBetterScore(AdmitAll(cb, table, ns).1[k], table[k])
        {
          assert t[k] == table[k] || cb.isBetterScore(t[k], table[k]);
          if k == id(n) {
            assert k in t && cb.isBetterScore(cb.getScore(n), t[k]);
            assert AdmitAll(cb, table, ns).1[k] == cb.getScore(n);
            ImprovesOnImproved(cb.isBetterScore, cb.getScore(n), t[k], table[k]);
          } else {
            assert AdmitAll(cb, table, ns).1[k] == t[k];
          }
        }
      }
    }
  }

  /**
   * The inner loop of the search: run each successor of one dequeued state past
   * the dedup table, returning those enqueued, in order, and the updated table.
   */
  method AdmitSuccessors<S, I(==), Sc>(cb: Callbacks<S, I, Sc>, loopbackDetection: map<I, Sc>, next: seq<S>)
    returns (admitted: seq<S>, table: map<I, Sc>)
    ensures (admitted, table) == AdmitAll(cb, loopbackDetection, next)
  {
    admitted, table := [], loopbackDetection;
    for k := 0 to |next|
      invariant (admitted, table) == AdmitAll(cb, loopbackDetection, next[..k])
    {
      var n := next[k];
      assert next[..k + 1][..k] == next[..k];
      if cb.getIdentity.Some? {
        var stateId := cb.getIdentity.value(n);
        var found := stateId in table;
        var score := cb.getScore(n);
        if found && !cb.isBetterScore(score, table[stateId]) {
          continue;
        }
        table := table[stateId := score];
      }
      admitted := admitted + [n];
    }
    assert next[..|next|] == next;
  }

  /** Expanding the head of the queue extends the trace by the successors it admits. */
  lemma TraceStep<S, I, Sc>(cb: Callbacks<S, I, Sc>, table0: map<I, Sc>, dequeued: seq<S>, queue: seq<S>,
                            table: map<I, Sc>, admitted: seq<S>, table': map<I, Sc>)
    requires queue != [] && |dequeued + queue| > 0
    requires ((dequeued + queue)[1..], table) == ExpandAll(cb, table0, dequeued)
    requires (admitted, table') == AdmitAll(cb, table, cb.nextStates(queue[0]))
    ensures ((dequeued + [queue[0]] + (queue[1..] + admitted))[1..], table') == ExpandAll(cb, table0, dequeued + [queue[0]])
  {
    ExpandAllSnoc(cb, table0, dequeued, queue[0]);
    assert (dequeued + [queue[0]] + (queue[1..] + admitted))[1..] == (dequeued + queue)[1..] + admitted;
  }

  /**
   * The search. `fuel` bounds the number of dequeues (the source loops until the
   * queue is empty, which need not happen); `finished` says the queue emptied.
   * `dequeued` and `enqueued` record every state taken from and put on the queue.
   */
  method BreadthFirstSearch<S, I(==), Sc>(initial: S, nextStates: S -> seq<S>, isBetterState: (S, S) -> bool,
                                          getIdentity: Option<S -> I>, getScore: S -> Sc,
                                          isBetterScore: (Sc, Sc) -> bool, fuel: nat)
    returns (best: S, finished: bool, ghost dequeued: seq<S>, ghost enqueued: seq<S>, ghost table: map<I, Sc>)
    ensures |dequeued| <= fuel && (!finished ==> |dequeued| == fuel)
    ensures fuel > 0 ==> |dequeued| > 0 && dequeued[0] == initial
    ensures |enqueued| > 0 && enqueued[0] == initial
    ensures dequeued <= enqueued && (finished <==> dequeued == enqueued)
    ensures best == BestAfter(isBetterState, initial, dequeued)
    ensures (enqueued[1..], table) == ExpandAll(Callbacks(nextStates, isBetterState, getIdentity, getScore, isBetterScore), map[], dequeued)
  {
    var cb := Callbacks(nextStates, isBetterState, getIdentity, getScore, isBetterScore);
    var queue := [initial];
    var loopbackDetection: map<I, Sc> := map[];
    best := initial;
    var steps := 0;
    dequeued := [];
    assert ([] + queue)[1..] == [];
    while queue != [] && steps < fuel
      invariant steps == |dequeued| <= fuel
      invariant |dequeued + queue| > 0 && (dequeued + queue)[0] == initial
      invariant ((dequeued + queue)[1..], loopbackDetection) == ExpandAll(cb, map[], dequeued)
      invariant best == BestAfter(isBetterState, initial, dequeued)
      decreases fuel - steps
    {
      var state := queue[0];
      var admitted, table' := AdmitSuccessors(cb, loopbackDetection, nextStates(state));
      TraceStep(cb, map[], dequeued, queue, loopbackDetection, admitted, table');
      BestAfterSnoc(isBetterState, initial, dequeued, state);
      assert (dequeued + [state] + (queue[1..] + admitted))[0] == initial;
      if isBetterState(state, best) {
        best := state;
      }
      dequeued, queue, loopbackDetection := dequeued + [state], queue[1..] + admitted, table';
      steps := steps + 1;
    }
    finished := queue == [];
    enqueued, table := dequeued + queue, loopbackDetection;
  }

  /** "Better" under a comparer: the comparer orders the first argument strictly after the second. */
  function IsGreater<T>(compare: (T, T) -> int): (T, T) -> bool
  {
    (a, b) => compare(a, b) > 0
  }

  /** The overload taking comparers for states and scores. */
  method BreadthFirstSearchWithComparers<S, I(==), Sc>(initial: S, nextStates: S -> seq<S>, stateComparer: (S, S) -> int,
                                                       getIdentity: Option<S -> I>, getScore: S -> Sc,
                                                       scoreComparer: (Sc, Sc) -> int, fuel: nat)
    returns (best: S, finished: bool, ghost dequeued: seq<S>, ghost enqueued: seq<S>, ghost table: map<I, Sc>)
    ensures |dequeued| <= fuel && (!finished ==> |dequeued| == fuel)
    ensures |enqueued| > 0 && enqueued[0] == initial
    ensures dequeued <= enqueued && (finished <==> dequeued == enqueued)
    ensures best == BestAfter(IsGreater(stateComparer), initial, dequeued)
    ensures (enqueued[1..], table)
         == ExpandAll(Callbacks(nextStates, IsGreater(stateComparer), getIdentity, getScore, IsGreater(scoreComparer)), map[], dequeued)
  {
    best, finished, dequeued, enqueued, table :=
      BreadthFirstSearch(initial, nextStates, IsGreater(stateComparer), getIdentity, getScore, IsGreater(scoreComparer), fuel);
  }

  /**
   * The overload for naturally ordered states and scores. `Comparer<T>.Default`
   * defers to the type's own `CompareTo`, which is passed in here.
   */
  method BreadthFirstSearchByNaturalOrder<S, I(==), Sc>(initial: S, nextStates: S -> seq<S>,
                                                        getIdentity: Option<S -> I>, getScore: S -> Sc,
                                                        stateCompareTo: (S, S) -> int, scoreCompareTo: (Sc, Sc) -> int,
                                                        fuel: nat)
    returns (best: S, finished: bool, ghost dequeued: seq<S>, ghost enqueued: seq<S>, ghost table: map<I, Sc>)
    ensures |dequeued| <= fuel && (!finished ==> |dequeued| == fuel)
    ensures |enqueued| > 0 && enqueued[0] == initial
    ensures dequeued <= enqueued && (finished <==> dequeued == enqueued)
    ensures best == BestAfter(IsGreater(stateCompareTo), initial, dequeued)
    ensures (enqueued[1..], table)
         == ExpandAll(Callbacks(nextStates, IsGreater(stateCompareTo), getIdentity, getScore, IsGreater(scoreCompareTo)), map[], dequeued)
  {
    best, finished, dequeued, enqueued, table :=
      BreadthFirstSearchWithComparers(initial, nextStates, stateCompareTo, getIdentity, getScore, scoreCompareTo, fuel);
  }

  /**
   * The overload without dedup: the identity callback is null, so every successor
   * of every dequeued state is enqueued, in order.
   */
  method BreadthFirstSearchWithoutDedup<S>(initial: S, nextStates: S -> seq<S>, isBetterState: (S, S) -> bool, fuel: nat)
    returns (best: S, finished: bool, ghost dequeued: seq<S>, ghost enqueued: seq<S>)
    ensures |dequeued| <= fuel && (!finished ==> |dequeued| == fuel)
    ensures |enqueued| > 0 && enqueued[0] == initial
    ensures dequeued <= enqueued && (finished <==> dequeued == enqueued)
    ensures best == BestAfter(isBetterState, initial, dequeued)
    ensures enqueued[1..] == Flatten(nextStates, dequeued)
  {
    ghost var table: map<int, int>;
    best, finished, dequeued, enqueued, table :=
      BreadthFirstSearch<S, int, int>(initial, nextStates, isBetterState, None, _ => 0, (_, _) => false, fuel);
    ghost var cb: Callbacks<S, int, int> := Callbacks(nextStates, isBetterState, None, _ => 0, (_, _) => false);
    NoIdentityEnqueuesAll(cb, map[], dequeued);
  }
}
