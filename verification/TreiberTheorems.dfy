/** What holds of the Treiber stack in every run of any number of threads. */
module TreiberTheorems {
  import opened Wrappers
  import opened AtomicStack
  import opened Sequences
  import opened TreiberStack
  import opened TreiberInvariant
  import opened TreiberLinearizability

  lemma InitInv(threads: set<Tid>)
    ensures Inv(Init(threads))
  {
    var s := Init(threads);
    assert HeadChain(s) == [] && TrashChain(s) == [];
    var none: seq<Addr> := [];
    assert none + none == none;
    assert Shape(s, none, none);
    assert Values(s.heap, none) == [];
  }

  lemma StepInv(s: State, t: Tid, a: Action)
    requires Inv(s) && Enabled(s, t, a)
    ensures Inv(Do(s, t, a))
    ensures HeadChain(Do(s, t, a)) == NewChain(s, t, a, HeadChain(s))
    ensures TrashChain(Do(s, t, a)) == NewTrash(s, t, a, TrashChain(s))
  {
    var c, d := HeadChain(s), TrashChain(s);
    StepShape(s, t, a, c, d);
    StepLog(s, t, a, c, NewChain(s, t, a, c));
    ShapeIsWalked(Do(s, t, a), NewChain(s, t, a, c), NewTrash(s, t, a, d));
  }

  lemma NextInv(s: State, s': State)
    requires Inv(s) && Next(s, s')
    ensures Inv(s') && s'.pcs.Keys == s.pcs.Keys
  {
    hide Inv;
    var t, a :| Enabled(s, t, a) && s' == Do(s, t, a);
    StepInv(s, t, a);
    StepEvents(s, t, a);
  }

  /** In every state of every run the nodes are partitioned between the acyclic head chain, the
      acyclic trash chain and the hands of single threads, and the log is accepted. */
  lemma {:induction false} RunInv(run: seq<State>, threads: set<Tid>, i: nat)
    requires IsRun(run, threads) && i < |run|
    ensures Inv(run[i]) && run[i].pcs.Keys == threads
  {
    hide Next;
    hide Inv;
    if i == 0 {
      InitInv(threads);
    } else {
      RunInv(run, threads, i - 1);
      NextInv(run[i - 1], run[i]);
    }
  }

  /** Linearizability: the takes that the steps log replay on a sequential LIFO stack with the
      results the threads return, and leave exactly the values now on the head chain. */
  lemma RunsAreLinearizable(run: seq<State>, threads: set<Tid>, i: nat)
    requires IsRun(run, threads) && i < |run|
    ensures Accepted(run[i].log) && Linearizable(Visible(run[i].log))
    ensures Inv(run[i]) && Replay(run[i].log) == Some(Values(run[i].heap, HeadChain(run[i])))
  {
    RunInv(run, threads, i);
    var s := run[i];
    forall t
      ensures Phase(s.log, t).Some?
    {
      if t in s.pcs {
        assert LogExplains(s, HeadChain(s));
      }
    }
  }

  /** Values pushed are values popped plus values on the stack, with multiplicity. */
  lemma NothingLostOrDuplicated(run: seq<State>, threads: set<Tid>, i: nat)
    requires IsRun(run, threads) && i < |run|
    ensures Inv(run[i])
    ensures multiset(PushedValues(run[i].log))
            == multiset(PoppedValues(run[i].log)) + multiset(Values(run[i].heap, HeadChain(run[i])))
  {
    RunsAreLinearizable(run, threads, i);
    Conservation(run[i].log);
  }

  /** At the moment the compare-exchange of a pop succeeds, the `next` it read, perhaps long ago,
      is the current one, although retired nodes are relinked under other threads' hands. */
  lemma SuccessfulPopIsCurrent(run: seq<State>, threads: set<Tid>, i: nat, t: Tid)
    requires IsRun(run, threads) && i < |run|
    requires t in threads && t in run[i].pcs && run[i].pcs[t].PopCas? && run[i].head == At(run[i].pcs[t].cur)
    ensures run[i].pcs[t].cur in run[i].heap && run[i].pcs[t].next == run[i].heap[run[i].pcs[t].cur].next
    ensures HeadChain(run[i]) != [] && HeadChain(run[i])[0] == run[i].pcs[t].cur
  {
    RunInv(run, threads, i);
    PopInstallsCurrentNext(run[i], t, HeadChain(run[i]), TrashChain(run[i]));
  }

  /** A thread inside an operation can always take a step: no pointer it follows is dangling. */
  lemma CanStep(s: State, t: Tid) returns (a: Action)
    requires Inv(s) && t in s.pcs && !s.pcs[t].Idle?
    ensures Enabled(s, t, a) && !a.Spurious?
  {
    assert LocalsAgree(s.heap, HeadChain(s), s.pcs[t]);
    var pc := s.pcs[t];
    if pc.PushNew? {
      var n := Unused(s.heap.Keys);
      a := Alloc(n);
    } else {
      a := Go;
      assert pc.PopNext? || pc.PopCas? ==> Watches(pc, pc.cur);
      assert pc.PushLink? || pc.PushCas? || pc.PopMove? || pc.TrashLink? ==> Owns(pc, pc.node);
    }
  }

  lemma Progress(run: seq<State>, threads: set<Tid>, i: nat, t: Tid)
    requires IsRun(run, threads) && i < |run| && t in threads
    ensures exists a :: Enabled(run[i], t, a)
  {
    RunInv(run, threads, i);
    if run[i].pcs[t].Idle? {
      assert Enabled(run[i], t, StartPop);
    } else {
      var a := CanStep(run[i], t);
    }
  }

  lemma {:induction false} Unused(S: set<Addr>) returns (n: Addr)
    ensures forall m :: m in S ==> m < n
    decreases |S|
  {
    if S == {} {
      n := 0;
    } else {
      var m :| m in S;
      var k := Unused(S - {m});
      n := if m < k then k else m + 1;
      assert S == (S - {m}) + {m};
    }
  }

  // ---- A node that leaves the head chain never returns to it ----

  /** Node `n` has been on the head chain, or will never be. */
  ghost predicate Gone(s: State, n: Addr) {
    n in s.heap && n !in HeadChain(s) && forall t :: t in s.pcs ==> !HoldsFresh(s.pcs[t], n)
  }

  lemma StepKeepsGone(s: State, t: Tid, a: Action, n: Addr)
    requires Inv(s) && Enabled(s, t, a)
    requires Gone(s, n) || (n in HeadChain(s) && n !in HeadChain(Do(s, t, a)))
    ensures Gone(Do(s, t, a), n)
  {
    StepInv(s, t, a);
    StepEvents(s, t, a);
    StepValues(s, t, a);
    StepFresh(s, t, a, n);
    ChainedNotFresh(s, HeadChain(s), TrashChain(s), n);
    NewInChain(s, t, a, HeadChain(s), n);
    hide Do;
    hide Inv;
    hide NewChain;
  }

  lemma NewInChain(s: State, t: Tid, a: Action, c: seq<Addr>, n: Addr)
    requires t in s.pcs
    ensures n in NewChain(s, t, a, c) ==> n in c || HoldsFresh(s.pcs[t], n)
  {
  }

  lemma ChainedNotFresh(s: State, c: seq<Addr>, d: seq<Addr>, n: Addr)
    requires Shape(s, c, d)
    ensures n in c ==> n in s.heap && forall u :: u in s.pcs ==> !HoldsFresh(s.pcs[u], n)
  {
    if n in c {
      assert n in c + d && n in Elements(c + d);
      assert forall u :: u in s.pcs ==> !Owns(s.pcs[u], n);
    }
  }

  lemma StepFresh(s: State, t: Tid, a: Action, n: Addr)
    requires Enabled(s, t, a)
    ensures HoldsFresh(Do(s, t, a).pcs[t], n) ==> HoldsFresh(s.pcs[t], n) || n !in s.heap
  {
  }

  lemma NextKeepsGone(s: State, s': State, n: Addr)
    requires Inv(s) && Next(s, s')
    requires Gone(s, n) || (n in HeadChain(s) && n !in HeadChain(s'))
    ensures Gone(s', n)
  {
    hide Inv;
    hide Gone;
    var t, a :| Enabled(s, t, a) && s' == Do(s, t, a);
    StepKeepsGone(s, t, a, n);
  }

  lemma {:induction false} StaysGone(run: seq<State>, threads: set<Tid>, j: nat, k: nat, n: Addr)
    requires IsRun(run, threads) && j <= k < |run| && Gone(run[j], n)
    ensures Gone(run[k], n)
    decreases k
  {
    hide Next;
    hide Inv;
    hide Gone;
    if j < k {
      StaysGone(run, threads, j, k - 1, n);
      RunInv(run, threads, k - 1);
      NextKeepsGone(run[k - 1], run[k], n);
    }
  }

  lemma {:induction false} LeftMeansGone(run: seq<State>, threads: set<Tid>, i: nat, j: nat, n: Addr)
    requires IsRun(run, threads) && i <= j < |run| && n in HeadChain(run[i]) && n !in HeadChain(run[j])
    ensures Gone(run[j], n)
    decreases j
  {
    hide Next;
    hide Inv;
    hide Gone;
    assert i < j;
    RunInv(run, threads, j - 1);
    if n !in HeadChain(run[j - 1]) {
      LeftMeansGone(run, threads, i, j - 1, n);
    }
    NextKeepsGone(run[j - 1], run[j], n);
  }

  /** A node that has left the head chain never comes back to it: there is no ABA. */
  lemma NodesNeverReturn(run: seq<State>, threads: set<Tid>, i: nat, j: nat, k: nat, n: Addr)
    requires IsRun(run, threads) && i <= j <= k < |run|
    requires n in HeadChain(run[i]) && n !in HeadChain(run[j])
    ensures n !in HeadChain(run[k])
  {
    LeftMeansGone(run, threads, i, j, n);
    StaysGone(run, threads, j, k, n);
  }

  // ---- Lock-freedom ----

  /** Failures of the compare-exchange on `head` that are not spurious, by all threads or by one. */
  function Retries(log: seq<Event>): nat {
    if log == [] then 0
    else Retries(log[..|log| - 1]) + if log[|log| - 1].Retry? then 1 else 0
  }

  function RetriesOf(log: seq<Event>, t: Tid): nat {
    if log == [] then 0
    else RetriesOf(log[..|log| - 1], t) + if log[|log| - 1] == Retry(t) then 1 else 0
  }

  predicate ChangesHead(e: Event) {
    e.Take? && (e.op.Push? || (e.res.Popped? && e.res.value.Some?))
  }

  /** Successes of the compare-exchange on `head`, by all threads or by threads other than one. */
  function Successes(log: seq<Event>): nat {
    if log == [] then 0
    else Successes(log[..|log| - 1]) + if ChangesHead(log[|log| - 1]) then 1 else 0
  }

  function SuccessesOfOthers(log: seq<Event>, t: Tid): nat {
    if log == [] then 0
    else SuccessesOfOthers(log[..|log| - 1], t)
         + if ChangesHead(log[|log| - 1]) && log[|log| - 1].t != t then 1 else 0
  }

  lemma CountOne(log: seq<Event>, e: Event, t: Tid)
    ensures Retries(log + [e]) == Retries(log) + if e.Retry? then 1 else 0
    ensures RetriesOf(log + [e], t) == RetriesOf(log, t) + if e == Retry(t) then 1 else 0
    ensures Successes(log + [e]) == Successes(log) + if ChangesHead(e) then 1 else 0
    ensures SuccessesOfOthers(log + [e], t) == SuccessesOfOthers(log, t) + if ChangesHead(e) && e.t != t then 1 else 0
  {
    assert (log + [e])[..|log|] == log;
  }

  /** The places of a log where an event has a property. */
  ghost function Places(log: seq<Event>, p: Event -> bool): set<nat> {
    set i | 0 <= i < |log| && p(log[i])
  }

  lemma PlacesGrow(log: seq<Event>, p: Event -> bool)
    requires log != []
    ensures |Places(log, p)| == |Places(log[..|log| - 1], p)| + if p(log[|log| - 1]) then 1 else 0
  {
    var n := |log| - 1;
    assert Places(log, p) == Places(log[..n], p) + if p(log[n]) then {n} else {};
  }

  /** The counts, as numbers of places in the log: retries, and takes of pushes and of pops that bring a
      value. */
  lemma {:induction false} CountsOfPlaces(log: seq<Event>, t: Tid)
    ensures Retries(log) == |Places(log, (e: Event) => e.Retry?)| && RetriesOf(log, t) == |Places(log, (e: Event) => e == Retry(t))|
    ensures
      && var win := (e: Event) => e.Take? && (e.op.Push? || (e.res.Popped? && e.res.value.Some?));
      && Successes(log) == |Places(log, win)|
    ensures
      && var win := (e: Event) => e.Take? && (e.op.Push? || (e.res.Popped? && e.res.value.Some?)) && e.t != t;
      && SuccessesOfOthers(log, t) == |Places(log, win)|
  {
    if log != [] {
      CountsOfPlaces(log[..|log| - 1], t);
      PlacesGrow(log, (e: Event) => e.Retry?);
      PlacesGrow(log, (e: Event) => e == Retry(t));
      PlacesGrow(log, (e: Event) => e.Take? && (e.op.Push? || (e.res.Popped? && e.res.value.Some?)));
      PlacesGrow(log, (e: Event) => e.Take? && (e.op.Push? || (e.res.Popped? && e.res.value.Some?)) && e.t != t);
    }
  }

  /** The threads whose next compare-exchange on `head` is bound to fail. */
  ghost function Doomed(s: State): set<Tid> {
    set t | t in s.pcs && Outdated(s, t)
  }

  /** Thread `t` has read `head` for a compare-exchange it is still going to make, and `head` has
      changed since. */
  predicate Outdated(s: State, t: Tid) {
    t in s.pcs &&
    match s.pcs[t]
    case PushLink(_, seen) => s.head != seen
    case PushCas(_, seen) => s.head != seen
    case PopTest(seen) => seen != Null && s.head != seen
    case PopNext(cur) => s.head != At(cur)
    case PopCas(cur, _) => s.head != At(cur)
    case _ => false
  }

  lemma StepOutdates(s: State, t: Tid, a: Action, u: Tid)
    requires Enabled(s, t, a)
    ensures u != t && Do(s, t, a).head == s.head ==> (Outdated(Do(s, t, a), u) <==> Outdated(s, u))
    ensures var s', main := Do(s, t, a), MainEvent(s, t, a);
            && (Fails(s, t) ==> Outdated(s, t) && !Outdated(s', t))
            && (Outdated(s', t) ==> Outdated(s, t))
            && (main != [] && ChangesHead(main[0]) ==> !Outdated(s, t) && !Outdated(s', t))
            && (main == [] || !ChangesHead(main[0]) ==> s'.head == s.head)
  {
  }

  lemma StepCounts(s: State, t: Tid, a: Action, u: Tid)
    requires Enabled(s, t, a)
    ensures var log, log', main := s.log, Do(s, t, a).log, MainEvent(s, t, a);
            var fail, win := if Fails(s, t) then 1 else 0, if main != [] && ChangesHead(main[0]) then 1 else 0;
            && Retries(log') == Retries(log) + fail && Successes(log') == Successes(log) + win
            && RetriesOf(log', u) == RetriesOf(log, u) + (if u == t then fail else 0)
            && SuccessesOfOthers(log', u) == SuccessesOfOthers(log, u) + (if u == t then 0 else win)
  {
    StepEvents(s, t, a);
    MainShape(s, t, a);
    var main := MainEvent(s, t, a);
    hide Do;
    hide MainEvent;
    var log := s.log + if Fails(s, t) then [Retry(t)] else [];
    if Fails(s, t) { CountOne(s.log, Retry(t), u); } else { assert log == s.log; }
    if main != [] { assert main == [main[0]]; CountOne(log, main[0], u); }
    else { assert log + main == log; }
  }

  lemma NextCounts(s: State, s': State, u: Tid)
    requires Next(s, s')
    ensures var lag, lag' := if Outdated(s, u) then 1 else 0, if Outdated(s', u) then 1 else 0;
            RetriesOf(s'.log, u) + lag' - SuccessesOfOthers(s'.log, u)
            <= RetriesOf(s.log, u) + lag - SuccessesOfOthers(s.log, u)
    ensures Successes(s.log) <= Successes(s'.log) <= Successes(s.log) + 1
    ensures Retries(s'.log) + |Doomed(s')|
            <= Retries(s.log) + |Doomed(s)| + if Successes(s.log) < Successes(s'.log) then |s.pcs.Keys| - 1 else 0
  {
    hide MainEvent;
    hide Outdated;
    hide Doomed;
    hide ChangesHead;
    var t, a :| Enabled(s, t, a) && s' == Do(s, t, a);
    StepCounts(s, t, a, u);
    StepOutdates(s, t, a, t);
    StepOutdates(s, t, a, u);
    StepDoomed(s, t, a, s.pcs.Keys);
  }

  /** A failure that is not spurious means that another thread succeeded since this thread's last
      read of `head`: a thread never fails more often than the others succeed. */
  lemma {:induction false} FailuresNeedOthersSuccess(run: seq<State>, threads: set<Tid>, i: nat, u: Tid)
    requires IsRun(run, threads) && i < |run|
    ensures RetriesOf(run[i].log, u) + (if Outdated(run[i], u) then 1 else 0) <= SuccessesOfOthers(run[i].log, u)
  {
    hide Next;
    hide Outdated;
    hide Inv;
    if i == 0 {
      InitCounts(threads, u);
    } else {
      FailuresNeedOthersSuccess(run, threads, i - 1, u);
      RunInv(run, threads, i - 1);
      NextCounts(run[i - 1], run[i], u);
    }
  }

  /** T threads together fail at most T - 1 times as often as they succeed: whatever the schedule,
      a compare-exchange on `head` succeeds again and again as long as threads keep trying. */
  lemma {:induction false} LockFreedom(run: seq<State>, threads: set<Tid>, i: nat)
    requires IsRun(run, threads) && i < |run|
    ensures Retries(run[i].log) + |Doomed(run[i])| <= (|threads| - 1) * Successes(run[i].log)
  {
    hide Next, Inv, Doomed, Retries, Successes, Outdated;
    if i == 0 {
      InitCounts(threads, 0);
      NothingYet();
    } else {
      LockFreedom(run, threads, i - 1);
      RunInv(run, threads, i - 1);
      NextCounts(run[i - 1], run[i], 0);
      OneMoreWin(|threads| - 1, Successes(run[i - 1].log));
    }
  }

  lemma NothingYet()
    ensures Retries([]) == Successes([]) == 0
  {
  }

  lemma OneMoreWin(k: int, wins: nat)
    ensures k * (wins + 1) == k * wins + k
  {
  }

  lemma InitCounts(threads: set<Tid>, u: Tid)
    ensures !Outdated(Init(threads), u) && Doomed(Init(threads)) == {}
  {
  }

  lemma StepDoomed(s: State, t: Tid, a: Action, threads: set<Tid>)
    requires Enabled(s, t, a) && s.pcs.Keys == threads
    ensures var main := MainEvent(s, t, a);
            |Doomed(Do(s, t, a))| + (if Fails(s, t) then 1 else 0)
            <= |Doomed(s)| + (if main != [] && ChangesHead(main[0]) then |threads| - 1 else 0)
  {
    var s', main := Do(s, t, a), MainEvent(s, t, a);
    StepEvents(s, t, a);
    StepOutdates(s, t, a, t);
    hide Do;
    hide MainEvent;
    forall u
      ensures u != t && s'.head == s.head ==> (Outdated(s', u) <==> Outdated(s, u))
    {
      StepOutdates(s, t, a, u);
    }
    if main != [] && ChangesHead(main[0]) {
      assert Doomed(s') <= threads - {t};
      SubsetSize(Doomed(s'), threads - {t});
    } else {
      assert Doomed(s') <= Doomed(s) - if Fails(s, t) then {t} else {};
      SubsetSize(Doomed(s'), Doomed(s) - if Fails(s, t) then {t} else {});
    }
  }

  lemma {:induction false} SubsetSize(A: set<Tid>, B: set<Tid>)
    requires A <= B
    ensures |A| <= |B|
  {
    assert B == A + (B - A);
  }

  // ---- The destructor ----

  ghost predicate Quiescent(s: State) {
    forall t :: t in s.pcs ==> s.pcs[t].Idle?
  }

  /** With no operation in progress, every node ever allocated is on exactly one of the chains. */
  lemma QuiescentPartition(s: State)
    requires Inv(s) && Quiescent(s)
    ensures Elements(HeadChain(s) + TrashChain(s)) == s.heap.Keys
    ensures NoDuplicates(HeadChain(s) + TrashChain(s))
  {
    var c, d := HeadChain(s), TrashChain(s);
    forall n
      ensures n in c + d <==> n in s.heap
    {
      assert forall t :: t in s.pcs ==> !Owns(s.pcs[t], n);
      assert n in c + d <==> n in Elements(c + d);
      assert n in c + d ==> n in c || n in d;
    }
  }

  /** One of the destructor's two walks; `live` is what has not been deleted yet, and every node
      the walk reads is in it. */
  method DeleteChain(live: map<Addr, Node>, first: Ptr, ghost c: seq<Addr>) returns (rest: map<Addr, Node>, deleted: seq<Addr>)
    requires Linked(live, first, c) && NoDuplicates(c)
    ensures deleted == c && rest == live - Elements(c)
  {
    rest, deleted := live, [];
    var cur := first;
    while cur != Null
      invariant |deleted| <= |c| && deleted == c[..|deleted|] && cur == Entry(c, |deleted|)
      invariant rest == live - Elements(deleted)
      decreases |c| - |deleted|
    {
      TakeOne(c, |deleted|);
      var next := rest[cur.a].next;
      rest := rest - {cur.a};
      deleted := deleted + [cur.a];
      cur := next;
    }
    assert c[..|c|] == c;
  }

  lemma TakeOne(c: seq<Addr>, i: nat)
    requires i < |c| && NoDuplicates(c)
    ensures c[i] !in Elements(c[..i])
    ensures c[..i] + [c[i]] == c[..i + 1] && Elements(c[..i + 1]) == Elements(c[..i]) + {c[i]}
  {
    assert c[..i] + [c[i]] == c[..i + 1];
  }

  /** The destructor deletes every node ever allocated, each exactly once. */
  method Destroy(s: State) returns (deleted: seq<Addr>)
    requires Inv(s) && Quiescent(s)
    ensures NoDuplicates(deleted) && Elements(deleted) == s.heap.Keys
    ensures deleted == HeadChain(s) + TrashChain(s)
  {
    ghost var c, d := HeadChain(s), TrashChain(s);
    QuiescentPartition(s);
    assert Linked(s.heap, s.head, c) && Linked(s.heap, s.trash, d);
    TwoWalks(s.heap, s.trash, c, d);
    var rest, first := DeleteChain(s.heap, s.head, c);
    var none, second := DeleteChain(rest, s.trash, d);
    deleted := first + second;
  }

  lemma TwoWalks(heap: map<Addr, Node>, trash: Ptr, c: seq<Addr>, d: seq<Addr>)
    requires Linked(heap, trash, d) && NoDuplicates(c + d)
    ensures NoDuplicates(c) && NoDuplicates(d) && Linked(heap - Elements(c), trash, d)
  {
    assert forall i :: 0 <= i < |c| ==> (c + d)[i] == c[i];
    assert forall i :: 0 <= i < |d| ==> (c + d)[|c| + i] == d[i];
  }
}
