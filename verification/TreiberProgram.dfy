/** Every run of the stress program ends with each value received exactly once. */
module TreiberProgram {
  import opened AtomicStack
  import opened Sequences
  import opened TreiberStack
  import opened TreiberInvariant
  import opened TreiberLinearizability
  import opened TreiberTheorems
  import opened TreiberDrain

  ghost predicate HasThreads(s: State, n: nat) {
    Inv(s) && forall t: Tid :: t in s.pcs <==> t < n
  }

  /** What is on the stack, top first. */
  ghost function ItemsOf(s: State): seq<int>
    requires Inv(s)
  {
    Values(s.heap, HeadChain(s))
  }

  ghost function Statuses(s: State, n: nat): (st: seq<Status>)
    requires HasThreads(s, n)
    ensures |st| == n
  {
    seq(n, t requires 0 <= t < n => assert LocalsAgree(s.heap, HeadChain(s), s.pcs[t]); StatusOf(s.heap, s.pcs[t]))
  }

  /** A step seen from outside: one thread's operation advances by the event the step logs, and
      the stack changes as the operation it takes, if any, says. */
  lemma StackStep(s: State, t: Tid, a: Action, n: nat)
    requires HasThreads(s, n) && Enabled(s, t, a)
    ensures HasThreads(Do(s, t, a), n)
    ensures var s', main := Do(s, t, a), MainEvent(s, t, a);
            && Explained(main, ItemsOf(s), ItemsOf(s'))
            && Advances(Statuses(s, n)[t], main, Statuses(s', n)[t])
            && Statuses(s', n) == Statuses(s, n)[t := Statuses(s', n)[t]]
  {
    hide Do, MainEvent, Explained, Advances, Inv, StatusOf, NewChain, NewTrash;
    var c, s' := HeadChain(s), Do(s, t, a);
    StepInv(s, t, a);
    Parts(s);
    Parts(s');
    StepItems(s, t, a, c);
    OthersKeepStatus(s, t, a, c, NewChain(s, t, a, c));
  }

  /** What the steps below need of the invariant. */
  lemma Parts(s: State)
    requires Inv(s)
    ensures Linked(s.heap, s.head, HeadChain(s)) && AllLocalsAgree(s.heap, s.pcs, HeadChain(s))
  {
  }

  ghost predicate StackLedger(work: Work, s: State, ctl: Control) {
    var n := |work| + |ctl.cons|;
    HasThreads(s, n) && Ledger(work, ctl, ItemsOf(s), Statuses(s, n))
  }

  ghost predicate DriverInv(work: Work, consumers: nat, d: Driver) {
    |d.ctl.cons| == consumers && StackLedger(work, d.stack, d.ctl)
  }

  lemma InitDriverInv(work: Work, consumers: nat)
    ensures DriverInv(work, consumers, InitDriver(work, consumers))
  {
    hide Ledger;
    hide Inv;
    hide Statuses;
    var d, n := InitDriver(work, consumers), |work| + consumers;
    InitThreads(Below(n), n);
    hide Init;
    InitLedger(work, d.ctl, Statuses(d.stack, n));
  }

  lemma InitThreads(threads: set<Tid>, n: nat)
    requires forall t: Tid :: t in threads <==> t < n
    ensures HasThreads(Init(threads), n) && ItemsOf(Init(threads)) == []
    ensures forall t :: 0 <= t < n ==> Statuses(Init(threads), n)[t] == Resting
  {
    hide Inv;
    InitInv(threads);
    assert HeadChain(Init(threads)) == [];
  }

  lemma InitLedger(work: Work, ctl: Control, st: seq<Status>)
    requires |ctl.sent| == |work| && |st| == |work| + |ctl.cons|
    requires forall t :: 0 <= t < |st| ==> st[t] == Resting
    requires forall p :: 0 <= p < |work| ==> ctl.sent[p] == 0
    requires forall c :: 0 <= c < |ctl.cons| ==> ctl.cons[c] == Consumer(ReadDone, {})
    requires !ctl.done && ctl.main == Joining(0) && ctl.all == {}
    ensures Ledger(work, ctl, [], st)
  {
    assert forall p :: 0 <= p < |work| ==> Completed(ctl, st, p) == 0;
    assert forall c :: 0 <= c < |ctl.cons| ==> Holding(|work|, ctl, st, c) == {};
  }

  lemma CallsAndReturns(s: State, t: Tid, a: Action)
    requires Enabled(s, t, a)
    ensures s.pcs[t].Idle? ==>
              MainEvent(s, t, a) == [Call(t, match a case StartPush(v) => Push(v) case StartPop => Pop case _ => Empty)]
    ensures Returning(s.pcs[t]) ==> |MainEvent(s, t, a)| == 1 && MainEvent(s, t, a)[0].Return?
    ensures !s.pcs[t].Idle? && !Returning(s.pcs[t]) ==>
              MainEvent(s, t, a) == [] || (|MainEvent(s, t, a)| == 1 && MainEvent(s, t, a)[0].Take?)
  {
  }

  lemma InsideLedger(work: Work, s: State, ctl: Control, t: Tid, a: Action)
    requires StackLedger(work, s, ctl)
    requires Distinct(work) && Enabled(s, t, a) && !s.pcs[t].Idle? && !Returning(s.pcs[t])
    ensures StackLedger(work, Do(s, t, a), ctl)
  {
    hide Ledger, Do, MainEvent, Inv, Explained, Advances, StatusOf, Statuses, ItemsOf, Returning, Distinct;
    var n, s', main := |work| + |ctl.cons|, Do(s, t, a), MainEvent(s, t, a);
    StackStep(s, t, a, n);
    CallsAndReturns(s, t, a);
    TakeInside(work, ctl, ItemsOf(s), Statuses(s, n), t, main, ItemsOf(s'), Statuses(s', n)[t]);
  }

  lemma InsideKeeps(work: Work, consumers: nat, d: Driver, t: Tid, a: Action)
    requires DriverInv(work, consumers, d) && Distinct(work) && Allowed(d, work, Inside(t, a))
    ensures DriverInv(work, consumers, Perform(d, work, Inside(t, a)))
  {
    hide StackLedger;
    InsideLedger(work, d.stack, d.ctl, t, a);
    hide Do;
  }

  /** The status of a thread between operations or about to return. */
  lemma OuterStatus(s: State, n: nat, t: Tid)
    requires HasThreads(s, n) && t < n
    ensures s.pcs[t].Idle? ==> Statuses(s, n)[t] == Resting
    ensures s.pcs[t].PushRet? ==> Statuses(s, n)[t] == Done(Pushed)
    ensures s.pcs[t].PopRet? ==> Statuses(s, n)[t] == Done(Popped(s.pcs[t].res))
    ensures s.pcs[t].EmptyRet? ==> Statuses(s, n)[t] == Done(WasEmpty(s.pcs[t].answer))
  {
    hide Inv;
    StatusHere(s, n, t);
    hide Statuses;
  }

  lemma StatusHere(s: State, n: nat, t: Tid)
    requires HasThreads(s, n) && t < n
    ensures LocalsAgree(s.heap, HeadChain(s), s.pcs[t])
    ensures Statuses(s, n)[t] == StatusOf(s.heap, s.pcs[t])
  {
    hide StatusOf;
    Parts(s);
    hide Inv;
  }

  /** A call or a return, seen from outside: the stack stays, and one status changes. */
  lemma OuterStep(s: State, t: Tid, a: Action, n: nat)
    requires HasThreads(s, n) && Enabled(s, t, a) && (s.pcs[t].Idle? || Returning(s.pcs[t]))
    ensures HasThreads(Do(s, t, a), n) && ItemsOf(Do(s, t, a)) == ItemsOf(s)
    ensures s.pcs[t].Idle? ==>
              Statuses(Do(s, t, a), n) == Statuses(s, n)[t := Pending(
                match a case StartPush(v) => Push(v) case StartPop => Pop case _ => Empty)]
    ensures Returning(s.pcs[t]) ==> Statuses(Do(s, t, a), n) == Statuses(s, n)[t := Resting]
  {
    hide Do, MainEvent, Inv, StatusOf, Statuses, ItemsOf, Enabled;
    StackStep(s, t, a, n);
    CallsAndReturns(s, t, a);
  }

  lemma TakeInside(work: Work, ctl: Control, items: seq<int>, st: seq<Status>, t: nat, main: seq<Event>,
                   items': seq<int>, after: Status)
    requires Ledger(work, ctl, items, st) && Distinct(work) && t < |st|
    requires main == [] || main[0].Take?
    requires Explained(main, items, items') && Advances(st[t], main, after)
    ensures Ledger(work, ctl, items', st[t := after])
  {
    hide PlacesOk;
    if main == [] {
      assert st[t := after] == st;
    } else if t < |work| {
      TakePush(work, ctl, items, st, t, main[0].op.v);
    } else {
      var c := t - |work|;
      assert ctl.cons[c].at.Popping? || ctl.cons[c].at.Asking?;
      if main[0].op.Pop? {
        TakePop(work, ctl, items, st, c);
      } else {
        TakeEmpty(work, ctl, items, st, c);
      }
    }
  }

  lemma ProducerKeeps(work: Work, consumers: nat, d: Driver, a: DriverAction)
    requires DriverInv(work, consumers, d) && Allowed(d, work, a) && (a.ProducerPushes? || a.ProducerBack?)
    ensures DriverInv(work, consumers, Perform(d, work, a))
  {
    hide Ledger;
    hide Inv;
    var n, p := |work| + consumers, a.p;
    OuterStatus(d.stack, n, p);
    OuterStep(d.stack, p, if a.ProducerPushes? then StartPush(work[p][d.ctl.sent[p]]) else Go, n);
    hide Do;
    if a.ProducerPushes? {
      CallPush(work, d.ctl, ItemsOf(d.stack), Statuses(d.stack, n), p);
    } else {
      ReturnPush(work, d.ctl, ItemsOf(d.stack), Statuses(d.stack, n), p);
    }
  }

  lemma ConsumerCallKeeps(work: Work, consumers: nat, d: Driver, a: DriverAction)
    requires DriverInv(work, consumers, d) && Allowed(d, work, a)
    requires a.ConsumerReadsDone? || a.ConsumerAsksEmpty? || a.ConsumerPops?
    ensures DriverInv(work, consumers, Perform(d, work, a))
  {
    hide Inv, Ledger, Do, Statuses, ItemsOf;
    var n, t := |work| + consumers, |work| + a.c;
    var items, st := ItemsOf(d.stack), Statuses(d.stack, n);
    LedgerDone(work, d.ctl, items, st, a.c);
    if a.ConsumerReadsDone? {
      ConsumerMoves(work, d.ctl, items, st, a.c, if d.ctl.done then AskEmpty else AskPop, Resting);
      assert st[t := Resting] == st;
    } else {
      OuterStep(d.stack, t, if a.ConsumerPops? then StartPop else StartEmpty, n);
      ConsumerMoves(work, d.ctl, items, st, a.c, if a.ConsumerPops? then Popping else Asking,
                    Pending(if a.ConsumerPops? then Pop else Empty));
    }
  }

  lemma LedgerDone(work: Work, ctl: Control, items: seq<int>, st: seq<Status>, c: nat)
    requires Ledger(work, ctl, items, st) && c < |ctl.cons|
    ensures ctl.cons[c].at.AskEmpty? || ctl.cons[c].at.Asking? ==> ctl.done
    ensures ctl.cons[c].at.ReadDone? ==> st[|work| + c] == Resting
  {
  }

  lemma ConsumerReturnKeeps(work: Work, consumers: nat, d: Driver, a: DriverAction)
    requires DriverInv(work, consumers, d) && Allowed(d, work, a)
    requires a.ConsumerAnswered? || a.ConsumerGot?
    ensures DriverInv(work, consumers, Perform(d, work, a))
  {
    hide Inv, Ledger, Do, Statuses, ItemsOf;
    var n, t := |work| + consumers, |work| + a.c;
    var items, st := ItemsOf(d.stack), Statuses(d.stack, n);
    LedgerDone(work, d.ctl, items, st, a.c);
    OuterStatus(d.stack, n, t);
    OuterStep(d.stack, t, Go, n);
    if a.ConsumerAnswered? {
      ConsumerMoves(work, d.ctl, items, st, a.c, if d.stack.pcs[t].answer then Returned else AskPop, Resting);
    } else {
      ConsumerGains(work, d.ctl, items, st, a.c);
    }
  }

  lemma MainReady(work: Work, consumers: nat, d: Driver)
    requires DriverInv(work, consumers, d) && MainEnabled(d, work)
    ensures d.ctl.main.Joining? && d.ctl.main.p < |work| ==>
              && d.ctl.main.p < |d.ctl.sent|
              && ProducerFinished(work, d.ctl, Statuses(d.stack, |work| + consumers), d.ctl.main.p)
  {
    hide Inv;
    hide Ledger;
    if d.ctl.main.Joining? && d.ctl.main.p < |work| {
      OuterStatus(d.stack, |work| + consumers, d.ctl.main.p);
    }
  }

  lemma MainKeeps(work: Work, consumers: nat, d: Driver)
    requires DriverInv(work, consumers, d) && Allowed(d, work, MainStep)
    ensures DriverInv(work, consumers, Perform(d, work, MainStep))
  {
    hide Ledger;
    hide Inv;
    MainReady(work, consumers, d);
    MainMoves(work, d.ctl, ItemsOf(d.stack), Statuses(d.stack, |work| + consumers));
  }

  lemma NextDriverInv(work: Work, consumers: nat, d: Driver, d': Driver)
    requires DriverInv(work, consumers, d) && Distinct(work) && NextDriver(d, d', work)
    ensures DriverInv(work, consumers, d')
  {
    hide DriverInv;
    var a :| Allowed(d, work, a) && d' == Perform(d, work, a);
    if a.Inside? {
      InsideKeeps(work, consumers, d, a.t, a.a);
    } else if a.ProducerPushes? || a.ProducerBack? {
      ProducerKeeps(work, consumers, d, a);
    } else if a.ConsumerReadsDone? || a.ConsumerAsksEmpty? || a.ConsumerPops? {
      ConsumerCallKeeps(work, consumers, d, a);
    } else if a.ConsumerAnswered? || a.ConsumerGot? {
      ConsumerReturnKeeps(work, consumers, d, a);
    } else {
      MainKeeps(work, consumers, d);
    }
  }

  /** In every state of every run of the program each value pushed so far is in exactly one place:
      on the stack or with one consumer. */
  lemma {:induction false} ProgramInv(run: seq<Driver>, work: Work, consumers: nat, i: nat)
    requires IsProgramRun(run, work, consumers) && Distinct(work) && i < |run|
    ensures DriverInv(work, consumers, run[i])
  {
    hide DriverInv;
    hide NextDriver;
    if i == 0 {
      InitDriverInv(work, consumers);
    } else {
      ProgramInv(run, work, consumers, i - 1);
      NextDriverInv(work, consumers, run[i - 1], run[i]);
    }
  }

  ghost predicate InWork(work: Work, v: int) {
    exists p, j :: 0 <= p < |work| && 0 <= j < |work[p]| && work[p][j] == v
  }

  /** When all consumers have returned, their sets are pairwise disjoint and together they are the
      values of all work lists; in particular nothing is left on the stack. */
  lemma DrainedLedger(work: Work, ctl: Control, items: seq<int>, st: seq<Status>)
    requires Ledger(work, ctl, items, st)
    requires ctl.cons != [] && forall c :: 0 <= c < |ctl.cons| ==> ctl.cons[c].at.Returned?
    ensures items == []
    ensures forall c, e | 0 <= c < e < |ctl.cons| :: ctl.cons[c].got !! ctl.cons[e].got
    ensures forall v :: InWork(work, v) <==> exists c :: 0 <= c < |ctl.cons| && v in ctl.cons[c].got
  {
    assert forall c :: 0 <= c < |ctl.cons| ==> Holding(|work|, ctl, st, c) == ctl.cons[c].got;
    assert Leaving(|work|, ctl, st, 0);
    assert forall p :: 0 <= p < |work| ==> ProducerFinished(work, ctl, st, p);
    forall v
      ensures InWork(work, v) <==> IsPushed(work, ctl, st, v)
    {
      if InWork(work, v) {
        var p, j :| 0 <= p < |work| && 0 <= j < |work[p]| && work[p][j] == v;
        assert ProducerFinished(work, ctl, st, p);
      }
    }
    forall c, e, v | 0 <= c < e < |ctl.cons| && v in ctl.cons[c].got
      ensures v !in ctl.cons[e].got
    {
      assert v in Holding(|work|, ctl, st, c);
      assert Holding(|work|, ctl, st, e) == ctl.cons[e].got;
    }
  }

  lemma Drained(run: seq<Driver>, work: Work, consumers: nat, i: nat)
    requires IsProgramRun(run, work, consumers) && Distinct(work) && i < |run|
    requires consumers > 0 && forall c :: 0 <= c < |run[i].ctl.cons| ==> run[i].ctl.cons[c].at.Returned?
    ensures run[i].stack.head == Null && |run[i].ctl.cons| == consumers
    ensures var cons := run[i].ctl.cons;
            && (forall c, e | 0 <= c < e < consumers :: cons[c].got !! cons[e].got)
            && (forall v :: InWork(work, v) <==> exists c :: 0 <= c < consumers && v in cons[c].got)
  {
    hide NextDriver;
    hide Ledger;
    hide Inv;
    ProgramInv(run, work, consumers, i);
    DrainedLedger(work, run[i].ctl, ItemsOf(run[i].stack), Statuses(run[i].stack, |work| + consumers));
    EmptyHead(run[i].stack);
  }

  lemma EmptyHead(s: State)
    requires Inv(s)
    ensures ItemsOf(s) == [] ==> s.head == Null
  {
    assert Linked(s.heap, s.head, HeadChain(s)) && |HeadChain(s)| == |ItemsOf(s)|;
  }

  /** The main thread's verdict: when it has finished, the set it has collected is exactly the set
      of all values of all work lists. */
  lemma FinishedCollectsAll(run: seq<Driver>, work: Work, consumers: nat, i: nat)
    requires IsProgramRun(run, work, consumers) && Distinct(work) && i < |run|
    requires consumers > 0 && run[i].ctl.main == Finished
    ensures forall v :: v in run[i].ctl.all <==> InWork(work, v)
  {
    hide NextDriver;
    hide Ledger;
    hide Inv;
    ProgramInv(run, work, consumers, i);
    FinishedLedger(work, run[i].ctl, ItemsOf(run[i].stack), Statuses(run[i].stack, |work| + consumers));
  }

  lemma FinishedLedger(work: Work, ctl: Control, items: seq<int>, st: seq<Status>)
    requires Ledger(work, ctl, items, st) && ctl.cons != [] && ctl.main == Finished
    ensures forall v :: v in ctl.all <==> InWork(work, v)
  {
    hide PlacesOk;
    assert MainOk(work, ctl, st);
    DrainedLedger(work, ctl, items, st);
  }

  /** Without consumers nothing is collected: `consumers > 0` cannot be dropped. */
  lemma FinishedWithoutConsumers(run: seq<Driver>, work: Work, i: nat)
    requires IsProgramRun(run, work, 0) && Distinct(work) && i < |run|
    requires run[i].ctl.main == Finished
    ensures run[i].ctl.all == {}
  {
    hide NextDriver;
    hide Inv;
    hide Ledger;
    ProgramInv(run, work, 0, i);
    var ctl := run[i].ctl;
    NobodyToCollectFrom(work, ctl, ItemsOf(run[i].stack), Statuses(run[i].stack, |work|));
  }

  lemma NobodyToCollectFrom(work: Work, ctl: Control, items: seq<int>, st: seq<Status>)
    requires Ledger(work, ctl, items, st) && ctl.cons == [] && ctl.main == Finished
    ensures ctl.all == {}
  {
    assert forall v :: v !in ctl.all;
  }

  lemma FinishedRests(work: Work, ctl: Control, items: seq<int>, st: seq<Status>, t: nat)
    requires Ledger(work, ctl, items, st) && ctl.main == Finished && t < |st|
    ensures st[t] == Resting
  {
    assert Collected(ctl, |ctl.cons|);
    if t < |work| {
      assert ProducerFinished(work, ctl, st, t);
    } else {
      assert ctl.cons[t - |work|].at.Returned?;
      assert st[|work| + (t - |work|)] == Resting;
    }
  }

  lemma RestingIsIdle(s: State, n: nat, t: Tid)
    requires HasThreads(s, n) && t < n && Statuses(s, n)[t] == Resting
    ensures s.pcs[t].Idle?
  {
    hide Inv, Statuses;
    StatusHere(s, n, t);
  }

  /** When the main thread has finished no operation is in progress, so the destructor may run; and
      with at least one consumer every node ever allocated has been popped and retired. */
  lemma FinishedQuiescent(run: seq<Driver>, work: Work, consumers: nat, i: nat)
    requires IsProgramRun(run, work, consumers) && Distinct(work) && i < |run|
    requires run[i].ctl.main == Finished
    ensures Inv(run[i].stack) && Quiescent(run[i].stack)
    ensures
      consumers > 0 ==>
        HeadChain(run[i].stack) == [] && Elements(TrashChain(run[i].stack)) == run[i].stack.heap.Keys
  {
    hide NextDriver, Ledger, Inv, Statuses, HeadChain, TrashChain;
    var d, n := run[i], |work| + consumers;
    ProgramInv(run, work, consumers, i);
    forall t | t in d.stack.pcs ensures d.stack.pcs[t].Idle? {
      FinishedRests(work, d.ctl, ItemsOf(d.stack), Statuses(d.stack, n), t);
      RestingIsIdle(d.stack, n, t);
    }
    QuiescentPartition(d.stack);
    if consumers > 0 {
      FinishedLedgerEmpty(work, d.ctl, ItemsOf(d.stack), Statuses(d.stack, n));
      assert [] + TrashChain(d.stack) == TrashChain(d.stack);
    }
  }

  lemma FinishedLedgerEmpty(work: Work, ctl: Control, items: seq<int>, st: seq<Status>)
    requires Ledger(work, ctl, items, st) && ctl.cons != [] && ctl.main == Finished
    ensures items == []
  {
    hide PlacesOk;
    assert Collected(ctl, |ctl.cons|);
    DrainedLedger(work, ctl, items, st);
  }

  /** The source's work lists: producer `p` pushes `p * n`, ..., `p * n + n - 1`. */
  function Ranges(producers: nat, n: nat): Work {
    seq(producers, p => seq(n, i => p * n + i))
  }

  lemma RangesDistinct(producers: nat, n: nat)
    ensures Distinct(Ranges(producers, n))
  {
    var work := Ranges(producers, n);
    forall p, q, i, j | 0 <= p < |work| && 0 <= q < |work| && 0 <= i < |work[p]| && 0 <= j < |work[q]|
      ensures work[p][i] == work[q][j] ==> p == q && i == j
    {
      OneRange(n, p, i, q, j);
    }
  }

  lemma OneRange(n: nat, p: int, i: int, q: int, j: int)
    requires 0 <= i < n && 0 <= j < n
    ensures p * n + i == q * n + j ==> p == q && i == j
  {
    if p < q {
      TimesAtLeast(q - p, n);
      assert (q - p) * n == q * n - p * n;
    } else if p > q {
      TimesAtLeast(p - q, n);
      assert (p - q) * n == p * n - q * n;
    }
  }

  lemma TimesAtLeast(k: int, n: nat)
    requires k >= 1
    ensures k * n >= n
  {
  }

  lemma RangesCover(producers: nat, n: nat, v: int)
    ensures InWork(Ranges(producers, n), v) <==> 0 <= v < producers * n
  {
    var work := Ranges(producers, n);
    if 0 <= v < producers * n {
      var p := RangeOf(producers, n, v);
      assert work[p][v - p * n] == v;
    }
    if InWork(work, v) {
      var p, j :| 0 <= p < |work| && 0 <= j < |work[p]| && work[p][j] == v;
      RangeBound(producers, n, p, j);
    }
  }

  lemma RangeBound(producers: nat, n: nat, p: nat, j: nat)
    requires p < producers && j < n
    ensures 0 <= p * n + j < producers * n
  {
    TimesAtLeast(producers - p, n);
    assert (producers - p) * n == producers * n - p * n;
  }

  lemma {:induction false} RangeOf(producers: nat, n: nat, v: int) returns (p: nat)
    requires 0 <= v < producers * n
    ensures p < producers && p * n <= v < p * n + n
  {
    if v >= (producers - 1) * n {
      p := producers - 1;
    } else {
      p := RangeOf(producers - 1, n, v);
    }
  }

  lemma {:induction false} UpToSize(S: set<int>, k: nat)
    requires forall v :: v in S <==> 0 <= v < k
    ensures |S| == k
  {
    if k > 0 {
      UpToSize(S - {k - 1}, k - 1);
    } else {
      assert forall v :: v !in S;
      assert S == {};
    }
  }

  /** The stress test reports success, for any numbers of producers, items and consumers: the set
      collected has `producers * n` elements and they are 0, 1, ..., `producers * n - 1`. */
  lemma StressTestPasses(run: seq<Driver>, producers: nat, n: nat, consumers: nat, i: nat)
    requires IsProgramRun(run, Ranges(producers, n), consumers) && i < |run|
    requires consumers > 0 && run[i].ctl.main == Finished
    ensures |run[i].ctl.all| == producers * n
    ensures forall v :: v in run[i].ctl.all <==> 0 <= v < producers * n
  {
    RangesDistinct(producers, n);
    FinishedCollectsAll(run, Ranges(producers, n), consumers, i);
    forall v
      ensures v in run[i].ctl.all <==> 0 <= v < producers * n
    {
      RangesCover(producers, n, v);
    }
    UpToSize(run[i].ctl.all, producers * n);
  }
}
