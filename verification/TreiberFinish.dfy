/** The stress program can always finish: from every state it can get into, some schedule leads to the
    end. So it cannot deadlock, and the statements about finished runs are not about nothing.

    The schedule lets one thread at a time finish its operation, then the producers in the order in
    which they are joined, then the consumers in the order in which they are collected.
 */
module TreiberFinish {
  import opened AtomicStack
  import opened TreiberStack
  import opened TreiberLinearizability
  import opened TreiberTheorems
  import opened TreiberDrain
  import opened TreiberProgram

  // ---- Paths of the program ----

  ghost predicate IsPath(path: seq<Driver>, work: Work) {
    |path| > 0 && forall i :: 0 <= i < |path| - 1 ==> NextDriver(path[i], path[i + 1], work)
  }

  ghost predicate Reaches(d: Driver, d': Driver, work: Work) {
    exists path :: IsPath(path, work) && path[0] == d && path[|path| - 1] == d'
  }

  lemma ReachesSelf(d: Driver, work: Work)
    ensures Reaches(d, d, work)
  {
    hide NextDriver;
    assert IsPath([d], work);
  }

  lemma JoinPaths(p: seq<Driver>, q: seq<Driver>, work: Work)
    requires IsPath(p, work) && IsPath(q, work) && p[|p| - 1] == q[0]
    ensures IsPath(p + q[1..], work) && (p + q[1..])[0] == p[0] && (p + q[1..])[|p + q[1..]| - 1] == q[|q| - 1]
  {
    hide NextDriver;
    var r := p + q[1..];
    forall i | 0 <= i < |r| - 1 ensures NextDriver(r[i], r[i + 1], work) {
      if i < |p| - 1 {
        assert NextDriver(p[i], p[i + 1], work);
      } else {
        assert r[i] == q[i - (|p| - 1)] && r[i + 1] == q[i - (|p| - 1) + 1];
      }
    }
  }

  lemma ReachesOn(d: Driver, e: Driver, f: Driver, work: Work)
    requires Reaches(d, e, work) && Reaches(e, f, work)
    ensures Reaches(d, f, work)
  {
    hide NextDriver;
    var p :| IsPath(p, work) && p[0] == d && p[|p| - 1] == e;
    var q :| IsPath(q, work) && q[0] == e && q[|q| - 1] == f;
    JoinPaths(p, q, work);
  }

  /** One step of the program, with the invariant. */
  lemma TakeStep(work: Work, consumers: nat, d: Driver, a: DriverAction) returns (d': Driver)
    requires DriverInv(work, consumers, d) && Distinct(work) && Allowed(d, work, a)
    ensures d' == Perform(d, work, a) && DriverInv(work, consumers, d') && Reaches(d, d', work)
  {
    hide DriverInv, Allowed, Perform, Distinct;
    d' := Perform(d, work, a);
    assert NextDriver(d, d', work);
    NextDriverInv(work, consumers, d, d');
    hide NextDriver;
    assert IsPath([d, d'], work);
  }

  // ---- One operation, alone ----

  /** How many steps thread `t` is from the end of its operation, at most, if no other moves. */
  function StepsLeft(s: State, t: Tid): nat
    requires t in s.pcs
  {
    match s.pcs[t]
    case PushNew(_) => 6
    case PushLoad(_) => 5
    case PushLink(_, seen) => if s.head == seen then 2 else 4
    case PushCas(_, seen) => if s.head == seen then 1 else 3
    case PopLoad => 13
    case PopTest(seen) => if seen == Null || s.head == seen then 9 else 12
    case PopNext(cur) => if s.head == At(cur) then 8 else 11
    case PopCas(cur, _) => if s.head == At(cur) then 7 else 10
    case PopMove(_) => 6
    case TrashLoad(_, _) => 5
    case TrashLink(_, _, seen) => if s.trash == seen then 2 else 4
    case TrashCas(_, _, seen) => if s.trash == seen then 1 else 3
    case EmptyLoad => 1
    case _ => 0
  }

  lemma StepCloser(s: State, t: Tid, a: Action)
    requires Enabled(s, t, a) && !s.pcs[t].Idle? && !Returning(s.pcs[t]) && !a.Spurious?
    ensures t in Do(s, t, a).pcs && StepsLeft(Do(s, t, a), t) < StepsLeft(s, t)
    ensures !Do(s, t, a).pcs[t].Idle?
  {
  }

  /** What becomes of an operation that is run to its end alone. */
  predicate Completes(before: Status, items: seq<int>, after: Status, items': seq<int>) {
    match before
    case Pending(op) => after == Done(Result(op, items)) && items' == Items(op, items)
    case _ => after == before && items' == items
  }

  /** The same of thread `t` between two states of `n` threads. */
  ghost predicate CompletesIn(n: nat, s: State, s': State, t: Tid) {
    && HasThreads(s, n) && HasThreads(s', n) && t < n
    && Completes(Statuses(s, n)[t], ItemsOf(s), Statuses(s', n)[t], ItemsOf(s'))
  }

  lemma CompletesAfter(before: Status, items: seq<int>, main: seq<Event>, mid: Status, items1: seq<int>,
                       after: Status, items2: seq<int>)
    requires main == [] || main[0].Take?
    requires Advances(before, main, mid) && Explained(main, items, items1)
    requires Completes(mid, items1, after, items2)
    ensures Completes(before, items, after, items2)
  {
  }

  /** The program runs thread `t` until its operation is about to return. */
  lemma {:induction false} RunOperation(work: Work, consumers: nat, d: Driver, t: Tid) returns (d': Driver)
    requires DriverInv(work, consumers, d) && Distinct(work)
    requires t in d.stack.pcs && !d.stack.pcs[t].Idle? && t < |work| + consumers
    ensures DriverInv(work, consumers, d') && Reaches(d, d', work) && d'.ctl == d.ctl
    ensures d'.stack.pcs.Keys == d.stack.pcs.Keys && Returning(d'.stack.pcs[t])
    ensures forall u :: u in d.stack.pcs && u != t ==> d'.stack.pcs[u] == d.stack.pcs[u]
    ensures CompletesIn(|work| + consumers, d.stack, d'.stack, t)
    decreases StepsLeft(d.stack, t)
  {
    hide Inv, Ledger, Statuses, ItemsOf, Do, StepsLeft, Explained, Advances, Completes, Reaches, MainEvent, Distinct;
    var n, s := |work| + consumers, d.stack;
    if Returning(s.pcs[t]) {
      d' := d;
      ReachesSelf(d, work);
      NothingToDo(s, n, t);
    } else {
      var a := CanStep(s, t);
      StepCloser(s, t, a);
      StackStep(s, t, a, n);
      StepEvents(s, t, a);
      CallsAndReturns(s, t, a);
      Known(work, consumers, d);
      var d1 := TakeStep(work, consumers, d, Inside(t, a));
      d' := RunOperation(work, consumers, d1, t);
      ReachesOn(d, d1, d', work);
      CompletesAfter(Statuses(s, n)[t], ItemsOf(s), MainEvent(s, t, a), Statuses(d1.stack, n)[t], ItemsOf(d1.stack),
                     Statuses(d'.stack, n)[t], ItemsOf(d'.stack));
    }
  }

  lemma NothingToDo(s: State, n: nat, t: Tid)
    requires HasThreads(s, n) && t < n && Returning(s.pcs[t])
    ensures Completes(Statuses(s, n)[t], ItemsOf(s), Statuses(s, n)[t], ItemsOf(s))
  {
    OuterStatus(s, n, t);
    hide Statuses, ItemsOf, Inv;
  }

  lemma Known(work: Work, consumers: nat, d: Driver)
    requires DriverInv(work, consumers, d)
    ensures |d.ctl.sent| == |work| && |d.ctl.cons| == consumers && HasThreads(d.stack, |work| + consumers)
    ensures forall p :: 0 <= p < |work| ==> d.ctl.sent[p] <= |work[p]|
    ensures d.ctl.main.Collecting? ==> d.ctl.done && d.ctl.main.c <= consumers
    ensures d.ctl.main.Joining? ==> d.ctl.main.p <= |work|
  {
    hide Inv, PlacesOk, OnceEach, DoneOk, ProducersOk, ConsumersOk, Statuses, ItemsOf;
  }

  lemma ReturnIdles(s: State, t: Tid)
    requires t in s.pcs && Returning(s.pcs[t])
    ensures Enabled(s, t, Go) && Do(s, t, Go).pcs == s.pcs[t := Idle]
  {
  }

  /** Who is about to return: a producer from its push, a consumer from what it asked for. */
  lemma WhoReturns(work: Work, consumers: nat, d: Driver, t: Tid)
    requires DriverInv(work, consumers, d) && t < |work| + consumers && Returning(d.stack.pcs[t])
    ensures t < |work| ==> d.stack.pcs[t].PushRet?
    ensures
      t >= |work| ==>
        && var at := d.ctl.cons[t - |work|].at;
        && ((at.Asking? && d.stack.pcs[t].EmptyRet?) || (at.Popping? && d.stack.pcs[t].PopRet?))
  {
    hide Inv, Statuses, ItemsOf, Ledger;
    var n := |work| + consumers;
    OuterStatus(d.stack, n, t);
    WhoIsDone(work, d.ctl, ItemsOf(d.stack), Statuses(d.stack, n), t);
  }

  lemma WhoIsDone(work: Work, ctl: Control, items: seq<int>, st: seq<Status>, t: nat)
    requires Ledger(work, ctl, items, st) && t < |st| && st[t].Done?
    ensures t < |work| ==> st[t] == Done(Pushed)
    ensures
      t >= |work| ==>
        && var at := ctl.cons[t - |work|].at;
        && ((at.Asking? && st[t].res.WasEmpty?) || (at.Popping? && st[t].res.Popped?))
  {
    hide PlacesOk, OnceEach, DoneOk, MainOk;
    assert t >= |work| ==> st[|work| + (t - |work|)] == st[t];
  }

  /** What stays when one thread finishes its operation. */
  ghost predicate OnlyMoved(work: Work, d: Driver, d': Driver, t: Tid) {
    && d'.stack.pcs.Keys == d.stack.pcs.Keys
    && (forall u :: u in d.stack.pcs && u != t ==> d'.stack.pcs[u] == d.stack.pcs[u])
    && d'.ctl == d.ctl.(cons := d'.ctl.cons) && |d'.ctl.cons| == |d.ctl.cons|
    && forall c :: 0 <= c < |d.ctl.cons| && |work| + c != t ==> d'.ctl.cons[c] == d.ctl.cons[c]
  }

  /** What comes of a consumer's question, or of its pop, when nobody else moves. */
  ghost predicate Answered(before: Consumer, status: Status, items: seq<int>, after: Consumer, items': seq<int>) {
    && (before.at.Asking? && status == Pending(Empty) ==>
          items' == items && after.at == if items == [] then Returned else AskPop)
    && (before.at.Popping? && status == Pending(Pop) ==> items' == Items(Pop, items) && after.at == ReadDone)
  }

  ghost predicate AnsweredIn(work: Work, consumers: nat, d: Driver, d': Driver, c: nat) {
    && var n := |work| + consumers;
    && HasThreads(d.stack, n) && HasThreads(d'.stack, n) && c < consumers == |d.ctl.cons| == |d'.ctl.cons|
    && Answered(d.ctl.cons[c], Statuses(d.stack, n)[|work| + c], ItemsOf(d.stack), d'.ctl.cons[c], ItemsOf(d'.stack))
  }

  /** The program runs thread `t` until its operation has returned. */
  lemma Settle(work: Work, consumers: nat, d: Driver, t: Tid) returns (d': Driver)
    requires DriverInv(work, consumers, d) && Distinct(work)
    requires t in d.stack.pcs && !d.stack.pcs[t].Idle? && t < |work| + consumers
    ensures DriverInv(work, consumers, d') && Reaches(d, d', work)
    ensures OnlyMoved(work, d, d', t) && d'.stack.pcs[t].Idle?
    ensures t >= |work| ==> AnsweredIn(work, consumers, d, d', t - |work|)
  {
    hide Inv, Ledger, Statuses, ItemsOf, Do, Completes, Reaches, Distinct;
    var n := |work| + consumers;
    var e := RunOperation(work, consumers, d, t);
    WhoReturns(work, consumers, e, t);
    ReturnIdles(e.stack, t);
    OuterStatus(e.stack, n, t);
    OuterStep(e.stack, t, Go, n);
    Known(work, consumers, e);
    var back := if t < |work| then ProducerBack(t)
                else if e.ctl.cons[t - |work|].at.Asking? then ConsumerAnswered(t - |work|)
                else ConsumerGot(t - |work|);
    d' := TakeStep(work, consumers, e, back);
    ReachesOn(d, e, d', work);
    Known(work, consumers, d);
    Known(work, consumers, d');
    if t >= |work| {
      OperationAnswers(Statuses(d.stack, n)[t], ItemsOf(d.stack), Statuses(e.stack, n)[t], ItemsOf(e.stack),
                       d.ctl.cons[t - |work|], d'.ctl.cons[t - |work|], e.stack.pcs[t]);
    }
  }

  lemma OperationAnswers(st: Status, items: seq<int>, st': Status, items': seq<int>, before: Consumer, after: Consumer,
                         pc: Pc)
    requires Completes(st, items, st', items')
    requires pc.EmptyRet? ==> st' == Done(WasEmpty(pc.answer))
    requires (before.at.Asking? && pc.EmptyRet? && after.at == if pc.answer then Returned else AskPop)
          || (before.at.Popping? && pc.PopRet? && after.at == ReadDone)
    ensures Answered(before, st, items, after, items')
  {
  }

  // ---- Everybody at rest ----

  ghost function Busy(s: State): set<Tid> {
    set t | t in s.pcs && !s.pcs[t].Idle?
  }

  lemma {:induction false} SettleAll(work: Work, consumers: nat, d: Driver) returns (d': Driver)
    requires DriverInv(work, consumers, d) && Distinct(work)
    ensures DriverInv(work, consumers, d') && Reaches(d, d', work) && Quiescent(d'.stack)
    ensures d'.ctl.main == d.ctl.main
    decreases |Busy(d.stack)|
  {
    hide DriverInv, Reaches, Distinct, AnsweredIn;
    if Busy(d.stack) == {} {
      d' := d;
      ReachesSelf(d, work);
      assert forall t :: t in d.stack.pcs && !d.stack.pcs[t].Idle? ==> t in Busy(d.stack);
    } else {
      var t :| t in Busy(d.stack);
      Threads(work, consumers, d);
      var e := Settle(work, consumers, d, t);
      assert Busy(e.stack) == Busy(d.stack) - {t};
      d' := SettleAll(work, consumers, e);
      ReachesOn(d, e, d', work);
    }
  }

  lemma Threads(work: Work, consumers: nat, d: Driver)
    requires DriverInv(work, consumers, d)
    ensures forall t: Tid :: t in d.stack.pcs <==> t < |work| + consumers
  {
    hide Inv, Ledger, Statuses, ItemsOf;
  }

  /** From rest, thread `t` starts an operation and finishes it. */
  lemma OneOperation(work: Work, consumers: nat, d: Driver, a: DriverAction, t: Tid) returns (d': Driver)
    requires DriverInv(work, consumers, d) && Distinct(work) && Quiescent(d.stack) && Allowed(d, work, a)
    requires (a.ProducerPushes? && t == a.p) || ((a.ConsumerAsksEmpty? || a.ConsumerPops?) && t == |work| + a.c)
    ensures DriverInv(work, consumers, d') && Reaches(d, d', work) && Quiescent(d'.stack)
    ensures OnlyMoved(work, Perform(d, work, a), d', t)
    ensures
      t >= |work| ==>
        && (a.ConsumerAsksEmpty? ==>
              && d'.ctl.cons[a.c].at == (if ItemsOf(d.stack) == [] then Returned else AskPop)
              && ItemsOf(d'.stack) == ItemsOf(d.stack))
        && (a.ConsumerPops? ==>
              d'.ctl.cons[a.c].at == ReadDone && ItemsOf(d'.stack) == Items(Pop, ItemsOf(d.stack)))
  {
    hide Inv, Ledger, Statuses, ItemsOf, Reaches, Distinct;
    var n := |work| + consumers;
    Known(work, consumers, d);
    var b := if a.ConsumerAsksEmpty? then StartEmpty else if a.ConsumerPops? then StartPop
             else StartPush(work[a.p][d.ctl.sent[a.p]]);
    CallBegins(d.stack, t, b);
    OuterStatus(d.stack, n, t);
    OuterStep(d.stack, t, b, n);
    hide Do;
    var e := TakeStep(work, consumers, d, a);
    d' := Settle(work, consumers, e, t);
    ReachesOn(d, e, d', work);
  }

  lemma CallBegins(s: State, t: Tid, b: Action)
    requires t in s.pcs && s.pcs[t].Idle? && (b.StartPush? || b.StartPop? || b.StartEmpty?)
    ensures Enabled(s, t, b) && !Do(s, t, b).pcs[t].Idle? && Do(s, t, b).pcs == s.pcs[t := Do(s, t, b).pcs[t]]
  {
  }

  // ---- The schedule ----

  /** A producer pushes the rest of its list. */
  lemma {:induction false} ProduceAll(work: Work, consumers: nat, d: Driver, p: nat) returns (d': Driver)
    requires DriverInv(work, consumers, d) && Distinct(work) && Quiescent(d.stack)
    requires p < |work| && |d.ctl.sent| == |work| && d.ctl.sent[p] <= |work[p]|
    ensures DriverInv(work, consumers, d') && Reaches(d, d', work) && Quiescent(d'.stack)
    ensures d'.ctl.main == d.ctl.main && |d'.ctl.sent| == |work| && d'.ctl.sent[p] == |work[p]|
    decreases |work[p]| - d.ctl.sent[p]
  {
    hide DriverInv, Reaches, Distinct, Do, ItemsOf;
    if d.ctl.sent[p] == |work[p]| {
      d' := d;
      ReachesSelf(d, work);
    } else {
      Threads(work, consumers, d);
      var e := OneOperation(work, consumers, d, ProducerPushes(p), p);
      d' := ProduceAll(work, consumers, e, p);
      ReachesOn(d, e, d', work);
    }
  }

  /** The main thread joins the next producer, once that has pushed its list, or raises the flag. */
  lemma JoinNext(work: Work, consumers: nat, d: Driver) returns (d': Driver)
    requires DriverInv(work, consumers, d) && Distinct(work) && Quiescent(d.stack)
    requires d.ctl.main.SetDone? || d.ctl.main.Joining?
    ensures DriverInv(work, consumers, d') && Reaches(d, d', work) && Quiescent(d'.stack)
    ensures d'.ctl.main == MainDoes(d.ctl, work).main
  {
    hide DriverInv, Reaches, Distinct, Perform, Allowed, Quiescent, MainDoes;
    Known(work, consumers, d);
    var e := d;
    if d.ctl.main.Joining? && d.ctl.main.p < |work| {
      e := ProduceAll(work, consumers, d, d.ctl.main.p);
    } else {
      ReachesSelf(d, work);
    }
    Threads(work, consumers, e);
    JoinAllowed(e, work);
    d' := TakeStep(work, consumers, e, MainStep);
    MainStepDoes(e, work);
    SameMain(e.ctl, d.ctl, work);
    ReachesOn(d, e, d', work);
  }

  lemma JoinAllowed(d: Driver, work: Work)
    requires Quiescent(d.stack) && |d.ctl.sent| == |work| && (d.ctl.main.SetDone? || d.ctl.main.Joining?)
    requires
      d.ctl.main.Joining? && d.ctl.main.p < |work| ==>
        d.ctl.sent[d.ctl.main.p] == |work[d.ctl.main.p]| && d.ctl.main.p in d.stack.pcs
    ensures Allowed(d, work, MainStep)
  {
  }

  lemma SameMain(a: Control, b: Control, work: Work)
    requires a.main == b.main && (a.main.SetDone? || a.main.Joining?)
    ensures MainDoes(a, work).main == MainDoes(b, work).main
  {
  }

  /** The main thread joins the producers from `main.p` on and raises the flag. */
  lemma {:induction false} JoinAll(work: Work, consumers: nat, d: Driver) returns (d': Driver)
    requires DriverInv(work, consumers, d) && Distinct(work) && Quiescent(d.stack)
    requires d.ctl.main.SetDone? || (d.ctl.main.Joining? && d.ctl.main.p <= |work|)
    ensures DriverInv(work, consumers, d') && Reaches(d, d', work) && Quiescent(d'.stack)
    ensures d'.ctl.main == Collecting(0)
    decreases if d.ctl.main.SetDone? then 0 else |work| + 1 - d.ctl.main.p
  {
    hide DriverInv, Reaches, Distinct, Quiescent;
    d' := JoinNext(work, consumers, d);
    if d.ctl.main.Joining? {
      var e := d';
      d' := JoinAll(work, consumers, e);
      ReachesOn(d, e, d', work);
    }
  }

  lemma MainStepDoes(d: Driver, work: Work)
    requires Allowed(d, work, MainStep)
    ensures Perform(d, work, MainStep) == Driver(d.stack, MainDoes(d.ctl, work))
  {
  }

  /** A consumer at rest is at the start of its loop, about to ask, about to pop, or has returned. */
  lemma RestingConsumer(work: Work, consumers: nat, d: Driver, c: nat)
    requires DriverInv(work, consumers, d) && Quiescent(d.stack) && c < |d.ctl.cons|
    ensures !d.ctl.cons[c].at.Asking? && !d.ctl.cons[c].at.Popping?
  {
    hide Inv, Statuses, ItemsOf, Ledger;
    OuterStatus(d.stack, |work| + consumers, |work| + c);
    RestingAt(work, d.ctl, ItemsOf(d.stack), Statuses(d.stack, |work| + consumers), c);
  }

  lemma RestingAt(work: Work, ctl: Control, items: seq<int>, st: seq<Status>, c: nat)
    requires Ledger(work, ctl, items, st) && c < |ctl.cons| && st[|work| + c] == Resting
    ensures !ctl.cons[c].at.Asking? && !ctl.cons[c].at.Popping?
  {
    hide PlacesOk, OnceEach, DoneOk, MainOk;
  }

  /** How far a consumer at rest is from leaving its loop while the stack stays empty, or from taking
      a value while it is not. */
  function Turn(at: ConsumerPc, nothing: bool): nat {
    match at
    case ReadDone => if nothing then 2 else 3
    case AskEmpty => if nothing then 1 else 2
    case AskPop => if nothing then 3 else 1
    case _ => 0
  }

  /** After the flag is up, a consumer left alone takes what is on the stack and returns. */
  lemma {:induction false} ConsumeAll(work: Work, consumers: nat, d: Driver, c: nat) returns (d': Driver)
    requires DriverInv(work, consumers, d) && Distinct(work) && Quiescent(d.stack)
    requires c < |d.ctl.cons| && d.ctl.done
    ensures DriverInv(work, consumers, d') && Reaches(d, d', work) && Quiescent(d'.stack)
    ensures d'.ctl.main == d.ctl.main && |d'.ctl.cons| == |d.ctl.cons| && d'.ctl.done
    ensures d'.ctl.cons[c].at.Returned?
    decreases |ItemsOf(d.stack)|, Turn(d.ctl.cons[c].at, ItemsOf(d.stack) == [])
  {
    hide Inv, Ledger, Statuses, ItemsOf, Reaches, Distinct, Do;
    RestingConsumer(work, consumers, d, c);
    Known(work, consumers, d);
    var at, t := d.ctl.cons[c].at, |work| + c;
    if at.Returned? {
      d' := d;
      ReachesSelf(d, work);
    } else {
      var e := d;
      if at.ReadDone? {
        e := TakeStep(work, consumers, d, ConsumerReadsDone(c));
      } else if at.AskEmpty? {
        e := OneOperation(work, consumers, d, ConsumerAsksEmpty(c), t);
      } else {
        e := OneOperation(work, consumers, d, ConsumerPops(c), t);
      }
      d' := ConsumeAll(work, consumers, e, c);
      ReachesOn(d, e, d', work);
    }
  }

  /** The main thread collects from consumer `main.c` on. */
  lemma {:induction false} CollectAll(work: Work, consumers: nat, d: Driver) returns (d': Driver)
    requires DriverInv(work, consumers, d) && Distinct(work) && Quiescent(d.stack) && d.ctl.main.Collecting?
    ensures DriverInv(work, consumers, d') && Reaches(d, d', work) && d'.ctl.main == Finished
    decreases consumers + 1 - d.ctl.main.c
  {
    hide DriverInv, Reaches, Distinct, Perform;
    Known(work, consumers, d);
    var e, f, k := d, d, d.ctl.main.c;
    if k < consumers {
      e := ConsumeAll(work, consumers, d, k);
      Known(work, consumers, e);
    } else {
      ReachesSelf(d, work);
    }
    f := TakeStep(work, consumers, e, MainStep);
    MainStepDoes(e, work);
    ReachesOn(d, e, f, work);
    if k == consumers {
      d' := f;
    } else {
      d' := CollectAll(work, consumers, f);
      ReachesOn(d, f, d', work);
    }
  }

  lemma FinishFrom(work: Work, consumers: nat, d: Driver) returns (d': Driver)
    requires DriverInv(work, consumers, d) && Distinct(work)
    ensures Reaches(d, d', work) && d'.ctl.main == Finished
  {
    hide DriverInv, Reaches, Distinct;
    var e := SettleAll(work, consumers, d);
    d' := e;
    if e.ctl.main != Finished {
      var f := e;
      if e.ctl.main.Collecting? {
        ReachesSelf(e, work);
      } else {
        Known(work, consumers, e);
        f := JoinAll(work, consumers, e);
      }
      d' := CollectAll(work, consumers, f);
      ReachesOn(e, f, d', work);
      ReachesOn(d, e, d', work);
    }
  }

  // ---- The theorems ----

  /** Every run can be continued to one in which the main thread has finished. */
  lemma EveryRunCanFinish(run: seq<Driver>, work: Work, consumers: nat)
    requires IsProgramRun(run, work, consumers) && Distinct(work)
    ensures
      exists longer: seq<Driver> :: IsProgramRun(longer, work, consumers) && run <= longer && longer[|longer| - 1].ctl.main == Finished
  {
    hide DriverInv, NextDriver;
    var d := run[|run| - 1];
    ProgramInv(run, work, consumers, |run| - 1);
    var d' := FinishFrom(work, consumers, d);
    var path :| IsPath(path, work) && path[0] == d && path[|path| - 1] == d';
    JoinPaths(run, path, work);
    assert IsProgramRun(run + path[1..], work, consumers);
  }

  /** The program never deadlocks: in every state of every run, until the main thread has finished,
      something can happen. */
  lemma NoDeadlock(run: seq<Driver>, work: Work, consumers: nat, i: nat)
    requires IsProgramRun(run, work, consumers) && Distinct(work) && i < |run|
    requires run[i].ctl.main != Finished
    ensures exists a :: Allowed(run[i], work, a)
  {
    hide DriverInv, Perform, Allowed;
    ProgramInv(run, work, consumers, i);
    var d' := FinishFrom(work, consumers, run[i]);
    var path :| IsPath(path, work) && path[0] == run[i] && path[|path| - 1] == d';
    assert NextDriver(path[0], path[1], work);
  }

  /** For any numbers of producers, items and consumers there is a run that finishes, and with at least
      one consumer it is one in which the stress test passes. */
  lemma SomeRunPasses(producers: nat, n: nat, consumers: nat)
    ensures
      exists run: seq<Driver> :: IsProgramRun(run, Ranges(producers, n), consumers) && run[|run| - 1].ctl.main == Finished
                    && (consumers > 0 ==> |run[|run| - 1].ctl.all| == producers * n)
  {
    hide NextDriver;
    var work := Ranges(producers, n);
    var start := [InitDriver(work, consumers)];
    RangesDistinct(producers, n);
    hide Ranges, Distinct;
    EveryRunCanFinish(start, work, consumers);
    var run: seq<Driver> :| IsProgramRun(run, work, consumers) && start <= run && run[|run| - 1].ctl.main == Finished;
    if consumers > 0 {
      StressTestPasses(run, producers, n, consumers, |run| - 1);
    }
  }
}
