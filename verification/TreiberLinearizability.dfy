/** The log of every run is accepted: the Treiber stack is linearizable, with explicit points. */
module TreiberLinearizability {
  import opened Wrappers
  import opened AtomicStack
  import opened TreiberStack
  import opened TreiberInvariant

  /** The event of a step that is not a retry: nothing, or one call, take or return. */
  function MainEvent(s: State, t: Tid, a: Action): seq<Event>
    requires Enabled(s, t, a)
  {
    match s.pcs[t]
    case Idle =>
      [Call(t, match a case StartPush(v) => Push(v) case StartPop => Pop case _ => Empty)]
    case PushCas(n, seen) =>
      if s.head == seen && a.Go? then [Take(t, Push(s.heap[n].value), Pushed)] else []
    case PushRet => [Return(t, Pushed)]
    case PopLoad => NullRead(s, t)
    case PopCas(cur, next) =>
      if s.head == At(cur) && a.Go? then [Take(t, Pop, Popped(Some(s.heap[cur].value)))] else NullRead(s, t)
    case PopRet(res) => [Return(t, Popped(res))]
    case EmptyLoad => [Take(t, Empty, WasEmpty(s.head == Null))]
    case EmptyRet(b) => [Return(t, WasEmpty(b))]
    case _ => []
  }

  /** Whether the step is a compare-exchange on `head` that finds another value than it expects. */
  predicate Fails(s: State, t: Tid) {
    t in s.pcs && ((s.pcs[t].PushCas? && s.head != s.pcs[t].seen) || (s.pcs[t].PopCas? && s.head != At(s.pcs[t].cur)))
  }

  lemma StepEvents(s: State, t: Tid, a: Action)
    requires Enabled(s, t, a)
    ensures Do(s, t, a).log == s.log + (if Fails(s, t) then [Retry(t)] else []) + MainEvent(s, t, a)
    ensures Do(s, t, a).pcs == s.pcs[t := Do(s, t, a).pcs[t]]
  {
    assert s.log + [] == s.log;
  }

  /** A step logs a failure on `head` exactly when a thread about to compare-exchange `head` finds another
      value than it last read. */
  lemma FailuresAreLogged(s: State, t: Tid, a: Action)
    requires Enabled(s, t, a)
    ensures
      && var fails := (s.pcs[t].PushCas? && s.head != s.pcs[t].seen) || (s.pcs[t].PopCas? && s.head != At(s.pcs[t].cur));
      && s.log <= Do(s, t, a).log
      && (Retry(t) in Do(s, t, a).log[|s.log|..] <==> fails)
      && forall e :: e in Do(s, t, a).log[|s.log|..] ==> e.t == t
  {
    assert t in s.pcs;
    hide Do, MainEvent, Enabled;
    StepEvents(s, t, a);
    MainShape(s, t, a);
    var es := (if Fails(s, t) then [Retry(t)] else []) + MainEvent(s, t, a);
    RetryAmong(t, Fails(s, t), MainEvent(s, t, a));
    assert Do(s, t, a).log == s.log + es && Do(s, t, a).log[|s.log|..] == es;
  }

  /** And it logs the taking of a push, or of a pop that finds a value, exactly when a compare-exchange on
      `head` succeeds. */
  lemma SuccessesAreLogged(s: State, t: Tid, a: Action)
    requires Enabled(s, t, a)
    ensures
      && var wins := a.Go? && ((s.pcs[t].PushCas? && s.head == s.pcs[t].seen)
                               || (s.pcs[t].PopCas? && s.head == At(s.pcs[t].cur)));
      && s.log <= Do(s, t, a).log
      && (wins <==> exists e :: e in Do(s, t, a).log[|s.log|..] && e.Take?
                                && (e.op.Push? || (e.res.Popped? && e.res.value.Some?)))
  {
    assert t in s.pcs;
    TakesOnSuccess(s, t, a);
    hide Do, MainEvent, Enabled, Fails;
    StepEvents(s, t, a);
    MainShape(s, t, a);
    var es := (if Fails(s, t) then [Retry(t)] else []) + MainEvent(s, t, a);
    TakeAmong(t, Fails(s, t), MainEvent(s, t, a));
    assert Do(s, t, a).log == s.log + es && Do(s, t, a).log[|s.log|..] == es;
  }

  lemma TakeAmong(t: Tid, retry: bool, main: seq<Event>)
    requires main == [] || |main| == 1
    ensures
      && var es := (if retry then [Retry(t)] else []) + main;
      && ((exists e :: e in es && e.Take? && (e.op.Push? || (e.res.Popped? && e.res.value.Some?)))
          <==> main != [] && main[0].Take? && (main[0].op.Push? || (main[0].res.Popped? && main[0].res.value.Some?)))
  {
    var es := (if retry then [Retry(t)] else []) + main;
    assert main != [] ==> main[0] in es;
  }

  lemma TakesOnSuccess(s: State, t: Tid, a: Action)
    requires Enabled(s, t, a)
    ensures
      && var wins := a.Go? && ((s.pcs[t].PushCas? && s.head == s.pcs[t].seen)
                               || (s.pcs[t].PopCas? && s.head == At(s.pcs[t].cur)));
      && var main := MainEvent(s, t, a);
      && (wins <==> main != [] && main[0].Take? && (main[0].op.Push? || (main[0].res.Popped? && main[0].res.value.Some?)))
  {
  }

  lemma RetryAmong(t: Tid, retry: bool, main: seq<Event>)
    requires main == [] || (|main| == 1 && main[0].t == t && !main[0].Retry?)
    ensures
      && var es := (if retry then [Retry(t)] else []) + main;
      && (Retry(t) in es <==> retry) && forall e :: e in es ==> e.t == t
  {
  }

  /** Node values are never changed. */
  lemma StepValues(s: State, t: Tid, a: Action)
    requires Enabled(s, t, a)
    ensures forall n :: n in s.heap ==> n in Do(s, t, a).heap && Do(s, t, a).heap[n].value == s.heap[n].value
  {
  }

  predicate Advances(before: Status, es: seq<Event>, after: Status) {
    if es == [] then after == before
    else match es[0]
      case Call(_, op) => before == Resting && after == Pending(op)
      case Take(_, op, res) => before == Pending(op) && after == Done(res)
      case Return(_, res) => before == Done(res) && after == Resting
      case Retry(_) => false
  }

  /** A step advances its thread's operation by the event it logs. */
  lemma StepStatus(s: State, t: Tid, a: Action)
    requires Enabled(s, t, a)
    requires forall n :: Owns(s.pcs[t], n) ==> n in s.heap && (s.pcs[t].TrashLoad? ==> s.heap[n].value == s.pcs[t].v)
    requires forall n :: Owns(Do(s, t, a).pcs[t], n) ==> n in Do(s, t, a).heap
    ensures Advances(StatusOf(s.heap, s.pcs[t]), MainEvent(s, t, a), StatusOf(Do(s, t, a).heap, Do(s, t, a).pcs[t]))
  {
  }

  /** A thread's status depends only on its locals and on the values of the nodes it owns. */
  lemma SameStatus(heap: map<Addr, Node>, heap': map<Addr, Node>, pc: Pc)
    requires forall n :: Owns(pc, n) ==> n in heap
    requires forall n :: n in heap ==> n in heap' && heap'[n].value == heap[n].value
    ensures forall n :: Owns(pc, n) ==> n in heap'
    ensures StatusOf(heap', pc) == StatusOf(heap, pc)
  {
  }

  lemma SameValues(heap: map<Addr, Node>, heap': map<Addr, Node>, c: seq<Addr>)
    requires forall n :: n in c ==> n in heap
    requires forall n :: n in heap ==> n in heap' && heap'[n].value == heap[n].value
    ensures Values(heap', c) == Values(heap, c)
  {
  }

  /** The stack's values after the event of a step. */
  predicate Explained(main: seq<Event>, items: seq<int>, items': seq<int>) {
    if main != [] && main[0].Take? then
      main[0].res == Result(main[0].op, items) && items' == Items(main[0].op, items)
    else items' == items
  }

  /** A step changes the stack's values exactly as the operation it takes does. */
  lemma StepItems(s: State, t: Tid, a: Action, c: seq<Addr>)
    requires Linked(s.heap, s.head, c) && Enabled(s, t, a)
    requires Linked(Do(s, t, a).heap, Do(s, t, a).head, NewChain(s, t, a, c))
    ensures Explained(MainEvent(s, t, a), Values(s.heap, c), Values(Do(s, t, a).heap, NewChain(s, t, a, c)))
  {
    var pc := s.pcs[t];
    if pc.PushCas? && s.head == pc.seen && a.Go? {
      PushItems(s, t, a, c);
    } else if pc.PopCas? && s.head == At(pc.cur) && a.Go? {
      PopItems(s, t, a, c);
    } else {
      hide Do, MainEvent, Explained;
      StepValues(s, t, a);
      SameValues(s.heap, Do(s, t, a).heap, c);
      SameItems(s, t, a, Values(s.heap, c));
    }
  }

  lemma PushItems(s: State, t: Tid, a: Action, c: seq<Addr>)
    requires Linked(s.heap, s.head, c) && Enabled(s, t, a)
    requires s.pcs[t].PushCas? && s.head == s.pcs[t].seen && a.Go?
    ensures NewChain(s, t, a, c) == [s.pcs[t].node] + c && Do(s, t, a).heap == s.heap
    ensures Explained(MainEvent(s, t, a), Values(s.heap, c), Values(s.heap, NewChain(s, t, a, c)))
  {
    var n := s.pcs[t].node;
    assert Values(s.heap, [n] + c) == [s.heap[n].value] + Values(s.heap, c);
  }

  lemma PopItems(s: State, t: Tid, a: Action, c: seq<Addr>)
    requires Linked(s.heap, s.head, c) && Enabled(s, t, a)
    requires s.pcs[t].PopCas? && s.head == At(s.pcs[t].cur) && a.Go?
    ensures c != [] && NewChain(s, t, a, c) == c[1..] && Do(s, t, a).heap == s.heap
    ensures Explained(MainEvent(s, t, a), Values(s.heap, c), Values(s.heap, NewChain(s, t, a, c)))
  {
    assert c[0] == s.pcs[t].cur;
    assert Values(s.heap, c[1..]) == Values(s.heap, c)[1..];
  }

  /** The steps that leave the head chain alone: what they take is what the head says. */
  lemma SameItems(s: State, t: Tid, a: Action, items: seq<int>)
    requires Enabled(s, t, a)
    requires s.head == Null <==> items == []
    requires !(s.pcs[t].PushCas? && s.head == s.pcs[t].seen && a.Go?)
    requires !(s.pcs[t].PopCas? && s.head == At(s.pcs[t].cur) && a.Go?)
    ensures Explained(MainEvent(s, t, a), items, items)
  {
  }

  lemma AppendStep(log: seq<Event>, t: Tid, retry: bool, main: seq<Event>, before: Status, after: Status,
                   items: seq<int>, items': seq<int>)
    requires main == [] || (|main| == 1 && main[0].t == t)
    requires Phase(log, t) == Some(before) && Advances(before, main, after)
    requires Replay(log) == Some(items) && Explained(main, items, items')
    ensures var log' := log + (if retry then [Retry(t)] else []) + main;
            && Phase(log', t) == Some(after) && Replay(log') == Some(items')
            && forall u :: u != t ==> Phase(log', u) == Phase(log, u)
  {
    var log0 := log + if retry then [Retry(t)] else [];
    if retry {
      AppendOne(log, Retry(t));
    } else {
      assert log0 == log;
    }
    if main == [] {
      assert log0 + main == log0;
    } else {
      AppendOne(log0, main[0]);
      assert main == [main[0]];
    }
  }

  lemma OthersKeepStatus(s: State, t: Tid, a: Action, c: seq<Addr>, c': seq<Addr>)
    requires Enabled(s, t, a) && AllLocalsAgree(s.heap, s.pcs, c)
    requires AllLocalsAgree(Do(s, t, a).heap, Do(s, t, a).pcs, c')
    ensures var s' := Do(s, t, a);
            && s'.pcs.Keys == s.pcs.Keys
            && (forall u :: u in s.pcs && u != t ==>
                  StatusOf(s'.heap, s'.pcs[u]) == StatusOf(s.heap, s.pcs[u]))
            && Advances(StatusOf(s.heap, s.pcs[t]), MainEvent(s, t, a), StatusOf(s'.heap, s'.pcs[t]))
  {
    var s' := Do(s, t, a);
    StepValues(s, t, a);
    StepEvents(s, t, a);
    assert LocalsAgree(s.heap, c, s.pcs[t]) && LocalsAgree(s'.heap, c', s'.pcs[t]);
    StepStatus(s, t, a);
    forall u | u in s.pcs && u != t
      ensures StatusOf(s'.heap, s'.pcs[u]) == StatusOf(s.heap, s.pcs[u])
    {
      assert LocalsAgree(s.heap, c, s.pcs[u]);
      SameStatus(s.heap, s'.heap, s.pcs[u]);
    }
  }

  lemma LogFollows(s: State, s': State, t: Tid, retry: bool, main: seq<Event>, c: seq<Addr>, c': seq<Addr>)
    requires Linked(s.heap, s.head, c) && AllLocalsAgree(s.heap, s.pcs, c) && LogExplains(s, c)
    requires Linked(s'.heap, s'.head, c') && AllLocalsAgree(s'.heap, s'.pcs, c')
    requires t in s.pcs && s'.pcs.Keys == s.pcs.Keys
    requires s'.log == s.log + (if retry then [Retry(t)] else []) + main
    requires main == [] || (|main| == 1 && main[0].t == t)
    requires Explained(main, Values(s.heap, c), Values(s'.heap, c'))
    requires Advances(StatusOf(s.heap, s.pcs[t]), main, StatusOf(s'.heap, s'.pcs[t]))
    requires forall u :: u in s.pcs && u != t ==> StatusOf(s'.heap, s'.pcs[u]) == StatusOf(s.heap, s.pcs[u])
    ensures LogExplains(s', c')
  {
    AppendStep(s.log, t, retry, main, StatusOf(s.heap, s.pcs[t]), StatusOf(s'.heap, s'.pcs[t]),
               Values(s.heap, c), Values(s'.heap, c'));
  }

  lemma StepLog(s: State, t: Tid, a: Action, c: seq<Addr>, c': seq<Addr>)
    requires Linked(s.heap, s.head, c) && AllLocalsAgree(s.heap, s.pcs, c) && LogExplains(s, c)
    requires Enabled(s, t, a) && c' == NewChain(s, t, a, c)
    requires var s' := Do(s, t, a); Linked(s'.heap, s'.head, c') && AllLocalsAgree(s'.heap, s'.pcs, c')
    ensures LogExplains(Do(s, t, a), c')
  {
    StepItems(s, t, a, c);
    OthersKeepStatus(s, t, a, c, c');
    StepEvents(s, t, a);
    MainShape(s, t, a);
    hide Do;
    hide MainEvent;
    hide LogExplains;
    LogFollows(s, Do(s, t, a), t, Fails(s, t), MainEvent(s, t, a), c, c');
  }

  lemma MainShape(s: State, t: Tid, a: Action)
    requires Enabled(s, t, a)
    ensures MainEvent(s, t, a) == [] || (|MainEvent(s, t, a)| == 1 && MainEvent(s, t, a)[0].t == t && !MainEvent(s, t, a)[0].Retry?)
  {
  }
}
