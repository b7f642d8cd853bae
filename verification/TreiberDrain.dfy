/** The stress program: producers push, consumers pop until told that production is over and the
    stack is empty, and the main thread joins the producers, raises the flag and collects.

    Any number of producers with any work lists, and any number of consumers. Thread ids: the
    producers come first, then the consumers. The stack is used through its real steps.
 */
module TreiberDrain {
  import opened Wrappers
  import opened AtomicStack
  import opened Sequences
  import opened TreiberStack

  datatype ConsumerPc = ReadDone | AskEmpty | Asking | AskPop | Popping | Returned

  datatype Consumer = Consumer(at: ConsumerPc, got: set<int>)

  datatype MainPc = Joining(p: nat) | SetDone | Collecting(c: nat) | Finished

  datatype Control = Control(sent: seq<nat>, cons: seq<Consumer>, done: bool, main: MainPc, all: set<int>)

  datatype Driver = Driver(stack: State, ctl: Control)

  type Work = seq<seq<int>>

  datatype DriverAction =
    | ProducerPushes(p: nat)
    | ProducerBack(p: nat)
    | Inside(t: Tid, a: Action)              // a step within a push, pop or empty
    | ConsumerReadsDone(c: nat)              // !done.load() || ...
    | ConsumerAsksEmpty(c: nat)              // !stack.empty()
    | ConsumerAnswered(c: nat)
    | ConsumerPops(c: nat)
    | ConsumerGot(c: nat)                    // insert, if there is a value
    | MainStep

  function Below(n: nat): (ts: set<Tid>)
    ensures forall t: Tid :: t in ts <==> t < n
  {
    if n == 0 then {} else Below(n - 1) + {n - 1}
  }

  function InitDriver(work: Work, consumers: nat): Driver {
    Driver(Init(Below(|work| + consumers)),
           Control(seq(|work|, _ => 0), seq(consumers, _ => Consumer(ReadDone, {})), false, Joining(0), {}))
  }

  predicate Returning(pc: Pc) {
    pc.PushRet? || pc.PopRet? || pc.EmptyRet?
  }

  predicate Idles(d: Driver, t: Tid) {
    t in d.stack.pcs && d.stack.pcs[t].Idle?
  }

  predicate MainEnabled(d: Driver, work: Work) {
    match d.ctl.main
    case Joining(p) =>                              // join: the producer has returned
      if p < |work| then p < |d.ctl.sent| && d.ctl.sent[p] == |work[p]| && Idles(d, p) else true
    case SetDone => true
    case Collecting(c) => if c < |d.ctl.cons| then d.ctl.cons[c].at.Returned? else true
    case Finished => false
  }

  predicate Allowed(d: Driver, work: Work, a: DriverAction) {
    var n := |work|;
    && |d.ctl.sent| == n
    && match a
       case ProducerPushes(p) => p < n && d.ctl.sent[p] < |work[p]| && Idles(d, p)
       case ProducerBack(p) => p < n && p in d.stack.pcs && d.stack.pcs[p].PushRet?
       case Inside(t, b) =>
         Enabled(d.stack, t, b) && !d.stack.pcs[t].Idle? && !Returning(d.stack.pcs[t])
       case ConsumerReadsDone(c) => c < |d.ctl.cons| && d.ctl.cons[c].at.ReadDone?
       case ConsumerAsksEmpty(c) => c < |d.ctl.cons| && d.ctl.cons[c].at.AskEmpty? && Idles(d, n + c)
       case ConsumerAnswered(c) =>
         c < |d.ctl.cons| && d.ctl.cons[c].at.Asking? && n + c in d.stack.pcs && d.stack.pcs[n + c].EmptyRet?
       case ConsumerPops(c) => c < |d.ctl.cons| && d.ctl.cons[c].at.AskPop? && Idles(d, n + c)
       case ConsumerGot(c) =>
         c < |d.ctl.cons| && d.ctl.cons[c].at.Popping? && n + c in d.stack.pcs && d.stack.pcs[n + c].PopRet?
       case MainStep => MainEnabled(d, work)
  }

  function ConsumerAt(ctl: Control, c: nat, pc: ConsumerPc): Control
    requires c < |ctl.cons|
  {
    ctl.(cons := ctl.cons[c := ctl.cons[c].(at := pc)])
  }

  function Gains(ctl: Control, c: nat, res: Option<int>): Control
    requires c < |ctl.cons|
  {
    var got := ctl.cons[c].got;
    ctl.(cons := ctl.cons[c := Consumer(ReadDone, if res.Some? then got + {res.value} else got)])
  }

  function MainDoes(ctl: Control, work: Work): Control {
    match ctl.main
    case Joining(p) => ctl.(main := if p < |work| then Joining(p + 1) else SetDone)
    case SetDone => ctl.(done := true, main := Collecting(0))
    case Collecting(c) =>
      if c < |ctl.cons| then ctl.(all := ctl.all + ctl.cons[c].got, main := Collecting(c + 1))
      else ctl.(main := Finished)
    case Finished => ctl
  }

  function Perform(d: Driver, work: Work, a: DriverAction): Driver
    requires Allowed(d, work, a)
  {
    var n, s, ctl := |work|, d.stack, d.ctl;
    match a
    case ProducerPushes(p) =>
      Driver(Do(s, p, StartPush(work[p][ctl.sent[p]])), ctl.(sent := ctl.sent[p := ctl.sent[p] + 1]))
    case ProducerBack(p) => Driver(Do(s, p, Go), ctl)
    case Inside(t, b) => Driver(Do(s, t, b), ctl)
    case ConsumerReadsDone(c) => Driver(s, ConsumerAt(ctl, c, if ctl.done then AskEmpty else AskPop))
    case ConsumerAsksEmpty(c) => Driver(Do(s, n + c, StartEmpty), ConsumerAt(ctl, c, Asking))
    case ConsumerAnswered(c) =>
      Driver(Do(s, n + c, Go), ConsumerAt(ctl, c, if s.pcs[n + c].answer then Returned else AskPop))
    case ConsumerPops(c) => Driver(Do(s, n + c, StartPop), ConsumerAt(ctl, c, Popping))
    case ConsumerGot(c) => Driver(Do(s, n + c, Go), Gains(ctl, c, s.pcs[n + c].res))
    case MainStep => Driver(s, MainDoes(ctl, work))
  }

  ghost predicate NextDriver(d: Driver, d': Driver, work: Work) {
    exists a :: Allowed(d, work, a) && d' == Perform(d, work, a)
  }

  ghost predicate IsProgramRun(run: seq<Driver>, work: Work, consumers: nat) {
    && |run| > 0 && run[0] == InitDriver(work, consumers)
    && forall i :: 0 <= i < |run| - 1 ==> NextDriver(run[i], run[i + 1], work)
  }

  ghost predicate Distinct(work: Work) {
    forall p, q, i, j | 0 <= p < |work| && 0 <= q < |work| && 0 <= i < |work[p]| && 0 <= j < |work[q]| ::
      work[p][i] == work[q][j] ==> p == q && i == j
  }

  // ---- The ledger: where every value is, in terms of the atomic stack ----

  /** How many pushes of producer `p` have taken place. */
  function Completed(ctl: Control, st: seq<Status>, p: nat): int
    requires p < |ctl.sent| && p < |st|
  {
    (ctl.sent[p] as int) - (if st[p].Pending? then 1 else 0)
  }

  /** Value `v` has been pushed. */
  ghost predicate IsPushed(work: Work, ctl: Control, st: seq<Status>, v: int)
    requires |ctl.sent| == |work| <= |st|
  {
    exists p, j :: 0 <= p < |work| && 0 <= j < |work[p]| && work[p][j] == v && j < Completed(ctl, st, p)
  }

  /** The values consumer `c` has received, counting one that its pop is bringing back. */
  function Holding(n: nat, ctl: Control, st: seq<Status>, c: nat): set<int>
    requires c < |ctl.cons| && n + c < |st|
  {
    ctl.cons[c].got
    + if st[n + c].Done? && st[n + c].res.Popped? && st[n + c].res.value.Some? then {st[n + c].res.value.value} else {}
  }

  ghost predicate Sizes(work: Work, ctl: Control, st: seq<Status>) {
    && |ctl.sent| == |work| && |st| == |work| + |ctl.cons|
    && forall p :: 0 <= p < |work| ==> ctl.sent[p] <= |work[p]|
  }

  /** A producer rests or is inside the push of the value it last took from its list. */
  ghost predicate ProducersOk(work: Work, ctl: Control, st: seq<Status>)
    requires Sizes(work, ctl, st)
  {
    forall p :: 0 <= p < |work| ==>
      || st[p] == Resting
      || (ctl.sent[p] > 0 && (st[p] == Pending(Push(work[p][ctl.sent[p] - 1])) || st[p] == Done(Pushed)))
  }

  ghost predicate ConsumersOk(work: Work, ctl: Control, st: seq<Status>)
    requires Sizes(work, ctl, st)
  {
    forall c :: 0 <= c < |ctl.cons| ==>
      var s := st[|work| + c];
      match ctl.cons[c].at
      case Asking => s == Pending(Empty) || (s.Done? && s.res.WasEmpty?)
      case Popping => s == Pending(Pop) || (s.Done? && s.res.Popped?)
      case _ => s == Resting
  }

  predicate ProducerFinished(work: Work, ctl: Control, st: seq<Status>, p: nat)
    requires p < |ctl.sent| && p < |st| && p < |work|
  {
    ctl.sent[p] == |work[p]| && st[p] == Resting
  }

  /** Consumer `c` has left its loop, or has the answer that will make it leave. */
  predicate Leaving(n: nat, ctl: Control, st: seq<Status>, c: nat)
    requires c < |ctl.cons| && n + c < |st|
  {
    ctl.cons[c].at.Returned? || (ctl.cons[c].at.Asking? && st[n + c] == Done(WasEmpty(true)))
  }

  /** The flag is up only when production is over; a consumer asks whether the stack is empty
      only after it saw the flag; and once one of them was told so, the stack stays empty. */
  ghost predicate DoneOk(work: Work, ctl: Control, items: seq<int>, st: seq<Status>)
    requires Sizes(work, ctl, st)
  {
    && (ctl.done ==> forall p :: 0 <= p < |work| ==> ProducerFinished(work, ctl, st, p))
    && (forall c :: 0 <= c < |ctl.cons| ==>
          && (ctl.cons[c].at.AskEmpty? || ctl.cons[c].at.Asking? || ctl.cons[c].at.Returned? ==> ctl.done)
          && (Leaving(|work|, ctl, st, c) ==> items == []))
  }

  /** Every value pushed is in exactly one place: on the stack, or with one consumer. */
  ghost predicate PlacesOk(work: Work, ctl: Control, items: seq<int>, st: seq<Status>)
    requires Sizes(work, ctl, st)
  {
    && NoDuplicates(items)
    && (forall c, v :: 0 <= c < |ctl.cons| && v in Holding(|work|, ctl, st, c) ==> v !in items)
    && (forall c, e, v | 0 <= c < |ctl.cons| && 0 <= e < |ctl.cons| ::
          v in Holding(|work|, ctl, st, c) && v in Holding(|work|, ctl, st, e) ==> c == e)
    && (forall v :: v in items ==> IsPushed(work, ctl, st, v))
    && (forall c, v :: 0 <= c < |ctl.cons| && v in Holding(|work|, ctl, st, c) ==> IsPushed(work, ctl, st, v))
    && (forall v :: IsPushed(work, ctl, st, v) && v !in items ==>
          exists c :: 0 <= c < |ctl.cons| && v in Holding(|work|, ctl, st, c))
  }

  /** No pop brings back a value its consumer already has. */
  ghost predicate OnceEach(work: Work, ctl: Control, st: seq<Status>)
    requires Sizes(work, ctl, st)
  {
    forall c :: 0 <= c < |ctl.cons| ==>
      var s := st[|work| + c];
      s.Done? && s.res.Popped? && s.res.value.Some? ==> s.res.value.value !in ctl.cons[c].got
  }

  ghost predicate MainOk(work: Work, ctl: Control, st: seq<Status>)
    requires Sizes(work, ctl, st)
  {
    match ctl.main
    case Joining(k) =>
      k <= |work| && !ctl.done && ctl.all == {} && forall p :: 0 <= p < k ==> ProducerFinished(work, ctl, st, p)
    case SetDone => !ctl.done && ctl.all == {} && forall p :: 0 <= p < |work| ==> ProducerFinished(work, ctl, st, p)
    case Collecting(k) => k <= |ctl.cons| && Collected(ctl, k)
    case Finished => Collected(ctl, |ctl.cons|)
  }

  /** The main thread has merged what the first `k` consumers returned, and nothing else. */
  ghost predicate Collected(ctl: Control, k: nat)
    requires k <= |ctl.cons|
  {
    && ctl.done
    && (forall c :: 0 <= c < k ==> ctl.cons[c].at.Returned? && ctl.cons[c].got <= ctl.all)
    && (forall v :: v in ctl.all ==> exists c :: 0 <= c < k && v in ctl.cons[c].got)
  }

  ghost predicate Ledger(work: Work, ctl: Control, items: seq<int>, st: seq<Status>) {
    && Sizes(work, ctl, st)
    && ProducersOk(work, ctl, st) && ConsumersOk(work, ctl, st)
    && DoneOk(work, ctl, items, st) && PlacesOk(work, ctl, items, st) && OnceEach(work, ctl, st)
    && MainOk(work, ctl, st)
  }

  // ---- Changes to the ledger ----

  lemma SamePushed(work: Work, ctl: Control, st: seq<Status>, ctl': Control, st': seq<Status>)
    requires Sizes(work, ctl, st) && Sizes(work, ctl', st')
    requires forall p :: 0 <= p < |work| ==> Completed(ctl', st', p) == Completed(ctl, st, p)
    ensures forall v :: IsPushed(work, ctl', st', v) <==> IsPushed(work, ctl, st, v)
  {
    forall v
      ensures IsPushed(work, ctl', st', v) <==> IsPushed(work, ctl, st, v)
    {
      if IsPushed(work, ctl, st, v) {
        var q, k :| 0 <= q < |work| && 0 <= k < |work[q]| && work[q][k] == v && k < Completed(ctl, st, q);
        assert k < Completed(ctl', st', q);
      }
    }
  }

  /** Changes that move no value. */
  lemma SamePlaces(work: Work, items: seq<int>, ctl: Control, st: seq<Status>, ctl': Control, st': seq<Status>)
    requires Sizes(work, ctl, st) && PlacesOk(work, ctl, items, st)
    requires Sizes(work, ctl', st') && |ctl'.cons| == |ctl.cons|
    requires forall p :: 0 <= p < |work| ==> Completed(ctl', st', p) == Completed(ctl, st, p)
    requires forall c :: 0 <= c < |ctl.cons| ==> Holding(|work|, ctl', st', c) == Holding(|work|, ctl, st, c)
    ensures PlacesOk(work, ctl', items, st')
  {
    SamePushed(work, ctl, st, ctl', st');
  }

  lemma TakePush(work: Work, ctl: Control, items: seq<int>, st: seq<Status>, p: nat, v: int)
    requires Ledger(work, ctl, items, st) && Distinct(work)
    requires p < |work| && st[p] == Pending(Push(v))
    ensures Ledger(work, ctl, [v] + items, st[p := Done(Pushed)])
  {
    var st', j := st[p := Done(Pushed)], ctl.sent[p] - 1;
    assert work[p][j] == v;
    assert !ProducerFinished(work, ctl, st, p);
    assert PlacesOk(work, ctl, [v] + items, st') by {
      assert !IsPushed(work, ctl, st, v);
      assert forall c :: 0 <= c < |ctl.cons| ==> Holding(|work|, ctl, st', c) == Holding(|work|, ctl, st, c);
      forall w
        ensures IsPushed(work, ctl, st', w) <==> w == v || IsPushed(work, ctl, st, w)
      {
        if IsPushed(work, ctl, st, w) {
          var q, k :| 0 <= q < |work| && 0 <= k < |work[q]| && work[q][k] == w && k < Completed(ctl, st, q);
          assert k < Completed(ctl, st', q);
        }
        if w == v {
          assert j < Completed(ctl, st', p);
        }
      }
    }
    assert forall q :: 0 <= q < |work| && ProducerFinished(work, ctl, st, q) ==> ProducerFinished(work, ctl, st', q);
  }

  /** Taking the top value from the stack into the hands of consumer `c`. */
  lemma PopPlaces(work: Work, ctl: Control, items: seq<int>, st: seq<Status>, c: nat)
    requires Sizes(work, ctl, st) && PlacesOk(work, ctl, items, st) && OnceEach(work, ctl, st)
    requires c < |ctl.cons| && st[|work| + c] == Pending(Pop)
    ensures PlacesOk(work, ctl, Items(Pop, items), st[|work| + c := Done(Result(Pop, items))])
    ensures OnceEach(work, ctl, st[|work| + c := Done(Result(Pop, items))])
  {
    var n := |work|;
    var st', items' := st[n + c := Done(Result(Pop, items))], Items(Pop, items);
    SamePushed(work, ctl, st, ctl, st');
    hide IsPushed;
    assert forall e :: 0 <= e < |ctl.cons| && e != c ==> Holding(n, ctl, st', e) == Holding(n, ctl, st, e);
    var held, held' := Holding(n, ctl, st, c), Holding(n, ctl, st', c);
    assert held == ctl.cons[c].got;
    if items == [] {
      assert held' == held;
    } else {
      var v := items[0];
      assert held' == held + {v} && v in items && v !in held;
      FirstOut(items);
      PopFound(work, ctl, items, st, st', c, v);
    }
  }

  lemma FirstOut(items: seq<int>)
    requires items != [] && NoDuplicates(items)
    ensures NoDuplicates(items[1..]) && items[0] !in items[1..]
    ensures forall w :: w in items <==> w == items[0] || w in items[1..]
  {
    assert items == [items[0]] + items[1..];
  }

  /** After a pop by consumer `c` whatever was pushed and is not on the stack is with a consumer. */
  lemma PopFound(work: Work, ctl: Control, items: seq<int>, st: seq<Status>, st': seq<Status>, c: nat, v: int)
    requires Sizes(work, ctl, st) && PlacesOk(work, ctl, items, st) && |st'| == |st| && c < |ctl.cons|
    requires items != [] && v == items[0] && v in Holding(|work|, ctl, st', c)
    requires forall e :: 0 <= e < |ctl.cons| ==> Holding(|work|, ctl, st, e) <= Holding(|work|, ctl, st', e)
    ensures
      forall w :: IsPushed(work, ctl, st, w) && w !in items[1..] ==>
        exists e :: 0 <= e < |ctl.cons| && w in Holding(|work|, ctl, st', e)
  {
    hide IsPushed, Holding;
    FirstOut(items);
    forall w | IsPushed(work, ctl, st, w) && w !in items[1..]
      ensures exists e :: 0 <= e < |ctl.cons| && w in Holding(|work|, ctl, st', e)
    {
      if w != v {
        var e :| 0 <= e < |ctl.cons| && w in Holding(|work|, ctl, st, e);
        assert w in Holding(|work|, ctl, st', e);
      }
    }
  }

  lemma TakePop(work: Work, ctl: Control, items: seq<int>, st: seq<Status>, c: nat)
    requires Ledger(work, ctl, items, st)
    requires c < |ctl.cons| && st[|work| + c] == Pending(Pop)
    ensures Ledger(work, ctl, Items(Pop, items), st[|work| + c := Done(Result(Pop, items))])
  {
    var n := |work|;
    var st' := st[n + c := Done(Result(Pop, items))];
    hide PlacesOk;
    hide OnceEach;
    PopPlaces(work, ctl, items, st, c);
    assert forall e :: 0 <= e < |ctl.cons| && Leaving(n, ctl, st', e) ==> Leaving(n, ctl, st, e);
    assert forall q :: 0 <= q < n && ProducerFinished(work, ctl, st, q) ==> ProducerFinished(work, ctl, st', q);
  }

  lemma TakeEmpty(work: Work, ctl: Control, items: seq<int>, st: seq<Status>, c: nat)
    requires Ledger(work, ctl, items, st)
    requires c < |ctl.cons| && st[|work| + c] == Pending(Empty)
    ensures Ledger(work, ctl, items, st[|work| + c := Done(Result(Empty, items))])
  {
    hide PlacesOk;
    var st' := st[|work| + c := Done(Result(Empty, items))];
    SamePlaces(work, items, ctl, st, ctl, st');
    assert forall q :: 0 <= q < |work| && ProducerFinished(work, ctl, st, q) ==> ProducerFinished(work, ctl, st', q);
  }

  lemma CallPush(work: Work, ctl: Control, items: seq<int>, st: seq<Status>, p: nat)
    requires Ledger(work, ctl, items, st)
    requires p < |work| && st[p] == Resting && ctl.sent[p] < |work[p]|
    ensures Ledger(work, ctl.(sent := ctl.sent[p := ctl.sent[p] + 1]), items,
                   st[p := Pending(Push(work[p][ctl.sent[p]]))])
  {
    hide PlacesOk;
    var ctl', st' := ctl.(sent := ctl.sent[p := ctl.sent[p] + 1]), st[p := Pending(Push(work[p][ctl.sent[p]]))];
    SamePlaces(work, items, ctl, st, ctl', st');
    assert !ProducerFinished(work, ctl, st, p);
    assert forall q :: 0 <= q < |work| && ProducerFinished(work, ctl, st, q) ==> ProducerFinished(work, ctl', st', q);
  }

  lemma ReturnPush(work: Work, ctl: Control, items: seq<int>, st: seq<Status>, p: nat)
    requires Ledger(work, ctl, items, st) && p < |work| && st[p].Done?
    ensures Ledger(work, ctl, items, st[p := Resting])
  {
    hide PlacesOk;
    var st' := st[p := Resting];
    SamePlaces(work, items, ctl, st, ctl, st');
    assert forall q :: 0 <= q < |work| && ProducerFinished(work, ctl, st, q) ==> ProducerFinished(work, ctl, st', q);
  }

  /** A consumer moves on without moving a value: it reads the flag, calls, or gets an answer. */
  lemma ConsumerMoves(work: Work, ctl: Control, items: seq<int>, st: seq<Status>, c: nat, pc: ConsumerPc, status: Status)
    requires Ledger(work, ctl, items, st) && c < |ctl.cons|
    requires !ctl.cons[c].at.Returned? && !ctl.cons[c].at.Popping?
    requires match pc
             case Asking => status == Pending(Empty)
             case Popping => status == Pending(Pop)
             case _ => status == Resting
    requires pc.AskEmpty? || pc.Asking? || pc.Returned? ==> ctl.done
    requires pc.Returned? ==> Leaving(|work|, ctl, st, c)
    ensures Ledger(work, ConsumerAt(ctl, c, pc), items, st[|work| + c := status])
  {
    hide PlacesOk;
    var n := |work|;
    var ctl', st' := ConsumerAt(ctl, c, pc), st[n + c := status];
    assert forall e :: 0 <= e < |ctl.cons| ==> Holding(n, ctl', st', e) == Holding(n, ctl, st, e);
    assert forall e :: 0 <= e < |ctl.cons| && Leaving(n, ctl', st', e) ==> Leaving(n, ctl, st, e);
    assert forall e :: 0 <= e < |ctl.cons| && e != c ==> ctl'.cons[e] == ctl.cons[e];
    SamePlaces(work, items, ctl, st, ctl', st');
    assert forall q :: 0 <= q < n && ProducerFinished(work, ctl, st, q) ==> ProducerFinished(work, ctl', st', q);
  }

  lemma ConsumerGains(work: Work, ctl: Control, items: seq<int>, st: seq<Status>, c: nat)
    requires Ledger(work, ctl, items, st) && c < |ctl.cons|
    requires ctl.cons[c].at.Popping? && st[|work| + c].Done?
    ensures st[|work| + c].res.Popped?
    ensures Ledger(work, Gains(ctl, c, st[|work| + c].res.value), items, st[|work| + c := Resting])
  {
    hide PlacesOk;
    var n := |work|;
    var ctl', st' := Gains(ctl, c, st[n + c].res.value), st[n + c := Resting];
    assert forall e :: 0 <= e < |ctl.cons| ==> Holding(n, ctl', st', e) == Holding(n, ctl, st, e);
    assert forall e :: 0 <= e < |ctl.cons| && Leaving(n, ctl', st', e) ==> Leaving(n, ctl, st, e);
    assert forall e :: 0 <= e < |ctl.cons| && e != c ==> ctl'.cons[e] == ctl.cons[e];
    SamePlaces(work, items, ctl, st, ctl', st');
    assert forall q :: 0 <= q < n && ProducerFinished(work, ctl, st, q) ==> ProducerFinished(work, ctl', st', q);
  }

  lemma MainMoves(work: Work, ctl: Control, items: seq<int>, st: seq<Status>)
    requires Ledger(work, ctl, items, st)
    requires ctl.main.Joining? && ctl.main.p < |work| ==> ProducerFinished(work, ctl, st, ctl.main.p)
    requires ctl.main.Collecting? && ctl.main.c < |ctl.cons| ==> ctl.cons[ctl.main.c].at.Returned?
    ensures Ledger(work, MainDoes(ctl, work), items, st)
  {
    hide PlacesOk;
    var ctl' := MainDoes(ctl, work);
    SamePlaces(work, items, ctl, st, ctl', st);
    assert forall q :: 0 <= q < |work| && ProducerFinished(work, ctl, st, q) ==> ProducerFinished(work, ctl', st, q);
    assert forall c :: 0 <= c < |ctl.cons| && Leaving(|work|, ctl', st, c) ==> Leaving(|work|, ctl, st, c);
    if ctl.main.Collecting? && ctl.main.c < |ctl.cons| {
      var k := ctl.main.c;
      assert Collected(ctl', k + 1);
    }
  }
}
