/** What it means for a concurrent history of stack operations to be linearizable.

    A log records the calls and returns of the operations of all threads, and in between them
    `Take` events that claim "here operation `op` of thread `t` happened, with result `res`".
    A log is accepted when replaying its `Take` events one after the other on a sequential LIFO
    stack gives the recorded results, and when each thread runs through call, take, return in
    that order. The visible history (calls and returns) is linearizable when it is the visible
    part of an accepted log.
 */
module AtomicStack {
  import opened Wrappers

  type Tid = nat

  datatype Op = Push(v: int) | Pop | Empty

  datatype Res = Pushed | Popped(value: Option<int>) | WasEmpty(answer: bool)

  datatype Event =
    | Call(t: Tid, op: Op)
    | Take(t: Tid, op: Op, res: Res)
    | Return(t: Tid, res: Res)
    | Retry(t: Tid)               // a compare-exchange on `head` found another value than expected

  /** The sequential stack, top first. */
  function Items(op: Op, items: seq<int>): seq<int> {
    match op
    case Push(v) => [v] + items
    case Pop => if items == [] then [] else items[1..]
    case Empty => items
  }

  function Result(op: Op, items: seq<int>): Res {
    match op
    case Push(v) => Pushed
    case Pop => Popped(if items == [] then None else Some(items[0]))
    case Empty => WasEmpty(items == [])
  }

  /** The stack after the operations taken in `log`, or None if a recorded result is not the
      one the sequential stack gives. */
  function Replay(log: seq<Event>): Option<seq<int>> {
    if log == [] then Some([])
    else
      var before := Replay(log[..|log| - 1]);
      match log[|log| - 1]
      case Take(_, op, res) =>
        if before.Some? && res == Result(op, before.value) then Some(Items(op, before.value)) else None
      case _ => before
  }

  datatype Status = Resting | Pending(op: Op) | Done(res: Res)

  /** Where thread `t` stands after `log`, or None if it took a step out of turn. */
  function Phase(log: seq<Event>, t: Tid): Option<Status> {
    if log == [] then Some(Resting)
    else
      var before := Phase(log[..|log| - 1], t);
      match log[|log| - 1]
      case Call(u, op) =>
        if u != t then before else if before == Some(Resting) then Some(Pending(op)) else None
      case Take(u, op, res) =>
        if u != t then before else if before == Some(Pending(op)) then Some(Done(res)) else None
      case Return(u, res) =>
        if u != t then before else if before == Some(Done(res)) then Some(Resting) else None
      case Retry(_) => before
  }

  /** The calls and returns of a log. */
  function Visible(log: seq<Event>): seq<Event> {
    if log == [] then []
    else
      var e := log[|log| - 1];
      Visible(log[..|log| - 1]) + if e.Call? || e.Return? then [e] else []
  }

  /** `history` is what stands in `log` at the places `at`, in order, and these are all calls and
      returns. */
  ghost predicate IsVisible(log: seq<Event>, history: seq<Event>, at: seq<nat>) {
    && |at| == |history| && (forall i :: 0 <= i < |at| ==> at[i] < |log| && history[i] == log[at[i]])
    && (forall i, j :: 0 <= i < j < |at| ==> at[i] < at[j])
    && forall k :: 0 <= k < |log| && (log[k].Call? || log[k].Return?) <==> k in at
  }

  /** The visible part in full: the calls and returns at their places in the log, in order, none left
      out. */
  lemma {:induction false} VisibleExactly(log: seq<Event>) returns (at: seq<nat>)
    ensures IsVisible(log, Visible(log), at)
  {
    if log == [] {
      at := [];
    } else {
      hide IsVisible;
      var n := |log| - 1;
      at := VisibleExactly(log[..n]);
      assert log == log[..n] + [log[n]];
      OneMoreVisible(log[..n], log[n], Visible(log[..n]), at);
      if log[n].Call? || log[n].Return? {
        at := at + [n];
      } else {
        assert Visible(log) == Visible(log[..n]);
      }
    }
  }

  lemma OneMoreVisible(log: seq<Event>, e: Event, history: seq<Event>, at: seq<nat>)
    requires IsVisible(log, history, at)
    ensures e.Call? || e.Return? ==> IsVisible(log + [e], history + [e], at + [|log|])
    ensures !e.Call? && !e.Return? ==> IsVisible(log + [e], history, at)
  {
    var n, more := |log|, at + [|log|];
    forall k | 0 <= k < n ensures k in more <==> k in at {}
    assert more[|at|] == n && n in more && n !in at;
    forall i | 0 <= i < |at| ensures at[i] < n && (log + [e])[at[i]] == log[at[i]] {}
  }

  ghost predicate Accepted(log: seq<Event>) {
    Replay(log).Some? && forall t :: Phase(log, t).Some?
  }

  ghost predicate Linearizable(history: seq<Event>) {
    exists log :: Accepted(log) && Visible(log) == history
  }

  /** The values pushed, and the values handed out by pops, in the order of the takes. */
  function PushedValues(log: seq<Event>): seq<int> {
    if log == [] then []
    else
      var e := log[|log| - 1];
      PushedValues(log[..|log| - 1]) + if e.Take? && e.op.Push? then [e.op.v] else []
  }

  function PoppedValues(log: seq<Event>): seq<int> {
    if log == [] then []
    else
      var e := log[|log| - 1];
      PoppedValues(log[..|log| - 1])
      + if e.Take? && e.res.Popped? && e.res.value.Some? then [e.res.value.value] else []
  }

  /** No value is lost or duplicated by an accepted log: what was pushed is what was popped plus
      what is still on the stack, counted with multiplicity. */
  lemma {:induction false} Conservation(log: seq<Event>)
    requires Replay(log).Some?
    ensures multiset(PushedValues(log)) == multiset(PoppedValues(log)) + multiset(Replay(log).value)
  {
    if log != [] {
      var front, e := log[..|log| - 1], log[|log| - 1];
      assert Replay(front).Some?;
      Conservation(front);
      var items := Replay(front).value;
      if e.Take? {
        TakeConserves(e, PushedValues(front), PoppedValues(front), items);
      } else {
        assert PushedValues(front) + [] == PushedValues(front) && PoppedValues(front) + [] == PoppedValues(front);
      }
    }
  }

  lemma TakeConserves(e: Event, pushed: seq<int>, popped: seq<int>, items: seq<int>)
    requires e.Take? && e.res == Result(e.op, items)
    requires multiset(pushed) == multiset(popped) + multiset(items)
    ensures multiset(pushed + if e.op.Push? then [e.op.v] else [])
            == multiset(popped + if e.res.Popped? && e.res.value.Some? then [e.res.value.value] else [])
               + multiset(Items(e.op, items))
  {
    if e.op.Pop? && items != [] {
      assert items == [items[0]] + items[1..];
      assert pushed + [] == pushed;
    } else if !e.op.Push? {
      assert pushed + [] == pushed && popped + [] == popped;
    } else {
      assert popped + [] == popped;
    }
  }

  /** `j` is the last event of thread `t` in `log`, apart from retries. */
  ghost predicate LastOf(log: seq<Event>, t: Tid, j: nat) {
    && j < |log| && log[j].t == t && !log[j].Retry?
    && forall k :: j < k < |log| && log[k].t == t ==> log[k].Retry?
  }

  /** An accepted log keeps real-time order: a returning operation was called by its thread and
      taken strictly between the call and the return, with the result it returns; and the thread
      did nothing else in between. */
  lemma {:induction false} ReturnFollowsItsTake(log: seq<Event>, i: nat)
    requires Accepted(log) && i < |log| && log[i].Return?
    ensures exists c, j :: 0 <= c < j < i && LastOf(log[..i], log[i].t, j) && LastOf(log[..j], log[i].t, c)
                           && log[c].Call? && log[j] == Take(log[i].t, log[c].op, log[i].res)
  {
    var t := log[i].t;
    PrefixAccepted(log, i + 1, t);
    assert log[..i + 1][..i] == log[..i];
    assert Phase(log[..i + 1], t).Some?;
    var j := LastEvent(log[..i], t);
    assert log[..i][..j] == log[..j];
    var c := LastEvent(log[..j], t);
    assert log[..j][c] == log[c] && log[..i][j] == log[j];
  }

  lemma {:induction false} PrefixAccepted(log: seq<Event>, n: nat, t: Tid)
    requires n <= |log| && Phase(log, t).Some?
    ensures Phase(log[..n], t).Some?
    decreases |log|
  {
    if n == |log| {
      assert log[..n] == log;
    } else {
      var front := log[..|log| - 1];
      assert front[..n] == log[..n];
      PrefixAccepted(front, n, t);
    }
  }

  /** A thread inside an operation got there by its last event. */
  lemma {:induction false} LastEvent(log: seq<Event>, t: Tid) returns (j: nat)
    requires Phase(log, t).Some? && Phase(log, t) != Some(Resting)
    ensures LastOf(log, t, j)
    ensures Phase(log, t).value.Pending? ==> log[j] == Call(t, Phase(log, t).value.op)
    ensures Phase(log, t).value.Done? ==>
              && log[j].Take? && log[j].res == Phase(log, t).value.res
              && Phase(log[..j], t) == Some(Pending(log[j].op))
  {
    var n := |log| - 1;
    var front, e := log[..n], log[n];
    if !e.Retry? && e.t == t {
      j := n;
    } else {
      j := LastEvent(front, t);
      assert front[..j] == log[..j] && front[j] == log[j];
      forall k | j < k < |log| && log[k].t == t
        ensures log[k].Retry?
      {
        if k < n { assert front[k] == log[k]; }
      }
    }
  }

  /** Appending one event. */
  lemma AppendOne(log: seq<Event>, e: Event)
    ensures Replay(log + [e]) ==
            if e.Take? then
              if Replay(log).Some? && e.res == Result(e.op, Replay(log).value)
              then Some(Items(e.op, Replay(log).value)) else None
            else Replay(log)
    ensures forall t :: t != e.t ==> Phase(log + [e], t) == Phase(log, t)
    ensures e.Call? && Phase(log, e.t) == Some(Resting) ==> Phase(log + [e], e.t) == Some(Pending(e.op))
    ensures e.Take? && Phase(log, e.t) == Some(Pending(e.op)) ==> Phase(log + [e], e.t) == Some(Done(e.res))
    ensures e.Return? && Phase(log, e.t) == Some(Done(e.res)) ==> Phase(log + [e], e.t) == Some(Resting)
    ensures e.Retry? ==> Phase(log + [e], e.t) == Phase(log, e.t)
  {
    assert (log + [e])[..|log|] == log;
  }
}
