/** The second loop of `pop`: popped nodes are put on the trash chain by a compare-exchange of their
    own, whose failures are bounded as those on `head` are. */
module TreiberRetirement {
  import opened AtomicStack
  import opened TreiberStack
  import opened TreiberLinearizability
  import opened TreiberTheorems

  /** In the step from `s` to `s'` thread `t` compared `trash` with another value than it holds. */
  predicate TrashFails(s: State, s': State, t: Tid) {
    && t in s.pcs && t in s'.pcs && s.pcs[t].TrashCas? && s'.pcs[t] != s.pcs[t]
    && s.trash != s.pcs[t].seen
  }

  /** In that step thread `t` put its node on the trash chain. */
  predicate TrashSucceeds(s: State, s': State, t: Tid) {
    t in s.pcs && t in s'.pcs && s.pcs[t].TrashCas? && s'.pcs[t].PopRet?
  }

  /** Thread `t` has read `trash` for a compare-exchange it is still going to make, and `trash` has
      changed since. */
  predicate Stale(s: State, t: Tid) {
    t in s.pcs && (s.pcs[t].TrashLink? || s.pcs[t].TrashCas?) && s.trash != s.pcs[t].seen
  }

  ghost function StaleThreads(s: State): set<Tid> {
    set t | t in s.pcs && Stale(s, t)
  }

  ghost predicate SomeFails(s: State, s': State) {
    exists t :: TrashFails(s, s', t)
  }

  ghost predicate SomeSucceeds(s: State, s': State) {
    exists t :: TrashSucceeds(s, s', t)
  }

  ghost predicate AnotherSucceeds(s: State, s': State, t: Tid) {
    exists u :: u != t && TrashSucceeds(s, s', u)
  }

  // ---- Counting over a run ----

  ghost function TrashRetriesOf(run: seq<State>, t: Tid): nat {
    if |run| < 2 then 0
    else TrashRetriesOf(run[..|run| - 1], t) + if TrashFails(run[|run| - 2], run[|run| - 1], t) then 1 else 0
  }

  ghost function TrashSuccessesOfOthers(run: seq<State>, t: Tid): nat {
    if |run| < 2 then 0
    else
      TrashSuccessesOfOthers(run[..|run| - 1], t)
      + if AnotherSucceeds(run[|run| - 2], run[|run| - 1], t) then 1 else 0
  }

  ghost function TrashRetries(run: seq<State>): nat {
    if |run| < 2 then 0
    else TrashRetries(run[..|run| - 1]) + if SomeFails(run[|run| - 2], run[|run| - 1]) then 1 else 0
  }

  ghost function TrashSuccesses(run: seq<State>): nat {
    if |run| < 2 then 0
    else TrashSuccesses(run[..|run| - 1]) + if SomeSucceeds(run[|run| - 2], run[|run| - 1]) then 1 else 0
  }

  /** Step `i` of the run has a property of the states before and after it. */
  predicate StepIs(run: seq<State>, i: nat, p: (State, State) -> bool) {
    i + 1 < |run| && p(run[i], run[i + 1])
  }

  ghost function Steps(run: seq<State>, p: (State, State) -> bool): set<nat> {
    set i | 0 <= i < |run| && StepIs(run, i, p)
  }

  lemma StepsGrow(run: seq<State>, p: (State, State) -> bool)
    ensures |run| < 2 ==> Steps(run, p) == {}
    ensures
      |run| > 1 ==>
        |Steps(run, p)| == |Steps(run[..|run| - 1], p)| + if p(run[|run| - 2], run[|run| - 1]) then 1 else 0
  {
    if |run| > 1 {
      var n, front := |run| - 2, run[..|run| - 1];
      forall i: nat ensures StepIs(run, i, p) <==> StepIs(front, i, p) || (i == n && p(run[n], run[n + 1])) {}
      assert Steps(run, p) == Steps(front, p) + if p(run[n], run[n + 1]) then {n} else {};
    }
  }

  /** The counts, as numbers of steps of the run. */
  lemma {:induction false} CountsOfSteps(run: seq<State>, t: Tid)
    ensures TrashRetriesOf(run, t) == |Steps(run, (s, s') => TrashFails(s, s', t))|
    decreases |run|
  {
    hide TrashFails, Steps;
    StepsGrow(run, (s, s') => TrashFails(s, s', t));
    if |run| > 1 {
      CountsOfSteps(run[..|run| - 1], t);
    }
  }

  lemma {:induction false} TotalsOfSteps(run: seq<State>, fails: (State, State) -> bool, wins: (State, State) -> bool)
    requires forall s, s' :: fails(s, s') <==> SomeFails(s, s')
    requires forall s, s' :: wins(s, s') <==> SomeSucceeds(s, s')
    ensures TrashRetries(run) == |Steps(run, fails)| && TrashSuccesses(run) == |Steps(run, wins)|
    decreases |run|
  {
    hide SomeFails, SomeSucceeds, Steps;
    StepsGrow(run, fails);
    StepsGrow(run, wins);
    if |run| > 1 {
      TotalsOfSteps(run[..|run| - 1], fails, wins);
    }
  }

  lemma {:induction false} OthersOfSteps(run: seq<State>, t: Tid, wins: (State, State) -> bool)
    requires forall s, s' :: wins(s, s') <==> AnotherSucceeds(s, s', t)
    ensures TrashSuccessesOfOthers(run, t) == |Steps(run, wins)|
    decreases |run|
  {
    hide AnotherSucceeds, Steps;
    StepsGrow(run, wins);
    if |run| > 1 {
      OthersOfSteps(run[..|run| - 1], t, wins);
    }
  }

  // ---- One step ----

  /** Only the thread that moves can fail or succeed. */
  lemma OnlyTheMover(s: State, t: Tid, a: Action, u: Tid)
    requires Enabled(s, t, a)
    ensures TrashFails(s, Do(s, t, a), u) || TrashSucceeds(s, Do(s, t, a), u) ==> u == t
  {
    StepEvents(s, t, a);
    hide Do;
  }

  lemma StepStale(s: State, t: Tid, a: Action, u: Tid)
    requires Enabled(s, t, a)
    ensures
      && var s' := Do(s, t, a);
      && (TrashFails(s, s', t) ==> Stale(s, t) && !Stale(s', t))
      && (Stale(s', t) ==> Stale(s, t))
      && (TrashSucceeds(s, s', t) ==> !Stale(s, t) && !Stale(s', t) && !TrashFails(s, s', t))
      && (!TrashSucceeds(s, s', t) ==> s'.trash == s.trash)
      && (u != t && s'.trash == s.trash ==> (Stale(s', u) <==> Stale(s, u)))
  {
  }

  lemma StepStaleThreads(s: State, t: Tid, a: Action)
    requires Enabled(s, t, a)
    ensures
      && var s' := Do(s, t, a);
      && |StaleThreads(s')| + (if TrashFails(s, s', t) then 1 else 0)
         <= |StaleThreads(s)| + (if TrashSucceeds(s, s', t) then |s.pcs.Keys| - 1 else 0)
  {
    var s' := Do(s, t, a);
    StepEvents(s, t, a);
    StepStale(s, t, a, t);
    forall u
      ensures u != t && s'.trash == s.trash ==> (Stale(s', u) <==> Stale(s, u))
    {
      StepStale(s, t, a, u);
    }
    hide Do, Stale, TrashFails, TrashSucceeds;
    if TrashSucceeds(s, s', t) {
      SubsetSize(StaleThreads(s'), s.pcs.Keys - {t});
    } else if TrashFails(s, s', t) {
      SubsetSize(StaleThreads(s'), StaleThreads(s) - {t});
    } else {
      SubsetSize(StaleThreads(s'), StaleThreads(s));
    }
  }

  /** The counts of one step, for one thread and for all. */
  lemma NextStale(s: State, s': State, u: Tid)
    requires Next(s, s')
    ensures
      && var fail, win := TrashFails(s, s', u), AnotherSucceeds(s, s', u);
      && (if fail then 1 else 0) + (if Stale(s', u) then 1 else 0)
         <= (if Stale(s, u) then 1 else 0) + if win then 1 else 0
    ensures
      && var fail, win := SomeFails(s, s'), SomeSucceeds(s, s');
      && (if fail then 1 else 0) + |StaleThreads(s')|
         <= |StaleThreads(s)| + if win then |s.pcs.Keys| - 1 else 0
  {
    var t, a :| Enabled(s, t, a) && s' == Do(s, t, a);
    StepStale(s, t, a, u);
    StepStale(s, t, a, t);
    StepStaleThreads(s, t, a);
    forall v { OnlyTheMover(s, t, a, v); }
    hide Do, Stale, TrashFails, TrashSucceeds, StaleThreads;
    assert TrashSucceeds(s, s', t) || s'.trash == s.trash;
  }

  // ---- Runs ----

  lemma PrefixIsRun(run: seq<State>, threads: set<Tid>)
    requires IsRun(run, threads) && |run| > 1
    ensures IsRun(run[..|run| - 1], threads) && Next(run[|run| - 2], run[|run| - 1])
  {
    hide Next;
    var n := |run| - 1;
    forall i | 0 <= i < n - 1 ensures Next(run[..n][i], run[..n][i + 1]) {
      assert Next(run[i], run[i + 1]);
    }
    assert Next(run[n - 1], run[n - 1 + 1]);
  }

  /** A thread fails to retire its node, other than spuriously, at most as often as other threads
      succeed. */
  lemma {:induction false} TrashFailuresNeedOthersSuccess(run: seq<State>, threads: set<Tid>, u: Tid)
    requires IsRun(run, threads)
    ensures
      TrashRetriesOf(run, u) + (if Stale(run[|run| - 1], u) then 1 else 0) <= TrashSuccessesOfOthers(run, u)
    decreases |run|
  {
    hide Next, TrashFails, SomeFails, SomeSucceeds, AnotherSucceeds;
    if |run| > 1 {
      hide Stale;
      PrefixIsRun(run, threads);
      TrashFailuresNeedOthersSuccess(run[..|run| - 1], threads, u);
      NextStale(run[|run| - 2], run[|run| - 1], u);
    }
  }

  /** T threads together fail on `trash` at most T - 1 times as often as they succeed. */
  lemma {:induction false} TrashLockFreedom(run: seq<State>, threads: set<Tid>)
    requires IsRun(run, threads)
    ensures TrashRetries(run) + |StaleThreads(run[|run| - 1])| <= (|threads| - 1) * TrashSuccesses(run)
    decreases |run|
  {
    hide Next, Inv, StaleThreads, SomeFails, SomeSucceeds, TrashRetries, TrashSuccesses;
    CountsGrow(run);
    if |run| > 1 {
      var front, s, s' := run[..|run| - 1], run[|run| - 2], run[|run| - 1];
      PrefixIsRun(run, threads);
      TrashLockFreedom(front, threads);
      NextStale(s, s', 0);
      RunInv(run, threads, |run| - 2);
      assert front[|front| - 1] == s;
      BoundGrows(|threads| - 1, TrashRetries(front), |StaleThreads(s)|, TrashSuccesses(front), SomeFails(s, s'),
                 |StaleThreads(s')|, SomeSucceeds(s, s'));
    } else {
      NoneStale(threads);
      NoneYet(|threads| - 1);
    }
  }

  lemma CountsGrow(run: seq<State>)
    ensures |run| < 2 ==> TrashRetries(run) == TrashSuccesses(run) == 0
    ensures
      |run| > 1 ==>
        && var front, s, s' := run[..|run| - 1], run[|run| - 2], run[|run| - 1];
        && TrashRetries(run) == TrashRetries(front) + (if SomeFails(s, s') then 1 else 0)
        && TrashSuccesses(run) == TrashSuccesses(front) + if SomeSucceeds(s, s') then 1 else 0
  {
    hide SomeFails, SomeSucceeds;
  }

  lemma NoneStale(threads: set<Tid>)
    ensures StaleThreads(Init(threads)) == {}
  {
  }

  lemma NoneYet(k: int)
    ensures k * 0 == 0
  {
  }

  lemma BoundGrows(k: int, fails: nat, stale: nat, wins: nat, fail: bool, stale': nat, win: bool)
    requires fails + stale <= k * wins
    requires (if fail then 1 else 0) + stale' <= stale + if win then k else 0
    ensures fails + (if fail then 1 else 0) + stale' <= k * (wins + if win then 1 else 0)
  {
    OneMoreWin(k, wins);
  }
}
