/** The cooperative scheduler. A coroutine is abstracted to the number of times it will still yield;
    a context switch transfers control to it until it yields or returns. */
module Scheduler {
  import opened RoundRobin

  datatype CoroState = CORO_READY | CORO_RUNNING | CORO_DONE

  const MAX_COROUTINES: nat := 8

  class Scheduler {
    const state: array<CoroState>
    const left: array<int>           // yields still to come; -1 once the function has returned
    var coroCount: nat
    var current: int                 // index of the coroutine dispatched last, or -1
    var doneArmed: bool              // done_ctx can be switched to: it is used up by one return
    ghost var yieldCounts: seq<nat>       // how often each coroutine yields in all
    ghost var dispatches: seq<nat>

    ghost predicate Valid()
      reads this, state, left
    {
      && state.Length == left.Length == 8
      && coroCount == |yieldCounts| <= 8
      && -1 <= current < 8
    }

    /** Nothing has been dispatched yet. */
    ghost predicate Fresh()
      reads this, state, left
    {
      && Valid() && current == -1 && dispatches == []
      && forall i :: 0 <= i < coroCount ==> state[i] == CORO_READY && left[i] == yieldCounts[i]
    }

    constructor ()
      ensures Fresh() && coroCount == 0 && yieldCounts == [] && !doneArmed && fresh(state) && fresh(left)
    {
      state := new CoroState[MAX_COROUTINES](_ => CORO_READY);
      left := new int[MAX_COROUTINES](_ => 0);
      coroCount, current, doneArmed := 0, -1, false;
      yieldCounts, dispatches := [], [];
    }

    method DoneSpawn()
      modifies this`doneArmed
      ensures doneArmed
    {
      doneArmed := true;
    }

    /** The array of coroutines has a fixed size, which the source does not check. */
    method CoroSpawn(n: nat)
      requires Fresh() && coroCount < 8
      modifies this`coroCount, this`yieldCounts, state, left
      ensures Fresh() && yieldCounts == old(yieldCounts) + [n]
    {
      state[coroCount] := CORO_READY;
      left[coroCount] := n;
      coroCount := coroCount + 1;
      yieldCounts := yieldCounts + [n];
    }

    /** `swapcontext(&sched_ctx, &coros[current].ctx)`: returns to the scheduler when the coroutine
        yields, or, through done_ctx and finish_trampoline, when it returns. Switching to a coroutine
        that has returned, or returning into a done_ctx that is used up, is not defined. */
    method SwapToCurrent()
      requires Valid() && 0 <= current < coroCount && state[current] == CORO_RUNNING
      requires left[current] >= 0 && doneArmed
      modifies this`doneArmed, this`dispatches, state, left
      ensures Valid() && dispatches == old(dispatches) + [current]
      ensures left[current] == old(left[current]) - 1
      ensures forall i :: 0 <= i < MAX_COROUTINES && i != current ==> left[i] == old(left[i]) && state[i] == old(state[i])
      ensures state[current] == if left[current] >= 0 then CORO_RUNNING else CORO_DONE
      ensures doneArmed == (left[current] >= 0)
    {
      dispatches := dispatches + [current];
      left[current] := left[current] - 1;
      if left[current] < 0 {
        state[current] := CORO_DONE;
        doneArmed := false;
      }
    }

    ghost function Lefts(): seq<int>
      reads this, left
      requires coroCount <= left.Length
    {
      left[..coroCount]
    }

    ghost function States(): seq<CoroState>
      reads this, state
      requires coroCount <= state.Length
    {
      state[..coroCount]
    }

    /** The cyclic search for the next coroutine: it stops at the first one after `current` that is
        ready, which exists while fewer than all have returned. */
    method Search() returns (ghost found: nat)
      requires Valid() && current < coroCount && DoneCount(States()) < coroCount
      requires forall i :: 0 <= i < coroCount ==> state[i] != CORO_RUNNING
      modifies this`current
      ensures Valid() && 0 <= current < coroCount && state[current] == CORO_READY
      ensures old(current) < found < coroCount + old(current) + 1 && current == Slot(found, coroCount)
      ensures forall k :: old(current) < k < found ==> state[Slot(k, coroCount)] == CORO_DONE
    {
      hide DoneCount, Slot;
      var cr := current + 1;
      while cr < coroCount + current + 1
        invariant old(current) < cr <= coroCount + current + 1 && current == old(current)
        invariant forall k :: current < k < cr ==> state[Slot(k, coroCount)] == CORO_DONE
      {
        if state[Slot(cr, coroCount)] == CORO_READY {
          current := Slot(cr, coroCount);
          break;
        }
        cr := cr + 1;
      }
      SearchFinds(States(), old(current));
      found := cr;
    }

    /** One dispatch, from marking the coroutine as running to classifying how it came back. */
    method Resume() returns (done: bool)
      requires Valid() && 0 <= current < coroCount && left[current] >= 0 && doneArmed
      modifies this`doneArmed, this`dispatches, state, left
      ensures Valid() && doneArmed && dispatches == old(dispatches) + [current]
      ensures done <==> old(left[current]) == 0
      ensures Lefts() == old(Lefts())[current := old(left[current]) - 1]
      ensures States() == old(States())[current := if done then CORO_DONE else CORO_READY]
    {
      state[current] := CORO_RUNNING;
      SwapToCurrent();
      done := state[current] == CORO_DONE;
      if state[current] == CORO_DONE {
        DoneSpawn();
      } else {
        state[current] := CORO_READY;
      }
    }

    /** The complete run: the dispatches are the closed form, each coroutine has returned, and the
        context used for returning is ready again. */
    method Run()
      requires Fresh() && doneArmed
      modifies this`current, this`doneArmed, this`dispatches, state, left
      ensures Valid() && dispatches == Trace(yieldCounts) && doneArmed
      ensures forall i :: 0 <= i < coroCount ==> state[i] == CORO_DONE && left[i] == -1
    {
      hide Remaining, Part, Rounds, Trace, DoneCount, Stands, Slot;
      var completed := 0;
      ghost var r: nat := 0;
      DoneCountNone(States());
      RunBegins(yieldCounts, Lefts(), States());
      while completed < coroCount
        invariant Valid() && doneArmed && Stands(yieldCounts, r, current + 1, dispatches, Lefts(), States())
        invariant current < coroCount && forall i :: 0 <= i < coroCount ==> state[i] != CORO_RUNNING
        invariant completed == DoneCount(States()) <= coroCount
        decreases Max(yieldCounts) + 1 - r, coroCount - current
      {
        ghost var from, before, lefts := current, States(), Lefts();
        ghost var cr := Search();
        ghost var s := DispatchContinues(yieldCounts, r, from, cr, current, dispatches, lefts, before);
        var done := Resume();
        if done {
          completed := completed + 1;
        }
        DoneCountUpdate(before, current, if done then CORO_DONE else CORO_READY);
        r := s;
      }
      DoneCountFull(States());
      RunEnds(yieldCounts, r, current + 1, dispatches, Lefts(), States());
    }
  }

  /** The run has reached part `p` of the round after `r` rounds. */
  ghost predicate Stands(y: seq<nat>, r: nat, p: nat, log: seq<nat>, left: seq<int>, state: seq<CoroState>) {
    && p <= |y| == |left| == |state|
    && log == Rounds(y, r) + Part(y, r, p)
    && (forall i :: 0 <= i < |y| ==> left[i] == Remaining(y, r, p, i))
    && (forall i :: 0 <= i < |y| ==> state[i] == if left[i] < 0 then CORO_DONE else CORO_READY)
  }

  lemma {:induction false} RunBegins(y: seq<nat>, left: seq<int>, state: seq<CoroState>)
    requires |left| == |state| == |y|
    requires forall i :: 0 <= i < |y| ==> left[i] == y[i] && state[i] == CORO_READY
    ensures Stands(y, 0, 0, [], left, state)
  {
  }

  /** Dispatching the coroutine the search finds. */
  lemma {:induction false} DispatchContinues(y: seq<nat>, r: nat, current: int, cr: nat, c: nat,
                                             log: seq<nat>, left: seq<int>, state: seq<CoroState>)
    returns (s: nat)
    requires -1 <= current < |y| && Stands(y, r, current + 1, log, left, state)
    requires current < cr < |y| + current + 1 && c == Slot(cr, |y|) && state[c] == CORO_READY
    requires forall k :: current < k < cr ==> state[Slot(k, |y|)] == CORO_DONE
    ensures left[c] >= 0
    ensures Stands(y, s, c + 1, log + [c], left[c := left[c] - 1],
                   state[c := if left[c] == 0 then CORO_DONE else CORO_READY])
    ensures s <= y[c] && (s == r + 1 || (s == r && c > current))
  {
    hide Remaining, Part, Rounds, Slot;
    var p := current + 1;
    forall k | current < k < cr ensures Remaining(y, r, p, Slot(k, |y|)) < 0 {
      assert state[Slot(k, |y|)] == CORO_DONE;
    }
    s := SearchContinues(y, r, current, cr, c);
  }

  function DoneCount(s: seq<CoroState>): nat {
    if s == [] then 0 else DoneCount(s[..|s| - 1]) + if s[|s| - 1] == CORO_DONE then 1 else 0
  }

  lemma {:induction false} DoneCountFull(s: seq<CoroState>)
    ensures DoneCount(s) <= |s|
    ensures DoneCount(s) == |s| <==> forall i :: 0 <= i < |s| ==> s[i] == CORO_DONE
  {
    if s != [] {
      DoneCountFull(s[..|s| - 1]);
    }
  }

  lemma {:induction false} DoneCountNone(s: seq<CoroState>)
    requires forall i :: 0 <= i < |s| ==> s[i] != CORO_DONE
    ensures DoneCount(s) == 0
  {
    if s != [] {
      DoneCountNone(s[..|s| - 1]);
    }
  }

  lemma {:induction false} DoneCountUpdate(s: seq<CoroState>, i: nat, c: CoroState)
    requires i < |s| && s[i] != CORO_DONE
    ensures DoneCount(s[i := c]) == DoneCount(s) + if c == CORO_DONE then 1 else 0
  {
    var t := s[i := c];
    var n := |s| - 1;
    if i == n {
      assert t[..n] == s[..n];
    } else {
      DoneCountUpdate(s[..n], i, c);
      assert t[..n] == s[..n][i := c];
    }
  }

  /** As long as fewer are counted as done than there are, going once around finds one that is not. */
  lemma {:induction false} SearchFinds(s: seq<CoroState>, from: int)
    requires -1 <= from < |s| && DoneCount(s) < |s|
    ensures exists k :: from < k < |s| + from + 1 && s[Slot(k, |s|)] != CORO_DONE
  {
    hide Slot, DoneCount;
    DoneCountFull(s);
    var i :| 0 <= i < |s| && s[i] != CORO_DONE;
    var k := if i > from then i else i + |s|;
    Wrap(k, |s|);
    assert s[Slot(k, |s|)] != CORO_DONE;
  }

  lemma {:induction false} RunEnds(y: seq<nat>, r: nat, p: nat, log: seq<nat>, left: seq<int>, state: seq<CoroState>)
    requires Stands(y, r, p, log, left, state) && forall i :: 0 <= i < |y| ==> state[i] == CORO_DONE
    ensures log == Trace(y) && forall i :: 0 <= i < |y| ==> left[i] == -1
  {
    hide Remaining, Part, Rounds, Slot;
    forall i | 0 <= i < |y| ensures Remaining(y, r, p, i) < 0 {
      assert state[i] == CORO_DONE;
    }
    AllReturned(y, r, p);
  }
}
