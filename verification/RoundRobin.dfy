/** The order in which a round-robin scheduler runs coroutines, in closed form.

    Coroutine `i` yields `y[i]` times and then returns, so it is dispatched `y[i] + 1` times. Round
    `r` runs, in ascending order, the coroutines that have not returned in an earlier round: those
    with `y[i] >= r`.
 */
module RoundRobin {
  /** Round `r` up to, but not including, coroutine `p`. */
  function Part(y: seq<nat>, r: nat, p: nat): seq<nat>
    requires p <= |y|
  {
    if p == 0 then []
    else Part(y, r, p - 1) + if y[p - 1] >= r then [p - 1] else []
  }

  /** The first `r` rounds. */
  function Rounds(y: seq<nat>, r: nat): seq<nat> {
    if r == 0 then [] else Rounds(y, r - 1) + Part(y, r - 1, |y|)
  }

  function Max(y: seq<nat>): (m: nat)
    ensures forall i :: 0 <= i < |y| ==> y[i] <= m
  {
    if y == [] then 0
    else
      var m := Max(y[..|y| - 1]);
      if y[|y| - 1] > m then y[|y| - 1] else m
  }

  /** All dispatches of a complete run. */
  function Trace(y: seq<nat>): seq<nat> {
    Rounds(y, Max(y) + 1)
  }

  lemma {:induction false} PartSkip(y: seq<nat>, r: nat, p: nat, q: nat)
    requires p <= q <= |y| && forall k :: p <= k < q ==> y[k] < r
    ensures Part(y, r, q) == Part(y, r, p)
    decreases q
  {
    if p < q {
      PartSkip(y, r, p, q - 1);
    }
  }

  /** Rounds after everyone has returned are empty. */
  lemma {:induction false} RoundsStop(y: seq<nat>, r: nat, s: nat)
    requires r <= s && forall k :: 0 <= k < |y| ==> y[k] < r
    ensures Rounds(y, s) == Rounds(y, r)
    decreases s
  {
    if r < s {
      RoundsStop(y, r, s - 1);
      PartSkip(y, s - 1, 0, |y|);
    }
  }

  lemma {:induction false} TraceIsRounds(y: seq<nat>, r: nat)
    requires forall k :: 0 <= k < |y| ==> y[k] < r
    ensures Rounds(y, r) == Trace(y)
  {
    if r <= Max(y) + 1 {
      RoundsStop(y, r, Max(y) + 1);
    } else {
      RoundsStop(y, Max(y) + 1, r);
    }
  }

  // ---- What the closed form means ----

  function Count(s: seq<nat>, i: nat): nat {
    if s == [] then 0 else Count(s[..|s| - 1], i) + if s[|s| - 1] == i then 1 else 0
  }

  lemma {:induction false} CountAppend(s: seq<nat>, t: seq<nat>, i: nat)
    ensures Count(s + t, i) == Count(s, i) + Count(t, i)
  {
    if t == [] {
      assert s + t == s;
    } else {
      assert (s + t)[..|s + t| - 1] == s + t[..|t| - 1];
      CountAppend(s, t[..|t| - 1], i);
    }
  }

  /** How often coroutine `i` has been dispatched after `r` rounds and part `p` of the next. */
  function Dispatched(y: seq<nat>, r: nat, p: nat, i: nat): nat
    requires i < |y|
  {
    (if r <= y[i] then r else y[i] + 1) + if i < p && y[i] >= r then 1 else 0
  }

  lemma {:induction false} CountPart(y: seq<nat>, r: nat, p: nat, i: nat)
    requires p <= |y| && i < |y|
    ensures Count(Part(y, r, p), i) == if i < p && y[i] >= r then 1 else 0
  {
    if p == 0 {
      CountEmpty(i);
    } else if y[p - 1] >= r {
      CountPart(y, r, p - 1, i);
      CountAppend(Part(y, r, p - 1), [p - 1], i);
      CountOne(p - 1, i);
    } else {
      CountPart(y, r, p - 1, i);
      assert Part(y, r, p) == Part(y, r, p - 1);
    }
  }

  lemma {:induction false} CountOne(j: nat, i: nat)
    ensures Count([j], i) == if j == i then 1 else 0
  {
  }

  lemma {:induction false} CountWhole(y: seq<nat>, r: nat, i: nat)
    requires i < |y|
    ensures Count(Rounds(y, r), i) == Dispatched(y, r, 0, i)
  {
    hide Part, Count;
    if r == 0 {
      CountEmpty(i);
    } else {
      CountWhole(y, r - 1, i);
      CountPart(y, r - 1, |y|, i);
      CountAppend(Rounds(y, r - 1), Part(y, r - 1, |y|), i);
    }
  }

  lemma {:induction false} CountEmpty(i: nat)
    ensures Count([], i) == 0
  {
  }

  lemma {:induction false} CountRounds(y: seq<nat>, r: nat, p: nat, i: nat)
    requires p <= |y| && i < |y|
    ensures Count(Rounds(y, r) + Part(y, r, p), i) == Dispatched(y, r, p, i)
  {
    hide Part, Count, Rounds;
    CountAppend(Rounds(y, r), Part(y, r, p), i);
    CountPart(y, r, p, i);
    CountWhole(y, r, i);
  }

  /** Each coroutine runs exactly as often as it asks for: `y[i]` yields and one return. */
  lemma {:induction false} EachRunsToItsEnd(y: seq<nat>, i: nat)
    requires i < |y|
    ensures Count(Trace(y), i) == y[i] + 1
  {
    CountRounds(y, Max(y) + 1, 0, i);
    assert Rounds(y, Max(y) + 1) + Part(y, Max(y) + 1, 0) == Trace(y);
  }

  function Total(y: seq<nat>): nat {
    if y == [] then 0 else Total(y[..|y| - 1]) + y[|y| - 1] + 1
  }

  /** The sum of what is left to do after `r` rounds. */
  function Left(y: seq<nat>, r: nat): nat {
    if y == [] then 0
    else Left(y[..|y| - 1], r) + if y[|y| - 1] >= r then y[|y| - 1] + 1 - r else 0
  }

  lemma {:induction false} LeftRound(y: seq<nat>, r: nat, p: nat)
    requires p <= |y|
    ensures Left(y[..p], r) == Left(y[..p], r + 1) + |Part(y, r, p)|
    decreases p
  {
    if p > 0 {
      LeftRound(y, r, p - 1);
      assert y[..p][..p - 1] == y[..p - 1];
    }
  }

  lemma {:induction false} LeftRounds(y: seq<nat>, r: nat)
    ensures Left(y, 0) == Left(y, r) + |Rounds(y, r)|
  {
    if r > 0 {
      LeftRounds(y, r - 1);
      LeftRound(y, r - 1, |y|);
      assert y[..|y|] == y;
    }
  }

  lemma {:induction false} LeftAtEnds(y: seq<nat>, r: nat)
    requires forall k :: 0 <= k < |y| ==> y[k] < r
    ensures Left(y, r) == 0 && Left(y, 0) == Total(y)
  {
    if y != [] {
      LeftAtEnds(y[..|y| - 1], r);
    }
  }

  /** A complete run has the sum of `y[i] + 1` dispatches. */
  lemma {:induction false} TraceLength(y: seq<nat>)
    ensures |Trace(y)| == Total(y)
  {
    LeftRounds(y, Max(y) + 1);
    LeftAtEnds(y, Max(y) + 1);
  }

  /** Every prefix of a run is some rounds and a part of the next. */
  lemma {:induction false} PrefixOfPart(y: seq<nat>, r: nat, p: nat, k: nat) returns (q: nat)
    requires p <= |y| && k <= |Part(y, r, p)|
    ensures q <= p && Part(y, r, p)[..k] == Part(y, r, q)
    decreases p
  {
    if k == |Part(y, r, p)| {
      q := p;
      assert Part(y, r, p)[..k] == Part(y, r, p);
    } else {
      q := PrefixOfPart(y, r, p - 1, k);
    }
  }

  lemma {:induction false} PrefixOfRounds(y: seq<nat>, r: nat, k: nat) returns (s: nat, q: nat)
    requires k <= |Rounds(y, r)|
    ensures q <= |y| && Rounds(y, r)[..k] == Rounds(y, s) + Part(y, s, q)
    decreases r
  {
    if r == 0 {
      s, q := 0, 0;
    } else if k <= |Rounds(y, r - 1)| {
      s, q := PrefixOfRounds(y, r - 1, k);
      assert Rounds(y, r)[..k] == Rounds(y, r - 1)[..k];
    } else {
      s := r - 1;
      q := PrefixOfPart(y, s, |y|, k - |Rounds(y, s)|);
      assert Rounds(y, r)[..k] == Rounds(y, s) + Part(y, s, |y|)[..k - |Rounds(y, s)|];
    }
  }

  /** No starvation: at every moment, a coroutine that has not returned is at most one dispatch
      behind any other. */
  lemma {:induction false} Fair(y: seq<nat>, k: nat, i: nat, j: nat)
    requires k <= |Trace(y)| && i < |y| && j < |y|
    requires Count(Trace(y)[..k], i) <= y[i]
    ensures Count(Trace(y)[..k], j) <= Count(Trace(y)[..k], i) + 1
  {
    var s, q := PrefixOfRounds(y, Max(y) + 1, k);
    CountRounds(y, s, q, i);
    CountRounds(y, s, q, j);
  }

  // ---- The cyclic search ----

  /** The index the search looks at in step `k`. */
  function Slot(k: nat, n: nat): (i: nat)
    requires 0 < n
    ensures i < n
  {
    k % n
  }

  lemma {:induction false} Wrap(k: nat, n: nat)
    requires 0 < n && k < 2 * n
    ensures Slot(k, n) == if k < n then k else k - n
  {
  }

  /** What coroutine `i` still has to do: negative once it has returned. */
  function Remaining(y: seq<nat>, r: nat, p: nat, i: nat): int
    requires i < |y|
  {
    y[i] - Dispatched(y, r, p, i)
  }

  /** Everyone's remaining work, but for one dispatch of `c`. */
  ghost predicate Spent(y: seq<nat>, r: nat, p: nat, s: nat, q: nat, c: nat) {
    forall i {:trigger Remaining(y, s, q, i)} {:trigger Remaining(y, r, p, i)} :: 0 <= i < |y| ==>
      Remaining(y, s, q, i) == Remaining(y, r, p, i) - if i == c then 1 else 0
  }

  lemma {:induction false} SameRound(y: seq<nat>, r: nat, p: nat, c: nat)
    requires p <= c < |y| && Remaining(y, r, p, c) >= 0
    requires forall k :: p <= k < c ==> Remaining(y, r, p, k) < 0
    ensures Part(y, r, c + 1) == Part(y, r, p) + [c] && Spent(y, r, p, r, c + 1, c) && r <= y[c]
  {
    forall k | p <= k < c ensures y[k] < r { assert Remaining(y, r, p, k) < 0; }
    PartSkip(y, r, p, c);
  }

  lemma {:induction false} NextRound(y: seq<nat>, r: nat, p: nat, c: nat)
    requires c < p <= |y| && Remaining(y, r, p, c) >= 0
    requires forall k :: p <= k < |y| ==> Remaining(y, r, p, k) < 0
    requires forall k :: 0 <= k < c ==> Remaining(y, r, p, k) < 0
    ensures Rounds(y, r + 1) == Rounds(y, r) + Part(y, r, p)
    ensures Part(y, r + 1, c + 1) == [c] && Spent(y, r, p, r + 1, c + 1, c) && r + 1 <= y[c]
  {
    NextRoundSpent(y, r, p, c);
    forall k | p <= k < |y| ensures y[k] < r { assert Remaining(y, r, p, k) < 0; }
    forall k | 0 <= k < c ensures y[k] < r + 1 { assert Remaining(y, r, p, k) < 0; }
    NextRoundParts(y, r, p, c);
  }

  lemma {:induction false} NextRoundParts(y: seq<nat>, r: nat, p: nat, c: nat)
    requires c < p <= |y| && y[c] >= r + 1
    requires forall k :: p <= k < |y| ==> y[k] < r
    requires forall k :: 0 <= k < c ==> y[k] < r + 1
    ensures Rounds(y, r + 1) == Rounds(y, r) + Part(y, r, p)
    ensures Part(y, r + 1, c + 1) == [c]
  {
    PartSkip(y, r, p, |y|);
    PartSkip(y, r + 1, 0, c);
  }

  lemma {:induction false} NextRoundSpent(y: seq<nat>, r: nat, p: nat, c: nat)
    requires c < p <= |y| && Remaining(y, r, p, c) >= 0
    requires forall k :: p <= k < |y| ==> Remaining(y, r, p, k) < 0
    requires forall k :: 0 <= k < c ==> Remaining(y, r, p, k) < 0
    ensures Spent(y, r, p, r + 1, c + 1, c) && r + 1 <= y[c]
  {
  }

  /** Searching cyclically from the coroutine after `current` for the first that has not returned
      continues the closed form by one dispatch, in this round or the next. */
  lemma {:induction false} SearchContinues(y: seq<nat>, r: nat, current: int, cr: nat, c: nat) returns (s: nat)
    requires -1 <= current < |y| && current < cr < |y| + current + 1 && c == Slot(cr, |y|)
    requires forall k :: current < k < cr ==> Remaining(y, r, current + 1, Slot(k, |y|)) < 0
    requires Remaining(y, r, current + 1, c) >= 0
    ensures Rounds(y, s) + Part(y, s, c + 1) == Rounds(y, r) + Part(y, r, current + 1) + [c]
    ensures Spent(y, r, current + 1, s, c + 1, c)
    ensures s <= y[c] && (s == r + 1 || (s == r && c > current))
  {
    hide Part, Rounds, Remaining, Spent, Slot;
    var n, p := |y|, current + 1;
    Wrap(cr, n);
    if cr < n {
      s := r;
      forall k | p <= k < cr ensures Remaining(y, r, p, k) < 0 { Wrap(k, n); }
      SameRound(y, r, p, c);
    } else {
      s := r + 1;
      forall k | p <= k < n ensures Remaining(y, r, p, k) < 0 { Wrap(k, n); }
      forall k | 0 <= k < c ensures Remaining(y, r, p, k) < 0 {
        Wrap(k + n, n);
        assert Remaining(y, r, p, Slot(k + n, n)) < 0;
      }
      NextRound(y, r, p, c);
    }
  }

  /** A coroutine with nothing left to do in round `r` has returned after `r` rounds. */
  lemma {:induction false} AllReturned(y: seq<nat>, r: nat, p: nat)
    requires p <= |y| && forall i :: 0 <= i < |y| ==> Remaining(y, r, p, i) < 0
    ensures Rounds(y, r) + Part(y, r, p) == Trace(y)
    ensures forall i :: 0 <= i < |y| ==> Remaining(y, r, p, i) == -1
  {
    forall k | 0 <= k < |y| ensures y[k] < r + 1 && (p <= k ==> y[k] < r) {
      assert Remaining(y, r, p, k) < 0;
    }
    PartSkip(y, r, p, |y|);
    assert Rounds(y, r + 1) == Rounds(y, r) + Part(y, r, p);
    TraceIsRounds(y, r + 1);
  }

  // ---- The closed form, without its recursion ----

  /** Dispatch `d.1` in round `d.0` comes before dispatch `e.1` in round `e.0`. */
  predicate Before(d: (nat, nat), e: (nat, nat)) {
    d.0 < e.0 || (d.0 == e.0 && d.1 < e.1)
  }

  /** `ds` lists in order, round by round and ascending within a round, every pair of a round and a
      coroutine that yields at least that often, below round `r` and below coroutine `p` in round `r`. */
  ghost predicate Lists(y: seq<nat>, r: nat, p: nat, ds: seq<(nat, nat)>) {
    && (forall i, j :: 0 <= i < j < |ds| ==> Before(ds[i], ds[j]))
    && forall d: (nat, nat) :: d in ds <==> d.1 < |y| && y[d.1] >= d.0 && Before(d, (r, p))
  }

  function Coroutines(ds: seq<(nat, nat)>): (s: seq<nat>)
    ensures |s| == |ds| && forall i :: 0 <= i < |s| ==> s[i] == ds[i].1
  {
    seq(|ds|, i requires 0 <= i < |ds| => ds[i].1)
  }

  lemma {:induction false} ListsOneMore(y: seq<nat>, r: nat, p: nat, ds: seq<(nat, nat)>)
    requires p < |y| && Lists(y, r, p, ds)
    ensures Lists(y, r, p + 1, if y[p] >= r then ds + [(r, p)] else ds)
  {
    forall d: (nat, nat) ensures Before(d, (r, p + 1)) <==> Before(d, (r, p)) || d == (r, p) {}
  }

  lemma {:induction false} ListsNextRound(y: seq<nat>, r: nat, ds: seq<(nat, nat)>)
    requires Lists(y, r, |y|, ds)
    ensures Lists(y, r + 1, 0, ds)
  {
    forall d: (nat, nat) | d.1 < |y| ensures Before(d, (r + 1, 0)) <==> Before(d, (r, |y|)) {}
  }

  lemma {:induction false} ListOf(y: seq<nat>, r: nat, p: nat) returns (ds: seq<(nat, nat)>)
    requires p <= |y|
    ensures Lists(y, r, p, ds) && Coroutines(ds) == Rounds(y, r) + Part(y, r, p)
    decreases r, p
  {
    hide Lists;
    if p > 0 {
      var front := ListOf(y, r, p - 1);
      ListsOneMore(y, r, p - 1, front);
      ds := if y[p - 1] >= r then front + [(r, p - 1)] else front;
    } else if r > 0 {
      ds := ListOf(y, r - 1, |y|);
      ListsNextRound(y, r - 1, ds);
    } else {
      ds := [];
      ListsNothing(y);
    }
  }

  lemma {:induction false} ListsNothing(y: seq<nat>)
    ensures Lists(y, 0, 0, [])
  {
  }

  /** The complete trace is the list, ordered by round and then by coroutine, of all pairs of a round and a
      coroutine that yields at least that often, with the rounds left out. */
  lemma {:induction false} TraceInOrder(y: seq<nat>) returns (ds: seq<(nat, nat)>)
    ensures |ds| == |Trace(y)| && forall i :: 0 <= i < |ds| ==> ds[i].1 == Trace(y)[i]
    ensures forall i, j :: 0 <= i < j < |ds| ==> ds[i].0 < ds[j].0 || (ds[i].0 == ds[j].0 && ds[i].1 < ds[j].1)
    ensures forall r: nat, i: nat :: (r, i) in ds <==> i < |y| && y[i] >= r
  {
    hide Rounds, Part;
    ds := ListOf(y, Max(y) + 1, 0);
    NoPart(y, Max(y) + 1);
    assert Coroutines(ds) == Trace(y);
  }

  lemma {:induction false} NoPart(y: seq<nat>, r: nat)
    ensures Part(y, r, 0) == []
  {
  }
}
