/** The Treiber stack as a transition system over its atomic accesses.

    Every load, store, compare-exchange and read or write of a node's `next` or `value` is one
    step; steps of any number of threads interleave freely. Nodes are never deallocated before
    the destructor, so an address stands for one node for ever.
 */
module TreiberStack {
  import opened Wrappers
  import opened AtomicStack
  import opened Sequences

  type Addr = nat

  datatype Ptr = Null | At(a: Addr)

  datatype Node = Node(value: int, next: Ptr)

  /** The next thing a thread does; the name of the line it is on, with its local variables. */
  datatype Pc =
    | Idle
    | PushNew(v: int)                                // allocate the node
    | PushLoad(node: Addr)                           // oldHead = head.load()
    | PushLink(node: Addr, seen: Ptr)                 // newHead->next = oldHead
    | PushCas(node: Addr, seen: Ptr)                  // compare_exchange_weak on head
    | PushRet
    | PopLoad                                        // oldHead = head.load()
    | PopTest(seen: Ptr)                              // if (oldHead == nullptr)
    | PopNext(cur: Addr)                             // newHead = oldHead->next
    | PopCas(cur: Addr, next: Ptr)                   // compare_exchange_weak on head
    | PopMove(node: Addr)                            // val = move(oldHead->value)
    | TrashLoad(node: Addr, v: int)                  // old_trash = trash.load()
    | TrashLink(node: Addr, v: int, seen: Ptr)        // oldHead->next = old_trash
    | TrashCas(node: Addr, v: int, seen: Ptr)         // compare_exchange_weak on trash
    | PopRet(res: Option<int>)
    | EmptyLoad                                      // head.load() == nullptr
    | EmptyRet(answer: bool)

  datatype State = State(
    heap: map<Addr, Node>,
    head: Ptr,
    trash: Ptr,
    pcs: map<Tid, Pc>,
    log: seq<Event>)

  /** How a thread moves: what an idle thread calls, where the allocator puts a node, and whether
      a weak compare-exchange that could succeed fails spuriously. */
  datatype Action = StartPush(v: int) | StartPop | StartEmpty | Alloc(node: Addr) | Go | Spurious

  function Init(threads: set<Tid>): State {
    State(map[], Null, Null, map t | t in threads :: Idle, [])
  }

  /** Whether thread `t` can take action `a`. An access through a pointer needs a node that
      exists; `Progress` shows that this never holds a thread up. */
  predicate Enabled(s: State, t: Tid, a: Action) {
    t in s.pcs &&
    match s.pcs[t]
    case Idle => a.StartPush? || a.StartPop? || a.StartEmpty?
    case PushNew(v) => a.Alloc? && a.node !in s.heap
    case PushLink(n, seen) => a.Go? && n in s.heap
    case PushCas(n, seen) => n in s.heap && (a.Go? || (a.Spurious? && s.head == seen))
    case PopNext(cur) => a.Go? && cur in s.heap
    case PopCas(cur, next) => cur in s.heap && (a.Go? || (a.Spurious? && s.head == At(cur)))
    case PopMove(n) => a.Go? && n in s.heap
    case TrashLink(n, v, seen) => a.Go? && n in s.heap
    case TrashCas(n, v, seen) => a.Go? || (a.Spurious? && s.trash == seen)
    case _ => a.Go?
  }

  /** Thread `t` moves on to `pc`, logging `es`. */
  function Move(s: State, t: Tid, pc: Pc, es: seq<Event>): State {
    s.(pcs := s.pcs[t := pc], log := s.log + es)
  }

  /** A read of `head` by a pop that finds null is where the pop of an empty stack takes place. */
  function NullRead(s: State, t: Tid): seq<Event> {
    if s.head == Null then [Take(t, Pop, Popped(None))] else []
  }

  function Do(s: State, t: Tid, a: Action): State
    requires Enabled(s, t, a)
  {
    match s.pcs[t]
    case Idle =>
      (match a
       case StartPush(v) => Move(s, t, PushNew(v), [Call(t, Push(v))])
       case StartPop => Move(s, t, PopLoad, [Call(t, Pop)])
       case _ => Move(s, t, EmptyLoad, [Call(t, Empty)]))
    case PushNew(v) => Move(s, t, PushLoad(a.node), []).(heap := s.heap[a.node := Node(v, Null)])
    case PushLoad(n) => Move(s, t, PushLink(n, s.head), [])
    case PushLink(n, seen) => Move(s, t, PushCas(n, seen), []).(heap := s.heap[n := s.heap[n].(next := seen)])
    case PushCas(n, seen) =>
      if s.head == seen && a.Go? then
        Move(s, t, PushRet, [Take(t, Push(s.heap[n].value), Pushed)]).(head := At(n))
      else
        Move(s, t, PushLink(n, s.head), if s.head != seen then [Retry(t)] else [])
    case PushRet => Move(s, t, Idle, [Return(t, Pushed)])
    case PopLoad => Move(s, t, PopTest(s.head), NullRead(s, t))
    case PopTest(seen) => Move(s, t, if seen == Null then PopRet(None) else PopNext(seen.a), [])
    case PopNext(cur) => Move(s, t, PopCas(cur, s.heap[cur].next), [])
    case PopCas(cur, next) =>
      if s.head == At(cur) && a.Go? then
        Move(s, t, PopMove(cur), [Take(t, Pop, Popped(Some(s.heap[cur].value)))]).(head := next)
      else
        Move(s, t, PopTest(s.head), (if s.head != At(cur) then [Retry(t)] else []) + NullRead(s, t))
    case PopMove(n) => Move(s, t, TrashLoad(n, s.heap[n].value), [])
    case TrashLoad(n, v) => Move(s, t, TrashLink(n, v, s.trash), [])
    case TrashLink(n, v, seen) => Move(s, t, TrashCas(n, v, seen), []).(heap := s.heap[n := s.heap[n].(next := seen)])
    case TrashCas(n, v, seen) =>
      if s.trash == seen && a.Go? then
        Move(s, t, PopRet(Some(v)), []).(trash := At(n))
      else
        Move(s, t, TrashLink(n, v, s.trash), [])
    case PopRet(res) => Move(s, t, Idle, [Return(t, Popped(res))])
    case EmptyLoad => Move(s, t, EmptyRet(s.head == Null), [Take(t, Empty, WasEmpty(s.head == Null))])
    case EmptyRet(b) => Move(s, t, Idle, [Return(t, WasEmpty(b))])
  }

  ghost predicate Next(s: State, s': State) {
    exists t, a :: Enabled(s, t, a) && s' == Do(s, t, a)
  }

  /** A run of the given threads: they start idle on an empty stack and take turns at will. */
  ghost predicate IsRun(run: seq<State>, threads: set<Tid>) {
    && |run| > 0 && run[0] == Init(threads)
    && forall i :: 0 <= i < |run| - 1 ==> Next(run[i], run[i + 1])
  }

  // ---- Chains ----

  function Entry(c: seq<Addr>, i: nat): Ptr {
    if i < |c| then At(c[i]) else Null
  }

  ghost predicate Linked(heap: map<Addr, Node>, p: Ptr, c: seq<Addr>) {
    && p == Entry(c, 0)
    && forall i :: 0 <= i < |c| ==> c[i] in heap && heap[c[i]].next == Entry(c, i + 1)
  }

  /** The nodes met by following `next` from `p`, at most `fuel` of them. */
  function Walk(heap: map<Addr, Node>, p: Ptr, fuel: nat): seq<Addr>
    decreases fuel
  {
    if fuel == 0 || p == Null || p.a !in heap then []
    else [p.a] + Walk(heap, heap[p.a].next, fuel - 1)
  }

  function HeadChain(s: State): seq<Addr> { Walk(s.heap, s.head, |s.heap|) }

  function TrashChain(s: State): seq<Addr> { Walk(s.heap, s.trash, |s.heap|) }

  function Values(heap: map<Addr, Node>, c: seq<Addr>): (vs: seq<int>)
    requires forall a :: a in c ==> a in heap
  {
    seq(|c|, i requires 0 <= i < |c| => heap[c[i]].value)
  }

  lemma {:induction false} WalkOfLinked(heap: map<Addr, Node>, p: Ptr, c: seq<Addr>, fuel: nat)
    requires Linked(heap, p, c) && |c| <= fuel
    ensures Walk(heap, p, fuel) == c
    decreases fuel
  {
    if c != [] {
      assert Entry(c[1..], 0) == Entry(c, 1);
      forall i | 0 <= i < |c[1..]|
        ensures c[1..][i] in heap && heap[c[1..][i]].next == Entry(c[1..], i + 1)
      {
        assert c[1..][i] == c[i + 1];
      }
      WalkOfLinked(heap, heap[c[0]].next, c[1..], fuel - 1);
    }
  }

  lemma {:induction false} DistinctFit(c: seq<Addr>, S: set<Addr>)
    requires NoDuplicates(c) && forall i :: 0 <= i < |c| ==> c[i] in S
    ensures |c| <= |S|
    decreases |c|
  {
    if c != [] {
      DistinctFit(c[1..], S - {c[0]});
    }
  }

  // ---- The invariant ----

  predicate HoldsFresh(pc: Pc, n: Addr) {
    (pc.PushLoad? || pc.PushLink? || pc.PushCas?) && pc.node == n
  }

  predicate HoldsPopped(pc: Pc, n: Addr) {
    (pc.PopMove? || pc.TrashLoad? || pc.TrashLink? || pc.TrashCas?) && pc.node == n
  }

  predicate Owns(pc: Pc, n: Addr) {
    HoldsFresh(pc, n) || HoldsPopped(pc, n)
  }

  /** Node `n` is one whose `next` the thread is going to read, or has read for its CAS. */
  predicate Watches(pc: Pc, n: Addr) {
    (pc.PopTest? && pc.seen == At(n)) || ((pc.PopNext? || pc.PopCas?) && pc.cur == n)
  }

  /** What a thread's local variables say about the heap; `c` is the head chain. */
  ghost predicate LocalsAgree(heap: map<Addr, Node>, c: seq<Addr>, pc: Pc) {
    && (forall n :: Owns(pc, n) || Watches(pc, n) ==> n in heap)
    && (pc.PushCas? || pc.TrashCas? ==> heap[pc.node].next == pc.seen)
    && (pc.TrashLoad? || pc.TrashLink? || pc.TrashCas? ==> heap[pc.node].value == pc.v)
    && (pc.PopCas? && pc.cur in c ==> heap[pc.cur].next == pc.next)
  }

  /** Each allocated node is on a chain or in the hands of exactly one thread, never both. */
  ghost predicate OwnedOnce(nodes: set<Addr>, pcs: map<Tid, Pc>, chained: set<Addr>) {
    && (forall t, n :: t in pcs && Owns(pcs[t], n) ==> n !in chained)
    && (forall t, u, n :: t in pcs && u in pcs && Owns(pcs[t], n) && Owns(pcs[u], n) ==> t == u)
    && (forall n :: n in nodes && n !in chained ==> exists t :: t in pcs && Owns(pcs[t], n))
  }

  /** Nobody watches a node that is not yet published. */
  ghost predicate NoFreshWatched(pcs: map<Tid, Pc>) {
    forall t, u, n :: t in pcs && u in pcs && Watches(pcs[t], n) ==> !HoldsFresh(pcs[u], n)
  }

  ghost predicate AllLocalsAgree(heap: map<Addr, Node>, pcs: map<Tid, Pc>, c: seq<Addr>) {
    forall t :: t in pcs ==> LocalsAgree(heap, c, pcs[t])
  }

  /** The head chain `c` and the trash chain `d` are acyclic and disjoint, every other node is in
      the hands of one thread, and every thread's locals are right about the heap. */
  ghost predicate Shape(s: State, c: seq<Addr>, d: seq<Addr>) {
    && Linked(s.heap, s.head, c) && Linked(s.heap, s.trash, d)
    && NoDuplicates(c + d)
    && OwnedOnce(s.heap.Keys, s.pcs, Elements(c + d))
    && NoFreshWatched(s.pcs)
    && AllLocalsAgree(s.heap, s.pcs, c)
  }

  /** Where a thread's operation stands: before its take, or after it with a known result. */
  function StatusOf(heap: map<Addr, Node>, pc: Pc): Status
    requires forall n :: Owns(pc, n) ==> n in heap
  {
    match pc
    case Idle => Resting
    case PushNew(v) => Pending(Push(v))
    case PushLoad(n) => assert Owns(pc, n); Pending(Push(heap[n].value))
    case PushLink(n, _) => assert Owns(pc, n); Pending(Push(heap[n].value))
    case PushCas(n, _) => assert Owns(pc, n); Pending(Push(heap[n].value))
    case PushRet => Done(Pushed)
    case PopLoad => Pending(Pop)
    case PopTest(seen) => if seen == Null then Done(Popped(None)) else Pending(Pop)
    case PopNext(_) => Pending(Pop)
    case PopCas(_, _) => Pending(Pop)
    case PopMove(n) => assert Owns(pc, n); Done(Popped(Some(heap[n].value)))
    case TrashLoad(_, v) => Done(Popped(Some(v)))
    case TrashLink(_, v, _) => Done(Popped(Some(v)))
    case TrashCas(_, v, _) => Done(Popped(Some(v)))
    case PopRet(res) => Done(Popped(res))
    case EmptyLoad => Pending(Empty)
    case EmptyRet(b) => Done(WasEmpty(b))
  }

  /** The log explains the state: its takes, replayed, give the values on the head chain, and its
      events put each thread where it is. */
  ghost predicate LogExplains(s: State, c: seq<Addr>)
    requires Linked(s.heap, s.head, c) && AllLocalsAgree(s.heap, s.pcs, c)
  {
    && Replay(s.log) == Some(Values(s.heap, c))
    && (forall t :: t in s.pcs ==> Phase(s.log, t) == Some(StatusOf(s.heap, s.pcs[t])))
    && (forall t :: t !in s.pcs ==> Phase(s.log, t) == Some(Resting))
  }

  ghost predicate Inv(s: State) {
    && Shape(s, HeadChain(s), TrashChain(s))
    && LogExplains(s, HeadChain(s))
  }

  lemma ShapeIsWalked(s: State, c: seq<Addr>, d: seq<Addr>)
    requires Shape(s, c, d)
    ensures HeadChain(s) == c && TrashChain(s) == d
  {
    assert forall i :: 0 <= i < |c| ==> (c + d)[i] == c[i];
    assert forall i :: 0 <= i < |d| ==> (c + d)[|c| + i] == d[i];
    DistinctFit(c, s.heap.Keys);
    DistinctFit(d, s.heap.Keys);
    WalkOfLinked(s.heap, s.head, c, |s.heap|);
    WalkOfLinked(s.heap, s.trash, d, |s.heap|);
  }
}
