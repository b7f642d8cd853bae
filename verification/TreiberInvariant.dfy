/** Every step of every thread keeps the shape of the two chains and the agreement of the log. */
module TreiberInvariant {
  import opened Wrappers
  import opened AtomicStack
  import opened Sequences
  import opened TreiberStack

  // ---- Ownership ----

  /** A thread that keeps what it owns. */
  lemma KeepOwned(nodes: set<Addr>, pcs: map<Tid, Pc>, t: Tid, pc: Pc, chained: set<Addr>)
    requires OwnedOnce(nodes, pcs, chained) && t in pcs
    requires forall n :: Owns(pc, n) <==> Owns(pcs[t], n)
    ensures OwnedOnce(nodes, pcs[t := pc], chained)
  {
    var pcs' := pcs[t := pc];
    forall n | n in nodes && n !in chained
      ensures exists u :: u in pcs' && Owns(pcs'[u], n)
    {
      var u :| u in pcs && Owns(pcs[u], n);
      assert Owns(pcs'[u], n);
    }
  }

  /** A thread with empty hands takes hold of a node: a new one, or one unlinked from a chain. */
  lemma AcquireOwned(nodes: set<Addr>, pcs: map<Tid, Pc>, t: Tid, pc: Pc, n: Addr, chained: set<Addr>)
    requires OwnedOnce(nodes, pcs, chained) && t in pcs
    requires forall m :: !Owns(pcs[t], m)
    requires forall m :: Owns(pc, m) <==> m == n
    requires forall u :: u in pcs ==> !Owns(pcs[u], n)
    ensures OwnedOnce(nodes + {n}, pcs[t := pc], chained - {n})
  {
    var pcs' := pcs[t := pc];
    forall m | m in nodes + {n} && m !in chained - {n}
      ensures exists u :: u in pcs' && Owns(pcs'[u], m)
    {
      if m == n {
        assert Owns(pcs'[t], m);
      } else {
        var u :| u in pcs && Owns(pcs[u], m);
        assert Owns(pcs'[u], m);
      }
    }
  }

  /** A thread links its node into a chain. */
  lemma ReleaseOwned(nodes: set<Addr>, pcs: map<Tid, Pc>, t: Tid, pc: Pc, n: Addr, chained: set<Addr>)
    requires OwnedOnce(nodes, pcs, chained) && t in pcs
    requires Owns(pcs[t], n)
    requires forall m :: !Owns(pc, m)
    ensures OwnedOnce(nodes, pcs[t := pc], chained + {n})
  {
    var pcs' := pcs[t := pc];
    assert forall m :: Owns(pcs[t], m) ==> m == n;
    forall m | m in nodes && m !in chained + {n}
      ensures exists u :: u in pcs' && Owns(pcs'[u], m)
    {
      var u :| u in pcs && Owns(pcs[u], m);
      assert Owns(pcs'[u], m);
    }
  }

  // ---- Chains ----

  lemma LinkFront(heap: map<Addr, Node>, p: Ptr, c: seq<Addr>, n: Addr)
    requires Linked(heap, p, c) && n in heap && heap[n].next == p
    ensures Linked(heap, At(n), [n] + c)
  {
    var c' := [n] + c;
    forall i | 0 <= i < |c'|
      ensures c'[i] in heap && heap[c'[i]].next == Entry(c', i + 1)
    {
      assert Entry(c', i + 1) == Entry(c, i);
      if i > 0 { assert c'[i] == c[i - 1]; }
    }
  }

  lemma UnlinkFront(heap: map<Addr, Node>, c: seq<Addr>)
    requires c != [] && Linked(heap, At(c[0]), c)
    ensures Linked(heap, heap[c[0]].next, c[1..])
  {
    var c' := c[1..];
    assert Entry(c', 0) == Entry(c, 1);
    forall i | 0 <= i < |c'|
      ensures c'[i] in heap && heap[c'[i]].next == Entry(c', i + 1)
    {
      assert c'[i] == c[i + 1] && Entry(c', i + 1) == Entry(c, i + 2);
    }
  }

  lemma RelinkOther(heap: map<Addr, Node>, p: Ptr, c: seq<Addr>, n: Addr, node: Node)
    requires Linked(heap, p, c) && n !in c
    ensures Linked(heap[n := node], p, c)
  {
  }

  lemma InsertDistinct(c: seq<Addr>, d: seq<Addr>, n: Addr)
    requires NoDuplicates(c + d) && n !in c + d
    ensures NoDuplicates(c + ([n] + d))
    ensures Elements(c + ([n] + d)) == Elements(c + d) + {n}
  {
    var e, e' := c + d, c + ([n] + d);
    forall i, j | 0 <= i < j < |e'|
      ensures e'[i] != e'[j]
    {
      var i0, j0 := if i > |c| then i - 1 else i, if j > |c| then j - 1 else j;
      assert i != |c| ==> e'[i] == e[i0];
      assert j != |c| ==> e'[j] == e[j0];
    }
    forall m
      ensures m in e' <==> m in e || m == n
    {
      if m in e { var i :| 0 <= i < |e| && e[i] == m; assert e'[if i < |c| then i else i + 1] == m; }
      if m == n { assert e'[|c|] == n; }
      if m in e' { var i :| 0 <= i < |e'| && e'[i] == m; assert i != |c| ==> e[if i < |c| then i else i - 1] == m; }
    }
  }

  lemma PushDistinct(c: seq<Addr>, d: seq<Addr>, n: Addr)
    requires NoDuplicates(c + d) && n !in Elements(c + d)
    ensures NoDuplicates([n] + c + d) && Elements([n] + c + d) == Elements(c + d) + {n}
  {
    InsertDistinct([], c + d, n);
    assert [] + (c + d) == c + d && [] + ([n] + (c + d)) == [n] + c + d;
  }

  lemma PopDistinct(c: seq<Addr>, d: seq<Addr>)
    requires NoDuplicates(c + d) && c != []
    ensures NoDuplicates(c[1..] + d) && Elements(c[1..] + d) == Elements(c + d) - {c[0]}
  {
    var e, e' := c + d, c[1..] + d;
    assert e == [c[0]] + e';
    assert forall i :: 0 <= i < |e'| ==> e'[i] == e[i + 1];
    forall m
      ensures m in e' <==> m in e && m != c[0]
    {
      if m in e' { var i :| 0 <= i < |e'| && e'[i] == m; assert e[i + 1] == m && e[0] == c[0]; }
    }
  }

  // ---- Steps that touch shared memory ----

  lemma AllocLocals(heap: map<Addr, Node>, pcs: map<Tid, Pc>, t: Tid, n: Addr, v: int, c: seq<Addr>)
    requires AllLocalsAgree(heap, pcs, c) && NoFreshWatched(pcs)
    requires t in pcs && n !in heap
    ensures AllLocalsAgree(heap[n := Node(v, Null)], pcs[t := PushLoad(n)], c)
    ensures NoFreshWatched(pcs[t := PushLoad(n)])
    ensures forall u :: u in pcs ==> !Owns(pcs[u], n)
  {
    forall u | u in pcs
      ensures LocalsAgree(heap[n := Node(v, Null)], c, pcs[t := PushLoad(n)][u])
      ensures !Watches(pcs[u], n) && !Owns(pcs[u], n)
    {
      assert LocalsAgree(heap, c, pcs[u]);
    }
  }

  lemma AllocShape(s: State, t: Tid, n: Addr, pc: Pc, es: seq<Event>, v: int, c: seq<Addr>, d: seq<Addr>)
    requires Shape(s, c, d) && t in s.pcs && s.pcs[t].PushNew? && n !in s.heap && pc == PushLoad(n)
    ensures Shape(Move(s, t, pc, es).(heap := s.heap[n := Node(v, Null)]), c, d)
  {
    var heap' := s.heap[n := Node(v, Null)];
    AllocLocals(s.heap, s.pcs, t, n, v, c);
    AllocOwned(s, t, n, pc, c, d);
    RelinkOther(s.heap, s.head, c, n, Node(v, Null));
    RelinkOther(s.heap, s.trash, d, n, Node(v, Null));
    hide LocalsAgree, AllLocalsAgree, NoFreshWatched, OwnedOnce, NoDuplicates, Elements;
    assert s.heap.Keys + {n} == heap'.Keys;
  }

  lemma AllocOwned(s: State, t: Tid, n: Addr, pc: Pc, c: seq<Addr>, d: seq<Addr>)
    requires Shape(s, c, d) && t in s.pcs && s.pcs[t].PushNew? && n !in s.heap && pc == PushLoad(n)
    ensures OwnedOnce(s.heap.Keys + {n}, s.pcs[t := pc], Elements(c + d))
  {
    NewUnowned(s, n, c, d);
    hide Owns, Linked, LocalsAgree, AllLocalsAgree, NoFreshWatched, OwnedOnce, NoDuplicates, Elements;
    TakesHold(s.pcs[t], pc, n);
    AcquireOwned(s.heap.Keys, s.pcs, t, pc, n, Elements(c + d));
  }

  lemma NewUnowned(s: State, n: Addr, c: seq<Addr>, d: seq<Addr>)
    requires Shape(s, c, d) && n !in s.heap
    ensures forall u :: u in s.pcs ==> !Owns(s.pcs[u], n)
    ensures Elements(c + d) - {n} == Elements(c + d)
  {
    forall u | u in s.pcs ensures !Owns(s.pcs[u], n) {
      assert LocalsAgree(s.heap, c, s.pcs[u]);
    }
    assert forall m :: m in c + d ==> m in c || m in d;
  }

  lemma RelinkLocals(heap: map<Addr, Node>, pcs: map<Tid, Pc>, t: Tid, pc: Pc, node: Node, c: seq<Addr>)
    requires AllLocalsAgree(heap, pcs, c) && NoFreshWatched(pcs) && t in pcs
    requires pc.PushCas? || pc.TrashCas?
    requires if pc.PushCas? then pcs[t].PushLink? else pcs[t].TrashLink? && pcs[t].v == pc.v
    requires pcs[t].node == pc.node && pc.node in heap && node == heap[pc.node].(next := pc.seen)
    requires forall u :: u in pcs && Owns(pcs[u], pc.node) ==> u == t
    requires pc.node !in c
    ensures AllLocalsAgree(heap[pc.node := node], pcs[t := pc], c) && NoFreshWatched(pcs[t := pc])
  {
    forall u | u in pcs
      ensures LocalsAgree(heap[pc.node := node], c, pcs[t := pc][u])
    {
      assert LocalsAgree(heap, c, pcs[u]);
    }
    assert forall m :: HoldsFresh(pc, m) ==> HoldsFresh(pcs[t], m);
  }

  /** Writing the `next` of a node that one owns disturbs neither chain and no other thread. */
  lemma RelinkShape(s: State, t: Tid, pc: Pc, es: seq<Event>, c: seq<Addr>, d: seq<Addr>)
    requires Shape(s, c, d) && t in s.pcs
    requires || (s.pcs[t].PushLink? && pc == PushCas(s.pcs[t].node, s.pcs[t].seen))
             || (s.pcs[t].TrashLink? && pc == TrashCas(s.pcs[t].node, s.pcs[t].v, s.pcs[t].seen))
    requires pc.node in s.heap
    ensures Shape(Move(s, t, pc, es).(heap := s.heap[pc.node := s.heap[pc.node].(next := pc.seen)]), c, d)
  {
    var n := pc.node;
    var node := s.heap[n].(next := pc.seen);
    assert Owns(s.pcs[t], n);
    assert n !in c && n !in d by {
      assert n !in Elements(c + d);
      assert forall m :: m in c || m in d ==> m in c + d;
    }
    assert OwnedOnce(s.heap[n := node].Keys, s.pcs[t := pc], Elements(c + d)) by {
      KeepOwned(s.heap.Keys, s.pcs, t, pc, Elements(c + d));
      assert s.heap[n := node].Keys == s.heap.Keys;
    }
    RelinkOther(s.heap, s.head, c, n, node);
    RelinkOther(s.heap, s.trash, d, n, node);
    RelinkLocals(s.heap, s.pcs, t, pc, node, c);
  }

  lemma PublishedLocals(heap: map<Addr, Node>, pcs: map<Tid, Pc>, t: Tid, pc: Pc, n: Addr, c: seq<Addr>)
    requires AllLocalsAgree(heap, pcs, c) && NoFreshWatched(pcs)
    requires t in pcs && HoldsFresh(pcs[t], n) && pc == PushRet
    ensures AllLocalsAgree(heap, pcs[t := pc], [n] + c) && NoFreshWatched(pcs[t := pc])
  {
    var pcs' := pcs[t := pc];
    forall u | u in pcs'
      ensures LocalsAgree(heap, [n] + c, pcs'[u])
    {
      assert LocalsAgree(heap, c, pcs[u]);
      if u != t && pcs[u].PopCas? {
        assert Watches(pcs[u], pcs[u].cur);
      }
    }
  }

  lemma UnlinkedLocals(heap: map<Addr, Node>, pcs: map<Tid, Pc>, t: Tid, pc: Pc, c: seq<Addr>)
    requires AllLocalsAgree(heap, pcs, c) && NoFreshWatched(pcs) && c != []
    requires t in pcs && pc == PopMove(c[0]) && c[0] in heap
    ensures AllLocalsAgree(heap, pcs[t := pc], c[1..]) && NoFreshWatched(pcs[t := pc])
  {
    var pcs' := pcs[t := pc];
    forall u | u in pcs'
      ensures LocalsAgree(heap, c[1..], pcs'[u])
    {
      assert LocalsAgree(heap, c, pcs[u]);
    }
  }

  lemma PushCasShape(s: State, t: Tid, es: seq<Event>, c: seq<Addr>, d: seq<Addr>)
    requires Shape(s, c, d) && t in s.pcs && s.pcs[t].PushCas? && s.head == s.pcs[t].seen
    ensures Shape(Move(s, t, PushRet, es).(head := At(s.pcs[t].node)), [s.pcs[t].node] + c, d)
  {
    var n := s.pcs[t].node;
    assert Owns(s.pcs[t], n) && LocalsAgree(s.heap, c, s.pcs[t]);
    LinkFront(s.heap, s.head, c, n);
    PushDistinct(c, d, n);
    ReleaseOwned(s.heap.Keys, s.pcs, t, PushRet, n, Elements(c + d));
    PublishedLocals(s.heap, s.pcs, t, PushRet, n, c);
  }

  /** When the CAS of a pop succeeds, the pointer it installs is the current `next` of the node it
      removes, however long ago it was read and whatever was rewritten since. */
  lemma PopInstallsCurrentNext(s: State, t: Tid, c: seq<Addr>, d: seq<Addr>)
    requires Shape(s, c, d) && t in s.pcs && s.pcs[t].PopCas? && s.head == At(s.pcs[t].cur)
    ensures c != [] && c[0] == s.pcs[t].cur && c[0] in s.heap && s.pcs[t].next == s.heap[c[0]].next
  {
    assert LocalsAgree(s.heap, c, s.pcs[t]);
    assert c[0] == s.pcs[t].cur;
  }

  lemma PopCasShape(s: State, t: Tid, es: seq<Event>, c: seq<Addr>, d: seq<Addr>)
    requires Shape(s, c, d) && t in s.pcs && s.pcs[t].PopCas? && s.head == At(s.pcs[t].cur)
    ensures c != []
    ensures Shape(Move(s, t, PopMove(s.pcs[t].cur), es).(head := s.pcs[t].next), c[1..], d)
  {
    PopInstallsCurrentNext(s, t, c, d);
    UnlinkFront(s.heap, c);
    PopDistinct(c, d);
    UnlinkedLocals(s.heap, s.pcs, t, PopMove(c[0]), c);
    PopOwned(s, t, c, d);
    hide LocalsAgree, AllLocalsAgree, NoFreshWatched, OwnedOnce, NoDuplicates, Elements;
  }

  lemma PopOwned(s: State, t: Tid, c: seq<Addr>, d: seq<Addr>)
    requires Shape(s, c, d) && t in s.pcs && s.pcs[t].PopCas? && c != []
    ensures OwnedOnce(s.heap.Keys, s.pcs[t := PopMove(c[0])], Elements(c[1..] + d))
  {
    hide Owns, Linked, LocalsAgree, AllLocalsAgree, NoFreshWatched, OwnedOnce, NoDuplicates, Elements;
    PopDistinct(c, d);
    FrontUnowned(s, c, d);
    TakesHold(s.pcs[t], PopMove(c[0]), c[0]);
    AcquireOwned(s.heap.Keys, s.pcs, t, PopMove(c[0]), c[0], Elements(c + d));
    assert s.heap.Keys + {c[0]} == s.heap.Keys by { FrontAllocated(s, c, d); }
  }

  /** A thread that is about to acquire node `n` holds nothing, and then holds just `n`. */
  lemma TakesHold(before: Pc, after: Pc, n: Addr)
    requires (before.PushNew? && after == PushLoad(n)) || (before.PopCas? && after == PopMove(n))
    ensures forall m :: !Owns(before, m) && (Owns(after, m) <==> m == n)
  {
  }

  lemma FrontAllocated(s: State, c: seq<Addr>, d: seq<Addr>)
    requires Shape(s, c, d) && c != []
    ensures c[0] in s.heap
  {
  }

  lemma FrontUnowned(s: State, c: seq<Addr>, d: seq<Addr>)
    requires Shape(s, c, d) && c != []
    ensures forall u :: u in s.pcs ==> !Owns(s.pcs[u], c[0])
  {
    assert c[0] == (c + d)[0] && c[0] in Elements(c + d);
  }

  lemma TrashedLocals(heap: map<Addr, Node>, pcs: map<Tid, Pc>, t: Tid, v: int, c: seq<Addr>)
    requires AllLocalsAgree(heap, pcs, c) && NoFreshWatched(pcs) && t in pcs
    ensures AllLocalsAgree(heap, pcs[t := PopRet(Some(v))], c) && NoFreshWatched(pcs[t := PopRet(Some(v))])
  {
    assert forall u :: u in pcs ==> LocalsAgree(heap, c, pcs[u]);
  }

  lemma TrashCasShape(s: State, t: Tid, es: seq<Event>, c: seq<Addr>, d: seq<Addr>)
    requires Shape(s, c, d) && t in s.pcs && s.pcs[t].TrashCas? && s.trash == s.pcs[t].seen
    ensures Shape(Move(s, t, PopRet(Some(s.pcs[t].v)), es).(trash := At(s.pcs[t].node)), c, [s.pcs[t].node] + d)
  {
    var n, pc := s.pcs[t].node, PopRet(Some(s.pcs[t].v));
    assert Owns(s.pcs[t], n) && LocalsAgree(s.heap, c, s.pcs[t]);
    LinkFront(s.heap, s.trash, d, n);
    assert NoDuplicates(c + ([n] + d)) && OwnedOnce(s.heap.Keys, s.pcs[t := pc], Elements(c + ([n] + d))) by {
      assert n !in Elements(c + d);
      InsertDistinct(c, d, n);
      ReleaseOwned(s.heap.Keys, s.pcs, t, pc, n, Elements(c + d));
    }
    TrashedLocals(s.heap, s.pcs, t, s.pcs[t].v, c);
  }

  /** A step that changes nothing but the thread's own locals, and keeps what it owns. */
  lemma LocalShape(s: State, t: Tid, pc: Pc, es: seq<Event>, c: seq<Addr>, d: seq<Addr>)
    requires Shape(s, c, d) && t in s.pcs
    requires forall n :: HoldsFresh(pc, n) <==> HoldsFresh(s.pcs[t], n)
    requires forall n :: HoldsPopped(pc, n) <==> HoldsPopped(s.pcs[t], n)
    requires forall n :: Watches(pc, n) ==> Watches(s.pcs[t], n) || s.head == At(n)
    requires LocalsAgree(s.heap, c, pc)
    ensures Shape(Move(s, t, pc, es), c, d)
  {
    var pcs' := s.pcs[t := pc];
    KeepOwned(s.heap.Keys, s.pcs, t, pc, Elements(c + d));
    forall u, v, n | u in pcs' && v in pcs' && Watches(pcs'[u], n)
      ensures !HoldsFresh(pcs'[v], n)
    {
      if s.head == At(n) {
        assert n == c[0] && n in Elements(c + d);
        assert Owns(s.pcs[v], n) ==> n !in Elements(c + d);
      }
    }
  }

  // ---- Any step ----

  /** How a step changes the head chain. */
  function NewChain(s: State, t: Tid, a: Action, c: seq<Addr>): seq<Addr>
    requires t in s.pcs
  {
    var pc := s.pcs[t];
    if pc.PushCas? && s.head == pc.seen && a.Go? then [pc.node] + c
    else if pc.PopCas? && s.head == At(pc.cur) && a.Go? && c != [] then c[1..]
    else c
  }

  function NewTrash(s: State, t: Tid, a: Action, d: seq<Addr>): seq<Addr>
    requires t in s.pcs
  {
    var pc := s.pcs[t];
    if pc.TrashCas? && s.trash == pc.seen && a.Go? then [pc.node] + d else d
  }

  lemma StepShape(s: State, t: Tid, a: Action, c: seq<Addr>, d: seq<Addr>)
    requires Shape(s, c, d) && Enabled(s, t, a)
    ensures Shape(Do(s, t, a), NewChain(s, t, a, c), NewTrash(s, t, a, d))
  {
    var pc := s.pcs[t];
    if pc.PushNew? || pc.PushLink? || pc.TrashLink? {
      WriteShape(s, t, a, c, d);
    } else if CasSucceeds(s, t, a) {
      CasShape(s, t, a, c, d);
    } else {
      OtherShape(s, t, a, c, d);
    }
  }

  predicate CasSucceeds(s: State, t: Tid, a: Action)
    requires t in s.pcs
  {
    var pc := s.pcs[t];
    && a.Go?
    && ((pc.PushCas? && s.head == pc.seen) || (pc.PopCas? && s.head == At(pc.cur))
        || (pc.TrashCas? && s.trash == pc.seen))
  }

  lemma WriteShape(s: State, t: Tid, a: Action, c: seq<Addr>, d: seq<Addr>)
    requires Shape(s, c, d) && Enabled(s, t, a)
    requires s.pcs[t].PushNew? || s.pcs[t].PushLink? || s.pcs[t].TrashLink?
    ensures Shape(Do(s, t, a), c, d)
  {
    var s' := Do(s, t, a);
    if s.pcs[t].PushNew? {
      AllocShape(s, t, a.node, s'.pcs[t], [], s.pcs[t].v, c, d);
    } else {
      RelinkShape(s, t, s'.pcs[t], [], c, d);
    }
  }

  lemma CasShape(s: State, t: Tid, a: Action, c: seq<Addr>, d: seq<Addr>)
    requires Shape(s, c, d) && Enabled(s, t, a) && CasSucceeds(s, t, a)
    ensures Shape(Do(s, t, a), NewChain(s, t, a, c), NewTrash(s, t, a, d))
  {
    match s.pcs[t]
    case PushCas(n, seen) => PushCasShape(s, t, [Take(t, Push(s.heap[n].value), Pushed)], c, d);
    case PopCas(cur, next) => PopCasShape(s, t, [Take(t, Pop, Popped(Some(s.heap[cur].value)))], c, d);
    case TrashCas(n, v, seen) => TrashCasShape(s, t, [], c, d);
  }

  lemma OtherShape(s: State, t: Tid, a: Action, c: seq<Addr>, d: seq<Addr>)
    requires Shape(s, c, d) && Enabled(s, t, a) && !CasSucceeds(s, t, a)
    requires !s.pcs[t].PushNew? && !s.pcs[t].PushLink? && !s.pcs[t].TrashLink?
    ensures Shape(Do(s, t, a), c, d)
  {
    var pc, s' := s.pcs[t], Do(s, t, a);
    var pc', es := s'.pcs[t], s'.log[|s.log|..];
    assert s' == Move(s, t, pc', es);
    OtherLocals(s, t, a, c, d);
    LocalShape(s, t, pc', es, c, d);
  }

  lemma OtherLocals(s: State, t: Tid, a: Action, c: seq<Addr>, d: seq<Addr>)
    requires Linked(s.heap, s.head, c) && Enabled(s, t, a) && LocalsAgree(s.heap, c, s.pcs[t])
    requires !CasSucceeds(s, t, a)
    requires !s.pcs[t].PushNew? && !s.pcs[t].PushLink? && !s.pcs[t].TrashLink?
    ensures var pc := Do(s, t, a).pcs[t];
            && LocalsAgree(s.heap, c, pc)
            && (forall n :: HoldsFresh(pc, n) <==> HoldsFresh(s.pcs[t], n))
            && (forall n :: HoldsPopped(pc, n) <==> HoldsPopped(s.pcs[t], n))
            && (forall n :: Watches(pc, n) ==> Watches(s.pcs[t], n) || s.head == At(n))
  {
    assert s.head.At? ==> s.head.a == c[0];
    var pc := s.pcs[t];
    if pc.PopLoad? || pc.PopTest? || pc.PopNext? || pc.PopCas? {
      assert forall n :: Watches(pc, n) ==> n in s.heap;
    } else if pc.PopMove? {
      assert Owns(pc, pc.node);
    } else {
      assert forall n :: !Watches(Do(s, t, a).pcs[t], n);
    }
  }
}
