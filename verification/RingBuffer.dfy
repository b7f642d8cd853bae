/** The bounded queue over a fixed buffer of slots that may hold no value. */
module RingBuffer {
  import opened Wrappers

  // ---- The specification: a bounded first-in first-out queue ----

  datatype Op<T> = Push(value: T) | Pop

  /** `Result<(), T>` of a push, or `Option<T>` of a pop. */
  datatype Reply<T> = Ok | Err(rejected: T) | Popped(result: Option<T>)

  /** What a queue of capacity `cap` that holds `q` replies to `op`, and what it holds then. */
  function Serve<T>(cap: nat, q: seq<T>, op: Op<T>): (Reply<T>, seq<T>) {
    match op
    case Push(v) => if |q| >= cap then (Err(v), q) else (Ok, q + [v])
    case Pop => if q == [] then (Popped(None), q) else (Popped(Some(q[0])), q[1..])
  }

  function ServeAll<T>(cap: nat, q: seq<T>, ops: seq<Op<T>>): (r: (seq<Reply<T>>, seq<T>))
    ensures |r.0| == |ops|
  {
    if ops == [] then ([], q)
    else
      var n := |ops| - 1;
      var before := ServeAll(cap, q, ops[..n]);
      var last := Serve(cap, before.1, ops[n]);
      (before.0 + [last.0], last.1)
  }

  /** What one operation made the queue take over, and what it gave back. */
  function TakenOver<T>(op: Op<T>, reply: Reply<T>): seq<T> {
    if op.Push? && reply.Ok? then [op.value] else []
  }

  function GivenBack<T>(reply: Reply<T>): seq<T> {
    if reply.Popped? && reply.result.Some? then [reply.result.value] else []
  }

  function Accepted<T>(ops: seq<Op<T>>, replies: seq<Reply<T>>): seq<T>
    requires |ops| == |replies|
  {
    if ops == [] then []
    else Accepted(ops[..|ops| - 1], replies[..|ops| - 1]) + TakenOver(ops[|ops| - 1], replies[|ops| - 1])
  }

  function Returned<T>(replies: seq<Reply<T>>): seq<T> {
    if replies == [] then [] else Returned(replies[..|replies| - 1]) + GivenBack(replies[|replies| - 1])
  }

  lemma {:induction false} ServeConserves<T>(cap: nat, q: seq<T>, op: Op<T>)
    requires |q| <= cap
    ensures
      && var (reply, rest) := Serve(cap, q, op);
      && q + TakenOver(op, reply) == GivenBack(reply) + rest && |rest| <= cap
  {
    if op.Pop? && q != [] {
      assert q == [q[0]] + q[1..];
    }
  }

  /** One more operation. */
  lemma {:induction false} ServeOneMore<T>(cap: nat, q: seq<T>, ops: seq<Op<T>>, op: Op<T>)
    ensures
      && var (replies, held) := ServeAll(cap, q, ops);
      && var (reply, rest) := Serve(cap, held, op);
      && ServeAll(cap, q, ops + [op]) == (replies + [reply], rest)
      && Accepted(ops + [op], replies + [reply]) == Accepted(ops, replies) + TakenOver(op, reply)
      && Returned(replies + [reply]) == Returned(replies) + GivenBack(reply)
  {
    hide Serve;
    var (replies, held) := ServeAll(cap, q, ops);
    var (reply, rest) := Serve(cap, held, op);
    assert (ops + [op])[..|ops|] == ops && (replies + [reply])[..|ops|] == replies;
  }

  /** Over any run: first in, first out, nothing lost and nothing twice, and never more than `cap`. */
  lemma {:induction false} Conservation<T>(cap: nat, q: seq<T>, ops: seq<Op<T>>)
    requires |q| <= cap
    ensures
      && var (replies, rest) := ServeAll(cap, q, ops);
      && q + Accepted(ops, replies) == Returned(replies) + rest && |rest| <= cap
  {
    if ops == [] {
      assert q + [] == [] + q;
    } else {
      hide ServeAll, Serve, Accepted, Returned, TakenOver, GivenBack;
      var ms, op := ops[..|ops| - 1], ops[|ops| - 1];
      assert ops == ms + [op];
      Conservation(cap, q, ms);
      ServeOneMore(cap, q, ms, op);
      var (replies, held) := ServeAll(cap, q, ms);
      ServeConserves(cap, held, op);
      Associate(q, Accepted(ms, replies), TakenOver(op, Serve(cap, held, op).0));
      Associate(Returned(replies), held, TakenOver(op, Serve(cap, held, op).0));
      Associate(Returned(replies), GivenBack(Serve(cap, held, op).0), Serve(cap, held, op).1);
    }
  }

  lemma {:induction false} Associate<T>(a: seq<T>, b: seq<T>, c: seq<T>)
    ensures a + b + c == a + (b + c)
  {
  }

  /** The replies of a bounded first-in first-out queue that starts empty, in terms of the operations and
      replies before each: a push is accepted exactly when fewer than `cap` values are held, and otherwise
      gets its own value back; a pop brings the oldest value not yet returned, and nothing exactly when
      none is held. */
  ghost predicate InOrder<T>(cap: nat, ops: seq<Op<T>>, replies: seq<Reply<T>>) {
    && |replies| == |ops|
    && forall i :: 0 <= i < |ops| ==> RightReply(cap, ops[i], replies[i], ops[..i], replies[..i])
  }

  ghost predicate RightReply<T>(cap: nat, op: Op<T>, reply: Reply<T>, before: seq<Op<T>>, given: seq<Reply<T>>)
    requires |before| == |given|
  {
    var came, went := Accepted(before, given), Returned(given);
    && |went| <= |came| <= |went| + cap
    && match op
       case Push(v) => reply == if |came| < |went| + cap then Ok else Err(v)
       case Pop => reply == Popped(if |went| < |came| then Some(came[|went|]) else None)
  }

  lemma {:induction false} ServeIsInOrder<T>(cap: nat, ops: seq<Op<T>>)
    ensures InOrder(cap, ops, ServeAll(cap, [], ops).0)
  {
    hide ServeAll, Serve, Accepted, Returned, RightReply;
    var replies := ServeAll(cap, [], ops).0;
    forall i | 0 <= i < |ops| ensures RightReply(cap, ops[i], replies[i], ops[..i], replies[..i]) {
      var given := ServeAll(cap, [], ops[..i]).0;
      ReplyIsRight(cap, ops[..i], ops[i]);
      ServeOneMore(cap, [], ops[..i], ops[i]);
      assert ops[..i + 1] == ops[..i] + [ops[i]];
      PrefixServed(cap, ops, i);
      PrefixServed(cap, ops, i + 1);
      assert replies[i] == replies[..i + 1][i];
    }
  }

  lemma {:induction false} ReplyIsRight<T>(cap: nat, before: seq<Op<T>>, op: Op<T>)
    ensures
      && var (given, held) := ServeAll(cap, [], before);
      && RightReply(cap, op, Serve(cap, held, op).0, before, given)
  {
    hide ServeAll, Accepted, Returned;
    var (given, held) := ServeAll(cap, [], before);
    Conservation(cap, [], before);
    var came, went := Accepted(before, given), Returned(given);
    assert [] + came == came && came == went + held;
  }

  lemma {:induction false} PrefixServed<T>(cap: nat, ops: seq<Op<T>>, i: nat)
    requires i <= |ops|
    ensures ServeAll(cap, [], ops[..i]).0 == ServeAll(cap, [], ops).0[..i]
    decreases |ops|
  {
    hide Serve;
    if i == |ops| {
      assert ops[..i] == ops;
    } else {
      PrefixServed(cap, ops[..|ops| - 1], i);
      assert ops[..|ops| - 1][..i] == ops[..i];
    }
  }

  // ---- The buffer ----

  /** A slot. Reading a value out of it, or dropping it in place, leaves it without one. */
  datatype MaybeUninit<T> = Uninit | Init(value: T)

  /** Index of the slot `i` places behind `tail`. */
  function Slot(tail: nat, i: nat, cap: nat): (k: nat)
    requires cap > 0
    ensures k < cap
  {
    (tail + i) % cap
  }

  lemma {:induction false} SlotWraps(tail: nat, i: nat, cap: nat)
    requires tail < cap && i <= cap
    ensures Slot(tail, i, cap) == if tail + i < cap then tail + i else tail + i - cap
  {
  }

  /** How many places behind `tail` the slot `k` is. */
  function Distance(tail: nat, k: nat, cap: nat): (i: nat)
    requires tail < cap && k < cap
    ensures i < cap
  {
    if k >= tail then k - tail else k + cap - tail
  }

  /** Moving `tail` on by one brings every slot but the old `tail` one place nearer. */
  lemma {:induction false} DistanceNext(tail: nat, k: nat, cap: nat)
    requires tail < cap && k < cap
    ensures
      && var d := Distance(tail, k, cap);
      && (d == 0 <==> k == tail)
      && Distance(Slot(tail, 1, cap), k, cap) == if d == 0 then cap - 1 else d - 1
  {
    SlotWraps(tail, 1, cap);
  }

  /** The slots hold `q` from `tail` on, wrapping around, and no other slot holds a value. */
  ghost predicate Live<T>(slots: seq<MaybeUninit<T>>, tail: nat, q: seq<T>) {
    && tail < |slots| && |q| <= |slots|
    && forall k :: 0 <= k < |slots| ==> slots[k] == Expected(tail, k, |slots|, q)
  }

  ghost function Expected<T>(tail: nat, k: nat, cap: nat, q: seq<T>): MaybeUninit<T>
    requires tail < cap && k < cap
  {
    var d := Distance(tail, k, cap);
    if d < |q| then Init(q[d]) else Uninit
  }

  lemma {:induction false} LiveSlots<T>(slots: seq<MaybeUninit<T>>, tail: nat, q: seq<T>)
    requires Live(slots, tail, q)
    ensures |q| < |slots| ==> slots[Slot(tail, |q|, |slots|)] == Uninit
    ensures |q| > 0 ==> slots[tail] == Init(q[0])
  {
    SlotWraps(tail, |q|, |slots|);
  }

  lemma {:induction false} LivePush<T>(slots: seq<MaybeUninit<T>>, tail: nat, q: seq<T>, v: T)
    requires Live(slots, tail, q) && |q| < |slots|
    ensures Live(slots[Slot(tail, |q|, |slots|) := Init(v)], tail, q + [v])
  {
    SlotWraps(tail, |q|, |slots|);
  }

  lemma {:induction false} LivePop<T>(slots: seq<MaybeUninit<T>>, tail: nat, q: seq<T>)
    requires Live(slots, tail, q) && q != []
    ensures Live(slots[tail := Uninit], Slot(tail, 1, |slots|), q[1..])
  {
    hide Slot, Distance;
    forall k: nat | k < |slots|
      ensures slots[tail := Uninit][k] == Expected(Slot(tail, 1, |slots|), k, |slots|, q[1..])
    {
      DistanceNext(tail, k, |slots|);
    }
  }

  lemma {:induction false} SlotNext(tail: nat, i: nat, cap: nat)
    requires tail < cap && i < cap
    ensures Slot(Slot(tail, 1, cap), i, cap) == Slot(tail, i + 1, cap)
    ensures Slot(Slot(tail, i, cap), 1, cap) == Slot(tail, i + 1, cap)
  {
    SlotWraps(tail, 1, cap);
    SlotWraps(tail, i, cap);
    SlotWraps(tail, i + 1, cap);
    SlotWraps(Slot(tail, 1, cap), i, cap);
    SlotWraps(Slot(tail, i, cap), 1, cap);
  }

  class RingBuffer<T> {
    const buf: array<MaybeUninit<T>>
    const cap: nat
    var head: nat               // index of the next slot to write into
    var tail: nat               // index of the next slot to read from
    var len: nat
    ghost var contents: seq<T>
    ghost var accepted: seq<T>  // what pushes took over
    ghost var returned: seq<T>  // what pops gave back
    ghost var dropped: seq<T>   // what was destroyed in place

    ghost predicate Valid()
      reads this, buf
    {
      && buf.Length == cap > 0 && tail < cap && len <= cap
      && head == Slot(tail, len, cap)
      && len == |contents| && Live(buf[..], tail, contents)
      && accepted == returned + contents && dropped == []
    }

    constructor (capacity: nat)
      requires capacity > 0
      ensures Valid() && cap == capacity && fresh(buf)
      ensures contents == accepted == returned == []
    {
      buf := new MaybeUninit<T>[capacity](_ => Uninit);
      cap, head, tail, len := capacity, 0, 0, 0;
      contents, accepted, returned, dropped := [], [], [], [];
    }

    predicate IsEmpty()
      reads this
    {
      len == 0
    }

    predicate IsFull()
      reads this
    {
      len == cap
    }

    /** A full buffer hands the value back. */
    method Push(val: T) returns (reply: Reply<T>)
      requires Valid()
      modifies this`head, this`len, this`contents, this`accepted, buf
      ensures Valid()
      ensures (reply, contents) == Serve(cap, old(contents), Op.Push(val))
      ensures reply == if |old(contents)| < cap then Ok else Err(val)
      ensures accepted == old(accepted) + TakenOver(Op.Push(val), reply)
    {
      hide Slot, Live;
      if IsFull() {
        return Err(val);
      }
      LiveSlots(buf[..], tail, contents);
      LivePush(buf[..], tail, contents, val);
      SlotNext(tail, len, cap);
      assert buf[head].Uninit?;  // nothing is overwritten
      ghost var was := buf[..];
      buf[head] := Init(val);
      assert buf[..] == was[head := Init(val)];
      head := Slot(head, 1, cap);
      len := len + 1;
      contents, accepted := contents + [val], accepted + [val];
      return Ok;
    }

    method Pop() returns (reply: Reply<T>)
      requires Valid()
      modifies this`tail, this`len, this`contents, this`returned, buf
      ensures Valid()
      ensures (reply, contents) == Serve(cap, old(contents), Op.Pop)
      ensures reply == Popped(if old(contents) == [] then None else Some(old(contents)[0]))
      ensures returned == old(returned) + GivenBack(reply)
    {
      hide Slot, Live;
      if IsEmpty() {
        return Popped(None);
      }
      LiveSlots(buf[..], tail, contents);
      LivePop(buf[..], tail, contents);
      SlotNext(tail, len - 1, cap);
      ghost var was := buf[..];
      var val := buf[tail].value;
      buf[tail] := Uninit;
      assert buf[..] == was[tail := Uninit];
      tail := Slot(tail, 1, cap);
      len := len - 1;
      contents, returned := contents[1..], returned + [val];
      return Popped(Some(val));
    }

    /** Destroys what is left, in place and in order, each value once: afterwards every accepted value
        has been given back or destroyed, and no slot holds one. */
    method Drop()
      requires Valid()
      modifies this`dropped, buf
      ensures dropped == old(contents) && accepted == returned + dropped
      ensures forall k :: 0 <= k < cap ==> buf[k].Uninit?
    {
      hide Slot, Live;
      StartSlot(tail, cap);
      for i := 0 to len
        invariant dropped == contents[..i]
        invariant Live(buf[..], Slot(tail, i, cap), contents[i..])
      {
        var idx := Slot(tail, i, cap);
        LiveSlots(buf[..], idx, contents[i..]);
        LivePop(buf[..], idx, contents[i..]);
        SlotNext(tail, i, cap);
        ghost var was := buf[..];
        dropped := dropped + [buf[idx].value];
        buf[idx] := Uninit;
        assert buf[..] == was[idx := Uninit];
        assert contents[i..][1..] == contents[i + 1..];
      }
      NothingLive(buf[..], Slot(tail, len, cap), contents[len..]);
    }
  }

  lemma {:induction false} StartSlot(tail: nat, cap: nat)
    requires tail < cap
    ensures Slot(tail, 0, cap) == tail
  {
  }

  lemma {:induction false} NothingLive<T>(slots: seq<MaybeUninit<T>>, tail: nat, q: seq<T>)
    requires Live(slots, tail, q) && q == []
    ensures forall k :: 0 <= k < |slots| ==> slots[k].Uninit?
  {
  }

  /** `RingBuffer::new` panics, here `None`, for a capacity of zero and when the allocator fails. */
  method New<T>(capacity: nat, granted: bool) returns (r: Option<RingBuffer<T>>)
    ensures r.Some? <==> capacity > 0 && granted
    ensures r.Some? ==> fresh(r.value) && fresh(r.value.buf) && r.value.Valid() && r.value.cap == capacity
    ensures r.Some? ==> r.value.contents == r.value.accepted == r.value.returned == []
  {
    if capacity == 0 || !granted {
      return None;
    }
    var ring := new RingBuffer<T>(capacity);
    return Some(ring);
  }

  lemma {:induction false} NothingServed<T>(cap: nat, q: seq<T>)
    ensures ServeAll(cap, q, []) == ([], q)
    ensures Accepted<T>([], []) == Returned<T>([]) == []
  {
  }

  lemma {:induction false} PopTakesNothing<T>(reply: Reply<T>)
    ensures TakenOver(Op.Pop, reply) == []
  {
  }

  lemma {:induction false} PushGivesNothing<T>(cap: nat, q: seq<T>, v: T)
    ensures GivenBack(Serve(cap, q, Op.Push(v)).0) == []
  {
  }

  /** Any sequence of operations on the buffer behaves as the bounded queue does. */
  method Use<T>(ring: RingBuffer<T>, ops: seq<Op<T>>) returns (replies: seq<Reply<T>>)
    requires ring.Valid()
    modifies ring, ring.buf
    ensures ring.Valid()
    ensures (replies, ring.contents) == ServeAll(ring.cap, old(ring.contents), ops)
    ensures old(ring.contents) == [] ==> InOrder(ring.cap, ops, replies)
    ensures ring.accepted == old(ring.accepted) + Accepted(ops, replies)
    ensures ring.returned == old(ring.returned) + Returned(replies)
  {
    hide ServeAll, Serve, Accepted, Returned, TakenOver, GivenBack, Live, Slot;
    replies := [];
    NothingServed(ring.cap, ring.contents);
    for i := 0 to |ops|
      invariant ring.Valid()
      invariant (replies, ring.contents) == ServeAll(ring.cap, old(ring.contents), ops[..i])
      invariant ring.accepted == old(ring.accepted) + Accepted(ops[..i], replies)
      invariant ring.returned == old(ring.returned) + Returned(replies)
    {
      ServeOneMore(ring.cap, old(ring.contents), ops[..i], ops[i]);
      assert ops[..i + 1] == ops[..i] + [ops[i]];
      ghost var held := ring.contents;
      var reply;
      match ops[i] {
        case Push(v) =>
          reply := ring.Push(v);
          assert GivenBack(reply) == [] by { PushGivesNothing(ring.cap, held, v); }
        case Pop =>
          reply := ring.Pop();
          assert TakenOver(Op.Pop, reply) == [] by { PopTakesNothing(reply); }
      }
      replies := replies + [reply];
    }
    assert ops[..|ops|] == ops;
    ServeIsInOrder(ring.cap, ops);
  }
}
