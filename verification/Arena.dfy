/** The bump allocator: addresses and sizes are 64-bit words that wrap around. */
module Arena {
  import opened Bits
  import opened Words

  /** `sizeof(Arena)`: the header at the start of the region, three words. */
  const HEADER: nat := 24

  /** The smallest multiple of `align` that is at least `x`. */
  function AlignUp(x: nat, align: nat): (r: nat)
    requires align > 0
    ensures x <= r < x + align && r % align == 0
    ensures forall k :: x <= k && k % align == 0 ==> r <= k
  {
    var r := (x + align - 1) / align * align;
    RoundsUp(x, align);
    r
  }

  lemma {:induction false} RoundsUp(x: nat, align: nat)
    requires align > 0
    ensures
      && var r := (x + align - 1) / align * align;
      && x <= r < x + align && r % align == 0
      && forall k :: x <= k && k % align == 0 ==> r <= k
  {
    var y := x + align - 1;
    var q := y / align;
    DivisionOf(y, align);
    Commute(q, align);
    QuotientUnique(align * q, align, q, 0);
    forall k | x <= k && k % align == 0 ensures align * q <= k {
      NoneBelow(y, q, align, k);
    }
  }

  lemma {:induction false} Commute(a: nat, b: nat)
    ensures a * b == b * a
  {
  }

  lemma {:induction false} NoneBelow(y: nat, q: nat, align: nat, k: nat)
    requires align > 0 && k % align == 0 && k + align > y >= align * q
    ensures align * q <= k
  {
    DivisionOf(k, align);
    var p := k / align;
    if p < q {
      MultipleIsFar(align, q - p);
      Distribute(align, q, p);
    }
  }

  /** What a 64-bit register keeps of `x`. */
  function Wrap(x: int): U64 {
    x % WORD64
  }

  /** `(bump + align - 1) & ~(align - 1)` in 64-bit arithmetic. */
  function Masked(bump: U64, align: nat): nat
    requires 0 < align <= WORD64
  {
    And(Wrap(bump + align - 1), WORD64 - align)
  }

  /** For a power of two the expression is the least aligned address at or above the bump pointer, but
      for a carry out of the word. */
  lemma {:induction false} MaskAligns(bump: U64, p: nat)
    requires p < 64
    ensures Pow2(p) < WORD64 && Masked(bump, Pow2(p)) == Wrap(AlignUp(bump, Pow2(p)))
  {
    hide And, AlignUp, Pow2, Masked;
    PowersDivide(p);
    AlignIs(bump, Pow2(p));
    hide *;
    if bump + Pow2(p) - 1 < WORD64 {
      MaskWithoutCarry(bump, p);
      WrapSmall(AlignUp(bump, Pow2(p)));
    } else {
      MaskWithCarry(bump, p);
      WrapWord();
    }
  }

  lemma {:induction false} WrapWord()
    ensures Wrap(WORD64) == 0
  {
  }

  lemma {:induction false} MaskWithoutCarry(bump: U64, p: nat)
    requires p < 64 && Pow2(64) == WORD64 && bump + Pow2(p) - 1 < WORD64
    ensures Pow2(p) <= WORD64 && Masked(bump, Pow2(p)) == Pow2(p) * ((bump + Pow2(p) - 1) / Pow2(p)) < WORD64
  {
    hide And, Pow2;
    var a := Pow2(p);
    var y := bump + a - 1;
    AndMask(y, p, 64);
    DivisionOf(y, a);
    assert Wrap(y) == y;
  }

  lemma {:induction false} MaskWithCarry(bump: U64, p: nat)
    requires p < 64 && Pow2(64) == WORD64 && Pow2(p) < WORD64 && WORD64 % Pow2(p) == 0 && bump + Pow2(p) - 1 >= WORD64
    ensures Masked(bump, Pow2(p)) == 0 && Pow2(p) * ((bump + Pow2(p) - 1) / Pow2(p)) == WORD64
  {
    hide And, Pow2;
    var a := Pow2(p);
    var y := bump + a - 1;
    var t := y - WORD64;
    DivisionOf(WORD64, a);
    QuotientUnique(y, a, WORD64 / a, t);
    assert Wrap(y) == t;
    AndMask(t, p, 64);
    SmallRemainder(t, a);
  }

  lemma {:induction false} SmallRemainder(t: nat, a: nat)
    requires t < a
    ensures t % a == t
  {
  }

  lemma {:induction false} PowersDivide(p: nat)
    requires p < 64
    ensures Pow2(64) == WORD64 && Pow2(p) < WORD64 && WORD64 % Pow2(p) == 0
  {
    WordIsPow2();
    PowAdds(p, 63 - p);
    MultipleIsFar(Pow2(p), Pow2(63 - p));
    PowAdds(p, 64 - p);
    QuotientUnique(WORD64, Pow2(p), Pow2(64 - p), 0);
  }

  lemma {:induction false} AlignIs(x: nat, align: nat)
    requires align > 0
    ensures AlignUp(x, align) == align * ((x + align - 1) / align)
  {
  }

  // ---- Outcomes ----

  predicate PowerOfTwo(align: nat) {
    exists p :: 0 <= p < 64 && align == Pow2(p)
  }

  /** Where an allocation would end, relative to the base, without wrap-around. */
  function End(base: nat, offset: nat, size: nat, align: nat): (n: nat)
    requires align > 0
    ensures n >= offset + size
  {
    AlignUp(base + offset, align) - base + size
  }

  /** The address returned, 0 for NULL, and the offset afterwards. */
  datatype Outcome = Outcome(p: nat, offset: nat)

  /** What the 64-bit code does. */
  function Allocated(base: nat, capacity: nat, offset: nat, size: nat, align: nat): Outcome
    requires align > 0
  {
    var n := Wrap(End(base, offset, size, align));
    if n > capacity then Outcome(0, offset) else Outcome(Wrap(AlignUp(base + offset, align)), n)
  }

  /** What it should do: the least aligned place above the bump pointer, if it fits. */
  function Wanted(base: nat, capacity: nat, offset: nat, size: nat, align: nat): Outcome
    requires align > 0
  {
    var n := End(base, offset, size, align);
    if n > capacity then Outcome(0, offset) else Outcome(AlignUp(base + offset, align), n)
  }

  /** No carry out of the word makes a request that does not fit look as if it did. The last case is
      a request whose wrap-around comes to NULL and the old offset by itself. */
  predicate NoWrap(base: nat, capacity: nat, offset: nat, size: nat, align: nat)
    requires align > 0
  {
    var n := End(base, offset, size, align);
    n < WORD64 || Wrap(n) > capacity || (AlignUp(base + offset, align) == WORD64 && size == base + offset)
  }

  /** An arena in the address space: one past its end is still an address, and so is the end of its
      header. */
  predicate Region(base: nat, capacity: nat, offset: nat) {
    && 0 < base && base + capacity < WORD64 && base + HEADER < WORD64
    && (offset <= capacity || offset == HEADER)
  }

  /** The code is right exactly when the new offset does not wrap around to one that seems to fit. */
  lemma {:induction false} RightUnlessWrapped(base: nat, capacity: nat, offset: nat, size: U64, align: U64)
    requires align > 0 && Region(base, capacity, offset)
    ensures
      Allocated(base, capacity, offset, size, align) == Wanted(base, capacity, offset, size, align)
      <==> NoWrap(base, capacity, offset, size, align)
  {
    hide AlignUp;
    var n := End(base, offset, size, align);
    var r := AlignUp(base + offset, align);
    if n < WORD64 {
      assert Wrap(n) == n;
      if n <= capacity {
        assert r < WORD64 && Wrap(r) == r;
      }
    } else if Wrap(n) <= capacity {
      WrappedToZero(r);
      if r == WORD64 {
        WrappedEnd(n, base, offset, size);
      }
    }
  }

  lemma {:induction false} WrappedToZero(r: nat)
    requires 0 < r < 2 * WORD64
    ensures Wrap(r) == 0 <==> r == WORD64
  {
  }

  lemma {:induction false} WrappedEnd(n: nat, base: nat, offset: nat, size: U64)
    requires n == WORD64 - base + size && base + offset < WORD64 && n >= WORD64
    ensures Wrap(n) == offset <==> size == base + offset
  {
  }

  /** A size close to 2^64 wraps the new offset to 0: the caller gets an address for bytes the region
      does not have. */
  lemma {:induction false} HugeSizeSucceeds()
    ensures
      && var o := Allocated(0x1_0000, 0x1000, 24, 0xFFFF_FFFF_FFFF_FFE8, 1);
      && Region(0x1_0000, 0x1000, 24) && PowerOfTwo(1)
      && o == Outcome(0x1_0018, 0) != Wanted(0x1_0000, 0x1000, 24, 0xFFFF_FFFF_FFFF_FFE8, 1)
  {
    assert Pow2(0) == 1;
    assert AlignUp(0x1_0018, 1) == 0x1_0018;
  }

  /** NULL is wanted only when nothing aligned fits between the bump pointer and the end. */
  lemma {:induction false} WantedFits(base: nat, capacity: nat, offset: nat, size: nat, align: nat)
    requires align > 0 && Region(base, capacity, offset)
    ensures
      && var w := Wanted(base, capacity, offset, size, align);
      && (w.p != 0 <==> exists s :: Fits(base, capacity, offset, size, align, s))
      && (w.p != 0 ==>
            && Fits(base, capacity, offset, size, align, w.p) && w.offset == w.p - base + size
            && forall s :: Fits(base, capacity, offset, size, align, s) ==> w.p <= s)
  {
    var r := AlignUp(base + offset, align);
    if End(base, offset, size, align) <= capacity {
      assert Fits(base, capacity, offset, size, align, r);
    }
    forall s: nat | Fits(base, capacity, offset, size, align, s) ensures r <= s {
      assert s % align == 0;
    }
  }

  /** `s` is an aligned place for `size` bytes above the bump pointer. */
  predicate Fits(base: nat, capacity: nat, offset: nat, size: nat, align: nat, s: nat)
    requires align > 0
  {
    base + offset <= s && s % align == 0 && s + size <= base + capacity
  }

  // ---- All allocations since the last reset ----

  datatype Block = Block(start: nat, size: nat, align: nat)

  /** The blocks lie one behind the other, aligned, between the header and the bump pointer. */
  predicate Laid(blocks: seq<Block>, base: nat, offset: nat) {
    && (forall i :: 0 <= i < |blocks| ==>
          && blocks[i].align > 0 && blocks[i].start % blocks[i].align == 0
          && base + HEADER <= blocks[i].start && blocks[i].start + blocks[i].size <= base + offset)
    && (forall i, j :: 0 <= i < j < |blocks| ==> blocks[i].start + blocks[i].size <= blocks[j].start)
  }

  predicate Inside(b: Block, address: nat) {
    b.start <= address < b.start + b.size
  }

  /** So no two of them share a byte. */
  lemma {:induction false} LaidDisjoint(blocks: seq<Block>, base: nat, offset: nat, i: nat, j: nat, address: nat)
    requires Laid(blocks, base, offset) && i < |blocks| && j < |blocks| && i != j
    ensures !(Inside(blocks[i], address) && Inside(blocks[j], address))
  {
  }

  /** No block has a byte in common with the three words of the header. */
  lemma {:induction false} HeaderKept(blocks: seq<Block>, base: nat, offset: nat, i: nat, address: nat)
    requires Laid(blocks, base, offset) && i < |blocks| && Inside(blocks[i], address)
    ensures !Inside(Block(base, 8, 8), address) && !Inside(Block(base + 8, 8, 8), address)
    ensures !Inside(Block(base + 16, 8, 8), address)
  {
  }

  /** The first request without alignment gets the byte behind the header, and may have all the rest. */
  lemma {:induction false} FirstRequest(base: nat, capacity: nat, size: U64)
    requires Region(base, capacity, 24) && size < WORD64 - 24
    ensures
      Allocated(base, capacity, 24, size, 1)
      == if 24 + size <= capacity then Outcome(base + 24, 24 + size) else Outcome(0, 24)
  {
    AlignIs(base + 24, 1);
    hide AlignUp;
    WrapSmall(24 + size);
    WrapSmall(base + 24);
    hide Wrap;
  }

  lemma {:induction false} LaidGrows(blocks: seq<Block>, base: nat, capacity: nat, offset: nat, size: nat, align: nat)
    requires align > 0 && Region(base, capacity, offset) && HEADER <= offset && Laid(blocks, base, offset)
    ensures
      && var w := Wanted(base, capacity, offset, size, align);
      && offset <= w.offset && (w.p != 0 ==> w.offset <= capacity)
      && Laid(if w.p == 0 then blocks else blocks + [Block(w.p, size, align)], base, w.offset)
  {
    hide AlignUp;
  }

  /** The arithmetic of the code. */
  lemma {:induction false} CodeAllocates(base: U64, capacity: U64, offset: nat, size: U64, align: U64, top: U64)
    requires PowerOfTwo(align) && base + offset < WORD64 && top == Wrap(base + offset)
    ensures align > 0
    ensures
      && var bump := And(Wrap(top + align - 1), WORD64 - 1 - (align - 1));
      && bump < WORD64
      && var newOffset := Wrap(Wrap(bump - base) + size);
      && Allocated(base, capacity, offset, size, align)
         == if newOffset > capacity then Outcome(0, offset) else Outcome(bump, newOffset)
  {
    hide And, AlignUp, PowerOfTwo, Wrap;
    WrapSmall(base + offset);
    MaskCode(top, align);
    var r := AlignUp(top, align);
    OffsetWraps(r, Wrap(r), base, size);
  }

  lemma {:induction false} WrapSmall(x: U64)
    ensures Wrap(x) == x
  {
  }

  lemma {:induction false} MaskCode(top: U64, align: U64)
    requires PowerOfTwo(align)
    ensures align > 0
    ensures And(Wrap(top + align - 1), WORD64 - 1 - (align - 1)) == Wrap(AlignUp(top, align))
  {
    hide And, AlignUp;
    var e :| 0 <= e < 64 && align == Pow2(e);
    MaskAligns(top, e);
    assert WORD64 - 1 - (align - 1) == WORD64 - align;
  }

  lemma {:induction false} OffsetWraps(r: nat, bump: U64, base: U64, size: U64)
    requires bump == Wrap(r) && r >= base
    ensures Wrap(Wrap(bump - base) + size) == Wrap(r - base + size)
  {
    var q := r / WORD64;
    assert r == q * WORD64 + bump;
    var d := (bump - base) % WORD64;
    var p := (bump - base) / WORD64;
    assert bump - base == p * WORD64 + d;
    assert r - base + size == (q + p) * WORD64 + (d + size);
    AddMultiple(d + size, q + p, WORD64);
  }

  /** An allocation keeps the region, and the blocks in order if nothing wraps. */
  lemma {:induction false} AllocKeeps(blocks: seq<Block>, base: nat, capacity: nat, offset: nat, size: U64, align: U64)
    requires PowerOfTwo(align) && Region(base, capacity, offset)
    ensures align > 0
    ensures
      && var o := Allocated(base, capacity, offset, size, align);
      && Region(base, capacity, o.offset)
      && (HEADER <= offset && Laid(blocks, base, offset) && NoWrap(base, capacity, offset, size, align) ==>
            && HEADER <= o.offset
            && Laid(if o.p == 0 then blocks else blocks + [Block(o.p, size, align)], base, o.offset))
  {
    hide Laid, NoWrap, AlignUp;
    assert align > 0;
    RightUnlessWrapped(base, capacity, offset, size, align);
    if HEADER <= offset && Laid(blocks, base, offset) {
      LaidGrows(blocks, base, capacity, offset, size, align);
    }
  }

  class Arena {
    const base: U64
    const capacity: U64
    var offset: U64
    ghost var blocks: seq<Block>  // what has been handed out since the last reset

    ghost predicate InAddressSpace()
      reads this
    {
      Region(base, capacity, offset)
    }

    /** Every request so far was answered rightly. */
    ghost predicate Valid()
      reads this
    {
      InAddressSpace() && HEADER <= offset && Laid(blocks, base, offset)
    }

    constructor (base: U64, capacity: U64)
      requires Region(base, capacity, 24)
      ensures Valid() && blocks == [] && offset == 24 && this.base == base && this.capacity == capacity
    {
      this.base, this.capacity, offset := base, capacity, HEADER;
      blocks := [];
    }

    method Alloc(size: U64, align: U64) returns (p: U64)
      requires InAddressSpace() && PowerOfTwo(align)
      modifies this`offset, this`blocks
      ensures InAddressSpace()
      ensures Outcome(p, offset) == Allocated(base, capacity, old(offset), size, align)
      ensures blocks == if p == 0 then old(blocks) else old(blocks) + [Block(p, size, align)]
      ensures old(Valid()) && NoWrap(base, capacity, old(offset), size, align) ==> Valid()
    {
      hide And, Allocated, Laid, NoWrap, PowerOfTwo, Wrap;
      AllocKeeps(blocks, base, capacity, offset, size, align);
      assert base + offset < WORD64;
      hide Region;
      var bump := Wrap(base + offset);
      CodeAllocates(base, capacity, offset, size, align, bump);
      bump := And(Wrap(bump + align - 1), WORD64 - 1 - (align - 1));
      var newOffset := Wrap(Wrap(bump - base) + size);
      if newOffset > capacity {
        return 0;
      }
      offset := newOffset;
      if bump != 0 {
        blocks := blocks + [Block(bump, size, align)];
      }
      return bump;
    }

    method Reset()
      requires InAddressSpace()
      modifies this`offset, this`blocks
      ensures Valid() && blocks == [] && offset == 24
    {
      offset := HEADER;
      blocks := [];
    }
  }

  /** `arena_create`: NULL when the mapping fails. */
  method Create(mapped: U64, capacity: U64) returns (a: Arena?)
    requires mapped != 0 ==> Region(mapped, capacity, 24)
    ensures a == null <==> mapped == 0
    ensures a != null ==> fresh(a) && a.Valid() && a.blocks == [] && a.offset == 24 && a.base == mapped && a.capacity == capacity
  {
    if mapped == 0 {
      return null;
    }
    a := new Arena(mapped, capacity);
  }
}
