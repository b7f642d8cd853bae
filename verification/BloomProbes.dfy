/** What the hashes and probes of the Bloom filter are: known values, laws between the hash of a string
    and that of a longer one, and the distance between the probes of a key. */
module BloomProbes {
  import opened Bytes
  import opened Bits
  import opened Words
  import opened BloomFilter

  // ---- Exclusive or, bit by bit ----

  lemma {:induction false} Xor64Bit(a: U64, b: U64, i: nat)
    ensures Bit(Xor64(a, b), i) <==> Bit(a, i) != Bit(b, i)
  {
    XorBit(a, b, i);
  }

  /** A word is determined by its 64 bits. */
  lemma {:induction false} SameWord(a: U64, b: U64)
    requires forall i :: 0 <= i < 64 ==> (Bit(a, i) <==> Bit(b, i))
    ensures a == b
  {
    WordIsPow2();
    hide Pow2;
    SameBits(a, b, 64);
  }

  lemma {:induction false} Xor64Injective(a: U64, b: U64, x: U64, y: U64)
    requires Xor64(a, x) == Xor64(b, y) && (a == b || x == y)
    ensures a == b && x == y
  {
    hide Xor64, Bit;
    forall i: nat | i < 64 ensures (Bit(a, i) <==> Bit(b, i)) && (Bit(x, i) <==> Bit(y, i)) {
      Xor64Bit(a, x, i);
      Xor64Bit(b, y, i);
    }
    SameWord(a, b);
    SameWord(x, y);
  }

  /** `x ^ x >> 33`. */
  function XorShift(x: U64): U64 {
    Xor64(x, x / 0x2_0000_0000)
  }

  lemma {:induction false} XorShiftBit(x: U64, i: nat)
    ensures Bit(XorShift(x), i) <==> Bit(x, i) != Bit(x, i + 33)
  {
    var q := x / 0x2_0000_0000;
    Xor64Bit(x, q, i);
    Left33(q);
    hide Bit, Xor64, Pow2, ShiftLeft;
    ShiftedBit(x, 33, q, i);
  }

  lemma {:induction false} Left33(q: nat)
    ensures Pow2(33) == 0x2_0000_0000 && ShiftLeft(q, 33) == 0x2_0000_0000 * q
  {
    hide Pow2, ShiftLeft;
    var n := 0;
    LeftNone(q);
    while n < 32
      invariant n <= 32 && n % 8 == 0
      invariant n == 0 ==> Pow2(n) == 1 && ShiftLeft(q, n) == q
      invariant n == 8 ==> Pow2(n) == 0x100 && ShiftLeft(q, n) == 0x100 * q
      invariant n == 16 ==> Pow2(n) == 0x1_0000 && ShiftLeft(q, n) == 0x1_0000 * q
      invariant n == 24 ==> Pow2(n) == 0x100_0000 && ShiftLeft(q, n) == 0x100_0000 * q
      invariant n == 32 ==> Pow2(n) == 0x1_0000_0000 && ShiftLeft(q, n) == 0x1_0000_0000 * q
    {
      LeftByte(q, n);
      n := n + 8;
    }
    LeftOne(q, 32);
  }

  lemma {:induction false} LeftNone(q: nat)
    ensures Pow2(0) == 1 && ShiftLeft(q, 0) == q
  {
  }

  lemma {:induction false} LeftOne(q: nat, n: nat)
    ensures Pow2(n + 1) == 2 * Pow2(n) && ShiftLeft(q, n + 1) == 2 * ShiftLeft(q, n)
  {
  }

  lemma {:induction false} LeftByte(q: nat, n: nat)
    ensures Pow2(n + 8) == 256 * Pow2(n) && ShiftLeft(q, n + 8) == 256 * ShiftLeft(q, n)
  {
    hide Pow2, ShiftLeft;
    LeftOne(q, n);
    LeftOne(q, n + 1);
    LeftOne(q, n + 2);
    LeftOne(q, n + 3);
    LeftOne(q, n + 4);
    LeftOne(q, n + 5);
    LeftOne(q, n + 6);
    LeftOne(q, n + 7);
  }

  lemma {:induction false} XorShiftInjective(x: U64, y: U64)
    requires XorShift(x) == XorShift(y)
    ensures x == y
  {
    hide Bit, XorShift;
    forall i: nat | 31 <= i < 64 ensures Bit(x, i) <==> Bit(y, i) {
      HighBits(x, i + 33);
      HighBits(y, i + 33);
      XorShiftBit(x, i);
      XorShiftBit(y, i);
    }
    forall i: nat | i < 31 ensures Bit(x, i) <==> Bit(y, i) {
      XorShiftBit(x, i);
      XorShiftBit(y, i);
      assert Bit(x, i + 33) <==> Bit(y, i + 33);
    }
    SameWord(x, y);
  }

  lemma {:induction false} HighBits(x: U64, i: nat)
    requires i >= 64
    ensures !Bit(x, i)
  {
    WordIsPow2();
    hide Pow2, Bit;
    NoHighBits(x, 64, i);
  }

  // ---- Multiplication by an odd constant ----

  /** A factor with an inverse modulo 2^64 can be undone. */
  lemma {:induction false} Undo(x: U64, factor: nat, inverse: nat, t: nat)
    requires factor * inverse == 1 + t * WORD64
    ensures x * factor % WORD64 * inverse % WORD64 == x
  {
    var z, q := x * factor % WORD64, x * factor / WORD64;
    DivisionOf(x * factor, WORD64);
    assert x * factor * inverse == q * inverse * WORD64 + z * inverse by {
      Expand(WORD64, q, z, inverse);
    }
    AddMultiple(z * inverse, q * inverse, WORD64);
    Regroup3(x, factor, inverse);
    Spread(x, t);
    AddMultiple(x, x * t, WORD64);
    assert x % WORD64 == x;
  }

  lemma {:induction false} Expand(w: nat, q: nat, z: nat, k: nat)
    ensures (w * q + z) * k == q * k * w + z * k
  {
  }

  lemma {:induction false} Regroup3(a: nat, b: nat, c: nat)
    ensures a * b * c == a * (b * c)
  {
  }

  lemma {:induction false} Spread(x: nat, t: nat)
    ensures x * (1 + t * WORD64) == x * t * WORD64 + x
  {
  }

  // ---- The hashes ----

  /** The empty string and one letter. */
  lemma {:induction false} KnownHashes()
    ensures Fnv1a([]) == 0xcbf29ce484222325 && Fnv1a([0x61]) == 0xaf63dc4c8601ec8c
    ensures Djb2([]) == 5381 && Djb2([0x61]) == 177604
  {
    hide Xor, Pow2, ShiftLeft;
    var none: Bytes := [];
    assert [0x61 as byte][..0] == none;
    XorBasis();
    XorDjb2();
    LeftNone(0xcbf29ce4842223);
    LeftNone(693);
    LeftByte(0xcbf29ce4842223, 0);
    LeftByte(693, 0);
    XorLow(8, 0xcbf29ce4842223, 0x25, 0x61);
    XorLow(8, 693, 0xa5, 0x61);
  }

  lemma {:induction false} XorBasis()
    ensures Xor(0x25, 0x61) == 0x44
  {
    hide Xor;
    XorUnfold(0x25, 0x61);
    XorUnfold(0x12, 0x30);
    XorUnfold(9, 0x18);
    XorUnfold(4, 12);
    XorUnfold(2, 6);
    XorUnfold(1, 3);
    XorUnfold(0, 1);
    XorZero(0);
  }

  lemma {:induction false} XorDjb2()
    ensures Xor(0xa5, 0x61) == 0xc4
  {
    hide Xor;
    XorUnfold(0xa5, 0x61);
    XorUnfold(0x52, 0x30);
    XorUnfold(0x29, 0x18);
    XorUnfold(0x14, 12);
    XorUnfold(10, 6);
    XorUnfold(5, 3);
    XorUnfold(2, 1);
    XorZero(1);
  }

  /** One more byte: undoing the multiplication leaves the hash before it with the bits of the byte
      flipped. */
  lemma {:induction false} Fnv1aStep(s: Bytes, c: byte)
    ensures Fnv1a(s + [c]) * 0xce965057aff6957b % WORD64 == Xor64(Fnv1a(s), c as nat)
  {
    hide Xor64;
    assert (s + [c])[..|s|] == s;
    Undo(Xor64(Fnv1a(s), c as nat), FNV_PRIME, 0xce965057aff6957b, 887285111055);
  }

  /** One more byte: flipping its bits in the hash leaves 33 times the hash before it. */
  lemma {:induction false} Djb2Step(s: Bytes, c: byte)
    ensures Xor64(Djb2(s + [c]), c as nat) == 33 * Djb2(s) % WORD64
    ensures 33 * Djb2(s) % WORD64 * 0xf83e0f83e0f83e1 % WORD64 == Djb2(s)
  {
    hide Xor64;
    assert (s + [c])[..|s|] == s;
    XorTwice(33 * Djb2(s) % WORD64, c as nat);
    Undo(Djb2(s), 33, 0xf83e0f83e0f83e1, 2);
  }

  lemma {:induction false} XorTwice(a: U64, c: U64)
    ensures Xor64(Xor64(a, c), c) == a
  {
    hide Xor64, Bit;
    forall i: nat | i < 64 ensures Bit(Xor64(Xor64(a, c), c), i) <==> Bit(a, i) {
      Xor64Bit(a, c, i);
      Xor64Bit(Xor64(a, c), c, i);
    }
    SameWord(Xor64(Xor64(a, c), c), a);
  }

  /** Both hashes take different states, and different bytes, apart. */
  lemma {:induction false} HashStepsInjective(s: Bytes, t: Bytes, c: byte, d: byte)
    requires s == t || c == d
    ensures Fnv1a(s + [c]) == Fnv1a(t + [d]) ==> Fnv1a(s) == Fnv1a(t) && c == d
    ensures Djb2(s + [c]) == Djb2(t + [d]) ==> Djb2(s) == Djb2(t) && c == d
  {
    hide Xor64, Fnv1a, Djb2;
    Fnv1aStep(s, c);
    Fnv1aStep(t, d);
    Djb2Step(s, c);
    Djb2Step(t, d);
    if Fnv1a(s + [c]) == Fnv1a(t + [d]) {
      Xor64Injective(Fnv1a(s), Fnv1a(t), c as nat, d as nat);
    }
    if Djb2(s + [c]) == Djb2(t + [d]) {
      XorTwice(33 * Djb2(s) % WORD64, c as nat);
      XorTwice(33 * Djb2(t) % WORD64, d as nat);
      Djb2Same(s, t, c, d);
    }
  }

  lemma {:induction false} Djb2Same(s: Bytes, t: Bytes, c: byte, d: byte)
    requires (s == t || c == d) && Djb2(s + [c]) == Djb2(t + [d])
    ensures Djb2(s) == Djb2(t) && c == d
  {
    hide Xor64;
    assert (s + [c])[..|s|] == s && (t + [d])[..|t|] == t;
    Xor64Injective(33 * Djb2(s) % WORD64, 33 * Djb2(t) % WORD64, c as nat, d as nat);
    hide Djb2;
    Djb2Step(s, c);
    Djb2Step(t, d);
  }

  // ---- The finalizer ----

  /** The finalizer, by its bits: there is a word in which each bit of the input differs by the one 33
      places above it, and the output differs in the same way from its product. */
  lemma {:induction false} FinalizeBits(x: U64, factor: U64) returns (y: U64, z: U64)
    ensures z == y * factor % 0x1_0000_0000_0000_0000
    ensures forall i :: 0 <= i < 64 ==> (Bit(y, i) <==> Bit(x, i) != Bit(x, i + 33))
    ensures forall i :: 0 <= i < 64 ==> (Bit(Finalize(x, factor), i) <==> Bit(z, i) != Bit(z, i + 33))
  {
    hide Bit, Xor64;
    y := XorShift(x);
    z := y * factor % WORD64;
    forall i: nat | i < 64
      ensures Bit(y, i) <==> Bit(x, i) != Bit(x, i + 33)
      ensures Bit(Finalize(x, factor), i) <==> Bit(z, i) != Bit(z, i + 33)
    {
      XorShiftBit(x, i);
      XorShiftBit(z, i);
    }
  }

  /** Different words stay different, for both factors in use. */
  lemma {:induction false} FinalizeInjective(x: U64, y: U64, factor: U64)
    requires factor == 0xff51afd7ed558ccd || factor == 0xc4ceb9fe1a85ec53
    requires Finalize(x, factor) == Finalize(y, factor)
    ensures x == y
  {
    hide Xor64;
    var x1, y1 := XorShift(x), XorShift(y);
    XorShiftInjective(x1 * factor % WORD64, y1 * factor % WORD64);
    if factor == 0xff51afd7ed558ccd {
      Undo(x1, factor, 0x4f74430c22a54005, 5710046619856821070);
      Undo(y1, factor, 0x4f74430c22a54005, 5710046619856821070);
    } else {
      Undo(x1, factor, 0x9cb4b2f8129337db, 8680939279959119233);
      Undo(y1, factor, 0x9cb4b2f8129337db, 8680939279959119233);
    }
    XorShiftInjective(x, y);
  }

  // ---- The probes ----

  /** Probe 0 is the first hash and each further probe lies one and the same word behind the last, the
      second hash, with wrap-around at 2^64; a filter of `m` bits reduces these words. */
  lemma {:induction false} ProbesAdvance(key: Bytes, i: nat, m: nat)
    requires m > 0
    ensures Probe(key, 0, 0x1_0000_0000_0000_0000) == Finalize(Fnv1a(key), 0xff51afd7ed558ccd)
    ensures
      Probe(key, i + 1, 0x1_0000_0000_0000_0000)
      == (Probe(key, i, 0x1_0000_0000_0000_0000) + Finalize(Djb2(key), 0xc4ceb9fe1a85ec53)) % 0x1_0000_0000_0000_0000
    ensures Probe(key, i, m) == Probe(key, i, 0x1_0000_0000_0000_0000) % m
  {
    hide Finalize, Fnv1a, Djb2;
    var a, b := Finalize(Fnv1a(key), 0xff51afd7ed558ccd), Finalize(Djb2(key), 0xc4ceb9fe1a85ec53);
    WrappedProbe(key, 0, a, b);
    WrappedProbe(key, i, a, b);
    WrappedProbe(key, i + 1, a, b);
    hide Probe;
    AdvanceWord(a, b, i);
    ProbeReduces(key, i, m);
  }

  lemma {:induction false} WrappedProbe(key: Bytes, i: nat, a: U64, b: U64)
    requires a == Finalize(Fnv1a(key), 0xff51afd7ed558ccd) && b == Finalize(Djb2(key), 0xc4ceb9fe1a85ec53)
    ensures Probe(key, i, WORD64) == (a + i * b) % WORD64
  {
    hide Finalize, Fnv1a, Djb2;
    Twice(a + i * b);
  }

  lemma {:induction false} ProbeReduces(key: Bytes, i: nat, m: nat)
    requires m > 0
    ensures Probe(key, i, m) == Probe(key, i, WORD64) % m
  {
    hide Finalize, Fnv1a, Djb2;
    Twice(Finalize(Fnv1a(key), 0xff51afd7ed558ccd) + i * Finalize(Djb2(key), 0xc4ceb9fe1a85ec53));
  }

  lemma {:induction false} AdvanceWord(a: U64, b: U64, i: nat)
    ensures (a + 0 * b) % WORD64 == a
    ensures (a + (i + 1) * b) % WORD64 == ((a + i * b) % WORD64 + b) % WORD64
  {
    var w := a + i * b;
    NextMultiple(i, b);
    DivisionOf(w, WORD64);
    AddMultiple(w % WORD64 + b, w / WORD64, WORD64);
  }

  lemma {:induction false} NextMultiple(i: nat, b: nat)
    ensures (i + 1) * b == i * b + b && 0 * b == 0
  {
  }

  lemma {:induction false} Twice(w: nat)
    ensures w % WORD64 % WORD64 == w % WORD64
  {
  }
}
