/** SHA-256 around an arbitrary compression function: padding, parsing and iteration as sections 5.1.1,
    5.2.1 and 6.2.2 of FIPS 180-4 define them, and the streaming interface of a hashing context. */
module MerkleDamgard {
  import opened Bytes
  import opened Words

  type State = s: seq<U32> | |s| == 8 witness [0, 0, 0, 0, 0, 0, 0, 0]
  type Block = b: Bytes | |b| == 64 witness Zeros(64)
  type Compression = (State, Block) -> State

  /** The initial hash value, section 5.3.3 of FIPS 180-4. */
  const INITIAL: State := [
    0x6a09e667, 0xbb67ae85, 0x3c6ef372, 0xa54ff53a, 0x510e527f, 0x9b05688c, 0x1f83d9ab, 0x5be0cd19
  ]

  // ---- Big-endian numbers ----

  function Big32(n: nat): (b: Bytes)
    ensures |b| == 4
  {
    [(n / 0x100_0000 % 256) as byte, (n / 0x1_0000 % 256) as byte, (n / 0x100 % 256) as byte, (n % 256) as byte]
  }

  function UnBig32(b: Bytes): U32
    requires |b| == 4
  {
    b[0] as nat * 0x100_0000 + b[1] as nat * 0x1_0000 + b[2] as nat * 0x100 + b[3] as nat
  }

  function Big64(n: nat): (b: Bytes)
    ensures |b| == 8
  {
    Big32(n / WORD32 % WORD32) + Big32(n % WORD32)
  }

  lemma {:induction false} Big32RoundTrip(n: U32)
    ensures UnBig32(Big32(n)) == n
  {
    ShiftTwice(n);
    var q1, q2 := n / 0x100, n / 0x100 / 0x100;
    assert n == 256 * q1 + n % 256 && q1 == 256 * q2 + q1 % 256;
    assert q2 == 256 * (q2 / 256) + q2 % 256;
  }

  lemma {:induction false} UnBig32RoundTrip(b: Bytes)
    requires |b| == 4
    ensures Big32(UnBig32(b)) == b
  {
    var q2 := 256 * b[0] as nat + b[1] as nat;
    var q1 := 256 * q2 + b[2] as nat;
    var n := UnBig32(b);
    Shift(b[0] as nat, b[1] as nat);
    Shift(q2, b[2] as nat);
    Shift(q1, b[3] as nat);
    ShiftTwice(n);
    assert n == 256 * q1 + b[3] as nat;
  }

  lemma {:induction false} Big64Injective(m: nat, n: nat)
    requires m < WORD64 && n < WORD64 && Big64(m) == Big64(n)
    ensures m == n
  {
    hide Big32;
    hide UnBig32;
    assert Big64(m)[..4] == Big32(m / WORD32 % WORD32) && Big64(m)[4..] == Big32(m % WORD32);
    assert Big64(n)[..4] == Big32(n / WORD32 % WORD32) && Big64(n)[4..] == Big32(n % WORD32);
    Big32RoundTrip(m / WORD32);
    Big32RoundTrip(m % WORD32);
    Big32RoundTrip(n / WORD32);
    Big32RoundTrip(n % WORD32);
  }

  function Join(s: seq<U32>): (b: Bytes)
    ensures |b| == 4 * |s|
  {
    if s == [] then [] else Join(s[..|s| - 1]) + Big32(s[|s| - 1])
  }

  function Parse(b: Bytes): (s: seq<U32>)
    requires |b| % 4 == 0
    ensures |s| == |b| / 4
  {
    if b == [] then [] else Parse(b[..|b| - 4]) + [UnBig32(b[|b| - 4..])]
  }

  lemma {:induction false} ParseJoin(s: seq<U32>)
    ensures Parse(Join(s)) == s
  {
    hide Big32, UnBig32;
    if s != [] {
      var t := s[..|s| - 1];
      ParseJoin(t);
      Big32RoundTrip(s[|s| - 1]);
      assert Join(s)[..4 * |t|] == Join(t) && Join(s)[4 * |t|..] == Big32(s[|s| - 1]);
    }
  }

  lemma {:induction false} JoinParse(b: Bytes)
    requires |b| % 4 == 0
    ensures Join(Parse(b)) == b
  {
    hide Big32, UnBig32;
    if b != [] {
      var n := |b| - 4;
      JoinParse(b[..n]);
      UnBig32RoundTrip(b[n..]);
      assert Parse(b) == Parse(b[..n]) + [UnBig32(b[n..])];
      assert Parse(b)[..|Parse(b)| - 1] == Parse(b[..n]);
      assert b == b[..n] + b[n..];
    }
  }

  // ---- The one-shot hash ----

  /** The number of zero bytes that bring `n` bytes and the byte 0x80 to 56 modulo 64. */
  function ZerosNeeded(n: nat): (k: nat)
    ensures (n + 1 + k) % 64 == 56 && (n + 9 + k) % 64 == 0 && k < 64
  {
    var k := (55 - n) % 64;
    assert n + 1 + k == 64 * ((n + k + 9) / 64 - 1) + 56;
    k
  }

  /** The padding of a message of `n` bytes. */
  function Padding(n: nat): (p: Bytes)
    ensures (n + |p|) % 64 == 0 && 9 <= |p| <= 72
  {
    [0x80] + Zeros(ZerosNeeded(n)) + Big64(8 * n)
  }

  function Fold(f: Compression, h: State, m: Bytes): State
    requires |m| % 64 == 0
    decreases |m|
  {
    if m == [] then h else Fold(f, f(h, m[..64]), m[64..])
  }

  function Hash(f: Compression, m: Bytes): (digest: Bytes)
    ensures |digest| == 32
  {
    Join(Fold(f, INITIAL, m + Padding(|m|)))
  }

  lemma {:induction false} FoldAppend(f: Compression, h: State, m: Bytes, x: Bytes)
    requires |m| % 64 == 0 && |x| % 64 == 0
    ensures Fold(f, h, m + x) == Fold(f, Fold(f, h, m), x)
    decreases |m|
  {
    if m == [] {
      assert m + x == x;
    } else {
      assert (m + x)[..64] == m[..64] && (m + x)[64..] == m[64..] + x;
      FoldAppend(f, f(h, m[..64]), m[64..], x);
    }
  }

  // ---- What the definitions amount to, byte by byte ----

  /** One block is compressed once. */
  lemma {:induction false} FoldOneBlock(f: Compression, h: State, b: Block)
    ensures Fold(f, h, b) == f(h, b)
  {
    assert b[..64] == b && b[64..] == [];
    FoldNothing(f, f(h, b));
  }

  /** Section 6.2.2: whatever chain of states starts with `h` and continues by compressing one block
      after the other, its last state is the result. */
  lemma {:induction false} FoldChain(f: Compression, h: State, m: Bytes, hs: seq<State>)
    requires |m| % 64 == 0 && |hs| == |m| / 64 + 1 && hs[0] == h
    requires forall i :: 0 <= i < |m| / 64 ==> hs[i + 1] == f(hs[i], m[64 * i..64 * i + 64])
    ensures Fold(f, h, m) == hs[|m| / 64]
    decreases |m|
  {
    var n := |m| / 64;
    if n == 0 {
      FoldNothing(f, h);
    } else {
      var k := 64 * (n - 1);
      var front, last := m[..k], m[k..];
      hide Fold;
      forall i | 0 <= i < n - 1 ensures hs[i + 1] == f(hs[i], front[64 * i..64 * i + 64]) {
        assert front[64 * i..64 * i + 64] == m[64 * i..64 * i + 64];
      }
      FoldChain(f, h, front, hs[..n]);
      assert m == front + last;
      FoldAppend(f, h, front, last);
      FoldOneBlock(f, hs[n - 1], last);
      assert last == m[64 * (n - 1)..64 * (n - 1) + 64];
    }
  }

  /** There is such a chain. */
  lemma {:induction false} ChainExists(f: Compression, h: State, m: Bytes) returns (hs: seq<State>)
    requires |m| % 64 == 0
    ensures |hs| == |m| / 64 + 1 && hs[0] == h
    ensures forall i :: 0 <= i < |m| / 64 ==> hs[i + 1] == f(hs[i], m[64 * i..64 * i + 64])
    decreases |m|
  {
    hs := [h];
    var n := 0;
    while n < |m| / 64
      invariant n <= |m| / 64 && |hs| == n + 1 && hs[0] == h
      invariant forall i :: 0 <= i < n ==> hs[i + 1] == f(hs[i], m[64 * i..64 * i + 64])
    {
      hs := hs + [f(hs[n], m[64 * n..64 * n + 64])];
      n := n + 1;
    }
  }

  /** The number that bytes stand for, the first being the most significant. */
  function Number(b: Bytes): nat {
    if b == [] then 0 else 256 * Number(b[..|b| - 1]) + b[|b| - 1] as nat
  }

  lemma {:induction false} NumberOfFour(b: Bytes)
    requires |b| == 4
    ensures Number(b) == UnBig32(b)
  {
    assert b[..3][..2] == b[..2] && b[..2][..1] == b[..1] && b[..1][..0] == [];
    assert Number(b[..1]) == b[0] as nat;
    assert Number(b[..2]) == 256 * b[0] as nat + b[1] as nat;
    assert Number(b[..3]) == 256 * Number(b[..2]) + b[2] as nat;
  }

  lemma {:induction false} NumberJoins(a: Bytes, b: Bytes)
    requires |b| == 4
    ensures Number(a + b) == WORD32 * Number(a) + Number(b)
  {
    var c := a + b;
    assert c[..|c| - 1] == a + b[..3];
    assert c[..|c| - 1][..|c| - 2] == a + b[..2];
    assert (a + b[..2])[..|a| + 1] == a + b[..1];
    assert (a + b[..1])[..|a|] == a;
    assert Number(a + b[..1]) == 256 * Number(a) + b[0] as nat;
    assert Number(a + b[..2]) == 256 * Number(a + b[..1]) + b[1] as nat;
    assert Number(a + b[..3]) == 256 * Number(a + b[..2]) + b[2] as nat;
    NumberOfFour(b);
  }

  lemma {:induction false} NumberOfCount(n: nat)
    ensures Number(Big64(n)) == n % WORD64
  {
    var hi, lo := n / WORD32 % WORD32, n % WORD32;
    NumberJoins(Big32(hi), Big32(lo));
    NumberOfFour(Big32(hi));
    NumberOfFour(Big32(lo));
    Big32RoundTrip(hi);
    Big32RoundTrip(lo);
    var q := n / WORD32;
    DivisionOf(n, WORD32);
    DivisionOf(q, WORD32);
    QuotientUnique(n, WORD64, q / WORD32, hi * WORD32 + lo);
  }

  /** Section 5.1.1, in bytes: 0x80, zeros, and the bit count as a big-endian number; the shortest that
      fills whole blocks. */
  lemma {:induction false} PaddingBytes(n: nat)
    ensures
      && var p := Padding(n);
      && 9 <= |p| < 9 + 64 && (n + |p|) % 64 == 0 && p[0] == 0x80
      && (forall i :: 0 < i < |p| - 8 ==> p[i] == 0)
      && Number(p[|p| - 8..]) == 8 * n % 0x1_0000_0000_0000_0000
  {
    hide ZerosNeeded, Big64;
    var p := Padding(n);
    assert p[|p| - 8..] == Big64(8 * n);
    NumberOfCount(8 * n);
  }

  lemma {:induction false} JoinAt(s: seq<U32>, i: nat)
    requires i < |s|
    ensures Number(Join(s)[4 * i..4 * i + 4]) == s[i]
    decreases |s|
  {
    hide Big32, Number;
    var n := |s| - 1;
    var front, last := Join(s[..n]), Big32(s[n]);
    assert Join(s) == front + last;
    if i < n {
      JoinAt(s[..n], i);
      assert (front + last)[4 * i..4 * i + 4] == front[4 * i..4 * i + 4];
    } else {
      assert (front + last)[4 * i..4 * i + 4] == last;
      NumberOfFour(last);
      Big32RoundTrip(s[n]);
    }
  }

  /** The digest as the standard describes it: pad the message, compress one block after the other from
      the initial hash value, and write the last state out word by word, high byte first. */
  lemma {:induction false} HashIsStandard(f: Compression, m: Bytes, hs: seq<State>)
    requires
      && var p := m + Padding(|m|);
      && |hs| == |p| / 64 + 1
      && hs[0] == [0x6a09e667, 0xbb67ae85, 0x3c6ef372, 0xa54ff53a, 0x510e527f, 0x9b05688c, 0x1f83d9ab, 0x5be0cd19]
      && forall i :: 0 <= i < |p| / 64 ==> hs[i + 1] == f(hs[i], p[64 * i..64 * i + 64])
    ensures forall i :: 0 <= i < 8 ==> Number(Hash(f, m)[4 * i..4 * i + 4]) == hs[|hs| - 1][i]
  {
    hide Padding, Fold, Join, Number;
    FoldChain(f, INITIAL, m + Padding(|m|), hs);
    forall i | 0 <= i < 8 ensures Number(Hash(f, m)[4 * i..4 * i + 4]) == hs[|hs| - 1][i] {
      JoinAt(hs[|hs| - 1], i);
    }
  }

  /** A message of fewer than 56 bytes takes one block, compressed once: the message, 0x80, zeros, and
      the bit count in the last two bytes. */
  lemma {:induction false} ShortMessage(f: Compression, m: Bytes, block: Block)
    requires |m| < 56 && block[..|m|] == m && block[|m|] == 0x80
    requires forall i :: |m| < i < 62 ==> block[i] == 0
    requires block[62] as nat == 8 * |m| / 256 && block[63] as nat == 8 * |m| % 256
    ensures
      Hash(f, m) == Join(f([0x6a09e667, 0xbb67ae85, 0x3c6ef372, 0xa54ff53a, 0x510e527f, 0x9b05688c, 0x1f83d9ab, 0x5be0cd19],
                           block))
  {
    hide Fold, Join;
    var n := |m|;
    ZerosUnique(n, 55 - n);
    SmallCount(8 * n);
    hide ZerosNeeded, Big64;
    var p := m + Padding(n);
    assert p == m + [0x80] + Zeros(55 - n) + [0, 0, 0, 0, 0, 0, (8 * n / 256) as byte, (8 * n % 256) as byte];
    forall i | 0 <= i < 64 ensures p[i] == block[i] {
      if i < n { assert block[i] == block[..n][i]; }
    }
    assert p == block;
    FoldOneBlock(f, INITIAL, block);
  }

  lemma {:induction false} SmallCount(n: nat)
    requires n < 0x1_0000
    ensures Big64(n) == [0, 0, 0, 0, 0, 0, (n / 256) as byte, (n % 256) as byte]
  {
  }

  /** Only the length modulo 64 matters for the number of zeros, and there is no choice. */
  lemma {:induction false} ZerosUnique(n: nat, k: nat)
    requires k < 64 && (n + 1 + k) % 64 == 56
    ensures k == ZerosNeeded(n)
  {
  }

  lemma {:induction false} ZerosModulo(m: nat, n: nat)
    requires m % 64 == n % 64
    ensures ZerosNeeded(m) == ZerosNeeded(n)
  {
  }

  /** A message with everything that comes before its bit count. */
  function Zeroed(m: Bytes): (z: Bytes)
    ensures (|z| + 8) % 64 == 0
  {
    m + [0x80] + Zeros(ZerosNeeded(|m|))
  }

  lemma {:induction false} PaddedIsZeroed(m: Bytes)
    ensures m + Padding(|m|) == Zeroed(m) + Big64(8 * |m|)
  {
    hide ZerosNeeded, Big64;
  }

  lemma {:induction false} ZeroedSplits(m: Bytes, w: nat, count: Bytes)
    requires w <= |m| && w % 64 == 0
    ensures m[..w] + (Zeroed(m[w..]) + count) == Zeroed(m) + count
  {
    ZerosModulo(|m| - w, |m|);
    hide ZerosNeeded;
    assert m == m[..w] + m[w..];
  }

  // ---- The streaming context ----

  /** `h`, the 64-bit bit count held in `Nh` and `Nl`, and the buffered bytes of an incomplete block. */
  datatype Context = Context(h: State, bits: nat, data: Bytes)

  function Init(): Context {
    Context(INITIAL, 0, [])
  }

  function Whole(n: nat): (w: nat)
    ensures w % 64 == 0 && w <= n < w + 64
  {
    n / 64 * 64
  }

  function Update(f: Compression, c: Context, x: Bytes): Context {
    var d := c.data + x;
    var w := Whole(|d|);
    Context(Fold(f, c.h, d[..w]), (c.bits + 8 * |x|) % WORD64, d[w..])
  }

  function Final(f: Compression, c: Context): (digest: Bytes)
    ensures |digest| == 32
  {
    Join(Fold(f, c.h, Zeroed(c.data) + Big64(c.bits)))
  }

  /** `c` is the context after absorbing `m`, started at `h` with `bits` counted before it. */
  ghost predicate Absorbed(f: Compression, h: State, bits: nat, c: Context, m: Bytes) {
    var w := Whole(|m|);
    && c.h == Fold(f, h, m[..w]) && c.data == m[w..]
    && c.bits == (bits + 8 * |m|) % WORD64
  }

  lemma {:induction false} WholeAdds(m: nat, n: nat)
    ensures Whole(m + n) == Whole(m) + Whole(m - Whole(m) + n)
  {
  }

  lemma {:induction false} CountAdds(m: nat, n: nat)
    ensures (m % WORD64 + n) % WORD64 == (m + n) % WORD64
  {
  }

  lemma {:induction false} NothingAbsorbed(f: Compression, h: State, bits: nat)
    requires bits < WORD64
    ensures Absorbed(f, h, bits, Context(h, bits, []), [])
  {
    hide Fold;
    FoldNothing(f, h);
    var none: Bytes := [];
    assert none[..Whole(0)] == none && none[Whole(0)..] == none;
  }

  lemma {:induction false} FoldNothing(f: Compression, h: State)
    ensures Fold(f, h, []) == h
  {
  }

  lemma {:induction false} UpdateAbsorbs(f: Compression, h: State, bits: nat, c: Context, m: Bytes, x: Bytes)
    requires Absorbed(f, h, bits, c, m)
    ensures Absorbed(f, h, bits, Update(f, c, x), m + x)
  {
    hide Fold, Whole;
    var v := Whole(|m|);
    var d := m[v..] + x;
    var w := Whole(|d|);
    WholeAdds(|m|, |x|);
    CountAdds(bits + 8 * |m|, 8 * |x|);
    assert (m + x)[..v + w] == m[..v] + d[..w] && (m + x)[v + w..] == d[w..];
    FoldAppend(f, h, m[..v], d[..w]);
  }

  /** What `Final` computes: the iteration over everything absorbed, padded, but with the length it
      was told. */
  lemma {:induction false} FinalFolds(f: Compression, h: State, bits: nat, c: Context, m: Bytes)
    requires Absorbed(f, h, bits, c, m)
    ensures Final(f, c) == Join(Fold(f, h, Zeroed(m) + Big64((bits + 8 * |m|) % WORD64)))
  {
    hide Fold, Whole, Zeroed, Big64;
    var w := Whole(|m|);
    ZeroedSplits(m, w, Big64(c.bits));
    FoldAppend(f, h, m[..w], Zeroed(m[w..]) + Big64(c.bits));
  }

  lemma {:induction false} Big64Wraps(n: nat)
    ensures Big64(n % WORD64) == Big64(n)
  {
    var m := n % WORD64;
    assert n == n / WORD64 * WORD64 + m;
    assert n % WORD32 == m % WORD32;
    assert n / WORD32 % WORD32 == m / WORD32 % WORD32;
  }

  /** Streaming computes the one-shot hash. */
  lemma {:induction false} StreamingIsHash(f: Compression, c: Context, m: Bytes)
    requires Absorbed(f, INITIAL, 0, c, m)
    ensures Final(f, c) == Hash(f, m)
  {
    hide Fold, Join, Final, Zeroed, Padding, Big64;
    FinalFolds(f, INITIAL, 0, c, m);
    Big64Wraps(8 * |m|);
    PaddedIsZeroed(m);
  }
}
