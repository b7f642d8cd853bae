/** Continuing a hash from its digest: the digest of `key + message` is the iteration's state after the
    padded message, so hashing can go on from there. */
module HashResume {
  import opened Bytes
  import opened MerkleDamgard
  import opened Words

  const KEY_LEN: nat := 16

  /** The keyed hash: a context that absorbs the key, then the message. */
  function NaiveMac(f: Compression, key: Bytes, msg: Bytes): (digest: Bytes)
    ensures |digest| == 32
  {
    Final(f, Update(f, Update(f, Init(), key), msg))
  }

  lemma {:induction false} NaiveMacIsHash(f: Compression, key: Bytes, msg: Bytes)
    ensures NaiveMac(f, key, msg) == Hash(f, key + msg)
  {
    hide Update, Final, Hash;
    assert Absorbed(f, INITIAL, 0, Init(), []);
    UpdateAbsorbs(f, INITIAL, 0, Init(), [], key);
    assert [] + key == key;
    UpdateAbsorbs(f, INITIAL, 0, Update(f, Init(), key), key, msg);
    StreamingIsHash(f, Update(f, Update(f, Init(), key), msg), key + msg);
  }

  // ---- What the code computes ----

  /** The padding the code writes: the bit count is a 32-bit product of a 32-bit length. */
  function PaddingWritten(n: nat): (p: Bytes)
    ensures (n + |p|) % 64 == 0 && 9 <= |p| <= 72
  {
    [0x80] + Zeros(ZerosNeeded(n)) + Big64(8 * (n % WORD32) % WORD32)
  }

  /** The number of bytes hashed before the extension. */
  function Before(msg: Bytes): (n: nat)
    ensures n % 64 == 0 && KEY_LEN + |msg| < n
  {
    KEY_LEN + |msg| + |PaddingWritten(KEY_LEN + |msg|)|
  }

  function Extended(msg: Bytes, extension: Bytes): Bytes {
    msg + PaddingWritten(KEY_LEN + |msg|) + extension
  }

  /** The context the code sets up by hand: no high word of the bit count, nothing buffered. */
  function Resumed(token: Bytes, msg: Bytes): Context
    requires |token| >= 32
  {
    Context(Parse(token[..32]), 8 * Before(msg) % WORD32, [])
  }

  function ResumedDigest(f: Compression, token: Bytes, msg: Bytes, extension: Bytes): (digest: Bytes)
    requires |token| >= 32
    ensures |digest| == 32
  {
    Final(f, Update(f, Resumed(token, msg), extension))
  }

  lemma {:induction false} ParseAt(b: Bytes, i: nat)
    requires |b| % 4 == 0 && 4 * i < |b|
    ensures Parse(b)[i] == UnBig32(b[4 * i..4 * i + 4])
    decreases |b|
  {
    hide UnBig32, Parse;
    var n := |b| - 4;
    ParseSnoc(b);
    if 4 * i < n {
      ParseAt(b[..n], i);
      assert b[..n][4 * i..4 * i + 4] == b[4 * i..4 * i + 4];
    } else {
      assert 4 * i == n;
      assert b[4 * i..4 * i + 4] == b[n..];
    }
  }

  lemma {:induction false} ParseSnoc(b: Bytes)
    requires |b| % 4 == 0 && |b| >= 4
    ensures Parse(b) == Parse(b[..|b| - 4]) + [UnBig32(b[|b| - 4..])]
  {
    hide UnBig32;
  }

  /** `v >> 8 * i`. */
  function ShiftedRight(v: nat, i: nat): nat {
    if i == 0 then v else ShiftedRight(v, i - 1) / 256
  }

  lemma {:induction false} Big64At(v: U32, i: nat)
    requires i < 8
    ensures ShiftedRight(v, i) % 256 == Big64(v)[7 - i] as nat
  {
    Big64Low(v);
    assert Big64(v)[7 - i] == if i < 4 then Big32(v)[3 - i] else 0;
    hide Big64;
    if i >= 4 {
      ShiftedOut(v, i);
    } else {
      ShiftTwice(v);
      ShiftedSteps(v);
    }
  }

  lemma {:induction false} Big64Low(v: U32)
    ensures Big64(v) == [0, 0, 0, 0] + Big32(v)
  {
    assert v / WORD32 == 0 && v % WORD32 == v;
  }

  lemma {:induction false} ShiftedSteps(v: nat)
    ensures ShiftedRight(v, 1) == v / 256
    ensures ShiftedRight(v, 2) == v / 256 / 256
    ensures ShiftedRight(v, 3) == v / 256 / 256 / 256
  {
    assert ShiftedRight(v, 1) == v / 256;
  }

  lemma {:induction false} ShiftedOut(v: U32, i: nat)
    requires i >= 4
    ensures ShiftedRight(v, i) == 0
  {
    if i == 4 {
      ShiftTwice(v);
      ShiftedSteps(v);
    } else {
      ShiftedOut(v, i - 1);
    }
  }

  /** The first padding loop: zeros up to 56 modulo 64. */
  method WriteZeros(length: U32) returns (padding: Bytes)
    ensures padding == [0x80] + Zeros(ZerosNeeded(length))
  {
    hide ZerosNeeded;
    padding := [0x80];
    ghost var zeros: nat := 0;
    while (length + |padding|) % 64 != 56
      invariant padding == [0x80] + Zeros(zeros) && zeros <= ZerosNeeded(length)
      decreases ZerosNeeded(length) - zeros
    {
      padding, zeros := padding + [0x00], zeros + 1;
    }
    ZerosUnique(length, zeros);
  }

  /** All of the padding: after the zeros the bit count, high byte first. */
  method WritePadding(n: nat) returns (padding: Bytes)
    ensures padding == PaddingWritten(n)
  {
    hide Big64, Big32, ShiftedRight, ZerosNeeded;
    var length: U32 := n % WORD32;
    ZerosModulo(length, n);
    padding := WriteZeros(length);
    ghost var start := padding;
    var bits: U32 := 8 * length % WORD32;
    var i := 7;
    while i >= 0
      invariant -1 <= i <= 7 && padding == start + Big64(bits)[..7 - i]
    {
      Big64At(bits, i);
      assert Big64(bits)[..8 - i] == Big64(bits)[..7 - i] + [Big64(bits)[7 - i]];
      padding := padding + [(ShiftedRight(bits, i) % 256) as byte];
      i := i - 1;
    }
  }

  /** Continues the hash with `extension`, from the digest `token` of an unknown key and `original`. */
  method Extend(f: Compression, original: Bytes, token: Bytes, extension: Bytes)
    returns (extended: Bytes, digest: Bytes)
    requires |token| >= 32
    ensures extended == Extended(original, extension)
    ensures digest == ResumedDigest(f, token, original, extension)
  {
    hide Final, Update, Fold, Parse, PaddingWritten;
    ghost var words := Parse(token[..32]);
    var state := new U32[8](_ => 0);
    for i := 0 to 8
      invariant state[..i] == words[..i]
    {
      state[i] := token[4 * i] as nat * 0x100_0000 + token[4 * i + 1] as nat * 0x1_0000
                + token[4 * i + 2] as nat * 0x100 + token[4 * i + 3] as nat;
      ParseAt(token[..32], i);
    }

    var padding := WritePadding(KEY_LEN + |original|);
    extended := original + padding + extension;

    var ctx := Init();
    for j := 0 to 8
      invariant ctx.h[..j] == words[..j]
    {
      ctx := ctx.(h := ctx.h[j := state[..][j]]);
    }
    ctx := ctx.(bits := 8 * (KEY_LEN + |original| + |padding|) % WORD32, data := []);
    assert ctx.h == words;
    digest := Final(f, Update(f, ctx, extension));
  }

  // ---- When the result is right ----

  /** The 32-bit arithmetic writes the true padding as long as the bit count fits. */
  lemma {:induction false} PaddingExact(n: nat)
    requires 8 * n < WORD64
    ensures PaddingWritten(n) == Padding(n) <==> 8 * n < WORD32
  {
    hide Big64, ZerosNeeded;
    var head := [0x80] + Zeros(ZerosNeeded(n));
    TruncatedCount(n);
    assert (head + Big64(8 * (n % WORD32) % WORD32))[|head|..] == Big64(8 * (n % WORD32) % WORD32);
    assert (head + Big64(8 * n))[|head|..] == Big64(8 * n);
    if PaddingWritten(n) == Padding(n) {
      Big64Injective(8 * (n % WORD32) % WORD32, 8 * n);
    }
  }

  lemma {:induction false} TruncatedCount(n: nat)
    ensures 8 * (n % WORD32) % WORD32 == 8 * n % WORD32
    ensures 8 * (n % WORD32) % WORD32 == 8 * n <==> 8 * n < WORD32
  {
    var r, q := n % WORD32, n / WORD32;
    assert 8 * n == 8 * q * WORD32 + 8 * r;
    AddMultiple(8 * r, 8 * q, WORD32);
  }

  /** The padding written, in bytes: like the true one, but for a bit count that is cut to 32 bits. */
  lemma {:induction false} PaddingWrittenBytes(n: nat)
    ensures
      && var p := PaddingWritten(n);
      && 9 <= |p| < 9 + 64 && (n + |p|) % 64 == 0 && p[0] == 0x80
      && (forall i :: 0 < i < |p| - 8 ==> p[i] == 0)
      && Number(p[|p| - 8..]) == 8 * n % 0x1_0000_0000
  {
    hide ZerosNeeded, Big64, Number;
    var p, count := PaddingWritten(n), 8 * (n % WORD32) % WORD32;
    assert p[|p| - 8..] == Big64(count);
    NumberOfCount(count);
    TruncatedCount(n);
    QuotientUnique(count, WORD64, 0, count);
  }

  /** The digest is the state after the padded input. */
  lemma {:induction false} TokenIsState(f: Compression, m: Bytes)
    ensures Parse(Hash(f, m)[..32]) == Fold(f, INITIAL, m + Padding(|m|))
  {
    hide Join, Fold, Parse;
    var h := Fold(f, INITIAL, m + Padding(|m|));
    ParseJoin(h);
    assert Hash(f, m)[..32] == Join(h);
  }

  /** The resumed digest block by block: the chain starts at the words of the token, high byte first,
      and goes through the extension with its padding, in which the bit count is the one given. */
  lemma {:induction false} ResumedIsStandard(f: Compression, token: Bytes, msg: Bytes, x: Bytes, hs: seq<State>)
    requires |token| >= 32
    requires
      && var p := Zeroed(x) + Big64((8 * Before(msg) % WORD32 + 8 * |x|) % WORD64);
      && |hs| == |p| / 64 + 1
      && (forall i :: 0 <= i < 8 ==> hs[0][i] == Number(token[4 * i..4 * i + 4]))
      && forall i :: 0 <= i < |p| / 64 ==> hs[i + 1] == f(hs[i], p[64 * i..64 * i + 64])
    ensures
      forall i :: 0 <= i < 8 ==> Number(ResumedDigest(f, token, msg, x)[4 * i..4 * i + 4]) == hs[|hs| - 1][i]
  {
    hide Update, Final, Big64, Join, Absorbed, Zeroed, Fold, Number, Before;
    var c := Resumed(token, msg);
    TokenWords(token, hs[0]);
    NothingAbsorbed(f, c.h, c.bits);
    UpdateAbsorbs(f, c.h, c.bits, c, [], x);
    assert [] + x == x;
    FinalFolds(f, c.h, c.bits, Update(f, c, x), x);
    FoldChain(f, c.h, Zeroed(x) + Big64((c.bits + 8 * |x|) % WORD64), hs);
    forall i | 0 <= i < 8
      ensures Number(ResumedDigest(f, token, msg, x)[4 * i..4 * i + 4]) == hs[|hs| - 1][i]
    {
      JoinAt(hs[|hs| - 1], i);
    }
  }

  lemma {:induction false} TokenWords(token: Bytes, h: State)
    requires |token| >= 32 && forall i :: 0 <= i < 8 ==> h[i] == Number(token[4 * i..4 * i + 4])
    ensures Parse(token[..32]) == h
  {
    hide Parse, Number;
    forall i | 0 <= i < 8 ensures Parse(token[..32])[i] == h[i] {
      ParseAt(token[..32], i);
      assert token[..32][4 * i..4 * i + 4] == token[4 * i..4 * i + 4];
      NumberOfFour(token[4 * i..4 * i + 4]);
    }
  }

  /** A context resumed after the whole blocks `p` iterates over all of `p + x`, with the bit count it
      was given. */
  lemma {:induction false} ResumeFolds(f: Compression, p: Bytes, bits: nat, x: Bytes)
    requires |p| % 64 == 0 && bits < WORD64
    ensures
      Final(f, Update(f, Context(Fold(f, INITIAL, p), bits, []), x))
      == Join(Fold(f, INITIAL, Zeroed(p + x) + Big64((bits + 8 * |x|) % WORD64)))
  {
    hide Fold, Parse, Update, Final, Big64, Join, Absorbed, Zeroed;
    var h := Fold(f, INITIAL, p);
    var c := Context(h, bits, []);
    NothingAbsorbed(f, h, bits);
    UpdateAbsorbs(f, h, bits, c, [], x);
    assert [] + x == x;
    FinalFolds(f, h, bits, Update(f, c, x), x);
    var count := Big64((bits + 8 * |x|) % WORD64);
    assert (p + x)[..|p|] == p && (p + x)[|p|..] == x;
    ZeroedSplits(p + x, |p|, count);
    FoldAppend(f, INITIAL, p, Zeroed(x) + count);
  }

  /** All that is hashed before the extension. */
  function Hashed(key: Bytes, msg: Bytes): (p: Bytes)
    ensures |p| % 64 == 0
  {
    key + msg + Padding(|key + msg|)
  }

  /** The digest the code computes is the true iteration over key, message, padding and extension, but
      for the bit count at the very end, which lacks everything above 32 bits of the first part. */
  lemma {:induction false} ResumedIterates(f: Compression, key: Bytes, msg: Bytes, x: Bytes)
    requires |key| == 16
    ensures |Hashed(key, msg)| == Before(msg)
    ensures
      ResumedDigest(f, NaiveMac(f, key, msg), msg, x)
      == Join(Fold(f, INITIAL, Zeroed(Hashed(key, msg) + x) + Big64((8 * Before(msg) % WORD32 + 8 * |x|) % WORD64)))
  {
    hide Fold, Parse, Update, Final, ZerosNeeded, Big64, Hash, Join, Zeroed, NaiveMac;
    NaiveMacIsHash(f, key, msg);
    TokenIsState(f, key + msg);
    ResumeFolds(f, Hashed(key, msg), 8 * Before(msg) % WORD32, x);
  }

  /** Resuming is hashing: as long as what precedes the extension is shorter than 2^29 bytes, the
      digest is the keyed hash of the extended message, for every key. */
  lemma {:induction false} ResumedIsMac(f: Compression, key: Bytes, msg: Bytes, extension: Bytes)
    requires |key| == 16 && 8 * Before(msg) < WORD32
    ensures
      && var token := NaiveMac(f, key, msg);
      && ResumedDigest(f, token, msg, extension) == NaiveMac(f, key, Extended(msg, extension))
      && Extended(msg, extension) == msg + Padding(16 + |msg|) + extension
  {
    hide Fold, Parse, Update, Final, Zeroed, Big64, Join, NaiveMac, PaddingWritten, Padding, ResumedDigest;
    ResumedIterates(f, key, msg, extension);
    var e := Hashed(key, msg) + extension;
    var n := KEY_LEN + |msg|;
    PaddingExact(n);
    NaiveMacIsHash(f, key, Extended(msg, extension));
    assert key + Extended(msg, extension) == e;
    PaddedIsZeroed(e);
    Big64Wraps(8 * |e|);
  }

  // ---- When it is not ----

  /** A compression function that keeps the second half of the block it is given. */
  function SecondHalf(h: State, b: Block): State {
    Parse(b[32..])
  }

  lemma {:induction false} FoldSecondHalf(h: State, m: Bytes, n: nat)
    requires |m| % 64 == 0 && |m| >= 64 && n + 8 == |m|
    ensures Join(Fold(SecondHalf, h, m))[24..] == m[n..]
    decreases |m|
  {
    hide Join, Parse;
    if |m| == 64 {
      assert m[64..] == [] && m[..64] == m;
      FoldNothing(SecondHalf, SecondHalf(h, m));
      JoinParse(m[32..]);
      assert m[32..][24..] == m[n..];
    } else {
      FoldSecondHalf(SecondHalf(h, m[..64]), m[64..], n - 64);
      assert m[64..][n - 64..] == m[n..];
    }
  }

  /** From 2^29 bytes on the digest is wrong for this function, whatever the key. */
  lemma {:induction false} ResumedIsNotMac(key: Bytes, msg: Bytes, extension: Bytes)
    requires |key| == 16 && 8 * Before(msg) >= WORD32
    requires 8 * (16 + |Extended(msg, extension)|) < WORD64
    ensures
      && var f := SecondHalf;
      && ResumedDigest(f, NaiveMac(f, key, msg), msg, extension) != NaiveMac(f, key, Extended(msg, extension))
  {
    hide Fold, Parse, Update, Final, ZerosNeeded, Big64, Join, NaiveMac, SecondHalf, PaddingWritten, Zeroed, Hashed;
    var f := SecondHalf;
    ResumedIterates(f, key, msg, extension);
    var z, e := Zeroed(Hashed(key, msg) + extension), key + Extended(msg, extension);
    var told := (8 * Before(msg) % WORD32 + 8 * |extension|) % WORD64;
    FoldSecondHalf(INITIAL, z + Big64(told), |z|);
    assert (z + Big64(told))[|z|..] == Big64(told);
    NaiveMacIsHash(f, key, Extended(msg, extension));
    var y := Zeroed(e);
    PaddedIsZeroed(e);
    FoldSecondHalf(INITIAL, y + Big64(8 * |e|), |y|);
    assert (y + Big64(8 * |e|))[|y|..] == Big64(8 * |e|);
    assert told < WORD32 + 8 * |extension| && told != 8 * |e|;
    if Big64(told) == Big64(8 * |e|) {
      Big64Injective(told, 8 * |e|);
    }
  }

  lemma {:induction false} BeforeIs(msg: Bytes)
    ensures Before(msg) == 16 + |msg| + |Padding(16 + |msg|)|
  {
    hide ZerosNeeded, Big64;
  }

  /** For messages within the limit of the standard, 2^64 bits: whatever the key, the resumed digest is
      the keyed hash of the extended message for every compression function exactly when key, message
      and padding are shorter than 2^29 bytes. */
  lemma {:induction false} ResumeLimit(key: Bytes, msg: Bytes, extension: Bytes)
    requires |key| == 16 && 8 * (16 + |Extended(msg, extension)|) < WORD64
    ensures
      (forall f: Compression ::
         ResumedDigest(f, NaiveMac(f, key, msg), msg, extension) == NaiveMac(f, key, Extended(msg, extension)))
      <==> 16 + |msg| + |Padding(16 + |msg|)| < 0x2000_0000
  {
    hide ResumedDigest, NaiveMac, Extended;
    BeforeIs(msg);
    if Before(msg) < 0x2000_0000 {
      forall f: Compression
        ensures ResumedDigest(f, NaiveMac(f, key, msg), msg, extension) == NaiveMac(f, key, Extended(msg, extension))
      {
        ResumedIsMac(f, key, msg, extension);
      }
    } else {
      ResumedIsNotMac(key, msg, extension);
    }
  }
}
