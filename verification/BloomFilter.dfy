/** A Bloom filter over two 64-bit string hashes, with the wrap-around of unsigned arithmetic. */
module BloomFilter {
  import opened Bytes
  import opened Bits
  import opened Words

  const FNV_BASIS: U64 := 14695981039346656037
  const FNV_PRIME: U64 := 1099511628211
  const DJB2_BASIS: U64 := 5381

  /** `a ^ b` on 64 bits. */
  function Xor64(a: U64, b: U64): U64 {
    WordIsPow2();
    XorFits(a, b, 64);
    Xor(a, b)
  }

  function Fnv1a(s: Bytes): U64 {
    if s == [] then FNV_BASIS
    else Xor64(Fnv1a(s[..|s| - 1]), s[|s| - 1] as nat) * FNV_PRIME % WORD64
  }

  function Djb2(s: Bytes): U64 {
    if s == [] then DJB2_BASIS
    else Xor64(33 * Djb2(s[..|s| - 1]) % WORD64, s[|s| - 1] as nat)
  }

  method Fnv1a64(s: Bytes) returns (hash: U64)
    ensures hash == Fnv1a(s)
  {
    hide Xor64;
    hash := FNV_BASIS;
    for i := 0 to |s|
      invariant hash == Fnv1a(s[..i])
    {
      hash := Xor64(hash, s[i] as nat);
      hash := hash * FNV_PRIME % WORD64;
      assert s[..i + 1][..i] == s[..i];
    }
    assert s[..|s|] == s;
  }

  lemma {:induction false} TimesThirtyThree(hash: U64)
    ensures (hash * 32 % WORD64 + hash) % WORD64 == 33 * hash % WORD64
  {
    assert 33 * hash == hash * 32 / WORD64 * WORD64 + (hash * 32 % WORD64 + hash);
    AddMultiple(hash * 32 % WORD64 + hash, hash * 32 / WORD64, WORD64);
  }

  method Djb264(s: Bytes) returns (hash: U64)
    ensures hash == Djb2(s)
  {
    hide Xor64;
    hash := DJB2_BASIS;
    for i := 0 to |s|
      invariant hash == Djb2(s[..i])
    {
      TimesThirtyThree(hash);
      hash := Xor64((hash * 32 % WORD64 + hash) % WORD64, s[i] as nat);
      assert s[..i + 1][..i] == s[..i];
    }
    assert s[..|s|] == s;
  }

  /** `x ^= x >> 33; x *= factor; x ^= x >> 33`. */
  function Finalize(x: U64, factor: U64): U64 {
    var y := Xor64(x, x / 0x2_0000_0000);
    var z := y * factor % WORD64;
    Xor64(z, z / 0x2_0000_0000)
  }

  /** The position of probe `i` in a filter of `m` bits. */
  function Probe(key: Bytes, i: nat, m: nat): (g: nat)
    requires m > 0
    ensures g < m
  {
    (Finalize(Fnv1a(key), 0xff51afd7ed558ccd) + i * Finalize(Djb2(key), 0xc4ceb9fe1a85ec53)) % WORD64 % m
  }

  /** All `k` probes of a key. */
  function Probes(key: Bytes, k: nat, m: nat): (ps: set<nat>)
    requires m > 0
  {
    set i | 0 <= i < k :: Probe(key, i, m)
  }

  /** The bits that inserting `keys` in order sets. */
  function Marked(keys: seq<Bytes>, k: nat, m: nat): set<nat>
    requires m > 0
  {
    if keys == [] then {} else Marked(keys[..|keys| - 1], k, m) + Probes(keys[|keys| - 1], k, m)
  }

  lemma {:induction false} ProbesGrow(key: Bytes, i: nat, m: nat)
    requires m > 0
    ensures Probes(key, i + 1, m) == Probes(key, i, m) + {Probe(key, i, m)}
  {
    hide Probe;
  }

  lemma {:induction false} MarkedBy(keys: seq<Bytes>, k: nat, m: nat, g: nat)
    requires m > 0
    ensures g in Marked(keys, k, m) <==> exists key :: key in keys && g in Probes(key, k, m)
  {
    hide Probes;
    if keys != [] {
      var n := |keys| - 1;
      MarkedBy(keys[..n], k, m, g);
      assert keys == keys[..n] + [keys[n]];
      if g in Probes(keys[n], k, m) {
        assert keys[n] in keys;
      } else if key :| key in keys && g in Probes(key, k, m) {
        assert key in keys[..n];
      }
    }
  }

  /** Neither the order of insertions nor their repetition matters, and more keys set more bits. */
  lemma {:induction false} OrderDoesNotMatter(a: seq<Bytes>, b: seq<Bytes>, k: nat, m: nat)
    requires m > 0 && forall key :: key in a ==> key in b
    ensures Marked(a, k, m) <= Marked(b, k, m)
    ensures (forall key :: key in b ==> key in a) ==> Marked(a, k, m) == Marked(b, k, m)
  {
    hide Marked, Probes;
    forall g: nat
      ensures g in Marked(a, k, m) ==> g in Marked(b, k, m)
      ensures (forall key :: key in b ==> key in a) && g in Marked(b, k, m) ==> g in Marked(a, k, m)
    {
      MarkedBy(a, k, m, g);
      MarkedBy(b, k, m, g);
    }
  }

  /** The answer of `contains` for a filter that `keys` were inserted into. */
  ghost predicate Answers(keys: seq<Bytes>, key: Bytes, k: nat, m: nat)
    requires m > 0
  {
    Probes(key, k, m) <= Marked(keys, k, m)
  }

  /** No false negatives. */
  lemma {:induction false} NoFalseNegatives(keys: seq<Bytes>, key: Bytes, k: nat, m: nat)
    requires m > 0 && key in keys
    ensures Answers(keys, key, k, m)
  {
    hide Marked, Probes;
    forall g | g in Probes(key, k, m) ensures g in Marked(keys, k, m) {
      MarkedBy(keys, k, m, g);
    }
  }

  /** Probe `i` of `key` hits a bit that some inserted key set. */
  ghost predicate ProbeMet(keys: seq<Bytes>, key: Bytes, i: nat, k: nat, m: nat)
    requires m > 0
  {
    exists other, j :: other in keys && 0 <= j < k && Probe(other, j, m) == Probe(key, i, m)
  }

  /** A false positive is exactly a key each of whose probes meets a probe of some inserted key. */
  lemma {:induction false} FalsePositives(keys: seq<Bytes>, key: Bytes, k: nat, m: nat)
    requires m > 0
    ensures
      Answers(keys, key, k, m) <==>
      forall i :: 0 <= i < k ==> ProbeMet(keys, key, i, k, m)
  {
    hide Marked, Probe, Probes;
    forall i | 0 <= i < k ensures ProbeMet(keys, key, i, k, m) <==> Probe(key, i, m) in Marked(keys, k, m) {
      MarkedBy(keys, k, m, Probe(key, i, m));
      forall other: Bytes { ProbesHas(other, k, m, Probe(key, i, m)); }
    }
    forall g: nat { ProbesHas(key, k, m, g); }
  }

  lemma {:induction false} ProbesHas(key: Bytes, k: nat, m: nat, g: nat)
    requires m > 0
    ensures g in Probes(key, k, m) <==> exists i :: 0 <= i < k && Probe(key, i, m) == g
  {
    hide Probe;
  }

  lemma {:induction false} NoProbes(key: Bytes, m: nat)
    requires m > 0
    ensures Probes(key, 0, m) == {}
  {
  }

  lemma {:induction false} MarkedGrows(keys: seq<Bytes>, key: Bytes, k: nat, m: nat)
    requires m > 0
    ensures Marked(keys + [key], k, m) == Marked(keys, k, m) + Probes(key, k, m)
  {
    hide Probes;
    assert (keys + [key])[..|keys|] == keys;
  }

  class BloomFilter {
    const m: nat
    const k: nat
    const bits: array<bool>
    var nInserted: nat
    ghost var keys: seq<Bytes>

    ghost predicate Valid()
      reads this, bits
    {
      && m == bits.Length > 0 && k >= 1
      && nInserted == |keys| % WORD64
      && forall g :: 0 <= g < m ==> (bits[g] <==> g in Marked(keys, k, m))
    }

    /** The sizes the source derives from floating-point logarithms are given. */
    constructor (m: nat, k: nat)
      requires m > 0 && k >= 1
      ensures Valid() && keys == [] && this.m == m && this.k == k && fresh(bits)
    {
      this.m, this.k, nInserted := m, k, 0;
      bits := new bool[m](_ => false);
      keys := [];
    }

    method HashI(key: Bytes, i: nat) returns (g: nat)
      requires m > 0
      ensures g == Probe(key, i, m)
    {
      hide Fnv1a, Djb2, Xor64;
      var a := Fnv1a64(key);
      var b := Djb264(key);
      a := Xor64(a, a / 0x2_0000_0000);
      a := a * 0xff51afd7ed558ccd % WORD64;
      a := Xor64(a, a / 0x2_0000_0000);
      b := Xor64(b, b / 0x2_0000_0000);
      b := b * 0xc4ceb9fe1a85ec53 % WORD64;
      b := Xor64(b, b / 0x2_0000_0000);
      g := (a + i * b) % WORD64 % m;
    }

    method Insert(key: Bytes)
      requires Valid()
      modifies this`nInserted, this`keys, bits
      ensures Valid() && keys == old(keys) + [key]
    {
      hide Probe, Probes, Marked;
      NoProbes(key, m);
      for i := 0 to k
        invariant keys == old(keys) && nInserted == old(nInserted)
        invariant forall g :: 0 <= g < m ==> (bits[g] <==> g in Marked(keys, k, m) + Probes(key, i, m))
      {
        var g := HashI(key, i);
        ProbesGrow(key, i, m);
        bits[g] := true;
      }
      MarkedGrows(keys, key, k, m);
      nInserted := (nInserted + 1) % WORD64;
      keys := keys + [key];
    }

    method Contains(key: Bytes) returns (found: bool)
      requires Valid()
      ensures found <==> Answers(keys, key, k, m)
    {
      hide Probe, Marked;
      for i := 0 to k
        invariant forall j :: 0 <= j < i ==> Probe(key, j, m) in Marked(keys, k, m)
      {
        var g := HashI(key, i);
        if !bits[g] {
          return false;
        }
      }
      return true;
    }
  }
}
