/** The file format of a flushed memtable: for each entry, in key order, the key's length as four
    bytes, the key, the value's length as four bytes, the value. */
module SSTable {
  import opened Wrappers
  import opened Bytes
  import opened Words

  datatype Entry = Entry(key: Bytes, value: Bytes)

  /** A uint32_t as it lies in memory, least significant byte first; longer lengths are cut. */
  function Word(n: nat): (b: Bytes)
    ensures |b| == 4
  {
    [(n % 256) as byte, (n / 256 % 256) as byte, (n / 65536 % 256) as byte, (n / 16777216 % 256) as byte]
  }

  function UnWord(b: Bytes): (n: nat)
    requires |b| == 4
    ensures n < WORD32
  {
    b[0] as nat + 256 * b[1] as nat + 65536 * b[2] as nat + 16777216 * b[3] as nat
  }

  lemma {:induction false} WordRoundTrip(n: nat)
    ensures UnWord(Word(n)) == n % WORD32
    ensures n < WORD32 ==> UnWord(Word(n)) == n
  {
    ShiftTwice(n);
    var q1, q2, q3 := n / 256, n / 256 / 256, n / 256 / 256 / 256;
    DivisionOf(n, 256);
    DivisionOf(q1, 256);
    DivisionOf(q2, 256);
    DivisionOf(q3, 256);
    QuotientUnique(n, WORD32, q3 / 256, UnWord(Word(n)));
    if n < WORD32 {
      QuotientUnique(n, WORD32, 0, n);
    }
  }

  function EncodeEntry(e: Entry): (b: Bytes)
    ensures |b| == 8 + |e.key| + |e.value|
  {
    Word(|e.key|) + e.key + Word(|e.value|) + e.value
  }

  /** An entry in bytes: each length as a little-endian number of four bytes, in front of what it is the
      length of. */
  lemma {:induction false} EntryBytes(e: Entry)
    requires |e.key| < 0x1_0000_0000 && |e.value| < 0x1_0000_0000
    ensures
      && var b, k := EncodeEntry(e), |e.key|;
      && |b| == 8 + k + |e.value|
      && b[0] as nat + 0x100 * b[1] as nat + 0x1_0000 * b[2] as nat + 0x100_0000 * b[3] as nat == k
      && b[4..4 + k] == e.key
      && (b[4 + k] as nat + 0x100 * b[5 + k] as nat + 0x1_0000 * b[6 + k] as nat + 0x100_0000 * b[7 + k] as nat
          == |e.value|)
      && b[8 + k..] == e.value
  {
    var b, k := EncodeEntry(e), |e.key|;
    WordRoundTrip(k);
    WordRoundTrip(|e.value|);
    hide Word;
    var w, v := Word(k), Word(|e.value|);
    assert b[..4] == w && b[4 + k..8 + k] == v;
    assert b[0] == w[0] && b[1] == w[1] && b[2] == w[2] && b[3] == w[3];
    assert b[4 + k] == v[0] && b[5 + k] == v[1] && b[6 + k] == v[2] && b[7 + k] == v[3];
  }

  function Encode(es: seq<Entry>): Bytes {
    if es == [] then [] else EncodeEntry(es[0]) + Encode(es[1..])
  }

  /** One turn of the reading loop: nothing, a last entry whose value is cut short, or an entry
      and the bytes after it. */
  datatype Reading = Nothing | Last(e: Entry) | More(e: Entry, rest: Bytes)

  function ReadEntry(b: Bytes): (r: Reading)
    ensures r.More? ==> |r.rest| < |b|
  {
    if |b| < 4 then Nothing else
      var keyLen, b1 := UnWord(b[..4]), b[4..];
      if |b1| < keyLen + 4 then Nothing else
        var key, b2 := b1[..keyLen], b1[keyLen..];
        var valLen, b3 := UnWord(b2[..4]), b2[4..];
        if |b3| < valLen then Last(Entry(key, b3 + Zeros(valLen - |b3|)))
        else More(Entry(key, b3[..valLen]), b3[valLen..])
  }

  /** What `readSSTable` makes of the bytes of a file. A key or a length that is cut short ends the
      table; a value that is cut short is padded with zeros and kept. */
  function Decode(b: Bytes): seq<Entry>
    decreases |b|
  {
    match ReadEntry(b)
    case Nothing => []
    case Last(e) => [e]
    case More(e, rest) => [e] + Decode(rest)
  }

  predicate Fits(e: Entry) {
    |e.key| < WORD32 && |e.value| < WORD32
  }

  lemma {:induction false} DecodedFit(b: Bytes)
    ensures forall e :: e in Decode(b) ==> Fits(e)
    decreases |b|
  {
    var r := ReadEntry(b);
    if r.More? {
      DecodedFit(r.rest);
    }
  }

  lemma {:induction false} Regroup(a: Bytes, b: Bytes, c: Bytes, d: Bytes, e: Bytes)
    ensures a + b + c + d + e == a + (b + (c + (d + e)))
  {
  }

  /** What the reads of a key, a length and a value find in the first `p` bytes of an entry. */
  lemma {:induction false} EntryParts(e: Entry, rest: Bytes, p: nat)
    requires Fits(e) && p <= 8 + |e.key| + |e.value| + |rest|
    ensures var b, k, v := (EncodeEntry(e) + rest)[..p], |e.key|, |e.value|;
            && (p >= 4 ==> UnWord(b[..4]) == k)
            && (p >= 8 + k ==>
                  && b[4..][..k] == e.key && UnWord(b[4..][k..][..4]) == v
                  && b[4..][k..][4..] == (e.value + rest)[..p - 8 - k])
  {
    hide Word;
    hide UnWord;
    var k, v := |e.key|, |e.value|;
    WordRoundTrip(k);
    WordRoundTrip(v);
    var t3 := e.value + rest;
    var t2 := Word(v) + t3;
    var t1 := e.key + t2;
    Regroup(Word(k), e.key, Word(v), e.value, rest);
    if p >= 4 {
      Peel(Word(k), t1, p);
    }
    if p >= 8 + k {
      Peel(e.key, t2, p - 4);
      Peel(Word(v), t3, p - 4 - k);
    }
  }

  lemma {:induction false} ReadWhole(b: Bytes, key: Bytes, v: nat, b3: Bytes)
    requires |b| >= 8 + |key| && UnWord(b[..4]) == |key| && b[4..][..|key|] == key
    requires UnWord(b[4..][|key|..][..4]) == v && b3 == b[4..][|key|..][4..]
    ensures ReadEntry(b) == if |b3| < v then Last(Entry(key, b3 + Zeros(v - |b3|))) else More(Entry(key, b3[..v]), b3[v..])
  {
    hide UnWord;
  }

  lemma {:induction false} ReadShort(b: Bytes, k: nat)
    requires |b| < 4 || (UnWord(b[..4]) == k && |b| < 8 + k)
    ensures ReadEntry(b) == Nothing
  {
    hide UnWord;
  }

  /** Reading an entry of which the last bytes may be missing. */
  lemma {:induction false} ReadStep(e: Entry, rest: Bytes, p: nat)
    requires Fits(e) && p <= 8 + |e.key| + |e.value| + |rest|
    ensures ReadEntry((EncodeEntry(e) + rest)[..p]) ==
            if p < 8 + |e.key| then Nothing
            else if p < 8 + |e.key| + |e.value| then
              Last(Entry(e.key, e.value[..p - 8 - |e.key|] + Zeros(8 + |e.key| + |e.value| - p)))
            else More(e, rest[..p - 8 - |e.key| - |e.value|])
  {
    hide ReadEntry;
    hide EncodeEntry;
    hide UnWord;
    var b, k, v := (EncodeEntry(e) + rest)[..p], |e.key|, |e.value|;
    EntryParts(e, rest, p);
    if p < 8 + k {
      ReadShort(b, k);
    } else {
      ReadWhole(b, e.key, v, b[4..][k..][4..]);
      if p >= 8 + k + v {
        Peel(e.value, rest, p - 8 - k);
      } else {
        assert (e.value + rest)[..p - 8 - k] == e.value[..p - 8 - k];
      }
    }
  }

  /** The entries of a table of which only the first `p` bytes reached the disk. */
  function Torn(es: seq<Entry>, p: nat): seq<Entry> {
    if es == [] then []
    else
      var k, v := |es[0].key|, |es[0].value|;
      if p < 8 + k then []
      else if p < 8 + k + v then [Entry(es[0].key, es[0].value[..p - 8 - k] + Zeros(8 + k + v - p))]
      else [es[0]] + Torn(es[1..], p - 8 - k - v)
  }

  lemma {:induction false} TornFile(es: seq<Entry>, p: nat)
    requires (forall e :: e in es ==> Fits(e)) && p <= |Encode(es)|
    ensures Decode(Encode(es)[..p]) == Torn(es, p)
  {
    hide EncodeEntry;
    hide ReadEntry;
    if es == [] {
      ReadShort(Encode(es)[..p], 0);
    } else {
      var e, rest := es[0], Encode(es[1..]);
      ReadStep(e, rest, p);
      if p >= 8 + |e.key| + |e.value| {
        TornFile(es[1..], p - 8 - |e.key| - |e.value|);
      }
    }
  }

  /** `r` is `e` with the value's bytes from `have` on lost: the key and the length are right, and
      the missing bytes are zero. */
  predicate Damaged(e: Entry, r: Entry, have: nat) {
    && r.key == e.key && |r.value| == |e.value| && have < |e.value|
    && r.value[..have] == e.value[..have]
    && forall j :: have <= j < |e.value| ==> r.value[j] == 0
  }

  ghost predicate ReadsAsPrefix(es: seq<Entry>, r: seq<Entry>) {
    || (exists i :: 0 <= i <= |es| && r == es[..i])
    || (exists i, have :: 0 <= i < |es| && |r| == i + 1 && r[..i] == es[..i] && Damaged(es[i], r[i], have))
  }

  /** Reading any prefix of a table gives a prefix of its entries, and at most one more entry,
      which is damaged only in the bytes of its value that are missing. */
  lemma {:induction false} PrefixReadsPrefix(es: seq<Entry>, p: nat)
    requires (forall e :: e in es ==> Fits(e)) && p <= |Encode(es)|
    ensures ReadsAsPrefix(es, Decode(Encode(es)[..p]))
  {
    TornFile(es, p);
    TornIsPrefix(es, p);
  }

  /** Which of the two it is depends on where in entry `i` the file ends: before the value everything of
      that entry is lost, and within the value the entry is read, damaged from there on. */
  lemma {:induction false} CutWithin(es: seq<Entry>, i: nat, p: nat)
    requires (forall e :: e in es ==> Fits(e)) && i < |es| && p <= |Encode(es)|
    requires |Encode(es[..i])| <= p < |Encode(es[..i])| + 8 + |es[i].key| + |es[i].value|
    ensures
      && var r, have := Decode(Encode(es)[..p]), p - |Encode(es[..i])| - 8 - |es[i].key|;
      && (have < 0 ==> r == es[..i])
      && (have >= 0 ==> |r| == i + 1 && r[..i] == es[..i] && Damaged(es[i], r[i], have))
  {
    TornFile(es, p);
    TornWithin(es, i, p);
  }

  lemma {:induction false} TornWithin(es: seq<Entry>, i: nat, p: nat)
    requires i < |es|
    requires |Encode(es[..i])| <= p < |Encode(es[..i])| + 8 + |es[i].key| + |es[i].value|
    ensures
      && var r, have := Torn(es, p), p - |Encode(es[..i])| - 8 - |es[i].key|;
      && (have < 0 ==> r == es[..i])
      && (have >= 0 ==> |r| == i + 1 && r[..i] == es[..i] && Damaged(es[i], r[i], have))
    decreases i
  {
    hide EncodeEntry;
    if i > 0 {
      assert es[..i][1..] == es[1..][..i - 1] && es[..i][0] == es[0];
      TornWithin(es[1..], i - 1, p - 8 - |es[0].key| - |es[0].value|);
      assert es[..i] == [es[0]] + es[1..][..i - 1];
    }
  }

  lemma {:induction false} TornIsPrefix(es: seq<Entry>, p: nat)
    ensures ReadsAsPrefix(es, Torn(es, p))
  {
    var r := Torn(es, p);
    if es == [] {
      assert r == es[..0];
    } else {
      var k, v := |es[0].key|, |es[0].value|;
      if p < 8 + k {
        assert r == es[..0];
      } else if p < 8 + k + v {
        assert r[..0] == es[..0] && Damaged(es[0], r[0], p - 8 - k);
      } else {
        TornIsPrefix(es[1..], p - 8 - k - v);
        assert r == [es[0]] + Torn(es[1..], p - 8 - k - v);
        OneMore(es[0], es[1..], Torn(es[1..], p - 8 - k - v));
        assert [es[0]] + es[1..] == es;
      }
    }
  }

  lemma {:induction false} OneMore(e: Entry, es: seq<Entry>, r: seq<Entry>)
    requires ReadsAsPrefix(es, r)
    ensures ReadsAsPrefix([e] + es, [e] + r)
  {
    if i :| 0 <= i <= |es| && r == es[..i] {
      assert [e] + r == ([e] + es)[..i + 1];
    } else {
      var i, have :| 0 <= i < |es| && |r| == i + 1 && r[..i] == es[..i] && Damaged(es[i], r[i], have);
      assert ([e] + r)[..i + 1] == [e] + r[..i] && ([e] + es)[..i + 1] == [e] + es[..i];
      assert Damaged(([e] + es)[i + 1], ([e] + r)[i + 1], have);
    }
  }

  /** `readSSTable` gives back what `writeSSTable` wrote exactly when every length fits 32 bits. */
  lemma {:induction false} RoundTrip(es: seq<Entry>)
    ensures Decode(Encode(es)) == es <==> forall e :: e in es ==> Fits(e)
  {
    if forall e :: e in es ==> Fits(e) {
      TornFile(es, |Encode(es)|);
      WholeTorn(es);
      assert Encode(es)[..|Encode(es)|] == Encode(es);
    } else if Decode(Encode(es)) == es {
      DecodedFit(Encode(es));
      assert false;
    }
  }

  lemma {:induction false} WholeTorn(es: seq<Entry>)
    ensures Torn(es, |Encode(es)|) == es
  {
    if es != [] {
      WholeTorn(es[1..]);
      assert es == [es[0]] + es[1..];
    }
  }

  // ---- Tables as listings of maps ----

  /** The entries of a `std::map`, in key order. */
  ghost function Listing(m: map<Bytes, Bytes>): seq<Entry>
    decreases |m.Keys|
  {
    if m == map[] then [] else
      SomeLeast(m.Keys);
      var k :| IsLeast(k, m.Keys);
      [Entry(k, m[k])] + Listing(m - {k})
  }

  /** The value of the first entry with the given key. */
  function Find(es: seq<Entry>, key: Bytes): Option<Bytes> {
    if es == [] then None
    else if es[0].key == key then Some(es[0].value)
    else Find(es[1..], key)
  }

  function Lookup(m: map<Bytes, Bytes>, key: Bytes): Option<Bytes> {
    if key in m then Some(m[key]) else None
  }

  lemma {:induction false} FindInListing(m: map<Bytes, Bytes>, key: Bytes)
    ensures Find(Listing(m), key) == Lookup(m, key)
    decreases |m.Keys|
  {
    if m != map[] {
      var k := Listing(m)[0].key;
      FindInListing(m - {k}, key);
    }
  }

  /** The listing is in strictly ascending key order and has exactly the map's bindings. */
  lemma {:induction false} ListingSorted(m: map<Bytes, Bytes>)
    ensures |Listing(m)| == |m.Keys|
    ensures forall i :: 0 <= i < |Listing(m)| ==> Listing(m)[i].key in m && Listing(m)[i].value == m[Listing(m)[i].key]
    ensures forall i, j :: 0 <= i < j < |Listing(m)| ==> Less(Listing(m)[i].key, Listing(m)[j].key)
    decreases |m.Keys|
  {
    if m != map[] {
      var k := Listing(m)[0].key;
      assert (m - {k}).Keys == m.Keys - {k};
      ListingSorted(m - {k});
      assert Listing(m)[1..] == Listing(m - {k});
      assert IsLeast(k, m.Keys);
    }
  }
}
