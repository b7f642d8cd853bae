/** Domain names as DNS messages carry them (section 3.1 of RFC 1035): length-prefixed labels, ended by
    the empty root label. */
module DnsName {
  import opened Wrappers
  import opened Bytes

  const DOT: byte := 0x2E
  const MAX_LABEL_TOTAL: nat := 255
  const MAX_LABEL_SEGMENT: nat := 63

  /** The parts of `domain` between the dots. */
  function Labels(domain: Bytes): (ls: seq<Bytes>)
    ensures ls != []
  {
    if domain == [] then [[]]
    else
      var ls, c := Labels(domain[..|domain| - 1]), domain[|domain| - 1];
      if c == DOT then ls + [[]] else ls[..|ls| - 1] + [ls[|ls| - 1] + [c]]
  }

  /** No label is longer than a length byte may say. */
  predicate Fits(ls: seq<Bytes>) {
    forall i :: 0 <= i < |ls| ==> |ls[i]| <= 63
  }

  predicate NoneEmpty(ls: seq<Bytes>) {
    forall i :: 0 <= i < |ls| ==> ls[i] != []
  }

  /** Each label behind its length. */
  function Flat(ls: seq<Bytes>): Bytes
    requires Fits(ls)
  {
    if ls == [] then [] else [|ls[0]| as byte] + ls[0] + Flat(ls[1..])
  }

  function Wire(ls: seq<Bytes>): Bytes
    requires Fits(ls)
  {
    Flat(ls) + [0]
  }

  lemma {:induction false} FlatSnoc(ls: seq<Bytes>, l: Bytes)
    requires Fits(ls) && |l| <= MAX_LABEL_SEGMENT
    ensures Flat(ls + [l]) == Flat(ls) + [|l| as byte] + l
  {
    if ls == [] {
      assert Flat([l]) == [|l| as byte] + l;
    } else {
      FlatSnoc(ls[1..], l);
      assert (ls + [l])[1..] == ls[1..] + [l];
    }
  }

  lemma {:induction false} FitsShorter(domain: Bytes, n: nat)
    requires n <= |domain| && Fits(Labels(domain))
    ensures Fits(Labels(domain[..n]))
    decreases |domain|
  {
    if n == |domain| {
      assert domain[..n] == domain;
    } else {
      var d := domain[..|domain| - 1];
      var ls, ms := Labels(d), Labels(domain);
      forall i | 0 <= i < |ls| ensures |ls[i]| <= MAX_LABEL_SEGMENT {
        assert |ls[i]| <= |ms[i]|;
      }
      FitsShorter(d, n);
      assert d[..n] == domain[..n];
    }
  }

  /** A string of n bytes becomes n + 2: each dot turns into a length, and two bytes are added. */
  lemma {:induction false} FlatLength(domain: Bytes)
    requires Fits(Labels(domain))
    ensures |Flat(Labels(domain))| == |domain| + 1
  {
    if domain == [] {
      assert Flat([[]]) == [0];
    } else {
      var n := |domain| - 1;
      var ls := Labels(domain[..n]);
      var k := |ls| - 1;
      FitsShorter(domain, n);
      FlatLength(domain[..n]);
      if domain[n] == DOT {
        FlatSnoc(ls, []);
      } else {
        assert ls == ls[..k] + [ls[k]];
        FlatSnoc(ls[..k], ls[k]);
        assert |Labels(domain)[k]| <= MAX_LABEL_SEGMENT;
        FlatSnoc(ls[..k], ls[k] + [domain[n]]);
      }
    }
  }

  // ---- The encoding, byte by byte ----

  /** From `i` on, `n` bytes of `domain` without a dot, up to a dot or the end. */
  ghost predicate Run(domain: Bytes, i: nat, n: nat) {
    && i + n <= |domain| && (i + n == |domain| || domain[i + n] == 0x2E)
    && forall j :: i <= j < i + n ==> domain[j] != 0x2E
  }

  /** Before the last label everything is settled; the last label is what comes behind the last dot. */
  ghost predicate Settled(domain: Bytes, w: Bytes, start: nat) {
    && start <= |domain| && |w| == |domain| + 1
    && (start == 0 || domain[start - 1] == 0x2E) && Run(domain, start, |domain| - start)
    && w[start] as nat == |domain| - start
    && (forall i :: 0 <= i < |domain| && domain[i] != 0x2E ==> w[i + 1] == domain[i])
    && forall i :: 0 <= i < start && (i == 0 || domain[i - 1] == 0x2E) ==>
         i + w[i] as nat < start && Run(domain, i, w[i] as nat)
  }

  lemma {:induction false} FlatSettled(domain: Bytes) returns (start: nat)
    requires Fits(Labels(domain))
    ensures
      && var ls := Labels(domain);
      && start + |ls[|ls| - 1]| == |domain| && Settled(domain, Flat(ls), start)
  {
    if domain == [] {
      start := 0;
      assert Flat([[]]) == [0];
    } else {
      hide Settled, Labels, Flat, Fits;
      var d, c := domain[..|domain| - 1], domain[|domain| - 1];
      assert domain == d + [c];
      FitsShorter(domain, |d|);
      start := FlatSettled(d);
      if c == DOT {
        AtDot(d);
        DotSettles(d, Flat(Labels(d)), start);
        start := |domain|;
      } else {
        FlatLength(d);
        AtLetter(d, c, start);
        LetterSettles(d, Flat(Labels(d)), start, c);
      }
    }
  }

  lemma {:induction false} AtDot(d: Bytes)
    requires Fits(Labels(d))
    ensures
      && var ls := Labels(d + [DOT]);
      && ls[|ls| - 1] == [] && Fits(ls) && Flat(ls) == Flat(Labels(d)) + [0]
  {
    assert (d + [DOT])[..|d|] == d;
    FlatSnoc(Labels(d), []);
  }

  lemma {:induction false} AtLetter(d: Bytes, c: byte, at: nat)
    requires c != DOT && Fits(Labels(d)) && Fits(Labels(d + [c]))
    requires
      && var ls := Labels(d);
      && |Flat(ls)| == at + |ls[|ls| - 1]| + 1
    ensures
      && var ls, ms, w := Labels(d), Labels(d + [c]), Flat(Labels(d));
      && w[at] < 63 && ms[|ms| - 1] == ls[|ls| - 1] + [c] && Flat(ms) == w[at := w[at] + 1] + [c]
  {
    assert (d + [c])[..|d|] == d;
    var ls, w := Labels(d), Flat(Labels(d));
    var k := |ls| - 1;
    assert ls == ls[..k] + [ls[k]];
    FlatSnoc(ls[..k], ls[k]);
    assert |Labels(d + [c])[k]| <= 63;
    FlatSnoc(ls[..k], ls[k] + [c]);
    hide Flat;
    LastGrows(Flat(ls[..k]), ls[k], c, at, w);
  }

  lemma {:induction false} LastGrows(front: Bytes, l: Bytes, c: byte, at: nat, w: Bytes)
    requires |l| < 63 && w == front + [|l| as byte] + l && |w| == at + |l| + 1
    ensures front + [|l + [c]| as byte] + (l + [c]) == w[at := w[at] + 1] + [c]
  {
    assert w[at] == |l| as byte;
  }

  lemma {:induction false} NoStartBehind(domain: Bytes, start: nat, i: nat)
    requires start <= |domain| && Run(domain, start, |domain| - start)
    requires i <= |domain| && (i == 0 || domain[i - 1] == 0x2E)
    ensures i <= start
  {
  }

  lemma {:induction false} DotSettles(domain: Bytes, w: Bytes, start: nat)
    requires Settled(domain, w, start)
    ensures Settled(domain + [0x2E], w + [0], |domain| + 1)
  {
    var d, v := domain + [0x2E], w + [0];
    forall i | 0 <= i < |d| && (i == 0 || d[i - 1] == 0x2E)
      ensures i + v[i] as nat < |d| && Run(d, i, v[i] as nat)
    {
      NoStartBehind(domain, start, i);
      assert Run(domain, i, v[i] as nat);
    }
  }

  lemma {:induction false} LetterSettles(domain: Bytes, w: Bytes, start: nat, c: byte)
    requires Settled(domain, w, start) && c != 0x2E && w[start] < 63
    ensures Settled(domain + [c], w[start := w[start] + 1] + [c], start)
  {
    var d, v := domain + [c], w[start := w[start] + 1] + [c];
    forall i | 0 <= i < start && (i == 0 || d[i - 1] == 0x2E)
      ensures i + v[i] as nat < start && Run(d, i, v[i] as nat)
    {
      assert v[i] == w[i] && Run(domain, i, w[i] as nat);
    }
  }

  /** The encoding of a name, byte by byte: two bytes longer than the name and ended by 0; every byte
      other than 0x2E stays, one place on; and at the front and in the place of each 0x2E stands the
      number of bytes to the next one, or to the end. */
  lemma {:induction false} WireBytes(domain: Bytes)
    requires Fits(Labels(domain))
    ensures
      && var w := Wire(Labels(domain));
      && |w| == |domain| + 2 && w[|domain| + 1] == 0
      && (forall i :: 0 <= i < |domain| && domain[i] != 0x2E ==> w[i + 1] == domain[i])
      && forall i :: 0 <= i <= |domain| && (i == 0 || domain[i - 1] == 0x2E) ==> Run(domain, i, w[i] as nat)
  {
    hide Labels, Flat;
    var start := FlatSettled(domain);
    var w := Wire(Labels(domain));
    forall i | 0 <= i <= |domain| && (i == 0 || domain[i - 1] == 0x2E) ensures Run(domain, i, w[i] as nat) {
      NoStartBehind(domain, start, i);
    }
  }

  /** Stores the label held in `seg` behind its length. */
  method StoreLabel(seg: array<byte>, segI: nat, buf: array<byte>, bufI: nat) returns (next: nat)
    requires seg != buf && segI <= seg.Length && segI < 256 && bufI + 1 + segI <= buf.Length
    modifies buf
    ensures next == bufI + 1 + segI
    ensures buf[..next] == old(buf[..bufI]) + [segI as byte] + seg[..segI]
    ensures forall k :: next <= k < buf.Length ==> buf[k] == old(buf[k])
  {
    buf[bufI] := segI as byte;
    next := bufI + 1;
    for i := 0 to segI
      invariant next == bufI + 1 + i
      invariant buf[..next] == old(buf[..bufI]) + [segI as byte] + seg[..i]
      invariant forall k :: next <= k < buf.Length ==> buf[k] == old(buf[k])
    {
      buf[next] := seg[i];
      next := next + 1;
    }
  }

  /** The encoder. `domain` is the C string without its terminator; the code stores a label's bytes
      before it checks their number, so its callers must keep labels to 63 bytes, and the target must
      hold the whole encoding before that is compared with 255. */
  method EncodeName(domain: Bytes, buf: array<byte>) returns (written: int)
    requires 0 !in domain && Fits(Labels(domain))
    requires |domain| + 2 <= buf.Length && |domain| + 2 < 0x1_0000
    modifies buf
    ensures buf[..|domain| + 2] == Wire(Labels(domain)) && |Wire(Labels(domain))| == |domain| + 2
    ensures buf[|domain| + 2..] == old(buf[|domain| + 2..])
    ensures written == if |domain| + 2 > 255 then -1 else |domain| + 2
  {
    hide Labels, Flat, Fits;
    var segI, bufI := 0, 0;
    var seg := new byte[MAX_LABEL_SEGMENT](_ => 0);
    var domainI := 0;
    LabelsOfNothing();
    assert domain[..0] == [];
    while domainI < |domain| + 1
      invariant 0 <= domainI <= |domain| + 1 && 0 <= segI <= MAX_LABEL_SEGMENT && bufI + segI == domainI
      invariant Encoded(domain, domainI, buf[..bufI], seg[..segI])
      invariant forall k :: |domain| + 2 <= k < buf.Length ==> buf[k] == old(buf[k])
    {
      if domainI == |domain| || domain[domainI] == DOT {
        ghost var written := buf[..bufI];
        bufI := StoreLabel(seg, segI, buf, bufI);
        EndLabel(domain, domainI, written, seg[..segI], buf[..bufI]);
        forall i | 0 <= i < MAX_LABEL_SEGMENT {
          seg[i] := 0;
        }
        segI := 0;
      } else {
        LabelGrows(domain, domainI, buf[..bufI], seg[..segI]);
        ghost var part := seg[..segI];
        seg[segI] := domain[domainI];
        segI := segI + 1;
        assert seg[..segI] == part + [domain[domainI]];
      }
      domainI := domainI + 1;
    }
    buf[bufI] := 0;
    bufI := bufI + 1;
    FlatLength(domain);
    if bufI > MAX_LABEL_TOTAL {
      return -1;
    }
    return bufI;
  }

  /** What the loop has written after `i` characters: the labels that have ended, with the current one
      still aside; the terminator ends the last label. */
  ghost predicate Encoded(domain: Bytes, i: nat, written: Bytes, part: Bytes)
    requires Fits(Labels(domain)) && i <= |domain| + 1
  {
    if i <= |domain| then
      FitsShorter(domain, i);
      var ls := Labels(domain[..i]);
      written == Flat(ls[..|ls| - 1]) && part == ls[|ls| - 1]
    else
      written == Flat(Labels(domain)) && part == []
  }

  lemma {:induction false} LabelsOfNothing()
    ensures Labels([]) == [[]] && Flat([]) == []
  {
  }

  lemma {:induction false} EndLabel(domain: Bytes, i: nat, written: Bytes, part: Bytes, now: Bytes)
    requires Fits(Labels(domain)) && i <= |domain| && (i == |domain| || domain[i] == DOT)
    requires Encoded(domain, i, written, part) && |part| <= MAX_LABEL_SEGMENT
    requires now == written + [|part| as byte] + part
    ensures Encoded(domain, i + 1, now, [])
  {
    hide Flat;
    FitsShorter(domain, i);
    var ls := Labels(domain[..i]);
    var k := |ls| - 1;
    assert ls == ls[..k] + [ls[k]];
    FlatSnoc(ls[..k], part);
    if i == |domain| {
      assert domain[..i] == domain;
    } else {
      assert domain[..i + 1][..i] == domain[..i];
    }
  }

  lemma {:induction false} LabelGrows(domain: Bytes, i: nat, written: Bytes, part: Bytes)
    requires Fits(Labels(domain)) && i < |domain| && domain[i] != DOT
    requires Encoded(domain, i, written, part)
    ensures |part| < MAX_LABEL_SEGMENT && Encoded(domain, i + 1, written, part + [domain[i]])
  {
    hide Flat;
    FitsShorter(domain, i);
    FitsShorter(domain, i + 1);
    var ls, ms := Labels(domain[..i]), Labels(domain[..i + 1]);
    var k := |ls| - 1;
    assert domain[..i + 1][..i] == domain[..i];
    assert ms == ls[..k] + [ls[k] + [domain[i]]];
    assert |ms[k]| <= MAX_LABEL_SEGMENT;
    assert ms[..k] == ls[..k];
  }

  // ---- The decoder ----

  /** Reads labels up to the root label: the labels, and what follows. */
  function Decode(b: Bytes): Option<(seq<Bytes>, Bytes)> {
    if b == [] || b[0] as nat > MAX_LABEL_SEGMENT || |b| < 1 + b[0] as nat then None
    else if b[0] == 0 then Some(([], b[1..]))
    else
      match Decode(b[1 + b[0] as nat..])
      case None => None
      case Some((ls, rest)) => Some(([b[1..1 + b[0] as nat]] + ls, rest))
  }

  /** Where the first empty label is, the decoder takes it for the root label. */
  lemma {:induction false} DecodeUpTo(ls: seq<Bytes>, k: nat, tail: Bytes)
    requires Fits(ls) && k <= |ls| && NoneEmpty(ls[..k]) && (k == |ls| || ls[k] == [])
    ensures Decode(Wire(ls) + tail).Some? && Decode(Wire(ls) + tail).value.0 == ls[..k]
    ensures k == |ls| ==> Decode(Wire(ls) + tail).value.1 == tail
    decreases |ls|
  {
    var b := Wire(ls) + tail;
    if ls == [] {
      assert b == [0] + tail;
    } else if k == 0 {
      assert b[0] == 0;
    } else {
      var l, rest := ls[0], Wire(ls[1..]) + tail;
      assert l == ls[..k][0] != [];
      assert ls[1..][..k - 1] == ls[..k][1..];
      DecodeUpTo(ls[1..], k - 1, tail);
      assert ls[..k] == [l] + ls[1..][..k - 1];
      assert b == [|l| as byte] + l + rest;
      hide Wire, Flat, Fits, NoneEmpty;
      DecodeLabel(l, rest);
    }
  }

  lemma {:induction false} DecodeLabel(l: Bytes, rest: Bytes)
    requires 0 < |l| <= MAX_LABEL_SEGMENT && Decode(rest).Some?
    ensures
      Decode([|l| as byte] + l + rest) == Some(([l] + Decode(rest).value.0, Decode(rest).value.1))
  {
    var b := [|l| as byte] + l + rest;
    assert b[1..1 + |l|] == l && b[1 + |l|..] == rest;
  }

  lemma {:induction false} FirstEmpty(ls: seq<Bytes>) returns (k: nat)
    ensures k <= |ls| && NoneEmpty(ls[..k]) && (k == |ls| || ls[k] == [])
    ensures k == |ls| <==> NoneEmpty(ls)
  {
    if ls == [] {
      k := 0;
    } else {
      k := FirstEmpty(ls[..|ls| - 1]);
      if k == |ls| - 1 && ls[k] != [] {
        k := |ls|;
      } else {
        assert ls[..|ls| - 1][..k] == ls[..k];
        assert ls[k] == [];
      }
    }
  }

  /** Decoding is the inverse of encoding exactly for names without empty labels: an empty label, as
      from a leading, doubled or trailing dot, or the empty string, reads as the end of the name. */
  lemma {:induction false} NameRoundTrip(domain: Bytes, tail: Bytes)
    requires Fits(Labels(domain))
    ensures Decode(Wire(Labels(domain)) + tail) == Some((Labels(domain), tail)) <==> NoneEmpty(Labels(domain))
  {
    hide Decode, Wire, Labels;
    var ls := Labels(domain);
    var k := FirstEmpty(ls);
    DecodeUpTo(ls, k, tail);
    assert k == |ls| ==> ls[..k] == ls;
    assert k < |ls| ==> |ls[..k]| < |ls|;
  }

  /** For one, no name with a trailing dot comes back: its last label is empty. */
  lemma {:induction false} TrailingDot(domain: Bytes)
    requires Fits(Labels(domain))
    ensures Fits(Labels(domain + [DOT])) && !NoneEmpty(Labels(domain + [DOT]))
    ensures Decode(Wire(Labels(domain + [DOT]))) != Some((Labels(domain + [DOT]), []))
  {
    assert (domain + [DOT])[..|domain|] == domain;
    var ls := Labels(domain + [DOT]);
    assert ls == Labels(domain) + [[]];
    assert ls[|ls| - 1] == [];
    NameRoundTrip(domain + [DOT], []);
    assert Wire(ls) + [] == Wire(ls);
  }

  /** The name as it is written. */
  function Dotted(ls: seq<Bytes>): Bytes
    requires ls != []
  {
    if |ls| == 1 then ls[0] else Dotted(ls[..|ls| - 1]) + [DOT] + ls[|ls| - 1]
  }

  lemma {:induction false} DottedGrows(ls: seq<Bytes>, c: byte)
    requires ls != []
    ensures Dotted(ls[..|ls| - 1] + [ls[|ls| - 1] + [c]]) == Dotted(ls) + [c]
  {
    var k := |ls| - 1;
    var ms := ls[..k] + [ls[k] + [c]];
    assert ms[..k] == ls[..k];
  }

  /** The labels determine the name. */
  lemma {:induction false} DottedLabels(domain: Bytes)
    ensures Dotted(Labels(domain)) == domain
  {
    if domain == [] {
      assert Labels(domain) == [[]];
    } else {
      var n := |domain| - 1;
      var ls := Labels(domain[..n]);
      DottedLabels(domain[..n]);
      if domain[n] == DOT {
        assert (ls + [[]])[..|ls|] == ls;
      } else {
        DottedGrows(ls, domain[n]);
      }
      assert domain == domain[..n] + [domain[n]];
    }
  }
}
