/** DNS messages (sections 4.1.1 to 4.1.4 of RFC 1035): the query that is sent, and the walk through a
    response that collects its addresses. */
module DnsMessage {
  import opened Wrappers
  import opened Bytes
  import opened DnsName
  import opened Words

  const DNS_TYPE_A: nat := 1
  const DNS_CLASS_IN: nat := 1
  const DNS_HEADER_FLAGS: nat := 0x0100

  /** A 16-bit number in network order. */
  function Short(n: nat): (b: Bytes)
    ensures |b| == 2
  {
    [(n / 256 % 256) as byte, (n % 256) as byte]
  }

  function UnShort(b: Bytes, pos: nat): (n: nat)
    requires pos + 2 <= |b|
    ensures n < WORD16
  {
    b[pos] as nat * 256 + b[pos + 1] as nat
  }

  function Long(n: nat): (b: Bytes)
    ensures |b| == 4
  {
    Short(n / WORD16) + Short(n)
  }

  function UnLong(b: Bytes, pos: nat): (n: nat)
    requires pos + 4 <= |b|
    ensures n < WORD32
  {
    b[pos] as nat * 0x100_0000 + b[pos + 1] as nat * 0x1_0000 + b[pos + 2] as nat * 0x100 + b[pos + 3] as nat
  }

  lemma {:induction false} ShortAt(b: Bytes, pos: nat, n: nat)
    requires pos + 2 <= |b| && b[pos..pos + 2] == Short(n) && n < WORD16
    ensures UnShort(b, pos) == n
  {
    assert b[pos] == b[pos..pos + 2][0] && b[pos + 1] == b[pos..pos + 2][1];
  }

  lemma {:induction false} LongAt(b: Bytes, pos: nat, n: nat)
    requires pos + 4 <= |b| && b[pos..pos + 4] == Long(n) && n < WORD32
    ensures UnLong(b, pos) == n
  {
    hide UnShort, Short;
    assert b[pos..pos + 2] == b[pos..pos + 4][..2] == Short(n / WORD16);
    assert b[pos + 2..pos + 4] == b[pos..pos + 4][2..] == Short(n) == Short(n % WORD16) by { ShortModulo(n); }
    ShortAt(b, pos, n / WORD16);
    ShortAt(b, pos + 2, n % WORD16);
    LongIsShorts(b, pos);
  }

  lemma {:induction false} ShortModulo(n: nat)
    ensures Short(n) == Short(n % WORD16)
  {
    assert n == n / WORD16 * WORD16 + n % WORD16;
    assert n / 256 == n / WORD16 * 256 + n % WORD16 / 256;
  }

  lemma {:induction false} LongIsShorts(b: Bytes, pos: nat)
    requires pos + 4 <= |b|
    ensures UnLong(b, pos) == UnShort(b, pos) * WORD16 + UnShort(b, pos + 2)
  {
  }

  // ---- The query ----

  /** The header of a query for one question, recursion desired. */
  function QueryHeader(id: nat): (b: Bytes)
    ensures |b| == 12
  {
    Short(id) + Short(DNS_HEADER_FLAGS) + Short(1) + Short(0) + Short(0) + Short(0)
  }

  function Query(domain: Bytes, id: nat): Bytes
    requires Fits(Labels(domain))
  {
    QueryHeader(id) + Wire(Labels(domain)) + Short(DNS_TYPE_A) + Short(DNS_CLASS_IN)
  }

  /** Copies `bytes` into `buf` at `at`. */
  method Memcpy(buf: array<byte>, at: nat, bytes: Bytes)
    requires at + |bytes| <= buf.Length
    modifies buf
    ensures buf[..at + |bytes|] == old(buf[..at]) + bytes
    ensures forall k :: at + |bytes| <= k < buf.Length ==> buf[k] == old(buf[k])
  {
    forall i | 0 <= i < |bytes| {
      buf[at + i] := bytes[i];
    }
  }

  /** The encoded name is put together in an array of 512 bytes, which the caller's string must not
      outgrow. A name that is too long leaves only the header behind. */
  method BuildQuery(domain: Bytes, buf: array<byte>, id: nat) returns (queryLen: int)
    requires 0 !in domain && Fits(Labels(domain)) && |domain| + 2 <= 512 && id < WORD16
    requires buf.Length >= 12 + 255 + 4
    modifies buf
    ensures queryLen == if |domain| + 2 > 255 then -1 else |domain| + 18
    ensures queryLen >= 0 ==> buf[..queryLen] == Query(domain, id)
    ensures queryLen < 0 ==> buf[..12] == QueryHeader(id)
    ensures forall k :: (if queryLen < 0 then 12 else queryLen) <= k < buf.Length ==> buf[k] == old(buf[k])
  {
    hide Labels, Wire, Fits, QueryHeader, Short;
    Memcpy(buf, 0, QueryHeader(id));
    queryLen := 12;
    var encoded := new byte[512](_ => 0);
    var domainLen := EncodeName(domain, encoded);
    if domainLen < 0 {
      return -1;
    }
    Memcpy(buf, queryLen, encoded[..domainLen]);
    queryLen := queryLen + domainLen;
    Memcpy(buf, queryLen, Short(DNS_TYPE_A));
    queryLen := queryLen + 2;
    Memcpy(buf, queryLen, Short(DNS_CLASS_IN));
    queryLen := queryLen + 2;
  }

  // ---- Skipping a name ----

  /** The position after the name at `pos`, unless the walk runs off the end. */
  function Skip(b: Bytes, pos: nat): (r: Option<nat>)
    ensures r.Some? ==> r.value > pos
    decreases |b| - pos
  {
    if pos >= |b| then None
    else if b[pos] == 0 then Some(pos + 1)
    else if b[pos] >= 0xC0 then Some(pos + 2)
    else Skip(b, pos + 1 + b[pos] as nat)
  }

  method SkipName(b: Bytes, start: nat) returns (r: int, pos: nat)
    ensures r == if Skip(b, start).Some? then 0 else -1
    ensures r == 0 ==> pos == Skip(b, start).value
  {
    pos := start;
    while pos < |b|
      invariant Skip(b, start) == Skip(b, pos)
    {
      var labelLen := b[pos];
      if labelLen == 0 {
        pos := pos + 1;
        return 0, pos;
      }
      if labelLen >= 0xC0 {
        pos := pos + 2;
        return 0, pos;
      }
      pos := pos + 1 + labelLen as nat;
    }
    return -1, pos;
  }

  /** A name as section 4.1.4 of RFC 1035 allows it: labels that end in the root or in a pointer. */
  datatype Name = Name(labels: seq<Bytes>, pointer: Option<nat>)

  predicate ValidName(n: Name) {
    Fits(n.labels) && NoneEmpty(n.labels) && (n.pointer.Some? ==> n.pointer.value < 0x4000)
  }

  function NameWire(n: Name): (b: Bytes)
    requires ValidName(n)
    ensures b != []
  {
    Flat(n.labels) + if n.pointer.None? then [0] else Short(0xC000 + n.pointer.value)
  }

  /** A valid name is skipped exactly, whatever surrounds it. */
  lemma {:induction false} SkipsName(n: Name, b: Bytes, pos: nat)
    requires ValidName(n) && pos + |NameWire(n)| <= |b| && b[pos..pos + |NameWire(n)|] == NameWire(n)
    ensures Skip(b, pos) == Some(pos + |NameWire(n)|)
    decreases |n.labels|
  {
    var w := NameWire(n);
    assert b[pos] == w[0];
    if n.labels == [] {
      assert n.pointer.Some? ==> w[0] >= 0xC0;
    } else {
      var l, m := n.labels[0], Name(n.labels[1..], n.pointer);
      FirstLabel(n);
      hide NameWire, Fits, NoneEmpty;
      Behind(b, pos, [|l| as byte] + l, NameWire(m));
      SkipsName(m, b, pos + 1 + |l|);
    }
  }

  lemma {:induction false} FirstLabel(n: Name)
    requires ValidName(n) && n.labels != []
    ensures
      && var l, m := n.labels[0], Name(n.labels[1..], n.pointer);
      && 0 < |l| < 64 && ValidName(m) && NameWire(n) == [|l| as byte] + l + NameWire(m)
  {
  }

  lemma {:induction false} Behind(b: Bytes, pos: nat, x: Bytes, y: Bytes)
    requires pos + |x + y| <= |b| && b[pos..pos + |x + y|] == x + y
    ensures b[pos + |x|..pos + |x| + |y|] == y
  {
    assert b[pos + |x|..pos + |x| + |y|] == b[pos..pos + |x + y|][|x|..];
  }

  // ---- The response ----

  datatype Record = Record(address: Bytes, ttl: nat, class_: nat)

  /** How the walk ends. Where the code would read behind the bytes it received, it is `PastEnd`. */
  datatype Outcome = NoHeader | WrongId | BadQuestion | BadName | PastEnd | Done

  /** One answer: the walk ends there, or goes on behind it. */
  datatype Step = Stop(outcome: Outcome) | Go(found: seq<Record>, next: nat)

  function AnswerAt(b: Bytes, pos: nat): Step {
    match Skip(b, pos)
    case None => Stop(BadName)
    case Some(p) =>
      if p + 10 > |b| then Stop(PastEnd)
      else
        var next := p + 10 + UnShort(b, p + 8);
        if UnShort(b, p) != DNS_TYPE_A || UnShort(b, p + 8) != 4 then Go([], next)
        else if p + 14 > |b| then Stop(PastEnd)
        else Go([Record(b[p + 10..p + 14], UnLong(b, p + 4), UnShort(b, p + 2))], next)
  }

  /** The walk through `n` answers from `pos` on. */
  function ParseAnswers(b: Bytes, pos: nat, n: nat): (Outcome, seq<Record>)
    decreases n
  {
    if n == 0 then (Done, [])
    else
      match AnswerAt(b, pos)
      case Stop(outcome) => (outcome, [])
      case Go(found, next) =>
        var rest := ParseAnswers(b, next, n - 1);
        (rest.0, found + rest.1)
  }

  function Parse(b: Bytes, expectedId: nat): (Outcome, seq<Record>) {
    if |b| < 12 then (NoHeader, [])
    else if UnShort(b, 0) != expectedId then (WrongId, [])
    else
      match Skip(b, 12)
      case None => (BadQuestion, [])
      case Some(p) => ParseAnswers(b, p + 4, UnShort(b, 6))
  }

  /** The parser, with the records it finds returned. */
  method ParseResponse(b: Bytes, expectedId: nat) returns (outcome: Outcome, records: seq<Record>)
    ensures (outcome, records) == Parse(b, expectedId)
  {
    hide Skip, UnShort, UnLong;
    records := [];
    if |b| < 12 {
      return NoHeader, [];
    }
    var id, ancount := UnShort(b, 0), UnShort(b, 6);
    if expectedId != id {
      return WrongId, [];
    }
    var r: int, pos: nat := SkipName(b, 12);
    if r == -1 {
      return BadQuestion, [];
    }
    pos := pos + 4;
    outcome, records := WalkAnswers(b, pos, ancount);
  }

  /** The loop over the answers. */
  method WalkAnswers(b: Bytes, start: nat, ancount: nat) returns (outcome: Outcome, records: seq<Record>)
    ensures outcome == ParseAnswers(b, start, ancount).0 && records == ParseAnswers(b, start, ancount).1
  {
    hide Skip, UnShort, UnLong, AnswerAt, ParseAnswers;
    var pos: nat, an := start, 0;
    records := [];
    while an < ancount
      invariant an <= ancount
      invariant ParseAnswers(b, start, ancount).0 == ParseAnswers(b, pos, ancount - an).0
      invariant ParseAnswers(b, start, ancount).1 == records + ParseAnswers(b, pos, ancount - an).1
    {
      var r: int, p: nat := SkipName(b, pos);
      StepCases(b, pos);
      Unfold(b, pos, ancount - an);
      if r == -1 {
        return BadName, records;
      }
      pos := p;
      if pos + 10 > |b| {
        return PastEnd, records;
      }
      var type_ := UnShort(b, pos);
      pos := pos + 2;
      var class_ := UnShort(b, pos);
      pos := pos + 2;
      var ttl := UnLong(b, pos);
      pos := pos + 4;
      var rdlen := UnShort(b, pos);
      pos := pos + 2;
      if type_ == DNS_TYPE_A && rdlen == 4 {
        if pos + 4 > |b| {
          return PastEnd, records;
        }
        records := records + [Record(b[pos..pos + 4], ttl, class_)];
      }
      pos := pos + rdlen;
      an := an + 1;
    }
    outcome := Done;
    Unfold(b, pos, 0);
  }

  lemma {:induction false} Unfold(b: Bytes, pos: nat, n: nat)
    ensures n == 0 ==> ParseAnswers(b, pos, n) == (Done, [])
    ensures n > 0 && AnswerAt(b, pos).Stop? ==> ParseAnswers(b, pos, n) == (AnswerAt(b, pos).outcome, [])
    ensures
      n > 0 && AnswerAt(b, pos).Go? ==>
        && var rest := ParseAnswers(b, AnswerAt(b, pos).next, n - 1);
        && ParseAnswers(b, pos, n) == (rest.0, AnswerAt(b, pos).found + rest.1)
  {
  }

  /** The cases of `AnswerAt`, behind the name. */
  lemma {:induction false} StepCases(b: Bytes, pos: nat)
    ensures Skip(b, pos).None? ==> AnswerAt(b, pos) == Stop(BadName)
    ensures
      Skip(b, pos).Some? ==>
        && var p := Skip(b, pos).value;
        && (p + 10 > |b| ==> AnswerAt(b, pos) == Stop(PastEnd))
        && (p + 10 <= |b| ==>
              && var isAddress := UnShort(b, p) == 1 && UnShort(b, p + 8) == 4;
              && var next := p + 10 + UnShort(b, p + 8);
              && (!isAddress ==> AnswerAt(b, pos) == Go([], next))
              && (isAddress && p + 14 > |b| ==> AnswerAt(b, pos) == Stop(PastEnd))
              && (isAddress && p + 14 <= |b| ==>
                    AnswerAt(b, pos) == Go([Record(b[p + 10..p + 14], UnLong(b, p + 4), UnShort(b, p + 2))], next)))
  {
  }

  // ---- Well-formed responses ----

  datatype Answer = Answer(name: Name, type_: nat, class_: nat, ttl: nat, rdata: Bytes)

  predicate ValidAnswer(a: Answer) {
    ValidName(a.name) && a.type_ < WORD16 && a.class_ < WORD16 && a.ttl < WORD32 && |a.rdata| < WORD16
  }

  /** A resource record, section 4.1.3 of RFC 1035. */
  function AnswerWire(a: Answer): Bytes
    requires ValidAnswer(a)
  {
    NameWire(a.name) + Short(a.type_) + Short(a.class_) + Long(a.ttl) + Short(|a.rdata|) + a.rdata
  }

  function AnswersWire(answers: seq<Answer>): Bytes
    requires forall a :: a in answers ==> ValidAnswer(a)
  {
    if answers == [] then [] else AnswerWire(answers[0]) + AnswersWire(answers[1..])
  }

  /** The addresses a client wants: of TYPE 1 with four bytes of data. */
  function Addresses(answers: seq<Answer>): seq<Record> {
    if answers == [] then []
    else
      var a := answers[0];
      (if a.type_ == 1 && |a.rdata| == 4 then [Record(a.rdata, a.ttl, a.class_)] else [])
      + Addresses(answers[1..])
  }

  /** A response to one question; `tail` is the authority and additional sections. */
  datatype Response = Response(id: nat, flags: nat, qname: Name, qtype: nat, qclass: nat, answers: seq<Answer>,
                               nscount: nat, arcount: nat, tail: Bytes)

  predicate ValidResponse(r: Response) {
    && r.id < WORD16 && |r.answers| < WORD16 && ValidName(r.qname)
    && forall a :: a in r.answers ==> ValidAnswer(a)
  }

  function ResponseHeader(r: Response): (b: Bytes)
    ensures |b| == 12
  {
    Short(r.id) + Short(r.flags) + Short(1) + Short(|r.answers|) + Short(r.nscount) + Short(r.arcount)
  }

  function ResponseWire(r: Response): Bytes
    requires ValidResponse(r)
  {
    ResponseHeader(r) + NameWire(r.qname) + (Short(r.qtype) + Short(r.qclass)) + AnswersWire(r.answers) + r.tail
  }

  /** `w` lies in `b` at `pos`. */
  predicate Holds(b: Bytes, pos: nat, w: Bytes) {
    pos + |w| <= |b| && b[pos..pos + |w|] == w
  }

  lemma {:induction false} HoldsParts(b: Bytes, pos: nat, x: Bytes, y: Bytes)
    requires Holds(b, pos, x + y)
    ensures Holds(b, pos, x) && Holds(b, pos + |x|, y)
  {
    var w := x + y;
    assert b[pos..pos + |x|] == b[pos..pos + |w|][..|x|] == x;
    assert b[pos + |x|..pos + |w|] == b[pos..pos + |w|][|x|..] == y;
  }

  /** The fixed fields behind an answer's name. */
  lemma {:induction false} FieldsAt(b: Bytes, p: nat, a: Answer)
    requires ValidAnswer(a)
    requires Holds(b, p, Short(a.type_) + Short(a.class_) + Long(a.ttl) + Short(|a.rdata|) + a.rdata)
    ensures p + 10 + |a.rdata| <= |b| && b[p + 10..p + 10 + |a.rdata|] == a.rdata
    ensures UnShort(b, p) == a.type_ && UnShort(b, p + 2) == a.class_
    ensures UnLong(b, p + 4) == a.ttl && UnShort(b, p + 8) == |a.rdata|
  {
    hide Short, Long, UnShort, UnLong, ValidName;
    HoldsParts(b, p, Short(a.type_) + Short(a.class_) + Long(a.ttl) + Short(|a.rdata|), a.rdata);
    HoldsParts(b, p, Short(a.type_) + Short(a.class_) + Long(a.ttl), Short(|a.rdata|));
    HoldsParts(b, p, Short(a.type_) + Short(a.class_), Long(a.ttl));
    HoldsParts(b, p, Short(a.type_), Short(a.class_));
    ShortAt(b, p, a.type_);
    ShortAt(b, p + 2, a.class_);
    LongAt(b, p + 4, a.ttl);
    ShortAt(b, p + 8, |a.rdata|);
  }

  /** An answer is read as what it is, and the walk goes on exactly behind it. */
  lemma {:induction false} ReadsAnswer(b: Bytes, pos: nat, a: Answer)
    requires ValidAnswer(a) && Holds(b, pos, AnswerWire(a))
    ensures AnswerAt(b, pos) == Go(Addresses([a]), pos + |AnswerWire(a)|)
  {
    hide Short, Long, UnShort, UnLong, Skip, NameWire, ValidName, Holds;
    var fields := Short(a.type_) + Short(a.class_) + Long(a.ttl) + Short(|a.rdata|) + a.rdata;
    assert AnswerWire(a) == NameWire(a.name) + fields;
    HoldsParts(b, pos, NameWire(a.name), fields);
    assert Skip(b, pos) == Some(pos + |NameWire(a.name)|) by { SkipsHeldName(b, pos, a.name); }
    FieldsAt(b, pos + |NameWire(a.name)|, a);
    assert Addresses([]) == [];
  }

  lemma {:induction false} SkipsHeldName(b: Bytes, pos: nat, n: Name)
    requires ValidName(n) && Holds(b, pos, NameWire(n))
    ensures Skip(b, pos) == Some(pos + |NameWire(n)|)
  {
    SkipsName(n, b, pos);
  }

  lemma {:induction false} AddressesSplit(answers: seq<Answer>)
    ensures answers == [] ==> Addresses(answers) == []
    ensures answers != [] ==> Addresses(answers) == Addresses([answers[0]]) + Addresses(answers[1..])
  {
    if answers != [] {
      assert [answers[0]][1..] == [];
    }
  }

  lemma {:induction false} ReadsAnswers(b: Bytes, pos: nat, answers: seq<Answer>)
    requires forall a :: a in answers ==> ValidAnswer(a)
    requires Holds(b, pos, AnswersWire(answers))
    ensures ParseAnswers(b, pos, |answers|) == (Done, Addresses(answers))
    decreases |answers|
  {
    hide AnswerAt, AnswerWire, ValidAnswer, Holds, Addresses, ParseAnswers;
    AddressesSplit(answers);
    Unfold(b, pos, |answers|);
    if answers != [] {
      var w, rest := AnswerWire(answers[0]), answers[1..];
      HoldsParts(b, pos, w, AnswersWire(rest));
      ReadsAnswer(b, pos, answers[0]);
      ReadsAnswers(b, pos + |w|, rest);
    }
  }

  /** Every well-formed response with the expected id yields exactly its addresses, in order; with
      another id it yields nothing. */
  lemma {:induction false} ParsesResponse(r: Response, expectedId: nat)
    requires ValidResponse(r)
    ensures
      Parse(ResponseWire(r), expectedId) == if expectedId == r.id then (Done, Addresses(r.answers)) else (WrongId, [])
  {
    hide Short, UnShort, Skip, NameWire, ValidName, ValidAnswer, AnswersWire, ParseAnswers, Addresses, Holds;
    var b := ResponseWire(r);
    var header, name, question := ResponseHeader(r), NameWire(r.qname), Short(r.qtype) + Short(r.qclass);
    HeaderAt(b, r);
    assert Holds(b, 0, b) by { WholeHolds(b); }
    HoldsParts(b, 0, header + name + question + AnswersWire(r.answers), r.tail);
    HoldsParts(b, 0, header + name + question, AnswersWire(r.answers));
    HoldsParts(b, 0, header + name, question);
    HoldsParts(b, 0, header, name);
    SkipsHeldName(b, 12, r.qname);
    ReadsAnswers(b, 12 + |name| + 4, r.answers);
  }

  lemma {:induction false} WholeHolds(b: Bytes)
    ensures Holds(b, 0, b)
  {
  }

  lemma {:induction false} HeaderAt(b: Bytes, r: Response)
    requires ValidResponse(r) && b == ResponseWire(r)
    ensures |b| >= 12 && UnShort(b, 0) == r.id && UnShort(b, 6) == |r.answers|
  {
    hide Short, UnShort, NameWire, ValidName, ValidAnswer, AnswersWire;
    var h := ResponseHeader(r);
    assert b[..12] == h;
    assert b[0..2] == h[0..2] == Short(r.id);
    assert b[6..8] == h[6..8] == Short(|r.answers|);
    ShortAt(b, 0, r.id);
    ShortAt(b, 6, |r.answers|);
  }

  // ---- The query's own name ----

  lemma {:induction false} FlatToEmpty(ls: seq<Bytes>, k: nat)
    requires Fits(ls) && k < |ls| && ls[k] == []
    ensures Flat(ls[..k]) + [0] <= Flat(ls)
    decreases |ls|
  {
    if k > 0 {
      FlatToEmpty(ls[1..], k - 1);
      assert ls[..k][1..] == ls[1..][..k - 1];
      assert ls[..k][0] == ls[0];
    }
  }

  /** Skipping the name of a built query, and the four bytes behind it, ends at the query's length
      exactly when the domain has no empty label. */
  lemma {:induction false} QuerySkips(domain: Bytes, id: nat)
    requires Fits(Labels(domain))
    ensures |Query(domain, id)| == |domain| + 18
    ensures
      && var r := Skip(Query(domain, id), 12);
      && r.Some? && (r.value + 4 == |Query(domain, id)| <==> NoneEmpty(Labels(domain)))
  {
    hide Short, Skip, Labels, Holds, Flat;
    var q, ls := Query(domain, id), Labels(domain);
    var k := FirstEmpty(ls);
    var n := Name(ls[..k], None);
    var question := Short(DNS_TYPE_A) + Short(DNS_CLASS_IN);
    FlatLength(domain);
    assert q == QueryHeader(id) + Wire(ls) + question;
    assert Holds(q, 0, q) by { WholeHolds(q); }
    HoldsParts(q, 0, QueryHeader(id) + Wire(ls), question);
    HoldsParts(q, 0, QueryHeader(id), Wire(ls));
    if k == |ls| {
      assert ls[..k] == ls;
    } else {
      FlatToEmpty(ls, k);
      var rest := Wire(ls)[|NameWire(n)|..];
      assert Wire(ls) == NameWire(n) + rest && rest != [];
      HoldsParts(q, 12, NameWire(n), rest);
    }
    SkipsHeldName(q, 12, n);
  }

  /** A built query in bytes: the id, high byte first; 01 00 for a standard query with recursion desired;
      one question and no records; the name; TYPE 1 and CLASS 1. */
  lemma {:induction false} QueryBytes(domain: Bytes, id: nat)
    requires Fits(Labels(domain)) && id < 0x1_0000
    ensures
      && var q := Query(domain, id);
      && |q| == |domain| + 18
      && q[0] as nat == id / 256 && q[1] as nat == id % 256
      && q[2..12] == [1, 0, 0, 1, 0, 0, 0, 0, 0, 0]
      && q[12..|q| - 4] == Wire(Labels(domain))
      && q[|q| - 4..] == [0, 1, 0, 1]
  {
    HeaderBytes(id);
    QuestionBytes();
    QueryParts(domain, id);
    WireLength(domain);
    hide Labels, Flat, Fits, QueryHeader, Short, Wire, Query;
    ThreeParts(QueryHeader(id), Wire(Labels(domain)), [0, 1, 0, 1]);
  }

  lemma {:induction false} QueryParts(domain: Bytes, id: nat)
    requires Fits(Labels(domain))
    ensures Query(domain, id) == QueryHeader(id) + Wire(Labels(domain)) + (Short(DNS_TYPE_A) + Short(DNS_CLASS_IN))
  {
    hide QueryHeader, Wire, Labels, Short, Fits;
  }

  lemma {:induction false} WireLength(domain: Bytes)
    requires Fits(Labels(domain))
    ensures |Wire(Labels(domain))| == |domain| + 2
  {
    hide Labels, Flat, Fits;
    FlatLength(domain);
  }

  lemma {:induction false} HeaderBytes(id: nat)
    requires id < 0x1_0000
    ensures QueryHeader(id) == [(id / 256) as byte, (id % 256) as byte, 1, 0, 0, 1, 0, 0, 0, 0, 0, 0]
  {
    assert Short(id) == [(id / 256) as byte, (id % 256) as byte];
    assert Short(DNS_HEADER_FLAGS) == [1, 0] && Short(1) == [0, 1] && Short(0) == [0, 0];
    hide Short;
  }

  lemma {:induction false} QuestionBytes()
    ensures Short(DNS_TYPE_A) + Short(DNS_CLASS_IN) == [0, 1, 0, 1]
  {
    assert Short(1) == [0, 1];
  }

  lemma {:induction false} ThreeParts(h: Bytes, w: Bytes, t: Bytes)
    requires |h| == 12 && |t| == 4
    ensures
      && var q := h + w + t;
      && q[12..|q| - 4] == w && q[|q| - 4..] == t && q[..12] == h
      && q[0] == h[0] && q[1] == h[1] && q[2..12] == h[2..]
  {
  }

  /** A decoder reads the labels of the domain out of a built query, and TYPE and CLASS behind them. */
  lemma {:induction false} QueryReadBack(domain: Bytes, id: nat)
    requires Fits(Labels(domain)) && id < 0x1_0000 && NoneEmpty(Labels(domain))
    ensures |Query(domain, id)| >= 12 && UnShort(Query(domain, id), 0) == id
    ensures Decode(Query(domain, id)[12..]) == Some((Labels(domain), [0, 1, 0, 1]))
  {
    hide Labels, Flat, Fits, NoneEmpty, Query;
    QueryBytes(domain, id);
    var q := Query(domain, id);
    hide Wire, Decode;
    assert q[12..] == q[12..|q| - 4] + q[|q| - 4..];
    NameRoundTrip(domain, [0, 1, 0, 1]);
  }

  // ---- The response, byte by byte ----

  /** A name in bytes: its labels, then 0, or a pointer with the two high bits set. */
  lemma {:induction false} NameBytes(n: Name)
    requires ValidName(n)
    ensures
      NameWire(n) == Flat(n.labels) + if n.pointer.None? then [0]
                                      else [(0xC0 + n.pointer.value / 256) as byte, (n.pointer.value % 256) as byte]
  {
    hide Flat;
    if n.pointer.Some? {
      var p := n.pointer.value;
      assert (0xC000 + p) / 256 == 0xC0 + p / 256 && (0xC000 + p) % 256 == p % 256;
    }
  }

  /** A resource record in bytes: behind the name TYPE, CLASS, TTL and RDLENGTH, each high byte first. */
  lemma {:induction false} AnswerBytes(a: Answer)
    requires ValidAnswer(a)
    ensures
      AnswerWire(a) == NameWire(a.name) + [
        (a.type_ / 256) as byte, (a.type_ % 256) as byte, (a.class_ / 256) as byte, (a.class_ % 256) as byte,
        (a.ttl / 0x100_0000) as byte, (a.ttl / 0x1_0000 % 256) as byte, (a.ttl / 256 % 256) as byte, (a.ttl % 256) as byte,
        (|a.rdata| / 256) as byte, (|a.rdata| % 256) as byte] + a.rdata
  {
    LongBytes(a.ttl);
    hide NameWire, Long, ValidName;
    var r := |a.rdata|;
    assert Short(a.type_) == [(a.type_ / 256) as byte, (a.type_ % 256) as byte];
    assert Short(a.class_) == [(a.class_ / 256) as byte, (a.class_ % 256) as byte];
    assert Short(r) == [(r / 256) as byte, (r % 256) as byte];
  }

  lemma {:induction false} LongBytes(n: nat)
    requires n < 0x1_0000_0000
    ensures
      Long(n) == [(n / 0x100_0000) as byte, (n / 0x1_0000 % 256) as byte, (n / 256 % 256) as byte, (n % 256) as byte]
  {
    ShiftTwice(n);
    var h := n / 0x1_0000;
    assert h / 256 == n / 0x100_0000;
  }

  /** The header of a response in bytes, as far as the parser reads it: the id and the number of
      answers, high byte first. */
  lemma {:induction false} ResponseBytes(r: Response)
    requires ValidResponse(r)
    ensures
      && var b := ResponseWire(r);
      && |b| >= 12 && b[0] as nat == r.id / 256 && b[1] as nat == r.id % 256
      && b[6] as nat == |r.answers| / 256 && b[7] as nat == |r.answers| % 256
  {
    hide NameWire, ValidName, ValidAnswer, AnswersWire;
    assert ResponseWire(r)[..12] == ResponseHeader(r);
    var h := ResponseHeader(r);
    assert ResponseWire(r)[0] == h[0] && ResponseWire(r)[1] == h[1];
    assert ResponseWire(r)[6] == h[6] && ResponseWire(r)[7] == h[7];
  }

  /** The two checks that end the parser at once. */
  lemma {:induction false} EarlyOutcomes(b: Bytes, expectedId: nat)
    ensures Parse(b, expectedId).0 == NoHeader <==> |b| < 12
    ensures Parse(b, expectedId).0 == WrongId <==> |b| >= 12 && b[0] as nat * 256 + b[1] as nat != expectedId
    ensures |b| < 12 || b[0] as nat * 256 + b[1] as nat != expectedId ==> Parse(b, expectedId).1 == []
  {
    hide Skip, ParseAnswers;
    if |b| >= 12 && Skip(b, 12).Some? {
      NeitherLater(b, Skip(b, 12).value + 4, UnShort(b, 6));
    }
  }

  lemma {:induction false} NeitherLater(b: Bytes, pos: nat, n: nat)
    ensures ParseAnswers(b, pos, n).0 != NoHeader && ParseAnswers(b, pos, n).0 != WrongId
    decreases n
  {
    hide Skip, UnShort, UnLong;
    if n > 0 && AnswerAt(b, pos).Go? {
      NeitherLater(b, AnswerAt(b, pos).next, n - 1);
    }
  }

  /** The places where a walk over a name finds a length: each is followed by the one that many bytes and
      one behind it, and bytes of 0 and from 0xC0 on end the walk. */
  ghost predicate IsWalk(b: Bytes, places: seq<nat>) {
    && places != [] && places[|places| - 1] < |b|
    && (b[places[|places| - 1]] == 0 || b[places[|places| - 1]] >= 0xC0)
    && forall i :: 0 <= i < |places| - 1 ==>
         && places[i] < |b| && 0 < b[places[i]] < 0xC0
         && places[i + 1] == places[i] + 1 + b[places[i]] as nat
  }

  /** A name is skipped exactly when there is such a walk from its start, and the position is behind the
      walk's end: one byte behind a 0, two behind a pointer. */
  lemma {:induction false} SkipsByWalking(b: Bytes, pos: nat, end: nat)
    ensures
      Skip(b, pos) == Some(end) <==>
      exists places :: IsWalk(b, places) && places[0] == pos
                       && end == places[|places| - 1] + if b[places[|places| - 1]] == 0 then 1 else 2
  {
    if Skip(b, pos) == Some(end) {
      var places := WalkOf(b, pos, end);
    }
    if places :| IsWalk(b, places) && places[0] == pos
                 && end == places[|places| - 1] + if b[places[|places| - 1]] == 0 then 1 else 2 {
      WalkSkips(b, places);
    }
  }

  lemma {:induction false} WalkOf(b: Bytes, pos: nat, end: nat) returns (places: seq<nat>)
    requires Skip(b, pos) == Some(end)
    ensures IsWalk(b, places) && places[0] == pos
    ensures end == places[|places| - 1] + if b[places[|places| - 1]] == 0 then 1 else 2
    decreases |b| - pos
  {
    if b[pos] == 0 || b[pos] >= 0xC0 {
      places := [pos];
    } else {
      var rest := WalkOf(b, pos + 1 + b[pos] as nat, end);
      places := [pos] + rest;
    }
  }

  lemma {:induction false} WalkSkips(b: Bytes, places: seq<nat>)
    requires IsWalk(b, places)
    ensures
      && var last := places[|places| - 1];
      && Skip(b, places[0]) == Some(last + if b[last] == 0 then 1 else 2)
    decreases |places|
  {
    if |places| > 1 {
      WalkSkips(b, places[1..]);
    }
  }
}
