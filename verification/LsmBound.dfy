/** The bound of 10000 tables is exact: with one table more, a lookup can return an old value. */
module LsmBound {
  import opened Wrappers
  import opened Bytes
  import opened Words
  import opened SSTable
  import opened TableNames
  import opened LsmStore

  const A: Bytes := [97]
  const B: Bytes := [98]
  const C: Bytes := [99]
  const D: Bytes := [100]

  /** Four puts that fill the memtable and flush it. */
  function Round(v: Bytes): seq<Op> {
    [PutOp(A, v), PutOp(B, v), PutOp(C, v), PutOp(D, v)]
  }

  function Table(v: Bytes): map<Bytes, Bytes> {
    map[A := v, B := v, C := v, D := v]
  }

  function Rounds(n: nat, v: Bytes): seq<Op> {
    if n == 0 then [] else Rounds(n - 1, v) + Round(v)
  }

  lemma {:induction false} RunOneMore(ops: seq<Op>, op: Op)
    ensures Run(ops + [op]) == Apply(Run(ops), op)
    ensures RefRun(ops + [op]) == RefApply(RefRun(ops), op)
  {
    assert (ops + [op])[..|ops|] == ops;
  }

  lemma {:induction false} RunFourMore(ops: seq<Op>, v: Bytes)
    ensures Run(ops + Round(v)) == Put(Put(Put(Put(Run(ops), A, v), B, v), C, v), D, v)
    ensures RefRun(ops + Round(v)) == RefPut(RefPut(RefPut(RefPut(RefRun(ops), A, v), B, v), C, v), D, v)
  {
    hide Run;
    hide RefRun;
    hide Put;
    hide RefPut;
    var ops1 := ops + [PutOp(A, v)];
    var ops2 := ops1 + [PutOp(B, v)];
    var ops3 := ops2 + [PutOp(C, v)];
    RunOneMore(ops, PutOp(A, v));
    RunOneMore(ops1, PutOp(B, v));
    RunOneMore(ops2, PutOp(C, v));
    RunOneMore(ops3, PutOp(D, v));
    assert ops + Round(v) == ops3 + [PutOp(D, v)];
  }

  lemma {:induction false} RoundFlushes(files: seq<Bytes>, v: Bytes)
    ensures Put(Put(Put(Put(Store(map[], files), A, v), B, v), C, v), D, v)
            == Store(map[], files + [Encode(Listing(Table(v)))])
  {
    hide Encode;
    hide Listing;
    assert map[][A := v].Keys == {A};
    assert map[][A := v][B := v].Keys == {A, B};
    assert map[][A := v][B := v][C := v].Keys == {A, B, C};
    assert map[][A := v][B := v][C := v][D := v] == Table(v);
    assert Table(v).Keys == {A, B, C, D};
  }

  lemma {:induction false} RunRounds(n: nat, v: Bytes)
    ensures Run(Rounds(n, v)).mem == map[] && |Run(Rounds(n, v)).files| == n
    ensures forall i :: 0 <= i < n ==> Run(Rounds(n, v)).files[i] == Encode(Listing(Table(v)))
  {
    hide Encode, Listing, Put, Table, Run, RefRun, RefPut, Round;
    if n == 0 {
      NothingRun();
    } else {
      RunRounds(n - 1, v);
      RunFourMore(Rounds(n - 1, v), v);
      RoundFlushes(Run(Rounds(n - 1, v)).files, v);
    }
  }

  lemma {:induction false} NothingRun()
    ensures Run([]) == Store(map[], [])
  {
  }

  lemma {:induction false} RoundsFit(n: nat, v: Bytes)
    requires |v| == 1
    ensures AllFit(Rounds(n, v))
  {
    if n > 0 {
      RoundsFit(n - 1, v);
    }
  }

  lemma {:induction false} TopNotLess(s: seq<Bytes>, j: nat)
    requires Descending(s) && j < |s|
    ensures !Less(s[0], s[j])
  {
    Trichotomy(s[0], s[0]);
  }

  /** With 10001 tables the newest one is not the first in name order. */
  lemma {:induction false} NewestNotFirst(dir: Bytes, n: nat)
    requires n == 10000
    ensures var s := SortDescending(Paths(dir, n + 1));
            s != [] && exists i :: 0 <= i < n && s[0] == Path(dir, i)
  {
    hide Path, Less, SortDescending;
    var ps := Paths(dir, n + 1);
    var s := SortDescending(ps);
    SortIsDescending(ps);
    assert ps[n - 1] == Path(dir, n - 1);
    var j := SameMembers(ps, s, n - 1);
    TopNotLess(s, j);
    NameOrderBreaks(dir);
    var i := SameMembers(s, ps, 0);
    assert ps[i] == Path(dir, i);
  }

  lemma {:induction false} SameMembers(a: seq<Bytes>, b: seq<Bytes>, i: nat) returns (j: nat)
    requires i < |a| && multiset(a) == multiset(b)
    ensures j < |b| && b[j] == a[i]
  {
    assert a[i] in multiset(b);
    j :| 0 <= j < |b| && b[j] == a[i];
  }

  lemma {:induction false} FirstTableAnswers(dir: Bytes, files: seq<Bytes>, n: nat, v: Bytes)
    requires n == 10000 && |files| == n + 1 && |v| < WORD32
    requires forall i :: 0 <= i < n ==> files[i] == Encode(Listing(Table(v)))
    ensures Scan(Disk(dir, files), SortDescending(Paths(dir, n + 1)), A) == Some(v)
  {
    hide Encode;
    hide Decode;
    hide Listing;
    hide Path;
    hide Disk;
    hide SortDescending;
    NewestNotFirst(dir, n);
    var i :| 0 <= i < n && SortDescending(Paths(dir, n + 1))[0] == Path(dir, i);
    DiskHas(dir, files, i);
    TableRoundTrip(Table(v), A);
  }

  /** A history with one table too many: the last value put under key A is [2], and the lookup
      gives [1], which an older table holds. */
  lemma {:induction false} StaleRead(dir: Bytes, n: nat) returns (ops: seq<Op>)
    requires n == 10000
    ensures AllFit(ops) && |Run(ops).files| == n + 1
    ensures Get(dir, Run(ops), A) == Some([1]) && Lookup(RefRun(ops).current, A) == Some([2])
  {
    hide Encode, Listing, Put, RefPut, RefWrite, Table, Scan, Disk;
    ops := Rounds(n, [1]) + Round([2]);
    RoundsFitThenMore(n);
    RunRounds(n, [1]);
    RunFourMore(Rounds(n, [1]), [2]);
    RoundFlushes(Run(Rounds(n, [1])).files, [2]);
    FirstTableAnswers(dir, Run(ops).files, n, [1]);
    LastPutStays(RefRun(Rounds(n, [1])));
  }

  lemma {:induction false} RoundsFitThenMore(n: nat)
    ensures AllFit(Rounds(n, [1]) + Round([2]))
  {
    RoundsFit(n, [1]);
  }

  lemma {:induction false} LastPutStays(r: Ref)
    ensures Lookup(RefPut(RefPut(RefPut(RefPut(r, A, [2]), B, [2]), C, [2]), D, [2]).current, A) == Some([2])
  {
  }

  /** Every lookup after every history that makes at most `n` tables agrees with the plain map. */
  ghost predicate AgreesUpTo(n: nat) {
    forall dir, ops, key | AllFit(ops) && |Run(ops).files| <= n ::
      Get(dir, Run(ops), key) == Lookup(RefRun(ops).current, key)
  }

  lemma {:induction false} TableLimit(n: nat)
    ensures AgreesUpTo(n) <==> n <= 10000
  {
    if n <= 10000 {
      forall dir, ops, key | AllFit(ops) && |Run(ops).files| <= n
        ensures Get(dir, Run(ops), key) == Lookup(RefRun(ops).current, key)
      {
        GetAgreesWithMap(dir, ops, key);
      }
    } else {
      var ops := StaleRead([], 10000);
      assert Get([], Run(ops), A) != Lookup(RefRun(ops).current, A);
    }
  }
}
