/** The LSM tree as a value: a memtable and numbered immutable files, and the plain map it has to
    agree with. */
module LsmStore {
  import opened Wrappers
  import opened Bytes
  import opened Words
  import opened SSTable
  import opened TableNames

  const MEMTABLE_FLUSH_THRESHOLD: nat := 4

  /** The sentinel is built from a C string that begins with NUL, so it is the empty string. */
  const TOMBSTONE: Bytes := []

  /** `files[i]` holds the bytes of table number `i`. */
  datatype Store = Store(mem: map<Bytes, Bytes>, files: seq<Bytes>)

  ghost function Put(st: Store, key: Bytes, value: Bytes): Store {
    var mem := st.mem[key := value];
    if |mem.Keys| >= MEMTABLE_FLUSH_THRESHOLD then Store(map[], st.files + [Encode(Listing(mem))])
    else Store(mem, st.files)
  }

  /** A new process on the same directory: the memtable is lost. */
  function Reopen(st: Store): Store {
    Store(map[], st.files)
  }

  /** What a caller sees of a stored value. */
  function Visible(value: Option<Bytes>): Option<Bytes> {
    if value == Some(TOMBSTONE) then None else value
  }

  /** The file system's view of the tables. */
  function Disk(dir: Bytes, files: seq<Bytes>): map<Bytes, Bytes> {
    if files == [] then map[]
    else Disk(dir, files[..|files| - 1])[Path(dir, |files| - 1) := files[|files| - 1]]
  }

  function Paths(dir: Bytes, n: nat): (ps: seq<Bytes>)
    ensures |ps| == n
  {
    seq(n, i requires 0 <= i < n => Path(dir, i))
  }

  /** The value of the first table, in the given order, that has the key. */
  function Scan(disk: map<Bytes, Bytes>, paths: seq<Bytes>, key: Bytes): Option<Bytes> {
    if paths == [] then None
    else
      var found := if paths[0] in disk then Find(Decode(disk[paths[0]]), key) else None;
      if found.Some? then found else Scan(disk, paths[1..], key)
  }

  function Get(dir: Bytes, st: Store, key: Bytes): Option<Bytes> {
    if key in st.mem then Visible(Some(st.mem[key]))
    else Visible(Scan(Disk(dir, st.files), SortDescending(Paths(dir, |st.files|)), key))
  }

  // ---- Histories ----

  datatype Op = PutOp(key: Bytes, value: Bytes) | DelOp(key: Bytes) | ReopenOp

  ghost function Apply(st: Store, op: Op): Store {
    match op
    case PutOp(k, v) => Put(st, k, v)
    case DelOp(k) => Put(st, k, TOMBSTONE)
    case ReopenOp => Reopen(st)
  }

  ghost function Run(ops: seq<Op>): Store {
    if ops == [] then Store(map[], []) else Apply(Run(ops[..|ops| - 1]), ops[|ops| - 1])
  }

  /** The reference: a plain map, the map as of the last flush, and the keys written since. */
  datatype Ref = Ref(current: map<Bytes, Bytes>, durable: map<Bytes, Bytes>, pending: set<Bytes>)

  function RefWrite(r: Ref, key: Bytes, current: map<Bytes, Bytes>): Ref {
    var pending := r.pending + {key};
    if |pending| >= 4 then Ref(current, current, {}) else Ref(current, r.durable, pending)
  }

  /** Storing the empty string deletes. */
  function RefPut(r: Ref, key: Bytes, value: Bytes): Ref {
    RefWrite(r, key, if value == [] then r.current - {key} else r.current[key := value])
  }

  function RefApply(r: Ref, op: Op): Ref {
    match op
    case PutOp(k, v) => RefPut(r, k, v)
    case DelOp(k) => RefWrite(r, k, r.current - {k})
    case ReopenOp => Ref(r.durable, r.durable, {})
  }

  function RefRun(ops: seq<Op>): Ref {
    if ops == [] then Ref(map[], map[], {}) else RefApply(RefRun(ops[..|ops| - 1]), ops[|ops| - 1])
  }

  predicate OpFits(op: Op) {
    match op
    case PutOp(k, v) => |k| < WORD32 && |v| < WORD32
    case DelOp(k) => |k| < WORD32
    case ReopenOp => true
  }

  ghost predicate AllFit(ops: seq<Op>) {
    forall i :: 0 <= i < |ops| ==> OpFits(ops[i])
  }

  // ---- Files in age order ----

  lemma {:induction false} DiskHas(dir: Bytes, files: seq<Bytes>, i: nat)
    requires i < |files|
    ensures Path(dir, i) in Disk(dir, files) && Disk(dir, files)[Path(dir, i)] == files[i]
  {
    hide Path;
    if i < |files| - 1 {
      DiskHas(dir, files[..|files| - 1], i);
      if Path(dir, i) == Path(dir, |files| - 1) {
        PathInjective(dir, i, |files| - 1);
      }
    }
  }

  lemma {:induction false} DiskOnly(dir: Bytes, files: seq<Bytes>, p: Bytes)
    requires p in Disk(dir, files)
    ensures exists i :: 0 <= i < |files| && p == Path(dir, i)
  {
    hide Path;
    var n := |files| - 1;
    if p != Path(dir, n) {
      DiskOnly(dir, files[..n], p);
    }
  }

  /** Newest first, by number. */
  function Newest(dir: Bytes, n: nat): (ps: seq<Bytes>)
    ensures |ps| == n
  {
    if n == 0 then [] else [Path(dir, n - 1)] + Newest(dir, n - 1)
  }

  lemma {:induction false} NewestAt(dir: Bytes, n: nat, i: nat)
    requires i < n
    ensures Newest(dir, n)[i] == Path(dir, n - 1 - i)
  {
    hide Path;
    if i > 0 {
      NewestAt(dir, n - 1, i - 1);
    }
  }

  lemma {:induction false} PathsGrow(dir: Bytes, n: nat)
    ensures Paths(dir, n + 1) == Paths(dir, n) + [Path(dir, n)]
  {
    hide Path;
  }

  lemma {:induction false} NewestIsPermutation(dir: Bytes, n: nat)
    ensures multiset(Newest(dir, n)) == multiset(Paths(dir, n))
  {
    hide Path;
    if n > 0 {
      PathsGrow(dir, n - 1);
      hide Paths;
      NewestIsPermutation(dir, n - 1);
    }
  }

  /** Sorting the names puts the tables newest first exactly as long as there are at most 10000. */
  lemma {:induction false} SortedNewestFirst(dir: Bytes, n: nat)
    ensures SortDescending(Paths(dir, n)) == Newest(dir, n) <==> n <= 10000
  {
    hide Path, Less, Paths, Newest, SortDescending;
    SortIsDescending(Paths(dir, n));
    NewestIsPermutation(dir, n);
    if n <= 10000 {
      NewestDescends(dir, n);
      DescendingUnique(SortDescending(Paths(dir, n)), Newest(dir, n));
    } else {
      NameOrderBreaks(dir);
      var i := n - 1 - 10000;
      NewestAt(dir, n, i);
      NewestAt(dir, n, i + 1);
      assert !Descending(Newest(dir, n));
    }
  }

  lemma {:induction false} NewestDescends(dir: Bytes, n: nat)
    requires n <= 10000
    ensures Descending(Newest(dir, n))
  {
    hide Path, Less, Newest;
    forall i: nat, j: nat | i < j < n
      ensures !Less(Newest(dir, n)[i], Newest(dir, n)[j])
    {
      NewestAt(dir, n, i);
      NewestAt(dir, n, j);
      NamesInAgeOrder(dir, n - 1 - j, n - 1 - i);
      Trichotomy(Path(dir, n - 1 - j), Path(dir, n - 1 - i));
    }
  }

  // ---- Agreement with the plain map ----

  ghost function Layers(tables: seq<map<Bytes, Bytes>>): map<Bytes, Bytes> {
    if tables == [] then map[] else Layers(tables[..|tables| - 1]) + tables[|tables| - 1]
  }

  function Strip(m: map<Bytes, Bytes>): map<Bytes, Bytes> {
    map k | k in m && m[k] != [] :: m[k]
  }

  ghost predicate MapFits(m: map<Bytes, Bytes>) {
    forall k :: k in m ==> |k| < WORD32 && |m[k]| < WORD32
  }

  ghost predicate Written(files: seq<Bytes>, tables: seq<map<Bytes, Bytes>>) {
    && |files| == |tables|
    && forall i :: 0 <= i < |files| ==> files[i] == Encode(Listing(tables[i])) && MapFits(tables[i])
  }

  /** The store, whose files hold `tables`, agrees with the reference. */
  ghost predicate Agrees(st: Store, tables: seq<map<Bytes, Bytes>>, r: Ref) {
    && Written(st.files, tables) && MapFits(st.mem)
    && st.mem.Keys == r.pending && |r.pending| < 4
    && Strip(Layers(tables)) == r.durable
    && Strip(Layers(tables) + st.mem) == r.current
  }

  lemma {:induction false} TableRoundTrip(m: map<Bytes, Bytes>, key: Bytes)
    requires MapFits(m)
    ensures Find(Decode(Encode(Listing(m))), key) == Lookup(m, key)
  {
    ListingSorted(m);
    FindInListing(m, key);
    var es := Listing(m);
    forall e | e in es
      ensures Fits(e)
    {
      var i :| 0 <= i < |es| && es[i] == e;
      assert es[i].key in m;
    }
    RoundTrip(es);
  }

  lemma {:induction false} ScanFrame(disk: map<Bytes, Bytes>, disk': map<Bytes, Bytes>, paths: seq<Bytes>, key: Bytes)
    requires forall i :: 0 <= i < |paths| ==> paths[i] in disk && paths[i] in disk' && disk[paths[i]] == disk'[paths[i]]
    ensures Scan(disk, paths, key) == Scan(disk', paths, key)
  {
    if paths != [] {
      ScanFrame(disk, disk', paths[1..], key);
    }
  }

  lemma {:induction false} OlderTablesSame(dir: Bytes, files: seq<Bytes>, key: Bytes)
    requires files != []
    ensures var n := |files| - 1;
            Scan(Disk(dir, files), Newest(dir, n), key) == Scan(Disk(dir, files[..n]), Newest(dir, n), key)
  {
    hide Path;
    hide Scan;
    hide Disk;
    var n := |files| - 1;
    forall i | 0 <= i < n
      ensures var p := Newest(dir, n)[i];
              p in Disk(dir, files) && p in Disk(dir, files[..n]) && Disk(dir, files)[p] == Disk(dir, files[..n])[p]
    {
      NewestAt(dir, n, i);
      DiskHas(dir, files, n - 1 - i);
      DiskHas(dir, files[..n], n - 1 - i);
    }
    ScanFrame(Disk(dir, files), Disk(dir, files[..n]), Newest(dir, n), key);
  }

  lemma {:induction false} ScanFindsLayer(dir: Bytes, files: seq<Bytes>, tables: seq<map<Bytes, Bytes>>, key: Bytes)
    requires Written(files, tables)
    ensures Scan(Disk(dir, files), Newest(dir, |files|), key) == Lookup(Layers(tables), key)
    decreases |files|
  {
    hide Path;
    hide Decode;
    hide Encode;
    hide Listing;
    hide Disk;
    hide MapFits;
    if files != [] {
      var n := |files| - 1;
      DiskHas(dir, files, n);
      TableRoundTrip(tables[n], key);
      ScanFindsLayer(dir, files[..n], tables[..n], key);
      OlderTablesSame(dir, files, key);
      assert Newest(dir, n + 1)[1..] == Newest(dir, n);
    }
  }

  lemma {:induction false} GetFromLayers(dir: Bytes, st: Store, tables: seq<map<Bytes, Bytes>>, r: Ref, key: Bytes)
    requires Agrees(st, tables, r) && |st.files| <= 10000
    ensures Get(dir, st, key) == Lookup(r.current, key)
  {
    hide Disk;
    hide Scan;
    hide Layers;
    SortedNewestFirst(dir, |st.files|);
    ScanFindsLayer(dir, st.files, tables, key);
    assert key in r.current <==> key in Strip(Layers(tables) + st.mem);
  }

  lemma {:induction false} StripPut(m: map<Bytes, Bytes>, key: Bytes, value: Bytes)
    ensures Strip(m[key := value]) == if value == [] then Strip(m) - {key} else Strip(m)[key := value]
  {
  }

  lemma {:induction false} LayersPut(below: map<Bytes, Bytes>, mem: map<Bytes, Bytes>, key: Bytes, value: Bytes)
    ensures below + mem[key := value] == (below + mem)[key := value]
  {
  }

  lemma {:induction false} LayersFlush(tables: seq<map<Bytes, Bytes>>, mem: map<Bytes, Bytes>)
    ensures Layers(tables + [mem]) == Layers(tables) + mem
    ensures Layers(tables + [mem]) + map[] == Layers(tables) + mem
  {
    assert (tables + [mem])[..|tables|] == tables;
  }

  lemma {:induction false} FlushWritten(files: seq<Bytes>, tables: seq<map<Bytes, Bytes>>, mem: map<Bytes, Bytes>)
    requires Written(files, tables) && MapFits(mem)
    ensures Written(files + [Encode(Listing(mem))], tables + [mem])
  {
    hide Encode;
    hide Listing;
    hide MapFits;
  }

  lemma {:induction false} PutAgrees(st: Store, tables: seq<map<Bytes, Bytes>>, r: Ref, key: Bytes, value: Bytes)
    returns (tables': seq<map<Bytes, Bytes>>)
    requires Agrees(st, tables, r) && |key| < WORD32 && |value| < WORD32
    ensures Agrees(Put(st, key, value), tables', RefPut(r, key, value))
  {
    hide Encode;
    hide Listing;
    hide Strip;
    hide Layers;
    hide Written;
    var mem := st.mem[key := value];
    assert mem.Keys == r.pending + {key};
    assert MapFits(mem) && MapFits(map[]);
    hide MapFits;
    StripPut(Layers(tables) + st.mem, key, value);
    LayersPut(Layers(tables), st.mem, key, value);
    if |mem.Keys| >= MEMTABLE_FLUSH_THRESHOLD {
      LayersFlush(tables, mem);
      FlushWritten(st.files, tables, mem);
      tables' := tables + [mem];
    } else {
      tables' := tables;
    }
  }

  lemma {:induction false} RunAgrees(ops: seq<Op>) returns (tables: seq<map<Bytes, Bytes>>)
    requires AllFit(ops)
    ensures Agrees(Run(ops), tables, RefRun(ops))
  {
    hide Apply;
    hide RefApply;
    if ops == [] {
      tables := [];
    } else {
      tables := RunAgrees(ops[..|ops| - 1]);
      tables := ApplyAgrees(Run(ops[..|ops| - 1]), tables, RefRun(ops[..|ops| - 1]), ops[|ops| - 1]);
    }
  }

  lemma {:induction false} DeletesEmpty(r: Ref, key: Bytes)
    ensures RefPut(r, key, []) == RefWrite(r, key, r.current - {key})
  {
    hide RefWrite;
  }

  lemma {:induction false} ApplyAgrees(st: Store, tables: seq<map<Bytes, Bytes>>, r: Ref, op: Op)
    returns (tables': seq<map<Bytes, Bytes>>)
    requires Agrees(st, tables, r) && OpFits(op)
    ensures Agrees(Apply(st, op), tables', RefApply(r, op))
  {
    hide Put, RefPut, RefWrite, Strip, Layers, Written;
    match op {
      case PutOp(k, v) =>
        tables' := PutAgrees(st, tables, r, k, v);
      case DelOp(k) =>
        tables' := PutAgrees(st, tables, r, k, []);
        DeletesEmpty(r, k);
      case ReopenOp =>
        tables' := tables;
        assert Layers(tables) + map[] == Layers(tables);
    }
  }

  /** Through overwrites, deletions, flushes and restarts, a lookup gives what the plain map has. */
  lemma {:induction false} GetAgreesWithMap(dir: Bytes, ops: seq<Op>, key: Bytes)
    requires AllFit(ops) && |Run(ops).files| <= 10000
    ensures Get(dir, Run(ops), key) == Lookup(RefRun(ops).current, key)
    ensures |Run(ops).mem.Keys| < 4
  {
    var tables := RunAgrees(ops);
    GetFromLayers(dir, Run(ops), tables, RefRun(ops), key);
  }

  /** A store reopened after any history answers as the map stood at the last flush. */
  lemma {:induction false} ReopenedAnswersAsAtLastFlush(dir: Bytes, ops: seq<Op>, key: Bytes)
    requires AllFit(ops) && |Run(ops).files| <= 10000
    ensures Get(dir, Reopen(Run(ops)), key) == Lookup(RefRun(ops).durable, key)
  {
    var ops' := ops + [ReopenOp];
    assert ops'[..|ops'| - 1] == ops;
    GetAgreesWithMap(dir, ops', key);
  }

  /** A value put is the value got, unless it is empty: storing an empty value is deleting. */
  lemma {:induction false} ReadYourWrites(dir: Bytes, ops: seq<Op>, key: Bytes, value: Bytes)
    requires AllFit(ops) && |key| < WORD32 && |value| < WORD32
    requires |Put(Run(ops), key, value).files| <= 10000
    ensures Get(dir, Put(Run(ops), key, value), key) == if |value| > 0 then Some(value) else None
  {
    var ops' := ops + [PutOp(key, value)];
    assert ops'[..|ops'| - 1] == ops;
    GetAgreesWithMap(dir, ops', key);
  }

  /** A deleted key is not found, and deleting is storing the empty string. */
  lemma {:induction false} DeletedIsGone(dir: Bytes, ops: seq<Op>, key: Bytes)
    requires AllFit(ops) && |key| < WORD32
    ensures Apply(Run(ops), DelOp(key)) == Apply(Run(ops), PutOp(key, []))
    ensures |Apply(Run(ops), DelOp(key)).files| <= 10000 ==> Get(dir, Apply(Run(ops), DelOp(key)), key) == None
  {
    var ops' := ops + [DelOp(key)];
    assert ops'[..|ops'| - 1] == ops;
    if |Run(ops').files| <= 10000 {
      GetAgreesWithMap(dir, ops', key);
    }
  }

  /** A table is written exactly when a fourth key comes to three others. */
  lemma {:induction false} FlushesAtFour(ops: seq<Op>, key: Bytes, value: Bytes)
    requires AllFit(ops)
    ensures
      && var st, after := Run(ops), Put(Run(ops), key, value);
      && var full := key !in st.mem && |st.mem.Keys| == 3;
      && |st.mem.Keys| <= 3
      && |after.files| == |st.files| + (if full then 1 else 0)
      && after.mem == if full then map[] else st.mem[key := value]
  {
    hide Run, RefRun, AllFit, Listing, Encode;
    var tables := RunAgrees(ops);
    MemorySize(Run(ops), tables, RefRun(ops));
    var mem := Run(ops).mem;
    assert mem[key := value].Keys == mem.Keys + {key};
  }

  lemma {:induction false} MemorySize(st: Store, tables: seq<map<Bytes, Bytes>>, r: Ref)
    requires Agrees(st, tables, r)
    ensures |st.mem.Keys| <= 3
  {
    hide Layers, Strip, Written, MapFits;
  }
}
