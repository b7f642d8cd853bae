/** The LSM tree as the program has it: an object with a memtable, a list of paths and a counter,
    over a file system. Each method is proved against the value-level store of LsmStore. */
module LsmTree {
  import opened Wrappers
  import opened Bytes
  import opened Sequences
  import opened SSTable
  import opened TableNames
  import S = LsmStore

  const SLASH: byte := 47

  /** Path `p` names a file directly in directory `dir`. */
  predicate InDir(dir: Bytes, p: Bytes) {
    |p| > |dir| && p[..|dir| + 1] == dir + [SLASH] && SLASH !in p[|dir| + 1..]
  }

  // ---- Tables in a directory ----

  /** The directory holds the tables numbered below `n` and nothing else. */
  ghost predicate TablesOnly(files: map<Bytes, Bytes>, dir: Bytes, n: nat) {
    && (forall i :: 0 <= i < n ==> Path(dir, i) in files)
    && (forall p :: p in files && InDir(dir, p) ==> exists i :: 0 <= i < n && p == Path(dir, i))
  }

  ghost function TableBytes(files: map<Bytes, Bytes>, dir: Bytes, n: nat): (bs: seq<Bytes>)
    requires TablesOnly(files, dir, n)
    ensures |bs| == n
  {
    seq(n, i requires 0 <= i < n => files[Path(dir, i)])
  }

  lemma {:induction false} DecimalDigits(n: nat)
    ensures forall i :: 0 <= i < |Decimal(n)| ==> Decimal(n)[i] > SLASH
  {
    if n >= 10 {
      DecimalDigits(n / 10);
    }
  }

  lemma {:induction false} PathInDir(dir: Bytes, n: nat)
    ensures InDir(dir, Path(dir, n))
  {
    DecimalDigits(n);
    assert Ascii("/") == [SLASH];
    var name := Name(n);
    assert Path(dir, n) == dir + [SLASH] + name;
    assert Path(dir, n)[|dir| + 1..] == name;
    assert SLASH !in Ascii("sstable_") && SLASH !in Ascii(".sst") && SLASH !in Padded(n);
  }

  lemma {:induction false} NextUnused(files: map<Bytes, Bytes>, dir: Bytes, n: nat)
    requires TablesOnly(files, dir, n)
    ensures Path(dir, n) !in files
  {
    hide Path;
    PathInDir(dir, n);
    if Path(dir, n) in files {
      var i :| 0 <= i < n && Path(dir, n) == Path(dir, i);
      PathInjective(dir, n, i);
    }
  }

  lemma {:induction false} TablesGrow(files: map<Bytes, Bytes>, dir: Bytes, n: nat, data: Bytes)
    requires TablesOnly(files, dir, n)
    ensures TablesOnly(files[Path(dir, n) := data], dir, n + 1)
    ensures TableBytes(files[Path(dir, n) := data], dir, n + 1) == TableBytes(files, dir, n) + [data]
  {
    hide Path;
    NextUnused(files, dir, n);
    var files' := files[Path(dir, n) := data];
    forall i | 0 <= i < n
      ensures Path(dir, i) != Path(dir, n)
    {
      if Path(dir, i) == Path(dir, n) { PathInjective(dir, i, n); }
    }
  }

  lemma {:induction false} DiskMatches(files: map<Bytes, Bytes>, dir: Bytes, n: nat, paths: seq<Bytes>, i: nat)
    requires TablesOnly(files, dir, n) && paths == SortDescending(S.Paths(dir, n)) && i < |paths|
    ensures paths[i] in files && paths[i] in S.Disk(dir, TableBytes(files, dir, n))
    ensures S.Disk(dir, TableBytes(files, dir, n))[paths[i]] == files[paths[i]]
  {
    hide Path;
    hide SortDescending;
    assert paths[i] in multiset(paths);
    assert paths[i] in S.Paths(dir, n);
    var j :| 0 <= j < n && S.Paths(dir, n)[j] == paths[i];
    S.DiskHas(dir, TableBytes(files, dir, n), j);
  }

  lemma {:induction false} NextPaths(dir: Bytes, n: nat, paths: seq<Bytes>)
    requires paths == SortDescending(S.Paths(dir, n))
    ensures SortDescending(paths + [Path(dir, n)]) == SortDescending(S.Paths(dir, n + 1))
  {
    hide Path;
    hide SortDescending;
    SortIsDescending(paths + [Path(dir, n)]);
    SortIsDescending(S.Paths(dir, n + 1));
    assert S.Paths(dir, n + 1) == S.Paths(dir, n) + [Path(dir, n)];
    DescendingUnique(SortDescending(paths + [Path(dir, n)]), SortDescending(S.Paths(dir, n + 1)));
  }

  lemma {:induction false} SameElements(a: seq<Bytes>, b: seq<Bytes>)
    requires NoDuplicates(a) && NoDuplicates(b)
    requires forall x :: x in a <==> x in b
    ensures multiset(a) == multiset(b)
  {
    forall x
      ensures multiset(a)[x] == multiset(b)[x]
    {
      AtMostOnce(a, x);
      AtMostOnce(b, x);
    }
  }

  lemma {:induction false} AtMostOnce(a: seq<Bytes>, x: Bytes)
    requires NoDuplicates(a)
    ensures multiset(a)[x] == if x in a then 1 else 0
  {
    if a != [] {
      AtMostOnce(a[1..], x);
      assert a == [a[0]] + a[1..];
    }
  }

  /** `names` lists the files of a directory, each once, in some order. */
  ghost predicate IsListing(files: map<Bytes, Bytes>, dir: Bytes, names: seq<Bytes>) {
    && NoDuplicates(names)
    && (forall i :: 0 <= i < |names| ==> InDir(dir, dir + [SLASH] + names[i]) && dir + [SLASH] + names[i] in files)
    && (forall p :: p in files && InDir(dir, p) ==> p[|dir| + 1..] in names)
  }

  function Join(dir: Bytes, name: Bytes): Bytes {
    dir + [SLASH] + name
  }

  function JoinAll(dir: Bytes, names: seq<Bytes>): (paths: seq<Bytes>)
    ensures |paths| == |names| && forall i :: 0 <= i < |names| ==> paths[i] == Join(dir, names[i])
  {
    if names == [] then [] else JoinAll(dir, names[..|names| - 1]) + [Join(dir, names[|names| - 1])]
  }

  lemma {:induction false} PathsDistinct(dir: Bytes, n: nat)
    ensures NoDuplicates(S.Paths(dir, n))
  {
    hide Path;
    forall i, j | 0 <= i < j < n
      ensures S.Paths(dir, n)[i] != S.Paths(dir, n)[j]
    {
      if S.Paths(dir, n)[i] == S.Paths(dir, n)[j] { PathInjective(dir, i, j); }
    }
  }

  lemma {:induction false} TablesAreListed(dir: Bytes, n: nat, files: map<Bytes, Bytes>, names: seq<Bytes>)
    requires TablesOnly(files, dir, n) && IsListing(files, dir, names)
    ensures forall x :: x in S.Paths(dir, n) ==> x in JoinAll(dir, names)
  {
    hide Path;
    forall x | x in S.Paths(dir, n)
      ensures x in JoinAll(dir, names)
    {
      var i :| 0 <= i < n && S.Paths(dir, n)[i] == x;
      PathInDir(dir, i);
      var k :| 0 <= k < |names| && names[k] == x[|dir| + 1..];
      assert x == dir + [SLASH] + x[|dir| + 1..];
      assert JoinAll(dir, names)[k] == x;
    }
  }

  lemma {:induction false} ListedAreTables(dir: Bytes, n: nat, files: map<Bytes, Bytes>, names: seq<Bytes>)
    requires TablesOnly(files, dir, n) && IsListing(files, dir, names)
    ensures forall x :: x in JoinAll(dir, names) ==> x in S.Paths(dir, n)
  {
    hide Path;
    hide InDir;
    var paths := JoinAll(dir, names);
    forall x | x in paths
      ensures x in S.Paths(dir, n)
    {
      var k :| 0 <= k < |paths| && paths[k] == x;
      assert InDir(dir, x) && x in files;
      var i :| 0 <= i < n && x == Path(dir, i);
      assert S.Paths(dir, n)[i] == x;
    }
  }

  lemma {:induction false} ListedPaths(dir: Bytes, n: nat, files: map<Bytes, Bytes>, names: seq<Bytes>, paths: seq<Bytes>)
    requires TablesOnly(files, dir, n)
    requires IsListing(files, dir, names) && paths == JoinAll(dir, names)
    ensures multiset(paths) == multiset(S.Paths(dir, n)) && |paths| == n
  {
    hide Path;
    hide TablesOnly;
    var ps := S.Paths(dir, n);
    PathsDistinct(dir, n);
    ListedAreTables(dir, n, files, names);
    TablesAreListed(dir, n, files, names);
    forall i, j | 0 <= i < j < |paths|
      ensures paths[i] != paths[j]
    {
      assert paths[i][|dir| + 1..] == names[i] && paths[j][|dir| + 1..] == names[j];
    }
    SameElements(paths, ps);
    assert |multiset(paths)| == |paths| && |multiset(ps)| == |ps|;
  }

  lemma {:induction false} SortedListing(dir: Bytes, n: nat, files: map<Bytes, Bytes>, names: seq<Bytes>, paths: seq<Bytes>)
    requires TablesOnly(files, dir, n)
    requires IsListing(files, dir, names) && paths == JoinAll(dir, names)
    ensures SortDescending(paths) == SortDescending(S.Paths(dir, n)) && |paths| == n
  {
    hide Path;
    hide SortDescending;
    ListedPaths(dir, n, files, names, paths);
    SortIsDescending(paths);
    SortIsDescending(S.Paths(dir, n));
    DescendingUnique(SortDescending(paths), SortDescending(S.Paths(dir, n)));
  }

  lemma {:induction false} ListingEmpty(f: Bytes)
    ensures f + Encode(Listing(map[])) == f
  {
  }

  lemma {:induction false} NoTables(dir: Bytes)
    ensures SortDescending(S.Paths(dir, 0)) == []
  {
  }

  lemma {:induction false} AppendEntry(f: Bytes, key: Bytes, value: Bytes)
    ensures f + Word(|key|) + key + Word(|value|) + value == f + EncodeEntry(Entry(key, value))
  {
    hide Word;
  }

  lemma {:induction false} ListingFirst(m: map<Bytes, Bytes>, key: Bytes)
    requires IsLeast(key, m.Keys)
    ensures Encode(Listing(m)) == EncodeEntry(Entry(key, m[key])) + Encode(Listing(m - {key}))
  {
    LeastUnique(key, Listing(m)[0].key, m.Keys);
    assert Listing(m)[1..] == Listing(m - {key});
  }

  class FileSystem {
    var files: map<Bytes, Bytes>
    var dirs: set<Bytes>

    constructor ()
      ensures files == map[] && dirs == {}
    {
      files, dirs := map[], {};
    }

    method CreateDirectories(dir: Bytes) returns (created: bool)
      modifies this`dirs
      ensures created <==> dir !in old(dirs)
      ensures dirs == old(dirs) + {dir}
    {
      created := dir !in dirs;
      dirs := dirs + {dir};
    }

    /** The names in a directory, in no particular order. */
    method ListDirectory(dir: Bytes) returns (names: seq<Bytes>)
      ensures IsListing(files, dir, names)
    {
      names := [];
      var rest := set p | p in files && InDir(dir, p);
      while rest != {}
        invariant NoDuplicates(names)
        invariant forall i :: 0 <= i < |names| ==>
                    InDir(dir, dir + [SLASH] + names[i]) && dir + [SLASH] + names[i] in files
        invariant forall p :: p in rest ==> p in files && InDir(dir, p) && p[|dir| + 1..] !in names
        invariant forall p :: p in files && InDir(dir, p) ==> p in rest || p[|dir| + 1..] in names
      {
        var p :| p in rest;
        assert p == dir + [SLASH] + p[|dir| + 1..];
        forall q | q in rest && q != p
          ensures q[|dir| + 1..] != p[|dir| + 1..]
        {
          assert q == dir + [SLASH] + q[|dir| + 1..];
        }
        rest := rest - {p};
        names := names + [p[|dir| + 1..]];
      }
    }

    /** Opening a file for writing empties it. */
    method Create(path: Bytes)
      modifies this`files
      ensures files == old(files)[path := []]
    {
      files := files[path := []];
    }

    method Append(path: Bytes, data: Bytes)
      requires path in files
      modifies this`files
      ensures files == old(files)[path := old(files)[path] + data]
    {
      files := files[path := files[path] + data];
    }
  }

  /** An `std::ifstream` that has been opened, with the bytes not yet read: a failed read takes what
      there is and clears `good`. */
  class InputFile {
    var rest: Bytes
    var good: bool

    constructor (data: Bytes)
      ensures good && rest == data
    {
      rest, good := data, true;
    }

    method Read(n: nat) returns (got: Bytes)
      modifies this
      ensures old(good) && n <= |old(rest)| ==> good && got == old(rest)[..n] && rest == old(rest)[n..]
      ensures old(good) && n > |old(rest)| ==> !good && got == old(rest)
      ensures !old(good) ==> !good && got == []
    {
      got := [];
      if good {
        var k := if n <= |rest| then n else |rest|;
        good := k == n;
        got, rest := rest[..k], rest[k..];
      }
    }
  }

  lemma {:induction false} DecodeNothing(b: Bytes)
    requires |b| < 4 || |b| < 8 + UnWord(b[..4])
    ensures Decode(b) == []
  {
    hide UnWord;
  }

  lemma {:induction false} DecodeOne(b: Bytes, b1: Bytes, key: Bytes, b2: Bytes, b3: Bytes, v: nat)
    requires |b| >= 4 && b1 == b[4..] && |b1| >= UnWord(b[..4]) + 4
    requires key == b1[..UnWord(b[..4])] && b2 == b1[UnWord(b[..4])..]
    requires v == UnWord(b2[..4]) && b3 == b2[4..]
    ensures |b3| < v ==> Decode(b) == [Entry(key, b3 + Zeros(v - |b3|))]
    ensures |b3| >= v ==> Decode(b) == [Entry(key, b3[..v])] + Decode(b3[v..])
  {
    hide UnWord;
  }

  lemma {:induction false} NoPadding(b: Bytes)
    ensures b + Zeros(0) == b
  {
  }

  /** The reading loop, over the bytes of an open file. */
  method ReadEntries(bytes: Bytes) returns (entries: seq<Entry>)
    ensures entries == Decode(bytes)
  {
    hide Decode;
    hide UnWord;
    hide Zeros;
    var file := new InputFile(bytes);
    entries := [];
    while file.good
      invariant fresh(file)
      invariant file.good ==> Decode(bytes) == entries + Decode(file.rest)
      invariant !file.good ==> Decode(bytes) == entries
      decreases file.good, |file.rest|
    {
      ghost var b := file.rest;
      var word := file.Read(4);
      if !file.good { DecodeNothing(b); break; }
      var keyLen := UnWord(word);
      ghost var b1 := file.rest;
      var key := file.Read(keyLen);
      NoPadding(key);
      key := key + Zeros(keyLen - |key|);
      ghost var b2 := file.rest;
      word := file.Read(4);
      if !file.good { DecodeNothing(b); break; }
      var valLen := UnWord(word);
      ghost var b3 := file.rest;
      DecodeOne(b, b1, key, b2, b3, valLen);
      var val := file.Read(valLen);
      NoPadding(val);
      val := val + Zeros(valLen - |val|);
      assert entries + ([Entry(key, val)] + Decode(file.rest)) == entries + [Entry(key, val)] + Decode(file.rest);
      entries := entries + [Entry(key, val)];
    }
  }

  class LSMTree {
    const fs: FileSystem
    const dataDir: Bytes
    var memtable: map<Bytes, Bytes>
    var sstableCount: nat
    var sstablePaths: seq<Bytes>

    /** The directory holds the tables numbered below `sstableCount` and nothing else, and the list
        of paths is in descending order. */
    ghost predicate TablesValid()
      reads this, fs
    {
      && dataDir in fs.dirs
      && TablesOnly(fs.files, dataDir, sstableCount)
      && sstablePaths == SortDescending(S.Paths(dataDir, sstableCount))
    }

    ghost predicate Valid()
      reads this, fs
    {
      TablesValid() && |memtable.Keys| < 4
    }

    ghost function Store(): S.Store
      reads this, fs
      requires TablesValid()
    {
      S.Store(memtable, TableBytes(fs.files, dataDir, sstableCount))
    }

    /** Opening a directory that does not exist yet, or that holds the tables of an earlier run. */
    constructor (fs: FileSystem, dataDir: Bytes, ghost n: nat)
      requires TablesOnly(fs.files, dataDir, n) && (dataDir !in fs.dirs ==> n == 0)
      modifies fs`dirs
      ensures this.fs == fs && this.dataDir == dataDir && Valid()
      ensures sstableCount == n && Store() == S.Store(map[], TableBytes(fs.files, dataDir, n))
    {
      hide TablesOnly, TableBytes, SortDescending, S.Paths;
      this.fs := fs;
      this.dataDir := dataDir;
      this.memtable := map[];
      this.sstableCount := 0;
      this.sstablePaths := [];
      new;
      FindTables(n);
    }

    /** The constructor's body: a directory that is already there is searched. */
    method FindTables(ghost n: nat)
      requires TablesOnly(fs.files, dataDir, n) && (dataDir !in fs.dirs ==> n == 0)
      requires sstablePaths == [] && sstableCount == 0
      modifies this`sstablePaths, this`sstableCount, fs`dirs
      ensures dataDir in fs.dirs && sstableCount == n && sstablePaths == SortDescending(S.Paths(dataDir, n))
    {
      hide Path, SortDescending, InDir, TablesOnly, IsListing, Join, JoinAll, S.Paths;
      NoTables(dataDir);
      var created := fs.CreateDirectories(dataDir);
      if created { return; }
      var names := fs.ListDirectory(dataDir);
      CollectPaths(names);
      SortedListing(dataDir, n, fs.files, names, sstablePaths);
      sstablePaths := SortDescending(sstablePaths);
    }

    /** The constructor's loop over the directory's entries. */
    method CollectPaths(names: seq<Bytes>)
      requires sstablePaths == [] && sstableCount == 0
      modifies this`sstablePaths, this`sstableCount
      ensures sstablePaths == JoinAll(dataDir, names) && sstableCount == |names|
    {
      var i := 0;
      while i < |names|
        invariant 0 <= i <= |names| && sstableCount == i
        invariant sstablePaths == JoinAll(dataDir, names[..i])
      {
        assert names[..i + 1][..i] == names[..i];
        sstablePaths := sstablePaths + [Join(dataDir, names[i])];
        sstableCount := sstableCount + 1;
        i := i + 1;
      }
      assert names[..|names|] == names;
    }

    method Put(key: Bytes, value: Bytes)
      requires Valid()
      modifies this, fs`files
      ensures Valid() && Store() == S.Put(old(Store()), key, value)
      ensures forall p :: p in old(fs.files) ==> p in fs.files && fs.files[p] == old(fs.files)[p]
    {
      memtable := memtable[key := value];
      MaybeFlush();
    }

    method Del(key: Bytes)
      requires Valid()
      modifies this, fs`files
      ensures Valid() && Store() == S.Put(old(Store()), key, [])
      ensures forall p :: p in old(fs.files) ==> p in fs.files && fs.files[p] == old(fs.files)[p]
    {
      Put(key, S.TOMBSTONE);
    }

    method Get(key: Bytes) returns (value: Option<Bytes>)
      requires Valid()
      ensures value == S.Get(dataDir, Store(), key)
    {
      hide Decode;
      hide SortDescending;
      hide S.Disk;
      hide TablesOnly;
      if key in memtable {
        if memtable[key] == S.TOMBSTONE { return None; }
        return Some(memtable[key]);
      }
      ghost var disk := S.Disk(dataDir, Store().files);
      var i := 0;
      while i < |sstablePaths|
        invariant 0 <= i <= |sstablePaths|
        invariant S.Scan(disk, sstablePaths, key) == S.Scan(disk, sstablePaths[i..], key)
      {
        var table := ReadSSTable(sstablePaths[i]);
        DiskMatches(fs.files, dataDir, sstableCount, sstablePaths, i);
        var j := 0;
        while j < |table|
          invariant 0 <= j <= |table|
          invariant Find(table, key) == Find(table[j..], key)
        {
          if key == table[j].key {
            if table[j].value == S.TOMBSTONE { return None; }
            return Some(table[j].value);
          }
          j := j + 1;
        }
        assert sstablePaths[i..][1..] == sstablePaths[i + 1..];
        i := i + 1;
      }
      value := None;
    }

    method MaybeFlush()
      requires TablesValid()
      modifies this, fs`files
      ensures Valid()
      ensures Store() == if |old(memtable).Keys| >= 4
                         then S.Store(map[], old(Store()).files + [Encode(Listing(old(memtable)))])
                         else old(Store())
      ensures forall p :: p in old(fs.files) ==> p in fs.files && fs.files[p] == old(fs.files)[p]
    {
      if |memtable.Keys| >= S.MEMTABLE_FLUSH_THRESHOLD {
        Flush();
      }
    }

    method Flush()
      requires TablesValid()
      modifies this, fs`files
      ensures Valid() && Store() == S.Store(map[], old(Store()).files + [Encode(Listing(old(memtable)))])
      ensures forall p :: p in old(fs.files) ==> p in fs.files && fs.files[p] == old(fs.files)[p]
    {
      WriteSSTable(memtable, Path(dataDir, sstableCount));
      memtable := map[];
    }

    /** The name of the next table is unused, so nothing is overwritten. */
    method WriteSSTable(data: map<Bytes, Bytes>, path: Bytes)
      requires TablesValid() && path == Path(dataDir, sstableCount)
      modifies this`sstablePaths, this`sstableCount, fs`files
      ensures TablesValid() && sstableCount == old(sstableCount) + 1
      ensures path !in old(fs.files) && fs.files == old(fs.files)[path := Encode(Listing(data))]
      ensures Store().files == old(Store()).files + [Encode(Listing(data))]
    {
      hide Listing;
      hide Encode;
      hide Path;
      hide TablesOnly;
      hide SortDescending;
      NextUnused(fs.files, dataDir, sstableCount);
      fs.Create(path);
      WriteEntries(data, path);
      assert fs.files == old(fs.files)[path := Encode(Listing(data))];
      NextPaths(dataDir, sstableCount, sstablePaths);
      TablesGrow(old(fs.files), dataDir, sstableCount, Encode(Listing(data)));
      sstablePaths := SortDescending(sstablePaths + [path]);
      sstableCount := sstableCount + 1;
    }

    /** The loop over the map, in key order. */
    method WriteEntries(data: map<Bytes, Bytes>, path: Bytes)
      requires path in fs.files && fs.files[path] == []
      modifies fs`files
      ensures fs.files == old(fs.files)[path := Encode(Listing(data))]
    {
      hide Listing;
      hide Encode;
      hide EncodeEntry;
      var rest := data;
      while rest != map[]
        invariant path in fs.files && fs.files == old(fs.files)[path := fs.files[path]]
        invariant fs.files[path] + Encode(Listing(rest)) == Encode(Listing(data))
        decreases |rest.Keys|
      {
        SomeLeast(rest.Keys);
        var key :| IsLeast(key, rest.Keys);
        ListingFirst(rest, key);
        ghost var e, more := EncodeEntry(Entry(key, rest[key])), Encode(Listing(rest - {key}));
        assert fs.files[path] + e + more == fs.files[path] + (e + more);
        WriteEntry(path, key, rest[key]);
        rest := rest - {key};
      }
      ListingEmpty(fs.files[path]);
    }

    /** The four writes of one entry. */
    method WriteEntry(path: Bytes, key: Bytes, val: Bytes)
      requires path in fs.files
      modifies fs`files
      ensures fs.files == old(fs.files)[path := old(fs.files)[path] + EncodeEntry(Entry(key, val))]
    {
      hide Word;
      hide EncodeEntry;
      AppendEntry(fs.files[path], key, val);
      fs.Append(path, Word(|key|));
      fs.Append(path, key);
      fs.Append(path, Word(|val|));
      fs.Append(path, val);
    }

    method ReadSSTable(path: Bytes) returns (entries: seq<Entry>)
      ensures entries == if path in fs.files then Decode(fs.files[path]) else []
    {
      if path !in fs.files { return []; }
      entries := ReadEntries(fs.files[path]);
    }
  }

  /** A new process opening the directory of an earlier one: the same path list and counter, and a
      store that has lost exactly its memtable. */
  method Restart(tree: LSMTree) returns (again: LSMTree)
    requires tree.Valid()
    modifies tree.fs`dirs
    ensures again.Valid() && again.fs == tree.fs && again.dataDir == tree.dataDir
    ensures again.sstablePaths == tree.sstablePaths && again.sstableCount == tree.sstableCount
    ensures again.Store() == S.Reopen(old(tree.Store()))
  {
    again := new LSMTree(tree.fs, tree.dataDir, tree.sstableCount);
  }
}
