/** The store between a write and the files: writes go to the memtable, a memtable over its limit is
    written out as a table file and replaced by an empty one. */
module Database {
  import opened Sequences
  import opened ByteStrings
  import opened SortedPairs
  import opened SkipLists
  import opened SstTable
  import opened SstTheorems
  import opened SSTableBuilders
  import opened FileWriters
  import opened MemTables
  import BloomFilters
  import Codec

  // ---------- writes and what they mean ----------

  datatype Write = PutKey(key: Bytes, value: Bytes) | DeleteKey(key: Bytes)

  /** Strings reach the memtable through `string_view::data()`, so they end at their first NUL. A
      deleted key keeps the empty value. */
  function Apply(m: map<Bytes, Bytes>, w: Write): map<Bytes, Bytes> {
    match w
    case PutKey(k, v) => m[CStr(k) := CStr(v)]
    case DeleteKey(k) => m[CStr(k) := []]
  }

  /** The same on whole strings. */
  function ApplyWhole(m: map<Bytes, Bytes>, w: Write): map<Bytes, Bytes> {
    match w
    case PutKey(k, v) => m[k := v]
    case DeleteKey(k) => m[k := []]
  }

  predicate NulFree(w: Write) {
    0 !in w.key && (w.PutKey? ==> 0 !in w.value)
  }

  /** Truncation is harmless in every state exactly for NUL-free strings. */
  lemma TruncationHarmless(w: Write)
    ensures (forall m: map<Bytes, Bytes> :: Apply(m, w) == ApplyWhole(m, w)) <==> NulFree(w)
  {
    CStrExact(w.key);
    if w.PutKey? {
      CStrExact(w.value);
    }
    if forall m: map<Bytes, Bytes> :: Apply(m, w) == ApplyWhole(m, w) {
      var a, b := Apply(map[], w), ApplyWhole(map[], w);
      assert a == b;
      assert CStr(w.key) in a.Keys && w.key in b.Keys;
      assert b.Keys == {w.key};
    }
  }

  function ApplyAll(m: map<Bytes, Bytes>, ws: seq<Write>): map<Bytes, Bytes> {
    if ws == [] then m else Apply(ApplyAll(m, ws[..|ws| - 1]), ws[|ws| - 1])
  }

  /** The value a write leaves for its key. */
  function Written(w: Write): Bytes {
    if w.PutKey? then CStr(w.value) else []
  }

  /** `i` is the last write to `k`. */
  ghost predicate IsLast(ws: seq<Write>, k: Bytes, i: nat) {
    i < |ws| && CStr(ws[i].key) == k && forall j :: i < j < |ws| ==> CStr(ws[j].key) != k
  }

  /** The last write to a key counts, whatever was written before. */
  lemma {:induction false} LastWriteCounts(m: map<Bytes, Bytes>, ws: seq<Write>, i: nat)
    requires i < |ws| && IsLast(ws, CStr(ws[i].key), i)
    ensures var k := CStr(ws[i].key);
            && k in ApplyAll(m, ws)
            && ApplyAll(m, ws)[k] == match ws[i] { case PutKey(_, v) => CStr(v) case DeleteKey(_) => [] }
  {
    var n := |ws| - 1;
    if i < n {
      assert CStr(ws[n].key) != CStr(ws[i].key);
      LastWriteCounts(m, ws[..n], i);
    }
  }

  /** A key never written keeps what it had. */
  lemma {:induction false} Untouched(m: map<Bytes, Bytes>, ws: seq<Write>, k: Bytes)
    requires forall i :: 0 <= i < |ws| ==> CStr(ws[i].key) != k
    ensures k in ApplyAll(m, ws) <==> k in m
    ensures k in m ==> ApplyAll(m, ws)[k] == m[k]
  {
    if ws != [] {
      Untouched(m, ws[..|ws| - 1], k);
      assert CStr(ws[|ws| - 1].key) != k;
    }
  }

  /** The memtable's pairs after a write. */
  ghost function AfterWrite(ps: seq<Pair>, w: Write): seq<Pair> {
    Put(Remove(ps, CStr(w.key)), CStr(w.key), Written(w))
  }

  // ---------- when a run fills files, and when it fails ----------

  /** The memtable's pairs, the tables written so far, and how many keys were in the memtable each was made from. */
  datatype Stage = Stage(pending: seq<Pair>, tables: seq<seq<Pair>>, counts: seq<nat>)

  const NEW := Stage([], [], [])

  /** The pairs have to go to a file and make none. */
  ghost predicate Jams(limit: nat, ps: seq<Pair>) {
    Usage(ps) >= limit && !Convertible(ps)
  }

  /** The memtable's pairs are written to a table. */
  ghost function Tabled(s: Stage): Stage {
    Stage(s.pending, s.tables + [Kept(s.pending)], s.counts + [|s.pending|])
  }

  /** What follows every write: pairs that reach the limit become a table. */
  ghost function Flushed(limit: nat, s: Stage): Stage {
    if Usage(s.pending) >= limit then Tabled(s).(pending := []) else s
  }

  ghost function OneWrite(limit: nat, s: Stage, w: Write): Stage {
    Flushed(limit, s.(pending := AfterWrite(s.pending, w)))
  }

  ghost function AfterAll(limit: nat, s: Stage, ws: seq<Write>): Stage {
    if ws == [] then s else OneWrite(limit, AfterAll(limit, s, ws[..|ws| - 1]), ws[|ws| - 1])
  }

  /** Write `i` brings the memtable to its limit with pairs that make no table. */
  ghost predicate JamsAt(limit: nat, s: Stage, ws: seq<Write>, i: nat) {
    i < |ws| && Jams(limit, AfterWrite(AfterAll(limit, s, ws[..i]).pending, ws[i]))
  }

  ghost predicate SomeJam(limit: nat, s: Stage, ws: seq<Write>) {
    exists i :: JamsAt(limit, s, ws, i)
  }

  /** Closing makes the last table and leaves the memtable as it is. */
  ghost function Closed(s: Stage): Stage {
    if s.pending == [] then s else Tabled(s)
  }

  lemma AfterNext(limit: nat, s: Stage, ws: seq<Write>, i: nat)
    requires i < |ws|
    ensures AfterAll(limit, s, ws[..i + 1]) == OneWrite(limit, AfterAll(limit, s, ws[..i]), ws[i])
  {
    assert ws[..i + 1][..i] == ws[..i];
  }

  lemma AfterNone(limit: nat, s: Stage)
    ensures AfterAll(limit, s, []) == s
  {
  }

  /** Pairs of which any may come first in a table. */
  ghost predicate Small(ps: seq<Pair>) {
    forall i {:trigger ps[i]} :: 0 <= i < |ps| ==> SmallPair(ps[i].key, ps[i].value)
  }

  predicate SmallPair(key: Bytes, value: Bytes) {
    key != [] && 12 + |key| + |value| <= 4096
  }

  ghost predicate AllSmall(ws: seq<Write>) {
    forall i {:trigger ws[i]} :: 0 <= i < |ws| ==> SmallPair(CStr(ws[i].key), Written(ws[i]))
  }

  lemma SmallAfterWrite(ps: seq<Pair>, w: Write)
    requires Small(ps) && SmallPair(CStr(w.key), Written(w))
    ensures Small(AfterWrite(ps, w)) && Convertible(AfterWrite(ps, w))
  {
    assert AfterWrite(ps, w) != [];
    assert SmallPair(AfterWrite(ps, w)[0].key, AfterWrite(ps, w)[0].value);
  }

  /** Writes whose records all fit a block and have a key never fail. */
  lemma {:induction false} SmallNeverJams(limit: nat, s: Stage, ws: seq<Write>, n: nat)
    requires Small(s.pending) && AllSmall(ws) && n <= |ws|
    ensures Small(AfterAll(limit, s, ws[..n]).pending)
    ensures n < |ws| ==> !JamsAt(limit, s, ws, n)
  {
    TakeAll(ws);
    AfterNone(limit, s);
    hide AfterAll, AfterWrite, SmallPair;
    if n > 0 {
      SmallNeverJams(limit, s, ws, n - 1);
      AfterNext(limit, s, ws, n - 1);
      SmallAfterWrite(AfterAll(limit, s, ws[..n - 1]).pending, ws[n - 1]);
    }
    if n < |ws| {
      SmallAfterWrite(AfterAll(limit, s, ws[..n]).pending, ws[n]);
    }
  }

  // ---------- how large files get ----------

  ghost predicate AllWithin(ws: seq<Write>, width: nat) {
    forall i {:trigger ws[i]} :: 0 <= i < |ws| ==> |CStr(ws[i].key)| + |Written(ws[i])| <= width
  }

  ghost predicate TablesWithin(tables: seq<seq<Pair>>, size: nat) {
    forall i {:trigger tables[i]} :: 0 <= i < |tables| ==> Usage(tables[i]) <= size
  }

  /** The memtable stays within its limit, and a table holds at most one write more. */
  ghost predicate Within(s: Stage, limit: nat, width: nat) {
    Sorted(s.pending) && Usage(s.pending) <= limit && TablesWithin(s.tables, limit + width)
  }

  lemma {:induction false} UsageAfterWrite(ps: seq<Pair>, w: Write)
    requires Sorted(ps)
    ensures Sorted(AfterWrite(ps, w))
    ensures Usage(AfterWrite(ps, w)) <= Usage(ps) + |CStr(w.key)| + |Written(w)|
  {
    var k := CStr(w.key);
    var qs := Remove(ps, k);
    RemoveSorted(ps, k);
    PutSorted(qs, k, Written(w));
    if HasKey(ps, k) {
      RemoveUsage(ps, k);
    }
    if !HasKey(qs, k) {
      PutUsage(qs, k, Written(w));
    }
  }

  lemma {:induction false} UsageKept(ps: seq<Pair>)
    ensures Usage(Kept(ps)) <= Usage(ps)
  {
    if |ps| > 1 {
      assert ps[..|ps| - 1][1..] == ps[1..][..|ps| - 2];
      UsageKept(ps[..|ps| - 1]);
    }
  }

  lemma {:induction false} WithinNext(s: Stage, w: Write, limit: nat, width: nat)
    requires Within(s, limit, width) && |CStr(w.key)| + |Written(w)| <= width
    ensures Within(OneWrite(limit, s, w), limit, width)
    ensures Usage(AfterWrite(s.pending, w)) <= limit + width
  {
    UsageAfterWrite(s.pending, w);
    UsageKept(AfterWrite(s.pending, w));
  }

  lemma {:induction false} WithinAll(s: Stage, ws: seq<Write>, n: nat, limit: nat, width: nat)
    requires Within(s, limit, width) && AllWithin(ws, width) && n <= |ws|
    ensures Within(AfterAll(limit, s, ws[..n]), limit, width)
  {
    TakeAll(ws);
    AfterNone(limit, s);
    hide AfterAll, OneWrite, Within;
    if n > 0 {
      WithinAll(s, ws, n - 1, limit, width);
      AfterNext(limit, s, ws, n - 1);
      WithinNext(AfterAll(limit, s, ws[..n - 1]), ws[n - 1], limit, width);
    }
  }

  lemma ClosedWithin(s: Stage, limit: nat, width: nat)
    requires Within(s, limit, width)
    ensures TablesWithin(Closed(s).tables, limit + width)
  {
    UsageKept(s.pending);
  }

  // ---------- files and memtable together ----------

  /** Later tables override earlier ones. */
  ghost function Overlay(tables: seq<seq<Pair>>): map<Bytes, Bytes> {
    if tables == [] then map[]
    else Overlay(tables[..|tables| - 1]) + ToMap(tables[|tables| - 1])
  }

  /** Every file is that of its table, with the filter that the policy makes for that many keys. */
  ghost predicate TableFiles(policy: FilterPolicy, tables: seq<seq<Pair>>, counts: seq<nat>, files: seq<Bytes>) {
    && PolicyOk(policy) && |tables| == |counts| == |files|
    && forall i {:trigger files[i]} :: 0 <= i < |files| ==> TableFile(policy, tables[i], counts[i], files[i])
  }

  /** The filters in the files rule out no key of their tables. */
  ghost predicate FiltersPass(hash: Bytes -> BloomFilters.uint32, tables: seq<seq<Pair>>, files: seq<Bytes>) {
    && |tables| == |files|
    && forall i {:trigger files[i]} :: 0 <= i < |files| && |files[i]| < Codec.TWO_31 ==>
         AllPass(files[i], hash, tables[i])
  }

  ghost predicate AllPass(file: Bytes, hash: Bytes -> BloomFilters.uint32, kvs: seq<Pair>) {
    forall j {:trigger kvs[j]} :: 0 <= j < |kvs| ==> Passes(file, hash, kvs[j].key)
  }

  lemma {:induction false} NoneRuledOut(policy: FilterPolicy, tables: seq<seq<Pair>>, counts: seq<nat>,
                                        files: seq<Bytes>)
    requires TableFiles(policy, tables, counts, files)
    ensures FiltersPass(policy.hash, tables, files)
  {
    hide TableFile, Passes;
    forall i {:trigger files[i]} | 0 <= i < |files| && |files[i]| < Codec.TWO_31
      ensures AllPass(files[i], policy.hash, tables[i])
    {
      forall j {:trigger tables[i][j]} | 0 <= j < |tables[i]| ensures Passes(files[i], policy.hash, tables[i][j].key) {
        NoKeyRuledOut(policy, tables[i], counts[i], files[i], j);
      }
    }
  }

  /** All files read by the reference reader, oldest first. */
  function ReadFiles(files: seq<Bytes>): Option<seq<seq<Pair>>> {
    if files == [] then Some([])
    else
      var n := |files| - 1;
      match ReadFiles(files[..n])
      case None => None
      case Some(before) =>
        match ScanImage(files[n])
        case None => None
        case Some(kvs) => Some(before + [kvs])
  }

  lemma {:induction false} FilesRead(policy: FilterPolicy, tables: seq<seq<Pair>>, counts: seq<nat>,
                                     files: seq<Bytes>, n: nat)
    requires n <= |files| && TableFiles(policy, tables, counts, files) && AllShort(files)
    ensures ReadFiles(files[..n]) == Some(tables[..n])
  {
    hide TableFile;
    if n > 0 {
      FilesRead(policy, tables, counts, files, n - 1);
      TableFileReads(policy, tables[n - 1], counts[n - 1], files[n - 1]);
      TakeNext(tables, n - 1);
      TakeNext(files, n - 1);
      ReadMore(files[..n - 1], tables[..n - 1], files[n - 1], tables[n - 1]);
    }
  }

  lemma ReadMore(files: seq<Bytes>, tables: seq<seq<Pair>>, file: Bytes, kvs: seq<Pair>)
    requires ReadFiles(files) == Some(tables) && ScanImage(file) == Some(kvs)
    ensures ReadFiles(files + [file]) == Some(tables + [kvs])
  {
    var all := files + [file];
    assert all[..|all| - 1] == files;
  }

  /** Files whose lengths fit the 32-bit fields. */
  ghost predicate AllShort(files: seq<Bytes>) {
    forall i {:trigger files[i]} :: 0 <= i < |files| ==> |files[i]| < 0x8000_0000
  }

  /** The empty key never reaches a file. */
  ghost function Keyed(m: map<Bytes, Bytes>): map<Bytes, Bytes> {
    m - {[]}
  }

  /** Writing a memtable out moves its pairs from the memtable to the tables. */
  lemma FlushKeeps(tables: seq<seq<Pair>>, ps: seq<Pair>)
    requires Sorted(ps)
    ensures Keyed(Overlay(tables + [Kept(ps)])) == Keyed(Overlay(tables) + ToMap(ps))
    ensures Overlay(tables + [Kept(ps)]) + map[] == Overlay(tables + [Kept(ps)])
  {
    KeptIs(ps);
    OverlayMore(tables, Kept(ps));
    MergeKeyed(Overlay(tables), ToMap(ps), ToMap(Kept(ps)));
  }

  lemma OverlayMore(tables: seq<seq<Pair>>, kvs: seq<Pair>)
    ensures Overlay(tables + [kvs]) == Overlay(tables) + ToMap(kvs)
  {
    var more := tables + [kvs];
    assert more[..|more| - 1] == tables;
  }

  lemma MergeKeyed(a: map<Bytes, Bytes>, m: map<Bytes, Bytes>, m': map<Bytes, Bytes>)
    requires m' == m - {[]}
    ensures Keyed(a + m') == Keyed(a + m) && a + m' + map[] == a + m'
  {
  }

  lemma KeyedUpdate(m: map<Bytes, Bytes>, k: Bytes, v: Bytes)
    ensures Keyed(m[k := v]) == if k == [] then Keyed(m) else Keyed(m)[k := v]
  {
  }

  lemma KeyedApply(m: map<Bytes, Bytes>, m': map<Bytes, Bytes>, w: Write)
    requires Keyed(m) == Keyed(m')
    ensures Keyed(Apply(m, w)) == Keyed(Apply(m', w))
  {
    KeyedUpdate(m, CStr(w.key), Written(w));
    KeyedUpdate(m', CStr(w.key), Written(w));
  }

  lemma MergeEmpty(a: map<Bytes, Bytes>, m: map<Bytes, Bytes>)
    requires |m| == 0
    ensures a + m == a
  {
    assert m == map[];
  }

  lemma OverlayUpdate(a: map<Bytes, Bytes>, m: map<Bytes, Bytes>, k: Bytes, v: Bytes)
    ensures (a + m)[k := v] == a + m[k := v]
  {
  }

  lemma MoreFiles(policy: FilterPolicy, tables: seq<seq<Pair>>, counts: seq<nat>, files: seq<Bytes>, kvs: seq<Pair>,
                  n: nat, file: Bytes)
    requires TableFiles(policy, tables, counts, files) && TableFile(policy, kvs, n, file)
    ensures TableFiles(policy, tables + [kvs], counts + [n], files + [file])
  {
    hide TableFile;
  }

  /** A write that leaves `usage` bytes adds one file exactly when that reaches the limit; the memtable is below its
      limit then, or empty. */
  ghost predicate FlushedInTime(limit: nat, usage: int, pending: seq<Pair>, before: seq<Bytes>, files: seq<Bytes>) {
    && |files| == |before| + (if usage >= limit then 1 else 0) && files[..|before|] == before
    && (Usage(pending) < limit || pending == [])
  }

  class Db {
    const maxSize: nat
    const policy: FilterPolicy

    var memTable: MemTable
    var files: seq<Bytes>
    var closed: bool

    ghost var tables: seq<seq<Pair>>
    ghost var counts: seq<nat>

    ghost function Repr(): set<object>
      reads this, memTable, memTable.orderedTable
    {
      {this} + memTable.Repr()
    }

    ghost predicate Valid()
      reads this, memTable, memTable.orderedTable, Arrays(memTable.orderedTable.all)
    {
      && memTable.Valid() && this !in memTable.Repr()
      && TableFiles(policy, tables, counts, files)
    }

    /** What is stored: the tables, then the memtable. */
    ghost function Stored(): map<Bytes, Bytes>
      requires Valid()
      reads this, memTable, memTable.orderedTable, Arrays(memTable.orderedTable.all)
    {
      Overlay(tables) + memTable.Model()
    }

    /** The pairs in the memtable. */
    ghost function Pending(): seq<Pair>
      requires Valid()
      reads this, memTable, memTable.orderedTable, Arrays(memTable.orderedTable.all)
    {
      memTable.Pairs()
    }

    ghost function State(): Stage
      requires Valid()
      reads this, memTable, memTable.orderedTable, Arrays(memTable.orderedTable.all)
    {
      Stage(Pending(), tables, counts)
    }

    constructor (maxSize: nat, policy: FilterPolicy)
      requires PolicyOk(policy)
      ensures Valid() && fresh(Repr()) && Stored() == map[] && !closed && State() == NEW
      ensures this.maxSize == maxSize && this.policy == policy
    {
      this.maxSize, this.policy := maxSize, policy;
      memTable := new MemTable();
      files, closed, tables, counts := [], false, [], [];
    }

    method NewBuilder(size: int) returns (builder: SSTableBuilder)
      requires PolicyOk(policy)
      ensures builder.Valid() && builder.kvs == [] && fresh(builder.Repr())
      ensures builder.hash == policy.hash && builder.filterSize == policy.size(size)
      ensures builder.hashFuncNum == policy.num(size)
    {
      hide SSTableBuilder.Valid;
      var fileWriter := new FileWriter();
      builder := new SSTableBuilder(fileWriter, policy.hash, policy.size(size), policy.num(size));
    }

    /** The memtable as one file, with a writer and a builder of its own. */
    method WriteTable() returns (r: Outcome, file: Bytes)
      requires memTable.Valid() && PolicyOk(policy)
      ensures r == Success <==> Convertible(memTable.Pairs())
      ensures r == Success ==> TableFile(policy, Kept(memTable.Pairs()), |memTable.Pairs()|, file)
    {
      hide SSTableBuilder.Valid, SkipList.Valid, HasTable, PolicyOk, Usage;
      ghost var nodes := memTable.Repr();
      var size := memTable.GetSize();
      var builder := NewBuilder(size);
      assert memTable.Repr() == nodes;
      r := memTable.ConvertToL1SST(builder);
      file := builder.fileWriter.file;
    }

    /** Writes the memtable to a new file. */
    method MemTableToSST() returns (r: Outcome)
      requires Valid()
      modifies this`files, this`tables, this`counts
      ensures Valid()
      ensures r == Success <==> Convertible(old(Pending()))
      ensures r == Success ==> State() == Tabled(old(State()))
      ensures r == Success ==>
                && |files| == |old(files)| + 1 && files[..|old(files)|] == old(files)
                && TableFile(policy, Kept(old(Pending())), |old(Pending())|, files[|old(files)|])
      ensures r == Aborted ==> files == old(files) && State() == old(State())
    {
      hide TableFile, Kept, Convertible;
      ghost var ps := Pending();
      var file;
      r, file := WriteTable();
      if r == Success {
        MoreFiles(policy, tables, counts, files, Kept(ps), |ps|, file);
        files := files + [file];
        tables, counts := tables + [Kept(ps)], counts + [|ps|];
      }
    }

    /** What follows every write: a memtable over its limit goes to a file and a new one is opened. */
    method FlushIfFull() returns (r: Outcome)
      requires Valid()
      modifies this`files, this`tables, this`counts, this`memTable
      ensures Valid() && fresh(Repr() - old(Repr()))
      ensures r == Aborted <==> Jams(maxSize, old(Pending()))
      ensures r == Success ==> State() == Flushed(maxSize, old(State()))
      ensures r == Success ==> Keyed(Stored()) == Keyed(old(Stored()))
      ensures Usage(old(Pending())) < maxSize ==> memTable == old(memTable) && files == old(files)
      ensures r == Success ==> FlushedInTime(maxSize, Usage(old(Pending())), Pending(), old(files), files)
    {
      hide TableFile, Keyed, Overlay, Kept, Convertible;
      var memUsage := memTable.GetMemUsage();
      if memUsage >= maxSize {
        FlushKeeps(tables, Pending());
        r := MemTableToSST();
        if r == Aborted {
          return;
        }
        memTable := new MemTable();
      }
      r := Success;
    }

    method InMemTable(key: Bytes) returns (found: bool)
      requires Valid()
      ensures found <==> CStr(key) in ToMap(Pending())
    {
      found := memTable.Contains(key);
    }

    /** The memtable step of a write. */
    method Store(opType: OpType, ghost w: Write, key: Bytes, value: Bytes)
      requires Valid() && key == w.key && value == (if w.PutKey? then w.value else [])
      requires opType == (if CStr(key) !in ToMap(Pending()) then Add else if w.PutKey? then Update else Deletion)
      modifies memTable.Repr()
      ensures Valid() && fresh(Repr() - old(Repr())) && Stored() == Apply(old(Stored()), w)
      ensures Pending() == AfterWrite(old(Pending()), w)
      ensures tables == old(tables) && counts == old(counts) && files == old(files)
    {
      hide TableFile, Overlay;
      OverlayUpdate(Overlay(tables), memTable.Model(), CStr(key), Written(w));
      memTable.Insert(opType, key, value);
    }

    method Put(key: Bytes, value: Bytes) returns (r: Outcome)
      requires Valid()
      modifies Repr()
      ensures r == Success ==> Valid() && fresh(Repr() - old(Repr())) && !old(closed) && closed == old(closed)
      ensures r == Success ==> Keyed(Stored()) == Keyed(Apply(old(Stored()), PutKey(key, value)))
      ensures r == Aborted <==> old(closed) || Jams(maxSize, AfterWrite(old(Pending()), PutKey(key, value)))
      ensures r == Success ==> State() == OneWrite(maxSize, old(State()), PutKey(key, value))
      ensures r == Success ==>
              FlushedInTime(maxSize, Usage(AfterWrite(old(Pending()), PutKey(key, value))), Pending(), old(files),
                            files)
    {
      hide Db.Valid, Db.Stored, Db.Pending, Keyed, Apply, AfterWrite, ToMap;
      if closed {
        return Aborted;
      }
      var found := InMemTable(key);
      Store(if found then Update else Add, PutKey(key, value), key, value);
      r := FlushIfFull();
    }

    method Delete(key: Bytes) returns (r: Outcome)
      requires Valid()
      modifies Repr()
      ensures r == Success ==> Valid() && fresh(Repr() - old(Repr())) && !old(closed) && closed == old(closed)
      ensures r == Success ==> Keyed(Stored()) == Keyed(Apply(old(Stored()), DeleteKey(key)))
      ensures r == Aborted <==> old(closed) || Jams(maxSize, AfterWrite(old(Pending()), DeleteKey(key)))
      ensures r == Success ==> State() == OneWrite(maxSize, old(State()), DeleteKey(key))
      ensures r == Success ==>
              FlushedInTime(maxSize, Usage(AfterWrite(old(Pending()), DeleteKey(key))), Pending(), old(files), files)
    {
      hide Db.Valid, Db.Stored, Db.Pending, Keyed, Apply, AfterWrite, ToMap;
      if closed {
        return Aborted;
      }
      var found := InMemTable(key);
      Store(if found then Deletion else Add, DeleteKey(key), key, []);
      r := FlushIfFull();
    }

    /** Writes out what is left; afterwards the files alone hold everything. */
    method Close() returns (r: Outcome)
      requires Valid()
      modifies this`files, this`tables, this`counts, this`closed
      ensures Valid() && memTable == old(memTable)
      ensures r == Aborted <==> !old(closed) && old(Pending()) != [] && !Convertible(old(Pending()))
      ensures closed == (old(closed) || (r == Success && old(Pending()) != []))
      ensures !old(closed) && r == Success ==> Keyed(Overlay(tables)) == Keyed(old(Stored()))
      ensures !old(closed) && r == Success ==> State() == Closed(old(State()))
      ensures old(closed) ==> r == Success && files == old(files) && State() == old(State())
      ensures r == Success ==> files[..|old(files)|] == old(files)
    {
      hide TableFile, Keyed, Overlay, Kept, Convertible;
      r := Success;
      var size := memTable.GetSize();
      if size == 0 {
        MergeEmpty(Overlay(tables), memTable.Model());
      }
      if !closed && size > 0 {
        FlushKeeps(tables, Pending());
        r := MemTableToSST();
        if r == Aborted {
          return;
        }
        closed := true;
      }
    }
  }

  method Perform(db: Db, w: Write) returns (r: Outcome)
    requires db.Valid()
    modifies db.Repr()
    ensures r == Success ==> db.Valid() && fresh(db.Repr() - old(db.Repr())) && db.closed == old(db.closed)
    ensures r == Success ==> Keyed(db.Stored()) == Keyed(Apply(old(db.Stored()), w))
    ensures r == Success ==> db.State() == OneWrite(db.maxSize, old(db.State()), w)
    ensures r == Aborted <==> old(db.closed) || Jams(db.maxSize, AfterWrite(old(db.Pending()), w))
  {
    hide Keyed, Apply, AfterWrite, Db.Valid;
    match w {
      case PutKey(k, v) => r := db.Put(k, v);
      case DeleteKey(k) => r := db.Delete(k);
    }
  }

  /** Any run of writes, with the flushes it causes, stores what its last writes say and leaves exactly the tables
      that the writes fill. It fails exactly when the store is closed or a write jams. */
  method Run(db: Db, ws: seq<Write>) returns (r: Outcome)
    requires db.Valid()
    modifies db.Repr()
    ensures r == Success ==> db.Valid() && fresh(db.Repr() - old(db.Repr())) && db.closed == old(db.closed)
    ensures r == Success ==> Keyed(db.Stored()) == Keyed(ApplyAll(old(db.Stored()), ws))
    ensures r == Success ==> db.State() == AfterAll(db.maxSize, old(db.State()), ws)
    ensures r == Aborted <==> (old(db.closed) && ws != []) || SomeJam(db.maxSize, old(db.State()), ws)
    ensures r == Success ==> FiltersPass(db.policy.hash, db.tables, db.files)
  {
    hide Keyed, Apply, ApplyAll, AfterAll, OneWrite, AfterWrite, Jams, Db.Valid, Db.Stored, Db.Pending;
    ghost var limit, s := db.maxSize, db.State();
    r := Success;
    var i := 0;
    TakeAll(ws);
    ApplyNone(db.Stored());
    AfterNone(limit, s);
    while i < |ws|
      invariant 0 <= i <= |ws| && r == Success
      invariant db.Valid() && fresh(db.Repr() - old(db.Repr())) && db.closed == old(db.closed)
      invariant Keyed(db.Stored()) == Keyed(ApplyAll(old(db.Stored()), ws[..i]))
      invariant db.State() == AfterAll(limit, s, ws[..i]) && (i > 0 ==> !db.closed)
      invariant forall j :: 0 <= j < i ==> !JamsAt(limit, s, ws, j)
    {
      KeyedApply(db.Stored(), ApplyAll(old(db.Stored()), ws[..i]), ws[i]);
      ApplyNext(old(db.Stored()), ws, i);
      AfterNext(limit, s, ws, i);
      assert JamsAt(limit, s, ws, i) <==> Jams(limit, AfterWrite(db.Pending(), ws[i]));
      r := Perform(db, ws[i]);
      if r == Aborted {
        return;
      }
      i := i + 1;
    }
    FilesOf(db);
  }

  lemma ApplyNone(m: map<Bytes, Bytes>)
    ensures ApplyAll(m, []) == m
  {
  }

  lemma ApplyNext(m: map<Bytes, Bytes>, ws: seq<Write>, i: nat)
    requires i < |ws|
    ensures ApplyAll(m, ws[..i + 1]) == Apply(ApplyAll(m, ws[..i]), ws[i])
  {
    assert ws[..i + 1][..i] == ws[..i];
  }

  /** Files of tables that stay within a size are short enough for their 32-bit fields. */
  lemma {:induction false} ShortFiles(policy: FilterPolicy, tables: seq<seq<Pair>>, counts: seq<nat>,
                                      files: seq<Bytes>, size: nat)
    requires TableFiles(policy, tables, counts, files) && TablesWithin(tables, size)
             && 43 * size + 28 + MAX_FILTER < Codec.TWO_31
    ensures AllShort(files)
  {
    forall i {:trigger files[i]} | 0 <= i < |files| ensures |files[i]| < Codec.TWO_31 {
      assert TableFile(policy, tables[i], counts[i], files[i]) && Usage(tables[i]) <= size;
    }
  }

  /** Nothing is lost from the first write to the files: after a run on a new store and a close, the files hold
      exactly the tables that the writes fill, and read oldest first these give, for every key but the empty one,
      what the last write to it left. The run fails exactly when a write jams or the pairs left make no table. The
      files can be read back whenever memtable limit and writes keep them below 2^31 bytes. */
  method RunAndClose(db: Db, ws: seq<Write>, ghost width: nat) returns (r: Outcome)
    requires db.Valid() && !db.closed && db.State() == NEW
    modifies db.Repr()
    ensures var s := AfterAll(db.maxSize, NEW, ws);
            && (r == Aborted
                <==> SomeJam(db.maxSize, NEW, ws) || (s.pending != [] && !Convertible(s.pending)))
            && (r == Success ==> db.Valid() && db.State() == Closed(s))
    ensures r == Success ==> TableFiles(db.policy, db.tables, db.counts, db.files)
    ensures r == Success ==> FiltersPass(db.policy.hash, db.tables, db.files)
    ensures r == Success ==> Keyed(Overlay(db.tables)) == Keyed(ApplyAll(map[], ws))
    ensures r == Success && AllWithin(ws, width) && 43 * (db.maxSize + width) + 28 + MAX_FILTER < Codec.TWO_31 ==>
              ReadFiles(db.files) == Some(db.tables) && AllShort(db.files)
  {
    hide ApplyAll, AfterAll, SomeJam, TableFile, TableFiles, Usage, Keyed, Overlay, Db.Valid, Db.Stored, Db.Pending;
    NothingStored(db);
    r := Run(db, ws);
    if r == Success {
      r := db.Close();
      FilesOf(db);
    }
    if r == Success && AllWithin(ws, width) && 43 * (db.maxSize + width) + 28 + MAX_FILTER < Codec.TWO_31 {
      RunReads(db.policy, db.tables, db.counts, db.files, ws, db.maxSize, width);
    }
  }

  lemma FilesOf(db: Db)
    requires db.Valid()
    ensures TableFiles(db.policy, db.tables, db.counts, db.files)
    ensures FiltersPass(db.policy.hash, db.tables, db.files)
  {
    NoneRuledOut(db.policy, db.tables, db.counts, db.files);
  }

  lemma NothingStored(db: Db)
    requires db.Valid() && db.State() == NEW
    ensures db.Stored() == map[]
  {
  }

  lemma RunReads(policy: FilterPolicy, tables: seq<seq<Pair>>, counts: seq<nat>, files: seq<Bytes>, ws: seq<Write>,
                 limit: nat, width: nat)
    requires TableFiles(policy, tables, counts, files) && AllWithin(ws, width)
    requires tables == Closed(AfterAll(limit, NEW, ws)).tables
    requires 43 * (limit + width) + 28 + MAX_FILTER < Codec.TWO_31
    ensures ReadFiles(files) == Some(tables) && AllShort(files)
  {
    hide AfterAll, TableFile, ReadFiles;
    WithinAll(NEW, ws, |ws|, limit, width);
    TakeAll(ws);
    ClosedWithin(AfterAll(limit, NEW, ws), limit, width);
    ShortFiles(policy, tables, counts, files, limit + width);
    FilesRead(policy, tables, counts, files, |files|);
    TakeAll(files);
    TakeAll(tables);
  }
}
