/** The memtable: a skip list of C strings in which an update is a deletion and an insertion, and a
    deleted key keeps an entry with the empty value. */
module MemTables {
  import opened Sequences
  import opened ByteStrings
  import opened SortedPairs
  import opened SkipLists
  import Codec
  import opened DataBlock
  import opened SstTable
  import opened SstTheorems
  import opened SSTableBuilders
  import opened TableSize
  import opened SstParser
  import opened TableBytes
  import BloomFilters

  datatype OpType = Add | Update | Deletion

  /** The map after one operation on truncated strings; the skip list keeps the first value of a key. */
  function Effect(m: map<Bytes, Bytes>, opType: OpType, key: Bytes, value: Bytes): map<Bytes, Bytes> {
    match opType
    case Add => if key in m then m else m[key := value]
    case Update => m[key := value]
    case Deletion => m[key := []]
  }

  /** The same on the sorted pairs of the skip list. */
  ghost function EffectPairs(ps: seq<Pair>, opType: OpType, key: Bytes, value: Bytes): seq<Pair> {
    match opType
    case Add => Put(ps, key, value)
    case Update => Put(Remove(ps, key), key, value)
    case Deletion => Put(Remove(ps, key), key, [])
  }

  lemma {:induction false} EffectOnPairs(ps: seq<Pair>, k: Bytes, v: Bytes)
    requires Sorted(ps)
    ensures ToMap(Put(ps, k, v)) == Effect(ToMap(ps), Add, k, v)
    ensures ToMap(Put(Remove(ps, k), k, v)) == Effect(ToMap(ps), Update, k, v)
  {
    PutMap(ps, k, v);
    RemoveSorted(ps, k);
    RemoveMap(ps, k);
    PutMap(Remove(ps, k), k, v);
    var m := ToMap(ps);
    assert (m - {k})[k := v] == m[k := v];
  }

  // ---------- what the table file gets ----------

  /** Sorted pairs without the one whose key is empty, which the builder ignores. */
  function Kept(ps: seq<Pair>): seq<Pair> {
    if ps != [] && ps[0].key == [] then ps[1..] else ps
  }

  lemma OnlyFirstEmpty(ps: seq<Pair>, i: nat)
    requires Sorted(ps) && 0 < i < |ps|
    ensures ps[i].key != []
  {
    assert Less(ps[0].key, ps[i].key);
  }

  lemma {:induction false} KeptNext(ps: seq<Pair>, i: nat)
    requires Sorted(ps) && i < |ps|
    ensures Kept(ps[..i + 1]) == Kept(ps[..i]) + if ps[i].key == [] then [] else [ps[i]]
    ensures Kept(ps[..i]) != [] ==> LastKey(Kept(ps[..i])) == ps[i - 1].key && Kept(ps)[0] == Kept(ps[..i])[0]
    ensures Kept(ps[..i]) == [] && ps[i].key != [] ==> Kept(ps) != [] && Kept(ps)[0] == ps[i]
  {
    if i > 0 {
      OnlyFirstEmpty(ps, i);
      assert Less(ps[0].key, ps[i].key);
    }
    assert ps[..i + 1] == ps[..i] + [ps[i]];
  }

  /** Only the entry of the empty key is missing. */
  lemma {:induction false} KeptIs(ps: seq<Pair>)
    requires Sorted(ps)
    ensures Sorted(Kept(ps)) && KeysNotEmpty(Kept(ps)) && ToMap(Kept(ps)) == ToMap(ps) - {[]}
  {
    hide ToMap;
    var kept, m := Kept(ps), ToMap(ps) - {[]};
    ToMapHolds(ps);
    forall i | 0 <= i < |kept| ensures kept[i].key != [] && kept[i].key in m && m[kept[i].key] == kept[i].value {
      var j := i + |ps| - |kept|;
      assert kept[i] == ps[j];
      if j > 0 {
        OnlyFirstEmpty(ps, j);
      }
    }
    forall k | k in m ensures HasKey(kept, k) {
      assert HasKey(ps, k);
      var j :| 0 <= j < |ps| && ps[j].key == k;
      assert kept[j - (|ps| - |kept|)] == ps[j];
    }
    IsMapOfUnique(kept, m);
  }

  /** The first record stays within a block, so that every flush has a key before it. */
  predicate FirstFits(kvs: seq<Pair>) {
    kvs != [] ==> 12 + |kvs[0].key| + |kvs[0].value| <= 4096
  }

  /** A memtable that can be written out: some key is not empty, and the first such record fits. */
  predicate Convertible(ps: seq<Pair>) {
    Kept(ps) != [] && FirstFits(Kept(ps))
  }

  lemma OneRecord(kv: Pair)
    ensures |Records([kv])| == 12 + |kv.key| + |kv.value|
  {
    assert EncodeRange([kv], 0, 1) == EncodeRecord(0, kv) + EncodeRange([kv], 1, 1);
  }

  lemma {:induction false} ReachedKeys(kvs: seq<Pair>, p: Progress)
    requires Reached(kvs, p)
    ensures p.preKey == LastKey(kvs) && KeysNotEmpty(kvs) && (kvs == [] ==> p.pending == [])
  {
    ReachedIsLaidOut(kvs, p);
  }

  /** With ascending keys `add` fails only on a first record that overflows a block. */
  lemma AcceptsAscending(kvs: seq<Pair>, p: Progress, kv: Pair)
    requires Reached(kvs, p) && kv.key != [] && KeysNotEmpty(kvs)
    requires kvs != [] ==> Less(LastKey(kvs), kv.key)
    ensures Accepts(p, kv) <==> kvs != [] || FirstFits([kv])
  {
    ReachedKeys(kvs, p);
    OneRecord(kv);
    assert [] + [kv] == [kv];
  }

  lemma {:induction false} FirstCut(kvs: seq<Pair>)
    requires kvs != [] && !FirstFits(kvs)
    ensures CutsOf(kvs) != [] && CutsOf(kvs)[0] == 1
  {
    var n := |kvs| - 1;
    if n > 0 {
      FirstCut(kvs[..n]);
    } else {
      OneRecord(kvs[0]);
      assert kvs[..0] == [] && kvs[0..] == [kvs[0]];
    }
  }

  lemma {:induction false} SortedReached(kvs: seq<Pair>) returns (p: Progress)
    requires Sorted(kvs) && KeysNotEmpty(kvs) && FirstFits(kvs)
    ensures Reached(kvs, p)
  {
    if kvs == [] {
      ReachedNothing();
      p := EMPTY;
    } else {
      var n := |kvs| - 1;
      var q := SortedReached(kvs[..n]);
      assert n > 0 ==> Less(kvs[n - 1].key, kvs[n].key);
      AcceptsAscending(kvs[..n], q, kvs[n]);
      ReachedNext(kvs[..n], kvs[n], q);
      SplitLast(kvs);
      p := Advance(q, kvs[n]);
    }
  }

  /** Ascending pairs make a table file exactly when the first record fits a block. */
  lemma {:induction false} FinishableExact(kvs: seq<Pair>)
    requires Sorted(kvs) && KeysNotEmpty(kvs)
    ensures Finishable(kvs) <==> FirstFits(kvs)
  {
    if FirstFits(kvs) {
      var p := SortedReached(kvs);
      ReachedIsLaidOut(kvs, p);
    } else {
      FirstCut(kvs);
    }
  }

  /** A builder that holds `before` accepts pair `i` and then holds `kvs`. */
  ghost predicate Takes(before: seq<Pair>, ps: seq<Pair>, i: nat, kvs: seq<Pair>) {
    && (exists p :: Reached(before, p) && AcceptsAt(p, ps, i))
    && i < |ps| && kvs == if ps[i].key == [] then before else before + [ps[i]]
  }

  ghost predicate AcceptsAt(p: Progress, ps: seq<Pair>, i: nat) {
    i < |ps| && Accepts(p, ps[i])
  }

  ghost predicate TakesAt(held: seq<seq<Pair>>, ps: seq<Pair>, i: nat) {
    i + 1 < |held| && Takes(held[i], ps, i, held[i + 1])
  }

  /** `kvs` is what a builder holds after it accepted the first `n` pairs. */
  ghost predicate Fed(kvs: seq<Pair>, ps: seq<Pair>, n: nat) {
    exists held :: IsFeed(held, kvs, ps, n)
  }

  ghost predicate IsFeed(held: seq<seq<Pair>>, kvs: seq<Pair>, ps: seq<Pair>, n: nat) {
    && |held| == n + 1 && held[0] == [] && held[n] == kvs
    && forall i {:trigger TakesAt(held, ps, i)} :: 0 <= i < n ==> TakesAt(held, ps, i)
  }

  /** A builder that accepted the first pairs does not accept the next. */
  ghost predicate Stuck(ps: seq<Pair>) {
    exists kvs, p, i: nat :: Fed(kvs, ps, i) && Reached(kvs, p) && RejectsAt(p, ps, i)
  }

  ghost predicate RejectsAt(p: Progress, ps: seq<Pair>, i: nat) {
    i < |ps| && !Accepts(p, ps[i])
  }

  lemma FedNothing(ps: seq<Pair>)
    ensures Fed([], ps, 0)
  {
    assert IsFeed([[]], [], ps, 0);
  }

  lemma FedNext(kvs: seq<Pair>, ps: seq<Pair>, i: nat, kvs': seq<Pair>)
    requires Fed(kvs, ps, i) && Takes(kvs, ps, i, kvs')
    ensures Fed(kvs', ps, i + 1)
  {
    var held :| IsFeed(held, kvs, ps, i);
    var held' := held + [kvs'];
    forall j | 0 <= j < i + 1 ensures TakesAt(held', ps, j) {
      if j < i {
        assert TakesAt(held, ps, j);
      }
    }
    assert IsFeed(held', kvs', ps, i + 1);
  }

  lemma AcceptsNext(ps: seq<Pair>, i: nat, kvs: seq<Pair>, p: Progress)
    requires Sorted(ps) && i < |ps| && kvs == Kept(ps[..i]) && Reached(kvs, p)
    ensures !Accepts(p, ps[i]) ==> !FirstFits(Kept(ps))
    ensures Accepts(p, ps[i]) && FirstFits(kvs) ==> FirstFits(Kept(ps[..i + 1]))
    ensures Kept(ps[..i + 1]) == if ps[i].key == [] then kvs else kvs + [ps[i]]
  {
    KeptNext(ps, i);
    ReachedKeys(kvs, p);
    if ps[i].key != [] {
      if kvs != [] {
        assert Less(ps[i - 1].key, ps[i].key);
      }
      AcceptsAscending(kvs, p, ps[i]);
    }
  }

  lemma {:induction false} FedIs(held: seq<seq<Pair>>, kvs: seq<Pair>, ps: seq<Pair>, n: nat, i: nat)
    requires Sorted(ps) && IsFeed(held, kvs, ps, n) && i <= n
    ensures i <= |ps| && held[i] == Kept(ps[..i]) && FirstFits(held[i])
    decreases i
  {
    if i > 0 {
      FedIs(held, kvs, ps, n, i - 1);
      assert TakesAt(held, ps, i - 1);
      var p :| Reached(held[i - 1], p) && AcceptsAt(p, ps, i - 1);
      AcceptsNext(ps, i - 1, held[i - 1], p);
    }
  }

  lemma FedAll(kvs: seq<Pair>, ps: seq<Pair>)
    requires Sorted(ps) && Fed(kvs, ps, |ps|)
    ensures kvs == Kept(ps) && (kvs != [] <==> Convertible(ps))
  {
    var held :| IsFeed(held, kvs, ps, |ps|);
    FedIs(held, kvs, ps, |ps|, |ps|);
    TakeAll(ps);
  }

  lemma StuckIs(ps: seq<Pair>)
    requires Sorted(ps) && Stuck(ps)
    ensures !Convertible(ps)
  {
    var kvs, p, i: nat :| Fed(kvs, ps, i) && Reached(kvs, p) && RejectsAt(p, ps, i);
    var held :| IsFeed(held, kvs, ps, i);
    FedIs(held, kvs, ps, i, i);
    AcceptsNext(ps, i, kvs, p);
  }

  class MemTable {
    const orderedTable: SkipList

    ghost function Repr(): set<object>
      reads this, orderedTable
    {
      orderedTable.Repr()
    }

    ghost predicate Valid()
      reads this, orderedTable, Arrays(orderedTable.all)
    {
      orderedTable.Valid()
    }

    ghost function Pairs(): seq<Pair>
      requires orderedTable.all != []
      reads this, orderedTable
    {
      orderedTable.Pairs()
    }

    ghost function Model(): map<Bytes, Bytes>
      requires orderedTable.all != []
      reads this, orderedTable
    {
      ToMap(Pairs())
    }

    constructor ()
      ensures Valid() && fresh(Repr()) && Pairs() == [] && Model() == map[]
    {
      orderedTable := new SkipList();
    }

    /** All three operations, on the strings up to their first NUL. */
    method Insert(opType: OpType, key: Bytes, value: Bytes)
      requires Valid()
      modifies Repr()
      ensures Valid() && fresh(Repr() - old(Repr()))
      ensures Model() == Effect(old(Model()), opType, CStr(key), CStr(value))
      ensures Pairs() == EffectPairs(old(Pairs()), opType, CStr(key), CStr(value))
    {
      var k, v := CStr(key), CStr(value);
      hide Put, ToMap, PairsOf, Linked;
      EffectOnPairs(Pairs(), k, v);
      EffectOnPairs(Pairs(), k, []);
      match opType {
        case Add =>
          orderedTable.Insert(k, v);
        case Update =>
          orderedTable.Delete(k);
          orderedTable.Insert(k, v);
        case Deletion =>
          var found := orderedTable.Contains(k);
          if found {
            orderedTable.Delete(k);
          }
          orderedTable.Insert(k, []);
      }
    }

    method Contains(key: Bytes) returns (found: bool)
      requires Valid()
      ensures found <==> CStr(key) in Model()
    {
      found := orderedTable.Contains(CStr(key));
      HasKeyInMap(Pairs(), CStr(key));
    }

    method Get(key: Bytes) returns (r: Option<Bytes>)
      requires Valid()
      ensures r == if CStr(key) in Model() then Some(Model()[CStr(key)]) else None
    {
      r := orderedTable.Get(CStr(key));
    }

    method GetSize() returns (size: int)
      requires Valid()
      ensures size == |Model()| == |Pairs()|
    {
      size := orderedTable.GetSize();
      ToMapSize(Pairs());
    }

    method GetMemUsage() returns (memUsage: int)
      requires Valid()
      ensures memUsage == Usage(Pairs())
    {
      memUsage := orderedTable.GetMemUsage();
    }

    /** One round of the loop of `ConvertToL1SST`: the current pair goes to the builder. */
    method Feed(iter: SkipListIterator, builder: SSTableBuilder, ghost ps: seq<Pair>) returns (r: Outcome)
      requires iter.list == orderedTable && iter.Positioned() && Pairs() == ps
      requires iter.Valid() && builder.Valid() && builder.Repr() !! Repr() && iter !in builder.Repr()
      requires Fed(builder.kvs, ps, iter.pos - 1)
      modifies iter, builder.Repr()
      ensures builder.Repr() == old(builder.Repr())
      ensures r == Aborted ==> Stuck(ps)
      ensures r == Success ==> iter.Positioned() && iter.pos == old(iter.pos) + 1
      ensures r == Success ==> builder.Valid() && Fed(builder.kvs, ps, iter.pos - 1)
    {
      hide SSTableBuilder.Valid, Fed, Stuck;
      var key, value := iter.Current();
      r := Give(builder, key, value, ps, iter.pos - 1);
      assert iter.Positioned();
      if r == Success {
        iter.Next();
      }
    }

    static method Give(builder: SSTableBuilder, key: Bytes, value: Bytes, ghost ps: seq<Pair>, ghost i: nat)
        returns (r: Outcome)
      requires i < |ps| && Pair(key, value) == ps[i]
      requires builder.Valid() && Fed(builder.kvs, ps, i)
      modifies builder.Repr()
      ensures builder.Repr() == old(builder.Repr())
      ensures r == Aborted ==> Stuck(ps)
      ensures r == Success ==> builder.Valid() && Fed(builder.kvs, ps, i + 1)
    {
      ghost var kvs, p := builder.kvs, builder.State();
      r := builder.Add(key, value);
      if r == Success {
        assert AcceptsAt(p, ps, i);
        FedNext(kvs, ps, i, builder.kvs);
      } else {
        assert RejectsAt(p, ps, i);
      }
    }

    /** The loop of `ConvertToL1SST`. */
    method FeedAll(iter: SkipListIterator, builder: SSTableBuilder, ghost ps: seq<Pair>) returns (r: Outcome)
      requires iter.list == orderedTable && iter.Positioned() && iter.pos == 1 && Pairs() == ps
      requires builder.Valid() && builder.kvs == [] && builder.Repr() !! Repr() && iter !in builder.Repr()
      modifies iter, builder.Repr()
      ensures builder.Repr() == old(builder.Repr())
      ensures r == Aborted ==> Stuck(ps)
      ensures r == Success ==> builder.Valid() && Fed(builder.kvs, ps, |ps|)
    {
      hide SSTableBuilder.Valid;
      FedNothing(ps);
      while iter.Valid()
        invariant iter.list == orderedTable && iter.Positioned() && Pairs() == ps
        invariant builder.Valid() && builder.Repr() == old(builder.Repr())
        invariant Fed(builder.kvs, ps, iter.pos - 1)
        decreases |ps| + 1 - iter.pos
      {
        r := Feed(iter, builder, ps);
        if r == Aborted {
          return;
        }
      }
      iter.Exhausted();
      r := Success;
    }

    static method Finish(builder: SSTableBuilder) returns (r: Outcome)
      requires builder.Valid()
      modifies builder.Repr()
      ensures r == Success <==> old(builder.kvs) != []
      ensures r == Success ==> HasTable(builder.fileWriter.file, old(builder.kvs), builder.hash, builder.filterSize,
                                        builder.hashFuncNum)
    {
      ghost var filter := TableFilter(builder.kvs, builder.hash, builder.filterSize, builder.hashFuncNum);
      FilterLength(builder.kvs, builder.hash, builder.filterSize, builder.hashFuncNum);
      FinishedTable(builder.kvs, builder.State(), filter);
      r := builder.FinishSst();
    }

    /** The iterator made, moved to the first pair and used up. */
    method Walk(builder: SSTableBuilder, ghost ps: seq<Pair>) returns (r: Outcome)
      requires orderedTable.Ordered() && Pairs() == ps
      requires builder.Valid() && builder.kvs == [] && builder.Repr() !! Repr()
      modifies builder.Repr()
      ensures builder.Repr() == old(builder.Repr())
      ensures r == Aborted ==> Stuck(ps)
      ensures r == Success ==> builder.Valid() && Fed(builder.kvs, ps, |ps|)
    {
      hide SSTableBuilder.Valid, Fed, Stuck;
      ghost var footprint := builder.Repr();
      var iter := new SkipListIterator(orderedTable);
      assert iter !in footprint;
      iter.MoveToFirst();
      r := FeedAll(iter, builder, ps);
    }

    /** Every pair goes to the builder once, in ascending key order, and the file is finished. Fails
        exactly when no pair has a key or the first one that has overflows a block. */
    method ConvertToL1SST(builder: SSTableBuilder) returns (r: Outcome)
      requires Valid() && builder.Valid() && builder.kvs == [] && builder.Repr() !! Repr()
      modifies builder.Repr()
      ensures r == Success <==> Convertible(Pairs())
      ensures r == Success ==> HasTable(builder.fileWriter.file, Kept(Pairs()), builder.hash, builder.filterSize,
                                        builder.hashFuncNum)
    {
      ghost var ps := Pairs();
      r := Walk(builder, ps);
      if r == Aborted {
        StuckIs(ps);
      } else {
        FedAll(builder.kvs, ps);
        r := Finish(builder);
      }
    }
  }

  /** Filters have less than 2^29 bytes and a count of four more. */
  const MAX_FILTER := 0x2000_0003

  /** What a table file can have in bytes. */
  ghost function SizeBound(kvs: seq<Pair>): nat {
    43 * Usage(kvs) + 28 + MAX_FILTER
  }

  /** `file` is the finished table of `kvs`, with the filter of exactly its keys. */
  ghost predicate HasTable(file: Bytes, kvs: seq<Pair>, hash: Bytes -> BloomFilters.uint32, filterSize: nat,
                           hashFuncNum: nat)
    requires 0 < 8 * filterSize < BloomFilters.TWO_32
  {
    && Finishable(kvs) && |file| <= SizeBound(kvs)
    && file == Image(kvs, TableFilter(kvs, hash, filterSize, hashFuncNum))
  }

  /** How filters are made: the hash, and for a number of keys the bytes of the bit array and the number of hash
      functions. */
  datatype FilterPolicy = FilterPolicy(hash: Bytes -> BloomFilters.uint32, size: int -> nat, num: int -> nat)

  /** The bit array has bytes, 32 bits count its bits, and hash functions are from 1 to 32. */
  ghost predicate PolicyOk(policy: FilterPolicy) {
    forall n: int :: 0 < 8 * policy.size(n) < BloomFilters.TWO_32 && 1 <= policy.num(n) <= 32
  }

  /** `file` is the finished table of `kvs`, with a filter made for `n` keys. */
  ghost predicate TableFile(policy: FilterPolicy, kvs: seq<Pair>, n: nat, file: Bytes)
    requires PolicyOk(policy)
  {
    HasTable(file, kvs, policy.hash, policy.size(n), policy.num(n))
  }

  lemma FinishedTable(kvs: seq<Pair>, p: Progress, filter: Bytes)
    requires Reached(kvs, p) && |filter| <= MAX_FILTER
    ensures Separable(CutsOf(kvs)) && KeysNotEmpty(kvs) && Finishable(kvs)
    ensures |Image(kvs, filter)| <= SizeBound(kvs)
  {
    FinishedFile(kvs, p, filter);
    FileBound(kvs, p, filter);
    CountBound(kvs);
  }

  lemma TableFileReads(policy: FilterPolicy, kvs: seq<Pair>, n: nat, file: Bytes)
    requires PolicyOk(policy) && TableFile(policy, kvs, n, file) && |file| < Codec.TWO_31
    ensures ScanImage(file) == Some(kvs)
  {
    ScanRecoversAll(kvs, TableFilter(kvs, policy.hash, policy.size(n), policy.num(n)), file);
  }

  /** A filter rebuilt from the range that the footer of `file` gives, with the count in its last four bytes,
      reports `key`. */
  ghost predicate Passes(file: Bytes, hash: Bytes -> BloomFilters.uint32, key: Bytes) {
    exists h: Header, es :: ParseSpec(file) == Ok((h, es)) && RangePasses(file, h.meta, hash, key)
  }

  ghost predicate RangePasses(file: Bytes, filter: Codec.OffsetInfo, hash: Bytes -> BloomFilters.uint32, key: Bytes) {
    var start, end := filter.offset, filter.offset + filter.size - 4;
    && 0 <= start < end && end + 4 <= |file|
    && var num := Codec.Signed32(Codec.DecodeFixed32(file[end..]));
       1 <= num <= 32 && BloomFilters.MayContain(file[start..end], hash, num, key)
  }

  /** No key of a table file is ruled out by the filter in it. */
  lemma {:induction false} NoKeyRuledOut(policy: FilterPolicy, kvs: seq<Pair>, n: nat, file: Bytes, i: nat)
    requires PolicyOk(policy) && TableFile(policy, kvs, n, file) && |file| < Codec.TWO_31 && i < |kvs|
    ensures Passes(file, policy.hash, kvs[i].key)
  {
    FilterPasses(file, kvs, policy.hash, policy.size(n), policy.num(n), i);
  }

  lemma {:induction false} FilterPasses(file: Bytes, kvs: seq<Pair>, hash: Bytes -> BloomFilters.uint32, size: nat,
                                        num: nat, i: nat)
    requires 0 < 8 * size < BloomFilters.TWO_32 && 1 <= num <= 32 && i < |kvs|
    requires HasTable(file, kvs, hash, size, num) && KeysNotEmpty(kvs) && |file| < Codec.TWO_31
    ensures Passes(file, hash, kvs[i].key)
  {
    hide HasTable, FileBytes, Image, Entries, DataRegion, ParseSpec, RangePasses, TableFilter, Reports;
    var filter := TableFilter(kvs, hash, size, num);
    PassesOwnKey(kvs, hash, size, num, i, filter, kvs[i].key);
    var h, es := HeaderOf(file, kvs, hash, size, num, filter);
    FilterRange(file, h.meta.offset, filter, hash, num, kvs[i].key);
  }

  lemma HeaderOf(file: Bytes, kvs: seq<Pair>, hash: Bytes -> BloomFilters.uint32, size: nat, num: nat, filter: Bytes)
      returns (h: Header, es: seq<IndexEntry>)
    requires 0 < 8 * size < BloomFilters.TWO_32 && HasTable(file, kvs, hash, size, num) && |file| < Codec.TWO_31
    requires filter == TableFilter(kvs, hash, size, num)
    ensures ParseSpec(file) == Ok((h, es)) && h.meta.size == |filter| && FilterAt(file, h.meta.offset, filter)
  {
    hide FileBytes, EncodeIndex, ParseSpec, TableFilter, FilterAt;
    es := Entries(kvs);
    h := FilterInFile(file, kvs, filter, DataRegion(kvs), es);
  }

  ghost predicate FilterAt(file: Bytes, start: int, filter: Bytes) {
    0 <= start && start + |filter| <= |file| && file[start..start + |filter|] == filter
  }

  lemma {:induction false} FilterInFile(file: Bytes, kvs: seq<Pair>, filter: Bytes, data: Bytes, es: seq<IndexEntry>)
      returns (h: Header)
    requires Finishable(kvs) && file == Image(kvs, filter) && |file| < Codec.TWO_31
    requires data == DataRegion(kvs) && es == Entries(kvs)
    ensures ParseSpec(file) == Ok((h, es)) && h.meta.size == |filter| && FilterAt(file, h.meta.offset, filter)
  {
    hide FileBytes, EncodeIndex, ParseSpec, DataRegion, Image, Entries, Finishable;
    var index := EncodeIndex(es);
    ImageIs(kvs, filter, file, data, es);
    IndexInFile(data, filter, index, file);
    ParseImage(kvs, filter, file, data, es);
    h := Header(Codec.OffsetInfo(|filter|, |data|), Codec.OffsetInfo(|index|, |data| + |filter|));
  }

  /** The filter bytes of a table, taken apart again, report a key of the table. */
  ghost predicate Reports(filter: Bytes, hash: Bytes -> BloomFilters.uint32, num: nat, key: Bytes) {
    && |filter| > 4
    && Codec.Signed32(Codec.DecodeFixed32(filter[|filter| - 4..])) == num
    && BloomFilters.MayContain(filter[..|filter| - 4], hash, num, key)
  }

  lemma PassesOwnKey(kvs: seq<Pair>, hash: Bytes -> BloomFilters.uint32, size: nat, num: nat, i: nat, filter: Bytes,
                     key: Bytes)
    requires 0 < 8 * size < BloomFilters.TWO_32 && num <= 32 && i < |kvs| && KeysNotEmpty(kvs)
    requires filter == TableFilter(kvs, hash, size, num) && key == kvs[i].key
    ensures Reports(filter, hash, num, key)
  {
    hide BloomFilters.MayContain, TableFilter, Codec.DecodeFixed32;
    EveryKeyPasses(kvs, hash, size, num, i);
  }

  lemma FilterRange(file: Bytes, start: nat, filter: Bytes, hash: Bytes -> BloomFilters.uint32, num: nat, key: Bytes)
    requires FilterAt(file, start, filter) && 1 <= num <= 32
    requires Reports(filter, hash, num, key)
    ensures RangePasses(file, Codec.OffsetInfo(|filter|, start), hash, key)
  {
    hide BloomFilters.MayContain;
    var end := start + |filter| - 4;
    assert file[start..end] == filter[..|filter| - 4];
    assert Codec.DecodeFixed32(file[end..]) == Codec.DecodeFixed32(filter[|filter| - 4..]);
  }
}
