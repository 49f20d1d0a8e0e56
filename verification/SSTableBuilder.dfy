/** Writing a table: pairs go into data blocks, a block that grows over 4096 record bytes is written
    out with an index entry, and finishing writes the last block, the filter, the index and the footer. */
module SSTableBuilders {
  import opened Sequences
  import opened ByteStrings
  import opened Codec
  import opened DataBlock
  import opened Separator
  import opened SstTable
  import opened DataBlockBuilders
  import opened FilterBlocks
  import opened FileWriters
  import BloomFilters

  class IndexBlockBuilder {
    var data: Bytes

    constructor ()
      ensures data == []
    {
      data := [];
    }

    method Add(shortestKey: Bytes, info: OffsetInfo)
      modifies this
      ensures data == old(data) + EncodeEntry(IndexEntry(shortestKey, info))
    {
      data := data + Fixed32(|shortestKey|);
      data := data + shortestKey;
      data := data + Fixed64(AsUint64(info));
    }

    method Clear()
      modifies this
      ensures data == []
    {
      data := [];
    }
  }

  class FooterBuilder {
    var data: Bytes

    constructor ()
      ensures data == []
    {
      data := [];
    }

    method Add(meta: OffsetInfo, index: OffsetInfo)
      modifies this
      ensures data == old(data) + FooterBytes(meta, index)
    {
      data := data + Fixed64(AsUint64(meta));
      data := data + Fixed64(AsUint64(index));
    }

    method Clear()
      modifies this
      ensures data == []
    {
      data := [];
    }
  }

  function KeysOf(kvs: seq<Pair>): (ks: seq<Bytes>)
    ensures |ks| == |kvs|
    ensures forall i {:trigger ks[i]} :: 0 <= i < |ks| ==> ks[i] == kvs[i].key
  {
    seq(|kvs|, i requires 0 <= i < |kvs| => kvs[i].key)
  }

  lemma KeysOfAppend(kvs: seq<Pair>, kv: Pair)
    ensures KeysOf(kvs + [kv]) == KeysOf(kvs) + [kv.key]
  {
  }

  /** The filter bytes of a table. */
  function TableFilter(kvs: seq<Pair>, hash: Bytes -> BloomFilters.uint32, filterSize: nat, hashFuncNum: nat): Bytes
    requires 0 < 8 * filterSize < BloomFilters.TWO_32
  {
    FilterBytes(BloomFilters.AddKeys(seq(filterSize, _ => 0), hash, hashFuncNum, KeysOf(kvs)), hashFuncNum)
  }

  /** A filter rebuilt from a table's filter bytes, as the parser means to, reports every key added. */
  lemma {:induction false} EveryKeyPasses(kvs: seq<Pair>, hash: Bytes -> BloomFilters.uint32, filterSize: nat,
                                          hashFuncNum: nat, i: nat)
    requires KeysNotEmpty(kvs) && i < |kvs|
    requires 0 < 8 * filterSize < BloomFilters.TWO_32 && FitsInt32(hashFuncNum)
    ensures var filter := TableFilter(kvs, hash, filterSize, hashFuncNum);
            && |filter| == filterSize + 4
            && Signed32(DecodeFixed32(filter[filterSize..])) == hashFuncNum
            && BloomFilters.MayContain(filter[..filterSize], hash, hashFuncNum, kvs[i].key)
  {
    var zeros: Bytes := seq(filterSize, _ => 0);
    var bits := BloomFilters.AddKeys(zeros, hash, hashFuncNum, KeysOf(kvs));
    assert kvs[i].key == KeysOf(kvs)[i];
    BloomFilters.NoFalseNegatives(zeros, hash, hashFuncNum, KeysOf(kvs), kvs[i].key);
    RoundTrip32(hashFuncNum, []);
    assert Fixed32(hashFuncNum) + [] == Fixed32(hashFuncNum);
    assert FilterBytes(bits, hashFuncNum)[..filterSize] == bits;
    assert FilterBytes(bits, hashFuncNum)[filterSize..] == Fixed32(hashFuncNum);
  }

  lemma FilterLength(kvs: seq<Pair>, hash: Bytes -> BloomFilters.uint32, filterSize: nat, hashFuncNum: nat)
    requires 0 < 8 * filterSize < BloomFilters.TWO_32
    ensures |TableFilter(kvs, hash, filterSize, hashFuncNum)| == filterSize + 4
  {
  }

  lemma RecordsEmpty(kvs: seq<Pair>)
    ensures Records(kvs) == [] <==> kvs == []
  {
  }

  // ---------- what one flush adds ----------

  lemma {:induction false} PartsFlushed(kvs: seq<Pair>, cuts: seq<nat>, kvs': seq<Pair>, cuts': seq<nat>,
                                        more: seq<Pair>)
    requires WellCut(cuts, |kvs|) && WellCut(cuts', |kvs'|) && LastCut(cuts) <= |kvs|
    requires kvs' == kvs + more && cuts' == cuts + [|kvs'|]
    ensures Parts(kvs', cuts') == Parts(kvs, cuts) + [kvs[LastCut(cuts)..] + more]
  {
    PartsStable(kvs, cuts, more, [|kvs'|]);
    var parts' := Parts(kvs', cuts');
    assert Start(cuts', |cuts|) == LastCut(cuts);
    assert parts'[|cuts|] == kvs'[LastCut(cuts)..|kvs'|] == kvs[LastCut(cuts)..] + more;
    assert parts' == parts'[..|cuts|] + [parts'[|cuts|]];
  }

  lemma DataAppend(parts: seq<seq<Pair>>, part: seq<Pair>)
    ensures Data(parts + [part]) == Data(parts) + Block(part)
  {
    assert (parts + [part])[..|parts|] == parts;
  }

  lemma {:induction false} PartsKept(kvs: seq<Pair>, cuts: seq<nat>, kvs': seq<Pair>, more: seq<Pair>)
    requires WellCut(cuts, |kvs|) && WellCut(cuts, |kvs'|) && kvs' == kvs + more && Separable(cuts)
    ensures Parts(kvs', cuts) == Parts(kvs, cuts)
    ensures FlushEntries(kvs', cuts) == FlushEntries(kvs, cuts)
  {
    assert cuts + [] == cuts;
    PartsStable(kvs, cuts, more, []);
    FlushEntriesStable(kvs, cuts, more, []);
    assert Parts(kvs', cuts)[..|cuts|] == Parts(kvs', cuts);
    assert FlushEntries(kvs', cuts)[..|cuts|] == FlushEntries(kvs', cuts);
  }

  lemma {:induction false} EntriesFlushed(kvs: seq<Pair>, cuts: seq<nat>, kvs': seq<Pair>, cuts': seq<nat>, kv: Pair,
                                          part: seq<Pair>, data': Bytes)
    requires WellCut(cuts, |kvs|) && WellCut(cuts', |kvs'|) && LastCut(cuts) <= |kvs| && Separable(cuts)
             && Separable(cuts')
    requires kvs != [] && kvs' == kvs + [kv] && cuts' == cuts + [|kvs'|]
    requires part == kvs[LastCut(cuts)..] + [kv] && data' == Data(Parts(kvs', cuts'))
    ensures FlushEntries(kvs', cuts')
            == FlushEntries(kvs, cuts)
               + [IndexEntry(SeparatorOf(kvs[|kvs| - 1].key, kv.key), OffsetInfo(|Block(part)|, |data'|))]
  {
    hide Block, Data, Separable;
    var m := |cuts|;
    FlushEntriesStable(kvs, cuts, [kv], [|kvs'|]);
    PartsFlushed(kvs, cuts, kvs', cuts', [kv]);
    var es' := FlushEntries(kvs', cuts');
    SplitLast(es');
    var parts' := Parts(kvs', cuts');
    assert parts'[..m + 1] == parts';
    assert Part(kvs', cuts', m) == Parts(kvs', cuts')[m] == part;
    assert es'[m] == FlushEntry(kvs', cuts', m);
  }

  // ---------- the state while pairs are added ----------

  datatype Outcome = Success | Aborted

  /** What is on file (or in its buffer), the index bytes, the pairs of the block being built, the key before. */
  datatype Progress = Progress(file: Bytes, index: Bytes, pending: seq<Pair>, preKey: Bytes)

  const EMPTY := Progress([], [], [], [])

  predicate Full(p: Progress, kv: Pair) {
    |Records(p.pending + [kv])| > MAX_DATA_BLOCK_SIZE
  }

  /** `add` survives: an overflow needs a smaller key before, for the separator. */
  predicate Accepts(p: Progress, kv: Pair) {
    kv.key == [] || (Full(p, kv) ==> p.preKey != [] && Less(p.preKey, kv.key))
  }

  /** One `add`. */
  function Advance(p: Progress, kv: Pair): Progress {
    if kv.key == [] then p
    else if Full(p, kv) then Cut(p.(pending := p.pending + [kv]), kv.key)
    else p.(pending := p.pending + [kv], preKey := kv.key)
  }

  /** The pending block is written; its entry gives the offset after it. */
  function Cut(p: Progress, key: Bytes): Progress {
    var file := p.file + Block(p.pending);
    var e := IndexEntry(SeparatorOf(p.preKey, key), OffsetInfo(|Block(p.pending)|, |file|));
    Progress(file, p.index + EncodeEntry(e), [], key)
  }

  /** The first step of `finish_sst`: the last block, if there is one; its entry gives the offset before it. */
  function Close(p: Progress): Progress
    requires p.pending != [] ==> p.preKey != []
  {
    if p.pending == [] then p
    else
      var preKey := BumpLast(p.preKey);
      Progress(p.file + Block(p.pending),
               p.index + EncodeEntry(IndexEntry(preKey, OffsetInfo(|Block(p.pending)|, |p.file|))), [], preKey)
  }

  ghost predicate StepAt(run: seq<Progress>, kvs: seq<Pair>, i: nat)
    requires i < |kvs| && |run| == |kvs| + 1
  {
    kvs[i].key != [] && Accepts(run[i], kvs[i]) && run[i + 1] == Advance(run[i], kvs[i])
  }

  ghost predicate IsRun(run: seq<Progress>, kvs: seq<Pair>, p: Progress) {
    && |run| == |kvs| + 1 && run[0] == EMPTY && run[|kvs|] == p
    && forall i {:trigger StepAt(run, kvs, i)} :: 0 <= i < |kvs| ==> StepAt(run, kvs, i)
  }

  /** `p` is reached by adding the pairs of `kvs`, none with an empty key. */
  ghost predicate Reached(kvs: seq<Pair>, p: Progress) {
    exists run :: IsRun(run, kvs, p)
  }

  lemma ReachedNothing()
    ensures Reached([], EMPTY)
  {
    assert IsRun([EMPTY], [], EMPTY);
  }

  lemma {:induction false} ReachedNext(kvs: seq<Pair>, kv: Pair, p: Progress)
    requires Reached(kvs, p) && kv.key != [] && Accepts(p, kv)
    ensures Reached(kvs + [kv], Advance(p, kv))
  {
    var run :| IsRun(run, kvs, p);
    var kvs', run' := kvs + [kv], run + [Advance(p, kv)];
    forall i | 0 <= i < |kvs'| ensures StepAt(run', kvs', i) {
      if i < |kvs| {
        assert StepAt(run, kvs, i);
      }
    }
    assert IsRun(run', kvs', Advance(p, kv));
  }

  // ---------- what the steps add up to ----------

  /** File and index are those of the layout. */
  ghost predicate LaidOut(kvs: seq<Pair>, p: Progress) {
    var cuts := CutsOf(kvs);
    && Separable(cuts) && KeysNotEmpty(kvs)
    && p.file == Data(Parts(kvs, cuts))
    && p.index == EncodeIndex(FlushEntries(kvs, cuts))
    && p.pending == kvs[LastCut(cuts)..]
    && p.preKey == LastKey(kvs)
  }

  lemma {:induction false} RunIsLaidOut(run: seq<Progress>, kvs: seq<Pair>, p: Progress, i: nat)
    requires IsRun(run, kvs, p) && i <= |kvs|
    ensures LaidOut(kvs[..i], run[i])
  {
    if i > 0 {
      RunIsLaidOut(run, kvs, p, i - 1);
      assert StepAt(run, kvs, i - 1);
      TakeNext(kvs, i - 1);
      LaidOutNext(kvs[..i - 1], kvs[i - 1], run[i - 1], run[i], kvs[..i]);
    }
  }

  /** Adding pairs step by step gives the layout of `SstTable`. */
  lemma {:induction false} ReachedIsLaidOut(kvs: seq<Pair>, p: Progress)
    requires Reached(kvs, p)
    ensures LaidOut(kvs, p)
  {
    var run :| IsRun(run, kvs, p);
    RunIsLaidOut(run, kvs, p, |kvs|);
    TakeAll(kvs);
  }

  lemma {:induction false} LaidOutNext(kvs: seq<Pair>, kv: Pair, p: Progress, p': Progress, kvs': seq<Pair>)
    requires LaidOut(kvs, p) && kv.key != [] && Accepts(p, kv) && p' == Advance(p, kv) && kvs' == kvs + [kv]
    ensures LaidOut(kvs', p')
  {
    hide CutsOf, Data, EncodeIndex, Block, EncodeEntry;
    var cuts := CutsOf(kvs);
    CutsOfAdd(kvs, kv);
    if Full(p, kv) {
      var part := p.pending + [kv];
      var e := IndexEntry(SeparatorOf(p.preKey, kv.key), OffsetInfo(|Block(part)|, |p'.file|));
      CutLaysOut(kvs, kv, cuts, part, p.file, p'.file, e, kvs', CutsOf(kvs'));
      EncodeIndexAppend(FlushEntries(kvs, cuts), e);
      DropAppend(kvs, kv, LastCut(cuts));
    } else {
      PartsKept(kvs, cuts, kvs', [kv]);
      DropAppend(kvs, kv, LastCut(cuts));
    }
  }

  lemma {:induction false} CutLaysOut(kvs: seq<Pair>, kv: Pair, cuts: seq<nat>, part: seq<Pair>, file: Bytes,
                                      file': Bytes,
                                      e: IndexEntry, kvs': seq<Pair>, cuts': seq<nat>)
    requires WellCut(cuts, |kvs|) && WellCut(cuts', |kvs'|) && LastCut(cuts) <= |kvs| && Separable(cuts)
    requires kvs != [] && kvs' == kvs + [kv] && cuts' == cuts + [|kvs'|] && part == kvs[LastCut(cuts)..] + [kv]
    requires file == Data(Parts(kvs, cuts)) && file' == file + Block(part)
    requires e == IndexEntry(SeparatorOf(LastKey(kvs), kv.key), OffsetInfo(|Block(part)|, |file'|))
    ensures Separable(cuts') && file' == Data(Parts(kvs', cuts'))
    ensures FlushEntries(kvs', cuts') == FlushEntries(kvs, cuts) + [e]
  {
    assert forall j :: 0 <= j < |cuts| ==> cuts'[j] == cuts[j];
    PartsFlushed(kvs, cuts, kvs', cuts', [kv]);
    DataAppend(Parts(kvs, cuts), part);
    EntriesFlushed(kvs, cuts, kvs', cuts', kv, part, file');
  }

  /** Closing the last block gives the data region and the index of the finished table. */
  lemma {:induction false} CloseIsLaidOut(kvs: seq<Pair>, p: Progress)
    requires LaidOut(kvs, p)
    ensures Separable(CutsOf(kvs)) && KeysNotEmpty(kvs) && (p.pending != [] ==> p.preKey != [])
    ensures Close(p).file == DataRegion(kvs) && Close(p).index == EncodeIndex(Entries(kvs))
    ensures kvs == [] <==> EncodeIndex(Entries(kvs)) == []
  {
    var cuts := CutsOf(kvs);
    if p.pending == [] {
      assert FlushEntries(kvs, cuts) + [] == FlushEntries(kvs, cuts);
    } else {
      WellCutMore(cuts, |kvs|, |kvs|);
      assert kvs + [] == kvs && p.pending + [] == p.pending;
      PartsFlushed(kvs, cuts, kvs, cuts + [|kvs|], []);
      DataAppend(Parts(kvs, cuts), p.pending);
      EncodeIndexAppend(FlushEntries(kvs, cuts), LastEntry(kvs, cuts));
    }
    if Entries(kvs) == [] {
      assert |FinalCuts(kvs)| == 0;
    }
  }

  lemma FinishedFile(kvs: seq<Pair>, p: Progress, filter: Bytes)
    requires Reached(kvs, p)
    ensures Separable(CutsOf(kvs)) && KeysNotEmpty(kvs) && (p.pending != [] ==> p.preKey != [])
    ensures FileBytes(Close(p).file, filter, Close(p).index) == Image(kvs, filter)
    ensures kvs == [] <==> Close(p).index == []
  {
    ReachedIsLaidOut(kvs, p);
    CloseIsLaidOut(kvs, p);
  }

  class SSTableBuilder {
    const dataBlock: DataBlockBuilder
    const indexBlock: IndexBlockBuilder
    const footer: FooterBuilder
    const fileWriter: FileWriter
    const hash: Bytes -> BloomFilters.uint32
    const filterSize: nat
    const hashFuncNum: nat
    var filterBlock: FilterBlockBuilder
    var filterOffset: OffsetInfo
    var indexOffset: OffsetInfo
    var indexData: Bytes
    var keyCount: nat
    var preKey: Bytes

    /** The pairs added so far, those with an empty key left out. */
    ghost var kvs: seq<Pair>

    ghost function Repr(): set<object>
      reads this, filterBlock
    {
      {this, dataBlock, indexBlock, footer, fileWriter, fileWriter.buffer, filterBlock, filterBlock.filterPolicy}
    }

    ghost predicate FilterOk()
      reads this, filterBlock, filterBlock.filterPolicy
    {
      && 0 < 8 * filterSize < BloomFilters.TWO_32
      && filterBlock.Valid() && filterBlock.keyData == KeysOf(kvs)
      && filterBlock.filterPolicy.bitsArray == seq(filterSize, _ => 0)
      && filterBlock.filterPolicy.hash == hash && filterBlock.filterPolicy.hashFuncNum == hashFuncNum
    }

    ghost function State(): Progress
      requires fileWriter.Valid()
      reads this, fileWriter, fileWriter.buffer, dataBlock
    {
      Progress(fileWriter.Contents(), indexData, dataBlock.kvs, preKey)
    }

    ghost predicate Valid()
      reads Repr()
    {
      && dataBlock.Valid() && fileWriter.Valid() && FilterOk()
      && indexBlock.data == [] && footer.data == []
      && Reached(kvs, State())
      && filterOffset.offset == |fileWriter.Contents()|
    }

    /** The state `FinishSst` leaves: that of a new builder but for `keyCount` and the file. */
    ghost predicate Cleared()
      reads Repr()
    {
      && dataBlock.Valid() && dataBlock.kvs == [] && indexBlock.data == [] && footer.data == []
      && indexData == [] && preKey == [] && filterOffset == indexOffset == OffsetInfo(0, 0)
      && kvs == [] && FilterOk()
    }

    /** One builder writes one file, so the writer is a new one. */
    constructor (fileWriter: FileWriter, hash: Bytes -> BloomFilters.uint32, filterSize: nat, hashFuncNum: nat)
      requires fileWriter.Valid() && fileWriter.Contents() == []
      requires 0 < 8 * filterSize < BloomFilters.TWO_32
      ensures Valid() && kvs == [] && this.fileWriter == fileWriter
      ensures this.hash == hash && this.filterSize == filterSize && this.hashFuncNum == hashFuncNum
      ensures fresh(Repr() - {fileWriter, fileWriter.buffer})
    {
      dataBlock := new DataBlockBuilder();
      indexBlock := new IndexBlockBuilder();
      footer := new FooterBuilder();
      this.fileWriter := fileWriter;
      this.hash, this.filterSize, this.hashFuncNum := hash, filterSize, hashFuncNum;
      filterBlock := new FilterBlockBuilder(hash, filterSize, hashFuncNum);
      filterOffset, indexOffset := OffsetInfo(0, 0), OffsetInfo(0, 0);
      indexData, keyCount, preKey := [], 0, [];
      kvs := [];
      ReachedNothing();
    }

    /** Finishes the block being built and appends it to the file. */
    method WriteBlock()
      requires dataBlock.Valid() && fileWriter.Valid()
      modifies dataBlock`data, fileWriter, fileWriter.buffer
      ensures fileWriter.Valid() && dataBlock.data == Block(dataBlock.kvs)
      ensures fileWriter.Contents() == old(fileWriter.Contents()) + dataBlock.data
    {
      dataBlock.FinishDataBlock();
      fileWriter.Append(dataBlock.data);
    }

    /** Encodes an index entry and keeps it in `indexData`. */
    method AddIndexEntry(key: Bytes, info: OffsetInfo)
      requires indexBlock.data == []
      modifies this`indexData, indexBlock
      ensures indexData == old(indexData) + EncodeEntry(IndexEntry(key, info)) && indexBlock.data == []
    {
      indexBlock.Add(key, info);
      indexData := indexData + indexBlock.data;
      indexBlock.Clear();
    }

    /** Hands a pair to the filter and to the block being built. */
    method Take(key: Bytes, value: Bytes)
      requires key != [] && dataBlock.Valid() && filterBlock.Valid()
      modifies this`keyCount, dataBlock, filterBlock`keyData
      ensures dataBlock.Valid() && dataBlock.kvs == old(dataBlock.kvs) + [Pair(key, value)]
      ensures filterBlock.Valid() && filterBlock.keyData == old(filterBlock.keyData) + [key]
    {
      filterBlock.Add(key);
      dataBlock.Add(key, value);
      keyCount := keyCount + 1;
    }

    /** Writes the block out and adds its index entry: the offset is taken after it has moved past the
        block. Fails when there is no smaller key before. */
    method FlushBlock(key: Bytes) returns (r: Outcome)
      requires dataBlock.Valid() && fileWriter.Valid() && indexBlock.data == [] && key != []
      requires filterOffset.offset == |fileWriter.Contents()|
      modifies this`filterOffset, this`indexData, this`preKey, dataBlock, indexBlock, fileWriter, fileWriter.buffer
      ensures r == Success <==> old(preKey) != [] && Less(old(preKey), key)
      ensures r == Success ==>
                && dataBlock.Valid() && fileWriter.Valid() && indexBlock.data == []
                && filterOffset.offset == |fileWriter.Contents()|
                && State() == Cut(old(State()), key)
    {
      WriteBlock();
      var size := |dataBlock.data|;
      filterOffset := filterOffset.(offset := filterOffset.offset + size);
      var shortestKey := FindShortestKey(preKey, key);
      if shortestKey == None {
        return Aborted;
      }
      AddIndexEntry(shortestKey.value, OffsetInfo(size, filterOffset.offset));
      dataBlock.Clear();
      preKey := key;
      return Success;
    }

    /** The effect of a pair with a key on the builders and the file. */
    method AddPair(key: Bytes, value: Bytes) returns (r: Outcome)
      requires key != [] && dataBlock.Valid() && filterBlock.Valid() && fileWriter.Valid() && indexBlock.data == []
      requires filterOffset.offset == |fileWriter.Contents()|
      modifies this`keyCount, this`filterOffset, this`indexData, this`preKey
      modifies dataBlock, indexBlock, filterBlock`keyData, fileWriter, fileWriter.buffer
      ensures r == Success <==> Accepts(old(State()), Pair(key, value))
      ensures r == Success ==>
                && dataBlock.Valid() && fileWriter.Valid() && indexBlock.data == []
                && filterBlock.Valid() && filterBlock.keyData == old(filterBlock.keyData) + [key]
                && filterOffset.offset == |fileWriter.Contents()|
                && State() == Advance(old(State()), Pair(key, value))
    {
      Take(key, value);
      var full := IsBlockFull();
      if full {
        r := FlushBlock(key);
      } else {
        preKey := key;
        r := Success;
      }
    }

    /** Adds a pair; an empty key is ignored. Fails exactly when the pair overflows a block and there is
        no smaller key before it. */
    method Add(key: Bytes, value: Bytes) returns (r: Outcome)
      requires Valid()
      modifies Repr()
      ensures filterBlock == old(filterBlock)
      ensures r == Success <==> Accepts(old(State()), Pair(key, value))
      ensures r == Success ==> Valid() && State() == Advance(old(State()), Pair(key, value))
      ensures r == Success ==> kvs == if key == [] then old(kvs) else old(kvs) + [Pair(key, value)]
    {
      if key == [] {
        return Success;
      }
      ghost var kv := Pair(key, value);
      KeysOfAppend(kvs, kv);
      if Accepts(State(), kv) {
        ReachedNext(kvs, kv, State());
      }
      r := AddPair(key, value);
      kvs := kvs + [kv];
    }

    method IsBlockFull() returns (full: bool)
      requires dataBlock.Valid()
      ensures full <==> |Records(dataBlock.kvs)| > MAX_DATA_BLOCK_SIZE
    {
      full := dataBlock.Size() > MAX_DATA_BLOCK_SIZE;
    }

    method FinishLastBlock()
      requires dataBlock.Valid() && fileWriter.Valid() && indexBlock.data == []
      requires dataBlock.kvs != [] ==> preKey != []
      requires filterOffset.offset == |fileWriter.Contents()|
      modifies this`filterOffset, this`indexData, this`preKey, dataBlock, indexBlock, fileWriter, fileWriter.buffer
      ensures dataBlock.Valid() && fileWriter.Valid() && indexBlock.data == []
      ensures filterOffset.offset == |fileWriter.Contents()|
      ensures State() == Close(old(State()))
    {
      RecordsEmpty(dataBlock.kvs);
      if dataBlock.Size() > 0 {
        WriteBlock();
        var size := |dataBlock.data|;
        preKey := BumpLast(preKey);
        AddIndexEntry(preKey, OffsetInfo(size, filterOffset.offset));
        filterOffset := filterOffset.(offset := filterOffset.offset + size);
        dataBlock.Clear();
      }
    }

    /** The filter is finished twice, as the source does; the second time changes nothing. */
    method FinishFilter()
      requires FilterOk()
      modifies this`filterOffset, filterBlock`data, filterBlock.filterPolicy`bitsArray
      ensures filterBlock.data == TableFilter(kvs, hash, filterSize, hashFuncNum)
      ensures filterOffset == OffsetInfo(|filterBlock.data|, old(filterOffset).offset)
    {
      ghost var bits := filterBlock.filterPolicy.bitsArray;
      filterBlock.FinishFilterBlock();
      filterOffset := filterOffset.(size := |filterBlock.data|);
      filterBlock.FinishFilterBlock();
      BloomFilters.AddKeysTwice(bits, hash, hashFuncNum, KeysOf(kvs));
    }

    /** Filter, index and footer follow the data. Fails when the index is empty. */
    method WriteTail() returns (r: Outcome)
      requires fileWriter.Valid() && footer.data == []
      requires filterOffset == OffsetInfo(|filterBlock.data|, |fileWriter.Contents()|)
      modifies this`indexOffset, footer, fileWriter, fileWriter.buffer
      ensures r == Success <==> indexData != []
      ensures r == Success ==> fileWriter.file == FileBytes(old(fileWriter.Contents()), filterBlock.data, indexData)
    {
      fileWriter.Append(filterBlock.data);
      fileWriter.Append(indexData);
      if |indexData| == 0 {
        return Aborted;
      }
      indexOffset := OffsetInfo(|indexData|, filterOffset.offset + filterOffset.size);
      footer.Add(filterOffset, indexOffset);
      fileWriter.Append(footer.data);
      fileWriter.Flush();
      return Success;
    }

    /** The fields are cleared, all but `keyCount`. */
    method Reset()
      requires 0 < 8 * filterSize < BloomFilters.TWO_32
      modifies this, dataBlock, indexBlock, footer
      ensures Cleared() && fresh(filterBlock) && fresh(filterBlock.filterPolicy)
      ensures keyCount == old(keyCount)
    {
      dataBlock.Clear();
      indexBlock.Clear();
      filterBlock := new FilterBlockBuilder(hash, filterSize, hashFuncNum);
      footer.Clear();
      filterOffset, indexOffset := OffsetInfo(0, 0), OffsetInfo(0, 0);
      indexData := [];
      preKey := [];
      kvs := [];
    }

    /** All that is written at the end, in the order of the format. */
    method WriteRest() returns (r: Outcome)
      requires dataBlock.Valid() && fileWriter.Valid() && indexBlock.data == [] && footer.data == [] && FilterOk()
      requires dataBlock.kvs != [] ==> preKey != []
      requires filterOffset.offset == |fileWriter.Contents()|
      modifies this`filterOffset, this`indexOffset, this`indexData, this`preKey, dataBlock, indexBlock, footer
      modifies filterBlock`data, filterBlock.filterPolicy`bitsArray, fileWriter, fileWriter.buffer
      ensures r == Success <==> Close(old(State())).index != []
      ensures r == Success ==> var p := Close(old(State()));
                               fileWriter.file
                               == FileBytes(p.file, TableFilter(kvs, hash, filterSize, hashFuncNum), p.index)
    {
      FinishLastBlock();
      FinishFilter();
      r := WriteTail();
    }

    /** Finishes the file. Fails exactly when nothing was added. */
    method FinishSst() returns (r: Outcome)
      requires Valid()
      modifies Repr()
      ensures Separable(CutsOf(old(kvs))) && KeysNotEmpty(old(kvs))
      ensures r == Success <==> old(kvs) != []
      ensures r == Success ==> fileWriter.file == Image(old(kvs), TableFilter(old(kvs), hash, filterSize, hashFuncNum))
      ensures r == Success ==> Cleared() && fresh(filterBlock) && fresh(filterBlock.filterPolicy)
      ensures r == Success ==> keyCount == old(keyCount)
    {
      FinishedFile(kvs, State(), TableFilter(kvs, hash, filterSize, hashFuncNum));
      r := WriteRest();
      if r == Success {
        Reset();
      }
    }
  }
}
