/** The layout of a table file as a function of the pairs put in: where blocks are cut, what the
    index says of them, and what can be read back. */
module SstTable {
  import opened Sequences
  import opened ByteStrings
  import opened Codec
  import opened DataBlock
  import opened Separator

  const MAX_DATA_BLOCK_SIZE := 4096

  // ---------- where blocks end ----------

  function Start(cuts: seq<nat>, j: nat): nat
    requires j <= |cuts|
  {
    if j == 0 then 0 else cuts[j - 1]
  }

  function LastCut(cuts: seq<nat>): nat {
    Start(cuts, |cuts|)
  }

  /** Block ends ascend and stay within the first `n` records. */
  ghost predicate WellCut(cuts: seq<nat>, n: nat) {
    forall j {:trigger Start(cuts, j)} :: 0 <= j < |cuts| ==> Start(cuts, j) < cuts[j] <= n
  }

  lemma WellCutLast(cuts: seq<nat>, n: nat)
    requires WellCut(cuts, n)
    ensures LastCut(cuts) <= n
  {
    assert cuts != [] ==> Start(cuts, |cuts| - 1) < cuts[|cuts| - 1];
  }

  lemma WellCutMore(cuts: seq<nat>, n: nat, end: nat)
    requires WellCut(cuts, n) && n <= end && LastCut(cuts) < end
    ensures WellCut(cuts + [end], end) && WellCut(cuts, end)
    ensures LastCut(cuts + [end]) == end
  {
    var more := cuts + [end];
    forall j | 0 <= j < |more| ensures Start(more, j) < more[j] <= end {
      if j < |cuts| {
        assert Start(more, j) == Start(cuts, j);
      }
    }
    forall j | 0 <= j < |cuts| ensures Start(cuts, j) < cuts[j] <= end {
    }
  }

  /** The ends of the blocks flushed while `kvs` were added: a block ends with the record that takes its
      record bytes over 4096. */
  function CutsOf(kvs: seq<Pair>): (cuts: seq<nat>)
    ensures WellCut(cuts, |kvs|) && LastCut(cuts) <= |kvs|
  {
    if kvs == [] then [] else
      var cuts := CutsOf(kvs[..|kvs| - 1]);
      WellCutMore(cuts, |kvs| - 1, |kvs|);
      if |Records(kvs[LastCut(cuts)..])| > MAX_DATA_BLOCK_SIZE then cuts + [|kvs|] else cuts
  }

  /** The same with the block that `finish_sst` flushes. */
  function FinalCuts(kvs: seq<Pair>): (cuts: seq<nat>)
    ensures WellCut(cuts, |kvs|) && LastCut(cuts) == |kvs|
  {
    var cuts := CutsOf(kvs);
    if LastCut(cuts) < |kvs| then (WellCutMore(cuts, |kvs|, |kvs|); cuts + [|kvs|]) else cuts
  }

  lemma {:induction false} CutsInOrder(cuts: seq<nat>, n: nat, i: nat, j: nat)
    requires WellCut(cuts, n) && i <= j < |cuts|
    ensures cuts[i] <= cuts[j] <= n
    ensures i < j ==> cuts[i] <= Start(cuts, j) < cuts[j]
  {
    assert Start(cuts, j) < cuts[j];
    if i < j {
      CutsInOrder(cuts, n, i, j - 1);
    }
  }

  /** The pairs of block `j`. */
  function Part(kvs: seq<Pair>, cuts: seq<nat>, j: nat): (part: seq<Pair>)
    requires WellCut(cuts, |kvs|) && j < |cuts|
    ensures part != []
  {
    kvs[Start(cuts, j)..cuts[j]]
  }

  function Parts(kvs: seq<Pair>, cuts: seq<nat>): (parts: seq<seq<Pair>>)
    requires WellCut(cuts, |kvs|)
    ensures |parts| == |cuts|
    ensures forall j {:trigger parts[j]} :: 0 <= j < |cuts| ==> parts[j] == Part(kvs, cuts, j)
  {
    seq(|cuts|, j requires 0 <= j < |cuts| => Part(kvs, cuts, j))
  }

  /** Blocks one after the other. */
  function Data(parts: seq<seq<Pair>>): Bytes {
    if parts == [] then [] else Data(parts[..|parts| - 1]) + Block(parts[|parts| - 1])
  }

  lemma {:induction false} PartsStable(kvs: seq<Pair>, cuts: seq<nat>, moreKvs: seq<Pair>, moreCuts: seq<nat>)
    requires WellCut(cuts, |kvs|) && WellCut(cuts + moreCuts, |kvs + moreKvs|)
    ensures Parts(kvs + moreKvs, cuts + moreCuts)[..|cuts|] == Parts(kvs, cuts)
    ensures forall j :: 0 <= j < |cuts| ==> Part(kvs + moreKvs, cuts + moreCuts, j) == Part(kvs, cuts, j)
  {
    var kvs', cuts' := kvs + moreKvs, cuts + moreCuts;
    forall j | 0 <= j < |cuts| ensures Part(kvs', cuts', j) == Part(kvs, cuts, j) {
      assert Start(cuts', j) == Start(cuts, j);
    }
    var parts, parts' := Parts(kvs, cuts), Parts(kvs', cuts')[..|cuts|];
    forall j | 0 <= j < |cuts| ensures parts'[j] == parts[j] {
      assert parts'[j] == Parts(kvs', cuts')[j];
    }
  }

  // ---------- the index ----------

  datatype IndexEntry = IndexEntry(shortestKey: Bytes, info: OffsetInfo)

  function EncodeEntry(e: IndexEntry): (b: Bytes)
    ensures |b| == 12 + |e.shortestKey|
  {
    Fixed32(|e.shortestKey|) + e.shortestKey + EncodeOffsetInfo(e.info)
  }

  function EncodeIndex(es: seq<IndexEntry>): Bytes {
    if es == [] then [] else EncodeEntry(es[0]) + EncodeIndex(es[1..])
  }

  lemma {:induction false} EncodeIndexAppend(es: seq<IndexEntry>, e: IndexEntry)
    ensures EncodeIndex(es + [e]) == EncodeIndex(es) + EncodeEntry(e)
  {
    if es == [] {
      assert [e][1..] == [];
    } else {
      EncodeIndexAppend(es[1..], e);
      assert (es + [e])[1..] == es[1..] + [e];
    }
  }

  /** The separator written when a flush ends a block at `end`: it is computed from the key before the
      one that triggered the flush, and that one. */
  function FlushSeparator(kvs: seq<Pair>, end: nat): Bytes
    requires 2 <= end <= |kvs|
  {
    SeparatorOf(kvs[end - 2].key, kvs[end - 1].key)
  }

  /** The entry of a block flushed by `add`: its offset is taken after the offset moved past the block. */
  function FlushEntry(kvs: seq<Pair>, cuts: seq<nat>, j: nat): IndexEntry
    requires WellCut(cuts, |kvs|) && j < |cuts| && 2 <= cuts[j]
  {
    assert Start(cuts, j) < cuts[j];
    IndexEntry(FlushSeparator(kvs, cuts[j]), OffsetInfo(|Block(Part(kvs, cuts, j))|, |Data(Parts(kvs, cuts)[..j + 1])|))
  }

  /** The first block has at least two records: `find_shortest_key` needs a key before. */
  ghost predicate Separable(cuts: seq<nat>) {
    forall j :: 0 <= j < |cuts| ==> 2 <= cuts[j]
  }

  function FlushEntries(kvs: seq<Pair>, cuts: seq<nat>): (es: seq<IndexEntry>)
    requires WellCut(cuts, |kvs|) && Separable(cuts)
    ensures |es| == |cuts|
    ensures forall j {:trigger es[j]} :: 0 <= j < |cuts| ==> es[j] == FlushEntry(kvs, cuts, j)
  {
    seq(|cuts|, j requires 0 <= j < |cuts| => FlushEntry(kvs, cuts, j))
  }

  /** The entry `finish_sst` adds for the last block: its offset is where the block starts. */
  function LastEntry(kvs: seq<Pair>, cuts: seq<nat>): IndexEntry
    requires WellCut(cuts, |kvs|) && LastCut(cuts) < |kvs| && kvs[|kvs| - 1].key != []
  {
    IndexEntry(BumpLast(kvs[|kvs| - 1].key), OffsetInfo(|Block(kvs[LastCut(cuts)..])|, |Data(Parts(kvs, cuts))|))
  }

  ghost predicate KeysNotEmpty(kvs: seq<Pair>) {
    forall i :: 0 <= i < |kvs| ==> kvs[i].key != []
  }

  function LastKey(kvs: seq<Pair>): Bytes {
    if kvs == [] then [] else kvs[|kvs| - 1].key
  }

  /** All index entries of a finished table. */
  function Entries(kvs: seq<Pair>): (es: seq<IndexEntry>)
    requires Separable(CutsOf(kvs)) && KeysNotEmpty(kvs)
    ensures |es| == |FinalCuts(kvs)|
  {
    var cuts := CutsOf(kvs);
    FlushEntries(kvs, cuts) + if LastCut(cuts) < |kvs| then [LastEntry(kvs, cuts)] else []
  }

  // ---------- the whole file ----------

  function FooterBytes(filter: OffsetInfo, index: OffsetInfo): (b: Bytes)
    ensures |b| == 16
  {
    EncodeOffsetInfo(filter) + EncodeOffsetInfo(index)
  }

  function DataRegion(kvs: seq<Pair>): Bytes {
    Data(Parts(kvs, FinalCuts(kvs)))
  }

  /** Data blocks, filter, index, footer. */
  function FileBytes(data: Bytes, filter: Bytes, index: Bytes): Bytes {
    data + filter + index + FooterBytes(OffsetInfo(|filter|, |data|), OffsetInfo(|index|, |data| + |filter|))
  }

  /** The file of a finished table. */
  function Image(kvs: seq<Pair>, filter: Bytes): Bytes
    requires Separable(CutsOf(kvs)) && KeysNotEmpty(kvs)
  {
    FileBytes(DataRegion(kvs), filter, EncodeIndex(Entries(kvs)))
  }

  // ---------- adding one pair ----------

  lemma {:induction false} CutsOfAdd(kvs: seq<Pair>, kv: Pair)
    ensures var cuts := CutsOf(kvs);
            CutsOf(kvs + [kv]) == if |Records(kvs[LastCut(cuts)..] + [kv])| > MAX_DATA_BLOCK_SIZE
                                  then cuts + [|kvs| + 1] else cuts
  {
    var all := kvs + [kv];
    assert all[..|all| - 1] == kvs;
    assert all[LastCut(CutsOf(kvs))..] == kvs[LastCut(CutsOf(kvs))..] + [kv];
  }

  lemma {:induction false} FlushEntriesStable(kvs: seq<Pair>, cuts: seq<nat>, moreKvs: seq<Pair>, moreCuts: seq<nat>)
    requires WellCut(cuts, |kvs|) && WellCut(cuts + moreCuts, |kvs + moreKvs|)
    requires Separable(cuts) && Separable(cuts + moreCuts)
    ensures FlushEntries(kvs + moreKvs, cuts + moreCuts)[..|cuts|] == FlushEntries(kvs, cuts)
  {
    var kvs', cuts' := kvs + moreKvs, cuts + moreCuts;
    var es, es' := FlushEntries(kvs, cuts), FlushEntries(kvs', cuts')[..|cuts|];
    PartsStable(kvs, cuts, moreKvs, moreCuts);
    forall j | 0 <= j < |cuts| ensures es'[j] == es[j] {
      assert es'[j] == FlushEntries(kvs', cuts')[j] == FlushEntry(kvs', cuts', j);
      FlushEntryStable(kvs, cuts, moreKvs, moreCuts, j);
    }
  }

  lemma {:induction false} FlushEntryStable(kvs: seq<Pair>, cuts: seq<nat>, moreKvs: seq<Pair>, moreCuts: seq<nat>,
                                            j: nat)
    requires WellCut(cuts, |kvs|) && WellCut(cuts + moreCuts, |kvs + moreKvs|) && j < |cuts| && 2 <= cuts[j]
    ensures FlushEntry(kvs + moreKvs, cuts + moreCuts, j) == FlushEntry(kvs, cuts, j)
  {
    PartsStable(kvs, cuts, moreKvs, moreCuts);
    assert Start(cuts, j) < cuts[j];
    var ps := Parts(kvs + moreKvs, cuts + moreCuts);
    assert ps[..j + 1] == ps[..|cuts|][..j + 1];
  }

  // ---------- where blocks end, without the run ----------

  /** Block `j` goes over the limit with its last record and not before. */
  ghost predicate JustFull(kvs: seq<Pair>, start: nat, end: nat) {
    && start < end <= |kvs|
    && |Records(kvs[start..end])| > 4096 >= |Records(kvs[start..end - 1])|
  }

  /** Every flushed block is just full and what is left is not over the limit. */
  ghost predicate Greedy(kvs: seq<Pair>, cuts: seq<nat>) {
    && (forall j {:trigger Start(cuts, j)} :: 0 <= j < |cuts| ==> JustFull(kvs, Start(cuts, j), cuts[j]))
    && LastCut(cuts) <= |kvs| && |Records(kvs[LastCut(cuts)..])| <= 4096
  }

  lemma {:induction false} JustFullStable(kvs: seq<Pair>, more: seq<Pair>, start: nat, end: nat)
    requires end <= |kvs|
    ensures JustFull(kvs + more, start, end) <==> JustFull(kvs, start, end)
  {
    if start < end {
      assert (kvs + more)[start..end] == kvs[start..end] && (kvs + more)[start..end - 1] == kvs[start..end - 1];
    }
  }

  /** The cuts are the only ones that leave every flushed block just full and the rest within the limit. */
  lemma {:induction false} CutsExact(kvs: seq<Pair>, cuts: seq<nat>)
    ensures Greedy(kvs, cuts) <==> cuts == CutsOf(kvs)
    decreases |kvs|
  {
    if kvs == [] {
      NothingCut(cuts);
    } else {
      var init, kv := kvs[..|kvs| - 1], kvs[|kvs| - 1];
      SplitLast(kvs);
      CutsOfAdd(init, kv);
      CutsExact(init, CutsOf(init));
      GreedyNext(init, kv, CutsOf(init), kvs);
      if Greedy(kvs, cuts) && LastCut(cuts) == |kvs| {
        SplitLast(cuts);
        GreedyFlushed(init, kv, cuts[..|cuts| - 1], kvs);
        CutsExact(init, cuts[..|cuts| - 1]);
      } else if Greedy(kvs, cuts) {
        GreedyOpen(init, kv, cuts, kvs);
        CutsExact(init, cuts);
      }
    }
  }

  lemma NothingCut(cuts: seq<nat>)
    ensures Greedy([], cuts) <==> cuts == []
  {
    assert cuts != [] ==> !JustFull([], Start(cuts, 0), cuts[0]);
  }

  lemma {:induction false} GreedyNext(kvs: seq<Pair>, kv: Pair, cuts: seq<nat>, kvs': seq<Pair>)
    requires Greedy(kvs, cuts) && kvs' == kvs + [kv]
    ensures Greedy(kvs', if |Records(kvs[LastCut(cuts)..] + [kv])| > MAX_DATA_BLOCK_SIZE then cuts + [|kvs'|] else cuts)
  {
    var start := LastCut(cuts);
    var full := |Records(kvs[start..] + [kv])| > MAX_DATA_BLOCK_SIZE;
    var cuts' := if full then cuts + [|kvs'|] else cuts;
    assert kvs'[start..|kvs'|] == kvs'[start..] == kvs[start..] + [kv] && kvs'[start..|kvs'| - 1] == kvs[start..];
    forall j | 0 <= j < |cuts'| ensures JustFull(kvs', Start(cuts', j), cuts'[j]) {
      if j < |cuts| {
        assert Start(cuts', j) == Start(cuts, j);
        JustFullStable(kvs, [kv], Start(cuts, j), cuts[j]);
      }
    }
    assert kvs'[|kvs'|..] == [];
  }

  lemma {:induction false} GreedyWellCut(kvs: seq<Pair>, cuts: seq<nat>)
    requires Greedy(kvs, cuts)
    ensures WellCut(cuts, |kvs|)
  {
    forall j | 0 <= j < |cuts| ensures Start(cuts, j) < cuts[j] <= |kvs| {
      assert JustFull(kvs, Start(cuts, j), cuts[j]);
    }
  }

  lemma {:induction false} BlocksBefore(kvs: seq<Pair>, kv: Pair, cuts': seq<nat>, kvs': seq<Pair>, m: nat, j: nat)
    requires Greedy(kvs', cuts') && kvs' == kvs + [kv] && j < m <= |cuts'| && cuts'[m - 1] <= |kvs|
    ensures JustFull(kvs, Start(cuts', j), cuts'[j])
  {
    GreedyWellCut(kvs', cuts');
    hide Records;
    assert JustFull(kvs', Start(cuts', j), cuts'[j]);
    CutsInOrder(cuts', |kvs'|, j, m - 1);
    JustFullStable(kvs, [kv], Start(cuts', j), cuts'[j]);
  }

  /** What a last record adds to the open block, full or not. */
  lemma {:induction false} OpenBlock(kvs: seq<Pair>, kv: Pair, kvs': seq<Pair>, start: nat)
    requires start <= |kvs| && kvs' == kvs + [kv]
    ensures JustFull(kvs', start, |kvs'|)
            <==> |Records(kvs[start..] + [kv])| > MAX_DATA_BLOCK_SIZE >= |Records(kvs[start..])|
    ensures |Records(kvs'[start..])| <= MAX_DATA_BLOCK_SIZE ==>
              |Records(kvs[start..])| <= MAX_DATA_BLOCK_SIZE && |Records(kvs[start..] + [kv])| <= MAX_DATA_BLOCK_SIZE
  {
    assert kvs'[start..|kvs'|] == kvs'[start..] == kvs[start..] + [kv] && kvs'[start..|kvs'| - 1] == kvs[start..];
    RecordsGrow(kvs[start..], kv);
  }

  lemma {:induction false} GreedyFlushed(kvs: seq<Pair>, kv: Pair, cuts: seq<nat>, kvs': seq<Pair>)
    requires Greedy(kvs', cuts + [|kvs'|]) && kvs' == kvs + [kv]
    ensures Greedy(kvs, cuts) && |Records(kvs[LastCut(cuts)..] + [kv])| > MAX_DATA_BLOCK_SIZE
  {
    var cuts', m := cuts + [|kvs'|], |cuts|;
    GreedyWellCut(kvs', cuts');
    hide Records, JustFull;
    assert Start(cuts', m) == LastCut(cuts) && Start(cuts', m) < cuts'[m];
    assert JustFull(kvs', Start(cuts', m), cuts'[m]);
    OpenBlock(kvs, kv, kvs', LastCut(cuts));
    forall j | 0 <= j < m ensures JustFull(kvs, Start(cuts, j), cuts[j]) {
      assert Start(cuts', j) == Start(cuts, j);
      BlocksBefore(kvs, kv, cuts', kvs', m, j);
    }
  }

  lemma {:induction false} GreedyOpen(kvs: seq<Pair>, kv: Pair, cuts: seq<nat>, kvs': seq<Pair>)
    requires Greedy(kvs', cuts) && kvs' == kvs + [kv] && LastCut(cuts) <= |kvs|
    ensures Greedy(kvs, cuts) && |Records(kvs[LastCut(cuts)..] + [kv])| <= MAX_DATA_BLOCK_SIZE
  {
    hide Records, JustFull;
    OpenBlock(kvs, kv, kvs', LastCut(cuts));
    forall j | 0 <= j < |cuts| ensures JustFull(kvs, Start(cuts, j), cuts[j]) {
      BlocksBefore(kvs, kv, cuts, kvs', |cuts|, j);
    }
  }

  lemma RecordsGrow(kvs: seq<Pair>, kv: Pair)
    ensures |Records(kvs)| <= |Records(kvs + [kv])|
  {
    RecordsAppend(kvs, kv);
  }
}
