/** How long a table file gets, from the pairs that go in. */
module TableSize {
  import opened Sequences
  import opened ByteStrings
  import opened SortedPairs
  import opened DataBlock
  import opened Separator
  import opened SstTable
  import opened SSTableBuilders

  /** Record fields and bytes, a restart entry and a block trailer for every pair at most. */
  ghost function DataBound(kvs: seq<Pair>): nat {
    28 * |kvs| + Usage(kvs)
  }

  ghost function UsageBefore(kvs: seq<Pair>): nat {
    if kvs == [] then 0 else Usage(kvs[..|kvs| - 1])
  }

  lemma UsageAppend(kvs: seq<Pair>, kv: Pair)
    ensures Usage(kvs + [kv]) == Usage(kvs) + |kv.key| + |kv.value|
  {
    assert (kvs + [kv])[..|kvs|] == kvs;
  }

  lemma {:induction false} RecordsBound(kvs: seq<Pair>)
    ensures |Records(kvs)| <= 12 * |kvs| + Usage(kvs)
  {
    if kvs != [] {
      var init, kv := kvs[..|kvs| - 1], kvs[|kvs| - 1];
      SplitLast(kvs);
      RecordsBound(init);
      RecordsAppend(init, kv);
      UsageAppend(init, kv);
    }
  }

  lemma BlockBound(kvs: seq<Pair>)
    requires kvs != []
    ensures |Block(kvs)| <= DataBound(kvs)
  {
    RecordsBound(kvs);
    assert Groups(|kvs|) <= |kvs|;
  }

  /** File and open block stay within the bound of the pairs added; the index takes a key for each entry that
      no later entry takes. */
  ghost predicate Bounded(kvs: seq<Pair>, p: Progress) {
    && |p.file| + DataBound(p.pending) <= DataBound(kvs)
    && |p.index| <= 13 * |kvs| + UsageBefore(kvs)
    && p.preKey == LastKey(kvs)
  }

  lemma {:induction false} BoundedNext(kvs: seq<Pair>, kv: Pair, p: Progress, kvs': seq<Pair>, p': Progress)
    requires Bounded(kvs, p) && kv.key != [] && Accepts(p, kv) && kvs' == kvs + [kv] && p' == Advance(p, kv)
    ensures Bounded(kvs', p')
  {
    var pending := p.pending + [kv];
    UsageAppend(kvs, kv);
    UsageAppend(p.pending, kv);
    LastKeyCounts(kvs);
    assert kvs'[..|kvs|] == kvs;
    hide Usage;
    if Full(p, kv) {
      BlockBound(pending);
      SeparatorBound(p.preKey, kv.key);
    }
  }

  lemma LastKeyCounts(kvs: seq<Pair>)
    ensures |LastKey(kvs)| + UsageBefore(kvs) <= Usage(kvs)
  {
  }

  lemma SeparatorBound(key1: Bytes, key2: Bytes)
    ensures |SeparatorOf(key1, key2)| <= |key1| + 1
  {
  }

  lemma {:induction false} RunBounded(run: seq<Progress>, kvs: seq<Pair>, p: Progress, i: nat)
    requires IsRun(run, kvs, p) && i <= |kvs|
    ensures Bounded(kvs[..i], run[i])
  {
    if i > 0 {
      RunBounded(run, kvs, p, i - 1);
      assert StepAt(run, kvs, i - 1);
      TakeNext(kvs, i - 1);
      BoundedNext(kvs[..i - 1], kvs[i - 1], run[i - 1], kvs[..i], run[i]);
    }
  }

  /** The finished file, apart from the filter. */
  lemma {:induction false} FileBound(kvs: seq<Pair>, p: Progress, filter: Bytes)
    requires Reached(kvs, p) && (p.pending != [] ==> p.preKey != [])
    ensures |FileBytes(Close(p).file, filter, Close(p).index)| <= 41 * |kvs| + 2 * Usage(kvs) + 28 + |filter|
  {
    var run :| IsRun(run, kvs, p);
    RunBounded(run, kvs, p, |kvs|);
    TakeAll(kvs);
    LastKeyCounts(kvs);
    if p.pending != [] {
      BlockBound(p.pending);
    }
  }

  lemma {:induction false} CountBound(kvs: seq<Pair>)
    requires KeysNotEmpty(kvs)
    ensures |kvs| <= Usage(kvs)
  {
    if kvs != [] {
      CountBound(kvs[..|kvs| - 1]);
    }
  }
}
