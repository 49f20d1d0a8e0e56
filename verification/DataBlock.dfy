/** The layout of a data block: prefix-compressed records in groups of sixteen, then one restart
    entry per group, then the number of restart entries. */
module DataBlock {
  import opened ByteStrings
  import opened Codec

  const RESTART_INTERVAL := 16

  /** Length of the longest common prefix. */
  function CommonPrefix(a: Bytes, b: Bytes): (p: nat)
    ensures p <= |a| && p <= |b| && a[..p] == b[..p]
    ensures p < |a| && p < |b| ==> a[p] != b[p]
  {
    if a == [] || b == [] || a[0] != b[0] then 0
    else
      var p := 1 + CommonPrefix(a[1..], b[1..]);
      assert a[..p] == [a[0]] + a[1..][..p - 1];
      assert b[..p] == [b[0]] + b[1..][..p - 1];
      p
  }

  lemma {:induction false} CommonPrefixIs(a: Bytes, b: Bytes, p: nat)
    requires p <= |a| && p <= |b| && a[..p] == b[..p]
    requires p < |a| && p < |b| ==> a[p] != b[p]
    ensures CommonPrefix(a, b) == p
  {
    var q := CommonPrefix(a, b);
    assert forall i :: 0 <= i < p ==> a[i] == a[..p][i] && b[i] == b[..p][i];
    assert forall i :: 0 <= i < q ==> a[i] == a[..q][i] && b[i] == b[..q][i];
  }

  /** One record; `shared` bytes of the key are taken from the key before it. */
  function EncodeRecord(shared: nat, kv: Pair): (b: Bytes)
    requires shared <= |kv.key|
    ensures |b| == 12 + |kv.key| - shared + |kv.value|
  {
    Fixed32(shared) + Fixed32(|kv.key| - shared) + Fixed32(|kv.value|) + kv.key[shared..] + kv.value
  }

  /** The first record of a group shares nothing. */
  function Shared(kvs: seq<Pair>, i: nat): (p: nat)
    requires i < |kvs|
    ensures p <= |kvs[i].key|
  {
    if i % RESTART_INTERVAL == 0 then 0 else CommonPrefix(kvs[i].key, kvs[i - 1].key)
  }

  /** Records `i` up to `j`. */
  function EncodeRange(kvs: seq<Pair>, i: nat, j: nat): Bytes
    requires i <= j <= |kvs|
    decreases j - i
  {
    if i == j then [] else EncodeRecord(Shared(kvs, i), kvs[i]) + EncodeRange(kvs, i + 1, j)
  }

  function Records(kvs: seq<Pair>): Bytes {
    EncodeRange(kvs, 0, |kvs|)
  }

  function Groups(n: nat): nat {
    (n + RESTART_INTERVAL - 1) / RESTART_INTERVAL
  }

  /** Index one past the last record of group `g`. */
  function GroupEnd(n: nat, g: nat): nat {
    if (g + 1) * RESTART_INTERVAL < n then (g + 1) * RESTART_INTERVAL else n
  }

  function GroupOffset(kvs: seq<Pair>, g: nat): nat
    requires g * RESTART_INTERVAL <= |kvs|
  {
    |EncodeRange(kvs, 0, g * RESTART_INTERVAL)|
  }

  /** `static_cast<int>` of a real number. */
  function Truncate(x: real): int {
    if x >= 0.0 then x.Floor else -((-x).Floor)
  }

  function RestartNum(n: nat): int {
    Truncate((n as real - 0.5) / 16.0) + 1
  }

  /** Restart entry `g`: record count, then size and offset of the group. The count of the last group is
      `record_num % 16`. */
  function RestartEntry(kvs: seq<Pair>, g: nat): (b: Bytes)
    requires g < Groups(|kvs|)
    ensures |b| == 12
  {
    var offset := GroupOffset(kvs, g);
    var size, count :=
      if g + 1 < Groups(|kvs|) then GroupOffset(kvs, g + 1) - offset else |Records(kvs)| - offset,
      if g + 1 < Groups(|kvs|) then RESTART_INTERVAL else |kvs| % RESTART_INTERVAL;
    Fixed32(count) + EncodeOffsetInfo(OffsetInfo(size, offset))
  }

  function RestartEntries(kvs: seq<Pair>, n: nat): (b: Bytes)
    requires n <= Groups(|kvs|)
    ensures |b| == 12 * n
  {
    if n == 0 then [] else RestartEntries(kvs, n - 1) + RestartEntry(kvs, n - 1)
  }

  /** A finished block. */
  function Block(kvs: seq<Pair>): Bytes {
    Records(kvs) + RestartEntries(kvs, Groups(|kvs|)) + Fixed32(RestartNum(|kvs|))
  }

  // ---------- concatenation ----------

  lemma {:induction false} EncodeRangeSplit(kvs: seq<Pair>, i: nat, m: nat, j: nat)
    requires i <= m <= j <= |kvs|
    ensures EncodeRange(kvs, i, j) == EncodeRange(kvs, i, m) + EncodeRange(kvs, m, j)
    decreases m - i
  {
    if i < m {
      EncodeRangeSplit(kvs, i + 1, m, j);
    }
  }

  lemma SharedStable(kvs: seq<Pair>, more: seq<Pair>, all: seq<Pair>, i: nat)
    requires i < |kvs| && all == kvs + more
    ensures all[i] == kvs[i] && Shared(all, i) == Shared(kvs, i)
  {
    assert i > 0 ==> all[i - 1] == kvs[i - 1];
  }

  /** Records depend on what was added before them only. */
  lemma {:induction false} EncodeRangeStable(kvs: seq<Pair>, more: seq<Pair>, i: nat, j: nat)
    requires i <= j <= |kvs|
    ensures EncodeRange(kvs + more, i, j) == EncodeRange(kvs, i, j)
    decreases j - i
  {
    if i < j {
      SharedStable(kvs, more, kvs + more, i);
      EncodeRangeStable(kvs, more, i + 1, j);
    }
  }

  lemma {:induction false} RecordsAppend(kvs: seq<Pair>, kv: Pair)
    ensures Records(kvs + [kv]) == Records(kvs) + EncodeRecord(Shared(kvs + [kv], |kvs|), kv)
  {
    var all := kvs + [kv];
    EncodeRangeSplit(all, 0, |kvs|, |all|);
    EncodeRangeStable(kvs, [kv], 0, |kvs|);
    assert EncodeRange(all, |kvs|, |all|) == EncodeRecord(Shared(all, |kvs|), kv) + [];
  }

  // ---------- decoding ----------

  /** Decodes records until the bytes end, rebuilding each key from the key before it. */
  function DecodeRecords(bytes: Bytes, prev: Bytes): Option<seq<Pair>>
    decreases |bytes|
  {
    if bytes == [] then Some([])
    else if |bytes| < 12 then None
    else
      var shared := Signed32(DecodeFixed32(bytes));
      var unshared := Signed32(DecodeFixed32(bytes[4..]));
      var valueLen := Signed32(DecodeFixed32(bytes[8..]));
      if shared < 0 || unshared < 0 || valueLen < 0 || |prev| < shared || |bytes| < 12 + unshared + valueLen then None
      else
        var key := prev[..shared] + bytes[12..12 + unshared];
        var value := bytes[12 + unshared..12 + unshared + valueLen];
        match DecodeRecords(bytes[12 + unshared + valueLen..], key)
        case None => None
        case Some(rest) => Some([Pair(key, value)] + rest)
  }

  /** Keys and values whose lengths the 32-bit fields can hold. */
  ghost predicate LengthsFit(kvs: seq<Pair>) {
    forall i :: 0 <= i < |kvs| ==> FitsInt32(|kvs[i].key|) && FitsInt32(|kvs[i].value|)
  }

  lemma {:induction false} RecordFields(shared: nat, kv: Pair, rest: Bytes)
    requires shared <= |kv.key| && FitsInt32(|kv.key|) && FitsInt32(|kv.value|)
    ensures var b := EncodeRecord(shared, kv) + rest;
            var u := |kv.key| - shared;
            && Signed32(DecodeFixed32(b)) == shared
            && Signed32(DecodeFixed32(b[4..])) == u
            && Signed32(DecodeFixed32(b[8..])) == |kv.value|
            && b[12..12 + u] == kv.key[shared..]
            && b[12 + u..12 + u + |kv.value|] == kv.value
            && b[12 + u + |kv.value|..] == rest
  {
    var u := |kv.key| - shared;
    var b := EncodeRecord(shared, kv) + rest;
    var tail := kv.key[shared..] + kv.value + rest;
    assert b == Fixed32(shared) + (Fixed32(u) + (Fixed32(|kv.value|) + tail));
    assert b[4..] == Fixed32(u) + (Fixed32(|kv.value|) + tail);
    assert b[8..] == Fixed32(|kv.value|) + tail;
    RoundTrip32(shared, Fixed32(u) + (Fixed32(|kv.value|) + tail));
    RoundTrip32(u, Fixed32(|kv.value|) + tail);
    RoundTrip32(|kv.value|, tail);
    assert b[12..] == tail;
    assert tail[..u] == kv.key[shared..];
    assert tail[u..][..|kv.value|] == kv.value;
  }

  lemma {:induction false} DecodeOne(shared: nat, kv: Pair, rest: Bytes, prev: Bytes)
    requires shared <= |kv.key| && FitsInt32(|kv.key|) && FitsInt32(|kv.value|)
    requires shared <= |prev| && prev[..shared] == kv.key[..shared]
    ensures DecodeRecords(EncodeRecord(shared, kv) + rest, prev)
            == match DecodeRecords(rest, kv.key) case None => None case Some(kvs) => Some([kv] + kvs)
  {
    RecordFields(shared, kv, rest);
    assert prev[..shared] + kv.key[shared..] == kv.key;
  }

  lemma SharedWithPrevious(kvs: seq<Pair>, i: nat, prev: Bytes)
    requires i < |kvs|
    requires i % RESTART_INTERVAL == 0 || prev == kvs[i - 1].key
    ensures Shared(kvs, i) <= |prev| && prev[..Shared(kvs, i)] == kvs[i].key[..Shared(kvs, i)]
  {
  }

  lemma DecodeStep(shared: nat, kv: Pair, rest: Bytes, prev: Bytes, bytes: Bytes, more: seq<Pair>, all: seq<Pair>)
    requires shared <= |kv.key| && FitsInt32(|kv.key|) && FitsInt32(|kv.value|)
    requires shared <= |prev| && prev[..shared] == kv.key[..shared]
    requires bytes == EncodeRecord(shared, kv) + rest && all == [kv] + more
    requires DecodeRecords(rest, kv.key) == Some(more)
    ensures DecodeRecords(bytes, prev) == Some(all)
  {
    DecodeOne(shared, kv, rest, prev);
  }

  lemma NothingToDecode(prev: Bytes)
    ensures DecodeRecords([], prev) == Some([])
  {
  }

  /** Prefix compression is invertible from every point where the key before is known, and from every
      group start whatever key is supposed. */
  lemma {:induction false} DecodeRange(kvs: seq<Pair>, i: nat, j: nat, prev: Bytes)
    requires i <= j <= |kvs| && LengthsFit(kvs)
    requires i % RESTART_INTERVAL == 0 || prev == kvs[i - 1].key
    ensures DecodeRecords(EncodeRange(kvs, i, j), prev) == Some(kvs[i..j])
    decreases j - i
  {
    hide EncodeRecord, Shared;
    if i == j {
      NothingToDecode(prev);
      assert kvs[i..j] == [];
    } else {
      var rest := EncodeRange(kvs, i + 1, j);
      DecodeRange(kvs, i + 1, j, kvs[i].key);
      SharedWithPrevious(kvs, i, prev);
      DecodeStep(Shared(kvs, i), kvs[i], rest, prev, EncodeRange(kvs, i, j), kvs[i + 1..j], kvs[i..j]);
    }
  }

  lemma BlockAtRange(before: Bytes, here: Bytes, after: Bytes, entries: Bytes, trailer: Bytes)
    ensures |before + here| <= |(before + here + after) + entries + trailer|
    ensures ((before + here + after) + entries + trailer)[|before|..|before + here|] == here
  {
    Middle(before, here, after + entries + trailer);
    assert (before + here + after) + entries + trailer == before + here + (after + entries + trailer);
  }

  lemma StartOfGroup(g: nat)
    ensures (g * RESTART_INTERVAL) % RESTART_INTERVAL == 0
  {
  }

  /** Decoding the bytes of group `g` alone gives exactly its records. */
  lemma {:induction false} DecodeGroup(kvs: seq<Pair>, g: nat, prev: Bytes)
    requires g < Groups(|kvs|) && LengthsFit(kvs)
    ensures var start, end := g * RESTART_INTERVAL, GroupEnd(|kvs|, g);
            && start < end <= |kvs|
            && GroupOffset(kvs, g) <= |EncodeRange(kvs, 0, end)| <= |Block(kvs)|
            && DecodeRecords(Block(kvs)[GroupOffset(kvs, g)..|EncodeRange(kvs, 0, end)|], prev) == Some(kvs[start..end])
  {
    var start, end := g * RESTART_INTERVAL, GroupEnd(|kvs|, g);
    EncodeRangeSplit(kvs, 0, start, end);
    EncodeRangeSplit(kvs, 0, end, |kvs|);
    StartOfGroup(g);
    DecodeRange(kvs, start, end, prev);
    var before, here, after := EncodeRange(kvs, 0, start), EncodeRange(kvs, start, end), EncodeRange(kvs, end, |kvs|);
    BlockAtRange(before, here, after, RestartEntries(kvs, Groups(|kvs|)), Fixed32(RestartNum(|kvs|)));
  }

  // ---------- restart entries ----------

  /** The `- 0.5` formula rounds up: it counts the groups, except that it says one for none. */
  lemma RestartNumCountsGroups(n: nat)
    ensures RestartNum(n) == Groups(n) <==> n > 0
  {
    if n > 0 {
      var x := (n as real - 0.5) / 16.0;
      var g := Groups(n);
      assert 16 * (g - 1) < n <= 16 * g;
      assert (g - 1) as real <= x < g as real;
      assert x.Floor == g - 1;
    } else {
      assert (0.5 / 16.0).Floor == 0;
    }
  }

  function GroupSize(kvs: seq<Pair>, g: nat): nat
    requires g < Groups(|kvs|)
  {
    |EncodeRange(kvs, g * RESTART_INTERVAL, GroupEnd(|kvs|, g))|
  }

  lemma {:induction false} GroupOffsetNext(kvs: seq<Pair>, g: nat)
    requires g < Groups(|kvs|)
    ensures |EncodeRange(kvs, 0, GroupEnd(|kvs|, g))| == GroupOffset(kvs, g) + GroupSize(kvs, g)
    ensures g + 1 < Groups(|kvs|) ==> GroupOffset(kvs, g + 1) == GroupOffset(kvs, g) + GroupSize(kvs, g)
    ensures g + 1 == Groups(|kvs|) ==> |Records(kvs)| == GroupOffset(kvs, g) + GroupSize(kvs, g)
  {
    EncodeRangeSplit(kvs, 0, g * RESTART_INTERVAL, GroupEnd(|kvs|, g));
  }

  lemma {:induction false} RestartEntryAt(kvs: seq<Pair>, n: nat, g: nat)
    requires g < n <= Groups(|kvs|)
    ensures RestartEntries(kvs, n)[12 * g..12 * g + 12] == RestartEntry(kvs, g)
  {
    if g + 1 < n {
      RestartEntryAt(kvs, n - 1, g);
      assert RestartEntries(kvs, n)[..12 * (n - 1)] == RestartEntries(kvs, n - 1);
    }
  }

  function RecordCount(n: nat, g: nat): nat {
    if g + 1 < Groups(n) then RESTART_INTERVAL else n % RESTART_INTERVAL
  }

  /** What the restart entries of a block say. They tile the record region: the first starts at 0, each
      next one where the one before ends, and the last ends at the last record byte. */
  lemma {:induction false} RestartEntriesTile(kvs: seq<Pair>, g: nat)
    requires g < Groups(|kvs|) && FitsInt32(|Records(kvs)|)
    ensures var e := |Records(kvs)| + 12 * g;
            var info := OffsetInfo(GroupSize(kvs, g), GroupOffset(kvs, g));
            && e + 12 <= |Block(kvs)|
            && Signed32(DecodeFixed32(Block(kvs)[e..])) == RecordCount(|kvs|, g)
            && RecordCount(|kvs|, g) == (if 16 * (g + 1) < |kvs| then 16 else |kvs| % 16)
            && DecodeOffsetInfo(Block(kvs)[e + 4..]) == info
            && 16 * g < |kvs| && info.offset == |EncodeRange(kvs, 0, 16 * g)| && (g == 0 ==> info.offset == 0)
            && info.offset + info.size == (if g + 1 < Groups(|kvs|) then GroupOffset(kvs, g + 1) else |Records(kvs)|)
  {
    hide EncodeRecord, Fixed32, DecodeFixed32, DecodeOffsetInfo;
    var info, count := OffsetInfo(GroupSize(kvs, g), GroupOffset(kvs, g)), RecordCount(|kvs|, g);
    GroupOffsetNext(kvs, g);
    EncodeRangeSplit(kvs, 0, GroupEnd(|kvs|, g), |kvs|);
    BlockAtEntry(kvs, g);
    assert RestartEntry(kvs, g) == Fixed32(count) + EncodeOffsetInfo(info);
    EntryFields(BeforeEntry(kvs, g), count, info, AfterEntry(kvs, g));
  }

  lemma EntryFields(before: Bytes, count: int, info: OffsetInfo, rest: Bytes)
    requires FitsInt32(count) && FitsInt32(info.size) && FitsInt32(info.offset)
    ensures var b := before + (Fixed32(count) + EncodeOffsetInfo(info)) + rest;
            && Signed32(DecodeFixed32(b[|before|..])) == count
            && DecodeOffsetInfo(b[|before| + 4..]) == info
  {
    var c, i := Fixed32(count), EncodeOffsetInfo(info);
    Middle(before, c + i, rest);
    assert (c + i) + rest == c + (i + rest);
    Middle(before + c, i, rest);
    assert before + c + i + rest == before + (c + i) + rest;
    RoundTrip32(count, i + rest);
    RoundTripOffsetInfo(info, rest);
  }

  function BeforeEntry(kvs: seq<Pair>, g: nat): (b: Bytes)
    requires g < Groups(|kvs|)
    ensures |b| == |Records(kvs)| + 12 * g
  {
    Records(kvs) + RestartEntries(kvs, g)
  }

  function AfterEntry(kvs: seq<Pair>, g: nat): Bytes
    requires g < Groups(|kvs|)
  {
    RestartEntries(kvs, Groups(|kvs|))[12 * g + 12..] + Fixed32(RestartNum(|kvs|))
  }

  lemma {:induction false} RestartEntriesPrefix(kvs: seq<Pair>, g: nat, n: nat)
    requires g <= n <= Groups(|kvs|)
    ensures RestartEntries(kvs, n)[..12 * g] == RestartEntries(kvs, g)
  {
    if g < n {
      RestartEntriesPrefix(kvs, g, n - 1);
      assert RestartEntries(kvs, n)[..12 * (n - 1)] == RestartEntries(kvs, n - 1);
    }
  }

  lemma {:induction false} BlockAtEntry(kvs: seq<Pair>, g: nat)
    requires g < Groups(|kvs|)
    ensures Block(kvs) == BeforeEntry(kvs, g) + RestartEntry(kvs, g) + AfterEntry(kvs, g)
  {
    var es := RestartEntries(kvs, Groups(|kvs|));
    RestartEntryAt(kvs, Groups(|kvs|), g);
    RestartEntriesPrefix(kvs, g, Groups(|kvs|));
    CutAt(es, 12 * g, 12 * g + 12);
    Regroup(Records(kvs), es[..12 * g], es[12 * g..12 * g + 12], es[12 * g + 12..], Fixed32(RestartNum(|kvs|)));
  }

  function RecordCountSum(n: nat, g: nat): nat {
    if g == 0 then 0 else RecordCountSum(n, g - 1) + RecordCount(n, g - 1)
  }

  lemma {:induction false} RecordCountPrefix(n: nat, g: nat)
    requires g < Groups(n)
    ensures RecordCountSum(n, g) == RESTART_INTERVAL * g
  {
    if g > 0 {
      RecordCountPrefix(n, g - 1);
    }
  }

  /** The counts of the restart entries add up to the number of records exactly when the last group is
      not full: a full last group is written with count 0. */
  lemma {:induction false} RecordCountsExact(n: nat)
    requires n > 0
    ensures RecordCountSum(n, Groups(n)) == n <==> n % RESTART_INTERVAL != 0
  {
    RecordCountPrefix(n, Groups(n) - 1);
  }

  // ---------- whole blocks ----------

  /** No key is longer than the records up to its own. */
  lemma {:induction false} KeyBounded(kvs: seq<Pair>, i: nat)
    requires i < |kvs|
    ensures |kvs[i].key| + |kvs[i].value| <= |EncodeRange(kvs, 0, i + 1)|
  {
    EncodeRangeSplit(kvs, 0, i, i + 1);
    assert EncodeRange(kvs, i, i + 1) == EncodeRecord(Shared(kvs, i), kvs[i]) + [];
    if i % RESTART_INTERVAL != 0 {
      KeyBounded(kvs, i - 1);
    }
  }

  lemma {:induction false} RecordsFit(kvs: seq<Pair>)
    requires FitsInt32(|Records(kvs)|)
    ensures LengthsFit(kvs)
  {
    forall i | 0 <= i < |kvs| ensures FitsInt32(|kvs[i].key|) && FitsInt32(|kvs[i].value|) {
      KeyBounded(kvs, i);
      EncodeRangeSplit(kvs, 0, i + 1, |kvs|);
    }
  }

  lemma {:induction false} RecordsAtLeast(kvs: seq<Pair>, i: nat, j: nat)
    requires i <= j <= |kvs|
    ensures |EncodeRange(kvs, i, j)| >= 12 * (j - i)
    decreases j - i
  {
    if i < j {
      RecordsAtLeast(kvs, i + 1, j);
    }
  }

  /** A reference reader of one block: the last four bytes say how many restart entries to skip. */
  function DecodeBlock(block: Bytes): Option<seq<Pair>> {
    if |block| < 4 then None
    else
      var restarts := Signed32(DecodeFixed32(block[|block| - 4..]));
      if restarts < 0 || |block| < 4 + 12 * restarts then None
      else DecodeRecords(block[..|block| - 4 - 12 * restarts], [])
  }

  /** A block that holds records can be read back whole. */
  lemma {:induction false} DecodeBlockOf(kvs: seq<Pair>)
    requires kvs != [] && FitsInt32(|Block(kvs)|)
    ensures DecodeBlock(Block(kvs)) == Some(kvs)
  {
    RestartNumCountsGroups(|kvs|);
    RecordsFit(kvs);
    DecodeRange(kvs, 0, |kvs|, []);
    assert kvs[0..|kvs|] == kvs;
    DecodeBlockFrom(Records(kvs), RestartEntries(kvs, Groups(|kvs|)), RestartNum(|kvs|), kvs);
  }

  lemma {:induction false} DecodeBlockFrom(r: Bytes, es: Bytes, n: int, kvs: seq<Pair>)
    requires 0 <= n && FitsInt32(n) && |es| == 12 * n && DecodeRecords(r, []) == Some(kvs)
    ensures DecodeBlock(r + es + Fixed32(n)) == Some(kvs)
  {
    RoundTrip32(n, []);
    BlockEnds(r, es, n);
  }

  lemma BlockEnds(r: Bytes, es: Bytes, n: int)
    ensures var b := r + es + Fixed32(n);
            && b[|b| - 4..] == Fixed32(n) + []
            && b[..|b| - 4 - |es|] == r
  {
    var f := Fixed32(n);
    SplitEnds(r, es, f);
  }

  lemma SplitEnds(r: Bytes, es: Bytes, f: Bytes)
    ensures var b := r + es + f;
            b[|b| - |f|..] == f + [] && b[..|b| - |f| - |es|] == r
  {
  }

  /** The trailer of a finished block as the parser takes it: twelve bytes before the end it reads the
      size of the last group for the number of restart entries, and for their offset it reads the number
      of groups, which is never where they are. */
  lemma {:induction false} ReaderMisreadsTrailer(kvs: seq<Pair>)
    requires kvs != [] && FitsInt32(|Block(kvs)|)
    ensures var b, last := Block(kvs), Groups(|kvs|) - 1;
            && |b| >= 12
            && Signed32(DecodeFixed32(b[|b| - 12..])) == GroupSize(kvs, last)
            && DecodeOffsetInfo(b[|b| - 8..]) == OffsetInfo(GroupOffset(kvs, last), Groups(|kvs|))
            && DecodeOffsetInfo(b[|b| - 8..]).offset != |Records(kvs)|
  {
    hide EncodeRecord, RestartEntry, Fixed32, DecodeFixed32, DecodeOffsetInfo;
    var last := Groups(|kvs|) - 1;
    RestartNumCountsGroups(|kvs|);
    GroupOffsetNext(kvs, last);
    RecordsAtLeast(kvs, 0, |kvs|);
    BlockTail(kvs);
    TrailerFields(BeforeEntry(kvs, last), RecordCount(|kvs|, last), GroupSize(kvs, last), GroupOffset(kvs, last),
                  RestartNum(|kvs|));
  }

  lemma {:induction false} BlockTail(kvs: seq<Pair>)
    requires kvs != []
    ensures var last := Groups(|kvs|) - 1;
            Block(kvs) == BeforeEntry(kvs, last)
                          + (Fixed32(RecordCount(|kvs|, last))
                             + (Fixed32(GroupSize(kvs, last)) + Fixed32(GroupOffset(kvs, last))))
                          + Fixed32(RestartNum(|kvs|))
  {
    var last := Groups(|kvs|) - 1;
    BlockAtEntry(kvs, last);
    GroupOffsetNext(kvs, last);
    OffsetInfoBytes(OffsetInfo(GroupSize(kvs, last), GroupOffset(kvs, last)));
    assert RestartEntries(kvs, Groups(|kvs|))[12 * last + 12..] == [];
    assert AfterEntry(kvs, last) == Fixed32(RestartNum(|kvs|));
  }

  lemma TrailerFields(before: Bytes, count: int, size: int, offset: int, num: int)
    requires FitsInt32(size) && FitsInt32(offset) && FitsInt32(num)
    ensures var b := before + (Fixed32(count) + (Fixed32(size) + Fixed32(offset))) + Fixed32(num);
            && Signed32(DecodeFixed32(b[|b| - 12..])) == size
            && DecodeOffsetInfo(b[|b| - 8..]) == OffsetInfo(offset, num)
  {
    var c, s, o, n := Fixed32(count), Fixed32(size), Fixed32(offset), Fixed32(num);
    TrailerBytes(before, c, s, o, n);
    RoundTrip32(size, o + n);
    RoundTripOffsetInfo(OffsetInfo(offset, num), []);
    OffsetInfoBytes(OffsetInfo(offset, num));
    assert EncodeOffsetInfo(OffsetInfo(offset, num)) + [] == o + n;
  }

  lemma TrailerBytes(before: Bytes, c: Bytes, s: Bytes, o: Bytes, n: Bytes)
    requires |s| == |o| == |n| == 4
    ensures var b := before + (c + (s + o)) + n;
            b[|b| - 12..] == s + (o + n) && b[|b| - 8..] == o + n
  {
  }

  // ---------- records in the bytes of a block ----------

  /** `p` bytes are shared, and not one more. */
  predicate SharesExactly(a: Bytes, b: Bytes, p: int) {
    && 0 <= p <= |a| && p <= |b| && a[..p] == b[..p]
    && (p == |a| || p == |b| || a[p] != b[p])
  }

  /** At position `e`: three 32-bit fields, then the key without its first `p` bytes, then the value. */
  predicate RecordAt(b: Bytes, e: nat, p: int, key: Bytes, value: Bytes)
    requires 0 <= p <= |key|
  {
    var u := |key| - p;
    && e + 12 + u + |value| <= |b|
    && Signed32(DecodeFixed32(b[e..])) == p
    && Signed32(DecodeFixed32(b[e + 4..])) == u
    && Signed32(DecodeFixed32(b[e + 8..])) == |value|
    && b[e + 12..e + 12 + u] == key[p..]
    && b[e + 12 + u..e + 12 + u + |value|] == value
  }

  /** What stands in a finished block for record `i`: how many bytes its key shares with the key before, exactly,
      or none at the first of every sixteen; then the rest of the key and the value. The first record starts
      the block and each next one follows at once. */
  lemma {:induction false} RecordInBlock(kvs: seq<Pair>, i: nat) returns (p: nat)
    requires i < |kvs| && LengthsFit(kvs)
    ensures if i % 16 == 0 then p == 0 else SharesExactly(kvs[i].key, kvs[i - 1].key, p)
    ensures p <= |kvs[i].key| && RecordAt(Block(kvs), |EncodeRange(kvs, 0, i)|, p, kvs[i].key, kvs[i].value)
    ensures EncodeRange(kvs, 0, 0) == []
    ensures |EncodeRange(kvs, 0, i + 1)| == |EncodeRange(kvs, 0, i)| + 12 + |kvs[i].key| - p + |kvs[i].value|
  {
    p := Shared(kvs, i);
    SharedIs(kvs, i);
    RecordsAround(kvs, i, p);
    hide EncodeRecord, EncodeRange, Block, Shared, SharesExactly, RecordAt;
    RecordBytes(Block(kvs), |EncodeRange(kvs, 0, i)|, p, kvs[i],
                EncodeRange(kvs, i + 1, |kvs|) + RestartEntries(kvs, Groups(|kvs|)) + Fixed32(RestartNum(|kvs|)));
  }

  lemma {:induction false} RecordsAround(kvs: seq<Pair>, i: nat, p: nat)
    requires i < |kvs| && p == Shared(kvs, i)
    ensures EncodeRange(kvs, 0, i + 1) == EncodeRange(kvs, 0, i) + EncodeRecord(p, kvs[i])
    ensures |EncodeRange(kvs, 0, i)| <= |Block(kvs)|
    ensures Block(kvs)[|EncodeRange(kvs, 0, i)|..]
            == EncodeRecord(p, kvs[i])
               + (EncodeRange(kvs, i + 1, |kvs|) + RestartEntries(kvs, Groups(|kvs|)) + Fixed32(RestartNum(|kvs|)))
  {
    EncodeRangeSplit(kvs, 0, i, |kvs|);
    EncodeRangeSplit(kvs, 0, i, i + 1);
    OneInRange(kvs, i);
    hide EncodeRecord, RestartEntries, Fixed32, Shared;
    RecordAmongOthers(EncodeRange(kvs, 0, i), EncodeRecord(p, kvs[i]), EncodeRange(kvs, i + 1, |kvs|),
                      RestartEntries(kvs, Groups(|kvs|)), Fixed32(RestartNum(|kvs|)), Block(kvs));
  }

  lemma DropFront(before: Bytes, record: Bytes, after: Bytes, es: Bytes, f: Bytes)
    ensures ((before + (record + after)) + es + f)[|before|..] == record + (after + es + f)
  {
  }

  lemma OneInRange(kvs: seq<Pair>, i: nat)
    requires i < |kvs|
    ensures EncodeRange(kvs, i, i + 1) == EncodeRecord(Shared(kvs, i), kvs[i])
  {
    assert EncodeRange(kvs, i + 1, i + 1) == [];
  }

  lemma SharedIs(kvs: seq<Pair>, i: nat)
    requires i < |kvs|
    ensures if i % 16 == 0 then Shared(kvs, i) == 0 else SharesExactly(kvs[i].key, kvs[i - 1].key, Shared(kvs, i))
  {
  }

  lemma RecordAmongOthers(before: Bytes, record: Bytes, after: Bytes, entries: Bytes, trailer: Bytes, block: Bytes)
    requires block == (before + (record + after)) + entries + trailer
    ensures |before| + |record| <= |block| && block[|before|..] == record + (after + entries + trailer)
  {
    DropFront(before, record, after, entries, trailer);
  }

  lemma {:induction false} RecordBytes(b: Bytes, e: nat, shared: nat, kv: Pair, rest: Bytes)
    requires shared <= |kv.key| && FitsInt32(|kv.key|) && FitsInt32(|kv.value|)
    requires e <= |b| && b[e..] == EncodeRecord(shared, kv) + rest
    ensures RecordAt(b, e, shared, kv.key, kv.value)
  {
    var here, u := EncodeRecord(shared, kv) + rest, |kv.key| - shared;
    RecordFields(shared, kv, rest);
    assert |here| == |b| - e;
    hide EncodeRecord, DecodeFixed32;
    SliceOfRest(b, e, 4, |here|);
    SliceOfRest(b, e, 8, |here|);
    SliceOfRest(b, e, 12, 12 + u);
    SliceOfRest(b, e, 12 + u, 12 + u + |kv.value|);
  }
}
