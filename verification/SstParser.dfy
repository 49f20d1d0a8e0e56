/** The parser's steps that the writer's files satisfy: the footer, the index loop, the choice of a
    block for a key, and the first key of a record group. It starts from the bytes in memory. */
module SstParser {
  import opened ByteStrings
  import opened Codec
  import opened DataBlock
  import opened SstTable

  /** What stands for undefined behaviour or a thrown exception. */
  datatype ParseError = OutOfBounds | BadLength | AssertFailed

  datatype Result<+T> = Ok(value: T) | Err(error: ParseError)

  datatype Header = Header(meta: OffsetInfo, index: OffsetInfo)

  /** `reinterpret_cast<int32_t *>` at an address inside the content. */
  function Int32At(image: Bytes, at: int): Result<int> {
    if at < 0 || |image| < at + 4 then Err(OutOfBounds) else Ok(Signed32(DecodeFixed32(image[at..])))
  }

  function OffsetInfoAt(image: Bytes, at: int): Result<OffsetInfo> {
    if at < 0 || |image| < at + 8 then Err(OutOfBounds) else Ok(DecodeOffsetInfo(image[at..]))
  }

  function ParseHeader(image: Bytes): Result<Header> {
    match OffsetInfoAt(image, |image| - 16)
    case Err(e) => Err(e)
    case Ok(meta) =>
      match OffsetInfoAt(image, |image| - 8)
      case Err(e) => Err(e)
      case Ok(index) => Ok(Header(meta, index))
  }

  /** One index entry and the position after it. */
  function ParseEntry(image: Bytes, start: int): (r: Result<(IndexEntry, int)>)
    ensures r.Ok? ==> 0 <= start && start + 12 <= r.value.1 <= |image|
  {
    match Int32At(image, start)
    case Err(e) => Err(e)
    case Ok(size) =>
      if size < 0 then Err(BadLength)
      else if |image| < start + 4 + size then Err(OutOfBounds)
      else
        match OffsetInfoAt(image, start + 4 + size)
        case Err(e) => Err(e)
        case Ok(info) => Ok((IndexEntry(image[start + 4..start + 4 + size], info), start + 12 + size))
  }

  /** The entries between two positions; the loop must stop exactly at the end. */
  function ParseIndex(image: Bytes, start: int, end: int): Result<seq<IndexEntry>>
    decreases end - start
  {
    if start >= end then (if start == end then Ok([]) else Err(AssertFailed))
    else
      match ParseEntry(image, start)
      case Err(e) => Err(e)
      case Ok((entry, next)) =>
        match ParseIndex(image, next, end)
        case Err(e) => Err(e)
        case Ok(rest) => Ok([entry] + rest)
  }

  /** Steps 1 and 2 of `Parse`. */
  function ParseSpec(image: Bytes): Result<(Header, seq<IndexEntry>)> {
    match ParseHeader(image)
    case Err(e) => Err(e)
    case Ok(h) =>
      match ParseIndex(image, h.index.offset, h.index.offset + h.index.size)
      case Err(e) => Err(e)
      case Ok(es) => Ok((h, es))
  }

  function Prepend(es: seq<IndexEntry>, r: Result<seq<IndexEntry>>): Result<seq<IndexEntry>> {
    match r
    case Err(e) => Err(e)
    case Ok(rest) => Ok(es + rest)
  }

  lemma PrependNothing(r: Result<seq<IndexEntry>>)
    ensures Prepend([], r) == r
  {
    if r.Ok? {
      assert [] + r.value == r.value;
    }
  }

  lemma PrependStep(es: seq<IndexEntry>, image: Bytes, start: int, end: int, entry: IndexEntry, next: int)
    requires start < end && ParseEntry(image, start) == Ok((entry, next))
    ensures Prepend(es, ParseIndex(image, start, end)) == Prepend(es + [entry], ParseIndex(image, next, end))
  {
    var r := ParseIndex(image, next, end);
    if r.Ok? {
      assert es + ([entry] + r.value) == es + [entry] + r.value;
    }
  }

  class SSTParser {
    const sstContent: Bytes
    var header: Header
    var indexBlocks: seq<IndexEntry>

    constructor (content: Bytes)
      ensures sstContent == content && indexBlocks == []
    {
      sstContent := content;
      header := Header(OffsetInfo(0, 0), OffsetInfo(0, 0));
      indexBlocks := [];
    }

    /** The loop over the index: it pushes exactly the entries that are there. */
    method ParseIndexBlocks(from: int, end: int) returns (error: Option<ParseError>)
      requires indexBlocks == []
      modifies this`indexBlocks
      ensures match ParseIndex(sstContent, from, end)
              case Ok(es) => error == None && indexBlocks == es
              case Err(e) => error == Some(e)
    {
      var start := from;
      PrependNothing(ParseIndex(sstContent, from, end));
      while start < end
        invariant ParseIndex(sstContent, from, end) == Prepend(indexBlocks, ParseIndex(sstContent, start, end))
        decreases end - start
      {
        match ParseEntry(sstContent, start) {
          case Err(e) => return Some(e);
          case Ok((entry, next)) =>
            PrependStep(indexBlocks, sstContent, start, end, entry, next);
            indexBlocks := indexBlocks + [entry];
            start := next;
        }
      }
      if start != end {
        return Some(AssertFailed);
      }
      return None;
    }

    method Parse() returns (error: Option<ParseError>)
      requires indexBlocks == []
      modifies this
      ensures match ParseSpec(sstContent)
              case Ok((h, es)) => error == None && header == h && indexBlocks == es
              case Err(e) => error == Some(e)
    {
      match ParseHeader(sstContent) {
        case Err(e) => return Some(e);
        case Ok(h) => header := h;
      }
      error := ParseIndexBlocks(header.index.offset, header.index.offset + header.index.size);
    }

    /** The first block whose separator is above the key; -1 if there is none. */
    method FindKeyDBIndex(key: Bytes) returns (index: int)
      ensures index == BlockFor(indexBlocks, key)
    {
      index := -1;
      var i := 0;
      while i < |indexBlocks|
        invariant 0 <= i <= |indexBlocks| && index == -1
        invariant BlockFor(indexBlocks, key) == BlockForFrom(indexBlocks, key, i)
      {
        if Less(key, indexBlocks[i].shortestKey) {
          index := i;
          break;
        }
        i := i + 1;
      }
    }
  }

  function BlockForFrom(es: seq<IndexEntry>, key: Bytes, i: nat): (r: int)
    requires i <= |es|
    ensures r == -1 || i <= r < |es|
    decreases |es| - i
  {
    if i == |es| then -1
    else if Less(key, es[i].shortestKey) then i
    else BlockForFrom(es, key, i + 1)
  }

  function BlockFor(es: seq<IndexEntry>, key: Bytes): int {
    BlockForFrom(es, key, 0)
  }

  /** What identifies the answer: its separator is above the key and every earlier one is not. */
  lemma {:induction false} BlockForIs(es: seq<IndexEntry>, key: Bytes, i: nat, j: int)
    requires i <= |es| && (i <= j < |es| || j == -1)
    ensures BlockForFrom(es, key, i) == j
            <==> (j >= 0 ==> Less(key, es[j].shortestKey)) && NoneBelow(es, key, i, if j == -1 then |es| else j)
    decreases |es| - i
  {
    if i < |es| && i != j {
      BlockForIs(es, key, i + 1, j);
      var end := if j == -1 then |es| else j;
      assert NoneBelow(es, key, i, end) <==> !Less(key, es[i].shortestKey) && NoneBelow(es, key, i + 1, end);
    }
  }

  /** The key is below none of these separators. */
  ghost predicate NoneBelow(es: seq<IndexEntry>, key: Bytes, i: nat, end: nat)
    requires end <= |es|
  {
    forall k :: i <= k < end ==> !Less(key, es[k].shortestKey)
  }

  /** `FindFullKeyByRP`: the first key of a record group; None when an assert fails. */
  function FindFullKeyByRP(block: Bytes, recordNum: int, info: OffsetInfo): Option<Bytes>
    requires 0 <= info.offset && info.offset + 12 <= |block|
  {
    var record := block[info.offset..];
    var sharedKeyLen := Signed32(DecodeFixed32(record));
    var unsharedKeyLen := Signed32(DecodeFixed32(record[4..]));
    if recordNum <= 0 || sharedKeyLen != 0 || unsharedKeyLen <= 0 || |record| < 12 + unsharedKeyLen then None
    else Some(record[12..12 + unsharedKeyLen])
  }

  lemma FullKeyRead(block: Bytes, recordNum: int, info: OffsetInfo, kv: Pair, rest: Bytes)
    requires 0 <= info.offset && info.offset + 12 <= |block|
    requires block[info.offset..] == EncodeRecord(0, kv) + rest
    requires FitsInt32(|kv.key|) && FitsInt32(|kv.value|)
    ensures FindFullKeyByRP(block, recordNum, info) == if recordNum > 0 && kv.key != [] then Some(kv.key) else None
  {
    RecordFields(0, kv, rest);
  }

  /** Every restart entry of a finished block leads to the full first key of its group, except that the
      entry of a full last group says it has no records, which the parser's first assert refuses. */
  lemma {:induction false} RestartFindsFullKey(kvs: seq<Pair>, block: Bytes, g: nat, info: OffsetInfo)
    requires g < Groups(|kvs|) && block == Block(kvs) && |block| < TWO_31
    requires info == OffsetInfo(GroupSize(kvs, g), GroupOffset(kvs, g)) && kvs[g * RESTART_INTERVAL].key != []
    ensures info.offset + 12 <= |block|
    ensures FindFullKeyByRP(block, RecordCount(|kvs|, g), info)
            == if RecordCount(|kvs|, g) > 0 then Some(kvs[g * RESTART_INTERVAL].key) else None
    ensures RecordCount(|kvs|, g) > 0 <==> g + 1 < Groups(|kvs|) || |kvs| % RESTART_INTERVAL != 0
  {
    hide EncodeRecord, FindFullKeyByRP, Fixed32, RestartEntries;
    var i := g * RESTART_INTERVAL;
    RecordsFit(kvs);
    GroupStarts(kvs, block, i, EncodeRange(kvs, 0, i), EncodeRecord(0, kvs[i]), EncodeRange(kvs, i + 1, |kvs|),
                RestartEntries(kvs, Groups(|kvs|)), Fixed32(RestartNum(|kvs|)));
    FullKeyRead(block, RecordCount(|kvs|, g), info, kvs[i],
                EncodeRange(kvs, i + 1, |kvs|) + RestartEntries(kvs, Groups(|kvs|)) + Fixed32(RestartNum(|kvs|)));
  }

  lemma {:induction false} GroupStarts(kvs: seq<Pair>, block: Bytes, i: nat, before: Bytes, record: Bytes,
                                       after: Bytes, es: Bytes, f: Bytes)
    requires i < |kvs| && i % RESTART_INTERVAL == 0 && block == Records(kvs) + es + f
    requires before == EncodeRange(kvs, 0, i) && record == EncodeRecord(0, kvs[i])
             && after == EncodeRange(kvs, i + 1, |kvs|)
    ensures |before| + |record| <= |block| && block[|before|..] == record + (after + es + f)
  {
    EncodeRangeSplit(kvs, 0, i, |kvs|);
    assert Shared(kvs, i) == 0;
    assert Records(kvs) == before + (record + after);
    DropFront(before, record, after, es, f);
  }

  // ---------- reading back what was written ----------

  ghost predicate EntriesFit(es: seq<IndexEntry>) {
    forall i :: 0 <= i < |es| ==>
      FitsInt32(|es[i].shortestKey|) && FitsInt32(es[i].info.size) && FitsInt32(es[i].info.offset)
  }

  /** An entry read where one was written. */
  lemma {:induction false} ParseEntryWritten(image: Bytes, start: nat, e: IndexEntry, tail: Bytes)
    requires FitsInt32(|e.shortestKey|) && FitsInt32(e.info.size) && FitsInt32(e.info.offset)
    requires SuffixIs(image, start, EncodeEntry(e) + tail)
    ensures ParseEntry(image, start) == Ok((e, start + |EncodeEntry(e)|))
  {
    SuffixSlice(image, start, EncodeEntry(e) + tail);
    var f, k, o := Fixed32(|e.shortestKey|), e.shortestKey, EncodeOffsetInfo(e.info);
    EntryBytes(image, start, f, k, o, tail);
    RoundTrip32(|k|, k + o + tail);
    RoundTripOffsetInfo(e.info, tail);
  }

  lemma EntryBytes(image: Bytes, start: nat, f: Bytes, k: Bytes, o: Bytes, tail: Bytes)
    requires |f| == 4 && |o| == 8
    requires start <= |image| && image[start..] == f + k + o + tail
    ensures |image| == start + 12 + |k| + |tail|
    ensures image[start..] == f + (k + o + tail)
    ensures image[start + 4..start + 4 + |k|] == k
    ensures image[start + 4 + |k|..] == o + tail
    ensures image[start + 12 + |k|..] == tail
  {
    var rest := image[start..];
    SliceOfRest(image, start, 4, 4 + |k|);
    SliceOfRest(image, start, 4 + |k|, |rest|);
    SliceOfRest(image, start, 12 + |k|, |rest|);
    assert rest[4..4 + |k|] == k && rest[4 + |k|..] == o + tail && rest[12 + |k|..] == tail;
  }

  /** Where entry `i` starts in the encoded index. */
  function EntryPos(es: seq<IndexEntry>, i: nat): nat
    requires i <= |es|
  {
    if i == 0 then 0 else EntryPos(es, i - 1) + 12 + |es[i - 1].shortestKey|
  }

  lemma {:induction false} IndexFrom(es: seq<IndexEntry>, i: nat)
    requires i <= |es|
    ensures SuffixIs(EncodeIndex(es), EntryPos(es, i), EncodeIndex(es[i..]))
    ensures i == |es| ==> EntryPos(es, i) == |EncodeIndex(es)|
  {
    var b := EncodeIndex(es);
    if i == 0 {
      assert es[0..] == es;
    } else {
      IndexFrom(es, i - 1);
      var e, rest := EncodeEntry(es[i - 1]), EncodeIndex(es[i..]);
      assert es[i - 1..][1..] == es[i..];
      SuffixSlice(e + rest, |e|, rest);
      SuffixOfSuffix(b, EntryPos(es, i - 1), e + rest, |e|, rest);
      SuffixSlice(b, EntryPos(es, i), rest);
    }
  }

  lemma {:induction false} EntryInImage(image: Bytes, start: nat, es: seq<IndexEntry>, tail: Bytes, i: nat)
    requires EntriesFit(es) && i < |es|
    requires SuffixIs(image, start, EncodeIndex(es) + tail)
    ensures ParseEntry(image, start + EntryPos(es, i)) == Ok((es[i], start + EntryPos(es, i + 1)))
  {
    var e, rest := EncodeEntry(es[i]), EncodeIndex(es[i + 1..]);
    IndexFrom(es, i);
    assert es[i..][1..] == es[i + 1..];
    SuffixExtend(EncodeIndex(es), EntryPos(es, i), e + rest, tail);
    SuffixOfSuffix(image, start, EncodeIndex(es) + tail, EntryPos(es, i), e + rest + tail);
    Concat3(e, rest, tail);
    ParseEntryWritten(image, start + EntryPos(es, i), es[i], rest + tail);
  }

  /** A run of entries, each starting where the one before ends. */
  lemma {:induction false} ParseRun(image: Bytes, es: seq<IndexEntry>, pos: seq<int>, i: nat)
    requires |pos| == |es| + 1 && i <= |es|
    requires forall k :: 0 <= k < |es| ==> ParseEntry(image, pos[k]) == Ok((es[k], pos[k + 1]))
    ensures pos[i] <= pos[|es|]
    ensures ParseIndex(image, pos[i], pos[|es|]) == Ok(es[i..])
    decreases |es| - i
  {
    if i < |es| {
      ParseRun(image, es, pos, i + 1);
      assert ParseEntry(image, pos[i]) == Ok((es[i], pos[i + 1]));
      assert es[i..] == [es[i]] + es[i + 1..];
    } else {
      assert es[i..] == [];
    }
  }

  /** The index loop inverts the index encoder and stops exactly at its end. */
  lemma {:induction false} ParseIndexWritten(image: Bytes, start: nat, end: int, es: seq<IndexEntry>, tail: Bytes)
    requires EntriesFit(es) && end == start + |EncodeIndex(es)|
    requires SuffixIs(image, start, EncodeIndex(es) + tail)
    ensures ParseIndex(image, start, end) == Ok(es)
  {
    var pos := EntryPositions(image, start, es, tail);
    ParseRun(image, es, pos, 0);
    assert es[0..] == es;
  }

  lemma {:induction false} EntryPositions(image: Bytes, start: nat, es: seq<IndexEntry>, tail: Bytes)
      returns (pos: seq<int>)
    requires EntriesFit(es) && SuffixIs(image, start, EncodeIndex(es) + tail)
    ensures |pos| == |es| + 1 && pos[0] == start && pos[|es|] == start + |EncodeIndex(es)|
    ensures forall k :: 0 <= k < |es| ==> ParseEntry(image, pos[k]) == Ok((es[k], pos[k + 1]))
  {
    IndexFrom(es, |es|);
    pos := seq(|es| + 1, k requires 0 <= k <= |es| => start + EntryPos(es, k));
    forall k | 0 <= k < |es| ensures ParseEntry(image, pos[k]) == Ok((es[k], pos[k + 1])) {
      EntryInImage(image, start, es, tail, k);
    }
  }
}
