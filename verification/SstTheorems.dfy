/** What can be read back from a finished table file. */
module SstTheorems {
  import opened ByteStrings
  import opened SortedPairs
  import opened Codec
  import opened DataBlock
  import opened Separator
  import opened SstTable
  import opened SstParser

  // ---------- sizes ----------

  lemma {:induction false} DataPrefix(parts: seq<seq<Pair>>, j: nat)
    requires j <= |parts|
    ensures |Data(parts[..j])| <= |Data(parts)| && Data(parts)[..|Data(parts[..j])|] == Data(parts[..j])
    decreases |parts| - j, |parts|
  {
    if j == |parts| {
      assert parts[..j] == parts;
    } else {
      var init := parts[..|parts| - 1];
      DataPrefix(init, j);
      assert init[..j] == parts[..j];
      var a, b, d := Data(init), Block(parts[|parts| - 1]), Data(parts[..j]);
      TakeTwice(a, b, d);
    }
  }

  lemma TakeTwice(a: Bytes, b: Bytes, d: Bytes)
    requires |d| <= |a| && a[..|d|] == d
    ensures (a + b)[..|d|] == d
  {
  }

  /** Block `j` lies between the data before it and the data up to it. */
  lemma {:induction false} BlockInData(parts: seq<seq<Pair>>, j: nat)
    requires j < |parts|
    ensures |Data(parts[..j + 1])| == |Data(parts[..j])| + |Block(parts[j])| <= |Data(parts)|
    ensures Data(parts)[|Data(parts[..j])|..|Data(parts[..j + 1])|] == Block(parts[j])
  {
    DataPrefix(parts, j + 1);
    var upTo := parts[..j + 1];
    assert upTo[..j] == parts[..j] && upTo[j] == parts[j];
    var d, b, whole := Data(parts[..j]), Block(parts[j]), Data(parts);
    assert Data(upTo) == d + b;
    SliceOfPrefix(whole, d, b);
  }

  lemma SliceOfPrefix(whole: Bytes, d: Bytes, b: Bytes)
    requires |d + b| <= |whole| && whole[..|d + b|] == d + b
    ensures whole[|d|..|d + b|] == b
  {
    assert whole[|d|..|d + b|] == whole[..|d + b|][|d|..];
  }

  lemma {:induction false} KeyInIndex(es: seq<IndexEntry>, i: nat)
    requires i < |es|
    ensures |es[i].shortestKey| <= |EncodeIndex(es)|
    decreases i
  {
    if i > 0 {
      KeyInIndex(es[1..], i - 1);
    }
  }

  ghost predicate Finishable(kvs: seq<Pair>) {
    Separable(CutsOf(kvs)) && KeysNotEmpty(kvs)
  }

  /** The blocks of the finished table. */
  ghost function FinalParts(kvs: seq<Pair>): seq<seq<Pair>> {
    Parts(kvs, FinalCuts(kvs))
  }

  /** What every index entry says: the size of its block, and an offset that is the end of the block for
      a block flushed by `add` and its start for the one flushed by `finish_sst`. */
  lemma {:induction false} EntryOf(kvs: seq<Pair>, j: nat)
    requires Finishable(kvs) && j < |FinalCuts(kvs)|
    ensures var parts, e := FinalParts(kvs), Entries(kvs)[j];
            && e.info.size == |Block(parts[j])|
            && e.info.offset == |Data(parts[..if j < |CutsOf(kvs)| then j + 1 else j])|
  {
    var cuts, final := CutsOf(kvs), FinalCuts(kvs);
    if LastCut(cuts) < |kvs| {
      WellCutMore(cuts, |kvs|, |kvs|);
      assert kvs + [] == kvs;
      PartsStable(kvs, cuts, [], [|kvs|]);
      assert FinalParts(kvs)[..|cuts|] == Parts(kvs, cuts);
      if j < |cuts| {
        assert FinalParts(kvs)[j] == Part(kvs, cuts, j);
        assert FinalParts(kvs)[..j + 1] == Parts(kvs, cuts)[..j + 1];
      } else {
        assert FinalParts(kvs)[j] == kvs[LastCut(cuts)..];
        assert FinalParts(kvs)[..j] == Parts(kvs, cuts);
      }
    } else {
      assert FinalParts(kvs)[j] == Part(kvs, cuts, j);
    }
  }

  lemma {:induction false} EntriesOfImageFit(kvs: seq<Pair>, filter: Bytes)
    requires Finishable(kvs) && |Image(kvs, filter)| < TWO_31
    ensures EntriesFit(Entries(kvs))
  {
    var es, parts := Entries(kvs), FinalParts(kvs);
    forall i | 0 <= i < |es|
      ensures FitsInt32(|es[i].shortestKey|) && FitsInt32(es[i].info.size) && FitsInt32(es[i].info.offset)
    {
      KeyInIndex(es, i);
      EntryOf(kvs, i);
      BlockInData(parts, i);
    }
  }

  // ---------- the parser on a finished file ----------

  lemma ImageBytes(data: Bytes, filter: Bytes, index: Bytes, m: Bytes, n: Bytes)
    requires |m| == |n| == 8
    ensures var image := data + filter + index + (m + n);
            && image[|image| - 16..] == m + n
            && image[|image| - 8..] == n + []
            && image[..|data|] == data
            && image[|data|..|data| + |filter|] == filter
            && image[|data| + |filter|..] == index + (m + n)
  {
  }

  /** For every run that a file of less than 2 GB can hold: the footer gives back the ranges of filter and
      index, the filter range holds the filter, and the index loop recovers exactly the entries written. */
  lemma {:induction false} ParseImage(kvs: seq<Pair>, filter: Bytes, image: Bytes, data: Bytes, es: seq<IndexEntry>)
    requires Finishable(kvs) && |image| < TWO_31
    requires image == Image(kvs, filter) && data == DataRegion(kvs) && es == Entries(kvs)
    ensures ParseSpec(image)
            == Ok((Header(OffsetInfo(|filter|, |data|), OffsetInfo(|EncodeIndex(es)|, |data| + |filter|)), es))
    ensures image[..|data|] == data && image[|data|..|data| + |filter|] == filter
  {
    EntriesOfImageFit(kvs, filter);
    ParseFile(image, data, filter, es, EncodeIndex(es));
  }

  lemma {:induction false} ParseFile(image: Bytes, data: Bytes, filter: Bytes, es: seq<IndexEntry>, index: Bytes)
    requires EntriesFit(es) && index == EncodeIndex(es) && |image| < TWO_31
    requires image == FileBytes(data, filter, index)
    ensures ParseSpec(image) == Ok((Header(OffsetInfo(|filter|, |data|), OffsetInfo(|index|, |data| + |filter|)), es))
    ensures image[..|data|] == data && image[|data|..|data| + |filter|] == filter
  {
    var meta, info := OffsetInfo(|filter|, |data|), OffsetInfo(|index|, |data| + |filter|);
    var m, n := EncodeOffsetInfo(meta), EncodeOffsetInfo(info);
    ImageBytes(data, filter, index, m, n);
    SuffixSlice(image, info.offset, index + (m + n));
    ParseFields(image, meta, info, m, n, es);
  }

  lemma {:induction false} ParseFields(image: Bytes, meta: OffsetInfo, info: OffsetInfo, m: Bytes, n: Bytes,
                                       es: seq<IndexEntry>)
    requires m == EncodeOffsetInfo(meta) && n == EncodeOffsetInfo(info) && |image| >= 16 && EntriesFit(es)
    requires FitsInt32(meta.size) && FitsInt32(meta.offset) && FitsInt32(info.size) && 0 <= info.offset < TWO_31
    requires image[|image| - 16..] == m + n && image[|image| - 8..] == n + []
    requires info.size == |EncodeIndex(es)| && SuffixIs(image, info.offset, EncodeIndex(es) + (m + n))
    ensures ParseSpec(image) == Ok((Header(meta, info), es))
  {
    ParseParts(image, meta, info, m, n);
    ParseTail(image, meta, info, es, m + n);
  }

  lemma {:induction false} ParseTail(image: Bytes, meta: OffsetInfo, info: OffsetInfo, es: seq<IndexEntry>, tail: Bytes)
    requires ParseHeader(image) == Ok(Header(meta, info)) && EntriesFit(es) && info.offset >= 0
    requires info.size == |EncodeIndex(es)| && SuffixIs(image, info.offset, EncodeIndex(es) + tail)
    ensures ParseSpec(image) == Ok((Header(meta, info), es))
  {
    var start, end := info.offset, info.offset + info.size;
    ParseIndexWritten(image, start, end, es, tail);
    ParseCombine(image, meta, info, start, end, es);
  }

  lemma ParseCombine(image: Bytes, meta: OffsetInfo, info: OffsetInfo, start: int, end: int, es: seq<IndexEntry>)
    requires ParseHeader(image) == Ok(Header(meta, info))
    requires start == info.offset && end == info.offset + info.size && ParseIndex(image, start, end) == Ok(es)
    ensures ParseSpec(image) == Ok((Header(meta, info), es))
  {
  }

  lemma ParseParts(image: Bytes, meta: OffsetInfo, info: OffsetInfo, m: Bytes, n: Bytes)
    requires m == EncodeOffsetInfo(meta) && n == EncodeOffsetInfo(info) && |image| >= 16
    requires FitsInt32(meta.size) && FitsInt32(meta.offset) && FitsInt32(info.size) && FitsInt32(info.offset)
    requires image[|image| - 16..] == m + n && image[|image| - 8..] == n + []
    ensures ParseHeader(image) == Ok(Header(meta, info))
  {
    RoundTripOffsetInfo(meta, n);
    RoundTripOffsetInfo(info, []);
  }

  // ---------- where entries point ----------

  /** The entry of a block flushed by `add` says where the block ends, so the block is the `size` bytes
      before the offset; the entry written by `finish_sst` says where it starts. Only the latter's
      (offset, size) range is its block. */
  lemma {:induction false} EntryPointsAtBlock(kvs: seq<Pair>, parts: seq<seq<Pair>>, data: Bytes, j: nat,
                                              info: OffsetInfo,
                                              start: nat, end: nat, block: Bytes)
    requires Finishable(kvs) && j < |FinalCuts(kvs)| && parts == FinalParts(kvs) && data == Data(parts)
    requires info == Entries(kvs)[j].info && block == Block(parts[j])
    requires start == |Data(parts[..j])| && end == |Data(parts[..j + 1])|
    ensures start < end <= |data| && data[start..end] == block && info.size == end - start
    ensures info.offset == if j < |CutsOf(kvs)| then end else start
    ensures info.offset == start <==> j == |CutsOf(kvs)|
  {
    EntryOf(kvs, j);
    EntryRange(parts, data, j, start, end, block);
  }

  lemma {:induction false} EntryRange(parts: seq<seq<Pair>>, data: Bytes, j: nat, start: nat, end: nat, block: Bytes)
    requires j < |parts| && data == Data(parts) && block == Block(parts[j])
    requires start == |Data(parts[..j])| && end == |Data(parts[..j + 1])|
    ensures start < end <= |data| && data[start..end] == block && end == start + |block|
  {
    BlockInData(parts, j);
  }

  // ---------- scanning the whole file ----------

  /** A reference reader: blocks follow each other from the start of the file, as long as the index says. */
  function ScanBlocks(image: Bytes, es: seq<IndexEntry>, pos: nat): Option<seq<Pair>>
    decreases |es|
  {
    if es == [] then Some([])
    else
      var size := es[0].info.size;
      if size < 0 || |image| < pos + size then None
      else
        match DecodeBlock(image[pos..pos + size])
        case None => None
        case Some(kvs) =>
          match ScanBlocks(image, es[1..], pos + size)
          case None => None
          case Some(rest) => Some(kvs + rest)
  }

  function ScanImage(image: Bytes): Option<seq<Pair>> {
    match ParseSpec(image)
    case Err(_) => None
    case Ok((h, es)) => ScanBlocks(image, es, 0)
  }

  lemma ScanOne(image: Bytes, es: seq<IndexEntry>, pos: nat, next: nat, kvs: seq<Pair>, rest: seq<Pair>)
    requires es != [] && es[0].info.size == next - pos && pos <= next <= |image|
    requires DecodeBlock(image[pos..next]) == Some(kvs) && ScanBlocks(image, es[1..], next) == Some(rest)
    ensures ScanBlocks(image, es, pos) == Some(kvs + rest)
  {
  }

  /** Block `i`, from `pos[i]` to `pos[i + 1]`, has the size its entry says and decodes to `part`. */
  ghost predicate BlockReads(image: Bytes, es: seq<IndexEntry>, pos: seq<nat>, i: nat, part: seq<Pair>)
    requires |pos| == |es| + 1 && i < |es|
  {
    && pos[i] <= pos[i + 1] <= |image|
    && es[i].info.size == pos[i + 1] - pos[i]
    && DecodeBlock(image[pos[i]..pos[i + 1]]) == Some(part)
  }

  lemma {:induction false} ScanRun(image: Bytes, es: seq<IndexEntry>, pos: seq<nat>, kvs: seq<Pair>, cuts: seq<nat>,
                                   j: nat)
    requires WellCut(cuts, |kvs|) && LastCut(cuts) == |kvs|
    requires |pos| == |es| + 1 && |es| == |cuts| && j <= |es|
    requires forall i :: 0 <= i < |es| ==> BlockReads(image, es, pos, i, Part(kvs, cuts, i))
    ensures Start(cuts, j) <= |kvs|
    ensures ScanBlocks(image, es[j..], pos[j]) == Some(kvs[Start(cuts, j)..])
    decreases |es| - j
  {
    if j < |es| {
      ScanRun(image, es, pos, kvs, cuts, j + 1);
      assert Start(cuts, j) < cuts[j];
      assert BlockReads(image, es, pos, j, Part(kvs, cuts, j));
      assert es[j..][1..] == es[j + 1..];
      ScanOne(image, es[j..], pos[j], pos[j + 1], Part(kvs, cuts, j), kvs[cuts[j]..]);
      PartThenRest(kvs, Start(cuts, j), cuts[j]);
    } else {
      WellCutLast(cuts, |kvs|);
      assert kvs[Start(cuts, j)..] == [];
    }
  }

  lemma PartThenRest(kvs: seq<Pair>, a: nat, b: nat)
    requires a <= b <= |kvs|
    ensures kvs[a..b] + kvs[b..] == kvs[a..]
  {
  }

  lemma {:induction false} BlockReadsAt(kvs: seq<Pair>, image: Bytes, data: Bytes, es: seq<IndexEntry>,
                                        parts: seq<seq<Pair>>, pos: seq<nat>, i: nat)
    requires Finishable(kvs) && |data| <= |image| < TWO_31 && image[..|data|] == data
    requires parts == FinalParts(kvs) && data == Data(parts) && es == Entries(kvs)
    requires i < |es| == |parts| && |pos| == |es| + 1 && pos[i] == |Data(parts[..i])|
             && pos[i + 1] == |Data(parts[..i + 1])|
    ensures BlockReads(image, es, pos, i, parts[i])
  {
    EntryOf(kvs, i);
    BlockInData(parts, i);
    SliceOfTake(image, data, pos[i], pos[i + 1]);
    BlockDecodes(parts[i], Block(parts[i]));
  }

  lemma {:induction false} BlockStarts(kvs: seq<Pair>, image: Bytes, data: Bytes, es: seq<IndexEntry>,
                                       parts: seq<seq<Pair>>)
      returns (pos: seq<nat>)
    requires Finishable(kvs) && |data| <= |image| < TWO_31 && image[..|data|] == data
    requires parts == FinalParts(kvs) && data == Data(parts) && es == Entries(kvs)
    ensures |pos| == |es| + 1 && pos[0] == 0
    ensures forall i :: 0 <= i < |es| ==> BlockReads(image, es, pos, i, parts[i])
  {
    pos := seq(|es| + 1, i requires 0 <= i <= |es| => |Data(parts[..i])|);
    forall i | 0 <= i < |es| ensures BlockReads(image, es, pos, i, parts[i]) {
      BlockReadsAt(kvs, image, data, es, parts, pos, i);
    }
  }

  lemma SliceOfTake(image: Bytes, data: Bytes, a: nat, b: nat)
    requires |data| <= |image| && image[..|data|] == data && a <= b <= |data|
    ensures image[a..b] == data[a..b]
  {
    forall i | 0 <= i < b - a ensures image[a..b][i] == data[a..b][i] {
      assert data[a + i] == image[..|data|][a + i];
    }
  }

  lemma BlockDecodes(part: seq<Pair>, block: Bytes)
    requires part != [] && block == Block(part) && |block| < TWO_31
    ensures DecodeBlock(block) == Some(part)
  {
    DecodeBlockOf(part);
  }

  /** Nothing is lost: the reference reader gets back exactly the pairs put in, in order, whatever the
      filter bytes are. */
  lemma {:induction false} ScanRecoversAll(kvs: seq<Pair>, filter: Bytes, image: Bytes)
    requires Finishable(kvs) && image == Image(kvs, filter) && |image| < TWO_31
    ensures ScanImage(image) == Some(kvs)
  {
    var data, es, parts := DataRegion(kvs), Entries(kvs), FinalParts(kvs);
    ParseImage(kvs, filter, image, data, es);
    var pos := BlockStarts(kvs, image, data, es, parts);
    forall i | 0 <= i < |es| ensures BlockReads(image, es, pos, i, Part(kvs, FinalCuts(kvs), i)) {
      assert BlockReads(image, es, pos, i, parts[i]);
      assert parts[i] == Part(kvs, FinalCuts(kvs), i);
    }
    ScanRun(image, es, pos, kvs, FinalCuts(kvs), 0);
    assert es[0..] == es && kvs[0..] == kvs;
  }

  /** So different runs give different files. */
  lemma ImageInjective(a: seq<Pair>, b: seq<Pair>, f: Bytes, g: Bytes, image: Bytes)
    requires Finishable(a) && Finishable(b) && |image| < TWO_31
    requires image == Image(a, f) && image == Image(b, g)
    ensures a == b
  {
    ScanRecoversAll(a, f, image);
    ScanRecoversAll(b, g, image);
  }
}
