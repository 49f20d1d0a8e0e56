/** Where the numbers of a finished file stand, byte by byte. */
module TableBytes {
  import opened ByteStrings
  import opened Codec
  import opened SstTable
  import opened SstParser
  import opened SstTheorems

  /** The signed 32-bit field at a position. */
  function Int32(b: Bytes, at: nat): int
    requires at + 4 <= |b|
  {
    Signed32(DecodeFixed32(b[at..]))
  }

  /** Data, filter and index fill the file up to its last sixteen bytes: size and offset of the filter, then size
      and offset of the index. */
  predicate FooterAt(image: Bytes, data: Bytes, filter: Bytes, index: Bytes) {
    var n := |image|;
    && n == |data| + |filter| + |index| + 16
    && image[..|data|] == data && image[|data|..|data| + |filter|] == filter
    && image[|data| + |filter|..n - 16] == index
    && Int32(image, n - 16) == |filter| && Int32(image, n - 12) == |data|
    && Int32(image, n - 8) == |index| && Int32(image, n - 4) == |data| + |filter|
  }

  /** An index entry: the length of its key, the key, size and offset. */
  predicate EntryAt(image: Bytes, at: nat, e: IndexEntry) {
    var k := |e.shortestKey|;
    && at + 12 + k <= |image| && Int32(image, at) == k && image[at + 4..at + 4 + k] == e.shortestKey
    && Int32(image, at + 4 + k) == e.info.size && Int32(image, at + 8 + k) == e.info.offset
  }

  lemma {:induction false} FooterInFile(kvs: seq<Pair>, filter: Bytes, image: Bytes, data: Bytes, es: seq<IndexEntry>)
    requires Finishable(kvs) && image == Image(kvs, filter) && |image| < TWO_31
    requires data == DataRegion(kvs) && es == Entries(kvs)
    ensures FooterAt(image, data, filter, EncodeIndex(es))
  {
    ParseImage(kvs, filter, image, data, es);
    FooterOf(data, filter, EncodeIndex(es), image, es);
  }

  lemma {:induction false} FooterOf(data: Bytes, filter: Bytes, index: Bytes, image: Bytes, es: seq<IndexEntry>)
    requires image == FileBytes(data, filter, index)
    requires ParseSpec(image) == Ok((Header(OffsetInfo(|filter|, |data|), OffsetInfo(|index|, |data| + |filter|)), es))
    ensures FooterAt(image, data, filter, index)
  {
    IndexInFile(data, filter, index, image);
    hide FileBytes, ParseSpec;
    HeaderBytes(image, Header(OffsetInfo(|filter|, |data|), OffsetInfo(|index|, |data| + |filter|)), es);
  }

  lemma HeaderBytes(image: Bytes, h: Header, es: seq<IndexEntry>)
    requires ParseSpec(image) == Ok((h, es))
    ensures |image| >= 16
    ensures Int32(image, |image| - 16) == h.meta.size && Int32(image, |image| - 12) == h.meta.offset
    ensures Int32(image, |image| - 8) == h.index.size && Int32(image, |image| - 4) == h.index.offset
  {
    var n := |image|;
    hide ParseIndex, DecodeFixed32;
    SliceOfRest(image, n - 16, 4, 16);
    SliceOfRest(image, n - 8, 4, 8);
  }

  lemma IndexInFile(data: Bytes, filter: Bytes, index: Bytes, image: Bytes)
    requires image == FileBytes(data, filter, index)
    ensures |image| == |data| + |filter| + |index| + 16 && image[|data| + |filter|..|image| - 16] == index
    ensures image[..|data|] == data && image[|data|..|data| + |filter|] == filter
  {
  }

  /** The first entry starts the index and each next one follows at once. */
  lemma {:induction false} EntryInFile(kvs: seq<Pair>, filter: Bytes, image: Bytes, data: Bytes, es: seq<IndexEntry>,
                                       j: nat)
    requires Finishable(kvs) && image == Image(kvs, filter) && |image| < TWO_31
    requires data == DataRegion(kvs) && es == Entries(kvs) && j < |es|
    ensures EntryAt(image, |data| + |filter| + EntryPos(es, j), es[j])
    ensures EntryPos(es, 0) == 0 && EntryPos(es, j + 1) == EntryPos(es, j) + 12 + |es[j].shortestKey|
    ensures EntryPos(es, |es|) == |EncodeIndex(es)|
  {
    EntriesOfImageFit(kvs, filter);
    ImageIs(kvs, filter, image, data, es);
    hide FileBytes, EncodeIndex, EntryAt, DataRegion, Entries, Image, Finishable, EntriesFit;
    EntryOfIndex(data, filter, es, image, j);
  }

  lemma ImageIs(kvs: seq<Pair>, filter: Bytes, image: Bytes, data: Bytes, es: seq<IndexEntry>)
    requires Finishable(kvs) && image == Image(kvs, filter) && data == DataRegion(kvs) && es == Entries(kvs)
    ensures image == FileBytes(data, filter, EncodeIndex(es))
  {
  }

  lemma {:induction false} EntryOfIndex(data: Bytes, filter: Bytes, es: seq<IndexEntry>, image: Bytes, j: nat)
    requires EntriesFit(es) && image == FileBytes(data, filter, EncodeIndex(es)) && j < |es|
    ensures EntryAt(image, |data| + |filter| + EntryPos(es, j), es[j])
    ensures EntryPos(es, |es|) == |EncodeIndex(es)|
  {
    var index := EncodeIndex(es);
    hide EncodeIndex, FileBytes, ParseEntry, EntryAt, SuffixIs, EntriesFit;
    var footer := IndexFollows(data, filter, index, image);
    EntryInImage(image, |data| + |filter|, es, footer, j);
    EntryBytesAt(image, |data| + |filter| + EntryPos(es, j), es[j], |data| + |filter| + EntryPos(es, j + 1));
    IndexFrom(es, |es|);
  }

  lemma IndexFollows(data: Bytes, filter: Bytes, index: Bytes, image: Bytes) returns (footer: Bytes)
    requires image == FileBytes(data, filter, index)
    ensures SuffixIs(image, |data| + |filter|, index + footer)
  {
    footer := FooterBytes(OffsetInfo(|filter|, |data|), OffsetInfo(|index|, |data| + |filter|));
    SuffixSlice(image, |data| + |filter|, index + footer);
  }

  lemma EntryBytesAt(image: Bytes, at: nat, e: IndexEntry, next: int)
    requires ParseEntry(image, at) == Ok((e, next))
    ensures EntryAt(image, at, e)
  {
    hide DecodeFixed32;
    SliceOfRest(image, at + 4 + |e.shortestKey|, 4, |image| - at - 4 - |e.shortestKey|);
  }

  // ---------- what the parser accepts, whatever the bytes ----------

  lemma {:induction false} ParseEntryExact(image: Bytes, at: int, e: IndexEntry, next: int)
    ensures ParseEntry(image, at) == Ok((e, next))
            <==> at >= 0 && EntryAt(image, at, e) && next == at + 12 + |e.shortestKey|
  {
    hide DecodeFixed32;
    if at >= 0 && EntryAt(image, at, e) {
      var k := |e.shortestKey|;
      SliceOfRest(image, at + 4 + k, 4, |image| - at - 4 - k);
      assert DecodeOffsetInfo(image[at + 4 + k..]) == e.info;
    }
    if ParseEntry(image, at) == Ok((e, next)) {
      EntryBytesAt(image, at, e, next);
    }
  }

  /** The entries stand one after the other from `start` on, the last one ends at `end`. */
  ghost predicate Tiled(image: Bytes, start: int, end: int, es: seq<IndexEntry>)
    decreases |es|
  {
    if es == [] then start == end
    else start >= 0 && EntryAt(image, start, es[0]) && Tiled(image, start + 12 + |es[0].shortestKey|, end, es[1..])
  }

  lemma {:induction false} TiledForward(image: Bytes, start: int, end: int, es: seq<IndexEntry>)
    requires Tiled(image, start, end, es)
    ensures start <= end && (es != [] ==> start < end)
    decreases |es|
  {
    if es != [] {
      TiledForward(image, start + 12 + |es[0].shortestKey|, end, es[1..]);
    }
  }

  lemma {:induction false} ParseIndexExact(image: Bytes, start: int, end: int, es: seq<IndexEntry>)
    ensures ParseIndex(image, start, end) == Ok(es) <==> Tiled(image, start, end, es)
    decreases |es|
  {
    hide EntryAt, ParseEntry;
    if Tiled(image, start, end, es) {
      TiledForward(image, start, end, es);
    }
    if start < end && es != [] {
      var next := start + 12 + |es[0].shortestKey|;
      ParseEntryExact(image, start, es[0], next);
      ParseIndexExact(image, next, end, es[1..]);
      assert es == [es[0]] + es[1..];
      match ParseEntry(image, start) {
        case Err(_) =>
        case Ok((e, n)) => ParseEntryExact(image, start, e, n);
      }
    }
  }

  /** The parser accepts exactly the files whose last sixteen bytes name a filter range and an index range of which
      the latter is a sequence of entries. */
  lemma {:induction false} ParseExact(image: Bytes, h: Header, es: seq<IndexEntry>)
    ensures ParseSpec(image) == Ok((h, es))
            <==> && |image| >= 16
                 && Int32(image, |image| - 16) == h.meta.size && Int32(image, |image| - 12) == h.meta.offset
                 && Int32(image, |image| - 8) == h.index.size && Int32(image, |image| - 4) == h.index.offset
                 && Tiled(image, h.index.offset, h.index.offset + h.index.size, es)
  {
    var n := |image|;
    ParseIndexExact(image, h.index.offset, h.index.offset + h.index.size, es);
    hide ParseIndex, DecodeFixed32, Tiled;
    if n >= 16 {
      SliceOfRest(image, n - 16, 4, 16);
      SliceOfRest(image, n - 8, 4, 8);
    }
  }
}
