/** Building one data block record by record. */
module DataBlockBuilders {
  import opened ByteStrings
  import opened Codec
  import opened DataBlock

  lemma GroupOffsetStable(kvs: seq<Pair>, kv: Pair, g: nat)
    requires g * RESTART_INTERVAL <= |kvs|
    ensures GroupOffset(kvs + [kv], g) == GroupOffset(kvs, g)
    ensures g * RESTART_INTERVAL == |kvs| ==> GroupOffset(kvs, g) == |Records(kvs)|
  {
    EncodeRangeStable(kvs, [kv], 0, g * RESTART_INTERVAL);
  }

  /** The group offsets of some pairs. */
  ghost predicate OffsetsOf(offsets: seq<int>, kvs: seq<Pair>) {
    |offsets| == Groups(|kvs|) && forall g {:trigger offsets[g]} :: 0 <= g < |offsets| ==>
        offsets[g] == GroupOffset(kvs, g)
  }

  lemma {:induction false} OffsetsAfterAdd(kvs: seq<Pair>, kv: Pair, offsets: seq<int>, offsets': seq<int>)
    requires OffsetsOf(offsets, kvs)
    requires offsets' == if |kvs| % RESTART_INTERVAL == 0 then offsets + [|Records(kvs)|] else offsets
    ensures OffsetsOf(offsets', kvs + [kv])
  {
    forall g | 0 <= g < |offsets'| ensures g * RESTART_INTERVAL <= |kvs| && offsets'[g] == GroupOffset(kvs + [kv], g) {
      GroupOffsetStable(kvs, kv, g);
      assert g < |offsets| ==> offsets'[g] == offsets[g];
    }
  }

  class DataBlockBuilder {
    var recordGroupOffset: seq<int>
    var preKey: Bytes
    var data: Bytes
    var recordNum: int

    /** The pairs added since the last `Clear`. */
    ghost var kvs: seq<Pair>

    ghost predicate Valid()
      reads this
    {
      && data == Records(kvs)
      && recordNum == |kvs|
      && preKey == (if kvs == [] then [] else kvs[|kvs| - 1].key)
      && OffsetsOf(recordGroupOffset, kvs)
    }

    constructor ()
      ensures Valid() && kvs == []
    {
      recordGroupOffset, preKey, data, recordNum := [], [], [], 0;
      kvs := [];
    }

    function Size(): nat
      reads this
    {
      |data|
    }

    /** The loop of `Add` that counts the bytes shared with the key before. */
    method SharedLength(key: Bytes) returns (sharedKeyLen: nat)
      ensures sharedKeyLen == CommonPrefix(key, preKey)
    {
      var minLen := if |key| < |preKey| then |key| else |preKey|;
      sharedKeyLen := 0;
      var i := 0;
      while i < minLen
        invariant 0 <= i == sharedKeyLen <= minLen
        invariant key[..i] == preKey[..i]
      {
        if key[i] == preKey[i] {
          sharedKeyLen := sharedKeyLen + 1;
        } else {
          break;
        }
        i := i + 1;
      }
      CommonPrefixIs(key, preKey, sharedKeyLen);
    }

    /** Appends one record; an empty key is ignored. */
    method Add(key: Bytes, value: Bytes)
      requires Valid()
      modifies this
      ensures Valid()
      ensures kvs == if key == [] then old(kvs) else old(kvs) + [Pair(key, value)]
    {
      if key == [] {
        return;
      }
      ghost var kv := Pair(key, value);
      RecordsAppend(kvs, kv);
      ghost var offsets := if |kvs| % RESTART_INTERVAL == 0 then recordGroupOffset + [|data|] else recordGroupOffset;
      OffsetsAfterAdd(kvs, kv, recordGroupOffset, offsets);
      var needFullkey := false;
      if recordNum % RESTART_INTERVAL == 0 {
        needFullkey := true;
        recordGroupOffset := recordGroupOffset + [|data|];
      }
      recordNum := recordNum + 1;
      if needFullkey {
        data := data + (Fixed32(0) + Fixed32(|key|) + Fixed32(|value|) + key + value);
      } else {
        var sharedKeyLen := SharedLength(key);
        var unsharedKeyLen := |key| - sharedKeyLen;
        data := data + (Fixed32(sharedKeyLen) + Fixed32(unsharedKeyLen) + Fixed32(|value|)
                        + key[sharedKeyLen..] + value);
      }
      preKey := key;
      kvs := kvs + [kv];
      assert kvs[|kvs| - 1] == kv && key[0..] == key;
    }

    /** One round of the loop of `FinishDataBlock`: the restart entry of group `i`. */
    method AppendRestartPoint(i: nat, lastOffset: int)
      requires OffsetsOf(recordGroupOffset, kvs) && i < |recordGroupOffset| && recordNum == |kvs|
      requires lastOffset == |Records(kvs)|
      modifies this`data
      ensures data == old(data) + RestartEntry(kvs, i)
    {
      var size: int, count: int;
      if i != |recordGroupOffset| - 1 {
        size := recordGroupOffset[i + 1] - recordGroupOffset[i];
        count := RESTART_INTERVAL;
      } else {
        size := lastOffset - recordGroupOffset[i];
        count := recordNum % RESTART_INTERVAL;
      }
      assert RestartEntry(kvs, i) == Fixed32(count) + EncodeOffsetInfo(OffsetInfo(size, recordGroupOffset[i]));
      Concat3(data, Fixed32(count), EncodeOffsetInfo(OffsetInfo(size, recordGroupOffset[i])));
      data := data + Fixed32(count);
      data := data + EncodeOffsetInfo(OffsetInfo(size, recordGroupOffset[i]));
    }

    /** Appends the restart entries and their number. */
    method FinishDataBlock()
      requires Valid()
      modifies this`data
      ensures data == Block(kvs)
    {
      var restartPointNum := Truncate((recordNum as real - 0.5) / 16.0) + 1;
      assert restartPointNum == RestartNum(|kvs|);
      var lastOffset := |data|;
      var i := 0;
      AppendNothing(data);
      while i < |recordGroupOffset|
        invariant 0 <= i <= |recordGroupOffset|
        invariant data == Records(kvs) + RestartEntries(kvs, i)
      {
        AppendRestartPoint(i, lastOffset);
        Concat3(Records(kvs), RestartEntries(kvs, i), RestartEntry(kvs, i));
        i := i + 1;
      }
      assert i == Groups(|kvs|);
      data := data + Fixed32(restartPointNum);
    }

    method Clear()
      modifies this
      ensures Valid() && kvs == []
    {
      recordGroupOffset := [];
      preKey := [];
      data := [];
      recordNum := 0;
      kvs := [];
    }
  }
}
