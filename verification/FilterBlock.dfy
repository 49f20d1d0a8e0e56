/** The filter block of a table: the keys collected, the filter built from them, its bytes. */
module FilterBlocks {
  import opened ByteStrings
  import opened Codec
  import opened BloomFilters

  /** The bit array, then the number of hash functions in four bytes. */
  function FilterBytes(bits: Bytes, hashNum: nat): Bytes {
    bits + Fixed32(hashNum)
  }

  class FilterBlockBuilder {
    const filterPolicy: BloomFilter
    var keyData: seq<Bytes>
    var data: Bytes

    ghost predicate Valid()
      reads this, filterPolicy
    {
      filterPolicy.Valid() && [] !in keyData
    }

    constructor (hash: Bytes -> uint32, bytes: nat, hashFuncNum: nat)
      requires 0 < 8 * bytes < BloomFilters.TWO_32
      ensures Valid() && fresh(filterPolicy) && keyData == [] && data == []
      ensures filterPolicy.hash == hash && filterPolicy.hashFuncNum == hashFuncNum
      ensures filterPolicy.bitsArray == seq(bytes, _ => 0)
    {
      filterPolicy := new BloomFilter(hash, bytes, hashFuncNum);
      keyData, data := [], [];
    }

    method Add(key: Bytes)
      requires Valid()
      modifies this`keyData
      ensures Valid()
      ensures keyData == if key == [] then old(keyData) else old(keyData) + [key]
    {
      if key == [] {
        return;
      }
      keyData := keyData + [key];
    }

    method CreateFilter()
      requires Valid()
      modifies filterPolicy`bitsArray
      ensures Valid()
      ensures filterPolicy.bitsArray
              == AddKeys(old(filterPolicy.bitsArray), filterPolicy.hash, filterPolicy.hashFuncNum, keyData)
    {
      if keyData == [] {
        return;
      }
      filterPolicy.CreateFilter(keyData);
    }

    /** Builds the filter and serializes it. Doing so again gives the same bytes. */
    method FinishFilterBlock()
      requires Valid()
      modifies this`data, filterPolicy`bitsArray
      ensures Valid()
      ensures filterPolicy.bitsArray
              == AddKeys(old(filterPolicy.bitsArray), filterPolicy.hash, filterPolicy.hashFuncNum, keyData)
      ensures data == FilterBytes(filterPolicy.bitsArray, filterPolicy.hashFuncNum)
    {
      CreateFilter();
      data := filterPolicy.bitsArray;
      data := data + Fixed32(filterPolicy.hashFuncNum);
    }

    method Exists(key: Bytes) returns (found: bool)
      requires Valid()
      ensures found <==> MayContain(filterPolicy.bitsArray, filterPolicy.hash, filterPolicy.hashFuncNum, key)
    {
      found := filterPolicy.Exists(key);
    }
  }

  /** From the collected keys to the answers of a filter rebuilt from the serialized block: after
      finishing twice, as the table builder does, the bytes are those of finishing once, and every
      key that was added is reported by the rebuilt filter. */
  method FinishTwiceAndRebuild(builder: FilterBlockBuilder, key: Bytes) returns (rebuilt: BloomFilter, found: bool)
    requires builder.Valid() && FitsInt32(builder.filterPolicy.hashFuncNum)
    modifies builder, builder.filterPolicy
    ensures builder.data == FilterBytes(AddKeys(old(builder.filterPolicy.bitsArray), builder.filterPolicy.hash,
                                                builder.filterPolicy.hashFuncNum, old(builder.keyData)),
                                        builder.filterPolicy.hashFuncNum)
    ensures rebuilt.bitsArray == builder.filterPolicy.bitsArray
            && rebuilt.hashFuncNum == builder.filterPolicy.hashFuncNum
    ensures key in old(builder.keyData) ==> found
  {
    var policy := builder.filterPolicy;
    ghost var bits := policy.bitsArray;
    builder.FinishFilterBlock();
    ghost var first := builder.data;
    builder.FinishFilterBlock();
    AddKeysTwice(bits, policy.hash, policy.hashFuncNum, builder.keyData);
    assert builder.data == first;

    var size := |builder.data|;
    RoundTrip32(policy.hashFuncNum, []);
    assert Fixed32(policy.hashFuncNum) + [] == Fixed32(policy.hashFuncNum);
    assert builder.data[size - 4..] == Fixed32(policy.hashFuncNum);
    var num := Signed32(DecodeFixed32(builder.data[size - 4..]));
    assert builder.data[..size - 4] == policy.bitsArray;
    rebuilt := new BloomFilter(policy.hash, |policy.bitsArray|, 1);
    rebuilt.CreateFilter2(num, builder.data[..size - 4]);
    NoFalseNegatives(bits, policy.hash, policy.hashFuncNum, builder.keyData, key);
    found := rebuilt.Exists(key);
  }
}
