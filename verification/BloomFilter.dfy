/** The Bloom filter: `hash_func_num` probes per key, derived from one 32-bit hash with 32-bit
    wrap-around. `|=`, `&` and the shifts are written with powers of two. */
module BloomFilters {
  import opened ByteStrings

  const TWO_15 := 0x8000
  const TWO_17 := 0x2_0000
  const TWO_32 := 0x1_0000_0000

  type uint32 = u: int | 0 <= u < TWO_32

  // ---------- bits ----------

  function Pow2(k: nat): nat
    requires k < 8
  {
    [1, 2, 4, 8, 16, 32, 64, 128][k]
  }

  /** `(b & (1 << k)) != 0` */
  predicate TestBit(b: byte, k: nat)
    requires k < 8
  {
    (b / Pow2(k)) % 2 == 1
  }

  /** `b | (1 << k)` */
  function SetBit(b: byte, k: nat): byte
    requires k < 8
  {
    if TestBit(b, k) then b else (SetBitInRange(b, k); b + Pow2(k))
  }

  lemma SetBitInRange(b: byte, k: nat)
    requires k < 8 && !TestBit(b, k)
    ensures b + Pow2(k) < 256
  {
  }

  /** The value with the given binary digits, lowest first. */
  function FromDigits(d: seq<int>): int
    requires |d| == 8
  {
    d[0] + 2 * d[1] + 4 * d[2] + 8 * d[3] + 16 * d[4] + 32 * d[5] + 64 * d[6] + 128 * d[7]
  }

  function Digits(b: byte): (d: seq<int>)
    ensures |d| == 8
    ensures forall k :: 0 <= k < 8 ==> 0 <= d[k] <= 1 && (TestBit(b, k) <==> d[k] == 1)
  {
    [b % 2, (b / 2) % 2, (b / 4) % 2, (b / 8) % 2, (b / 16) % 2, (b / 32) % 2, (b / 64) % 2, (b / 128) % 2]
  }

  lemma DigitsOf(b: byte)
    ensures FromDigits(Digits(b)) == b
  {
    hide FromDigits;
    var q1, q2, q3, q4, q5, q6, q7 := b / 2, b / 4, b / 8, b / 16, b / 32, b / 64, b / 128;
    Halve(b, q1);
    Halve(q1, q2);
    Halve(q2, q3);
    Halve(q3, q4);
    Halve(q4, q5);
    Halve(q5, q6);
    Halve(q6, q7);
    assert q7 < 2;
    SumDigits(b, q1, q2, q3, q4, q5, q6, q7);
  }

  lemma SumDigits(b: int, q1: int, q2: int, q3: int, q4: int, q5: int, q6: int, q7: int)
    requires b == b % 2 + 2 * q1 && q1 == q1 % 2 + 2 * q2 && q2 == q2 % 2 + 2 * q3 && q3 == q3 % 2 + 2 * q4
    requires q4 == q4 % 2 + 2 * q5 && q5 == q5 % 2 + 2 * q6 && q6 == q6 % 2 + 2 * q7 && 0 <= q7 < 2
    ensures FromDigits([b % 2, q1 % 2, q2 % 2, q3 % 2, q4 % 2, q5 % 2, q6 % 2, q7 % 2]) == b
  {
  }

  lemma Halve(q: int, h: int)
    requires h == q / 2
    ensures q == q % 2 + 2 * h
  {
  }

  lemma DigitsUnique(b: byte, d: seq<int>)
    requires |d| == 8 && (forall k :: 0 <= k < 8 ==> 0 <= d[k] <= 1) && b == FromDigits(d)
    ensures Digits(b) == d
  {
    var d0, d1, d2, d3, d4, d5, d6, d7 := d[0], d[1], d[2], d[3], d[4], d[5], d[6], d[7];
    assert b / 128 == d7;
    assert b / 64 == d6 + 2 * d7;
    assert b / 32 == d5 + 2 * d6 + 4 * d7;
    assert b / 16 == d4 + 2 * d5 + 4 * d6 + 8 * d7;
    assert b / 8 == d3 + 2 * d4 + 4 * d5 + 8 * d6 + 16 * d7;
    assert b / 4 == d2 + 2 * d3 + 4 * d4 + 8 * d5 + 16 * d6 + 32 * d7;
    assert b / 2 == d1 + 2 * d2 + 4 * d3 + 8 * d4 + 16 * d5 + 32 * d6 + 64 * d7;
  }

  lemma SetDigit(d: seq<int>, k: nat)
    requires |d| == 8 && k < 8 && d[k] == 0
    ensures FromDigits(d[k := 1]) == FromDigits(d) + Pow2(k)
  {
  }

  /** Setting a bit sets that bit and no other. */
  lemma SetBitSets(b: byte, k: nat, j: nat)
    requires k < 8 && j < 8
    ensures TestBit(SetBit(b, k), j) <==> TestBit(b, j) || j == k
  {
    if !TestBit(b, k) {
      var d := Digits(b);
      DigitsOf(b);
      SetDigit(d, k);
      DigitsUnique(SetBit(b, k), d[k := 1]);
    }
  }

  lemma SameBitsSameByte(a: byte, b: byte)
    requires forall k :: 0 <= k < 8 ==> (TestBit(a, k) <==> TestBit(b, k))
    ensures a == b
  {
    var da, db := Digits(a), Digits(b);
    forall k | 0 <= k < 8 ensures da[k] == db[k] {
      assert TestBit(a, k) <==> TestBit(b, k);
    }
    EqualDigits(da, db);
    DigitsOf(a);
    DigitsOf(b);
  }

  lemma EqualDigits(da: seq<int>, db: seq<int>)
    requires |da| == |db| == 8 && forall k :: 0 <= k < 8 ==> da[k] == db[k]
    ensures da == db
  {
  }

  function BitCount(bits: Bytes): nat {
    8 * |bits|
  }

  predicate BitAt(bits: Bytes, pos: nat)
    requires pos < BitCount(bits)
  {
    TestBit(bits[pos / 8], pos % 8)
  }

  function SetAt(bits: Bytes, pos: nat): (r: Bytes)
    requires pos < BitCount(bits)
    ensures |r| == |bits|
  {
    bits[pos / 8 := SetBit(bits[pos / 8], pos % 8)]
  }

  lemma SetAtSets(bits: Bytes, pos: nat, at: nat)
    requires pos < BitCount(bits) && at < BitCount(bits)
    ensures BitAt(SetAt(bits, pos), at) <==> BitAt(bits, at) || at == pos
  {
    SetBitSets(bits[pos / 8], pos % 8, at % 8);
  }

  lemma SameBits(a: Bytes, b: Bytes)
    requires |a| == |b| && forall at :: 0 <= at < BitCount(a) ==> (BitAt(a, at) <==> BitAt(b, at))
    ensures a == b
  {
    forall i | 0 <= i < |a| ensures a[i] == b[i] {
      forall k | 0 <= k < 8 ensures TestBit(a[i], k) <==> TestBit(b[i], k) {
        assert BitAt(a, 8 * i + k) <==> BitAt(b, 8 * i + k);
      }
      SameBitsSameByte(a[i], b[i]);
    }
  }

  // ---------- probes ----------

  /** The high 17 and the low 15 bits of the hash change places. */
  function Delta(h: uint32): uint32 {
    h / TWO_17 + (h * TWO_15) % TWO_32
  }

  /** The hash after `j` rounds of `h += delta` on 32 bits. */
  function Round(h: uint32, j: nat): uint32 {
    if j == 0 then h else (Round(h, j - 1) + Delta(h)) % TWO_32
  }

  /** The bit that round `j` looks at. */
  function Probe(h: uint32, j: nat, bits: Bytes): (pos: nat)
    requires bits != []
    ensures pos < BitCount(bits)
  {
    Round(h, j) % BitCount(bits)
  }

  /** `d` is `h` with its high 17 and its low 15 bits in each other's place. */
  predicate Swapped(h: uint32, d: uint32) {
    d % 32768 == h / 131072 && d / 32768 == h % 131072
  }

  lemma DeltaSwaps(h: uint32)
    ensures Swapped(h, Delta(h))
  {
    var high, low := h / 131072, h % 131072;
    assert h * 32768 == low * 32768 + high * 4294967296;
    assert (h * 32768) % 4294967296 == low * 32768;
  }

  lemma SwappedUnique(h: uint32, d: uint32, e: uint32)
    requires Swapped(h, d) && Swapped(h, e)
    ensures d == e
  {
  }

  /** Round `j` in one step. */
  function ClosedProbe(h: int, d: int, j: nat, bitCount: int): int
    requires bitCount > 0
  {
    ((h + j * d) % 4294967296) % bitCount
  }

  function Total(h: int, d: int, j: nat): int {
    h + j * d
  }

  lemma {:induction false} RoundIs(h: uint32, d: uint32, j: nat)
    requires Swapped(h, d)
    ensures Round(h, j) == Total(h, d, j) % 4294967296
  {
    hide Swapped, Delta, Total;
    DeltaSwaps(h);
    SwappedUnique(h, d, Delta(h));
    TotalNext(h, d, j);
    if j > 0 {
      RoundIs(h, d, j - 1);
      AddModulo(Total(h, d, j - 1), d);
    }
  }

  lemma TotalNext(h: int, d: int, j: nat)
    ensures Total(h, d, j) == if j == 0 then h else Total(h, d, j - 1) + d
  {
  }

  lemma AddModulo(a: int, d: int)
    ensures (a % 4294967296 + d) % 4294967296 == (a + d) % 4294967296
  {
  }

  lemma {:induction false} ProbeIs(h: uint32, d: uint32, j: nat, bits: Bytes)
    requires bits != [] && Swapped(h, d)
    ensures Probe(h, j, bits) == ClosedProbe(h, d, j, 8 * |bits|)
  {
    RoundIs(h, d, j);
  }

  /** Bit `pos`: in byte `pos / 8`, the bit of weight 2^(pos % 8). */
  predicate BitSet(bits: Bytes, pos: int)
    requires 0 <= pos < 8 * |bits|
  {
    (bits[pos / 8] / [1, 2, 4, 8, 16, 32, 64, 128][pos % 8]) % 2 == 1
  }

  lemma BitIs(bits: Bytes, pos: nat)
    requires pos < 8 * |bits|
    ensures BitAt(bits, pos) <==> BitSet(bits, pos)
  {
  }

  /** Sets the bits of the first `n` rounds. */
  function AddRounds(bits: Bytes, h: uint32, n: nat): (r: Bytes)
    requires bits != []
    ensures |r| == |bits|
  {
    if n == 0 then bits else
      var r := AddRounds(bits, h, n - 1);
      SetAt(r, Probe(h, n - 1, r))
  }

  function AddKeys(bits: Bytes, hash: Bytes -> uint32, num: nat, keys: seq<Bytes>): (r: Bytes)
    requires bits != []
    ensures |r| == |bits|
  {
    if keys == [] then bits
    else AddRounds(AddKeys(bits, hash, num, keys[..|keys| - 1]), hash(keys[|keys| - 1]), num)
  }

  /** One of the first `n` rounds looks at `pos`. */
  ghost predicate Hits(h: uint32, n: nat, bits: Bytes, pos: nat)
    requires bits != []
  {
    exists j :: 0 <= j < n && Probe(h, j, bits) == pos
  }

  ghost predicate SomeHits(hash: Bytes -> uint32, num: nat, keys: seq<Bytes>, bits: Bytes, pos: nat)
    requires bits != []
  {
    exists i :: 0 <= i < |keys| && Hits(hash(keys[i]), num, bits, pos)
  }

  lemma {:induction false} ProbeStable(h: uint32, j: nat, a: Bytes, b: Bytes)
    requires a != [] && |a| == |b|
    ensures Probe(h, j, a) == Probe(h, j, b)
  {
  }

  lemma {:induction false} AddRoundsSets(bits: Bytes, h: uint32, n: nat, at: nat)
    requires bits != [] && at < BitCount(bits)
    ensures BitAt(AddRounds(bits, h, n), at) <==> BitAt(bits, at) || Hits(h, n, bits, at)
  {
    if n > 0 {
      AddRoundsSets(bits, h, n - 1, at);
      var r := AddRounds(bits, h, n - 1);
      ProbeStable(h, n - 1, r, bits);
      SetAtSets(r, Probe(h, n - 1, r), at);
      if Hits(h, n, bits, at) && !Hits(h, n - 1, bits, at) {
        assert Probe(h, n - 1, bits) == at;
      }
    }
  }

  /** The bits set are the old ones and those some key's probes look at: no others. */
  lemma {:induction false} AddKeysSets(bits: Bytes, hash: Bytes -> uint32, num: nat, keys: seq<Bytes>, at: nat)
    requires bits != [] && at < BitCount(bits)
    ensures BitAt(AddKeys(bits, hash, num, keys), at) <==> BitAt(bits, at) || SomeHits(hash, num, keys, bits, at)
  {
    if keys != [] {
      var n := |keys| - 1;
      var init := keys[..n];
      AddKeysSets(bits, hash, num, init, at);
      AddRoundsSets(AddKeys(bits, hash, num, init), hash(keys[n]), num, at);
      HitsStable(hash(keys[n]), num, AddKeys(bits, hash, num, init), bits, at);
      SomeHitsLast(hash, num, keys, bits, at);
    }
  }

  lemma {:induction false} HitsStable(h: uint32, n: nat, a: Bytes, b: Bytes, at: nat)
    requires a != [] && |a| == |b|
    ensures Hits(h, n, a, at) <==> Hits(h, n, b, at)
  {
    if j :| 0 <= j < n && Probe(h, j, a) == at {
      assert Probe(h, j, b) == at;
    }
    if j :| 0 <= j < n && Probe(h, j, b) == at {
      assert Probe(h, j, a) == at;
    }
  }

  lemma {:induction false} SomeHitsLast(hash: Bytes -> uint32, num: nat, keys: seq<Bytes>, bits: Bytes, at: nat)
    requires bits != [] && keys != []
    ensures SomeHits(hash, num, keys, bits, at)
            <==> SomeHits(hash, num, keys[..|keys| - 1], bits, at) || Hits(hash(keys[|keys| - 1]), num, bits, at)
  {
    var init := keys[..|keys| - 1];
    if SomeHits(hash, num, init, bits, at) {
      var i :| 0 <= i < |init| && Hits(hash(init[i]), num, bits, at);
      assert keys[i] == init[i];
    }
    if SomeHits(hash, num, keys, bits, at) {
      var i :| 0 <= i < |keys| && Hits(hash(keys[i]), num, bits, at);
      assert i < |init| ==> keys[i] == init[i];
    }
  }

  /** Building the filter a second time changes nothing. */
  lemma {:induction false} AddKeysTwice(bits: Bytes, hash: Bytes -> uint32, num: nat, keys: seq<Bytes>)
    requires bits != []
    ensures AddKeys(AddKeys(bits, hash, num, keys), hash, num, keys) == AddKeys(bits, hash, num, keys)
  {
    var once := AddKeys(bits, hash, num, keys);
    var twice := AddKeys(once, hash, num, keys);
    forall at | 0 <= at < BitCount(once) ensures BitAt(twice, at) <==> BitAt(once, at) {
      AddKeysSets(bits, hash, num, keys, at);
      AddKeysSets(once, hash, num, keys, at);
      if SomeHits(hash, num, keys, once, at) {
        var i :| 0 <= i < |keys| && Hits(hash(keys[i]), num, once, at);
        HitsStable(hash(keys[i]), num, once, bits, at);
      }
    }
    SameBits(twice, once);
  }

  /** What `exists` answers: every probe of the key finds its bit set. */
  ghost predicate MayContain(bits: Bytes, hash: Bytes -> uint32, num: nat, key: Bytes)
    requires bits != []
  {
    key != [] && forall j :: 0 <= j < num ==> BitAt(bits, Probe(hash(key), j, bits))
  }

  /** The answer for a key, on its hash and the two halves of it, without the rounds. */
  ghost predicate Answers(bits: Bytes, h: uint32, num: nat, key: Bytes)
    requires bits != []
  {
    exists d: uint32 :: Swapped(h, d) && Reports(bits, h, d, num, key)
  }

  ghost predicate Reports(bits: Bytes, h: uint32, d: uint32, num: nat, key: Bytes)
    requires bits != []
  {
    key != [] && forall j :: 0 <= j < num ==> BitSet(bits, ClosedProbe(h, d, j, 8 * |bits|))
  }

  lemma {:induction false} MayContainIs(bits: Bytes, hash: Bytes -> uint32, num: nat, key: Bytes)
    requires bits != []
    ensures MayContain(bits, hash, num, key) <==> Answers(bits, hash(key), num, key)
  {
    var h := hash(key);
    DeltaSwaps(h);
    forall d: uint32 | Swapped(h, d) ensures Reports(bits, h, d, num, key) <==> MayContain(bits, hash, num, key) {
      forall j: nat ensures BitSet(bits, ClosedProbe(h, d, j, 8 * |bits|)) <==> BitAt(bits, Probe(h, j, bits)) {
        ProbeIs(h, d, j, bits);
        BitIs(bits, Probe(h, j, bits));
      }
    }
    assert Swapped(h, Delta(h));
  }

  /** One of the `num` rounds of a hash ends at `pos`. */
  ghost predicate Reaches(h: uint32, num: nat, bitCount: nat, pos: nat)
    requires bitCount > 0
  {
    exists d: uint32, j :: Swapped(h, d) && 0 <= j < num && ClosedProbe(h, d, j, bitCount) == pos
  }

  lemma {:induction false} HitsIs(h: uint32, num: nat, bits: Bytes, pos: nat)
    requires bits != []
    ensures Hits(h, num, bits, pos) <==> Reaches(h, num, 8 * |bits|, pos)
  {
    DeltaSwaps(h);
    if Hits(h, num, bits, pos) {
      var j :| 0 <= j < num && Probe(h, j, bits) == pos;
      ProbeIs(h, Delta(h), j, bits);
      assert Swapped(h, Delta(h)) && ClosedProbe(h, Delta(h), j, 8 * |bits|) == pos;
    }
    if Reaches(h, num, 8 * |bits|, pos) {
      var d: uint32, j :| Swapped(h, d) && 0 <= j < num && ClosedProbe(h, d, j, 8 * |bits|) == pos;
      ProbeIs(h, d, j, bits);
      assert Probe(h, j, bits) == pos;
    }
  }

  /** The bits a filter has after its keys: the old ones and those some key's rounds end at. */
  ghost predicate BitsOf(was: Bytes, bits: Bytes, hash: Bytes -> uint32, num: nat, keys: seq<Bytes>) {
    |bits| == |was| && forall pos: nat :: pos < 8 * |was| ==> (BitSet(bits, pos) <==> BitOf(was, hash, num, keys, pos))
  }

  ghost predicate BitOf(was: Bytes, hash: Bytes -> uint32, num: nat, keys: seq<Bytes>, pos: nat)
    requires pos < 8 * |was|
  {
    BitSet(was, pos) || exists i :: 0 <= i < |keys| && Reaches(hash(keys[i]), num, 8 * |was|, pos)
  }

  lemma {:induction false} AddKeysBits(bits: Bytes, hash: Bytes -> uint32, num: nat, keys: seq<Bytes>)
    requires bits != []
    ensures BitsOf(bits, AddKeys(bits, hash, num, keys), hash, num, keys)
  {
    var r := AddKeys(bits, hash, num, keys);
    forall pos: nat | pos < 8 * |bits| ensures BitSet(r, pos) <==> BitOf(bits, hash, num, keys, pos) {
      BitIs(r, pos);
      BitIs(bits, pos);
      AddKeysSets(bits, hash, num, keys, pos);
      forall i | 0 <= i < |keys|
        ensures Hits(hash(keys[i]), num, bits, pos) <==> Reaches(hash(keys[i]), num, 8 * |bits|, pos)
      {
        HitsIs(hash(keys[i]), num, bits, pos);
      }
    }
  }

  /** No false negatives, and an exact account of the false positives: over fresh bits a key is
      reported exactly when it is not empty and each of its probes is a probe of some added key. */
  lemma {:induction false} NoFalseNegatives(bits: Bytes, hash: Bytes -> uint32, num: nat, keys: seq<Bytes>, key: Bytes)
    requires bits != []
    ensures key in keys && key != [] ==> MayContain(AddKeys(bits, hash, num, keys), hash, num, key)
    ensures (forall at :: 0 <= at < BitCount(bits) ==> !BitAt(bits, at)) ==>
              (MayContain(AddKeys(bits, hash, num, keys), hash, num, key)
               <==> key != [] && forall j :: 0 <= j < num ==>
                   SomeHits(hash, num, keys, bits, Probe(hash(key), j, bits)))
  {
    var r := AddKeys(bits, hash, num, keys);
    forall j: nat ensures BitAt(r, Probe(hash(key), j, r))
                          <==> (BitAt(bits, Probe(hash(key), j, bits))
                                || SomeHits(hash, num, keys, bits, Probe(hash(key), j, bits)))
    {
      ProbeStable(hash(key), j, r, bits);
      AddKeysSets(bits, hash, num, keys, Probe(hash(key), j, bits));
    }
    if key in keys {
      var i :| 0 <= i < |keys| && keys[i] == key;
      forall j | 0 <= j < num ensures SomeHits(hash, num, keys, bits, Probe(hash(key), j, bits)) {
        assert Hits(hash(keys[i]), num, bits, Probe(hash(key), j, bits));
      }
    }
  }

  class BloomFilter {
    const hash: Bytes -> uint32
    var hashFuncNum: nat
    var bitsArray: Bytes

    /** The bit array is not empty and its bit count fits a `uint32_t`. */
    ghost predicate Valid()
      reads this
    {
      0 < BitCount(bitsArray) < TWO_32
    }

    constructor (hash: Bytes -> uint32, bytes: nat, hashFuncNum: nat)
      requires 0 < 8 * bytes < TWO_32
      ensures Valid() && this.hash == hash && this.hashFuncNum == hashFuncNum
      ensures bitsArray == seq(bytes, _ => 0)
    {
      this.hash := hash;
      this.hashFuncNum := hashFuncNum;
      bitsArray := seq(bytes, _ => 0);
    }

    /** The inner loop of `CreateFilter`: the bits of one key. */
    method SetRounds(key: Bytes, bitsSize: nat)
      requires Valid() && bitsSize == BitCount(bitsArray)
      modifies this`bitsArray
      ensures |bitsArray| == |old(bitsArray)| && bitsArray == AddRounds(old(bitsArray), hash(key), hashFuncNum)
    {
      var h := hash(key);
      var delta := Delta(h);
      var j := 0;
      while j < hashFuncNum
        invariant 0 <= j <= hashFuncNum && h == Round(hash(key), j) && |bitsArray| == |old(bitsArray)|
        invariant bitsArray == AddRounds(old(bitsArray), hash(key), j)
      {
        var bitPos := h % bitsSize;
        bitsArray := bitsArray[bitPos / 8 := SetBit(bitsArray[bitPos / 8], bitPos % 8)];
        h := (h + delta) % TWO_32;
        j := j + 1;
      }
    }

    method CreateFilter(keys: seq<Bytes>)
      requires Valid()
      modifies this`bitsArray
      ensures Valid() && bitsArray == AddKeys(old(bitsArray), hash, hashFuncNum, keys)
      ensures BitsOf(old(bitsArray), bitsArray, hash, hashFuncNum, keys)
    {
      AddKeysBits(bitsArray, hash, hashFuncNum, keys);
      var bitsSize := BitCount(bitsArray);
      var i := 0;
      while i < |keys|
        invariant 0 <= i <= |keys| && |bitsArray| == |old(bitsArray)|
        invariant bitsArray == AddKeys(old(bitsArray), hash, hashFuncNum, keys[..i])
      {
        SetRounds(keys[i], bitsSize);
        assert keys[..i + 1][..i] == keys[..i];
        i := i + 1;
      }
      assert keys[..i] == keys;
    }

    method Exists(key: Bytes) returns (found: bool)
      requires Valid()
      ensures found <==> MayContain(bitsArray, hash, hashFuncNum, key)
      ensures found <==> Answers(bitsArray, hash(key), hashFuncNum, key)
    {
      MayContainIs(bitsArray, hash, hashFuncNum, key);
      hide Answers;
      if key == [] {
        return false;
      }
      var bitsSize := BitCount(bitsArray);
      var h := hash(key);
      var delta := Delta(h);
      var j := 0;
      while j < hashFuncNum
        invariant 0 <= j <= hashFuncNum && h == Round(hash(key), j)
        invariant forall i :: 0 <= i < j ==> BitAt(bitsArray, Probe(hash(key), i, bitsArray))
      {
        var bitPos := h % bitsSize;
        assert bitPos == Probe(hash(key), j, bitsArray);
        if !TestBit(bitsArray[bitPos / 8], bitPos % 8) {
          return false;
        }
        h := (h + delta) % TWO_32;
        j := j + 1;
      }
      return true;
    }

    /** Rebuilding from serialized bits. */
    method CreateFilter2(hashFuncNum: nat, bits: Bytes)
      modifies this
      ensures this.hashFuncNum == hashFuncNum && bitsArray == bits
    {
      this.hashFuncNum := hashFuncNum;
      bitsArray := bits;
    }
  }
}
