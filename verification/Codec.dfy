/** Fixed-width little-endian integers. Shifts and masks are written as division and remainder by
    powers of two; `uint32_t` arguments are taken modulo 2^32. */
module Codec {
  import opened ByteStrings

  const TWO_8 := 0x100
  const TWO_16 := 0x1_0000
  const TWO_24 := 0x100_0000
  const TWO_31 := 0x8000_0000
  const TWO_32 := 0x1_0000_0000
  const TWO_40 := 0x100_0000_0000
  const TWO_48 := 0x1_0000_0000_0000
  const TWO_56 := 0x100_0000_0000_0000
  const TWO_64 := 0x1_0000_0000_0000_0000

  /** An `OffsetInfo`: two `int32_t` fields in this order. */
  datatype OffsetInfo = OffsetInfo(size: int, offset: int)

  /** `1 << 8 * i` */
  function Weight(i: nat): (w: int)
    requires i < 8
    ensures w > 0
  {
    if i == 0 then 1 else if i == 1 then TWO_8 else if i == 2 then TWO_16 else if i == 3 then TWO_24
    else if i == 4 then TWO_32 else if i == 5 then TWO_40 else if i == 6 then TWO_48 else TWO_56
  }

  /** `(u >> 8 * i) & 0xff` */
  function ByteOf(u: int, i: nat): byte
    requires i < 8
  {
    (u / Weight(i)) % TWO_8
  }

  /** The bytes of a `uint32_t`, low byte first. */
  function Fixed32(val: int): (b: Bytes)
    ensures |b| == 4
  {
    seq(4, i requires 0 <= i < 4 => ByteOf(val % TWO_32, i))
  }

  /** The bytes of a `uint64_t`, low byte first. */
  function Fixed64(val: int): (b: Bytes)
    ensures |b| == 8
  {
    seq(8, i requires 0 <= i < 8 => ByteOf(val % TWO_64, i))
  }

  function DecodeFixed32(data: Bytes): (u: int)
    requires |data| >= 4
    ensures 0 <= u < TWO_32
  {
    data[0] + data[1] * TWO_8 + data[2] * TWO_16 + data[3] * TWO_24
  }

  /** `static_cast<int32_t>` of a `uint32_t`. */
  function Signed32(u: int): int
    requires 0 <= u < TWO_32
  {
    if u < TWO_31 then u else u - TWO_32
  }

  /** `reinterpret_cast<OffsetInfo *>` of eight bytes on a little-endian machine. */
  function DecodeOffsetInfo(data: Bytes): OffsetInfo
    requires |data| >= 8
  {
    OffsetInfo(Signed32(DecodeFixed32(data)), Signed32(DecodeFixed32(data[4..])))
  }

  /** The eight bytes of an `OffsetInfo`, read as a `uint64_t`. */
  function AsUint64(info: OffsetInfo): int {
    info.size % TWO_32 + (info.offset % TWO_32) * TWO_32
  }

  /** An `OffsetInfo` as `PutFixed64` appends it. */
  function EncodeOffsetInfo(info: OffsetInfo): (b: Bytes)
    ensures |b| == 8
  {
    Fixed64(AsUint64(info))
  }

  predicate FitsInt32(n: int) {
    -TWO_31 <= n < TWO_31
  }

  lemma BytesOf(u: int)
    requires 0 <= u < TWO_32
    ensures u == u % TWO_8 + (u / TWO_8) % TWO_8 * TWO_8 + (u / TWO_16) % TWO_8 * TWO_16 + (u / TWO_24) % TWO_8 * TWO_24
  {
    var q1, q2, q3 := u / TWO_8, u / TWO_16, u / TWO_24;
    assert q1 / TWO_8 == q2;
    assert q2 / TWO_8 == q3;
    assert q3 % TWO_8 == q3;
  }

  /** Writing and reading a 32-bit field gives its value modulo 2^32, and the value itself when it fits. */
  lemma RoundTrip32(val: int, rest: Bytes)
    ensures DecodeFixed32(Fixed32(val) + rest) == val % TWO_32
    ensures FitsInt32(val) <==> Signed32(DecodeFixed32(Fixed32(val) + rest)) == val
  {
    var b, f := Fixed32(val) + rest, Fixed32(val);
    assert b[0] == f[0] && b[1] == f[1] && b[2] == f[2] && b[3] == f[3];
    BytesOf(val % TWO_32);
    SignedInverse(val);
  }

  lemma SignedInverse(val: int)
    ensures FitsInt32(val) <==> Signed32(val % TWO_32) == val
  {
  }

  lemma ShiftLow(lo: int, hi: int)
    requires 0 <= lo < TWO_32 && 0 <= hi < TWO_32
    ensures var u := lo + hi * TWO_32;
            && u / TWO_8 == lo / TWO_8 + hi * TWO_24
            && u / TWO_16 == lo / TWO_16 + hi * TWO_16
            && u / TWO_24 == lo / TWO_24 + hi * TWO_8
  {
  }

  lemma ShiftHigh(lo: int, hi: int)
    requires 0 <= lo < TWO_32 && 0 <= hi < TWO_32
    ensures var u := lo + hi * TWO_32;
            && u / TWO_32 == hi
            && u / TWO_40 == hi / TWO_8
            && u / TWO_48 == hi / TWO_16
            && u / TWO_56 == hi / TWO_24
  {
    var u := lo + hi * TWO_32;
    assert u / TWO_32 == hi;
    assert u / TWO_40 == (u / TWO_32) / TWO_8;
    assert u / TWO_48 == (u / TWO_32) / TWO_16;
    assert u / TWO_56 == (u / TWO_32) / TWO_24;
  }

  lemma LowBytes(x: int, hi: int)
    ensures (x + hi * TWO_32) % TWO_8 == x % TWO_8
    ensures (x + hi * TWO_24) % TWO_8 == x % TWO_8
    ensures (x + hi * TWO_16) % TWO_8 == x % TWO_8
    ensures (x + hi * TWO_8) % TWO_8 == x % TWO_8
  {
  }

  lemma BytesOfPair(lo: int, hi: int, i: nat)
    requires 0 <= lo < TWO_32 && 0 <= hi < TWO_32 && i < 4
    ensures ByteOf(lo + hi * TWO_32, i) == ByteOf(lo, i)
    ensures ByteOf(lo + hi * TWO_32, 4 + i) == ByteOf(hi, i)
  {
    ShiftLow(lo, hi);
    ShiftHigh(lo, hi);
    LowBytes(lo, hi);
    LowBytes(lo / TWO_8, hi);
    LowBytes(lo / TWO_16, hi);
    LowBytes(lo / TWO_24, hi);
  }

  /** A 64-bit value is its two halves in order, low half first. */
  lemma Halves(val: int, lo: int, hi: int)
    requires 0 <= lo < TWO_32 && 0 <= hi < TWO_32 && val % TWO_64 == lo + hi * TWO_32
    ensures Fixed64(val) == Fixed32(lo) + Fixed32(hi)
  {
    var f, g, h := Fixed64(val), Fixed32(lo), Fixed32(hi);
    Reduced(lo);
    Reduced(hi);
    forall i | 0 <= i < 4 ensures f[i] == g[i] && f[4 + i] == h[i] {
      BytesOfPair(lo, hi, i);
    }
    EqualHalves(f, g, h);
  }

  lemma Reduced(x: int)
    requires 0 <= x < TWO_32
    ensures x % TWO_32 == x
  {
  }

  lemma EqualHalves(f: Bytes, g: Bytes, h: Bytes)
    requires |f| == 8 && |g| == |h| == 4 && forall i :: 0 <= i < 4 ==> f[i] == g[i] && f[4 + i] == h[i]
    ensures f == g + h
  {
    forall j | 0 <= j < 8 ensures f[j] == (g + h)[j] {
      assert j >= 4 ==> f[4 + (j - 4)] == h[j - 4];
    }
  }

  function DecodeFixed64(data: Bytes): (u: int)
    requires |data| >= 8
  {
    data[0] + data[1] * TWO_8 + data[2] * TWO_16 + data[3] * TWO_24
    + data[4] * TWO_32 + data[5] * TWO_40 + data[6] * TWO_48 + data[7] * TWO_56
  }

  /** Writing and reading a 64-bit field gives its value modulo 2^64. */
  lemma RoundTrip64(val: int, rest: Bytes)
    ensures DecodeFixed64(Fixed64(val) + rest) == val % TWO_64
  {
    var u := val % TWO_64;
    var lo, hi := u % TWO_32, u / TWO_32;
    assert u == lo + hi * TWO_32;
    Reduced(lo);
    Reduced(hi);
    Halves(val, lo, hi);
    var b := Fixed64(val) + rest;
    assert b == Fixed32(lo) + (Fixed32(hi) + rest) && b[4..] == Fixed32(hi) + rest;
    RoundTrip32(lo, Fixed32(hi) + rest);
    RoundTrip32(hi, rest);
    TwoWords(b);
  }

  lemma TwoWords(b: Bytes)
    requires |b| >= 8
    ensures DecodeFixed64(b) == DecodeFixed32(b) + DecodeFixed32(b[4..]) * TWO_32
  {
    assert b[4..][0] == b[4] && b[4..][1] == b[5] && b[4..][2] == b[6] && b[4..][3] == b[7];
  }

  lemma SameWord(x: int, y: int)
    requires y == x % TWO_32 == y % TWO_32
    ensures Fixed32(x) == Fixed32(y)
  {
  }

  /** The 64-bit field is the two 32-bit fields in order. */
  lemma OffsetInfoBytes(info: OffsetInfo)
    ensures EncodeOffsetInfo(info) == Fixed32(info.size) + Fixed32(info.offset)
  {
    var lo, hi := info.size % TWO_32, info.offset % TWO_32;
    Reduced(lo);
    Reduced(hi);
    assert AsUint64(info) % TWO_64 == lo + hi * TWO_32;
    SameWord(info.size, lo);
    SameWord(info.offset, hi);
    hide Fixed32, Fixed64, AsUint64;
    Halves(AsUint64(info), lo, hi);
  }

  /** An `OffsetInfo` is recovered exactly when both its fields fit. */
  lemma RoundTripOffsetInfo(info: OffsetInfo, rest: Bytes)
    ensures DecodeOffsetInfo(EncodeOffsetInfo(info) + rest) == info
            <==> FitsInt32(info.size) && FitsInt32(info.offset)
  {
    OffsetInfoBytes(info);
    var b := EncodeOffsetInfo(info) + rest;
    assert b == Fixed32(info.size) + (Fixed32(info.offset) + rest);
    assert b[4..] == Fixed32(info.offset) + rest;
    RoundTrip32(info.size, Fixed32(info.offset) + rest);
    RoundTrip32(info.offset, rest);
  }

  /** The value of four bytes as digits to base 256, lowest first. */
  function Word(b0: int, b1: int, b2: int, b3: int): int {
    b0 + b1 * 256 + b2 * 65536 + b3 * 16777216
  }

  lemma LittleEndian32(val: int)
    ensures var b := Fixed32(val); Word(b[0], b[1], b[2], b[3]) == val % 4294967296
  {
    RoundTrip32(val, []);
    assert Fixed32(val) + [] == Fixed32(val);
  }

  lemma LittleEndian64(val: int)
    ensures var b := Fixed64(val);
            Word(b[0], b[1], b[2], b[3]) + Word(b[4], b[5], b[6], b[7]) * 4294967296 == val % 18446744073709551616
  {
    RoundTrip64(val, []);
    assert Fixed64(val) + [] == Fixed64(val);
  }

  /** `EncodeFixed32` on a caller's buffer. */
  method EncodeFixed32(buf: array<byte>, at: nat, val: int)
    requires at + 4 <= buf.Length
    modifies buf
    ensures buf[at..at + 4] == Fixed32(val)
    ensures buf[..at] == old(buf[..at]) && buf[at + 4..] == old(buf[at + 4..])
  {
    var u := val % TWO_32;
    buf[at] := u % TWO_8;
    buf[at + 1] := (u / TWO_8) % TWO_8;
    buf[at + 2] := (u / TWO_16) % TWO_8;
    buf[at + 3] := (u / TWO_24) % TWO_8;
    forall i | 0 <= i < 4 ensures buf[at + i] == Fixed32(val)[i] {
    }
  }

  /** `EncodeFixed64` on a caller's buffer. */
  method EncodeFixed64(buf: array<byte>, at: nat, val: int)
    requires at + 8 <= buf.Length
    modifies buf
    ensures buf[at..at + 8] == Fixed64(val)
    ensures buf[..at] == old(buf[..at]) && buf[at + 8..] == old(buf[at + 8..])
  {
    var u := val % TWO_64;
    buf[at] := u % TWO_8;
    buf[at + 1] := (u / TWO_8) % TWO_8;
    buf[at + 2] := (u / TWO_16) % TWO_8;
    buf[at + 3] := (u / TWO_24) % TWO_8;
    buf[at + 4] := (u / TWO_32) % TWO_8;
    buf[at + 5] := (u / TWO_40) % TWO_8;
    buf[at + 6] := (u / TWO_48) % TWO_8;
    buf[at + 7] := (u / TWO_56) % TWO_8;
    forall i | 0 <= i < 8 ensures buf[at + i] == Fixed64(val)[i] {
    }
  }
}
