/** The key that goes into the index between two blocks. */
module Separator {
  import opened ByteStrings
  import opened DataBlock

  const SPACE: byte := 0x20

  /** Positions below `n` at which both keys have the same byte. */
  function EqualPositions(a: Bytes, b: Bytes, n: nat): (c: nat)
    requires n <= |a| && n <= |b|
    ensures c <= n
  {
    if n == 0 then 0 else EqualPositions(a, b, n - 1) + if a[n - 1] == b[n - 1] then 1 else 0
  }

  function MinLength(a: Bytes, b: Bytes): nat {
    if |a| < |b| then |a| else |b|
  }

  /** `shortest_key.back() += 1` on a char. */
  function BumpLast(s: Bytes): (r: Bytes)
    requires s != []
    ensures |r| == |s|
  {
    var last: int := s[|s| - 1];
    s[|s| - 1 := (last + 1) % 256]
  }

  /** The number of equal positions, in the prefix or not, decides where the first key is cut. */
  function SeparatorOf(key1: Bytes, key2: Bytes): Bytes {
    var cnt := EqualPositions(key1, key2, MinLength(key1, key2));
    if |key1| == cnt then key1 + [SPACE] else BumpLast(key1[..cnt + 1])
  }

  /** The positions at which both keys have the same byte, in the common prefix or past it. */
  ghost function EqualSet(a: Bytes, b: Bytes): set<int> {
    set i: int | 0 <= i < |a| && i < |b| && a[i] == b[i]
  }

  /** One byte longer than there are equal positions: the first key as far as it goes there, and then its next
      byte plus one on a char, or a blank where it has ended. */
  ghost predicate IsSeparator(key1: Bytes, key2: Bytes, s: Bytes) {
    var n := |EqualSet(key1, key2)|;
    && |s| == n + 1 && n <= |key1| && s[..n] == key1[..n]
    && s[n] == if n < |key1| then (key1[n] as int + 1) % 256 else 0x20
  }

  lemma {:induction false} CountIsSize(a: Bytes, b: Bytes, n: nat, positions: set<int>)
    requires n <= |a| && n <= |b| && positions == set i: int | 0 <= i < n && a[i] == b[i]
    ensures EqualPositions(a, b, n) == |positions|
  {
    if n > 0 {
      var before := set i: int | 0 <= i < n - 1 && a[i] == b[i];
      CountIsSize(a, b, n - 1, before);
      assert positions == if a[n - 1] == b[n - 1] then before + {n - 1} else before;
    }
  }

  lemma {:induction false} SeparatorBytes(key1: Bytes, key2: Bytes)
    ensures IsSeparator(key1, key2, SeparatorOf(key1, key2))
  {
    var n := MinLength(key1, key2);
    var cnt := EqualPositions(key1, key2, n);
    assert EqualSet(key1, key2) == set i: int | 0 <= i < n && key1[i] == key2[i];
    CountIsSize(key1, key2, n, EqualSet(key1, key2));
    if cnt < |key1| {
      BumpBytes(key1[..cnt + 1]);
      assert key1[..cnt + 1][..cnt] == key1[..cnt];
    }
  }

  lemma BumpBytes(key: Bytes)
    requires key != []
    ensures var n := |key| - 1;
            BumpLast(key)[..n] == key[..n] && BumpLast(key)[n] == (key[n] as int + 1) % 256
  {
  }

  /** Nothing from above the first key up to the second is shorter than their common prefix and one byte: where no
      position past the common prefix is equal, no separator is shorter than the one found. */
  lemma {:induction false} NoneShorter(key1: Bytes, key2: Bytes, p: nat, t: Bytes)
    requires p <= |key1| && p <= |key2| && key1[..p] == key2[..p] && Less(key1, t) && LessEq(t, key2)
    ensures |t| >= p + 1
    ensures |EqualSet(key1, key2)| == p ==> |SeparatorOf(key1, key2)| <= |t|
  {
    var l := LessDecided(key1, t);
    if l < p {
      assert key1[l] == key1[..p][l] == key2[..p][l] == key2[l];
      assert t[..l] == key1[..l] == key1[..p][..l] == key2[..p][..l] == key2[..l];
      assert Decides(key2, t, l);
      DecidedLess(key2, t, l);
      LessTrichotomy(t, key2);
    }
    SeparatorBytes(key1, key2);
  }

  /** The example of the header comment: "abcd" and "abecd" give "abd". */
  lemma HeaderExample()
    ensures SeparatorOf([0x61, 0x62, 0x63, 0x64], [0x61, 0x62, 0x65, 0x63, 0x64]) == [0x61, 0x62, 0x64]
  {
    var key1, key2 := [0x61, 0x62, 0x63, 0x64], [0x61, 0x62, 0x65, 0x63, 0x64];
    assert EqualPositions(key1, key2, 1) == 1;
    assert EqualPositions(key1, key2, 2) == 2;
    assert EqualPositions(key1, key2, 3) == 2;
    assert EqualPositions(key1, key2, 4) == 2;
    assert key1[..3] == [0x61, 0x62, 0x63];
  }

  /** `find_shortest_key`; None when one of its asserts fails. */
  method FindShortestKey(key1: Bytes, key2: Bytes) returns (r: Option<Bytes>)
    ensures r.Some? <==> key1 != [] && key2 != [] && Less(key1, key2)
    ensures r.Some? ==> IsSeparator(key1, key2, r.value)
    ensures r == if key1 != [] && key2 != [] && Less(key1, key2) then Some(SeparatorOf(key1, key2)) else None
  {
    if key1 == [] || key2 == [] || !Less(key1, key2) {
      return None;
    }
    SeparatorBytes(key1, key2);
    var cnt := 0;
    var i := 0;
    while i < MinLength(key1, key2)
      invariant 0 <= i <= MinLength(key1, key2) && cnt == EqualPositions(key1, key2, i)
    {
      if key1[i] == key2[i] {
        cnt := cnt + 1;
      }
      i := i + 1;
    }
    if |key1| == cnt {
      return Some(key1 + [SPACE]);
    }
    var shortestKey := key1[..cnt + 1];
    shortestKey := BumpLast(shortestKey);
    return Some(shortestKey);
  }

  lemma {:induction false} AllEqual(a: Bytes, b: Bytes, n: nat)
    requires n <= |a| && n <= |b|
    ensures EqualPositions(a, b, n) == n <==> a[..n] == b[..n]
  {
    if n > 0 {
      AllEqual(a, b, n - 1);
      assert a[..n] == a[..n - 1] + [a[n - 1]];
      assert b[..n] == b[..n - 1] + [b[n - 1]];
      if a[..n] == b[..n] {
        assert a[..n][..n - 1] == a[..n - 1] && b[..n][..n - 1] == b[..n - 1];
        assert a[n - 1] == a[..n][n - 1] && b[n - 1] == b[..n][n - 1];
      }
    }
  }

  /** The count is at least the common prefix. */
  lemma {:induction false} CountsPrefix(a: Bytes, b: Bytes, p: nat, n: nat)
    requires p <= n <= |a| && n <= |b| && a[..p] == b[..p]
    ensures EqualPositions(a, b, n) >= p
  {
    if n == p {
      AllEqual(a, b, p);
    } else {
      CountsPrefix(a, b, p, n - 1);
    }
  }

  /** The byte to bump is 0xFF: the `+= 1` on a char wraps around. */
  predicate WrapsAround(key1: Bytes, key2: Bytes) {
    var cnt := EqualPositions(key1, key2, MinLength(key1, key2));
    cnt < |key1| && key1[cnt] == 0xFF
  }

  /** No byte is bumped: the first key is a prefix of the second. */
  predicate Extends(key1: Bytes, key2: Bytes) {
    |key1| == EqualPositions(key1, key2, MinLength(key1, key2))
  }

  /** `key` is `prefix` followed by a control character, which sorts below `prefix + " "`. */
  predicate Undercuts(prefix: Bytes, key: Bytes) {
    |prefix| < |key| && key[..|prefix|] == prefix && key[|prefix|] < SPACE
  }

  /** When the separator really separates: the guard of the branch taken, on the byte it meets. */
  predicate Separates(key1: Bytes, key2: Bytes) {
    !WrapsAround(key1, key2) && !(Extends(key1, key2) && Undercuts(key1, key2))
  }

  /** The separator is above the first key exactly when the bump does not wrap around. */
  lemma {:induction false} AboveExact(key1: Bytes, key2: Bytes)
    requires key1 != [] && Less(key1, key2)
    ensures Less(key1, SeparatorOf(key1, key2)) <==> !WrapsAround(key1, key2)
    ensures !Extends(key1, key2) ==> LessEq(SeparatorOf(key1, key2), key2)
  {
    var l := LessDecided(key1, key2);
    var n := MinLength(key1, key2);
    var cnt := EqualPositions(key1, key2, n);
    CountsPrefix(key1, key2, l, n);
    if cnt == |key1| {
      assert Decides(key1, key1 + [SPACE], |key1|);
      DecidedLess(key1, key1 + [SPACE], |key1|);
    } else {
      BumpCase(key1, key2, l, cnt);
    }
  }

  /** Of the keys from the second on, exactly those are below the separator that follow the first key,
      a prefix of the second, with a control character. */
  lemma {:induction false} BelowExact(key1: Bytes, key2: Bytes, key: Bytes)
    requires key1 != [] && Less(key1, key2) && LessEq(key2, key)
    ensures Less(key, SeparatorOf(key1, key2)) <==> Extends(key1, key2) && Undercuts(key1, key)
  {
    LessLessEq(key1, key2, key);
    if Extends(key1, key2) {
      PrefixCase(key1, key);
    } else {
      var s := SeparatorOf(key1, key2);
      AboveExact(key1, key2);
      if Less(key, s) {
        LessEqLess(key2, key, s);
        LessLessEq(key2, s, key2);
        LessIrreflexive(key2);
      }
    }
  }

  /** `key1 < s <= key2` holds exactly when the byte bumped does not wrap around and the byte after a
      prefix is no control character. */
  lemma {:induction false} SeparatorExact(key1: Bytes, key2: Bytes)
    requires key1 != [] && Less(key1, key2)
    ensures Less(key1, SeparatorOf(key1, key2)) && LessEq(SeparatorOf(key1, key2), key2) <==> Separates(key1, key2)
  {
    AboveExact(key1, key2);
    BelowExact(key1, key2, key2);
    LessTrichotomy(SeparatorOf(key1, key2), key2);
  }

  /** The second key is the separator itself. */
  predicate Successor(key1: Bytes, key2: Bytes) {
    var cnt := EqualPositions(key1, key2, MinLength(key1, key2));
    if cnt == |key1| then key2 == key1 + [SPACE]
    else |key2| == cnt + 1 && key2[..cnt] == key1[..cnt] && key2[cnt] == key1[cnt] as int + 1
  }

  /** The header comment promises `key1 < s < key2`: it holds exactly when the separator separates and is
      not the second key. */
  lemma {:induction false} StrictExact(key1: Bytes, key2: Bytes)
    requires key1 != [] && Less(key1, key2)
    ensures Less(key1, SeparatorOf(key1, key2)) && Less(SeparatorOf(key1, key2), key2)
            <==> Separates(key1, key2) && !Successor(key1, key2)
  {
    var s := SeparatorOf(key1, key2);
    SeparatorExact(key1, key2);
    LessIrreflexive(s);
    if !WrapsAround(key1, key2) {
      SuccessorIs(key1, key2);
    }
  }

  lemma SuccessorIs(key1: Bytes, key2: Bytes)
    requires !WrapsAround(key1, key2)
    ensures SeparatorOf(key1, key2) == key2 <==> Successor(key1, key2)
  {
    var cnt := EqualPositions(key1, key2, MinLength(key1, key2));
    if cnt != |key1| {
      assert key1[..cnt + 1] == key1[..cnt] + [key1[cnt]];
      var s := key1[..cnt] + [key1[cnt] + 1];
      assert SeparatorOf(key1, key2) == s && s[..cnt] == key1[..cnt];
      if Successor(key1, key2) {
        assert key2 == key2[..cnt] + [key2[cnt]];
      }
    }
  }

  /** The separator that a count of the common prefix alone would give. */
  function PrefixSeparator(key1: Bytes, key2: Bytes): Bytes {
    var cnt := CommonPrefix(key1, key2);
    if |key1| == cnt then key1 + [SPACE] else BumpLast(key1[..cnt + 1])
  }

  /** Counting equal positions past the common prefix is the only cause of a wrong bump: cut after the
      common prefix, the byte bumped is below the second key's, so it never wraps around. */
  lemma {:induction false} CommonPrefixSeparates(key1: Bytes, key2: Bytes)
    requires key1 != [] && Less(key1, key2)
    ensures CommonPrefix(key1, key2) < |key1| ==> key1[CommonPrefix(key1, key2)] < 0xFF
    ensures Less(key1, PrefixSeparator(key1, key2)) && LessEq(PrefixSeparator(key1, key2), key2)
            <==> !(CommonPrefix(key1, key2) == |key1| && Undercuts(key1, key2))
  {
    var l := LessDecided(key1, key2);
    var p := CommonPrefix(key1, key2);
    CommonPrefixIs(key1, key2, l);
    if p < |key1| {
      BumpCase(key1, key2, p, p);
    } else {
      PrefixCase(key1, key2);
      LessTrichotomy(key1 + [SPACE], key2);
    }
  }

  /** Inputs on which the separator fails: the second positions differ, the third agree, and the byte that
      the count of one points at wraps around; then a control character after a prefix. */
  lemma BumpFails()
    ensures var key1, key2 := [0x61, 0xFF, 0x63], [0x62, 0x62, 0x63];
            && Less(key1, key2) && WrapsAround(key1, key2) && CommonPrefix(key1, key2) == 0
            && SeparatorOf(key1, key2) == [0x61, 0x00] && Less(SeparatorOf(key1, key2), key1)
  {
    var key1, key2 := [0x61, 0xFF, 0x63], [0x62, 0x62, 0x63];
    CountThree(key1, key2);
    assert key1[..2] == [0x61, 0xFF];
    var s := SeparatorOf(key1, key2);
    assert s == [0x61, 0x00];
    assert s[..1] == key1[..1];
    assert Decides(s, key1, 1);
    DecidedLess(s, key1, 1);
  }

  lemma CountThree(key1: Bytes, key2: Bytes)
    requires |key1| == |key2| == 3 && key1[0] != key2[0] && key1[1] != key2[1] && key1[2] == key2[2]
    ensures EqualPositions(key1, key2, 3) == 1
  {
    assert EqualPositions(key1, key2, 1) == 0;
    assert EqualPositions(key1, key2, 2) == 0;
  }

  lemma PrefixFails()
    ensures var key1, key2 := [0x61], [0x61, 0x01];
            && Less(key1, key2) && Extends(key1, key2) && Undercuts(key1, key2)
            && SeparatorOf(key1, key2) == [0x61, 0x20] && Less(key2, SeparatorOf(key1, key2))
  {
    var key1, key2 := [0x61], [0x61, 0x01];
    assert EqualPositions(key1, key2, 1) == 1;
    assert key2[..1] == key1;
    assert Decides(key1, key2, 1);
    DecidedLess(key1, key2, 1);
    BelowExact(key1, key2, key2);
  }

  /** Above a key, exactly the keys that undercut it are below the key with a blank appended. */
  lemma {:induction false} PrefixCase(key1: Bytes, key: Bytes)
    requires Less(key1, key)
    ensures Less(key1, key1 + [SPACE])
    ensures Less(key, key1 + [SPACE]) <==> Undercuts(key1, key)
  {
    var s, n := key1 + [SPACE], |key1|;
    assert s[..n] == key1;
    assert Decides(key1, s, n);
    DecidedLess(key1, s, n);
    var l := LessDecided(key1, key);
    if l < n {
      assert s[..l] == key1[..l];
      assert Decides(s, key, l);
      DecidedLess(s, key, l);
      LessTrichotomy(s, key);
      assert |key| >= n ==> key[l] == key[..n][l];
    } else if key[n] < SPACE {
      assert Decides(key, s, n);
      DecidedLess(key, s, n);
    } else {
      AppendedNotAbove(key1, SPACE, key, s, n);
    }
  }

  lemma {:induction false} AppendedNotAbove(prefix: Bytes, c: byte, key: Bytes, s: Bytes, n: nat)
    requires n == |prefix| < |key| && key[..n] == prefix && s == prefix + [c] && key[n] >= c
    ensures !Less(key, s)
  {
    LessTrichotomy(s, key);
    assert s[..n] == prefix;
    if key[n] > c {
      assert Decides(s, key, n);
      DecidedLess(s, key, n);
    } else if |key| > n + 1 {
      assert key[..n + 1] == key[..n] + [key[n]] == s;
      assert s[..n + 1] == s;
      assert Decides(s, key, n + 1);
      DecidedLess(s, key, n + 1);
    } else {
      assert key == key[..n] + [key[n]];
    }
  }

  /** What a wrapped bump leaves, a key cut short and a NUL, is next to the key cut short. */
  lemma {:induction false} NulAppended(key: Bytes, prefix: Bytes)
    ensures Less(key, prefix + [0]) <==> LessEq(key, prefix)
  {
    var s, n := prefix + [0], |prefix|;
    assert s[..n] == prefix;
    assert Decides(prefix, s, n);
    DecidedLess(prefix, s, n);
    LessTrichotomy(key, prefix);
    if Less(key, prefix) {
      LessTransitive(key, prefix, s);
    } else if Less(prefix, key) {
      var l := LessDecided(prefix, key);
      if l < n {
        assert s[..l] == prefix[..l];
        assert Decides(s, key, l);
        DecidedLess(s, key, l);
        LessTrichotomy(s, key);
      } else {
        AppendedNotAbove(prefix, 0, key, s, n);
      }
    }
  }

  lemma {:induction false} PrefixBelow(key: Bytes, n: nat)
    requires n < |key|
    ensures Less(key[..n], key) && !LessEq(key, key[..n])
  {
    assert key[..n][..n] == key[..n];
    assert Decides(key[..n], key, n);
    DecidedLess(key[..n], key, n);
    LessTrichotomy(key[..n], key);
  }

  /** What is left of the first key before the byte that is bumped. */
  function BeforeBump(key1: Bytes, key2: Bytes): (p: Bytes)
    ensures |p| <= |key1| && p == key1[..|p|]
  {
    key1[..EqualPositions(key1, key2, MinLength(key1, key2))]
  }

  lemma WrappedSeparator(key1: Bytes, key2: Bytes)
    requires WrapsAround(key1, key2)
    ensures SeparatorOf(key1, key2) == BeforeBump(key1, key2) + [0] && |BeforeBump(key1, key2)| < |key1|
  {
    var cnt := EqualPositions(key1, key2, MinLength(key1, key2));
    assert key1[..cnt + 1] == key1[..cnt] + [key1[cnt]];
  }

  lemma WrappedLast(key: Bytes)
    requires key != [] && key[|key| - 1] == 0xFF
    ensures BumpLast(key) == key[..|key| - 1] + [0]
  {
    assert key == key[..|key| - 1] + [key[|key| - 1]];
  }

  /** The last separator of a table is its last key with the last byte bumped: above the key unless
      that wraps. */
  lemma {:induction false} BumpLastExact(key: Bytes)
    requires key != []
    ensures Less(key, BumpLast(key)) <==> key[|key| - 1] != 0xFF
  {
    var s, n := BumpLast(key), |key| - 1;
    assert s[..n] == key[..n];
    if key[n] == 0xFF {
      assert Decides(s, key, n);
      DecidedLess(s, key, n);
      LessTrichotomy(s, key);
    } else {
      assert Decides(key, s, n);
      DecidedLess(key, s, n);
    }
  }

  lemma {:induction false} BumpCase(key1: Bytes, key2: Bytes, l: nat, cnt: nat)
    requires Decides(key1, key2, l) && l <= cnt < |key1|
    ensures Less(key1, BumpLast(key1[..cnt + 1])) <==> key1[cnt] != 0xFF
    ensures LessEq(BumpLast(key1[..cnt + 1]), key2)
  {
    var p := key1[..cnt + 1];
    var s := BumpLast(p);
    assert s[..cnt] == p[..cnt] == key1[..cnt];
    if key1[cnt] == 0xFF {
      assert s[cnt] == 0;
      assert Decides(s, key1, cnt);
      DecidedLess(s, key1, cnt);
      LessTrichotomy(s, key1);
      DecidedLess(key1, key2, l);
      LessTransitive(s, key1, key2);
    } else {
      assert Decides(key1, s, cnt);
      DecidedLess(key1, s, cnt);
      assert key1[..cnt][..l] == key1[..l] && s[..cnt][..l] == s[..l];
      BumpBelow(s, key2, l);
    }
  }

  /** `s` agrees with `key2` up to `l` and is smaller there, or ends there without being greater. */
  lemma {:induction false} BumpBelow(s: Bytes, key2: Bytes, l: nat)
    requires l < |s| && l < |key2| && s[..l] == key2[..l]
    requires s[l] < key2[l] || (s[l] == key2[l] && |s| == l + 1)
    ensures LessEq(s, key2)
  {
    if s[l] < key2[l] {
      assert Decides(s, key2, l);
      DecidedLess(s, key2, l);
    } else {
      assert s == s[..l] + [s[l]];
      assert key2[..l + 1] == key2[..l] + [key2[l]];
      if |key2| > l + 1 {
        assert s[..l + 1] == s;
        assert Decides(s, key2, l + 1);
        DecidedLess(s, key2, l + 1);
      } else {
        assert key2 == key2[..l + 1];
      }
    }
  }

  /** The shortest failing input of the strict promise: nothing lies between these two. */
  lemma NotStrictlyBetween()
    ensures Less([0x61], [0x62]) && Separates([0x61], [0x62]) && Successor([0x61], [0x62])
  {
    assert EqualPositions([0x61], [0x62], 1) == 0;
  }
}
