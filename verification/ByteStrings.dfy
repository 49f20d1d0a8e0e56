/** Bytes, the byte-wise order in which `std::string` compares keys, and the truncation
    that happens when a `std::string` is rebuilt from a bare `const char*`. */
module ByteStrings {

  type byte = b: int | 0 <= b < 256

  type Bytes = seq<byte>

  datatype Option<+T> = None | Some(value: T)

  /** A key-value pair as the tables store it. */
  datatype Pair = Pair(key: Bytes, value: Bytes)

  /** `a < b` as `std::string::compare` decides it: bytes are compared as unsigned numbers. */
  predicate Less(a: Bytes, b: Bytes) {
    b != [] && (a == [] || a[0] < b[0] || (a[0] == b[0] && Less(a[1..], b[1..])))
  }

  predicate LessEq(a: Bytes, b: Bytes) {
    a == b || Less(a, b)
  }

  /** `l` is a position that decides `a < b`: the strings agree before it, and at it
      either `a` has ended or its byte is the smaller one. */
  ghost predicate Decides(a: Bytes, b: Bytes, l: nat) {
    && l <= |a| && l < |b|
    && a[..l] == b[..l]
    && (l == |a| || a[l] < b[l])
  }

  lemma {:induction false} LessDecided(a: Bytes, b: Bytes) returns (l: nat)
    requires Less(a, b)
    ensures Decides(a, b, l)
  {
    if a == [] || a[0] < b[0] {
      l := 0;
    } else {
      var m := LessDecided(a[1..], b[1..]);
      l := m + 1;
      assert a[..l] == [a[0]] + a[1..][..m];
      assert b[..l] == [b[0]] + b[1..][..m];
    }
  }

  lemma {:induction false} DecidedLess(a: Bytes, b: Bytes, l: nat)
    requires Decides(a, b, l)
    ensures Less(a, b)
  {
    if l > 0 {
      assert a[0] == a[..l][0] == b[..l][0] == b[0];
      assert a[1..][..l - 1] == a[..l][1..] == b[..l][1..] == b[1..][..l - 1];
      DecidedLess(a[1..], b[1..], l - 1);
    }
  }

  /** The order is that of the first position at which the strings differ. */
  lemma {:induction false} LessIs(a: Bytes, b: Bytes)
    ensures Less(a, b) <==> exists l :: Decides(a, b, l)
  {
    if Less(a, b) {
      var l := LessDecided(a, b);
    }
    if l :| Decides(a, b, l) {
      DecidedLess(a, b, l);
    }
  }

  lemma {:induction false} LessIrreflexive(a: Bytes)
    ensures !Less(a, a)
  {
    if a != [] {
      LessIrreflexive(a[1..]);
    }
  }

  lemma {:induction false} LessTransitive(a: Bytes, b: Bytes, c: Bytes)
    requires Less(a, b) && Less(b, c)
    ensures Less(a, c)
  {
    if a != [] && a[0] == b[0] == c[0] {
      LessTransitive(a[1..], b[1..], c[1..]);
    }
  }

  /** The three-way chains `==`, `<`, `>` of the searches always take exactly one branch. */
  lemma {:induction false} LessTrichotomy(a: Bytes, b: Bytes)
    ensures a == b || Less(a, b) || Less(b, a)
    ensures !(Less(a, b) && Less(b, a))
    ensures a == b ==> !Less(a, b) && !Less(b, a)
  {
    LessIrreflexive(a);
    if Less(a, b) && Less(b, a) {
      LessTransitive(a, b, a);
    }
    if a != [] && b != [] && a[0] == b[0] {
      LessTrichotomy(a[1..], b[1..]);
      if a[1..] == b[1..] {
        assert a == [a[0]] + a[1..];
        assert b == [b[0]] + b[1..];
      }
    }
  }

  lemma LessEqLess(a: Bytes, b: Bytes, c: Bytes)
    requires LessEq(a, b) && Less(b, c)
    ensures Less(a, c)
  {
    if a != b {
      LessTransitive(a, b, c);
    }
  }

  lemma LessLessEq(a: Bytes, b: Bytes, c: Bytes)
    requires Less(a, b) && LessEq(b, c)
    ensures Less(a, c)
  {
    if b != c {
      LessTransitive(a, b, c);
    }
  }

  /** The bytes before the first NUL: what is left of a `string_view` whose `data()` is
      turned back into a `std::string` (the view's buffer being NUL-terminated). */
  function CStr(s: Bytes): (r: Bytes)
    ensures |r| <= |s| && r == s[..|r|] && 0 !in r
    ensures |r| < |s| ==> s[|r|] == 0
  {
    if s == [] || s[0] == 0 then [] else [s[0]] + CStr(s[1..])
  }

  /** Truncation loses nothing exactly for NUL-free strings. */
  lemma CStrExact(s: Bytes)
    ensures CStr(s) == s <==> 0 !in s
  {
    var r := CStr(s);
    if |r| < |s| {
      assert s[|r|] == 0;
    } else {
      assert s[..|r|] == s;
    }
  }

  // ---------- slices of concatenations ----------

  lemma Middle(a: Bytes, b: Bytes, c: Bytes)
    ensures (a + b + c)[|a|..|a| + |b|] == b
    ensures (a + b + c)[|a|..] == b + c
  {
  }

  lemma Concat3(a: Bytes, b: Bytes, c: Bytes)
    ensures a + b + c == a + (b + c)
  {
  }

  lemma AppendNothing(a: Bytes)
    ensures a + [] == a
  {
  }

  lemma Regroup(r: Bytes, x: Bytes, y: Bytes, z: Bytes, t: Bytes)
    ensures r + (x + y + z) + t == (r + x) + y + (z + t)
  {
  }

  lemma CutAt(s: Bytes, i: nat, j: nat)
    requires i <= j <= |s|
    ensures s == s[..i] + s[i..j] + s[j..]
  {
  }

  lemma SliceOfRest(image: Bytes, start: nat, a: nat, b: nat)
    requires start + b <= |image| && a <= b
    ensures image[start + a..start + b] == image[start..][a..b]
    ensures start + b == |image| ==> image[start + a..] == image[start..][a..]
  {
    forall i | 0 <= i < b - a ensures image[start + a..start + b][i] == image[start..][a..b][i] {
    }
    if start + b == |image| {
      assert image[start + a..] == image[start + a..start + b] && image[start..][a..] == image[start..][a..b];
    }
  }

  /** From position `start` on, `s` is `b`. */
  ghost predicate SuffixIs(s: Bytes, start: nat, b: Bytes)
    decreases start
  {
    if start == 0 then s == b else s != [] && SuffixIs(s[1..], start - 1, b)
  }

  lemma {:induction false} SuffixSlice(s: Bytes, start: nat, b: Bytes)
    ensures SuffixIs(s, start, b) <==> start <= |s| && s[start..] == b
    decreases start
  {
    if start > 0 && s != [] {
      SuffixSlice(s[1..], start - 1, b);
      assert start <= |s| ==> s[1..][start - 1..] == s[start..];
    }
  }

  lemma SuffixOfSuffix(s: Bytes, start: nat, a: Bytes, p: nat, b: Bytes)
    requires SuffixIs(s, start, a) && SuffixIs(a, p, b)
    ensures SuffixIs(s, start + p, b)
  {
    SuffixSlice(s, start, a);
    SuffixSlice(a, p, b);
    SuffixSlice(s, start + p, b);
    assert s[start + p..] == s[start..][p..];
  }

  lemma SuffixExtend(a: Bytes, p: nat, b: Bytes, tail: Bytes)
    requires SuffixIs(a, p, b)
    ensures SuffixIs(a + tail, p, b + tail)
  {
    SuffixSlice(a, p, b);
    SuffixSlice(a + tail, p, b + tail);
    assert (a + tail)[p..] == a[p..] + tail;
  }
}
