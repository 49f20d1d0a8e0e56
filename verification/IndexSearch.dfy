/** Which block the index search finds for a key that was put in: exact conditions on the bytes of the
    keys, since the separators it compares with do not always separate. */
module IndexSearch {
  import opened ByteStrings
  import opened SortedPairs
  import opened Codec
  import opened DataBlock
  import opened Separator
  import opened SstTable
  import opened SstParser
  import opened SstTheorems

  // ---------- the separators of a table ----------

  /** The key before the one whose `add` flushed block `j`. */
  function Before(kvs: seq<Pair>, cuts: seq<nat>, j: nat): Bytes {
    if j < |cuts| && 2 <= cuts[j] <= |kvs| then kvs[cuts[j] - 2].key else []
  }

  /** The key whose `add` flushed block `j`. */
  function Trigger(kvs: seq<Pair>, cuts: seq<nat>, j: nat): Bytes {
    if j < |cuts| && 2 <= cuts[j] <= |kvs| then kvs[cuts[j] - 1].key else []
  }

  /** The record of `i` in block `j` is the one whose `add` flushed that block. */
  predicate Triggers(cuts: seq<nat>, j: nat, i: nat) {
    j < |cuts| && cuts[j] == i + 1
  }

  predicate InBlock(final: seq<nat>, j: nat, i: nat) {
    j < |final| && Start(final, j) <= i < final[j]
  }

  ghost predicate SeparatorAt(kvs: seq<Pair>, cuts: seq<nat>, j: nat, s: Bytes) {
    && j < |cuts| && 2 <= cuts[j] <= |kvs|
    && Before(kvs, cuts, j) != [] && Less(Before(kvs, cuts, j), Trigger(kvs, cuts, j))
    && s == SeparatorOf(Before(kvs, cuts, j), Trigger(kvs, cuts, j))
  }

  /** `ss` are the index keys: a separator for each flushed block, and the bumped last key if records
      were left for `finish_sst`. */
  ghost predicate IndexKeys(kvs: seq<Pair>, cuts: seq<nat>, final: seq<nat>, ss: seq<Bytes>) {
    && WellCut(final, |kvs|) && LastCut(final) == |kvs|
    && |cuts| <= |final| == |ss| <= |cuts| + 1 && cuts == final[..|cuts|]
    && (forall j {:trigger ss[j]} :: 0 <= j < |cuts| ==> SeparatorAt(kvs, cuts, j, ss[j]))
    && (|ss| == |cuts| + 1 ==> LastKey(kvs) != [] && ss[|cuts|] == BumpLast(LastKey(kvs)))
  }

  function IndexKeysOf(es: seq<IndexEntry>): (ss: seq<Bytes>)
    ensures |ss| == |es| && forall j {:trigger ss[j]} :: 0 <= j < |es| ==> ss[j] == es[j].shortestKey
  {
    seq(|es|, j requires 0 <= j < |es| => es[j].shortestKey)
  }

  lemma {:induction false} FlushedKey(kvs: seq<Pair>, cuts: seq<nat>, j: nat, e: IndexEntry)
    requires Finishable(kvs) && cuts == CutsOf(kvs) && j < |cuts| && e == Entries(kvs)[j]
    ensures 2 <= cuts[j] <= |kvs| && e.shortestKey == FlushSeparator(kvs, cuts[j])
  {
    hide CutsOf, FinalCuts, FlushSeparator, Block, Data;
    assert Start(cuts, j) < cuts[j];
    assert e == FlushEntries(kvs, cuts)[j] == FlushEntry(kvs, cuts, j);
  }

  lemma {:induction false} SeparatorHolds(kvs: seq<Pair>, cuts: seq<nat>, j: nat, e: IndexEntry)
    requires Finishable(kvs) && Sorted(kvs) && cuts == CutsOf(kvs) && j < |cuts| && e == Entries(kvs)[j]
    ensures SeparatorAt(kvs, cuts, j, e.shortestKey)
  {
    hide CutsOf, Entries;
    FlushedKey(kvs, cuts, j, e);
    assert kvs[cuts[j] - 2].key != [];
    assert Less(kvs[cuts[j] - 2].key, kvs[cuts[j] - 1].key);
  }

  lemma {:induction false} LastHolds(kvs: seq<Pair>, cuts: seq<nat>, e: IndexEntry)
    requires Finishable(kvs) && cuts == CutsOf(kvs) && LastCut(cuts) < |kvs| && e == Entries(kvs)[|cuts|]
    ensures LastKey(kvs) != [] && e.shortestKey == BumpLast(LastKey(kvs))
  {
    assert e == LastEntry(kvs, cuts);
    assert kvs[|kvs| - 1].key != [];
  }

  lemma {:induction false} IndexKeysHold(kvs: seq<Pair>)
    requires Finishable(kvs) && Sorted(kvs)
    ensures IndexKeys(kvs, CutsOf(kvs), FinalCuts(kvs), IndexKeysOf(Entries(kvs)))
  {
    var cuts, es := CutsOf(kvs), Entries(kvs);
    var ss := IndexKeysOf(es);
    hide Entries;
    hide SeparatorAt;
    forall j | 0 <= j < |cuts| ensures SeparatorAt(kvs, cuts, j, ss[j]) {
      SeparatorHolds(kvs, cuts, j, es[j]);
    }
    assert FinalCuts(kvs)[..|cuts|] == cuts;
    if LastCut(cuts) < |kvs| {
      LastHolds(kvs, cuts, es[|cuts|]);
    }
  }

  /** The key of an index entry: the separator of the last two keys of a flushed block; for the block that was
      left, its last key with the last byte plus one on a char. */
  lemma {:induction false} IndexKeyBytes(kvs: seq<Pair>, cuts: seq<nat>, j: nat, s: Bytes)
    requires Finishable(kvs) && cuts == CutsOf(kvs) && j < |Entries(kvs)| && s == Entries(kvs)[j].shortestKey
    ensures j < |cuts| ==> 2 <= cuts[j] <= |kvs| && IsSeparator(kvs[cuts[j] - 2].key, kvs[cuts[j] - 1].key, s)
    ensures j >= |cuts| ==>
              var last := LastKey(kvs);
              && last != [] && |s| == |last| && s[..|s| - 1] == last[..|s| - 1]
              && s[|s| - 1] == (last[|s| - 1] as int + 1) % 256
  {
    if j < |cuts| {
      FlushedKey(kvs, cuts, j, Entries(kvs)[j]);
      SeparatorBytes(kvs[cuts[j] - 2].key, kvs[cuts[j] - 1].key);
    } else {
      LastHolds(kvs, cuts, Entries(kvs)[j]);
    }
  }

  lemma {:induction false} KeyOrder(kvs: seq<Pair>, i: nat, j: nat)
    requires Sorted(kvs) && i <= j < |kvs|
    ensures LessEq(kvs[i].key, kvs[j].key)
    ensures i < j ==> Less(kvs[i].key, kvs[j].key)
  {
    assert i < j ==> Less(kvs[i].key, kvs[j].key);
  }

  // ---------- one key and one separator, on bytes ----------

  /** A key of a later block that sorts below the separator of block `j`. */
  predicate FallsShort(kvs: seq<Pair>, cuts: seq<nat>, j: nat, key: Bytes) {
    Extends(Before(kvs, cuts, j), Trigger(kvs, cuts, j)) && Undercuts(Before(kvs, cuts, j), key)
  }

  /** Record `i` of block `j` sorts below the separator of its own block. */
  predicate BelowOwn(kvs: seq<Pair>, cuts: seq<nat>, j: nat, i: nat)
    requires i < |kvs|
  {
    var key := kvs[i].key;
    if Triggers(cuts, j, i) then FallsShort(kvs, cuts, j, key)
    else if j < |cuts| then
      WrapsAround(Before(kvs, cuts, j), Trigger(kvs, cuts, j))
      ==> LessEq(key, BeforeBump(Before(kvs, cuts, j), Trigger(kvs, cuts, j)))
    else LastWraps(kvs) ==> LessEq(key, LastKey(kvs)[..|LastKey(kvs)| - 1])
  }

  predicate LastWraps(kvs: seq<Pair>) {
    LastKey(kvs) != [] && LastKey(kvs)[|LastKey(kvs)| - 1] == 0xFF
  }

  lemma {:induction false} LaterKey(kvs: seq<Pair>, cuts: seq<nat>, j: nat, s: Bytes, i: nat)
    requires Sorted(kvs) && SeparatorAt(kvs, cuts, j, s) && cuts[j] - 1 <= i < |kvs|
    ensures Less(kvs[i].key, s) <==> FallsShort(kvs, cuts, j, kvs[i].key)
  {
    KeyOrder(kvs, cuts[j] - 1, i);
    BelowExact(Before(kvs, cuts, j), Trigger(kvs, cuts, j), kvs[i].key);
  }

  /** A key up to the one before the trigger. */
  lemma {:induction false} OwnKey(a: Bytes, b: Bytes, key: Bytes)
    requires a != [] && Less(a, b) && LessEq(key, a)
    ensures Less(key, SeparatorOf(a, b)) <==> (WrapsAround(a, b) ==> LessEq(key, BeforeBump(a, b)))
  {
    AboveExact(a, b);
    if WrapsAround(a, b) {
      WrappedSeparator(a, b);
      NulAppended(key, BeforeBump(a, b));
    } else {
      LessEqLess(key, a, SeparatorOf(a, b));
    }
  }

  lemma {:induction false} OwnLast(last: Bytes, key: Bytes)
    requires last != [] && LessEq(key, last)
    ensures Less(key, BumpLast(last)) <==> (last[|last| - 1] == 0xFF ==> LessEq(key, last[..|last| - 1]))
  {
    BumpLastExact(last);
    if last[|last| - 1] == 0xFF {
      WrappedLast(last);
      NulAppended(key, last[..|last| - 1]);
    } else {
      LessEqLess(key, last, BumpLast(last));
    }
  }

  lemma {:induction false} BelowOwnExact(kvs: seq<Pair>, cuts: seq<nat>, final: seq<nat>, ss: seq<Bytes>, j: nat,
                                         i: nat)
    requires Sorted(kvs) && IndexKeys(kvs, cuts, final, ss) && InBlock(final, j, i) && i < |kvs|
    ensures Less(kvs[i].key, ss[j]) <==> BelowOwn(kvs, cuts, j, i)
  {
    if j < |cuts| {
      assert SeparatorAt(kvs, cuts, j, ss[j]);
      if Triggers(cuts, j, i) {
        LaterKey(kvs, cuts, j, ss[j], i);
      } else {
        KeyOrder(kvs, i, cuts[j] - 2);
        OwnKey(Before(kvs, cuts, j), Trigger(kvs, cuts, j), kvs[i].key);
      }
    } else {
      KeyOrder(kvs, i, |kvs| - 1);
      OwnLast(LastKey(kvs), kvs[i].key);
    }
  }

  lemma {:induction false} FallsShortExact(kvs: seq<Pair>, cuts: seq<nat>, final: seq<nat>, ss: seq<Bytes>,
                                           j: nat, k: nat, i: nat)
    requires Sorted(kvs) && IndexKeys(kvs, cuts, final, ss) && InBlock(final, k, i) && i < |kvs| && j < k
    ensures j < |cuts| && (Less(kvs[i].key, ss[j]) <==> FallsShort(kvs, cuts, j, kvs[i].key))
  {
    CutsInOrder(final, |kvs|, j, k);
    assert SeparatorAt(kvs, cuts, j, ss[j]);
    LaterKey(kvs, cuts, j, ss[j], i);
  }

  // ---------- the search ----------

  lemma {:induction false} SearchIs(es: seq<IndexEntry>, ss: seq<Bytes>, key: Bytes, k: int)
    requires ss == IndexKeysOf(es) && -1 <= k < |es|
    ensures BlockFor(es, key) == k
            <==> && (k >= 0 ==> Less(key, ss[k]))
                 && forall j :: 0 <= j < (if k == -1 then |es| else k) ==> !Less(key, ss[j])
  {
    BlockForIs(es, key, 0, k);
    assert k >= 0 ==> ss[k] == es[k].shortestKey;
    assert forall j :: 0 <= j < |es| ==> ss[j] == es[j].shortestKey;
  }

  lemma {:induction false} FindsIn(kvs: seq<Pair>, es: seq<IndexEntry>, cuts: seq<nat>, final: seq<nat>, k: nat, i: nat)
    requires Sorted(kvs) && IndexKeys(kvs, cuts, final, IndexKeysOf(es)) && InBlock(final, k, i) && i < |kvs|
    ensures BlockFor(es, kvs[i].key) == k
            <==> BelowOwn(kvs, cuts, k, i) && forall j :: 0 <= j < k ==> !FallsShort(kvs, cuts, j, kvs[i].key)
  {
    var ss := IndexKeysOf(es);
    SearchIs(es, ss, kvs[i].key, k);
    BelowOwnExact(kvs, cuts, final, ss, k, i);
    forall j | 0 <= j < k ensures Less(kvs[i].key, ss[j]) <==> FallsShort(kvs, cuts, j, kvs[i].key) {
      FallsShortExact(kvs, cuts, final, ss, j, k, i);
    }
  }

  /** For every record of a table the search finds its block if and only if its key sorts below the
      separator of its own block and above all earlier ones, which is decided on the bytes of the keys
      at the boundaries. */
  lemma {:induction false} FindsBlock(kvs: seq<Pair>, k: nat, i: nat)
    requires Finishable(kvs) && Sorted(kvs) && InBlock(FinalCuts(kvs), k, i) && i < |kvs|
    ensures BlockFor(Entries(kvs), kvs[i].key) == k
            <==> && BelowOwn(kvs, CutsOf(kvs), k, i)
                 && forall j :: 0 <= j < k ==> !FallsShort(kvs, CutsOf(kvs), j, kvs[i].key)
  {
    IndexKeysHold(kvs);
    FindsIn(kvs, Entries(kvs), CutsOf(kvs), FinalCuts(kvs), k, i);
  }

  // ---------- all keys of a table ----------

  /** No bump wraps around where a block holds a key besides the one that flushed it, no such key follows an
      earlier prefix with a control character, and the last key can be bumped. */
  ghost predicate Searchable(kvs: seq<Pair>, cuts: seq<nat>, final: seq<nat>) {
    && (forall j :: 0 <= j < |cuts| && Start(cuts, j) + 2 <= cuts[j] ==>
          !WrapsAround(Before(kvs, cuts, j), Trigger(kvs, cuts, j)))
    && (forall j: nat, k: nat, i: nat :: j < k && InBlock(final, k, i) && i < |kvs| && !Triggers(cuts, k, i) ==>
          !FallsShort(kvs, cuts, j, kvs[i].key))
    && (|final| == |cuts| + 1 ==> !LastWraps(kvs))
  }

  ghost predicate AllFound(kvs: seq<Pair>, es: seq<IndexEntry>, cuts: seq<nat>, final: seq<nat>) {
    forall k: nat, i: nat :: InBlock(final, k, i) && i < |kvs| && !Triggers(cuts, k, i) ==>
        BlockFor(es, kvs[i].key) == k
  }

  lemma {:induction false} SearchableIsFound(kvs: seq<Pair>, es: seq<IndexEntry>, cuts: seq<nat>, final: seq<nat>,
                                             k: nat, i: nat)
    requires Sorted(kvs) && IndexKeys(kvs, cuts, final, IndexKeysOf(es)) && Searchable(kvs, cuts, final)
    requires InBlock(final, k, i) && i < |kvs| && !Triggers(cuts, k, i)
    ensures BlockFor(es, kvs[i].key) == k
  {
    FindsIn(kvs, es, cuts, final, k, i);
    assert k < |cuts| ==> Start(cuts, k) == Start(final, k) && cuts[k] == final[k];
  }

  lemma {:induction false} FoundIsSearchable(kvs: seq<Pair>, es: seq<IndexEntry>, cuts: seq<nat>, final: seq<nat>)
    requires Sorted(kvs) && IndexKeys(kvs, cuts, final, IndexKeysOf(es)) && AllFound(kvs, es, cuts, final)
    ensures Searchable(kvs, cuts, final)
  {
    forall j | 0 <= j < |cuts| && Start(cuts, j) + 2 <= cuts[j]
      ensures !WrapsAround(Before(kvs, cuts, j), Trigger(kvs, cuts, j))
    {
      BeforeIsFound(kvs, es, cuts, final, j);
    }
    forall j: nat, k: nat, i: nat | j < k && InBlock(final, k, i) && i < |kvs| && !Triggers(cuts, k, i)
      ensures !FallsShort(kvs, cuts, j, kvs[i].key)
    {
      FindsIn(kvs, es, cuts, final, k, i);
    }
    if |final| == |cuts| + 1 {
      LastIsFound(kvs, es, cuts, final);
    }
  }

  lemma {:induction false} BeforeIsFound(kvs: seq<Pair>, es: seq<IndexEntry>, cuts: seq<nat>, final: seq<nat>, j: nat)
    requires Sorted(kvs) && IndexKeys(kvs, cuts, final, IndexKeysOf(es)) && AllFound(kvs, es, cuts, final)
    requires j < |cuts| && Start(cuts, j) + 2 <= cuts[j]
    ensures !WrapsAround(Before(kvs, cuts, j), Trigger(kvs, cuts, j))
  {
    var a, b, i := Before(kvs, cuts, j), Trigger(kvs, cuts, j), cuts[j] - 2;
    assert SeparatorAt(kvs, cuts, j, IndexKeysOf(es)[j]);
    assert Start(final, j) == Start(cuts, j) && InBlock(final, j, i);
    FindsIn(kvs, es, cuts, final, j, i);
    if WrapsAround(a, b) {
      WrappedSeparator(a, b);
      PrefixBelow(a, |BeforeBump(a, b)|);
    }
  }

  lemma {:induction false} LastIsFound(kvs: seq<Pair>, es: seq<IndexEntry>, cuts: seq<nat>, final: seq<nat>)
    requires Sorted(kvs) && IndexKeys(kvs, cuts, final, IndexKeysOf(es)) && AllFound(kvs, es, cuts, final)
    requires |final| == |cuts| + 1
    ensures !LastWraps(kvs)
  {
    var k, i := |cuts|, |kvs| - 1;
    assert Start(final, k) < final[k] == |kvs|;
    assert InBlock(final, k, i);
    FindsIn(kvs, es, cuts, final, k, i);
    PrefixBelow(LastKey(kvs), |LastKey(kvs)| - 1);
  }

  /** The search finds every key that flushed no block if and only if the keys at the boundaries are
      searchable. */
  lemma {:induction false} FindsAllBlocks(kvs: seq<Pair>)
    requires Finishable(kvs) && Sorted(kvs)
    ensures AllFound(kvs, Entries(kvs), CutsOf(kvs), FinalCuts(kvs)) <==> Searchable(kvs, CutsOf(kvs), FinalCuts(kvs))
  {
    var es, cuts, final := Entries(kvs), CutsOf(kvs), FinalCuts(kvs);
    IndexKeysHold(kvs);
    if AllFound(kvs, es, cuts, final) {
      FoundIsSearchable(kvs, es, cuts, final);
    } else if Searchable(kvs, cuts, final) {
      forall k: nat, i: nat | InBlock(final, k, i) && i < |kvs| && !Triggers(cuts, k, i)
        ensures BlockFor(es, kvs[i].key) == k
      {
        SearchableIsFound(kvs, es, cuts, final, k, i);
      }
    }
  }

  // ---------- the order of the index ----------

  /** The separator after `s`, of `c` and `d`, is above `s`. */
  predicate AscendsTo(a: Bytes, b: Bytes, c: Bytes, d: Bytes) {
    if WrapsAround(c, d) then LessEq(SeparatorOf(a, b), BeforeBump(c, d))
    else Extends(a, b) && Undercuts(a, c) ==> |BeforeBump(c, d)| < |a|
  }

  predicate AscendsToLast(a: Bytes, b: Bytes, last: Bytes)
    requires last != []
  {
    if last[|last| - 1] == 0xFF then LessEq(SeparatorOf(a, b), last[..|last| - 1])
    else !(Extends(a, b) && Undercuts(a, last))
  }

  /** A bumped key that keeps `a` and the control character after it stays at or below `a + " "`. */
  lemma {:induction false} StaysBelow(a: Bytes, c: Bytes, n: nat, s: Bytes)
    requires Undercuts(a, c) && |a| <= n <= |c|
    requires (n == |c| && s == c + [SPACE]) || (n < |c| && c[n] != 0xFF && s == BumpLast(c[..n + 1]))
    ensures !Less(a + [SPACE], s)
  {
    var m := |a|;
    assert c[..m] == a;
    if n < |c| {
      assert c[..n + 1] == c[..n] + [c[n]];
    }
    assert s[..m] == c[..m];
    if s[m] < SPACE {
      assert Decides(a, s, m);
      DecidedLess(a, s, m);
      PrefixCase(a, s);
      LessTrichotomy(s, a + [SPACE]);
    } else {
      assert s == s[..m] + [s[m]];
      LessIrreflexive(s);
    }
  }

  /** A key bumped within `a` rises above everything that starts with `a`. */
  lemma {:induction false} RisesAbove(a: Bytes, c: Bytes, n: nat)
    requires Undercuts(a, c) && n < |a| && c[n] != 0xFF
    ensures Less(a + [SPACE], BumpLast(c[..n + 1]))
  {
    var s, t := BumpLast(c[..n + 1]), a + [SPACE];
    assert c[n] == c[..|a|][n] == a[n];
    assert c[..n] == c[..|a|][..n] == a[..n] == t[..n];
    assert c[..n + 1] == c[..n] + [c[n]];
    assert s[..n] == c[..n];
    assert Decides(t, s, n);
    DecidedLess(t, s, n);
  }

  lemma {:induction false} NextSeparator(a: Bytes, b: Bytes, c: Bytes, d: Bytes)
    requires a != [] && Less(a, b) && LessEq(b, c) && Less(c, d)
    ensures Less(SeparatorOf(a, b), SeparatorOf(c, d)) <==> AscendsTo(a, b, c, d)
  {
    var s, s' := SeparatorOf(a, b), SeparatorOf(c, d);
    if WrapsAround(c, d) {
      WrappedSeparator(c, d);
      NulAppended(s, BeforeBump(c, d));
    } else {
      AboveExact(c, d);
      BelowExact(a, b, c);
      if Extends(a, b) && Undercuts(a, c) {
        var n := |BeforeBump(c, d)|;
        if n < |a| {
          RisesAbove(a, c, n);
        } else {
          StaysBelow(a, c, n, s');
        }
      } else {
        LessTrichotomy(s, c);
        LessEqLess(s, c, s');
      }
    }
  }

  lemma {:induction false} NextLast(a: Bytes, b: Bytes, last: Bytes)
    requires a != [] && Less(a, b) && LessEq(b, last) && last != []
    ensures Less(SeparatorOf(a, b), BumpLast(last)) <==> AscendsToLast(a, b, last)
  {
    var s, s' := SeparatorOf(a, b), BumpLast(last);
    if last[|last| - 1] == 0xFF {
      WrappedLast(last);
      NulAppended(s, last[..|last| - 1]);
    } else {
      BumpLastExact(last);
      BelowExact(a, b, last);
      if Extends(a, b) && Undercuts(a, last) {
        assert last[..|last|] == last;
        StaysBelow(a, last, |last| - 1, s');
      } else {
        LessTrichotomy(s, last);
        LessEqLess(s, last, s');
      }
    }
  }

  /** The index key after that of block `j` is above it. */
  predicate Ascends(kvs: seq<Pair>, cuts: seq<nat>, j: nat)
    requires LastKey(kvs) != []
  {
    if j + 1 < |cuts| then
      AscendsTo(Before(kvs, cuts, j), Trigger(kvs, cuts, j), Before(kvs, cuts, j + 1), Trigger(kvs, cuts, j + 1))
    else AscendsToLast(Before(kvs, cuts, j), Trigger(kvs, cuts, j), LastKey(kvs))
  }

  lemma {:induction false} AscendsExact(kvs: seq<Pair>, cuts: seq<nat>, final: seq<nat>, ss: seq<Bytes>, j: nat)
    requires Sorted(kvs) && IndexKeys(kvs, cuts, final, ss) && j + 1 < |ss|
    ensures LastKey(kvs) != [] && (Less(ss[j], ss[j + 1]) <==> Ascends(kvs, cuts, j))
  {
    assert SeparatorAt(kvs, cuts, j, ss[j]);
    var a, b := Before(kvs, cuts, j), Trigger(kvs, cuts, j);
    KeyOrder(kvs, cuts[j] - 1, |kvs| - 1);
    LessLessEq(a, b, LastKey(kvs));
    if j + 1 < |cuts| {
      assert SeparatorAt(kvs, cuts, j + 1, ss[j + 1]);
      assert Start(final, j + 1) < final[j + 1];
      KeyOrder(kvs, cuts[j] - 1, cuts[j + 1] - 2);
      NextSeparator(a, b, Before(kvs, cuts, j + 1), Trigger(kvs, cuts, j + 1));
    } else {
      NextLast(a, b, LastKey(kvs));
    }
  }

  ghost predicate Ascending(ss: seq<Bytes>) {
    forall i, j {:trigger Less(ss[i], ss[j])} :: 0 <= i < j < |ss| ==> Less(ss[i], ss[j])
  }

  lemma {:induction false} AscendingStepwise(ss: seq<Bytes>, i: nat, j: nat)
    requires forall k {:trigger ss[k]} :: 0 <= k < |ss| - 1 ==> Less(ss[k], ss[k + 1])
    requires i < j < |ss|
    ensures Less(ss[i], ss[j])
  {
    assert Less(ss[j - 1], ss[j - 1 + 1]);
    if i < j - 1 {
      AscendingStepwise(ss, i, j - 1);
      LessTransitive(ss[i], ss[j - 1], ss[j]);
    }
  }

  lemma {:induction false} AscendingExact(kvs: seq<Pair>, cuts: seq<nat>, final: seq<nat>, ss: seq<Bytes>)
    requires Sorted(kvs) && IndexKeys(kvs, cuts, final, ss) && LastKey(kvs) != []
    ensures Ascending(ss) <==> forall j :: 0 <= j < |ss| - 1 ==> Ascends(kvs, cuts, j)
  {
    forall j {:trigger ss[j]} | 0 <= j < |ss| - 1 ensures Less(ss[j], ss[j + 1]) <==> Ascends(kvs, cuts, j) {
      AscendsExact(kvs, cuts, final, ss, j);
    }
    if forall j :: 0 <= j < |ss| - 1 ==> Ascends(kvs, cuts, j) {
      forall i, j | 0 <= i < j < |ss| ensures Less(ss[i], ss[j]) {
        AscendingStepwise(ss, i, j);
      }
    } else {
      var j :| 0 <= j < |ss| - 1 && !Ascends(kvs, cuts, j);
      AscendsExact(kvs, cuts, final, ss, j);
    }
  }

  /** The index keys ascend strictly if and only if each is below the next, which is decided on the keys
      at the two boundaries. */
  lemma {:induction false} SeparatorsAscend(kvs: seq<Pair>)
    requires Finishable(kvs) && Sorted(kvs) && kvs != []
    ensures LastKey(kvs) != []
    ensures Ascending(IndexKeysOf(Entries(kvs)))
            <==> forall j :: 0 <= j < |FinalCuts(kvs)| - 1 ==> Ascends(kvs, CutsOf(kvs), j)
  {
    assert kvs[|kvs| - 1].key != [];
    IndexKeysHold(kvs);
    AscendingExact(kvs, CutsOf(kvs), FinalCuts(kvs), IndexKeysOf(Entries(kvs)));
  }

  // ---------- plain keys ----------

  /** Bytes 0x20 to 0xFE only. */
  ghost predicate PlainKeys(kvs: seq<Pair>) {
    forall i :: 0 <= i < |kvs| ==> Plain(kvs[i].key)
  }

  predicate Plain(key: Bytes) {
    forall p :: 0 <= p < |key| ==> 0x20 <= key[p] <= 0xFE
  }

  lemma PlainNeverFails(a: Bytes, b: Bytes, key: Bytes)
    requires Plain(a) && Plain(key)
    ensures !WrapsAround(a, b) && !Undercuts(a, key)
  {
  }

  /** With plain keys the index keys ascend, the search finds every key that flushed no block, and a key
      that flushed one is taken to be in the next block, or in none. */
  lemma {:induction false} PlainKeysSuffice(kvs: seq<Pair>, k: nat, i: nat)
    requires Finishable(kvs) && Sorted(kvs) && PlainKeys(kvs) && InBlock(FinalCuts(kvs), k, i) && i < |kvs|
    ensures Ascending(IndexKeysOf(Entries(kvs)))
    ensures BlockFor(Entries(kvs), kvs[i].key)
            == if !Triggers(CutsOf(kvs), k, i) then k else if k + 1 < |FinalCuts(kvs)| then k + 1 else -1
  {
    var es, cuts, final := Entries(kvs), CutsOf(kvs), FinalCuts(kvs);
    var ss := IndexKeysOf(es);
    IndexKeysHold(kvs);
    PlainIndex(kvs, cuts, final, ss);
    SeparatorsAscend(kvs);
    PlainSearch(kvs, es, cuts, final, ss, k, i);
  }

  lemma {:induction false} PlainIndex(kvs: seq<Pair>, cuts: seq<nat>, final: seq<nat>, ss: seq<Bytes>)
    requires PlainKeys(kvs) && IndexKeys(kvs, cuts, final, ss) && kvs != [] && LastKey(kvs) != []
    ensures !LastWraps(kvs)
    ensures forall j: nat :: !WrapsAround(Before(kvs, cuts, j), Trigger(kvs, cuts, j))
    ensures forall j: nat, i: nat :: i < |kvs| ==> !FallsShort(kvs, cuts, j, kvs[i].key)
    ensures forall j :: 0 <= j < |final| - 1 ==> Ascends(kvs, cuts, j)
  {
    forall j: nat ensures Plain(Before(kvs, cuts, j)) && Plain(Trigger(kvs, cuts, j)) {
    }
    assert Plain(LastKey(kvs));
    forall j: nat ensures !WrapsAround(Before(kvs, cuts, j), Trigger(kvs, cuts, j)) {
      PlainNeverFails(Before(kvs, cuts, j), Trigger(kvs, cuts, j), []);
    }
    forall j: nat, i: nat | i < |kvs| ensures !FallsShort(kvs, cuts, j, kvs[i].key) {
      PlainNeverFails(Before(kvs, cuts, j), [], kvs[i].key);
    }
    forall j | 0 <= j < |final| - 1 ensures Ascends(kvs, cuts, j) {
      PlainNeverFails(Before(kvs, cuts, j), [], Before(kvs, cuts, j + 1));
      PlainNeverFails(Before(kvs, cuts, j), [], LastKey(kvs));
    }
  }

  lemma {:induction false} PlainSearch(kvs: seq<Pair>, es: seq<IndexEntry>, cuts: seq<nat>, final: seq<nat>,
                                       ss: seq<Bytes>, k: nat, i: nat)
    requires Sorted(kvs) && ss == IndexKeysOf(es) && IndexKeys(kvs, cuts, final, ss) && InBlock(final, k, i)
             && i < |kvs|
    requires !LastWraps(kvs)
    requires forall j: nat :: !WrapsAround(Before(kvs, cuts, j), Trigger(kvs, cuts, j))
    requires forall j: nat :: !FallsShort(kvs, cuts, j, kvs[i].key)
    ensures BlockFor(es, kvs[i].key) == if !Triggers(cuts, k, i) then k else if k + 1 < |final| then k + 1 else -1
  {
    if Triggers(cuts, k, i) {
      var next := if k + 1 < |final| then k + 1 else -1;
      forall j | 0 <= j <= k ensures !Less(kvs[i].key, ss[j]) {
        if j < k {
          FallsShortExact(kvs, cuts, final, ss, j, k, i);
        } else {
          BelowOwnExact(kvs, cuts, final, ss, k, i);
        }
      }
      if k + 1 < |final| {
        BelowNext(kvs, cuts, final, ss, k, i);
      }
      SearchIs(es, ss, kvs[i].key, next);
    } else {
      FindsIn(kvs, es, cuts, final, k, i);
    }
  }

  lemma {:induction false} BelowNext(kvs: seq<Pair>, cuts: seq<nat>, final: seq<nat>, ss: seq<Bytes>, k: nat, i: nat)
    requires Sorted(kvs) && IndexKeys(kvs, cuts, final, ss) && k + 1 < |final| && Triggers(cuts, k, i) && i < |kvs|
    requires !LastWraps(kvs) && !WrapsAround(Before(kvs, cuts, k + 1), Trigger(kvs, cuts, k + 1))
    ensures Less(kvs[i].key, ss[k + 1])
  {
    assert Start(final, k + 1) < final[k + 1];
    if k + 1 < |cuts| {
      assert SeparatorAt(kvs, cuts, k + 1, ss[k + 1]);
      KeyOrder(kvs, i, cuts[k + 1] - 2);
      OwnKey(Before(kvs, cuts, k + 1), Trigger(kvs, cuts, k + 1), kvs[i].key);
    } else {
      KeyOrder(kvs, i, |kvs| - 1);
      OwnLast(LastKey(kvs), kvs[i].key);
    }
  }

  // ---------- tables that fail ----------

  lemma {:induction false} CutAtSecond(kvs: seq<Pair>, x: Pair, y: Pair)
    requires LastCut(CutsOf(kvs)) == |kvs|
    requires 12 + |x.key| + |x.value| <= MAX_DATA_BLOCK_SIZE && |y.value| == MAX_DATA_BLOCK_SIZE
    ensures CutsOf(kvs + [x]) == CutsOf(kvs) && CutsOf(kvs + [x, y]) == CutsOf(kvs) + [|kvs| + 2]
  {
    CutsOfAdd(kvs, x);
    assert kvs[|kvs|..] == [] && [] + [x] == [x];
    assert EncodeRange([x], 0, 1) == EncodeRecord(0, x) + EncodeRange([x], 1, 1);
    CutsOfAdd(kvs + [x], y);
    assert (kvs + [x])[|kvs|..] == [x] && [x] + [y] == [x, y];
    assert kvs + [x] + [y] == kvs + [x, y];
    assert EncodeRange([x, y], 1, 2) == EncodeRecord(Shared([x, y], 1), y) + EncodeRange([x, y], 2, 2);
    assert EncodeRange([x, y], 0, 2) == EncodeRecord(0, x) + EncodeRange([x, y], 1, 2);
  }

  lemma NextCut(kvs: seq<Pair>, cuts: seq<nat>, x: Pair, y: Pair, kvs': seq<Pair>, cuts': seq<nat>)
    requires cuts == CutsOf(kvs) && LastCut(cuts) == |kvs|
    requires 12 + |x.key| + |x.value| <= MAX_DATA_BLOCK_SIZE && |y.value| == MAX_DATA_BLOCK_SIZE
    requires kvs' == kvs + [x, y] && cuts' == cuts + [|kvs'|]
    ensures CutsOf(kvs') == cuts' && LastCut(cuts') == |kvs'|
  {
    hide CutsOf;
    CutAtSecond(kvs, x, y);
  }

  /** A table of which every block was flushed, with a key before each trigger. */
  lemma AllFlushed(kvs: seq<Pair>, cuts: seq<nat>)
    requires cuts == CutsOf(kvs) && LastCut(cuts) == |kvs| && Separable(cuts) && KeysNotEmpty(kvs)
    ensures FinalCuts(kvs) == cuts && Finishable(kvs)
  {
  }

  lemma TwoRecords(x: Pair, y: Pair, kvs: seq<Pair>)
    requires kvs == [x, y] && x.key != [] && y.key != [] && Less(x.key, y.key)
    requires 12 + |x.key| + |x.value| <= MAX_DATA_BLOCK_SIZE && |y.value| == MAX_DATA_BLOCK_SIZE
    ensures CutsOf(kvs) == FinalCuts(kvs) == [2] && Finishable(kvs) && Sorted(kvs)
    ensures InBlock([2], 0, 0) && InBlock([2], 0, 1) && !Triggers([2], 0, 0) && Triggers([2], 0, 1)
    ensures Before(kvs, [2], 0) == x.key && Trigger(kvs, [2], 0) == y.key
  {
    assert CutsOf([]) == [];
    hide CutsOf, FinalCuts;
    NextCut([], [], x, y, kvs, [2]);
    AllFlushed(kvs, [2]);
  }

  lemma FourRecords(x: Pair, y: Pair, z: Pair, w: Pair, kvs: seq<Pair>)
    requires kvs == [x, y, z, w] && x.key != [] && Less(x.key, y.key) && Less(y.key, z.key) && Less(z.key, w.key)
    requires 12 + |x.key| + |x.value| <= MAX_DATA_BLOCK_SIZE && |y.value| == MAX_DATA_BLOCK_SIZE
    requires 12 + |z.key| + |z.value| <= MAX_DATA_BLOCK_SIZE && |w.value| == MAX_DATA_BLOCK_SIZE
    ensures CutsOf(kvs) == FinalCuts(kvs) == [2, 4] && Finishable(kvs) && Sorted(kvs)
    ensures Before(kvs, [2, 4], 0) == x.key && Trigger(kvs, [2, 4], 0) == y.key
    ensures Before(kvs, [2, 4], 1) == z.key && Trigger(kvs, [2, 4], 1) == w.key
  {
    hide CutsOf, FinalCuts, Finishable;
    TwoRecords(x, y, [x, y]);
    NextCut([x, y], [2], z, w, kvs, [2, 4]);
    FourSorted(kvs);
    AllFlushed(kvs, [2, 4]);
  }

  /** A key that flushed no block and is not found: the separator is cut to "a" and a NUL. */
  lemma SearchMisses(v: Bytes)
    requires |v| == MAX_DATA_BLOCK_SIZE
    ensures var kvs := [Pair([0x61, 0xFF, 0x63], []), Pair([0x62, 0x62, 0x63], v)];
            && Finishable(kvs) && Sorted(kvs) && !Triggers(CutsOf(kvs), 0, 0) && InBlock(FinalCuts(kvs), 0, 0)
            && IndexKeysOf(Entries(kvs)) == [[0x61, 0x00]] && BlockFor(Entries(kvs), kvs[0].key) == -1
  {
    var x, y := Pair([0x61, 0xFF, 0x63], []), Pair([0x62, 0x62, 0x63], v);
    var kvs := [x, y];
    BumpFails();
    TwoRecords(x, y, kvs);
    hide CutsOf, FinalCuts, Entries;
    IndexKeysHold(kvs);
    assert SeparatorAt(kvs, CutsOf(kvs), 0, IndexKeysOf(Entries(kvs))[0]);
    FindsBlock(kvs, 0, 0);
    WrappedSeparator(x.key, y.key);
    PrefixBelow(x.key, |BeforeBump(x.key, y.key)|);
  }

  /** A separator above the key after it does no harm by itself: here even the key that flushed the
      block is found in it. */
  lemma SearchSurvives(v: Bytes)
    requires |v| == MAX_DATA_BLOCK_SIZE
    ensures var kvs := [Pair([0x61], []), Pair([0x61, 0x01], v)];
            && Finishable(kvs) && Sorted(kvs) && !Separates(kvs[0].key, kvs[1].key)
            && CutsOf(kvs) == FinalCuts(kvs) == [2]
            && BlockFor(Entries(kvs), kvs[0].key) == BlockFor(Entries(kvs), kvs[1].key) == 0
  {
    var x, y := Pair([0x61], []), Pair([0x61, 0x01], v);
    PrefixFails();
    TwoRecords(x, y, [x, y]);
    FindsBlock([x, y], 0, 0);
    FindsBlock([x, y], 0, 1);
  }

  /** Index keys that descend: "a ", then "a" and 0x03. */
  lemma IndexDescends(v: Bytes)
    requires |v| == MAX_DATA_BLOCK_SIZE
    ensures var kvs := [Pair([0x61], []), Pair([0x61, 0x01], v), Pair([0x61, 0x02], []), Pair([0x61, 0x03], v)];
            && Finishable(kvs) && Sorted(kvs) && CutsOf(kvs) == FinalCuts(kvs) == [2, 4]
            && !Ascending(IndexKeysOf(Entries(kvs)))
  {
    var x, y, z, w := Pair([0x61], []), Pair([0x61, 0x01], v), Pair([0x61, 0x02], []), Pair([0x61, 0x03], v);
    var kvs := [x, y, z, w];
    PrefixFails();
    LessByLast(y.key, z.key);
    LessByLast(z.key, w.key);
    FourRecords(x, y, z, w, kvs);
    CountOne(z.key, w.key);
    SeparatorsAscend(kvs);
    assert z.key[..1] == [0x61];
    assert !Ascends(kvs, [2, 4], 0);
  }

  lemma LessByLast(a: Bytes, b: Bytes)
    requires |a| == |b| == 2 && a[0] == b[0] && a[1] < b[1]
    ensures Less(a, b)
  {
    assert a[..1] == b[..1];
    assert Decides(a, b, 1);
    DecidedLess(a, b, 1);
  }

  lemma CountOne(a: Bytes, b: Bytes)
    requires |a| == |b| == 2 && a[0] == b[0] && a[1] < b[1] < 0xFF
    ensures EqualPositions(a, b, 2) == 1 && !WrapsAround(a, b) && |BeforeBump(a, b)| == 1
  {
    assert EqualPositions(a, b, 1) == 1;
  }

  lemma FourSorted(kvs: seq<Pair>)
    requires |kvs| == 4 && Less(kvs[0].key, kvs[1].key) && Less(kvs[1].key, kvs[2].key) && Less(kvs[2].key, kvs[3].key)
    ensures Sorted(kvs)
  {
    LessTransitive(kvs[0].key, kvs[1].key, kvs[2].key);
    LessTransitive(kvs[0].key, kvs[2].key, kvs[3].key);
    LessTransitive(kvs[1].key, kvs[2].key, kvs[3].key);
  }
}
