/** Strictly key-sorted sequences of pairs: the value a skip list stands for, with the
    list-level effect of insertion and deletion and its meaning as a map. */
module SortedPairs {
  import opened ByteStrings
  import opened Levels

  ghost predicate Sorted(ps: seq<Pair>) {
    forall i, j {:trigger Less(ps[i].key, ps[j].key)} :: 0 <= i < j < |ps| ==> Less(ps[i].key, ps[j].key)
  }

  ghost predicate HasKey(ps: seq<Pair>, k: Bytes) {
    exists i :: 0 <= i < |ps| && ps[i].key == k
  }

  /** The map from keys to values. */
  ghost function ToMap(ps: seq<Pair>): map<Bytes, Bytes> {
    if ps == [] then map[] else
      var n := |ps| - 1;
      ToMap(ps[..n])[ps[n].key := ps[n].value]
  }

  /** `m` holds exactly the pairs of `ps`. */
  ghost predicate IsMapOf(ps: seq<Pair>, m: map<Bytes, Bytes>) {
    && (forall i :: 0 <= i < |ps| ==> ps[i].key in m && m[ps[i].key] == ps[i].value)
    && (forall k :: k in m ==> HasKey(ps, k))
  }

  /** Bytes of keys and values together. */
  ghost function Usage(ps: seq<Pair>): nat {
    if ps == [] then 0 else
      var n := |ps| - 1;
      Usage(ps[..n]) + |ps[n].key| + |ps[n].value|
  }

  ghost function AllBytes(ps: seq<Pair>): Bytes {
    if ps == [] then [] else ps[0].key + ps[0].value + AllBytes(ps[1..])
  }

  /** The usage is the number of bytes of all keys and values. */
  lemma {:induction false} UsageIs(ps: seq<Pair>)
    ensures Usage(ps) == |AllBytes(ps)|
  {
    if |ps| > 0 {
      UsageIs(ps[1..]);
      UsageFirst(ps);
    }
  }

  lemma {:induction false} UsageFirst(ps: seq<Pair>)
    requires ps != []
    ensures Usage(ps) == |ps[0].key| + |ps[0].value| + Usage(ps[1..])
  {
    var n := |ps| - 1;
    if n > 0 {
      UsageFirst(ps[..n]);
      assert ps[..n][1..] == ps[1..][..n - 1];
    }
  }

  /** How many keys are smaller than `k`. */
  ghost function Rank(ps: seq<Pair>, k: Bytes): (r: nat)
    ensures r <= |ps|
    ensures forall i :: 0 <= i < r ==> Less(ps[i].key, k)
    ensures r < |ps| ==> !Less(ps[r].key, k)
  {
    if ps != [] && Less(ps[0].key, k) then
      var r := 1 + Rank(ps[1..], k);
      assert forall i :: 1 <= i < |ps| ==> ps[i] == ps[1..][i - 1];
      r
    else 0
  }

  ghost function Put(ps: seq<Pair>, k: Bytes, v: Bytes): seq<Pair> {
    if HasKey(ps, k) then ps
    else InsertAt(ps, Rank(ps, k), Pair(k, v))
  }

  ghost function Remove(ps: seq<Pair>, k: Bytes): seq<Pair> {
    if HasKey(ps, k) && Rank(ps, k) < |ps| then DropAt(ps, Rank(ps, k)) else ps
  }

  // ---------- sortedness ----------

  /** In a sorted sequence everything from the rank on is at least `k`, and `k` can only be at its rank. */
  lemma {:induction false} RankSplits(ps: seq<Pair>, k: Bytes)
    requires Sorted(ps)
    ensures forall i :: Rank(ps, k) < i < |ps| ==> Less(k, ps[i].key)
    ensures HasKey(ps, k) <==> Rank(ps, k) < |ps| && ps[Rank(ps, k)].key == k
    ensures !HasKey(ps, k) ==> forall i :: Rank(ps, k) <= i < |ps| ==> Less(k, ps[i].key)
  {
    var r := Rank(ps, k);
    if r < |ps| {
      LessTrichotomy(ps[r].key, k);
      assert LessEq(k, ps[r].key);
    }
    forall i | r < i < |ps| ensures Less(k, ps[i].key) {
      LessEqLess(k, ps[r].key, ps[i].key);
    }
    if i :| 0 <= i < |ps| && ps[i].key == k {
      LessIrreflexive(k);
      assert i == r;
    }
  }

  lemma {:induction false} PutSorted(ps: seq<Pair>, k: Bytes, v: Bytes)
    requires Sorted(ps)
    ensures Sorted(Put(ps, k, v))
  {
    RankSplits(ps, k);
  }

  lemma {:induction false} RemoveSorted(ps: seq<Pair>, k: Bytes)
    requires Sorted(ps)
    ensures Sorted(Remove(ps, k))
  {
    RankSplits(ps, k);
  }

  // ---------- the map of a sequence ----------

  lemma {:induction false} ToMapHolds(ps: seq<Pair>)
    requires Sorted(ps)
    ensures IsMapOf(ps, ToMap(ps))
  {
    if ps != [] {
      var n := |ps| - 1;
      ToMapHolds(ps[..n]);
      LessIrreflexive(ps[n].key);
      assert forall i :: 0 <= i < n ==> Less(ps[i].key, ps[n].key);
      ExtendMap(ps[..n], ToMap(ps[..n]), ps[n]);
      assert ps[..n] + [ps[n]] == ps;
    }
  }

  lemma {:induction false} ExtendMap(ps: seq<Pair>, m: map<Bytes, Bytes>, p: Pair)
    requires IsMapOf(ps, m)
    requires forall i :: 0 <= i < |ps| ==> ps[i].key != p.key
    ensures IsMapOf(ps + [p], m[p.key := p.value])
  {
    var qs := ps + [p];
    forall k | k in m[p.key := p.value] ensures HasKey(qs, k) {
      if k == p.key {
        assert qs[|ps|].key == k;
      } else {
        var i :| 0 <= i < |ps| && ps[i].key == k;
        assert qs[i].key == k;
      }
    }
  }

  lemma {:induction false} IsMapOfUnique(ps: seq<Pair>, m: map<Bytes, Bytes>)
    requires Sorted(ps) && IsMapOf(ps, m)
    ensures ToMap(ps) == m
  {
    ToMapHolds(ps);
    var m' := ToMap(ps);
    forall k | k in m || k in m' ensures k in m && k in m' && m[k] == m'[k] {
      var i :| 0 <= i < |ps| && ps[i].key == k;
      assert ps[i].key in m;
    }
    assert m.Keys == m'.Keys;
  }

  lemma {:induction false} LastIsGreatest(ps: seq<Pair>, k: Bytes)
    requires Sorted(ps) && k in ToMap(ps)
    ensures ps != [] && LessEq(k, ps[|ps| - 1].key)
  {
    ToMapHolds(ps);
    assert HasKey(ps, k);
  }

  /** Equal maps come from equal sorted sequences: iteration order carries nothing extra. */
  lemma {:induction false} SortedUnique(ps: seq<Pair>, qs: seq<Pair>)
    requires Sorted(ps) && Sorted(qs)
    requires ToMap(ps) == ToMap(qs)
    ensures ps == qs
  {
    if ps != [] && qs != [] {
      var n, m := |ps| - 1, |qs| - 1;
      LastIsGreatest(qs, ps[n].key);
      LastIsGreatest(ps, qs[m].key);
      LessTrichotomy(ps[n].key, qs[m].key);
      DropLastMap(ps);
      DropLastMap(qs);
      SortedUnique(ps[..n], qs[..m]);
      assert ps == ps[..n] + [ps[n]];
      assert qs == qs[..m] + [qs[m]];
    } else {
      EmptyMap(ps);
      EmptyMap(qs);
    }
  }

  lemma EmptyMap(ps: seq<Pair>)
    ensures ToMap(ps) == map[] <==> ps == []
  {
    assert ps != [] ==> ps[|ps| - 1].key in ToMap(ps);
  }

  lemma {:induction false} DropLastMap(ps: seq<Pair>)
    requires Sorted(ps) && ps != []
    ensures ToMap(ps[..|ps| - 1]) == ToMap(ps) - {ps[|ps| - 1].key}
    ensures ps[|ps| - 1].key !in ToMap(ps[..|ps| - 1])
  {
    var qs, k := ps[..|ps| - 1], ps[|ps| - 1].key;
    ToMapHolds(qs);
    if k in ToMap(qs) {
      var i :| 0 <= i < |qs| && qs[i].key == k;
      assert Less(ps[i].key, k);
      LessIrreflexive(k);
      assert false;
    }
  }

  lemma {:induction false} HasKeyInMap(ps: seq<Pair>, k: Bytes)
    requires Sorted(ps)
    ensures HasKey(ps, k) <==> k in ToMap(ps)
  {
    ToMapHolds(ps);
  }

  /** Insertion does not replace: the first value of a key stays. */
  lemma {:induction false} PutMap(ps: seq<Pair>, k: Bytes, v: Bytes)
    requires Sorted(ps)
    ensures ToMap(Put(ps, k, v)) == if k in ToMap(ps) then ToMap(ps) else ToMap(ps)[k := v]
  {
    ToMapHolds(ps);
    HasKeyInMap(ps, k);
    if !HasKey(ps, k) {
      var r, qs, m := Rank(ps, k), Put(ps, k, v), ToMap(ps)[k := v];
      PutSorted(ps, k, v);
      hide Sorted, Rank, ToMap;
      forall i | 0 <= i < |qs| ensures qs[i].key in m && m[qs[i].key] == qs[i].value {
        if i != r {
          var p := if i < r then i else i - 1;
          assert ps[p] == qs[i] && ps[p].key != k;
        }
      }
      forall x | x in m ensures HasKey(qs, x) {
        if x == k {
          assert qs[r].key == k;
        } else {
          var i :| 0 <= i < |ps| && ps[i].key == x;
          assert qs[if i < r then i else i + 1].key == x;
        }
      }
      IsMapOfUnique(qs, m);
    }
  }

  lemma {:induction false} RemoveMap(ps: seq<Pair>, k: Bytes)
    requires Sorted(ps)
    ensures ToMap(Remove(ps, k)) == ToMap(ps) - {k}
  {
    ToMapHolds(ps);
    RankSplits(ps, k);
    if HasKey(ps, k) {
      RemoveSorted(ps, k);
      RemoveKeepsRest(ps, ToMap(ps), k);
      IsMapOfUnique(Remove(ps, k), ToMap(ps) - {k});
    }
  }

  lemma {:induction false} OtherKey(ps: seq<Pair>, k: Bytes, p: nat)
    requires Sorted(ps) && Rank(ps, k) < |ps| && ps[Rank(ps, k)].key == k && p < |ps| && p != Rank(ps, k)
    ensures ps[p].key != k
  {
    LessIrreflexive(k);
    assert if p < Rank(ps, k) then Less(ps[p].key, ps[Rank(ps, k)].key) else Less(ps[Rank(ps, k)].key, ps[p].key);
  }

  lemma {:induction false} RemoveKeepsRest(ps: seq<Pair>, m: map<Bytes, Bytes>, k: Bytes)
    requires Sorted(ps) && IsMapOf(ps, m)
    requires Rank(ps, k) < |ps| && ps[Rank(ps, k)].key == k
    ensures IsMapOf(DropAt(ps, Rank(ps, k)), m - {k})
  {
    var r := Rank(ps, k);
    var qs := DropAt(ps, r);
    hide Sorted, Rank;
    forall i | 0 <= i < |qs| ensures qs[i].key in m - {k} && m[qs[i].key] == qs[i].value {
      var p := if i < r then i else i + 1;
      OtherKey(ps, k, p);
      assert qs[i] == ps[p];
    }
    forall x | x in m - {k} ensures HasKey(qs, x) {
      assert HasKey(ps, x);
      var i :| 0 <= i < |ps| && ps[i].key == x;
      assert qs[if i < r then i else i - 1].key == x;
    }
  }

  // ---------- counters ----------

  lemma {:induction false} UsageDropAt(ps: seq<Pair>, r: nat)
    requires r < |ps|
    ensures Usage(ps) == Usage(DropAt(ps, r)) + |ps[r].key| + |ps[r].value|
  {
    var n := |ps| - 1;
    if r == n {
      assert DropAt(ps, r) == ps[..n];
    } else {
      UsageDropAt(ps[..n], r);
      assert DropAt(ps, r)[..n - 1] == DropAt(ps[..n], r);
    }
  }

  lemma {:induction false} PutUsage(ps: seq<Pair>, k: Bytes, v: Bytes)
    requires !HasKey(ps, k)
    ensures Usage(Put(ps, k, v)) == Usage(ps) + |k| + |v|
  {
    var r := Rank(ps, k);
    UsageDropAt(Put(ps, k, v), r);
    assert DropAt(Put(ps, k, v), r) == ps;
  }

  lemma {:induction false} RemoveUsage(ps: seq<Pair>, k: Bytes)
    requires Sorted(ps) && HasKey(ps, k)
    ensures Rank(ps, k) < |ps|
    ensures Usage(Remove(ps, k)) == Usage(ps) - |k| - |ps[Rank(ps, k)].value|
  {
    RankSplits(ps, k);
    UsageDropAt(ps, Rank(ps, k));
  }

  /** Distinct keys: the map has as many entries as the sequence. */
  lemma {:induction false} ToMapSize(ps: seq<Pair>)
    requires Sorted(ps)
    ensures |ToMap(ps)| == |ps|
  {
    if ps != [] {
      var n := |ps| - 1;
      DropLastMap(ps);
      ToMapSize(ps[..n]);
      var m := ToMap(ps[..n]);
      assert ToMap(ps).Keys == m.Keys + {ps[n].key};
    }
  }
}
