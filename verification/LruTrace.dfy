/** The key list of an LRU cache as a state machine, and what holds of it over whole traces. */
module LruTrace {
  import opened Sequences

  datatype Op<K> = Insert(key: K) | Get(key: K) | Erase(key: K)

  function Without<T(==)>(s: seq<T>, x: T): (r: seq<T>)
    ensures |r| == if x in s then |s| - 1 else |s|
    ensures x !in s ==> r == s
  {
    if s == [] then []
    else if s[0] == x then s[1..]
    else [s[0]] + Without(s[1..], x)
  }

  /** `x` moves to the front. */
  function Touch<T(==)>(s: seq<T>, x: T): seq<T> {
    [x] + Without(s, x)
  }

  /** One operation on the keys of a cache of capacity `cap`, most recently used first. */
  function Step<K(==)>(cap: nat, ks: seq<K>, op: Op<K>): seq<K> {
    match op
    case Insert(k) =>
      if k in ks then Touch(ks, k)
      else if |ks| + 1 > cap then ([k] + ks)[..|ks|]
      else [k] + ks
    case Get(k) => if k in ks then Touch(ks, k) else ks
    case Erase(k) => Without(ks, k)
  }

  /** The keys after a trace that starts from the empty cache. */
  function RunTrace<K(==)>(cap: nat, ops: seq<Op<K>>): seq<K> {
    if ops == [] then [] else Step(cap, RunTrace(cap, ops[..|ops| - 1]), ops[|ops| - 1])
  }

  // ---------- removal ----------

  lemma {:induction false} WithoutMembers<T>(s: seq<T>, x: T)
    requires NoDup(s)
    ensures NoDup(Without(s, x)) && x !in Without(s, x)
    ensures forall y :: y in Without(s, x) ==> y in s
    ensures forall y :: y in s && y != x ==> y in Without(s, x)
  {
    if s != [] {
      var t := s[1..];
      assert s == [s[0]] + t;
      WithoutMembers(t, x);
      if s[0] != x {
        var r := [s[0]] + Without(t, x);
        forall i, j | 0 <= i < j < |r| ensures r[i] != r[j] {
          assert r[j] == Without(t, x)[j - 1];
          if i == 0 {
            assert s[0] !in t;
          } else {
            assert r[i] == Without(t, x)[i - 1];
          }
        }
      }
    }
  }

  lemma {:induction false} WithoutLast<T>(s: seq<T>)
    requires s != [] && NoDup(s)
    ensures Without(s, s[|s| - 1]) == s[..|s| - 1]
  {
    if |s| > 1 {
      WithoutLast(s[1..]);
      assert s[1..][..|s| - 2] == s[..|s| - 1][1..];
    }
  }

  // ---------- inclusion ----------

  /** `s` can be obtained from `t` by leaving elements out. */
  ghost predicate Subsequence<T>(s: seq<T>, t: seq<T>) {
    s == [] || (t != [] && ((s[0] == t[0] && Subsequence(s[1..], t[1..])) || Subsequence(s, t[1..])))
  }

  lemma {:induction false} SubsequenceMembers<T>(s: seq<T>, t: seq<T>)
    requires Subsequence(s, t)
    ensures |s| <= |t| && forall x :: x in s ==> x in t
    decreases |t|
  {
    if s != [] {
      if s[0] == t[0] && Subsequence(s[1..], t[1..]) {
        SubsequenceMembers(s[1..], t[1..]);
        assert s == [s[0]] + s[1..];
      } else {
        SubsequenceMembers(s, t[1..]);
      }
    }
  }

  lemma {:induction false} SubsequenceTail<T>(s: seq<T>, t: seq<T>)
    requires s != [] && Subsequence(s, t)
    ensures Subsequence(s[1..], t)
    decreases |t|
  {
    if !(s[0] == t[0] && Subsequence(s[1..], t[1..])) {
      SubsequenceTail(s, t[1..]);
    }
  }

  lemma {:induction false} SubsequenceWithout<T>(s: seq<T>, t: seq<T>, x: T)
    requires NoDup(s) && NoDup(t) && Subsequence(s, t)
    ensures Subsequence(Without(s, x), Without(t, x))
    decreases |t|
  {
    if s != [] {
      if s[0] == t[0] && Subsequence(s[1..], t[1..]) {
        if s[0] != x {
          SubsequenceWithout(s[1..], t[1..], x);
          assert ([s[0]] + Without(s[1..], x))[1..] == Without(s[1..], x);
          assert ([t[0]] + Without(t[1..], x))[1..] == Without(t[1..], x);
        }
      } else if t[0] == x {
        SubsequenceMembers(s, t[1..]);
        assert x !in t[1..];
        assert Without(s, x) == s;
      } else {
        SubsequenceWithout(s, t[1..], x);
        assert ([t[0]] + Without(t[1..], x))[1..] == Without(t[1..], x);
      }
    }
  }

  lemma {:induction false} SubsequencePrepend<T>(s: seq<T>, t: seq<T>, x: T)
    requires Subsequence(s, t)
    ensures Subsequence(s, [x] + t) && Subsequence([x] + s, [x] + t)
  {
    assert ([x] + t)[1..] == t && ([x] + s)[1..] == s;
  }

  lemma {:induction false} SubsequenceDropLast<T>(s: seq<T>, t: seq<T>)
    requires Subsequence(s, t) && s != []
    ensures Subsequence(s[..|s| - 1], t)
    ensures t != [] && Subsequence(s[..|s| - 1], t[..|t| - 1])
    decreases |t|
  {
    var s', t' := s[..|s| - 1], t[..|t| - 1];
    if s[0] == t[0] && Subsequence(s[1..], t[1..]) {
      if |s| > 1 {
        SubsequenceDropLast(s[1..], t[1..]);
        assert s'[1..] == s[1..][..|s| - 2];
        assert t'[1..] == t[1..][..|t| - 2];
      }
    } else {
      SubsequenceDropLast(s, t[1..]);
      assert t'[1..] == t[1..][..|t| - 2];
    }
  }

  lemma {:induction false} StepNoDup<K>(cap: nat, ks: seq<K>, op: Op<K>)
    requires NoDup(ks) && |ks| <= cap
    ensures NoDup(Step(cap, ks, op)) && |Step(cap, ks, op)| <= cap
  {
    WithoutMembers(ks, op.key);
    var w := Without(ks, op.key);
    assert forall i :: 0 <= i < |w| ==> w[i] in w;
  }

  /** One step keeps the smaller cache inside the larger one, and the difference in length
      within the difference in capacity. */
  lemma {:induction false} StepInclusion<K>(c: nat, c': nat, s: seq<K>, t: seq<K>, op: Op<K>)
    requires c <= c' && NoDup(s) && NoDup(t) && |s| <= c && |t| <= c'
    requires Subsequence(s, t) && |t| - |s| <= c' - c
    ensures Subsequence(Step(c, s, op), Step(c', t, op))
    ensures |Step(c', t, op)| - |Step(c, s, op)| <= c' - c
  {
    var k := op.key;
    SubsequenceMembers(s, t);
    SubsequenceWithout(s, t, k);
    SubsequencePrepend(Without(s, k), Without(t, k), k);
    SubsequencePrepend(s, t, k);
    if op.Insert? && k !in s && |s| + 1 > c {
      SubsequenceDropLast([k] + s, [k] + t);
      SubsequenceDropLast([k] + s, [k] + Without(t, k));
    }
  }

  /** A cache with more room holds everything a smaller one holds, in the same order: on every
      trace, although misses of `get` insert nothing and `erase` removes from the middle. */
  lemma {:induction false} Inclusion<K>(c: nat, c': nat, ops: seq<Op<K>>)
    requires c <= c'
    ensures Subsequence(RunTrace(c, ops), RunTrace(c', ops))
    ensures |RunTrace(c', ops)| - |RunTrace(c, ops)| <= c' - c
    ensures forall k :: k in RunTrace(c, ops) ==> k in RunTrace(c', ops)
  {
    if ops != [] {
      var init := ops[..|ops| - 1];
      Inclusion(c, c', init);
      TraceNoDup(c, init);
      TraceNoDup(c', init);
      StepInclusion(c, c', RunTrace(c, init), RunTrace(c', init), ops[|ops| - 1]);
    }
    SubsequenceMembers(RunTrace(c, ops), RunTrace(c', ops));
  }

  /** Keys stay distinct and within the capacity. */
  lemma {:induction false} TraceNoDup<K>(cap: nat, ops: seq<Op<K>>)
    ensures NoDup(RunTrace(cap, ops)) && |RunTrace(cap, ops)| <= cap
  {
    if ops != [] {
      TraceNoDup(cap, ops[..|ops| - 1]);
      StepNoDup(cap, RunTrace(cap, ops[..|ops| - 1]), ops[|ops| - 1]);
    }
  }

  // ---------- recency ----------

  /** When `k` was last inserted or asked for; -1 if never. */
  function LastAccess<K(==)>(ops: seq<Op<K>>, k: K): (t: int)
    ensures -1 <= t < |ops|
  {
    if ops == [] then -1
    else
      var n := |ops| - 1;
      if !ops[n].Erase? && ops[n].key == k then n else LastAccess(ops[..n], k)
  }

  /** More recently accessed keys come first. */
  ghost predicate RecentFirst<K>(ops: seq<Op<K>>, ks: seq<K>) {
    forall i, j :: 0 <= i < j < |ks| ==> LastAccess(ops, ks[i]) > LastAccess(ops, ks[j])
  }

  lemma {:induction false} RecentFirstPrepend<K>(ops: seq<Op<K>>, k: K, ks: seq<K>)
    requires RecentFirst(ops, ks)
    requires forall x :: x in ks ==> LastAccess(ops, k) > LastAccess(ops, x)
    ensures RecentFirst(ops, [k] + ks)
  {
    assert forall i :: 0 <= i < |ks| ==> ks[i] in ks;
  }

  lemma {:induction false} RecentFirstWithout<K>(ops: seq<Op<K>>, ks: seq<K>, k: K)
    requires RecentFirst(ops, ks) && NoDup(ks)
    ensures RecentFirst(ops, Without(ks, k))
  {
    if ks != [] && ks[0] != k {
      var t := ks[1..];
      RecentFirstWithout(ops, t, k);
      WithoutMembers(t, k);
      forall x | x in Without(t, k) ensures LastAccess(ops, ks[0]) > LastAccess(ops, x) {
        var i :| 0 <= i < |t| && t[i] == x;
        assert ks[i + 1] == x;
      }
      RecentFirstPrepend(ops, ks[0], Without(t, k));
    }
  }

  /** Keys that `op` does not access keep their times, and so their order. */
  lemma {:induction false} RecentFirstLater<K>(ops: seq<Op<K>>, op: Op<K>, ks: seq<K>)
    requires RecentFirst(ops, ks) && (op.Erase? || op.key !in ks)
    ensures RecentFirst(ops + [op], ks)
    ensures forall x :: x in ks ==> LastAccess(ops + [op], x) < |ops|
  {
    assert (ops + [op])[..|ops|] == ops;
    forall x | x in ks ensures LastAccess(ops + [op], x) == LastAccess(ops, x) {
    }
    assert forall i :: 0 <= i < |ks| ==> ks[i] in ks;
  }

  /** The list is strictly ordered by the time of the last insertion or lookup of each key. */
  lemma {:induction false} RecencyOrder<K>(cap: nat, ops: seq<Op<K>>)
    ensures RecentFirst(ops, RunTrace(cap, ops))
  {
    if ops != [] {
      var n := |ops| - 1;
      var init, op := ops[..n], ops[n];
      var ks, k := RunTrace(cap, init), op.key;
      RecencyOrder(cap, init);
      TraceNoDup(cap, init);
      RecentFirstWithout(init, ks, k);
      WithoutMembers(ks, k);
      RecentFirstLater(init, op, Without(ks, k));
      assert init + [op] == ops;
      if !op.Erase? {
        assert LastAccess(ops, k) == n;
        RecentFirstPrepend(ops, k, Without(ks, k));
      }
    }
  }

  /** What an insertion into a full cache pushes out is the key that was accessed longest ago. */
  lemma {:induction false} VictimIsOldest<K>(cap: nat, ops: seq<Op<K>>, k: K)
    requires var ks := RunTrace(cap, ops); k !in ks && |ks| == cap > 0
    ensures var ks, ks' := RunTrace(cap, ops), RunTrace(cap, ops + [Insert(k)]);
            var victim := ks[cap - 1];
            && victim !in ks'
            && (forall x :: x in ks && x != victim ==>
                  x in ks' && LastAccess(ops, victim) < LastAccess(ops, x))
  {
    var ks := RunTrace(cap, ops);
    var all := ops + [Insert(k)];
    assert all[..|all| - 1] == ops;
    var ks' := RunTrace(cap, all);
    assert ks' == [k] + ks[..cap - 1];
    RecencyOrder(cap, ops);
    TraceNoDup(cap, ops);
    forall x | x in ks && x != ks[cap - 1]
      ensures x in ks' && LastAccess(ops, ks[cap - 1]) < LastAccess(ops, x)
    {
      var i :| 0 <= i < |ks| && ks[i] == x;
      assert ks'[i + 1] == x;
    }
  }
}
