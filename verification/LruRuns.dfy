/** Whole runs of an LRU cache and its clients. A client that gives back a handle calls `release` with the
    key only; the cache takes the reference from whatever node it has under that key. */
module LruRuns {
  import opened ByteStrings
  import opened LruTrace
  import opened Lru

  /** `GiveBack(a)` gives back the handle that request `a` got. */
  datatype Request<K, V> = Store(key: K, val: V) | Ask(key: K) | Remove(key: K) | GiveBack(ask: nat)

  // ---------- what the key list says of a run ----------

  /** The requests that change the key list. */
  function OpsOf<K(==), V>(requests: seq<Request<K, V>>): seq<Op<K>> {
    if requests == [] then [] else
      var n := |requests| - 1;
      OpsOf(requests[..n]) + match requests[n]
                             case Store(k, _) => [Op.Insert(k)]
                             case Ask(k) => [Op.Get(k)]
                             case Remove(k) => [Op.Erase(k)]
                             case GiveBack(_) => []
  }

  function KeysAfter<K(==), V>(cap: nat, requests: seq<Request<K, V>>, i: nat): seq<K>
    requires i <= |requests|
  {
    RunTrace(cap, OpsOf(requests[..i]))
  }

  lemma KeysNext<K, V>(cap: nat, requests: seq<Request<K, V>>, i: nat)
    requires i < |requests|
    ensures var ks := KeysAfter(cap, requests, i);
            KeysAfter(cap, requests, i + 1) ==
            match requests[i]
            case Store(k, _) => Step(cap, ks, Op.Insert(k))
            case Ask(k) => Step(cap, ks, Op.Get(k))
            case Remove(k) => Step(cap, ks, Op.Erase(k))
            case GiveBack(_) => ks
  {
    var ops, ops' := OpsOf(requests[..i]), OpsOf(requests[..i + 1]);
    assert requests[..i + 1][..i] == requests[..i];
    if requests[i].GiveBack? {
      assert ops' == ops + [] == ops;
    } else {
      assert ops'[..|ops|] == ops;
    }
  }

  /** Request `a` gets a handle. */
  predicate Hit<K(==), V>(cap: nat, requests: seq<Request<K, V>>, a: nat) {
    a < |requests| && requests[a].Ask? && requests[a].key in KeysAfter(cap, requests, a)
  }

  /** The handle of request `a` has been given back before request `t`. */
  predicate GivenBack<K(==), V>(requests: seq<Request<K, V>>, a: nat, t: nat) {
    exists u :: a < u < t && u < |requests| && Returns(requests[u], a)
  }

  predicate Returns<K(==), V>(request: Request<K, V>, a: nat) {
    request.GiveBack? && request.ask == a
  }

  /** From request `a` up to request `t` its key has been in the cache without a break. */
  predicate Stays<K(==), V>(cap: nat, requests: seq<Request<K, V>>, a: nat, t: nat)
    requires a < |requests| && requests[a].Ask? && t <= |requests|
  {
    forall u {:trigger KeysAfter(cap, requests, u)} :: a < u <= t ==> requests[a].key in KeysAfter(cap, requests, u)
  }

  /** Request `t` gives back a handle it has, but the key has left the cache in the meantime. */
  predicate Stale<K(==), V>(cap: nat, requests: seq<Request<K, V>>, t: nat) {
    && t < |requests| && requests[t].GiveBack?
    && var a := requests[t].ask;
       a < t && Hit(cap, requests, a) && !GivenBack(requests, a, t) && !Stays(cap, requests, a, t)
  }

  // ---------- the handles of the clients ----------

  ghost predicate Cached<K, V>(index: map<K, CacheNode<K, V>>, n: CacheNode<K, V>) {
    n.key in index && index[n.key] == n
  }

  /** What request `a` got: a node exactly on a hit, still cached exactly as long as its key stays. */
  ghost predicate AskOk<K, V>(cap: nat, requests: seq<Request<K, V>>, i: nat, index: map<K, CacheNode<K, V>>,
                              got: seq<Option<CacheNode<K, V>>>, back: set<nat>, a: nat)
    requires a < i <= |requests| && i == |got|
  {
    && (got[a].Some? <==> Hit(cap, requests, a))
    && (got[a].Some? ==>
          && got[a].value.key == requests[a].key
          && (Cached(index, got[a].value) <==> Stays(cap, requests, a, i))
          && (a in back <==> GivenBack(requests, a, i)))
  }

  /** Requests whose handle on `n` is still out. */
  ghost function Out<K, V>(got: seq<Option<CacheNode<K, V>>>, back: set<nat>, n: CacheNode<K, V>): set<nat> {
    set a: nat | a < |got| && got[a] == Some(n) && a !in back
  }

  ghost function HandlesIn<K, V>(held: map<CacheNode<K, V>, nat>, n: CacheNode<K, V>): nat {
    if n in held then held[n] else 0
  }

  /** The handles counted are those the clients have out. */
  ghost predicate ClientsOk<K, V>(cap: nat, requests: seq<Request<K, V>>, i: nat, index: map<K, CacheNode<K, V>>,
                                  held: map<CacheNode<K, V>, nat>, got: seq<Option<CacheNode<K, V>>>, back: set<nat>)
  {
    && i <= |requests| && |got| == i
    && (forall a :: 0 <= a < i ==> AskOk(cap, requests, i, index, got, back, a))
    && (forall n :: n in held ==> held[n] == |Out(got, back, n)|)
    && (forall a :: 0 <= a < i && got[a].Some? ==> got[a].value in held)
  }

  /** `index` holds the keys of the trace. */
  ghost predicate Indexes<K, V>(cap: nat, requests: seq<Request<K, V>>, i: nat, index: map<K, CacheNode<K, V>>)
    requires i <= |requests|
  {
    index.Keys == set k | k in KeysAfter(cap, requests, i)
  }

  /** Keys keep their nodes, and nodes that come are new. */
  ghost predicate Moves<K, V>(index: map<K, CacheNode<K, V>>, index': map<K, CacheNode<K, V>>,
                              got: seq<Option<CacheNode<K, V>>>)
  {
    forall k :: k in index' ==> if k in index then index'[k] == index[k] else Some(index'[k]) !in got
  }

  lemma {:induction false} StaysNext<K, V>(cap: nat, requests: seq<Request<K, V>>, a: nat, i: nat)
    requires a < i < |requests| && requests[a].Ask?
    ensures Stays(cap, requests, a, i + 1)
            <==> Stays(cap, requests, a, i) && requests[a].key in KeysAfter(cap, requests, i + 1)
    ensures Stays(cap, requests, a, i) ==> requests[a].key in KeysAfter(cap, requests, i)
  {
  }

  lemma {:induction false} BackNext<K, V>(requests: seq<Request<K, V>>, a: nat, i: nat)
    requires a < i < |requests|
    ensures GivenBack(requests, a, i + 1) <==> GivenBack(requests, a, i) || Returns(requests[i], a)
  {
    if Returns(requests[i], a) {
      assert a < i < i + 1;
    }
  }

  /** An earlier request after one more. */
  lemma {:induction false} AskNext<K, V>(cap: nat, requests: seq<Request<K, V>>, i: nat,
                                         index: map<K, CacheNode<K, V>>, index': map<K, CacheNode<K, V>>,
                                         got: seq<Option<CacheNode<K, V>>>, got': seq<Option<CacheNode<K, V>>>,
                                         back: set<nat>, back': set<nat>, a: nat)
    requires a < i < |requests| && |got| == i && |got'| == i + 1 && got'[a] == got[a]
    requires AskOk(cap, requests, i, index, got, back, a)
    requires Indexes(cap, requests, i, index) && Indexes(cap, requests, i + 1, index') && Moves(index, index', got)
    requires got[a].Some? ==> (a in back' <==> a in back || Returns(requests[i], a))
    ensures AskOk(cap, requests, i + 1, index', got', back', a)
  {
    if got[a].Some? {
      StaysNext(cap, requests, a, i);
      BackNext(requests, a, i);
      assert Some(got[a].value) in got;
    }
  }

  lemma {:induction false} OutNext<K, V>(got: seq<Option<CacheNode<K, V>>>, next: Option<CacheNode<K, V>>,
                                         got': seq<Option<CacheNode<K, V>>>, back: set<nat>, n: CacheNode<K, V>)
    requires got' == got + [next] && |got| !in back
    ensures |Out(got', back, n)| == |Out(got, back, n)| + if next == Some(n) then 1 else 0
  {
    if next == Some(n) {
      assert Out(got', back, n) == Out(got, back, n) + {|got|};
    } else {
      assert Out(got', back, n) == Out(got, back, n);
    }
  }

  lemma {:induction false} OutBack<K, V>(got: seq<Option<CacheNode<K, V>>>, back: set<nat>, a: nat, n: CacheNode<K, V>)
    requires a < |got| && a !in back
    ensures |Out(got, back + {a}, n)| == |Out(got, back, n)| - if got[a] == Some(n) then 1 else 0
  {
    if got[a] == Some(n) {
      assert Out(got, back, n) == Out(got, back + {a}, n) + {a};
    } else {
      assert Out(got, back, n) == Out(got, back + {a}, n);
    }
  }

  /** A request that gets no handle and gives none back. */
  lemma {:induction false} NoHandle<K, V>(cap: nat, requests: seq<Request<K, V>>, i: nat,
                                          index: map<K, CacheNode<K, V>>, index': map<K, CacheNode<K, V>>,
                                          held: map<CacheNode<K, V>, nat>,
                                          got: seq<Option<CacheNode<K, V>>>, got': seq<Option<CacheNode<K, V>>>,
    back: set<nat>)
    requires got' == got + [None] && (forall b :: b in back ==> b < i)
    requires i < |requests| && ClientsOk(cap, requests, i, index, held, got, back)
    requires Indexes(cap, requests, i, index) && Indexes(cap, requests, i + 1, index') && Moves(index, index', got)
    requires !Hit(cap, requests, i)
    requires forall a: nat :: a < i && got[a].Some? && Returns(requests[i], a) ==> a in back
    ensures ClientsOk(cap, requests, i + 1, index', held, got', back)
  {
    var m := i + 1;
    forall a | 0 <= a < m ensures AskOk(cap, requests, m, index', got', back, a) {
      if a < i {
        assert AskOk(cap, requests, i, index, got, back, a);
        AskNext(cap, requests, i, index, index', got, got', back, back, a);
      }
    }
    forall n | n in held ensures held[n] == |Out(got', back, n)| {
      OutNext(got, None, got', back, n);
    }
  }

  /** A hit: the node has one handle more. */
  lemma {:induction false} OneHandleMore<K, V>(cap: nat, requests: seq<Request<K, V>>, i: nat,
                                               index: map<K, CacheNode<K, V>>,
                                               held: map<CacheNode<K, V>, nat>, held': map<CacheNode<K, V>, nat>,
                                               got: seq<Option<CacheNode<K, V>>>, got': seq<Option<CacheNode<K, V>>>,
    back: set<nat>, node: CacheNode<K, V>)
    requires got' == got + [Some(node)] && (forall b :: b in back ==> b < i)
    requires i < |requests| && ClientsOk(cap, requests, i, index, held, got, back)
    requires Indexes(cap, requests, i, index) && Indexes(cap, requests, i + 1, index)
    requires Hit(cap, requests, i) && Cached(index, node) && node.key == requests[i].key
    requires held' == held[node := HandlesIn(held, node) + 1]
    ensures ClientsOk(cap, requests, i + 1, index, held', got', back)
  {
    var m := i + 1;
    forall a | 0 <= a < m ensures AskOk(cap, requests, m, index, got', back, a) {
      if a < i {
        assert AskOk(cap, requests, i, index, got, back, a);
        AskNext(cap, requests, i, index, index, got, got', back, back, a);
      }
    }
    forall n | n in held' ensures held'[n] == |Out(got', back, n)| {
      OutNext(got, Some(node), got', back, n);
      if n !in held {
        assert Out(got, back, n) == {};
      }
    }
  }

  /** A handle given back in time: its node has one less. */
  lemma {:induction false} OneHandleLess<K, V>(cap: nat, requests: seq<Request<K, V>>, i: nat,
                                               index: map<K, CacheNode<K, V>>,
                                               held: map<CacheNode<K, V>, nat>, held': map<CacheNode<K, V>, nat>,
                                               got: seq<Option<CacheNode<K, V>>>, got': seq<Option<CacheNode<K, V>>>,
    back: set<nat>, a: nat)
    requires got' == got + [None] && (forall b :: b in back ==> b < i)
    requires i < |requests| && ClientsOk(cap, requests, i, index, held, got, back)
    requires Indexes(cap, requests, i, index) && Indexes(cap, requests, i + 1, index)
    requires a < i && got[a].Some? && a !in back && Returns(requests[i], a)
    requires HandlesIn(held, got[a].value) > 0 && held' == held[got[a].value := HandlesIn(held, got[a].value) - 1]
    ensures ClientsOk(cap, requests, i + 1, index, held', got', back + {a})
  {
    var got', back' := got', back + {a};
    var m := i + 1;
    forall b | 0 <= b < m ensures AskOk(cap, requests, m, index, got', back', b) {
      if b < i {
        assert AskOk(cap, requests, i, index, got, back, b);
        AskNext(cap, requests, i, index, index, got, got', back, back', b);
      }
    }
    forall n | n in held' ensures held'[n] == |Out(got', back', n)| {
      OutNext(got, None, got', back, n);
      OutBack(got', back, a, n);
    }
  }

  lemma HasHandle<K, V>(cap: nat, requests: seq<Request<K, V>>, i: nat, index: map<K, CacheNode<K, V>>,
                        held: map<CacheNode<K, V>, nat>, got: seq<Option<CacheNode<K, V>>>, back: set<nat>, a: nat)
    requires ClientsOk(cap, requests, i, index, held, got, back) && a < i && got[a].Some? && a !in back
    ensures HandlesIn(held, got[a].value) > 0
  {
    assert a in Out(got, back, got[a].value);
  }

  // ---------- the runs ----------

  /** After `i` requests the cache is as the trace says, and all counts agree with the clients. */
  ghost predicate Serving<K, V>(cache: LRU<K, V>, requests: seq<Request<K, V>>, i: nat,
                                got: seq<Option<CacheNode<K, V>>>, back: set<nat>)
    reads cache, cache.nodes, cache.evicted
  {
    && cache.Valid() && i <= |requests| && |got| == i
    && cache.Keys() == KeysAfter(cache.cap, requests, i)
    && ClientsOk(cache.cap, requests, i, cache.index, cache.held, got, back)
    && (forall a :: a in back ==> a < i)
  }

  lemma {:induction false} IndexHolds<K, V>(cache: LRU<K, V>, requests: seq<Request<K, V>>, i: nat)
    requires cache.Valid() && i <= |requests| && cache.Keys() == KeysAfter(cache.cap, requests, i)
    ensures Indexes(cache.cap, requests, i, cache.index)
  {
    var ks := cache.Keys();
    forall k | k in cache.index ensures k in ks {
      IndexedKeys(cache.nodes, cache.index, k);
    }
    forall k | k in ks ensures k in cache.index {
      IndexedKeys(cache.nodes, cache.index, k);
    }
  }

  method ServeStore<K(==), V>(cache: LRU<K, V>, ghost requests: seq<Request<K, V>>, ghost i: nat, key: K, val: V,
                              ghost got: seq<Option<CacheNode<K, V>>>, ghost back: set<nat>)
    requires Serving(cache, requests, i, got, back) && i < |requests| && requests[i] == Store(key, val)
    modifies cache, cache.nodes
    ensures Serving(cache, requests, i + 1, got + [None], back)
    ensures forall n :: n in cache.nodes ==> n in old(cache.nodes) || fresh(n)
  {
    hide LRU.Valid, ClientsOk, Indexes, KeysAfter;
    KeysNext(cache.cap, requests, i);
    IndexHolds(cache, requests, i);
    ghost var index := cache.index;
    cache.Insert(key, val);
    IndexHolds(cache, requests, i + 1);
    NoHandle(cache.cap, requests, i, index, cache.index, cache.held, got, got + [None], back);
  }

  method ServeRemove<K(==), V>(cache: LRU<K, V>, ghost requests: seq<Request<K, V>>, ghost i: nat, key: K,
                               ghost got: seq<Option<CacheNode<K, V>>>, ghost back: set<nat>)
    requires Serving(cache, requests, i, got, back) && i < |requests| && requests[i] == Remove(key)
    modifies cache, cache.nodes
    ensures Serving(cache, requests, i + 1, got + [None], back)
    ensures forall n :: n in cache.nodes ==> n in old(cache.nodes)
  {
    hide LRU.CountsOk, LRU.GarbageOk, ClientsOk, Indexes, KeysAfter;
    KeysNext(cache.cap, requests, i);
    IndexHolds(cache, requests, i);
    ghost var index := cache.index;
    cache.Erase(key);
    IndexHolds(cache, requests, i + 1);
    NoHandle(cache.cap, requests, i, index, cache.index, cache.held, got, got + [None], back);
  }

  method ServeAsk<K(==), V>(cache: LRU<K, V>, ghost requests: seq<Request<K, V>>, ghost i: nat, key: K,
                            ghost got: seq<Option<CacheNode<K, V>>>, ghost back: set<nat>)
      returns (handle: Option<CacheNode<K, V>>)
    requires Serving(cache, requests, i, got, back) && i < |requests| && requests[i] == Ask(key)
    modifies cache, cache.nodes
    ensures Serving(cache, requests, i + 1, got + [handle], back)
    ensures forall n :: n in cache.nodes ==> n in old(cache.nodes)
  {
    hide LRU.CountsOk, LRU.GarbageOk, ClientsOk, KeysAfter;
    KeysNext(cache.cap, requests, i);
    IndexHolds(cache, requests, i);
    ghost var index, held := cache.index, cache.held;
    handle := cache.Get(key);
    IndexHolds(cache, requests, i + 1);
    if handle.Some? {
      OneHandleMore(cache.cap, requests, i, index, held, cache.held, got, got + [handle], back, handle.value);
    } else {
      NoHandle(cache.cap, requests, i, index, cache.index, cache.held, got, got + [None], back);
    }
  }

  /** A client with the handle of request `a` out gives it back. All stays right if and only if the key has
      stayed in the cache since; otherwise counts are wrong, or there is no node to take the reference from. */
  method ServeGiveBack<K(==), V>(cache: LRU<K, V>, ghost requests: seq<Request<K, V>>, ghost i: nat, a: nat,
                                 got: seq<Option<CacheNode<K, V>>>, ghost back: set<nat>)
      returns (outcome: ReleaseOutcome, timely: bool)
    requires Serving(cache, requests, i, got, back) && i < |requests| && requests[i] == GiveBack(a)
    requires a < i && got[a].Some? && a !in back
    modifies cache, cache.nodes
    ensures cache.nodes == old(cache.nodes)
    ensures timely <==> !Stale(cache.cap, requests, i)
    ensures timely <==> outcome == Released && cache.Valid()
    ensures timely ==> Serving(cache, requests, i + 1, got + [None], back + {a})
  {
    hide KeysAfter;
    KeysNext(cache.cap, requests, i);
    IndexHolds(cache, requests, i);
    ghost var index, held := cache.index, cache.held;
    HasHandle(cache.cap, requests, i, index, held, got, back, a);
    assert AskOk(cache.cap, requests, i, index, got, back, a);
    var node := got[a].value;
    timely := node.key in cache.index && cache.index[node.key] == node;
    outcome := cache.Release(node.key, node);
    if timely {
      IndexHolds(cache, requests, i + 1);
      OneHandleLess(cache.cap, requests, i, index, held, cache.held, got, got + [None], back, a);
    }
  }

  lemma {:induction false} NothingOut<K, V>(cache: LRU<K, V>, requests: seq<Request<K, V>>, i: nat, a: nat,
                                            got: seq<Option<CacheNode<K, V>>>, back: set<nat>)
    requires Serving(cache, requests, i, got, back) && i < |requests| && requests[i] == GiveBack(a)
    requires !(a < i && got[a].Some? && a !in back)
    ensures Serving(cache, requests, i + 1, got + [None], back) && !Stale(cache.cap, requests, i)
  {
    KeysNext(cache.cap, requests, i);
    IndexHolds(cache, requests, i);
    assert a < i ==> AskOk(cache.cap, requests, i, cache.index, got, back, a);
    NoHandle(cache.cap, requests, i, cache.index, cache.index, cache.held, got, got + [None], back);
  }

  method ServeOne<K(==), V>(cache: LRU<K, V>, requests: seq<Request<K, V>>, i: nat,
                            got: seq<Option<CacheNode<K, V>>>, back: set<nat>)
      returns (outcome: ReleaseOutcome, timely: bool, got': seq<Option<CacheNode<K, V>>>, back': set<nat>)
    requires Serving(cache, requests, i, got, back) && i < |requests|
    modifies cache, cache.nodes
    ensures timely <==> !Stale(cache.cap, requests, i)
    ensures timely ==> Serving(cache, requests, i + 1, got', back')
    ensures !timely ==> !(outcome == Released && cache.Valid())
    ensures forall n :: n in cache.nodes ==> n in old(cache.nodes) || fresh(n)
  {
    hide LRU.Valid, ClientsOk, KeysAfter;
    outcome, timely, got', back' := Released, true, got + [None], back;
    match requests[i] {
      case Store(k, v) => ServeStore(cache, requests, i, k, v, got, back);
      case Remove(k) => ServeRemove(cache, requests, i, k, got, back);
      case Ask(k) =>
        var handle := ServeAsk(cache, requests, i, k, got, back);
        got' := got + [handle];
      case GiveBack(a) =>
        if a < i && got[a].Some? && a !in back {
          outcome, timely := ServeGiveBack(cache, requests, i, a, got, back);
          back' := back + {a};
        } else {
          NothingOut(cache, requests, i, a, got, back);
        }
    }
  }

  /** Any run of clients that give back only handles they have out, stopped at the first stale give-back.
      Up to there all counts are exact: a cached node has one reference and one for each handle, an evicted one
      exactly its handles, and nothing is destroyed twice, while cached or while held. At a stale one the
      counts go wrong, or `release` has no node to work on. */
  method Serve<K(==), V>(cap: nat, requests: seq<Request<K, V>>)
      returns (cache: LRU<K, V>, served: nat, outcome: ReleaseOutcome)
    ensures served <= |requests| && forall t :: 0 <= t < served ==> !Stale(cap, requests, t)
    ensures served < |requests| ==> Stale(cap, requests, served) && !(outcome == Released && cache.Valid())
    ensures served == |requests| ==> cache.Valid() && cache.Keys() == KeysAfter(cap, requests, |requests|)
  {
    cache := new LRU(cap);
    var got: seq<Option<CacheNode<K, V>>> := [];
    var back: set<nat> := {};
    served, outcome := 0, Released;
    KeysAtStart(cap, requests);
    assert ClientsOk(cap, requests, 0, cache.index, cache.held, got, back);
    while served < |requests|
      invariant 0 <= served <= |requests| && fresh(cache) && fresh(cache.nodes) && cache.cap == cap
      invariant Serving(cache, requests, served, got, back)
      invariant forall t :: 0 <= t < served ==> !Stale(cap, requests, t)
    {
      hide Serving, Stale, KeysAfter;
      ghost var before := cache.nodes;
      assert forall n :: n in before ==> fresh(n);
      var timely;
      outcome, timely, got, back := ServeOne(cache, requests, served, got, back);
      forall j | 0 <= j < |cache.nodes| ensures fresh(cache.nodes[j]) {
        assert cache.nodes[j] in before || fresh(cache.nodes[j]);
      }
      if !timely {
        return;
      }
      served := served + 1;
    }
  }

  /** One client stores a value in an empty cache for one node, and gets a handle on the node. */
  method StoreAndAsk<K(==), V>(cache: LRU<K, V>, key: K, v: V) returns (handle: CacheNode<K, V>)
    requires cache.Valid() && cache.cap == 1 && cache.nodes == []
    modifies cache
    ensures cache.Valid() && cache.nodes == [handle] && handle.key == key && fresh(handle)
    ensures cache.Handles(handle) == 1
    ensures forall n :: n in old(cache.held) ==> n != handle && cache.Handles(n) == old(cache.held[n])
    ensures key in cache.index && cache.index[key] == handle
  {
    cache.Insert(key, v);
    assert |cache.Keys()| == |cache.nodes|;
    assert cache.nodes == [cache.nodes[0]] && fresh(cache.nodes[0]) && cache.Keys() == [key];
    IndexedKeys(cache.nodes, cache.index, key);
    assert cache.nodes[0] !in cache.held;
    var r := cache.Get(key);
    handle := r.value;
    assert |cache.Keys()| == |cache.nodes|;
  }

  /** Then the node is erased; the handle stays out. */
  method StoreAskErase<K(==), V>(cache: LRU<K, V>, key: K, v: V) returns (handle: CacheNode<K, V>)
    requires cache.Valid() && cache.cap == 1 && cache.nodes == []
    modifies cache
    ensures cache.Valid() && cache.nodes == [] && fresh(handle) && handle in cache.held && cache.held[handle] == 1
  {
    handle := StoreAndAsk(cache, key, v);
    cache.Erase(key);
    assert |cache.Keys()| == |cache.nodes| == 0;
  }

  /** The stale give-back at work: A's holder releases the key after A was erased and B cached in its place; the
      next erasure destroys B while its holder still has it. */
  method StaleRelease<K(==), V>(key: K, v: V, w: V)
      returns (cache: LRU<K, V>, a: CacheNode<K, V>, b: CacheNode<K, V>)
    ensures a != b && b in cache.destroyed && cache.Handles(b) == 1
    ensures Stale(1, [Store(key, v), Ask(key), Remove(key), Store(key, w), Ask(key), GiveBack(1)], 5)
  {
    cache := new LRU(1);
    a := StoreAskErase(cache, key, v);
    b := StoreAndAsk(cache, key, w);
    assert cache.CachedOk(b);
    var outcome := cache.Release(key, a);
    cache.Erase(key);
    StaleAtFive(1, [Store(key, v), Ask(key), Remove(key), Store(key, w), Ask(key), GiveBack(1)], key);
  }

  lemma StaleAtFive<K, V>(cap: nat, requests: seq<Request<K, V>>, key: K)
    requires cap > 0 && |requests| == 6 && requests[0].Store? && requests[0].key == key
    requires requests[1] == Ask(key) && requests[2] == Remove(key) && !requests[3].GiveBack? && !requests[4].GiveBack?
    requires requests[5] == GiveBack(1)
    ensures Stale(cap, requests, 5)
  {
    KeysAtStart(cap, requests);
    hide KeysAfter, OpsOf, RunTrace;
    KeysNext(cap, requests, 0);
    KeysNext(cap, requests, 1);
    KeysNext(cap, requests, 2);
    StoreAskRemove(cap, key);
    assert key !in KeysAfter(cap, requests, 3);
  }

  lemma KeysAtStart<K, V>(cap: nat, requests: seq<Request<K, V>>)
    ensures KeysAfter(cap, requests, 0) == []
  {
    assert requests[..0] == [];
  }

  lemma StoreAskRemove<K>(cap: nat, key: K)
    requires cap > 0
    ensures Step(cap, [], Op.Insert(key)) == [key] && Step(cap, [key], Op.Get(key)) == [key]
    ensures Step(cap, [key], Op.Erase(key)) == []
  {
    assert Without([key], key) == [];
  }
}
