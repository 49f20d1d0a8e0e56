/** The reference-counted LRU cache.

    A list cell holds one node and keeps it while the list is spliced, so the iterator stored in
    `index` is modelled by the node it points to. `held`, `evicted` and `destroyed` are ghost
    records of outstanding handles, of nodes waiting in the garbage station, and of the nodes
    handed to the destructor, in order. */
module Lru {
  import opened ByteStrings
  import opened Sequences
  import opened LruTrace

  class CacheNode<K, V> {
    const key: K
    const val: V
    var refCnt: int
    var inCache: bool

    constructor (key: K, val: V)
      ensures this.key == key && this.val == val && refCnt == 1 && inCache
    {
      this.key, this.val := key, val;
      refCnt, inCache := 1, true;
    }
  }

  ghost function KeysOf<K, V>(nodes: seq<CacheNode<K, V>>): (ks: seq<K>)
    ensures |ks| == |nodes|
    ensures forall i {:trigger ks[i]} :: 0 <= i < |ks| ==> ks[i] == nodes[i].key
  {
    seq(|nodes|, i requires 0 <= i < |nodes| => nodes[i].key)
  }

  /** Taking a node out of the list takes its key out of the key list. */
  lemma {:induction false} KeysWithout<K, V>(nodes: seq<CacheNode<K, V>>, n: CacheNode<K, V>)
    requires NoDup(KeysOf(nodes)) && n in nodes
    ensures KeysOf(Without(nodes, n)) == Without(KeysOf(nodes), n.key)
  {
    var ks := KeysOf(nodes);
    var t := nodes[1..];
    assert KeysOf(t) == ks[1..];
    if nodes[0] != n {
      var i :| 0 <= i < |nodes| && nodes[i] == n;
      assert ks[i] == n.key && ks[0] == nodes[0].key;
      assert t[i - 1] == n;
      KeysWithout(t, n);
      assert KeysOf([nodes[0]] + Without(t, n)) == [ks[0]] + KeysOf(Without(t, n));
    }
  }

  lemma {:induction false} NodesDistinct<K, V>(nodes: seq<CacheNode<K, V>>)
    requires NoDup(KeysOf(nodes))
    ensures NoDup(nodes)
  {
    forall i, j | 0 <= i < j < |nodes| ensures nodes[i] != nodes[j] {
      assert KeysOf(nodes)[i] != KeysOf(nodes)[j];
    }
  }

  /** `index` maps each key of the list, and no other, to its node in the list. */
  ghost predicate IndexedBy<K, V>(nodes: seq<CacheNode<K, V>>, index: map<K, CacheNode<K, V>>) {
    && NoDup(KeysOf(nodes))
    && (forall k {:trigger index[k]} :: k in index ==> index[k] in nodes && index[k].key == k)
    && (forall n {:trigger n in nodes} :: n in nodes ==> n.key in index && index[n.key] == n)
  }

  lemma {:induction false} IndexedWithout<K, V>(nodes: seq<CacheNode<K, V>>, index: map<K, CacheNode<K, V>>,
                                               node: CacheNode<K, V>)
    requires IndexedBy(nodes, index) && node in nodes
    ensures index[node.key] == node
    ensures IndexedBy(Without(nodes, node), index - {node.key})
    ensures KeysOf(Without(nodes, node)) == Without(KeysOf(nodes), node.key)
    ensures node !in Without(nodes, node)
    ensures forall n :: n in nodes && n != node ==> n in Without(nodes, node)
    ensures forall n :: n in Without(nodes, node) ==> n in nodes
  {
    KeysWithout(nodes, node);
    NodesDistinct(nodes);
    WithoutMembers(nodes, node);
    WithoutMembers(KeysOf(nodes), node.key);
  }

  lemma {:induction false} IndexedTouch<K, V>(nodes: seq<CacheNode<K, V>>, index: map<K, CacheNode<K, V>>,
                                               node: CacheNode<K, V>)
    requires IndexedBy(nodes, index) && node in nodes
    ensures index[node.key] == node
    ensures IndexedBy(Touch(nodes, node), index)
    ensures KeysOf(Touch(nodes, node)) == Touch(KeysOf(nodes), node.key)
    ensures |Touch(nodes, node)| == |nodes|
    ensures forall n :: n in Touch(nodes, node) <==> n in nodes
  {
    IndexedWithout(nodes, index, node);
    var w := Without(nodes, node);
    WithoutMembers(KeysOf(nodes), node.key);
    assert KeysOf([node] + w) == [node.key] + KeysOf(w);
    NoDupPrepend(node.key, KeysOf(w));
  }

  lemma {:induction false} IndexedPush<K, V>(nodes: seq<CacheNode<K, V>>, index: map<K, CacheNode<K, V>>,
                                               node: CacheNode<K, V>)
    requires IndexedBy(nodes, index) && node.key !in index
    ensures IndexedBy([node] + nodes, index[node.key := node])
    ensures KeysOf([node] + nodes) == [node.key] + KeysOf(nodes)
  {
    var ks := KeysOf(nodes);
    assert node.key !in ks by {
      forall i | 0 <= i < |ks| ensures ks[i] != node.key {
        assert nodes[i] in nodes;
      }
    }
    assert KeysOf([node] + nodes) == [node.key] + ks;
    NoDupPrepend(node.key, ks);
  }

  lemma {:induction false} IndexedKeys<K, V>(nodes: seq<CacheNode<K, V>>, index: map<K, CacheNode<K, V>>, key: K)
    requires IndexedBy(nodes, index)
    ensures key in index <==> key in KeysOf(nodes)
  {
    if key in index {
      var i :| 0 <= i < |nodes| && nodes[i] == index[key];
      assert KeysOf(nodes)[i] == key;
    }
    if key in KeysOf(nodes) {
      var i :| 0 <= i < |nodes| && KeysOf(nodes)[i] == key;
      assert nodes[i] in nodes;
    }
  }

  datatype ReleaseOutcome = Released | Undefined

  class LRU<K(==), V> {
    const cap: nat
    var nodes: seq<CacheNode<K, V>>
    var index: map<K, CacheNode<K, V>>
    var garbageStation: map<K, CacheNode<K, V>>

    ghost var held: map<CacheNode<K, V>, nat>
    ghost var evicted: set<CacheNode<K, V>>
    ghost var destroyed: seq<CacheNode<K, V>>

    ghost function Keys(): seq<K>
      reads this
    {
      KeysOf(nodes)
    }

    /** Handles given out by `get` and not yet released. */
    ghost function Handles(n: CacheNode<K, V>): nat
      reads this
    {
      if n in held then held[n] else 0
    }

    ghost predicate Indexed()
      reads this
    {
      IndexedBy(nodes, index)
    }

    /** A cached node carries the cache's own reference and one for each handle. */
    ghost predicate CachedOk(n: CacheNode<K, V>)
      reads this, n
    {
      n.inCache && n.refCnt == 1 + Handles(n) && n !in evicted && n !in destroyed
    }

    /** An evicted node is kept exactly by its handles. */
    ghost predicate EvictedOk(n: CacheNode<K, V>)
      reads this, n
    {
      !n.inCache && n.refCnt == Handles(n) > 0 && n !in destroyed
    }

    /** Nothing cached or held has been destroyed, and nothing was destroyed twice. */
    ghost predicate CountsOk()
      reads this, nodes, evicted
    {
      && (forall n :: n in nodes ==> CachedOk(n))
      && (forall n :: n in evicted ==> EvictedOk(n))
      && (forall n :: n in destroyed ==> Handles(n) == 0)
      && NoDup(destroyed)
    }

    ghost predicate Valid()
      reads this, nodes, evicted
    {
      && Indexed()
      && |nodes| <= cap
      && CountsOk()
      && GarbageOk()
    }

    /** The garbage station holds evicted nodes under their keys. */
    ghost predicate GarbageOk()
      reads this
    {
      forall k :: k in garbageStation ==> garbageStation[k] in evicted && garbageStation[k].key == k
    }

    constructor (cap: nat)
      ensures Valid() && this.cap == cap && Keys() == [] && destroyed == [] && evicted == {} && held == map[]
    {
      this.cap := cap;
      nodes, index, garbageStation := [], map[], map[];
      held, evicted, destroyed := map[], {}, [];
    }

    method Contains(key: K) returns (found: bool)
      requires Indexed()
      ensures found <==> key in Keys()
    {
      IndexedKeys(nodes, index, key);
      found := key in index;
    }

    /** The count goes down; at zero the node is destroyed and leaves the garbage station. */
    method Unref(node: CacheNode<K, V>)
      modifies this`garbageStation, this`destroyed, node`refCnt
      ensures node.refCnt == old(node.refCnt) - 1
      ensures node.refCnt <= 0 ==>
              destroyed == old(destroyed) + [node] && garbageStation == old(garbageStation) - {node.key}
      ensures node.refCnt > 0 ==> destroyed == old(destroyed) && garbageStation == old(garbageStation)
    {
      node.refCnt := node.refCnt - 1;
      if node.refCnt <= 0 {
        destroyed := destroyed + [node];
        garbageStation := garbageStation - {node.key};
      }
    }

    /** The first three steps of `PhantomEraseNode`: out of list and index, into the garbage station. */
    method Detach(node: CacheNode<K, V>)
      requires Indexed() && node in nodes
      modifies this`nodes, this`index, this`garbageStation, node`inCache
      ensures nodes == Without(old(nodes), node) && !node.inCache
      ensures Indexed() && garbageStation == old(garbageStation)[node.key := node]
      ensures Keys() == Without(old(Keys()), node.key)
      ensures node !in nodes
      ensures forall n :: n in old(nodes) && n != node ==> n in nodes
      ensures forall n :: n in nodes ==> n in old(nodes)
    {
      IndexedWithout(nodes, index, node);
      node.inCache := false;
      nodes := Without(nodes, index[node.key]);
      index := index - {node.key};
      garbageStation := garbageStation[node.key := node];
    }

    method EraseNode(node: CacheNode<K, V>)
      requires Indexed() && node in nodes
      modifies this`nodes, this`index, this`garbageStation, this`destroyed, this`evicted, node
      ensures nodes == Without(old(nodes), node) && Keys() == Without(old(Keys()), node.key)
      ensures Indexed() && index == old(index) - {node.key} && node !in nodes
      ensures forall n :: n in nodes ==> n in old(nodes)
      ensures !node.inCache && node.refCnt == old(node.refCnt) - 1
      ensures if node.refCnt <= 0
              then && destroyed == old(destroyed) + [node] && evicted == old(evicted)
                   && garbageStation == old(garbageStation) - {node.key}
              else && destroyed == old(destroyed) && evicted == old(evicted) + {node}
                   && garbageStation == old(garbageStation)[node.key := node]
    {
      Detach(node);
      Unref(node);
      if node.refCnt > 0 {
        evicted := evicted + {node};
      }
    }

    /** Takes a cached node out of the cache. It is destroyed at once when the cache's reference was the last
        and waits in the garbage station otherwise; counts that were right stay right. */
    method PhantomEraseNode(node: CacheNode<K, V>)
      requires Indexed() && node in nodes
      modifies this`nodes, this`index, this`garbageStation, this`destroyed, this`evicted, node
      ensures nodes == Without(old(nodes), node) && Keys() == Without(old(Keys()), node.key)
      ensures Indexed() && index == old(index) - {node.key} && node.refCnt == old(node.refCnt) - 1
      ensures forall n :: n in nodes ==> n in old(nodes)
      ensures if node.refCnt <= 0 then destroyed == old(destroyed) + [node] && evicted == old(evicted)
              else destroyed == old(destroyed) && evicted == old(evicted) + {node}
      ensures old(CountsOk() && GarbageOk()) ==> CountsOk() && GarbageOk() && node.refCnt == Handles(node)
    {
      EraseNode(node);
      if old(CountsOk() && GarbageOk()) {
        assert old(CachedOk(node));
        forall n | n in nodes ensures CachedOk(n) {
          assert old(CachedOk(n));
        }
        forall n | n in evicted ensures EvictedOk(n) {
          assert n != node ==> old(EvictedOk(n));
        }
      }
    }

    /** The node moves to the front of the list. */
    method Splice(node: CacheNode<K, V>)
      requires Valid() && node in nodes
      modifies this`nodes, this`index
      ensures Valid() && index == old(index)
      ensures forall n :: n in nodes ==> n in old(nodes)
      ensures nodes == Touch(old(nodes), node) && Keys() == Touch(old(Keys()), node.key)
    {
      IndexedTouch(nodes, index, node);
      nodes := Touch(nodes, node);
      index := index[node.key := node];
    }

    /** A new node enters at the front; for a moment the list may exceed the capacity by one. */
    method PushFront(node: CacheNode<K, V>)
      requires Valid() && node.key !in index && CachedOk(node)
      modifies this`nodes, this`index
      ensures nodes == [node] + old(nodes) && Keys() == [node.key] + old(Keys())
      ensures index == old(index)[node.key := node]
      ensures Indexed() && CountsOk() && GarbageOk()
    {
      IndexedPush(nodes, index, node);
      nodes := [node] + nodes;
      index := index[node.key := node];
    }

    /** Inserting a cached key only moves its node: the new value is dropped. Inserting a new key into a
        full cache evicts the last node; it is destroyed at once exactly when nobody holds it. */
    method Insert(key: K, val: V)
      requires Valid()
      modifies this, nodes
      ensures Valid() && held == old(held)
      ensures Keys() == Step(cap, old(Keys()), Op.Insert(key))
      ensures forall n :: n in nodes ==> n in old(nodes) || fresh(n)
      ensures key in old(index) ==> index == old(index) && destroyed == old(destroyed) && evicted == old(evicted)
      ensures key !in old(index) && cap > 0 ==> nodes[0].val == val && fresh(nodes[0])
      ensures forall k :: k in index ==> if k in old(index) then index[k] == old(index)[k] else fresh(index[k])
      ensures key !in old(index) && old(|nodes|) < cap ==> destroyed == old(destroyed) && evicted == old(evicted)
      ensures key !in old(index) && old(|nodes|) == cap > 0 ==>
                var victim := old(nodes)[cap - 1];
                if Handles(victim) == 0 then destroyed == old(destroyed) + [victim] && evicted == old(evicted)
                else destroyed == old(destroyed) && evicted == old(evicted) + {victim}
    {
      var newNode := new CacheNode(key, val);
      IndexedKeys(nodes, index, key);
      if newNode.key !in index {
        assert newNode !in held && newNode !in evicted && newNode !in destroyed;
        PushFront(newNode);
        if |nodes| > cap {
          EraseLast();
        }
      } else {
        Splice(index[newNode.key]);
      }
    }

    /** `phantom_erase_node(nodes.back())`. */
    method EraseLast()
      requires Indexed() && CountsOk() && GarbageOk() && nodes != []
      modifies this`nodes, this`index, this`garbageStation, this`destroyed, this`evicted, nodes[|nodes| - 1]
      ensures nodes == old(nodes)[..|old(nodes)| - 1] && Keys() == old(Keys())[..|old(nodes)| - 1]
      ensures index == old(index) - {old(nodes)[|old(nodes)| - 1].key}
      ensures Indexed() && CountsOk() && GarbageOk()
      ensures var victim := old(nodes)[|old(nodes)| - 1];
              if Handles(victim) == 0 then destroyed == old(destroyed) + [victim] && evicted == old(evicted)
              else destroyed == old(destroyed) && evicted == old(evicted) + {victim}
    {
      NodesDistinct(nodes);
      WithoutLast(nodes);
      WithoutLast(Keys());
      PhantomEraseNode(nodes[|nodes| - 1]);
    }

    /** Keeps all counts right when they were, and otherwise destroys by the count it finds. */
    method Erase(key: K)
      requires Indexed()
      modifies this, nodes
      ensures Indexed() && held == old(held) && index == old(index) - {key}
      ensures Keys() == Step(cap, old(Keys()), Op.Erase(key))
      ensures forall n :: n in nodes ==> n in old(nodes)
      ensures key !in old(index) ==> nodes == old(nodes) && destroyed == old(destroyed) && evicted == old(evicted)
      ensures key in old(index) ==>
                var node := old(index)[key];
                if old(node.refCnt) <= 1 then destroyed == old(destroyed) + [node] && evicted == old(evicted)
                else destroyed == old(destroyed) && evicted == old(evicted) + {node}
      ensures old(Valid()) ==> Valid()
      ensures old(Valid()) && key in old(index) ==> old(index[key].refCnt) == 1 + Handles(old(index)[key])
    {
      IndexedKeys(nodes, index, key);
      if key in index {
        assert CountsOk() ==> CachedOk(index[key]);
        PhantomEraseNode(index[key]);
      }
    }

    /** A hit hands out one more reference to the cached node. */
    method Get(key: K) returns (r: Option<CacheNode<K, V>>)
      requires Valid()
      modifies this`nodes, this`index, this`held, nodes
      ensures Valid()
      ensures Keys() == Step(cap, old(Keys()), Op.Get(key))
      ensures forall n :: n in nodes ==> n in old(nodes)
      ensures r == (if key in old(index) then Some(old(index)[key]) else None) && index == old(index)
      ensures r.Some? ==> held == old(held)[r.value := old(Handles(r.value)) + 1] && r.value in nodes
      ensures r.None? ==> held == old(held)
    {
      IndexedKeys(nodes, index, key);
      if key !in index {
        return None;
      }
      var node := index[key];
      Splice(node);
      node.refCnt := node.refCnt + 1;
      held := held[node := Handles(node) + 1];
      return Some(node);
    }

    /** `client` is the node whose handle the caller gives back under its key. All counts stay exact if and
        only if that node, with a handle out, is the one cached: the reference is taken from the cached node
        whoever got it. For an uncached key there is no node. */
    method Release(key: K, ghost client: CacheNode<K, V>)
        returns (outcome: ReleaseOutcome)
      requires Valid()
      modifies this`garbageStation, this`destroyed, this`held, nodes
      ensures outcome == Undefined <==> key !in index
      ensures nodes == old(nodes) && index == old(index) && evicted == old(evicted)
      ensures outcome == Undefined ==> held == old(held)
      ensures outcome == Released ==>
                && held == (if old(Handles(client)) > 0 then old(held)[client := old(Handles(client)) - 1]
                            else old(held))
                && index[key].refCnt == old(index[key].refCnt) - 1
                && (Valid() <==> client == index[key] && old(Handles(client)) > 0)
      ensures outcome == Released && old(Handles(index[key])) > 0 ==> destroyed == old(destroyed)
      ensures outcome == Released && old(Handles(index[key])) == 0 ==> index[key] in nodes && index[key] in destroyed
      ensures forall n :: n in nodes && key in index && n != index[key] ==> n.refCnt == old(n.refCnt)
    {
      if key !in index {
        return Undefined;
      }
      var node := index[key];
      assert CachedOk(node);
      Unref(node);
      if Handles(client) > 0 {
        held := held[client := Handles(client) - 1];
      }
      assert client != node || old(Handles(client)) == 0 ==> !CachedOk(node);
      return Released;
    }
  }

}
