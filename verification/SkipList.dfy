/** The skip list behind the memtable: a head node and up to twelve forward chains.

    The list is described by the ghost sequence `all`: the head, then the live nodes in key
    order. A node's height is the length of its `next` array, and the invariant says that
    every link on level `i` leads to the next node of height above `i`. */
module SkipLists {
  import opened ByteStrings
  import opened SortedPairs
  import opened Levels

  const K_MAX_HEIGHT := 12

  class Node {
    const key: Bytes
    const value: Bytes
    const next: array<Node?>

    constructor (key: Bytes, level: nat, value: Bytes)
      ensures this.key == key && this.value == value
      ensures fresh(next) && next.Length == level
      ensures forall i :: 0 <= i < level ==> next[i] == null
    {
      this.key := key;
      this.value := value;
      this.next := new Node?[level](_ => null);
    }

    function GetLevel(): nat {
      next.Length
    }
  }

  // ---------- what a sequence of nodes stands for ----------

  ghost function Heights(s: seq<Node>): (h: seq<nat>)
    ensures |h| == |s|
    ensures forall p {:trigger h[p]} :: 0 <= p < |h| ==> h[p] == s[p].GetLevel()
  {
    seq(|s|, p requires 0 <= p < |s| => s[p].GetLevel())
  }

  ghost function At(s: seq<Node>, p: nat): Node? {
    if p < |s| then s[p] else null
  }

  ghost function Arrays(s: seq<Node>): set<object> {
    set n | n in s :: n.next
  }

  /** The pairs of the nodes after the head. */
  ghost function PairsOf(s: seq<Node>): (ps: seq<Pair>)
    requires s != []
    ensures |ps| == |s| - 1
    ensures forall i {:trigger ps[i]} :: 0 <= i < |ps| ==> ps[i] == Pair(s[i + 1].key, s[i + 1].value)
  {
    seq(|s| - 1, i requires 0 <= i < |s| - 1 => Pair(s[i + 1].key, s[i + 1].value))
  }

  ghost predicate Apart(a: Node, b: Node) {
    a != b && a.next != b.next
  }

  ghost predicate Distinct(s: seq<Node>) {
    forall p, q {:trigger Apart(s[p], s[q])} ::
      0 <= p < |s| && 0 <= q < |s| && p != q ==> Apart(s[p], s[q])
  }

  /** The level-`i` link of the node at `p`, if it has one, leads to the next node taller than `i`. */
  ghost predicate LinkOk(s: seq<Node>, p: nat, i: nat)
    requires p < |s|
    reads s[p].next
  {
    i < s[p].GetLevel() ==> s[p].next[i] == At(s, NextTall(Heights(s), p, i))
  }

  ghost predicate Linked(s: seq<Node>, i: nat)
    reads Arrays(s)
  {
    forall p :: 0 <= p < |s| ==> LinkOk(s, p, i)
  }

  /** The part of the invariant that no pointer write can break. */
  ghost predicate Shape(head: Node, s: seq<Node>, top: nat) {
    && s != [] && s[0] == head
    && head.GetLevel() == K_MAX_HEIGHT
    && 1 <= top <= K_MAX_HEIGHT
    && (forall p :: 1 <= p < |s| ==> 1 <= Heights(s)[p] <= top)
    && Distinct(s)
    && Sorted(PairsOf(s))
  }

  // ---------- insertion ----------

  lemma {:induction false} HeightsAfterInsert(s: seq<Node>, k: nat, n: Node)
    requires k <= |s|
    ensures Heights(InsertAt(s, k, n)) == InsertAt(Heights(s), k, n.GetLevel())
  {
  }

  lemma {:induction false} LinkAfterSplice(s: seq<Node>, k: nat, n: Node, i: nat, p0: nat, p: nat)
    requires 1 <= k <= |s| && i < n.GetLevel() && IsPrev(Heights(s), k, i, p0)
    requires p < |s| && (p == p0 || LinkOk(s, p, i))
    requires s[p0].next[i] == n
    ensures LinkOk(InsertAt(s, k, n), if p < k then p else p + 1, i)
  {
    HeightsAfterInsert(s, k, n);
    NextAfterInsert(Heights(s), k, n.GetLevel(), i, p);
    if p < k && p != p0 && i < s[p].GetLevel() {
      PrevUnique(Heights(s), k, i, p, p0);
    }
  }

  /** Splicing `n` in behind its predecessor `p0` relinks level `i`. */
  lemma {:induction false} LinkedAfterSplice(s: seq<Node>, k: nat, n: Node, i: nat, p0: nat)
    requires 1 <= k <= |s| && i < n.GetLevel() && IsPrev(Heights(s), k, i, p0)
    requires forall p :: 0 <= p < |s| && p != p0 ==> LinkOk(s, p, i)
    requires s[p0].next[i] == n
    requires n.next[i] == At(s, NextTall(Heights(s), p0, i))
    ensures Linked(InsertAt(s, k, n), i)
  {
    var t := InsertAt(s, k, n);
    forall j | 0 <= j < |t| ensures LinkOk(t, j, i) {
      if j == k {
        HeightsAfterInsert(s, k, n);
        NextOfInserted(Heights(s), k, n.GetLevel(), i, p0);
      } else {
        LinkAfterSplice(s, k, n, i, p0, if j < k then j else j - 1);
      }
    }
  }

  lemma {:induction false} LinkAboveInserted(s: seq<Node>, k: nat, n: Node, i: nat, p: nat, j: nat, t: seq<Node>)
    requires 1 <= k <= |s| && n.GetLevel() <= i && p < |s| && LinkOk(s, p, i)
    requires j == (if p < k then p else p + 1) && t == InsertAt(s, k, n)
    ensures LinkOk(t, j, i)
  {
    HeightsAfterInsert(s, k, n);
    NextAfterInsert(Heights(s), k, n.GetLevel(), i, p);
  }

  /** Levels at or above the new node's height do not see it. */
  lemma {:induction false} LinkedAboveInserted(s: seq<Node>, k: nat, n: Node, i: nat)
    requires 1 <= k <= |s| && n.GetLevel() <= i && Linked(s, i)
    ensures Linked(InsertAt(s, k, n), i)
  {
    var t := InsertAt(s, k, n);
    forall j | 0 <= j < |t| ensures LinkOk(t, j, i) {
      if j != k {
        LinkAboveInserted(s, k, n, i, if j < k then j else j - 1, j, t);
      }
    }
  }

  lemma {:induction false} DistinctAfterInsert(s: seq<Node>, k: nat, n: Node)
    requires Distinct(s) && k <= |s| && n !in s && n.next !in Arrays(s)
    ensures Distinct(InsertAt(s, k, n))
    ensures Arrays(InsertAt(s, k, n)) == Arrays(s) + {n.next}
  {
    var t := InsertAt(s, k, n);
    assert t[k] == n;
    forall p, q | 0 <= p < |t| && 0 <= q < |t| && p != q ensures Apart(t[p], t[q]) {
      if p != k && q != k {
        assert Apart(s[if p < k then p else p - 1], s[if q < k then q else q - 1]);
      }
    }
    forall m | m in s ensures m in t {
      var j :| 0 <= j < |s| && s[j] == m;
      assert t[if j < k then j else j + 1] == m;
    }
  }

  /** The list-level effect of putting `n` in at its rank. */
  lemma {:induction false} PairsAfterInsert(s: seq<Node>, n: Node)
    requires s != [] && Sorted(PairsOf(s)) && !HasKey(PairsOf(s), n.key)
    ensures PairsOf(InsertAt(s, 1 + Rank(PairsOf(s), n.key), n)) == Put(PairsOf(s), n.key, n.value)
  {
    var ps, r := PairsOf(s), Rank(PairsOf(s), n.key);
    var qs, ms := InsertAt(ps, r, Pair(n.key, n.value)), PairsOf(InsertAt(s, 1 + r, n));
    forall j | 0 <= j < |ms| ensures ms[j] == qs[j] {
    }
  }

  lemma {:induction false} ShapeAfterInsert(head: Node, s: seq<Node>, top: nat, n: Node, top': nat)
    requires Shape(head, s, top) && top <= top' <= K_MAX_HEIGHT && 1 <= n.GetLevel() <= top'
    requires !HasKey(PairsOf(s), n.key) && n !in s && n.next !in Arrays(s)
    ensures var k := 1 + Rank(PairsOf(s), n.key);
            && Shape(head, InsertAt(s, k, n), top')
            && Arrays(InsertAt(s, k, n)) == Arrays(s) + {n.next}
            && PairsOf(InsertAt(s, k, n)) == Put(PairsOf(s), n.key, n.value)
            && Usage(PairsOf(InsertAt(s, k, n))) == Usage(PairsOf(s)) + |n.key| + |n.value|
  {
    var k := 1 + Rank(PairsOf(s), n.key);
    PairsAfterInsert(s, n);
    PutSorted(PairsOf(s), n.key, n.value);
    PutUsage(PairsOf(s), n.key, n.value);
    DistinctAfterInsert(s, k, n);
    HeightsAfterInsert(s, k, n);
  }

  // ---------- deletion ----------

  lemma {:induction false} HeightsAfterDrop(s: seq<Node>, k: nat)
    requires k < |s|
    ensures Heights(DropAt(s, k)) == DropAt(Heights(s), k)
  {
  }

  lemma {:induction false} LinkAfterBypass(s: seq<Node>, k: nat, i: nat, p0: nat, p: nat, j: nat, t: seq<Node>)
    requires 1 <= k < |s| && i < s[k].GetLevel() && IsPrev(Heights(s), k, i, p0)
    requires j == (if p < k then p else p - 1) && t == DropAt(s, k)
    requires p < |s| && p != k && (p == p0 || LinkOk(s, p, i))
    requires s[p0].next[i] == At(s, NextTall(Heights(s), k, i))
    ensures LinkOk(t, j, i)
  {
    hide NextTall;
    HeightsAfterDrop(s, k);
    NextAfterDrop(Heights(s), k, i, p);
    if p < k && p != p0 && i < s[p].GetLevel() {
      PrevUnique(Heights(s), k, i, p, p0);
    }
  }

  /** Bypassing the node at `k` from its predecessor `p0` relinks level `i` without it. */
  lemma {:induction false} LinkedAfterBypass(s: seq<Node>, k: nat, i: nat, p0: nat)
    requires 1 <= k < |s| && i < s[k].GetLevel() && IsPrev(Heights(s), k, i, p0)
    requires forall p :: 0 <= p < |s| && p != p0 && p != k ==> LinkOk(s, p, i)
    requires s[p0].next[i] == At(s, NextTall(Heights(s), k, i))
    ensures Linked(DropAt(s, k), i)
  {
    var t := DropAt(s, k);
    forall j | 0 <= j < |t| ensures LinkOk(t, j, i) {
      LinkAfterBypass(s, k, i, p0, if j < k then j else j + 1, j, t);
    }
  }

  lemma {:induction false} LinkAboveDropped(s: seq<Node>, k: nat, i: nat, p: nat, j: nat, t: seq<Node>)
    requires 1 <= k < |s| && s[k].GetLevel() <= i && p < |s| && p != k && LinkOk(s, p, i)
    requires j == (if p < k then p else p - 1) && t == DropAt(s, k)
    ensures LinkOk(t, j, i)
  {
    HeightsAfterDrop(s, k);
    NextAfterDrop(Heights(s), k, i, p);
  }

  lemma {:induction false} LinkedAboveDropped(s: seq<Node>, k: nat, i: nat)
    requires 1 <= k < |s| && s[k].GetLevel() <= i && Linked(s, i)
    ensures Linked(DropAt(s, k), i)
  {
    var t := DropAt(s, k);
    forall j | 0 <= j < |t| ensures LinkOk(t, j, i) {
      LinkAboveDropped(s, k, i, if j < k then j else j + 1, j, t);
    }
  }

  lemma {:induction false} DistinctAfterDrop(s: seq<Node>, k: nat)
    requires Distinct(s) && k < |s|
    ensures Distinct(DropAt(s, k))
    ensures Arrays(DropAt(s, k)) <= Arrays(s)
    ensures s[k] !in DropAt(s, k)
  {
    var t := DropAt(s, k);
    forall p, q | 0 <= p < |t| && 0 <= q < |t| && p != q ensures Apart(t[p], t[q]) {
      assert Apart(s[if p < k then p else p + 1], s[if q < k then q else q + 1]);
    }
    forall j | 0 <= j < |t| ensures t[j] in s && t[j] != s[k] {
      assert Apart(s[if j < k then j else j + 1], s[k]);
    }
  }

  lemma {:induction false} PairsAfterDrop(s: seq<Node>, key: Bytes)
    requires s != [] && Sorted(PairsOf(s)) && HasKey(PairsOf(s), key)
    ensures 1 + Rank(PairsOf(s), key) < |s|
    ensures PairsOf(DropAt(s, 1 + Rank(PairsOf(s), key))) == Remove(PairsOf(s), key)
  {
    RankSplits(PairsOf(s), key);
    var ps, r := PairsOf(s), Rank(PairsOf(s), key);
    var qs, ms := DropAt(ps, r), PairsOf(DropAt(s, 1 + r));
    forall j | 0 <= j < |ms| ensures ms[j] == qs[j] {
    }
  }

  lemma {:induction false} ShapeAfterDrop(head: Node, s: seq<Node>, top: nat, key: Bytes)
    requires Shape(head, s, top) && HasKey(PairsOf(s), key)
    ensures 1 + Rank(PairsOf(s), key) < |s|
    ensures var k := 1 + Rank(PairsOf(s), key);
            && s[k].key == key
            && Shape(head, DropAt(s, k), top)
            && Arrays(DropAt(s, k)) <= Arrays(s)
            && PairsOf(DropAt(s, k)) == Remove(PairsOf(s), key)
            && Usage(PairsOf(DropAt(s, k))) == Usage(PairsOf(s)) - |key| - |s[k].value|
  {
    var k := 1 + Rank(PairsOf(s), key);
    RankSplits(PairsOf(s), key);
    PairsAfterDrop(s, key);
    RemoveSorted(PairsOf(s), key);
    RemoveUsage(PairsOf(s), key);
    DistinctAfterDrop(s, k);
    HeightsAfterDrop(s, k);
  }

  /** For the levels from `from` up to `|at|`, `prev` holds the last node before position `k`;
      higher levels were not searched. */
  ghost predicate Found(s: seq<Node>, k: nat, prev: seq<Node?>, at: seq<nat>, from: nat) {
    && |prev| == K_MAX_HEIGHT && |at| <= K_MAX_HEIGHT
    && (forall l {:trigger at[l]} :: from <= l < |at| ==> IsPrev(Heights(s), k, l, at[l]) && prev[l] == s[at[l]])
    && (forall l :: |at| <= l < K_MAX_HEIGHT ==> prev[l] == null)
  }

  lemma {:induction false} FoundOneMore(s: seq<Node>, k: nat, prev: seq<Node?>, at: seq<nat>, level: nat, c: nat)
    requires Found(s, k, prev, at, level + 1) && level < |at|
    requires IsPrev(Heights(s), k, level, c)
    ensures Found(s, k, prev[level := s[c]], at[level := c], level)
  {
  }

  /** For the levels of the target at `k`, from `from` up, `prev` holds the node that links to it. */
  ghost predicate FoundTarget(s: seq<Node>, k: nat, prev: seq<Node?>, at: seq<nat>, from: nat) {
    && k < |s| && |prev| == K_MAX_HEIGHT == |at| && s[k].GetLevel() <= K_MAX_HEIGHT
    && (forall l {:trigger at[l]} :: from <= l < s[k].GetLevel() ==>
        IsPrev(Heights(s), k, l, at[l]) && prev[l] == s[at[l]])
  }

  lemma {:induction false} TargetOneMore(s: seq<Node>, k: nat, prev: seq<Node?>, at: seq<nat>, level: nat, c: nat)
    requires FoundTarget(s, k, prev, at, level + 1) && level < K_MAX_HEIGHT && c < |s|
    requires level < s[k].GetLevel() ==> IsPrev(Heights(s), k, level, c)
    ensures FoundTarget(s, k, prev[level := s[c]], at[level := c], level)
  {
  }

  /** On each of its levels the target is what its recorded predecessor links to. */
  lemma {:induction false} TargetLink(s: seq<Node>, k: nat, prev: seq<Node?>, at: seq<nat>, i: nat)
    requires FoundTarget(s, k, prev, at, 0) && i < s[k].GetLevel() && Linked(s, i)
    ensures at[i] < k && IsPrev(Heights(s), k, i, at[i]) && prev[i] == s[at[i]]
    ensures i < s[at[i]].GetLevel() && s[at[i]].next[i] == s[k]
  {
    var p0 := at[i];
    assert IsPrev(Heights(s), k, i, p0) && Heights(s)[k] == s[k].GetLevel();
    assert LinkOk(s, p0, i);
  }

  // ---------- chains as the searches walk them ----------

  /** Following level-`i` links from `n` visits exactly `c` and then ends. */
  ghost predicate IsChain(n: Node?, i: nat, c: seq<Node>)
    reads Arrays(c)
    decreases c
  {
    if c == [] then n == null
    else n == c[0] && i < c[0].GetLevel() && IsChain(c[0].next[i], i, c[1..])
  }

  /** The nodes taller than `i`, in order. */
  ghost function Taller(s: seq<Node>, i: nat): seq<Node> {
    if s == [] then [] else (if i < s[0].GetLevel() then [s[0]] else []) + Taller(s[1..], i)
  }

  lemma {:induction false} TallerFrom(s: seq<Node>, p: nat, i: nat)
    requires p < |s|
    ensures Taller(s[p + 1..], i)
            == var q := NextTall(Heights(s), p, i); if q < |s| then [s[q]] + Taller(s[q + 1..], i) else []
    decreases |s| - p
  {
    if p + 1 < |s| {
      assert s[p + 1..][1..] == s[p + 2..];
      assert Heights(s)[p + 1] == s[p + 1].GetLevel();
      if s[p + 1].GetLevel() <= i {
        TallerFrom(s, p + 1, i);
      }
    }
  }

  lemma {:induction false} ChainFrom(s: seq<Node>, p: nat, i: nat)
    requires p < |s| && i < s[p].GetLevel() && Linked(s, i)
    ensures IsChain(s[p].next[i], i, Taller(s[p + 1..], i))
    decreases |s| - p
  {
    TallerFrom(s, p, i);
    var q := NextTall(Heights(s), p, i);
    assert LinkOk(s, p, i);
    if q < |s| {
      assert i < Heights(s)[q];
      ChainFrom(s, q, i);
      var c := [s[q]] + Taller(s[q + 1..], i);
      assert c[1..] == Taller(s[q + 1..], i);
    }
  }

  class SkipList {
    const head: Node
    var maxLevel: nat
    var size: int
    var memUsage: int

    ghost var all: seq<Node>

    ghost function Repr(): set<object>
      reads this
    {
      {this} + Arrays(all)
    }

    /** The chains are right; the counters may be in the middle of an update. */
    ghost predicate Ordered()
      reads this, Arrays(all)
    {
      && Shape(head, all, maxLevel)
      && (forall i :: 0 <= i < K_MAX_HEIGHT ==> Linked(all, i))
    }

    ghost predicate Valid()
      reads this, Arrays(all)
    {
      && Ordered()
      && size == |all| - 1
      && memUsage == Usage(PairsOf(all))
    }

    /** The live pairs in key order. */
    ghost function Pairs(): seq<Pair>
      reads this
      requires all != []
    {
      PairsOf(all)
    }

    constructor ()
      ensures Valid() && fresh(Repr())
      ensures Pairs() == []
    {
      head := new Node([], K_MAX_HEIGHT, []);
      maxLevel := 1;
      size := 0;
      memUsage := 0;
      all := [head];
    }

    function GetCurrentHeight(): nat
      reads this
    {
      maxLevel
    }

    function GetSize(): int
      reads this
    {
      size
    }

    function GetMemUsage(): int
      reads this
    {
      memUsage
    }

    /** On every level the links from the head visit exactly the nodes taller than the level,
        in key order, and nothing else. */
    lemma {:induction false} ChainsAreExact(i: nat)
      requires Ordered() && i < K_MAX_HEIGHT
      ensures IsChain(head.next[i], i, Taller(all[1..], i))
    {
      ChainFrom(all, 0, i);
    }

    /** What a search standing at `c` learns from the level-`level` link: `q` is where it leads. */
    lemma {:induction false} StepFrom(key: Bytes, level: nat, c: nat)
      requires Ordered() && level < K_MAX_HEIGHT && c < |all| && level < all[c].GetLevel()
      requires c < 1 + Rank(PairsOf(all), key)
      ensures var q := NextTall(Heights(all), c, level);
              var k := 1 + Rank(PairsOf(all), key);
              && all[c].next[level] == At(all, q)
              && (q < |all| ==> level < all[q].GetLevel())
              && (level == 0 ==> q == c + 1 || q == |all|)
              && (q < |all| ==> (q < k <==> Less(all[q].key, key)))
              && (q < |all| ==> (all[q].key == key <==> q == k && HasKey(PairsOf(all), key)))
              && (HasKey(PairsOf(all), key) ==> k < |all| && all[k].key == key && 0 < all[k].GetLevel())
    {
      var q := NextTall(Heights(all), c, level);
      var ps := PairsOf(all);
      assert Linked(all, level) && LinkOk(all, c, level);
      RankSplits(ps, key);
      if q < |all| {
        assert level < Heights(all)[q];
        assert ps[q - 1].key == all[q].key;
        LessTrichotomy(key, all[q].key);
      }
      if HasKey(ps, key) {
        assert ps[Rank(ps, key)].key == key;
        assert 1 <= Heights(all)[1 + Rank(ps, key)];
      }
      if level == 0 && c + 1 < |all| {
        assert 1 <= Heights(all)[c + 1];
      }
    }

    method Contains(key: Bytes) returns (found: bool)
      requires Ordered()
      ensures found <==> HasKey(Pairs(), key)
    {
      var level := GetCurrentHeight() - 1;
      var cur := head;
      ghost var c := 0;
      while true
        invariant Ordered() && 0 <= level < maxLevel
        invariant 0 <= c < |all| && all[c] == cur && level < cur.GetLevel()
        invariant c < 1 + Rank(PairsOf(all), key)
        decreases level, |all| - c
      {
        var next := cur.next[level];
        StepFrom(key, level, c);
        if next == null {
          if level == 0 {
            return false;
          } else {
            level := level - 1;
          }
        } else {
          if next.key == key {
            return true;
          } else if Less(next.key, key) {
            cur, c := next, NextTall(Heights(all), c, level);
          } else {
            if level == 0 {
              return false;
            } else {
              level := level - 1;
            }
          }
        }
      }
    }

    method Get(key: Bytes) returns (r: Option<Bytes>)
      requires Ordered()
      ensures r == if key in ToMap(Pairs()) then Some(ToMap(Pairs())[key]) else None
    {
      hide Distinct, Sorted, ToMap, HasKey;
      var level := GetCurrentHeight() - 1;
      var cur := head;
      ghost var c := 0;
      HasKeyInMap(PairsOf(all), key);
      ToMapHolds(PairsOf(all));
      while true
        invariant Ordered() && 0 <= level < maxLevel
        invariant 0 <= c < |all| && all[c] == cur && level < cur.GetLevel()
        invariant c < 1 + Rank(PairsOf(all), key)
        decreases level, |all| - c
      {
        var next := cur.next[level];
        StepFrom(key, level, c);
        if next == null {
          if level == 0 {
            return None;
          } else {
            level := level - 1;
          }
        } else {
          if next.key == key {
            assert PairsOf(all)[Rank(PairsOf(all), key)] == Pair(next.key, next.value);
            return Some(next.value);
          } else if Less(next.key, key) {
            cur, c := next, NextTall(Heights(all), c, level);
          } else {
            if level == 0 {
              return None;
            } else {
              level := level - 1;
            }
          }
        }
      }
    }

    /** The random height: each of at most eleven coin tosses may add a level. */
    method RandomLevel() returns (level: nat)
      ensures 1 <= level <= 12
    {
      level := 1;
      var heads: bool := *;
      while level < K_MAX_HEIGHT && heads
        invariant 1 <= level <= K_MAX_HEIGHT
        decreases K_MAX_HEIGHT - level
      {
        level := level + 1;
        heads := *;
      }
    }

    /** `prev[level] = cur` in a descent that has come down to `level`. */
    method Record(prev: array<Node?>, level: nat, cur: Node, ghost k: nat, ghost at: seq<nat>, ghost c: nat)
      requires Ordered() && prev !in Arrays(all)
      requires level < |at| && Found(all, k, prev[..], at, level + 1)
      requires IsPrev(Heights(all), k, level, c) && cur == all[c]
      modifies prev
      ensures Ordered() && Found(all, k, prev[..], at[level := c], level)
    {
      FoundOneMore(all, k, prev[..], at, level, c);
      ghost var pv := prev[..][level := cur];
      prev[level] := cur;
      assert prev[..] == pv;
    }

    /** Records in `prev[l]`, for every level in use, the last node of that level with a key below `key`. */
    method FindPrevNode(key: Bytes, prev: array<Node?>) returns (ghost at: seq<nat>)
      requires Ordered() && prev !in Arrays(all)
      requires prev.Length == K_MAX_HEIGHT && forall l :: 0 <= l < K_MAX_HEIGHT ==> prev[l] == null
      modifies prev
      ensures |at| == maxLevel
      ensures Found(all, 1 + Rank(PairsOf(all), key), prev[..], at, 0)
    {
      hide Distinct, Sorted, HasKey, PairsOf, Linked;
      var level := GetCurrentHeight() - 1;
      var cur := head;
      ghost var c := 0;
      at := seq(maxLevel, _ => 0);
      while true
        invariant Ordered() && 0 <= level < maxLevel == |at|
        invariant 0 <= c < |all| && all[c] == cur && level < cur.GetLevel()
        invariant c < 1 + Rank(PairsOf(all), key)
        invariant Found(all, 1 + Rank(PairsOf(all), key), prev[..], at, level + 1)
        decreases level, |all| - c
      {
        var nextNode := cur.next[level];
        StepFrom(key, level, c);
        assert level < Heights(all)[c];
        if nextNode == null || !Less(nextNode.key, key) {
          Record(prev, level, cur, 1 + Rank(PairsOf(all), key), at, c);
          at := at[level := c];
          if level > 0 {
            level := level - 1;
          } else {
            return;
          }
        } else {
          cur, c := nextNode, NextTall(Heights(all), c, level);
        }
      }
    }

    /** The pointer writes of one round of the linking loop of `Insert`: link `n` in behind `prev`,
        or behind the head when the descent did not search this level. */
    method Splice(prev: Node?, n: Node, i: nat)
      requires i < n.GetLevel() && i < head.GetLevel() && n.next != head.next
      requires prev != null ==> i < prev.GetLevel() && n.next != prev.next
      requires prev == null ==> head.next[i] == null
      modifies n.next, (if prev == null then head else prev).next
      ensures var p := if prev == null then head else prev;
              && p.next[..] == old(p.next[..])[i := n]
              && n.next[..] == old(n.next[..])[i := old(p.next[i])]
    {
      if prev == null {
        n.next[i] := null;
        head.next[i] := n;
      } else {
        n.next[i] := prev.next[i];
        prev.next[i] := n;
      }
    }

    /** Splicing at level `i` relinks that level and leaves the others alone. */
    method SpliceLevel(prev: Node?, n: Node, i: nat, ghost s: seq<Node>, ghost k: nat, ghost p0: nat)
      requires Distinct(s) && s != [] && s[0] == head && head.GetLevel() == K_MAX_HEIGHT
      requires i < n.GetLevel() <= K_MAX_HEIGHT && n !in s && n.next !in Arrays(s)
      requires IsPrev(Heights(s), k, i, p0) && 1 <= k && Linked(s, i)
      requires prev == s[p0] || (prev == null && p0 == 0 && NextTall(Heights(s), 0, i) == |s|)
      modifies s[p0].next, n.next
      ensures Linked(InsertAt(s, k, n), i)
      ensures forall j: nat :: j != i && old(Linked(s, j)) ==> Linked(s, j)
      ensures forall j: nat :: j != i && old(Linked(InsertAt(s, k, n), j)) ==> Linked(InsertAt(s, k, n), j)
    {
      assert LinkOk(s, p0, i);
      Splice(prev, n, i);
      ghost var t := InsertAt(s, k, n);
      assert forall j: nat :: j != i && old(Linked(s, j)) ==> Linked(s, j) by {
        forall j: nat, p | j != i && old(Linked(s, j)) && 0 <= p < |s| ensures LinkOk(s, p, j) {
          assert old(LinkOk(s, p, j));
          assert p == p0 || Apart(s[p], s[p0]);
          assert j < s[p].GetLevel() ==> s[p].next[j] == s[p].next[..][j] == old(s[p].next[..])[j];
        }
      }
      assert forall j: nat :: j != i && old(Linked(t, j)) ==> Linked(t, j) by {
        forall j: nat, p | j != i && old(Linked(t, j)) && 0 <= p < |t| ensures LinkOk(t, p, j) {
          assert old(LinkOk(t, p, j));
          assert p == p0 || p == k || Apart(s[if p < k then p else p - 1], s[p0]);
          assert j < t[p].GetLevel() ==> t[p].next[j] == t[p].next[..][j] == old(t[p].next[..])[j];
        }
      }
      assert Linked(t, i) by {
        assert s[p0].next[i] == s[p0].next[..][i] && n.next[i] == n.next[..][i];
        forall p | 0 <= p < |s| && p != p0 ensures LinkOk(s, p, i) {
          assert old(LinkOk(s, p, i)) && Apart(s[p], s[p0]);
        }
        LinkedAfterSplice(s, k, n, i, p0);
      }
    }

    /** The linking loop of `Insert`; the levels in use were searched and have their predecessor in `prev`. */
    method LinkNode(prev: array<Node?>, n: Node, ghost s: seq<Node>, ghost k: nat, ghost at: seq<nat>)
      requires Distinct(s) && s != [] && s[0] == head && head.GetLevel() == K_MAX_HEIGHT
      requires 1 <= n.GetLevel() <= K_MAX_HEIGHT && n !in s && n.next !in Arrays(s)
      requires prev.Length == K_MAX_HEIGHT && prev !in Arrays(s) && prev != n.next
      requires 1 <= k <= |s| && Found(s, k, prev[..], at, 0)
      requires forall p :: 1 <= p < |s| ==> Heights(s)[p] <= |at|
      requires forall j :: 0 <= j < K_MAX_HEIGHT ==> Linked(s, j)
      modifies Arrays(s), n.next
      ensures forall j :: 0 <= j < K_MAX_HEIGHT ==> Linked(InsertAt(s, k, n), j)
    {
      ghost var t := InsertAt(s, k, n);
      var i := 0;
      while i < n.GetLevel()
        invariant 0 <= i <= n.GetLevel()
        invariant prev[..] == old(prev[..])
        invariant forall j :: 0 <= j < i ==> Linked(t, j)
        invariant forall j :: i <= j < K_MAX_HEIGHT ==> Linked(s, j)
      {
        assert prev[i] == prev[..][i] == old(prev[..])[i];
        SpliceLevel(prev[i], n, i, s, k, if i < |at| then at[i] else 0);
        i := i + 1;
      }
      forall j | n.GetLevel() <= j < K_MAX_HEIGHT ensures Linked(t, j) {
        LinkedAboveInserted(s, k, n, j);
      }
    }

    /** Puts the node into the list; `size` and `memUsage` count it already. */
    method LinkIn(prev: array<Node?>, n: Node, ghost at: seq<nat>)
      requires Shape(head, all, |at|) && (forall j :: 0 <= j < K_MAX_HEIGHT ==> Linked(all, j))
      requires !HasKey(PairsOf(all), n.key)
      requires 1 <= n.GetLevel() <= maxLevel && |at| <= maxLevel <= K_MAX_HEIGHT && n !in all && n.next !in Arrays(all)
      requires prev !in Arrays(all) && prev != n.next
      requires Found(all, 1 + Rank(PairsOf(all), n.key), prev[..], at, 0)
      requires size == |all| && memUsage == Usage(PairsOf(all)) + |n.key| + |n.value|
      modifies this`all, Arrays(all), n.next
      ensures Valid() && Arrays(all) == Arrays(old(all)) + {n.next}
      ensures PairsOf(all) == Put(PairsOf(old(all)), n.key, n.value)
    {
      ghost var k := 1 + Rank(PairsOf(all), n.key);
      ShapeAfterInsert(head, all, |at|, n, maxLevel);
      LinkNode(prev, n, all, k, at);
      all := InsertAt(all, k, n);
    }

    method Insert(key: Bytes, value: Bytes)
      requires Valid()
      modifies Repr()
      ensures Valid() && fresh(Repr() - old(Repr()))
      ensures Pairs() == Put(old(Pairs()), key, value)
    {
      var duplicate := Contains(key);
      if duplicate {
        return;
      }
      InsertNew(key, value);
    }

    /** `Insert` after the test for duplicates. */
    method InsertNew(key: Bytes, value: Bytes)
      requires Valid() && !HasKey(Pairs(), key)
      modifies Repr()
      ensures Valid() && fresh(Repr() - old(Repr()))
      ensures Pairs() == Put(old(Pairs()), key, value)
    {
      hide Distinct, Linked;
      assert this !in Arrays(all);
      size := size + 1;
      memUsage := memUsage + |key|;
      memUsage := memUsage + |value|;

      var prev := new Node?[K_MAX_HEIGHT](_ => null);
      ghost var at := FindPrevNode(key, prev);
      var levelOfNewNode := RandomLevel();
      maxLevel := if levelOfNewNode > maxLevel then levelOfNewNode else maxLevel;
      var newNode := new Node(key, levelOfNewNode, value);
      LinkIn(prev, newNode, at);
    }

    /** `prev[level] = cur` in the descent of `Delete`. */
    method RecordTarget(prev: array<Node?>, level: nat, cur: Node, ghost k: nat, ghost at: seq<nat>, ghost c: nat)
      requires Ordered() && prev !in Arrays(all)
      requires level < K_MAX_HEIGHT && FoundTarget(all, k, prev[..], at, level + 1)
      requires c < |all| && cur == all[c]
      requires level < all[k].GetLevel() ==> IsPrev(Heights(all), k, level, c)
      modifies prev
      ensures Ordered() && FoundTarget(all, k, prev[..], at[level := c], level)
    {
      TargetOneMore(all, k, prev[..], at, level, c);
      ghost var pv := prev[..][level := cur];
      prev[level] := cur;
      assert prev[..] == pv;
    }

    /** What the descent of `Delete` learns from a link: it ends only on levels above the target,
        it hits the target exactly on the target's levels, and otherwise it can be followed or left. */
    lemma {:induction false} StepToTarget(key: Bytes, level: nat, c: nat, k: nat)
      requires Ordered() && HasKey(PairsOf(all), key) && k == 1 + Rank(PairsOf(all), key)
      requires level < maxLevel && c < k && c < |all| && level < all[c].GetLevel()
      ensures k < |all| && 0 < all[k].GetLevel() <= maxLevel
      ensures var next, q := all[c].next[level], NextTall(Heights(all), c, level);
              if next == null then 0 < level && all[k].GetLevel() <= level
              else if next.key == key then next == all[k] && level < all[k].GetLevel()
                  && IsPrev(Heights(all), k, level, c)
              else if Less(next.key, key) then c < q < k && next == all[q] && level < next.GetLevel()
              else all[k].GetLevel() <= level
    {
      StepFrom(key, level, c);
      assert Heights(all)[k] == all[k].GetLevel();
      assert level < Heights(all)[c];
    }

    lemma {:induction false} TargetBelow(key: Bytes, prev: seq<Node?>, at: seq<nat>)
      requires Ordered() && HasKey(PairsOf(all), key) && FoundTarget(all, 1 + Rank(PairsOf(all), key), prev, at, 0)
      ensures |prev| > 0 && prev[0] != null && 0 < prev[0].GetLevel()
      ensures 1 + Rank(PairsOf(all), key) < |all| && prev[0].next[0] == all[1 + Rank(PairsOf(all), key)]
    {
      var k := 1 + Rank(PairsOf(all), key);
      RankSplits(PairsOf(all), key);
      assert Linked(all, 0) && 1 <= Heights(all)[k];
      TargetLink(all, k, prev, at, 0);
    }

    /** The descent of `Delete`: for every level of the target its predecessor, and the target's height. */
    method FindTarget(key: Bytes, prev: array<Node?>) returns (levelOfTargetNode: int, ghost at: seq<nat>)
      requires Ordered() && prev !in Arrays(all) && prev.Length == K_MAX_HEIGHT
      requires HasKey(PairsOf(all), key)
      modifies prev
      ensures FoundTarget(all, 1 + Rank(PairsOf(all), key), prev[..], at, 0)
      ensures levelOfTargetNode == all[1 + Rank(PairsOf(all), key)].GetLevel() > 0
    {
      hide PairsOf, HasKey, Heights, NextTall, Apart, Rank, Less;
      var level := GetCurrentHeight() - 1;
      var cur := head;
      levelOfTargetNode := -1;
      ghost var c, k := 0, 1 + Rank(PairsOf(all), key);
      at := seq(K_MAX_HEIGHT, _ => 0);
      StepToTarget(key, level, c, k);
      ghost var h := all[k].GetLevel();
      while true
        invariant Ordered() && 0 <= level < maxLevel
        invariant 0 <= c < |all| && all[c] == cur && level < cur.GetLevel()
        invariant c < k
        invariant FoundTarget(all, k, prev[..], at, level + 1)
        invariant levelOfTargetNode == if level + 1 < h then h else -1
        decreases level, |all| - c
      {
        var next := cur.next[level];
        StepToTarget(key, level, c, k);
        if next == null {
          if level == 0 {
            assert false;
            break;
          } else {
            level := level - 1;
          }
        } else {
          if Less(next.key, key) {
            cur, c := next, NextTall(Heights(all), c, level);
          } else {
            if next.key == key {
              levelOfTargetNode := next.GetLevel();
            }
            RecordTarget(prev, level, cur, k, at, c);
            at := at[level := c];
            level := level - 1;
            if level < 0 {
              return;
            }
          }
        }
      }
    }

    /** `prev->next[i] = prev->next[i]->next[i]`: level `i` loses the target, other levels stay. */
    method BypassLevel(prev: Node, i: nat, ghost s: seq<Node>, ghost k: nat, ghost p0: nat)
      requires Distinct(s) && 1 <= k < |s| && i < s[k].GetLevel()
      requires IsPrev(Heights(s), k, i, p0) && prev == s[p0] && Linked(s, i)
      requires i < prev.GetLevel() && prev.next[i] == s[k]
      modifies prev.next
      ensures Linked(DropAt(s, k), i)
      ensures forall j: nat :: j != i && old(Linked(s, j)) ==> Linked(s, j)
      ensures forall j: nat :: j != i && old(Linked(DropAt(s, k), j)) ==> Linked(DropAt(s, k), j)
    {
      assert LinkOk(s, k, i);
      assert Apart(s[p0], s[k]);
      prev.next[i] := prev.next[i].next[i];
      ghost var t := DropAt(s, k);
      assert forall j: nat :: j != i && old(Linked(s, j)) ==> Linked(s, j) by {
        forall j: nat, p | j != i && old(Linked(s, j)) && 0 <= p < |s| ensures LinkOk(s, p, j) {
          assert old(LinkOk(s, p, j));
          assert p == p0 || Apart(s[p], s[p0]);
        }
      }
      assert forall j: nat :: j != i && old(Linked(t, j)) ==> Linked(t, j) by {
        forall j: nat, p | j != i && old(Linked(t, j)) && 0 <= p < |t| ensures LinkOk(t, p, j) {
          assert old(LinkOk(t, p, j));
          assert p == p0 || Apart(s[if p < k then p else p + 1], s[p0]);
        }
      }
      assert Linked(t, i) by {
        forall p | 0 <= p < |s| && p != p0 && p != k ensures LinkOk(s, p, i) {
          assert old(LinkOk(s, p, i)) && Apart(s[p], s[p0]);
        }
        LinkedAfterBypass(s, k, i, p0);
      }
    }

    /** The unlinking loop of `Delete`. */
    method UnlinkNode(prev: array<Node?>, levelOfTargetNode: int, ghost s: seq<Node>, ghost k: nat, ghost at: seq<nat>)
      requires Distinct(s) && 1 <= k && prev !in Arrays(s)
      requires FoundTarget(s, k, prev[..], at, 0) && levelOfTargetNode == s[k].GetLevel()
      requires forall j :: 0 <= j < K_MAX_HEIGHT ==> Linked(s, j)
      modifies Arrays(s)
      ensures forall j :: 0 <= j < K_MAX_HEIGHT ==> Linked(DropAt(s, k), j)
    {
      ghost var t := DropAt(s, k);
      var i := 0;
      while i < levelOfTargetNode
        invariant 0 <= i <= levelOfTargetNode
        invariant prev[..] == old(prev[..])
        invariant forall j :: 0 <= j < i ==> Linked(t, j)
        invariant forall j :: i <= j < K_MAX_HEIGHT ==> Linked(s, j)
      {
        TargetLink(s, k, prev[..], at, i);
        if prev[i] != null {
          assert prev[i].next[i] != null;
          BypassLevel(prev[i], i, s, k, at[i]);
        }
        i := i + 1;
      }
      forall j | s[k].GetLevel() <= j < K_MAX_HEIGHT ensures Linked(t, j) {
        LinkedAboveDropped(s, k, j);
      }
    }

    /** Takes the node out of the list; `size` and `memUsage` no longer count it. */
    method LinkOut(prev: array<Node?>, levelOfTargetNode: int, ghost key: Bytes, ghost at: seq<nat>)
      requires Ordered() && HasKey(PairsOf(all), key) && prev !in Arrays(all)
      requires FoundTarget(all, 1 + Rank(PairsOf(all), key), prev[..], at, 0)
      requires levelOfTargetNode == all[1 + Rank(PairsOf(all), key)].GetLevel()
      requires size == |all| - 2
      requires memUsage == Usage(PairsOf(all)) - |key| - |all[1 + Rank(PairsOf(all), key)].value|
      modifies this`all, Arrays(all)
      ensures Valid() && Arrays(all) <= Arrays(old(all))
      ensures PairsOf(all) == Remove(PairsOf(old(all)), key)
      ensures 1 + Rank(PairsOf(old(all)), key) < |old(all)|
      ensures all == DropAt(old(all), 1 + Rank(PairsOf(old(all)), key))
    {
      ghost var k := 1 + Rank(PairsOf(all), key);
      ShapeAfterDrop(head, all, maxLevel, key);
      UnlinkNode(prev, levelOfTargetNode, all, k, at);
      all := DropAt(all, k);
    }

    /** Removes `key`: afterwards its node is on no chain, and every other node is where it was. */
    method Delete(key: Bytes)
      requires Valid()
      modifies Repr()
      ensures Valid() && Repr() <= old(Repr())
      ensures Pairs() == Remove(old(Pairs()), key)
      ensures HasKey(old(Pairs()), key) ==>
                1 + Rank(old(Pairs()), key) < |old(all)| && all == DropAt(old(all), 1 + Rank(old(Pairs()), key))
      ensures !HasKey(old(Pairs()), key) ==> all == old(all)
    {
      var present := Contains(key);
      if present {
        DeletePresent(key);
      }
    }

    /** `Delete` after the test for presence. */
    method DeletePresent(key: Bytes)
      requires Valid() && HasKey(Pairs(), key)
      modifies Repr()
      ensures Valid() && Repr() <= old(Repr())
      ensures Pairs() == Remove(old(Pairs()), key)
      ensures 1 + Rank(old(Pairs()), key) < |old(all)| && all == DropAt(old(all), 1 + Rank(old(Pairs()), key))
    {
      hide Distinct, Linked;
      assert this !in Arrays(all);
      size := size - 1;

      var prev := new Node?[K_MAX_HEIGHT](_ => null);
      ghost var k := 1 + Rank(PairsOf(all), key);
      var levelOfTargetNode: int;
      ghost var at: seq<nat>;
      levelOfTargetNode, at := FindTarget(key, prev);
      TargetBelow(key, prev[..], at);

      memUsage := memUsage - |key|;
      memUsage := memUsage - |prev[0].next[0].value|;
      LinkOut(prev, levelOfTargetNode, key, at);
    }
  }

  /** Walks the bottom chain. */
  class SkipListIterator {
    const list: SkipList
    var node: Node?

    /** Position of `node` in `list.all`; one past the end when the walk is over. */
    ghost var pos: nat

    ghost predicate Positioned()
      reads this, list, Arrays(list.all)
    {
      list.Ordered() && 1 <= pos <= |list.all| && node == At(list.all, pos)
    }

    constructor (list: SkipList)
      ensures this.list == list && node == null
    {
      this.list := list;
      node := null;
    }

    predicate Valid()
      reads this
    {
      node != null
    }

    method MoveToFirst()
      requires list.Ordered()
      modifies this
      ensures Positioned() && pos == 1
    {
      assert Linked(list.all, 0) && LinkOk(list.all, 0, 0);
      if |list.all| > 1 {
        assert 1 <= Heights(list.all)[1];
      }
      assert this !in Arrays(list.all);
      node := list.head.next[0];
      pos := 1;
      assert list.Ordered();
    }

    lemma Exhausted()
      requires Positioned() && !Valid()
      ensures pos == |list.all| == |list.Pairs()| + 1
    {
    }

    /** The current entry is the pair at the iterator's position. */
    method Current() returns (key: Bytes, value: Bytes)
      requires Positioned() && Valid()
      ensures pos < |list.all| && Pair(key, value) == list.Pairs()[pos - 1]
    {
      key, value := node.key, node.value;
    }

    method Next()
      requires Positioned() && Valid()
      modifies this
      ensures Positioned() && pos == old(pos) + 1
    {
      var s := list.all;
      assert Linked(s, 0) && LinkOk(s, pos, 0);
      assert 1 <= Heights(s)[pos];
      if pos + 1 < |s| {
        assert 1 <= Heights(s)[pos + 1];
      }
      assert this !in Arrays(s);
      node := node.next[0];
      pos := pos + 1;
      assert list.Ordered();
    }
  }

  // ---------- whole runs ----------

  datatype ListOp = InsertOp(key: Bytes, value: Bytes) | DeleteOp(key: Bytes)

  ghost function Replay(ps: seq<Pair>, ops: seq<ListOp>): seq<Pair>
    decreases ops
  {
    if ops == [] then ps
    else
      var op := ops[0];
      Replay(match op case InsertOp(k, v) => Put(ps, k, v) case DeleteOp(k) => Remove(ps, k), ops[1..])
  }

  /** The map a run leaves: the first insertion of a key since its last deletion counts. */
  ghost function ReplayMap(m: map<Bytes, Bytes>, ops: seq<ListOp>): map<Bytes, Bytes>
    decreases ops
  {
    if ops == [] then m
    else
      var op := ops[0];
      ReplayMap(match op
                case InsertOp(k, v) => (if k in m then m else m[k := v])
                case DeleteOp(k) => m - {k}, ops[1..])
  }

  lemma {:induction false} ReplayIsMap(ps: seq<Pair>, ops: seq<ListOp>)
    requires Sorted(ps)
    ensures Sorted(Replay(ps, ops)) && ToMap(Replay(ps, ops)) == ReplayMap(ToMap(ps), ops)
    decreases ops
  {
    if ops != [] {
      match ops[0]
      case InsertOp(k, v) =>
        PutSorted(ps, k, v);
        PutMap(ps, k, v);
        ReplayIsMap(Put(ps, k, v), ops[1..]);
      case DeleteOp(k) =>
        RemoveSorted(ps, k);
        RemoveMap(ps, k);
        ReplayIsMap(Remove(ps, k), ops[1..]);
    }
  }

  /** Any run, with any heights drawn, leaves the list the run's map describes. */
  method Run(list: SkipList, ops: seq<ListOp>)
    requires list.Valid()
    modifies list.Repr()
    ensures list.Valid() && fresh(list.Repr() - old(list.Repr()))
    ensures list.Pairs() == Replay(old(list.Pairs()), ops)
    ensures ToMap(list.Pairs()) == ReplayMap(ToMap(old(list.Pairs())), ops)
    ensures list.GetSize() == |ToMap(list.Pairs())| && list.GetMemUsage() == Usage(list.Pairs())
  {
    var i := 0;
    while i < |ops|
      invariant 0 <= i <= |ops|
      invariant list.Valid() && fresh(list.Repr() - old(list.Repr()))
      invariant Replay(list.Pairs(), ops[i..]) == Replay(old(list.Pairs()), ops)
    {
      assert ops[i..][1..] == ops[i + 1..];
      match ops[i] {
        case InsertOp(k, v) => list.Insert(k, v);
        case DeleteOp(k) => list.Delete(k);
      }
      i := i + 1;
    }
    ReplayIsMap(old(list.Pairs()), ops);
    ToMapSize(list.Pairs());
  }

  /** Random heights are unobservable: two lists that held the same pairs and are driven by the same
      operations agree on contents, iteration order, size and memory use, whatever heights were drawn. */
  method RunBoth(a: SkipList, b: SkipList, ops: seq<ListOp>)
    requires a.Valid() && b.Valid() && a.Repr() !! b.Repr()
    requires a.Pairs() == b.Pairs()
    modifies a.Repr(), b.Repr()
    ensures a.all != [] && b.all != []
    ensures a.Pairs() == b.Pairs() && a.GetSize() == b.GetSize() && a.GetMemUsage() == b.GetMemUsage()
  {
    Run(a, ops);
    assert b.Valid();
    Run(b, ops);
  }
}
