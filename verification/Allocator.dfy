/** The free-list allocator: 512 size classes, a bump pool cut from 4 MB chunks, and free lists
    threaded through the free blocks themselves.

    An address is a chunk number and an offset; `links` is the first word of every block. The
    ghost `owner` says for each byte which block it belongs to, if any. */
module FreeListAllocator {
  import opened Sequences
  import opened ByteStrings

  const SLOT_NUM := 512
  const MAX_OBJ_SIZE := 4 * 1024
  const CHUNK_SIZE := 4 * 1024 * 1024
  const FILL_BLOCK_CNT := 10

  datatype Addr = Addr(chunk: nat, off: nat)

  type Ptr = Option<Addr>

  /** How a pool remainder is hung into its slot: the two assignments as the code has them, or the
      push onto the list that the comment above them describes. */
  datatype Mount = AsWritten | AsCommented

  datatype AllocResult =
    | Rejected                // null: the size is not positive
    | System                  // larger than the largest class: left to malloc
    | Block(addr: Addr)
    | NullDereference         // the process dies

  /** A request and its answer. */
  datatype Call = Call(n: int, result: AllocResult)

  function GetIndex(n: int): int
    requires n > 0
  {
    (n + 7) / 8 - 1
  }

  // ---------- bytes ----------

  predicate Covers(a: Addr, size: nat, c: nat, o: nat) {
    a.chunk == c && a.off <= o < a.off + size
  }

  type Owner = (nat, nat) -> Ptr

  /** A region that starts and ends on 8-byte boundaries inside a chunk. */
  predicate Aligned(a: Addr, size: int, chunks: nat) {
    a.chunk < chunks && a.off % 8 == 0 && size % 8 == 0 && 0 < size && a.off + size <= CHUNK_SIZE
  }

  /** Each byte of each chunk is in exactly one block, or in the pool and in no block. */
  ghost predicate Tiling(owner: Owner, blocks: map<Addr, nat>, pool: Ptr, poolSize: int, chunks: nat) {
    && (forall a :: a in blocks ==> Aligned(a, blocks[a], chunks) && blocks[a] <= MAX_OBJ_SIZE)
    && (poolSize == 0 || (pool.Some? && Aligned(pool.value, poolSize, chunks)))
    && (forall c: nat, o: nat {:trigger owner(c, o)} :: owner(c, o).Some? ==>
          owner(c, o).value in blocks && Covers(owner(c, o).value, blocks[owner(c, o).value], c, o))
    && (forall a, c: nat, o: nat {:trigger Covers(a, blocks[a], c, o)} ::
          a in blocks && Covers(a, blocks[a], c, o) ==> owner(c, o) == Some(a))
    && (forall c: nat, o: nat {:trigger owner(c, o)} :: c < chunks && o < CHUNK_SIZE ==>
          (owner(c, o) == None <==> poolSize != 0 && Covers(pool.value, poolSize, c, o)))
  }

  /** What `Tiling` says of single bytes: every byte has one home, and two blocks share no byte. */
  lemma {:induction false} TilingIsPartition(owner: Owner, blocks: map<Addr, nat>, pool: Ptr, poolSize: int,
                                             chunks: nat, c: nat, o: nat)
    requires Tiling(owner, blocks, pool, poolSize, chunks) && c < chunks && o < CHUNK_SIZE
    ensures (poolSize != 0 && Covers(pool.value, poolSize, c, o))
            <==> !exists a :: a in blocks && Covers(a, blocks[a], c, o)
    ensures forall a, b :: a in blocks && b in blocks && Covers(a, blocks[a], c, o) && Covers(b, blocks[b], c, o) ==>
            a == b
  {
    if owner(c, o).Some? {
      var a := owner(c, o).value;
      assert a in blocks && Covers(a, blocks[a], c, o);
    }
  }

  predicate Disjoint(a: Addr, m: nat, b: Addr, n: nat) {
    a.chunk != b.chunk || a.off + m <= b.off || b.off + n <= a.off
  }

  lemma {:induction false} BlocksDisjoint(owner: Owner, blocks: map<Addr, nat>, pool: Ptr, poolSize: int, chunks: nat,
                                          a: Addr, b: Addr)
    requires Tiling(owner, blocks, pool, poolSize, chunks) && a in blocks && b in blocks && a != b
    ensures Disjoint(a, blocks[a], b, blocks[b])
  {
    if !Disjoint(a, blocks[a], b, blocks[b]) {
      var o := if a.off < b.off then b.off else a.off;
      assert Covers(a, blocks[a], a.chunk, o) && Covers(b, blocks[b], a.chunk, o);
      assert false;
    }
  }

  ghost function Carved(owner: Owner, a: Addr, size: nat): Owner {
    (c: nat, o: nat) => if Covers(a, size, c, o) then Some(a) else owner(c, o)
  }

  /** Cutting a block off the front of the pool keeps the tiling. */
  lemma {:induction false} CarveTiles(owner: Owner, blocks: map<Addr, nat>, pool: Ptr, poolSize: int, chunks: nat,
                                      size: nat)
    requires Tiling(owner, blocks, pool, poolSize, chunks)
    requires 0 < size <= poolSize && size % 8 == 0 && size <= MAX_OBJ_SIZE
    ensures pool.Some? && pool.value !in blocks
    ensures Tiling(Carved(owner, pool.value, size), blocks[pool.value := size],
                   Some(Addr(pool.value.chunk, pool.value.off + size)), poolSize - size, chunks)
  {
    var p := pool.value;
    assert Covers(p, poolSize, p.chunk, p.off) && owner(p.chunk, p.off) == None;
    if p in blocks {
      assert Covers(p, blocks[p], p.chunk, p.off);
      assert false;
    }
    var owner', blocks' := Carved(owner, p, size), blocks[p := size];
    forall a, c: nat, o: nat | a in blocks' && Covers(a, blocks'[a], c, o) ensures owner'(c, o) == Some(a) {
      if a != p {
        assert a in blocks && Covers(a, blocks[a], c, o);
        assert Covers(p, size, c, o) ==> Covers(p, poolSize, c, o);
        assert owner(c, o) == Some(a);
      }
    }
  }

  /** A new chunk becomes the pool once the old pool is used up. */
  lemma {:induction false} ChunkTiles(owner: Owner, blocks: map<Addr, nat>, pool: Ptr, chunks: nat)
    requires Tiling(owner, blocks, pool, 0, chunks)
    ensures Tiling(owner, blocks, Some(Addr(chunks, 0)), CHUNK_SIZE, chunks + 1)
  {
    forall c: nat, o: nat | c < chunks + 1 && o < CHUNK_SIZE
      ensures owner(c, o) == None <==> Covers(Addr(chunks, 0), CHUNK_SIZE, c, o)
    {
    }
  }

  // ---------- lists ----------

  /** Following `links` from `p` visits exactly `l` and then a null pointer. */
  ghost predicate Chain(links: map<Addr, Ptr>, p: Ptr, l: seq<Addr>)
    decreases l
  {
    if l == [] then p == None
    else p == Some(l[0]) && l[0] in links && Chain(links, links[l[0]], l[1..])
  }

  lemma {:induction false} ChainFrame(links: map<Addr, Ptr>, links': map<Addr, Ptr>, p: Ptr, l: seq<Addr>)
    requires Chain(links, p, l)
    requires forall a :: a in l ==> a in links ==> a in links' && links'[a] == links[a]
    ensures Chain(links', p, l)
    decreases l
  {
    if l != [] {
      ChainFrame(links, links', links[l[0]], l[1..]);
    }
  }

  lemma {:induction false} ChainUnique(links: map<Addr, Ptr>, p: Ptr, l: seq<Addr>, m: seq<Addr>)
    requires Chain(links, p, l) && Chain(links, p, m)
    ensures l == m
    decreases l
  {
    if l != [] {
      ChainUnique(links, links[l[0]], l[1..], m[1..]);
      assert l == [l[0]] + l[1..] && m == [m[0]] + m[1..];
    }
  }

  /** Two blocks that link to each other are on no list that ends. */
  lemma {:induction false} CycleHasNoChain(links: map<Addr, Ptr>, a: Addr, b: Addr, l: seq<Addr>)
    requires a in links && b in links && links[a] == Some(b) && links[b] == Some(a)
    ensures !Chain(links, Some(a), l)
    decreases l
  {
    if Chain(links, Some(a), l) {
      CycleHasNoChain(links, b, a, l[1..]);
    }
  }

  /** The free lists hold dead blocks of their class, each once; and every block is live or listed. */
  ghost predicate Classified(blocks: map<Addr, nat>, live: set<Addr>, lists: seq<seq<Addr>>) {
    && |lists| == SLOT_NUM
    && (forall i :: 0 <= i < SLOT_NUM ==> NoDup(lists[i]))
    && (forall i, a :: 0 <= i < SLOT_NUM && a in lists[i] ==> a in blocks && blocks[a] == 8 * (i + 1) && a !in live)
    && (forall a :: a in live ==> a in blocks)
    && (forall a :: a in blocks && a !in live ==> exists i :: 0 <= i < SLOT_NUM && a in lists[i])
  }

  lemma {:induction false} OneClass(blocks: map<Addr, nat>, live: set<Addr>, lists: seq<seq<Addr>>, a: Addr, i: nat,
                                    j: nat)
    requires Classified(blocks, live, lists) && i < SLOT_NUM && j < SLOT_NUM && i != j && a in lists[i]
    ensures a !in lists[j]
  {
    assert blocks[a] == 8 * (i + 1);
  }

  /** A block that is nowhere yet joins the list of its class. */
  lemma {:induction false} ClassifyNew(blocks: map<Addr, nat>, live: set<Addr>, lists: seq<seq<Addr>>, a: Addr, i: nat)
    requires Classified(blocks, live, lists) && a !in blocks && i < SLOT_NUM
    ensures Classified(blocks[a := 8 * (i + 1)], live, lists[i := [a] + lists[i]])
  {
    var blocks', lists' := blocks[a := 8 * (i + 1)], lists[i := [a] + lists[i]];
    assert forall b :: b in lists'[i] <==> b == a || b in lists[i];
    NoDupPrepend(a, lists[i]);
    forall b | b in blocks' && b !in live ensures exists j :: 0 <= j < SLOT_NUM && b in lists'[j] {
      if b == a {
        assert b in lists'[i];
      } else {
        var j :| 0 <= j < SLOT_NUM && b in lists[j];
        assert b in lists'[j];
      }
    }
  }

  /** A listed block becomes live. */
  lemma {:induction false} ClassifyTake(blocks: map<Addr, nat>, live: set<Addr>, lists: seq<seq<Addr>>, i: nat)
    requires Classified(blocks, live, lists) && i < SLOT_NUM && lists[i] != []
    ensures Classified(blocks, live + {lists[i][0]}, lists[i := lists[i][1..]])
    ensures lists[i][0] in blocks && blocks[lists[i][0]] == 8 * (i + 1) && lists[i][0] !in live
  {
    var a, lists' := lists[i][0], lists[i := lists[i][1..]];
    assert forall b :: b in lists'[i] ==> b in lists[i] && b != a;
    assert a in lists[i];
    forall b | b in blocks && b !in live + {a} ensures exists j :: 0 <= j < SLOT_NUM && b in lists'[j] {
      var j :| 0 <= j < SLOT_NUM && b in lists[j];
      if j == i {
        var k :| 0 <= k < |lists[i]| && lists[i][k] == b;
        assert lists[i][1..][k - 1] == b;
      }
      assert b in lists'[j];
    }
  }

  /** A live block goes back to the list of its class. */
  lemma {:induction false} ClassifyReturn(blocks: map<Addr, nat>, live: set<Addr>, lists: seq<seq<Addr>>, a: Addr,
                                          i: nat)
    requires Classified(blocks, live, lists) && i < SLOT_NUM && a in live && blocks[a] == 8 * (i + 1)
    ensures Classified(blocks, live - {a}, lists[i := [a] + lists[i]])
  {
    var lists' := lists[i := [a] + lists[i]];
    assert forall b :: b in lists'[i] <==> b == a || b in lists[i];
    NoDupPrepend(a, lists[i]);
    forall b | b in blocks && b !in live - {a} ensures exists j :: 0 <= j < SLOT_NUM && b in lists'[j] {
      if b == a {
        assert b in lists'[i];
      } else {
        var j :| 0 <= j < SLOT_NUM && b in lists[j];
        assert b in lists'[j];
      }
    }
  }

  /** Bytes of `cnt` blocks of `size` bytes. */
  ghost function Span(cnt: nat, size: nat): nat {
    if cnt == 0 then 0 else Span(cnt - 1, size) + size
  }

  lemma {:induction false} SpanIsProduct(cnt: nat, size: nat)
    ensures Span(cnt, size) == cnt * size
  {
    if cnt != 0 {
      SpanIsProduct(cnt - 1, size);
      assert cnt * size == (cnt - 1) * size + size;
    }
  }

  lemma {:induction false} SpanGrows(k: nat, cnt: nat, size: nat)
    requires k < cnt
    ensures Span(k, size) + size <= Span(cnt, size)
  {
    if k + 1 < cnt {
      SpanGrows(k, cnt - 1, size);
    }
  }

  /** The links of the blocks that were there are as they were. */
  ghost predicate KeepsLinks(links: map<Addr, Ptr>, links': map<Addr, Ptr>, blocks: map<Addr, nat>) {
    forall a :: a in links && a in blocks ==> a in links' && links'[a] == links[a]
  }

  ghost predicate Extends(blocks: map<Addr, nat>, blocks': map<Addr, nat>) {
    forall a :: a in blocks ==> a in blocks' && blocks'[a] == blocks[a]
  }

  /** How many blocks of `size` bytes a refill cuts from a pool that has room for one. */
  function FillCount(poolSize: int, size: nat): nat
    requires 0 < size <= poolSize
  {
    if poolSize >= FILL_BLOCK_CNT * size then FILL_BLOCK_CNT else poolSize / size
  }

  /** The list that cutting `cnt` blocks from the front of the pool makes: the last one cut is its head. */
  ghost function CutList(start: Addr, size: nat, cnt: nat): (l: seq<Addr>)
    ensures |l| == cnt
  {
    if cnt == 0 then []
    else [Addr(start.chunk, start.off + Span(cnt - 1, size))] + CutList(start, size, cnt - 1)
  }

  lemma CutListNext(start: Addr, size: nat, cnt: nat)
    ensures CutList(start, size, 0) == []
    ensures CutList(start, size, cnt + 1)
            == [Addr(start.chunk, start.off + Span(cnt, size))] + CutList(start, size, cnt)
  {
  }

  class FreeListAllocate {
    const mount: Mount
    const memorySlot: array<Ptr>
    var memPoolStart: Ptr
    var memPoolSize: int
    var links: map<Addr, Ptr>

    /** Chunks obtained from malloc so far; the next one gets this number. */
    var chunks: nat

    ghost var owner: Owner
    ghost var blocks: map<Addr, nat>
    ghost var live: set<Addr>
    ghost var lists: seq<seq<Addr>>

    /** All requests so far. */
    ghost var log: seq<Call>

    /** Everything but the links of the free lists. */
    ghost predicate Base(pool: Ptr, poolSize: int)
      reads this`owner, this`blocks, this`chunks, this`live, this`lists
    {
      && memorySlot.Length == SLOT_NUM
      && Tiling(owner, blocks, pool, poolSize, chunks)
      && Classified(blocks, live, lists)
    }

    /** Slot `i` really is the list it should be. */
    ghost predicate SlotOk(i: nat)
      requires i < memorySlot.Length && i < |lists|
      reads this`links, this`lists, memorySlot
    {
      Chain(links, memorySlot[i], lists[i])
    }

    ghost predicate Valid()
      reads this`memPoolStart, this`memPoolSize, this`links, this`chunks, this`owner, this`blocks, this`live, this`lists
      reads memorySlot
    {
      && Base(memPoolStart, memPoolSize)
      && forall i :: 0 <= i < SLOT_NUM ==> SlotOk(i)
    }

    constructor (mount: Mount)
      ensures Valid() && this.mount == mount && live == {} && fresh(memorySlot)
      ensures forall j :: 0 <= j < SLOT_NUM ==> lists[j] == []
      ensures chunks == 1 && memPoolStart == Some(Addr(0, 0)) && memPoolSize == CHUNK_SIZE
      ensures log == []
    {
      this.mount := mount;
      memorySlot := new Ptr[SLOT_NUM](_ => None);
      memPoolStart := Some(Addr(0, 0));
      memPoolSize := CHUNK_SIZE;
      links := map[];
      chunks := 1;
      owner := (c, o) => None;
      blocks := map[];
      live := {};
      lists := seq(SLOT_NUM, _ => []);
      log := [];
    }

    /** Bookkeeping: the front of the pool becomes a block of slot `i`. */
    ghost method Account(i: nat, node: Addr, poolSize: int)
      requires i < SLOT_NUM && Base(Some(node), poolSize) && 8 * (i + 1) <= poolSize
      modifies this`owner, this`blocks, this`lists
      ensures Base(Some(Addr(node.chunk, node.off + 8 * (i + 1))), poolSize - 8 * (i + 1))
      ensures poolSize == 8 * (i + 1) ==> Base(None, 0)
      ensures node !in old(blocks) && blocks == old(blocks)[node := 8 * (i + 1)]
      ensures lists == old(lists)[i := [node] + old(lists)[i]]
    {
      CarveTiles(owner, blocks, Some(node), poolSize, chunks, 8 * (i + 1));
      ClassifyNew(blocks, live, lists, node, i);
      owner := Carved(owner, node, 8 * (i + 1));
      blocks := blocks[node := 8 * (i + 1)];
      lists := lists[i := [node] + lists[i]];
    }

    /** `node->next = memory_slot[i]; memory_slot[i] = node` for a block cut off the front of the pool. */
    method PushNew(i: nat, node: Addr, ghost poolSize: int)
      requires i < SLOT_NUM && Base(Some(node), poolSize) && 8 * (i + 1) <= poolSize
      modifies this`links, this`owner, this`blocks, this`lists, memorySlot
      ensures Base(Some(Addr(node.chunk, node.off + 8 * (i + 1))), poolSize - 8 * (i + 1))
      ensures node !in old(blocks) && blocks == old(blocks)[node := 8 * (i + 1)]
      ensures lists == old(lists)[i := [node] + old(lists)[i]]
      ensures KeepsLinks(old(links), links, old(blocks))
      ensures memorySlot[i] == Some(node) && OnlySlot(i, old(lists), old(memorySlot[..]))
      ensures forall j :: 0 <= j < SLOT_NUM && old(SlotOk(j)) ==> SlotOk(j)
    {
      Account(i, node, poolSize);
      links := links[node := memorySlot[i]];
      memorySlot[i] := Some(node);
      forall j | 0 <= j < SLOT_NUM && old(SlotOk(j)) ensures SlotOk(j) {
        ChainFrame(old(links), links, old(memorySlot[j]), old(lists)[j]);
        assert j == i ==> lists[j][1..] == old(lists)[j];
      }
    }

    /** No slot but `i` differs from what it was. */
    ghost predicate OnlySlot(i: nat, lists0: seq<seq<Addr>>, slots0: seq<Ptr>)
      requires |lists| == |lists0| == |slots0| == memorySlot.Length
      reads this`lists, memorySlot
    {
      forall j :: 0 <= j < |lists| && j != i ==> lists[j] == lists0[j] && memorySlot[j] == slots0[j]
    }

    /** The filling loop: hangs `cnt` blocks from the front of the pool into slot `i`. (For the first
        block the code also stores a null link that the next statement overwrites.) */
    method CutBlocks(i: nat, cnt: nat) returns (node: Addr)
      requires i < SLOT_NUM && memPoolStart.Some? && Base(memPoolStart, memPoolSize)
      requires Span(cnt, 8 * (i + 1)) <= memPoolSize
      modifies this`links, this`owner, this`blocks, this`lists, memorySlot
      ensures node == Addr(memPoolStart.value.chunk, memPoolStart.value.off + Span(cnt, 8 * (i + 1)))
      ensures Base(Some(node), memPoolSize - Span(cnt, 8 * (i + 1)))
      ensures lists[i] == CutList(memPoolStart.value, 8 * (i + 1), cnt) + old(lists)[i]
      ensures OnlySlot(i, old(lists), old(memorySlot[..]))
      ensures Extends(old(blocks), blocks) && KeepsLinks(old(links), links, old(blocks))
      ensures forall j :: 0 <= j < SLOT_NUM && old(SlotOk(j)) ==> SlotOk(j)
    {
      hide Tiling, NoDup, CutList;
      var blockSize := 8 * (i + 1);
      node := memPoolStart.value;
      CutListNext(node, blockSize, 0);
      var k := 0;
      while k < cnt
        invariant 0 <= k <= cnt && Span(k, blockSize) <= memPoolSize
        invariant node == Addr(memPoolStart.value.chunk, memPoolStart.value.off + Span(k, blockSize))
        invariant Base(Some(node), memPoolSize - Span(k, blockSize))
        invariant lists[i] == CutList(memPoolStart.value, blockSize, k) + old(lists)[i]
        invariant OnlySlot(i, old(lists), old(memorySlot[..]))
        invariant Extends(old(blocks), blocks) && KeepsLinks(old(links), links, old(blocks))
        invariant forall j :: 0 <= j < SLOT_NUM && old(SlotOk(j)) ==> SlotOk(j)
      {
        SpanGrows(k, cnt, blockSize);
        CutListNext(memPoolStart.value, blockSize, k);
        PushNew(i, node, memPoolSize - Span(k, blockSize));
        node := Addr(node.chunk, node.off + blockSize);
        k := k + 1;
      }
    }

    method FillFromPool(i: nat, cnt: nat)
      requires i < SLOT_NUM && memPoolStart.Some? && Base(memPoolStart, memPoolSize)
      requires Span(cnt, 8 * (i + 1)) <= memPoolSize
      modifies this`links, this`owner, this`blocks, this`lists, this`memPoolStart, this`memPoolSize, memorySlot
      ensures Base(memPoolStart, memPoolSize) && memPoolSize == old(memPoolSize) - Span(cnt, 8 * (i + 1))
      ensures var start := old(memPoolStart).value;
              && lists[i] == CutList(start, 8 * (i + 1), cnt) + old(lists)[i]
              && memPoolStart == Some(Addr(start.chunk, start.off + Span(cnt, 8 * (i + 1))))
      ensures OnlySlot(i, old(lists), old(memorySlot[..]))
      ensures Extends(old(blocks), blocks) && KeepsLinks(old(links), links, old(blocks))
      ensures forall j :: 0 <= j < SLOT_NUM && old(SlotOk(j)) ==> SlotOk(j)
    {
      var node := CutBlocks(i, cnt);
      SpanIsProduct(cnt, 8 * (i + 1));
      memPoolStart := Some(node);
      memPoolSize := memPoolSize - cnt * (8 * (i + 1));
    }

    /** A new chunk; malloc is taken to succeed and to return memory not handed out before. */
    method FillMemPool()
      requires Base(memPoolStart, 0)
      modifies this`memPoolStart, this`memPoolSize, this`chunks
      ensures Base(memPoolStart, memPoolSize) && memPoolSize == CHUNK_SIZE
      ensures memPoolStart == Some(Addr(old(chunks), 0)) && chunks == old(chunks) + 1
    {
      ChunkTiles(owner, blocks, memPoolStart, chunks);
      memPoolStart := Some(Addr(chunks, 0));
      memPoolSize := CHUNK_SIZE;
      chunks := chunks + 1;
    }

    /** Lines 84 and 85 as the code has them: the second assignment goes to the head block's link instead
        of the slot. It dereferences null when the slot is empty, and otherwise ties head and `node`
        into a cycle. */
    method MountAsWritten(node: Addr, t: nat) returns (ok: bool)
      requires t < SLOT_NUM && Base(Some(node), 8 * (t + 1))
      requires forall j :: 0 <= j < SLOT_NUM ==> SlotOk(j)
      modifies this`links, this`owner, this`blocks, this`lists
      ensures ok == (memorySlot[t] != None)
      ensures Base(None, 0) && Extends(old(blocks), blocks)
      ensures forall j :: 0 <= j < SLOT_NUM && j != t ==> lists[j] == old(lists)[j]
      ensures ok ==> Cyclic(t) && forall j :: 0 <= j < SLOT_NUM && j != t ==> SlotOk(j)
    {
      assert SlotOk(t);
      Account(t, node, 8 * (t + 1));
      links := links[node := memorySlot[t]];
      if memorySlot[t] == None {
        return false;
      }
      ghost var h := memorySlot[t].value;
      assert h == old(lists)[t][0] && h in old(lists)[t] && h in lists[t] && blocks[h] == 8 * (t + 1);
      links := links[memorySlot[t].value := Some(node)];
      forall j | 0 <= j < SLOT_NUM && j != t ensures SlotOk(j) {
        assert old(SlotOk(j));
        OneClass(blocks, live, lists, h, t, j);
        ChainFrame(old(links), links, memorySlot[j], lists[j]);
      }
      ok := true;
    }

    /** The push that the comment above those lines describes. */
    method MountAsCommented(node: Addr, t: nat)
      requires t < SLOT_NUM && Base(Some(node), 8 * (t + 1))
      requires forall j :: 0 <= j < SLOT_NUM ==> SlotOk(j)
      modifies this`links, this`owner, this`blocks, this`lists, memorySlot
      ensures Base(None, 0) && Extends(old(blocks), blocks)
      ensures forall j :: 0 <= j < SLOT_NUM && j != t ==> lists[j] == old(lists)[j]
      ensures forall j :: 0 <= j < SLOT_NUM ==> SlotOk(j)
      ensures memorySlot[t] == Some(node)
    {
      Account(t, node, 8 * (t + 1));
      links := links[node := memorySlot[t]];
      memorySlot[t] := Some(node);
      forall j | 0 <= j < SLOT_NUM ensures SlotOk(j) {
        assert old(SlotOk(j));
        ChainFrame(old(links), links, old(memorySlot[j]), old(lists)[j]);
        assert j == t ==> lists[j][1..] == old(lists)[j];
      }
    }

    /** Hanging the rest of the pool, too small for the block wanted, into the slot of its own size. */
    method MountRemainder() returns (ok: bool)
      requires Valid() && 8 <= memPoolSize < MAX_OBJ_SIZE
      modifies this`links, this`owner, this`blocks, this`lists, this`memPoolStart, this`memPoolSize, memorySlot
      ensures ok == (mount == AsCommented || old(memorySlot[GetIndex(memPoolSize)]) != None)
      ensures ok ==> Base(memPoolStart, memPoolSize) && memPoolSize == 0 && Extends(old(blocks), blocks)
      ensures ok ==> forall j :: 0 <= j < SLOT_NUM && j != GetIndex(old(memPoolSize)) ==> lists[j] == old(lists)[j]
      ensures ok && mount == AsCommented ==> forall j :: 0 <= j < SLOT_NUM ==> SlotOk(j)
      ensures ok && mount == AsWritten ==>
                var t := GetIndex(old(memPoolSize));
                Cyclic(t) && forall j :: 0 <= j < SLOT_NUM && j != t ==> SlotOk(j)
    {
      var targetSlotIndex := GetIndex(memPoolSize);
      var node := memPoolStart.value;
      if mount == AsWritten {
        ok := MountAsWritten(node, targetSlotIndex);
        if !ok {
          return;
        }
      } else {
        MountAsCommented(node, targetSlotIndex);
        ok := true;
      }
      memPoolStart := None;
      memPoolSize := 0;
    }

    /** The first two blocks of slot `i` link to each other. */
    ghost predicate Cyclic(i: nat)
      requires i < memorySlot.Length
      reads this`links, this`blocks, memorySlot
    {
      memorySlot[i].Some? &&
      var a := memorySlot[i].value;
      && a in links && links[a].Some? && a in blocks
      && var b := links[a].value; b != a && b in blocks && b in links && links[b] == Some(a)
    }

    /** No reading of the slots as lists that end can be right. */
    ghost predicate Inconsistent()
      reads this`links, memorySlot
    {
      exists i :: 0 <= i < memorySlot.Length && forall l :: !Chain(links, memorySlot[i], l)
    }

    lemma {:induction false} CyclicIsInconsistent(i: nat)
      requires i < memorySlot.Length && i < |lists| && Cyclic(i)
      ensures Inconsistent() && !SlotOk(i)
    {
      var a := memorySlot[i].value;
      forall l ensures !Chain(links, memorySlot[i], l) {
        CycleHasNoChain(links, a, links[a].value, l);
      }
    }

    /** The pool has bytes left, but not enough for one block of slot `i`. */
    predicate Remainder(i: nat)
      reads this`memPoolSize
    {
      8 <= memPoolSize < 8 * (i + 1)
    }

    /** Slot `i` holds the blocks cut from the front of `room` bytes of pool, and the pool is what is left. */
    ghost predicate Refilled(i: nat, before: seq<Addr>, start: Ptr, room: int)
      requires room >= 8 * (i + 1)
      reads this`lists, this`memPoolStart, this`memPoolSize
    {
      var size := 8 * (i + 1);
      var cnt := FillCount(room, size);
      && start.Some? && i < |lists| && lists[i] == CutList(start.value, size, cnt) + before
      && memPoolStart == Some(Addr(start.value.chunk, start.value.off + Span(cnt, size)))
      && memPoolSize == room - Span(cnt, size)
    }

    /** Ten blocks when the pool has room for them, else as many as fit. */
    method FillWithRoom(i: nat)
      requires i < SLOT_NUM && Base(memPoolStart, memPoolSize) && memPoolSize >= 8 * (i + 1)
      modifies this`links, this`owner, this`blocks, this`lists, this`memPoolStart, this`memPoolSize, memorySlot
      ensures Base(memPoolStart, memPoolSize) && Extends(old(blocks), blocks)
      ensures Refilled(i, old(lists)[i], old(memPoolStart), old(memPoolSize)) && lists[i] != []
      ensures OnlySlot(i, old(lists), old(memorySlot[..]))
      ensures forall j :: 0 <= j < SLOT_NUM && old(SlotOk(j)) ==> SlotOk(j)
      ensures forall j :: 0 <= j < SLOT_NUM && j != i && old(Cyclic(j)) ==> Cyclic(j)
    {
      var blockSize := 8 * (i + 1);
      var neededSize := FILL_BLOCK_CNT * blockSize;
      var cnt := if memPoolSize >= neededSize then FILL_BLOCK_CNT else memPoolSize / blockSize;
      SpanIsProduct(cnt, blockSize);
      ghost var lists0, slots0 := lists, memorySlot[..];
      FillFromPool(i, cnt);
      forall j | 0 <= j < SLOT_NUM && j != i && old(Cyclic(j)) ensures Cyclic(j) {
        assert memorySlot[j] == slots0[j] == old(memorySlot[j]);
      }
    }

    /** The pool cannot serve slot `i`: hang what is left of it into a slot of its own and get a new
        chunk. Only the hanging can go wrong. */
    method RenewPool(i: nat) returns (ok: bool)
      requires i < SLOT_NUM && Base(memPoolStart, memPoolSize) && memPoolSize < 8 * (i + 1)
      requires Remainder(i) ==> Valid()
      modifies this`links, this`owner, this`blocks, this`lists, this`memPoolStart, this`memPoolSize, this`chunks
      modifies memorySlot
      ensures ok == !(old(Remainder(i)) && mount == AsWritten && old(memorySlot[GetIndex(memPoolSize)]) == None)
      ensures ok ==> Base(memPoolStart, memPoolSize) && memPoolSize == CHUNK_SIZE && Extends(old(blocks), blocks)
      ensures ok ==> memPoolStart == Some(Addr(old(chunks), 0)) && chunks == old(chunks) + 1
      ensures ok ==> lists[i] == old(lists)[i]
      ensures ok && !old(Remainder(i)) ==>
              lists == old(lists) && links == old(links) && blocks == old(blocks)
                  && memorySlot[..] == old(memorySlot[..])
      ensures ok && old(Remainder(i)) && mount == AsCommented ==> forall j :: 0 <= j < SLOT_NUM ==> SlotOk(j)
      ensures ok && old(Remainder(i)) && mount == AsWritten ==> Cyclic(GetIndex(old(memPoolSize))) && SlotOk(i)
    {
      assert memPoolSize % 8 == 0;
      ok := true;
      if memPoolSize >= 8 {
        ok := MountRemainder();
        if !ok {
          return;
        }
      }
      FillMemPool();
    }

    /** Refills slot `i`, from a new chunk if need be, after hanging what is left of the pool into a slot
        of its own. Only that can go wrong. */
    method FillSlot(i: nat) returns (ok: bool)
      requires i < SLOT_NUM && Base(memPoolStart, memPoolSize)
      requires Remainder(i) ==> Valid()
      modifies this`links, this`owner, this`blocks, this`lists, this`memPoolStart, this`memPoolSize, this`chunks
      modifies memorySlot
      ensures ok == !(old(Remainder(i)) && mount == AsWritten && old(memorySlot[GetIndex(memPoolSize)]) == None)
      ensures ok ==> Base(memPoolStart, memPoolSize) && Extends(old(blocks), blocks) && lists[i] != []
      ensures ok && !(old(Remainder(i)) && mount == AsWritten) ==>
                forall j :: 0 <= j < SLOT_NUM && old(SlotOk(j)) ==> SlotOk(j)
      ensures ok && !old(Remainder(i)) ==> OnlySlot(i, old(lists), old(memorySlot[..]))
      ensures ok ==>
                if old(memPoolSize) >= 8 * (i + 1)
                then Refilled(i, old(lists)[i], old(memPoolStart), old(memPoolSize)) && chunks == old(chunks)
                else Refilled(i, old(lists)[i], Some(Addr(old(chunks), 0)), CHUNK_SIZE) && chunks == old(chunks) + 1
      ensures ok && !old(Remainder(i)) ==> forall j :: 0 <= j < SLOT_NUM && j != i && old(Cyclic(j)) ==> Cyclic(j)
      ensures ok && old(Remainder(i)) && mount == AsWritten ==> Cyclic(GetIndex(old(memPoolSize))) && SlotOk(i)
      decreases if memPoolSize >= 8 * (i + 1) then 0 else 1
    {
      hide NoDup;
      if memPoolSize >= 8 * (i + 1) {
        FillWithRoom(i);
        ok := true;
      } else {
        ghost var t := if Remainder(i) then GetIndex(memPoolSize) else 0;
        assert Remainder(i) ==> t < i;
        ok := RenewPool(i);
        if !ok {
          return;
        }
        assert old(Remainder(i)) && mount == AsWritten ==> Cyclic(t) && SlotOk(i);
        assert !old(Remainder(i)) ==> forall j :: 0 <= j < SLOT_NUM ==>
            memorySlot[j] == memorySlot[..][j] == old(memorySlot[..])[j];
        ok := FillSlot(i);
        assert old(Remainder(i)) && mount == AsWritten ==> Cyclic(t) && t == GetIndex(old(memPoolSize));
      }
    }

    /** A request of `n` bytes would have to refill, and refilling would mount a remainder as written. */
    ghost predicate Breaks(n: int)
      requires 0 < n <= MAX_OBJ_SIZE && memorySlot.Length == SLOT_NUM
      reads this`memPoolSize, memorySlot
    {
      memorySlot[GetIndex(n)] == None && Remainder(GetIndex(n)) && mount == AsWritten
    }

    /** The slot has a head block, whose first word can be read. */
    predicate HasHead(i: nat)
      requires i < memorySlot.Length
      reads this`links, memorySlot
    {
      memorySlot[i].Some? && memorySlot[i].value in links
    }

    /** Takes the head block of slot `i`; the slot is left with what the block's first word says. The bookkeeping
        stays right if it was. */
    method Pop(i: nat, ghost right: bool) returns (a: Addr)
      requires i < memorySlot.Length && HasHead(i)
      requires right ==> i < SLOT_NUM && Base(memPoolStart, memPoolSize) && SlotOk(i) && lists[i] != []
      modifies this`live, this`lists, memorySlot
      ensures old(memorySlot[i]) == Some(a) && memorySlot[i] == links[a]
      ensures forall j :: 0 <= j < memorySlot.Length && j != i ==> memorySlot[j] == old(memorySlot[j])
      ensures right ==>
                && Base(memPoolStart, memPoolSize) && lists == old(lists)[i := old(lists)[i][1..]]
                && a == old(lists)[i][0] && a !in old(live) && live == old(live) + {a}
                && a in blocks && blocks[a] == 8 * (i + 1)
                && (forall j :: 0 <= j < SLOT_NUM && old(SlotOk(j)) ==> SlotOk(j))
                && (forall j :: 0 <= j < SLOT_NUM && j != i && old(Cyclic(j)) ==> Cyclic(j))
    {
      a := memorySlot[i].value;
      memorySlot[i] := links[a];
      if right {
        ClassifyTake(blocks, live, lists, i);
        live := live + {a};
        lists := lists[i := lists[i][1..]];
        forall j | 0 <= j < SLOT_NUM && old(SlotOk(j)) ensures SlotOk(j) {
          assert Chain(links, old(memorySlot[j]), old(lists)[j]);
        }
      }
    }

    /** A block of the request's class, 8-aligned, disjoint from every live block. The bookkeeping stays
        exact unless a remainder was mounted as the code has it; then a slot no longer holds a list. Even then a
        slot that has a head gives it out. */
    method Allocate(n: int) returns (r: AllocResult)
      requires Valid() || (0 < n <= MAX_OBJ_SIZE && memorySlot.Length == SLOT_NUM && HasHead(GetIndex(n)))
      modifies this`links, this`owner, this`blocks, this`lists, this`live, this`memPoolStart, this`memPoolSize
      modifies this`chunks, this`log, memorySlot
      ensures log == old(log) + [Call(n, r)]
      ensures n <= 0 ==> r == Rejected
      ensures n > 4096 ==> r == System
      ensures !(0 < n <= 4096) ==> Valid() && live == old(live) && blocks == old(blocks) && lists == old(lists)
      ensures 0 < n <= 4096 && old(memorySlot[GetIndex(n)]).Some? ==>
                var i := GetIndex(n);
                && r == Block(old(memorySlot[i]).value) && links == old(links)
                && r.addr in links && memorySlot[i] == links[r.addr]
                && blocks == old(blocks) && chunks == old(chunks) && memPoolSize == old(memPoolSize)
                && forall j :: 0 <= j < SLOT_NUM && j != i ==> memorySlot[j] == old(memorySlot[j])
      ensures old(Valid()) && 0 < n <= 4096 ==>
                && (r == NullDereference <==> old(Breaks(n)) && old(memorySlot[GetIndex(memPoolSize)]) == None)
                && (r != NullDereference ==> (Valid() <==> !old(Breaks(n))))
                && (r != NullDereference && old(Breaks(n)) ==> Inconsistent() && Cyclic(GetIndex(old(memPoolSize))))
                && (r != NullDereference ==> r.Block?)
      ensures old(Valid()) && r.Block? ==>
                && |lists| == SLOT_NUM && r.addr !in old(live) && live == old(live) + {r.addr}
                && r.addr in blocks && r.addr.chunk < chunks && r.addr.off % 8 == 0 && n <= blocks[r.addr] < n + 8
                && blocks[r.addr] == 8 * (GetIndex(n) + 1) && Extends(old(blocks), blocks)
      ensures old(Valid()) && r.Block? ==>
                var i := GetIndex(n);
                if old(memorySlot[i]) != None then old(lists)[i] == [r.addr] + lists[i]
                else if old(memPoolSize) >= 8 * (i + 1)
                then Refilled0(i, r.addr, old(memPoolStart), old(memPoolSize)) && chunks == old(chunks)
                else Refilled0(i, r.addr, Some(Addr(old(chunks), 0)), CHUNK_SIZE) && chunks == old(chunks) + 1
      ensures old(Valid()) && r.Block? && (old(memorySlot[GetIndex(n)]) != None || !old(Remainder(GetIndex(n)))) ==>
                forall j :: 0 <= j < SLOT_NUM && j != GetIndex(n) ==> lists[j] == old(lists)[j]
      ensures old(Valid()) && r.Block? ==>
                forall a :: a in old(live) ==> a in blocks && Disjoint(a, blocks[a], r.addr, blocks[r.addr])
    {
      if n <= 0 {
        r := Rejected;
        log := log + [Call(n, r)];
        return;
      }
      if n > MAX_OBJ_SIZE {
        r := System;
        log := log + [Call(n, r)];
        return;
      }
      var slotIndex := GetIndex(n);
      r := Serve(slotIndex, old(Valid()));
      log := log + [Call(n, r)];
    }

    /** What was cut for slot `i` from `room` bytes of pool, one block of it given out. */
    ghost predicate Refilled0(i: nat, a: Addr, start: Ptr, room: int)
      requires room >= 8 * (i + 1)
      reads this`lists, this`memPoolStart, this`memPoolSize
    {
      var size := 8 * (i + 1);
      var cnt := FillCount(room, size);
      && start.Some? && i < |lists| && [a] + lists[i] == CutList(start.value, size, cnt)
      && memPoolStart == Some(Addr(start.value.chunk, start.value.off + Span(cnt, size)))
      && memPoolSize == room - Span(cnt, size)
    }

    lemma Apart(a: Addr, others: set<Addr>)
      requires Base(memPoolStart, memPoolSize) && a in blocks && a !in others
      requires forall b :: b in others ==> b in blocks
      ensures a.chunk < chunks && a.off % 8 == 0
      ensures forall b :: b in others ==> Disjoint(b, blocks[b], a, blocks[a])
    {
      forall b | b in others ensures Disjoint(b, blocks[b], a, blocks[a]) {
        BlocksDisjoint(owner, blocks, memPoolStart, memPoolSize, chunks, b, a);
      }
    }

    /** `Allocate` for a size class. */
    method Serve(slotIndex: nat, ghost right: bool) returns (r: AllocResult)
      requires slotIndex < SLOT_NUM == memorySlot.Length && (right ==> Valid()) && (!right ==> HasHead(slotIndex))
      modifies this`links, this`owner, this`blocks, this`lists, this`live, this`memPoolStart, this`memPoolSize
      modifies this`chunks, memorySlot
      ensures old(memorySlot[slotIndex]).Some? ==>
                && r == Block(old(memorySlot[slotIndex]).value) && r.addr in links
                && memorySlot[slotIndex] == links[r.addr] && links == old(links) && blocks == old(blocks)
                   && chunks == old(chunks)
                && memPoolSize == old(memPoolSize)
                && forall j :: 0 <= j < SLOT_NUM && j != slotIndex ==> memorySlot[j] == old(memorySlot[j])
      ensures right ==>
                var breaks := old(memorySlot[slotIndex]) == None && old(Remainder(slotIndex)) && mount == AsWritten;
                && (r == NullDereference <==> breaks && old(memorySlot[GetIndex(memPoolSize)]) == None)
                && (r != NullDereference ==> (Valid() <==> !breaks))
                && (r != NullDereference && breaks ==> Inconsistent() && Cyclic(GetIndex(old(memPoolSize))))
                && (r != NullDereference ==> r.Block?)
      ensures right && r.Block? ==>
                && |lists| == SLOT_NUM && r.addr !in old(live) && live == old(live) + {r.addr}
                && r.addr in blocks && blocks[r.addr] == 8 * (slotIndex + 1) && Extends(old(blocks), blocks)
                && r.addr.chunk < chunks && r.addr.off % 8 == 0
      ensures right && r.Block? ==>
                if old(memorySlot[slotIndex]) != None then old(lists)[slotIndex] == [r.addr] + lists[slotIndex]
                else if old(memPoolSize) >= 8 * (slotIndex + 1)
                then Refilled0(slotIndex, r.addr, old(memPoolStart), old(memPoolSize)) && chunks == old(chunks)
                else Refilled0(slotIndex, r.addr, Some(Addr(old(chunks), 0)), CHUNK_SIZE) && chunks == old(chunks) + 1
      ensures right && r.Block? && (old(memorySlot[slotIndex]) != None || !old(Remainder(slotIndex))) ==>
                forall j :: 0 <= j < SLOT_NUM && j != slotIndex ==> lists[j] == old(lists)[j]
      ensures right && r.Block? ==>
                forall a :: a in old(live) ==> a in blocks && Disjoint(a, blocks[a], r.addr, blocks[r.addr])
    {
      hide Tiling, NoDup, Span, FillCount, CutList, FreeListAllocate.Cyclic, FreeListAllocate.Inconsistent, Disjoint;
      ghost var t := if Remainder(slotIndex) then GetIndex(memPoolSize) else 0;
      assert right ==> SlotOk(slotIndex);
      if memorySlot[slotIndex] == None {
        var ok := FillSlot(slotIndex);
        if !ok {
          return NullDereference;
        }
      }
      var a := Pop(slotIndex, right);
      if right {
        Apart(a, old(live));
        if old(memorySlot[slotIndex]) == None && old(Remainder(slotIndex)) && mount == AsWritten {
          CyclicIsInconsistent(t);
        }
      }
      return Block(a);
    }

    /** Returns a live block, under a size of its class, to its free list. */
    method Deallocate(p: Ptr, n: int)
      requires Valid()
      requires p.Some? && n != 0 && n <= MAX_OBJ_SIZE ==>
                 p.value in live && n > 0 && blocks[p.value] == 8 * (GetIndex(n) + 1)
      modifies this`links, this`lists, this`live, memorySlot
      ensures Valid()
      ensures p == None || n == 0 || n > MAX_OBJ_SIZE ==>
              live == old(live) && lists == old(lists) && links == old(links)
      ensures p.Some? && n != 0 && n <= MAX_OBJ_SIZE ==>
                && live == old(live) - {p.value}
                && links == old(links)[p.value := old(memorySlot[GetIndex(n)])]
                && lists == old(lists)[GetIndex(n) := [p.value] + old(lists)[GetIndex(n)]]
    {
      if p == None || n == 0 {
        return;
      }
      if n > MAX_OBJ_SIZE {
        return;
      }
      var slotIndex := GetIndex(n);
      var node := p.value;
      ClassifyReturn(blocks, live, lists, node, slotIndex);
      links := links[node := memorySlot[slotIndex]];
      memorySlot[slotIndex] := Some(node);
      live := live - {node};
      lists := lists[slotIndex := [node] + lists[slotIndex]];
      forall j | 0 <= j < SLOT_NUM ensures SlotOk(j) {
        assert old(SlotOk(j));
        ChainFrame(old(links), links, old(memorySlot[j]), old(lists)[j]);
        assert j == slotIndex ==> lists[j][1..] == old(lists)[j];
      }
    }

    /** What the two-block cycle does: of three requests for its class the third is given the block of the first,
        whatever its owner wrote into it meanwhile. */
    method CycleHandsOutTwice(n: int, word: Ptr)
      requires 0 < n <= 4096 && memorySlot.Length == SLOT_NUM && Cyclic(GetIndex(n))
      modifies this, memorySlot
      ensures |log| == |old(log)| + 3 && log[..|old(log)|] == old(log)
      ensures var calls := log[|old(log)|..];
              && calls[0].n == calls[1].n == calls[2].n == n
              && calls[0].result.Block? && calls[1].result.Block?
              && calls[2].result == calls[0].result != calls[1].result
    {
      hide Tiling, Classified;
      var first := Allocate(n);
      links := links[first.addr := word];
      var second := Allocate(n);
      var third := Allocate(n);
    }

    /** Free, then allocate: within one class the very same block comes back, whatever the pool holds. Nothing is
        carried over, and the first word of the old block now links it into its free list. */
    method Reallocate(p: Ptr, oldSize: int, newSize: int) returns (r: AllocResult)
      requires Valid()
      requires p.Some? && oldSize != 0 && oldSize <= MAX_OBJ_SIZE ==>
                 p.value in live && oldSize > 0 && blocks[p.value] == 8 * (GetIndex(oldSize) + 1)
      modifies this`links, this`owner, this`blocks, this`lists, this`live, this`memPoolStart, this`memPoolSize
      modifies this`chunks, this`log, memorySlot
      ensures p.Some? && 0 < oldSize <= MAX_OBJ_SIZE && 0 < newSize <= MAX_OBJ_SIZE
              && GetIndex(oldSize) == GetIndex(newSize) ==>
                Valid() && r == Block(p.value) && live == old(live)
      ensures p.Some? && 0 < oldSize <= MAX_OBJ_SIZE && r.Block? ==>
                && live == old(live) - {p.value} + {r.addr} && r.addr !in old(live) - {p.value}
                && r.addr in blocks && r.addr.off % 8 == 0 && newSize <= blocks[r.addr] < newSize + 8
                && forall x :: x in old(live) && x != p.value ==>
                     x in blocks && Disjoint(x, blocks[x], r.addr, blocks[r.addr])
      ensures mount == AsCommented ==> Valid() && r != NullDereference
    {
      Deallocate(p, oldSize);
      assert p.Some? && 0 < oldSize <= MAX_OBJ_SIZE ==> SlotOk(GetIndex(oldSize));
      r := Allocate(newSize);
    }

    /** The owner of a live block may write anything into it, its first word included. */
    method ClientWrite(a: Addr, word: Ptr)
      requires Valid() && a in live
      modifies this`links
      ensures Valid()
    {
      links := links[a := word];
      forall j | 0 <= j < SLOT_NUM ensures SlotOk(j) {
        assert old(SlotOk(j));
        ChainFrame(old(links), links, memorySlot[j], lists[j]);
      }
    }
  }

  // ---------- two runs on a new allocator ----------

  /** Requests `from` up to `to` were for `n` bytes and were given blocks of the first chunk. */
  ghost predicate Served(log: seq<Call>, from: nat, to: nat, n: int) {
    to <= |log| && forall k :: from <= k < to ==> log[k].n == n && log[k].result.Block? && log[k].result.addr.chunk == 0
  }

  /** A new allocator's answer to a first request: the last of ten blocks cut from the front of 4 MB. */
  method FirstRequest(mount: Mount, n: int) returns (alloc: FreeListAllocate)
    requires 0 < n <= 4096
    ensures fresh(alloc) && fresh(alloc.memorySlot) && alloc.Valid() && alloc.mount == mount && alloc.chunks == 1
    ensures alloc.log == [Call(n, Block(Addr(0, 72 * ((n + 7) / 8))))]
    ensures alloc.memPoolSize == 4194304 - 80 * ((n + 7) / 8) && |alloc.lists[GetIndex(n)]| == 9
    ensures forall j :: 0 <= j < SLOT_NUM && j != GetIndex(n) ==> alloc.lists[j] == []
  {
    hide Tiling, Span, FillCount, CutList;
    alloc := new FreeListAllocate(mount);
    ghost var i, size := GetIndex(n), 8 * ((n + 7) / 8);
    TenFit(size);
    assert alloc.SlotOk(i) && size == 8 * (i + 1);
    assert alloc.memorySlot[i] == None && alloc.memPoolSize == 4194304 && !alloc.Remainder(i);
    hide FreeListAllocate.Valid, FreeListAllocate.SlotOk, Chain, Classified, Extends;
    var r := alloc.Allocate(n);
    FirstOfTen(size, r.addr, alloc.lists[i]);
  }

  lemma TenFit(size: nat)
    requires 0 < size <= 4096
    ensures FillCount(4194304, size) == 10 && Span(10, size) == 10 * size
  {
    SpanIsProduct(10, size);
  }

  lemma LargeFill(room: int)
    requires room >= 4096
    ensures FillCount(room, 4096) == if room >= 40960 then 10 else room / 4096
    ensures Span(FillCount(room, 4096), 4096) == 4096 * FillCount(room, 4096)
  {
    SpanIsProduct(FillCount(room, 4096), 4096);
  }

  lemma FirstOfTen(size: nat, a: Addr, rest: seq<Addr>)
    requires [a] + rest == CutList(Addr(0, 0), size, 10)
    ensures a == Addr(0, 9 * size) && |rest| == 9
  {
    SpanIsProduct(9, size);
    assert a == ([a] + rest)[0];
  }

  /** The state of a first chunk of which `used` bytes are gone, after `k` requests for 4096 bytes: as long as ten
      fit they come in tens, up to `full`, and then there are `cnt` more. */
  ghost predicate AfterRequests(alloc: FreeListAllocate, used: nat, full: nat, cnt: nat, k: nat)
    reads alloc, alloc.memorySlot
  {
    && alloc.Valid() && alloc.mount == AsWritten && alloc.chunks == 1
    && full % 10 == 0 && 0 < cnt < 10 && 0 < CHUNK_SIZE - used - 4096 * (full + cnt) < 4096
    && if k <= full then
         && alloc.memPoolSize == CHUNK_SIZE - used - 40960 * ((k + 9) / 10)
         && |alloc.lists[511]| == 10 * ((k + 9) / 10) - k
       else
         && alloc.memPoolSize == CHUNK_SIZE - used - 4096 * (full + cnt)
         && |alloc.lists[511]| == full + cnt - k
  }

  /** A request for 4096 bytes that the first chunk can serve. */
  method LargeRequest(alloc: FreeListAllocate)
    requires alloc.Valid() && alloc.chunks == 1 && (alloc.lists[511] != [] || alloc.memPoolSize >= 4096)
    modifies alloc, alloc.memorySlot
    ensures alloc.Valid() && alloc.chunks == 1 && |alloc.lists| == |old(alloc.lists)| == SLOT_NUM
    ensures exists a: Addr :: alloc.log == old(alloc.log) + [Call(4096, Block(a))] && a.chunk == 0
    ensures forall j :: 0 <= j < 511 ==> alloc.lists[j] == old(alloc.lists[j])
    ensures if old(alloc.lists[511]) != [] then
              alloc.memPoolSize == old(alloc.memPoolSize) && |alloc.lists[511]| == |old(alloc.lists[511])| - 1
            else
              var cnt := if old(alloc.memPoolSize) >= 40960 then 10 else old(alloc.memPoolSize) / 4096;
              alloc.memPoolSize == old(alloc.memPoolSize) - 4096 * cnt && |alloc.lists[511]| == cnt - 1
  {
    hide Tiling, Span, FillCount, CutList;
    assert |alloc.lists| == SLOT_NUM && alloc.SlotOk(511);
    assert alloc.memorySlot[511] == None <==> alloc.lists[511] == [];
    if alloc.lists[511] == [] {
      LargeFill(alloc.memPoolSize);
    }
    hide FreeListAllocate.Valid, FreeListAllocate.SlotOk, Chain, Extends, FreeListAllocate.Inconsistent;
    hide Classified, FreeListAllocate.Cyclic, FreeListAllocate.Breaks;
    var r := alloc.Allocate(4096);
  }

  method OneMoreRequest(alloc: FreeListAllocate, ghost used: nat, ghost full: nat, ghost cnt: nat, ghost k: nat)
    requires AfterRequests(alloc, used, full, cnt, k) && k < full + cnt
    modifies alloc, alloc.memorySlot
    ensures AfterRequests(alloc, used, full, cnt, k + 1)
    ensures |alloc.log| == |old(alloc.log)| + 1 && alloc.log[..|old(alloc.log)|] == old(alloc.log)
    ensures Served(alloc.log, |old(alloc.log)|, |alloc.log|, 4096)
    ensures forall j :: 0 <= j < 511 ==> alloc.lists[j] == old(alloc.lists[j])
  {
    hide Tiling, Chain, FreeListAllocate.SlotOk;
    assert |alloc.lists| == SLOT_NUM;
    hide FreeListAllocate.Valid, Classified;
    LargeRequest(alloc);
  }

  method UseUpChunk(alloc: FreeListAllocate, ghost used: nat, ghost full: nat, ghost cnt: nat, times: nat)
    requires AfterRequests(alloc, used, full, cnt, 0) && times == full + cnt
    modifies alloc, alloc.memorySlot
    ensures AfterRequests(alloc, used, full, cnt, times)
    ensures |alloc.log| == |old(alloc.log)| + times && alloc.log[..|old(alloc.log)|] == old(alloc.log)
    ensures Served(alloc.log, |old(alloc.log)|, |alloc.log|, 4096)
    ensures forall j :: 0 <= j < 511 ==> alloc.lists[j] == old(alloc.lists[j])
  {
    ghost var before := alloc.log;
    var k := 0;
    while k < times
      invariant 0 <= k <= times && AfterRequests(alloc, used, full, cnt, k)
      invariant |alloc.log| == |before| + k && alloc.log[..|before|] == before
      invariant Served(alloc.log, |before|, |before| + k, 4096)
      invariant forall j :: 0 <= j < 511 ==> alloc.lists[j] == old(alloc.lists[j])
    {
      ghost var log := alloc.log;
      OneMoreRequest(alloc, used, full, cnt, k);
      ServedMore(log, alloc.log, |before|, 4096);
      assert alloc.log[..|before|] == alloc.log[..|log|][..|before|];
      k := k + 1;
    }
  }

  lemma ServedMore(log: seq<Call>, more: seq<Call>, from: nat, n: int)
    requires from <= |log| && |more| == |log| + 1 && more[..|log|] == log
    requires Served(log, from, |log|, n) && Served(more, |log|, |more|, n)
    ensures Served(more, from, |more|, n)
  {
    forall k | from <= k < |more| ensures more[k].n == n && more[k].result.Block? && more[k].result.addr.chunk == 0 {
      assert k < |log| ==> more[k] == more[..|log|][k];
    }
  }

  lemma ServedBefore(log: seq<Call>, more: seq<Call>, from: nat, to: nat, n: int)
    requires Served(log, from, to, n) && |log| < |more| && more[..|log|] == log
    ensures Served(more, from, to, n) && forall k :: 0 <= k < |log| ==> more[k] == log[k]
  {
    assert forall k :: 0 <= k < |log| ==> more[k] == more[..|log|][k];
  }

  /** A new allocator after requests for 8 bytes and, 1023 times, for 4096 bytes: 4016 bytes of the first chunk are
      left. */
  method SmallRest() returns (alloc: FreeListAllocate)
    ensures fresh(alloc) && fresh(alloc.memorySlot) && AfterRequests(alloc, 80, 1020, 3, 1023) && alloc.lists[501] == []
    ensures |alloc.log| == 1024 && alloc.log[0] == Call(8, Block(Addr(0, 72))) && Served(alloc.log, 1, 1024, 4096)
  {
    hide Tiling, Classified, Served;
    alloc := FirstRequest(AsWritten, 8);
    ghost var log := alloc.log;
    UseUpChunk(alloc, 80, 1020, 3, 1023);
    assert alloc.log[0] == alloc.log[..1][0] == log[0];
  }

  /** What the slip in the mounting step costs. On a new allocator, after one request for 8 bytes, 1023 requests for
      4096 bytes are given blocks of the first chunk; the 1024th finds 4016 bytes left in it and dereferences
      null. */
  method FirstChunkRunsDry() returns (alloc: FreeListAllocate)
    ensures alloc.mount == AsWritten && |alloc.log| == 1025
    ensures alloc.log[0] == Call(8, Block(Addr(0, 72)))
    ensures Served(alloc.log, 1, 1024, 4096)
    ensures alloc.log[1024] == Call(4096, NullDereference)
  {
    hide Tiling, Served;
    alloc := SmallRest();
    ghost var log := alloc.log;
    assert alloc.SlotOk(511) && alloc.SlotOk(501);
    assert alloc.memorySlot[511] == None == alloc.memorySlot[501] && alloc.memPoolSize == 4016;
    hide FreeListAllocate.Valid, Chain, Classified, FreeListAllocate.Refilled0, Extends;
    var r := alloc.Allocate(4096);
    ServedBefore(log, alloc.log, 1, 1024, 4096);
  }

  /** With a request for 3344 bytes after the one for 8, the first chunk ends in 3344 bytes when that slot still
      holds blocks: 1015 requests for 4096 bytes are given blocks of it, the 1016th ties the cycle and is given a
      block of the next, and of three more requests for 3344 bytes the third is given the block of the first. */
  method FirstChunkCycles(word: Ptr) returns (alloc: FreeListAllocate)
    ensures alloc.mount == AsWritten && |alloc.log| == 1021
    ensures alloc.log[0].n == 8 && alloc.log[1].n == 3344 && Served(alloc.log, 2, 1017, 4096)
    ensures alloc.log[1017].n == 4096 && alloc.log[1017].result.Block? && alloc.log[1017].result.addr.chunk == 1
    ensures alloc.log[1018].n == alloc.log[1019].n == alloc.log[1020].n == 3344
    ensures alloc.log[1018].result.Block? && alloc.log[1019].result.Block?
    ensures alloc.log[1020].result == alloc.log[1018].result != alloc.log[1019].result
  {
    hide Tiling;
    alloc := ChunkWithCycle();
    ghost var log := alloc.log;
    alloc.CycleHandsOutTwice(3344, word);
    assert alloc.log[..1018] == log;
    assert forall k :: 0 <= k < 1018 ==> alloc.log[k] == log[k];
  }

  /** A new allocator after requests for 8, 3344 and, 1015 times, for 4096 bytes: 3344 bytes of the first chunk are
      left, and nine free blocks of that size. */
  method SmallRestOfClass() returns (alloc: FreeListAllocate)
    ensures fresh(alloc) && fresh(alloc.memorySlot) && AfterRequests(alloc, 33520, 1010, 5, 1015)
    ensures alloc.lists[417] != [] && |alloc.log| == 1017 && alloc.log[0].n == 8 && alloc.log[1].n == 3344
    ensures Served(alloc.log, 2, 1017, 4096)
  {
    hide Tiling, Served;
    alloc := FirstRequest(AsWritten, 8);
    SpanIsProduct(10, 3344);
    assert alloc.SlotOk(417);
    var r := alloc.Allocate(3344);
    ghost var log := alloc.log;
    UseUpChunk(alloc, 33520, 1010, 5, 1015);
    assert log == alloc.log[..2] && alloc.log[0] == log[0] && alloc.log[1] == log[1];
  }

  lemma FirstIn(a: Addr, rest: seq<Addr>, chunk: nat)
    requires [a] + rest == CutList(Addr(chunk, 0), 4096, 10)
    ensures a.chunk == chunk
  {
    assert a == ([a] + rest)[0];
  }

  /** A request for 4096 bytes when 3344 are left in the first chunk and the slot of that size holds blocks. */
  method TieCycle(alloc: FreeListAllocate)
    requires alloc.Valid() && alloc.mount == AsWritten && alloc.chunks == 1 && alloc.memPoolSize == 3344
    requires alloc.memorySlot[511] == None && alloc.memorySlot[417].Some?
    modifies alloc, alloc.memorySlot
    ensures alloc.memorySlot.Length == SLOT_NUM && alloc.Cyclic(417)
    ensures exists a: Addr :: alloc.log == old(alloc.log) + [Call(4096, Block(a))] && a.chunk == 1
  {
    assert alloc.memorySlot.Length == SLOT_NUM && alloc.Breaks(4096) && GetIndex(3344) == 417;
    LargeFill(CHUNK_SIZE);
    hide FreeListAllocate.Valid, FreeListAllocate.Cyclic, FreeListAllocate.Inconsistent, FreeListAllocate.Breaks;
    hide Extends, CutList, Span, FillCount;
    var r := alloc.Allocate(4096);
    FirstIn(r.addr, alloc.lists[511], 1);
  }

  method ChunkWithCycle() returns (alloc: FreeListAllocate)
    ensures fresh(alloc) && fresh(alloc.memorySlot) && alloc.mount == AsWritten && |alloc.log| == 1018
    ensures alloc.memorySlot.Length == SLOT_NUM && alloc.Cyclic(417)
    ensures alloc.log[0].n == 8 && alloc.log[1].n == 3344 && Served(alloc.log, 2, 1017, 4096)
    ensures alloc.log[1017].n == 4096 && alloc.log[1017].result.Block? && alloc.log[1017].result.addr.chunk == 1
  {
    hide Tiling, Served;
    alloc := SmallRestOfClass();
    ghost var log := alloc.log;
    assert alloc.SlotOk(511) && alloc.SlotOk(417);
    assert alloc.memorySlot[511] == None && alloc.memorySlot[417].Some? && alloc.memPoolSize == 3344;
    hide FreeListAllocate.Valid, FreeListAllocate.Cyclic, Chain, Classified, AfterRequests;
    TieCycle(alloc);
    ServedBefore(log, alloc.log, 2, 1017, 4096);
  }
}
