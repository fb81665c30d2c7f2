/** The cache object: nodes threaded on hash chains and LRU stripes, refining the functions of module Engine. */
module KVCache {
  import opened Types
  import opened Lists
  import opened Modular
  import opened Engine
  import E = Engine
  import opened CacheLists
  import opened MemoryPool
  import opened KVStore
  import Message

  /** Which node object holds each resident triple. */
  type Residents = map<Triple, CacheNode>

  /** s are the node objects of the triples ids. */
  ghost predicate MirrorsList(ids: seq<Triple>, s: seq<CacheNode>, who: Residents) {
    |ids| == |s| && forall j :: 0 <= j < |ids| ==> ids[j] in who && s[j] == who[ids[j]]
  }

  ghost predicate Mirrors(idss: seq<seq<Triple>>, lists: seq<seq<CacheNode>>, who: Residents) {
    && |idss| == |lists|
    && forall i {:trigger MirrorsList(idss[i], lists[i], who)} :: 0 <= i < |idss| ==> MirrorsList(idss[i], lists[i], who)
  }

  /** Every chain lists, once, exactly the residents whose hash selects it. */
  ghost predicate Hashed(keys: set<Triple>, chains: seq<seq<Triple>>) {
    && |chains| == CACHE_TABLE_LEN
    && (forall t {:trigger t in keys} :: t in keys ==> t in chains[ChainOf(t.hash1)])
    && (forall h, t {:trigger t in chains[h]} :: 0 <= h < |chains| && t in chains[h] ==>
          t in keys && ChainOf(t.hash1) == h)
    && (forall h {:trigger NoDup(chains[h])} :: 0 <= h < |chains| ==> NoDup(chains[h]))
  }

  /** The node of each resident holds the resident's triple and content. */
  ghost predicate Named(who: Residents, contents: map<Triple, Node>, nodes: set<CacheNode>)
    reads nodes
  {
    && who.Keys == contents.Keys
    && forall t {:trigger t in who} :: t in who ==>
         who[t] in nodes && who[t].Id() == t && who[t].Content() == contents[t]
  }

  ghost predicate Apart(a: seq<CacheNodeQueuePtr>, b: seq<CacheNodeQueuePtr>) {
    forall i, j :: 0 <= i < |a| && 0 <= j < |b| ==> a[i] != b[j]
  }

  /** The ghost description of a cache's pointers: the abstract cache, who holds which triple, and both list families. */
  datatype Threading = Threading(
    cache: Cache,
    who: Residents,
    chains: seq<seq<Triple>>,
    chainNodes: seq<seq<CacheNode>>,
    stripeNodes: seq<seq<CacheNode>>)

  /** The part of the invariant that is about values only. */
  ghost predicate Shape(th: Threading) {
    && WF(th.cache)
    && th.who.Keys == th.cache.nodes.Keys
    && Hashed(th.who.Keys, th.chains)
    && Mirrors(th.chains, th.chainNodes, th.who)
    && Mirrors(th.cache.stripes, th.stripeNodes, th.who)
  }

  /** The part that is about the heap: names, chains and stripes are laid out as described. */
  ghost predicate Laid(th: Threading, hashTable: seq<CacheNodeQueuePtr>, lruTable: seq<CacheNodeQueuePtr>, nodes: set<CacheNode>)
    reads hashTable, lruTable, nodes
  {
    && Named(th.who, th.cache.nodes, nodes)
    && ChainTable(hashTable, th.chainNodes, nodes)
    && LruTable(lruTable, th.stripeNodes, nodes)
  }

  class KVCache {
    const nMax: nat
    const hashTable: seq<CacheNodeQueuePtr>
    const lruEvictionTable: seq<CacheNodeQueuePtr>
    const cacheNodeMemoryPool: MemoryPool
    const kvPersistentStore: KVStore
    var lruTableInsertIdx: nat
    var lruEvictionIdx: nat

    /** Every node of the pool's one block. */
    ghost const nodes: set<CacheNode>
    ghost var th: Threading

    ghost predicate Threads()
      reads this`th, hashTable, lruEvictionTable, nodes
    {
      && |hashTable| == CACHE_TABLE_LEN && Apart(hashTable, lruEvictionTable)
      && Shape(th)
      && Laid(th, hashTable, lruEvictionTable, nodes)
    }

    /** The whole object: threading, counters, pool and store. */
    ghost predicate Valid()
      reads this, hashTable, lruEvictionTable, nodes, cacheNodeMemoryPool, kvPersistentStore, kvPersistentStore.disk
    {
      && Threads()
      && Counters()
      && Pooled()
      && kvPersistentStore.Valid()
    }

    /** The source's two counters are the number of draws so far, reduced. */
    ghost predicate Counters()
      reads this`th, this`lruTableInsertIdx, this`lruEvictionIdx
    {
      && th.cache.stripes != [] && |lruEvictionTable| == |th.cache.stripes|
      && lruTableInsertIdx == th.cache.inserts % |th.cache.stripes|
      && lruEvictionIdx == th.cache.draws % |th.cache.stripes|
    }

    ghost predicate Pooled()
      reads this`th, cacheNodeMemoryPool
    {
      && cacheNodeMemoryPool.Valid()
      && |cacheNodeMemoryPool.memoryBlockPointers| == 1 && |nodes| == nMax
      && cacheNodeMemoryPool.nodes == nodes
      && cacheNodeMemoryPool.n == th.cache.free
      && forall t :: t in th.who ==> th.who[t] in cacheNodeMemoryPool.handedOut
    }

    /** Cache and store as the specification sees them. */
    ghost function Abs(): State
      reads this`th, kvPersistentStore.disk`contents
    {
      State(th.cache, kvPersistentStore.disk.contents)
    }

    lemma NothingLogged()
      requires Valid()
      ensures Led(kvPersistentStore.disk.Now(), kvPersistentStore.disk.Now())
    {
      LedNowhere(kvPersistentStore.disk.Now());
    }

    static method NewQueues(n: nat) returns (qs: seq<CacheNodeQueuePtr>)
      ensures |qs| == n && NoDup(qs)
      ensures forall i :: 0 <= i < n ==> fresh(qs[i]) && qs[i].head == null && qs[i].tail == null
    {
      qs := [];
      for i := 0 to n
        invariant |qs| == i && NoDup(qs)
        invariant forall j :: 0 <= j < i ==> fresh(qs[j]) && qs[j].head == null && qs[j].tail == null
      {
        var q := new CacheNodeQueuePtr();
        qs := qs + [q];
      }
    }

    constructor (cacheSize: nat, store: KVStore)
      requires store.Valid()
      ensures Valid() && kvPersistentStore == store
      ensures th.cache == EmptyCache(cacheSize)
      ensures |hashTable| == 16384
      ensures |lruEvictionTable| == if cacheSize >= 10240 then 128 else if cacheSize >= 1024 then 32 else 1
      ensures cacheNodeMemoryPool.n == cacheSize && lruTableInsertIdx == 0 && lruEvictionIdx == 0
      ensures forall q :: q in hashTable || q in lruEvictionTable ==> q.head == null && q.tail == null
      ensures fresh(cacheNodeMemoryPool) && fresh(nodes)
      ensures forall i :: 0 <= i < |hashTable| ==> fresh(hashTable[i])
      ensures forall i :: 0 <= i < |lruEvictionTable| ==> fresh(lruEvictionTable[i])
    {
      hide Shape, Laid, ImageOK, Partition;
      nMax := cacheSize;
      var ht := NewQueues(CACHE_TABLE_LEN);
      var lt := NewQueues(StripeCount(cacheSize));
      hashTable, lruEvictionTable := ht, lt;
      var p := new MemoryPool();
      p.Init(cacheSize, 2);
      cacheNodeMemoryPool := p;
      nodes := p.nodes;
      kvPersistentStore := store;
      lruTableInsertIdx, lruEvictionIdx := 0, 0;
      th := NoResidents(cacheSize);
      NothingLaid(cacheSize, ht, lt, p.nodes);
    }

    /** `move_to_head_LRU` of a resident on its own stripe. */
    method Promote(node: CacheNode, ghost t: Triple)
      requires Threads() && t in th.who && th.who[t] == node
      modifies this`th, lruEvictionTable, nodes`l2Prev, nodes`l2Next
      ensures Threads()
      ensures th == old(th).(cache := E.Promote(old(th).cache, t), stripeNodes := th.stripeNodes)
      ensures node.lruIdx < |lruEvictionTable| && lruEvictionTable[node.lruIdx].head == node
    {
      ghost var i := node.lruIdx;
      ghost var k := StripePosition(th.cache, th.stripeNodes, th.who, t);
      PromoteLaid(hashTable, lruEvictionTable, node, th, k, nodes);
      PromoteMirrors(th.cache, th.stripeNodes, th.who, t, k);
      th := th.(cache := E.Promote(th.cache, t), stripeNodes := th.stripeNodes[i := [node] + RemoveAt(th.stripeNodes[i], k)]);
      assert LruList(lruEvictionTable[i], th.stripeNodes[i]);
    }

    // ---------- searching a chain ----------

    /** The loop over a hash chain: the node whose message equals t, or null. */
    method FindNode(t: Triple) returns (node: CacheNode?)
      requires Valid()
      ensures node == null <==> t !in th.who
      ensures node != null ==> node == th.who[t]
    {
      var h := ChainOf(t.hash1);
      ghost var s := th.chainNodes[h];
      ChainMembers(th, h);
      assert ChainList(hashTable[h], s);
      if t in th.who {
        ghost var k := ChainPosition(th, t);
        assert s[k] in s;
      }
      node := FindInChain(hashTable[h], t, s);
    }

    // ---------- the two round-robin counters ----------

    method GetNextEvictionQueueIdx(ghost draws: nat) returns (id: nat)
      requires lruEvictionTable != [] && lruEvictionIdx == draws % |lruEvictionTable|
      modifies this`lruEvictionIdx
      ensures id == draws % |lruEvictionTable| && lruEvictionIdx == (draws + 1) % |lruEvictionTable|
    {
      id, lruEvictionIdx := NextIdx(lruEvictionIdx, |lruEvictionTable|, draws);
    }

    method GetNextLruQueueIdx(ghost inserts: nat) returns (id: nat)
      requires lruEvictionTable != [] && lruTableInsertIdx == inserts % |lruEvictionTable|
      modifies this`lruTableInsertIdx
      ensures id == inserts % |lruEvictionTable| && lruTableInsertIdx == (inserts + 1) % |lruEvictionTable|
    {
      id, lruTableInsertIdx := NextIdx(lruTableInsertIdx, |lruEvictionTable|, inserts);
    }

    // ---------- eviction ----------

    /** Draws stripes until one is not empty, at most CACHE_TABLE_LEN times after the first. */
    method DrawVictimStripe() returns (eqIdx: nat)
      requires Threads() && Counters()
      modifies this`lruEvictionIdx
      ensures lruEvictionIdx == (VictimDraw(th.cache) + 1) % |lruEvictionTable|
      ensures eqIdx == VictimDraw(th.cache) % |lruEvictionTable|
    {
      hide Shape, Laid, Apart, AllEmpty;
      ghost var c := th.cache;
      NoDraws(c.stripes, c.draws);
      forall i | 0 <= i < |c.stripes| ensures lruEvictionTable[i].head == null <==> c.stripes[i] == [] {
        HeadIsNull(i);
      }
      eqIdx := GetNextEvictionQueueIdx(c.draws);
      var i := 0;
      while i < CACHE_TABLE_LEN && lruEvictionTable[eqIdx].head == null
        invariant 0 <= i <= CACHE_TABLE_LEN
        invariant eqIdx == (c.draws + i) % |lruEvictionTable|
        invariant lruEvictionIdx == (c.draws + i + 1) % |lruEvictionTable|
        invariant AllEmpty(c.stripes, c.draws, c.draws + i)
      {
        AllEmptyNext(c.stripes, c.draws, c.draws + i);
        eqIdx := GetNextEvictionQueueIdx(c.draws + i + 1);
        i := i + 1;
      }
      ScanIs(c.stripes, c.draws, CACHE_TABLE_LEN, c.draws + i);
    }

    lemma HeadIsNull(i: nat)
      requires Threads() && i < |th.cache.stripes| == |lruEvictionTable|
      ensures lruEvictionTable[i].head == null <==> th.cache.stripes[i] == []
      ensures th.cache.stripes[i] != [] ==>
                var t := th.cache.stripes[i][|th.cache.stripes[i]| - 1];
                t in th.who && lruEvictionTable[i].tail == th.who[t] && th.who[t].lruIdx == i
    {
      assert LruList(lruEvictionTable[i], th.stripeNodes[i]);
      assert MirrorsList(th.cache.stripes[i], th.stripeNodes[i], th.who);
      if th.cache.stripes[i] != [] {
        assert th.stripeNodes[i][|th.stripeNodes[i]| - 1] in th.stripeNodes[i];
      }
    }

    /** Takes a resident off its chain and its stripe. */
    method Unthread(node: CacheNode, ghost t: Triple)
      requires Threads() && t in th.who && th.who[t] == node
      modifies this`th, hashTable, lruEvictionTable, nodes`l1Left, nodes`l1Right, nodes`l2Prev, nodes`l2Next
      ensures Threads()
      ensures th.who == old(th).who - {t}
      ensures t in old(th).cache.nodes && old(th).cache.nodes[t].lru < |old(th).cache.stripes|
      ensures th.cache == Remove(State(old(th).cache, map[]), t).cache
    {
      hide Hashed, Mirrors, Threaded, OnlyDirtyOrDeleted, ChainList, LruList;
      ShapeSizes(th, t);
      ghost var kh := ChainPosition(th, t);
      ghost var k := StripePosition(th.cache, th.stripeNodes, th.who, t);
      UnthreadShape(th, t, kh, k);
      UnthreadLaid(hashTable, lruEvictionTable, node, th, kh, k, nodes, Unthreaded(th, t, kh, k));
      th := Unthreaded(th, t, kh, k);
    }

    /** A node that was handed out and is on no list. */
    ghost predicate Detached(node: CacheNode)
      reads this`th, cacheNodeMemoryPool
    {
      && node in nodes && node in cacheNodeMemoryPool.handedOut
      && forall t :: t in th.who ==> th.who[t] != node
    }

    /** Deletes a tombstone from the store, writes a dirty node to it. k: room left for later writes. */
    method FlushNode(node: CacheNode, ghost k: nat)
      requires kvPersistentStore.Valid() && kvPersistentStore.disk.HasRoom(k + 1)
      modifies kvPersistentStore, kvPersistentStore.disk
      ensures kvPersistentStore.Valid() && kvPersistentStore.disk.HasRoom(k)
      ensures kvPersistentStore.disk.contents == Flush(old(kvPersistentStore.disk.contents), old(node.Id()), old(node.Content()))
      ensures Led(old(kvPersistentStore.disk.Now()), kvPersistentStore.disk.Now())
      ensures old(node.dirtyBit == Dirty || node.dirtyBit == ToDelete) ==>
                kvPersistentStore.disk.log == old(kvPersistentStore.disk.log) + [FlushOp(old(node.Id()), old(node.Content()))]
    {
      hide ImageOK, Led;
      LedNowhere(kvPersistentStore.disk.Now());
      if node.dirtyBit == ToDelete {
        var found := kvPersistentStore.DeleteFromDb(node.Id());
      } else if node.dirtyBit == Dirty {
        kvPersistentStore.WriteToDb(node.Id(), node.value);
      }
    }

    /** The residents' nodes, by content and by what they were handed out as. */
    lemma ResidentNode(t: Triple)
      requires Valid() && t in th.who
      ensures th.who[t].Id() == t && th.who[t].Content() == th.cache.nodes[t]
      ensures th.who[t].dirtyBit == Dirty || th.who[t].dirtyBit == ToDelete
      ensures th.who[t] in nodes && th.who[t] in cacheNodeMemoryPool.handedOut
      ensures forall u :: u in th.who && u != t ==> th.who[u] != th.who[t]
    {
      assert t in th.cache.nodes;
      forall u | u in th.who && u != t ensures th.who[u] != th.who[t] {
        assert th.who[u].Id() == u;
      }
    }

    /** Takes the resident t off its lists, then flushes it. */
    method EvictResident(ptr: CacheNode, ghost t: Triple, ghost k: nat)
      requires Valid() && t in th.who && th.who[t] == ptr && kvPersistentStore.disk.HasRoom(k + 1)
      modifies this`th, hashTable, lruEvictionTable
      modifies nodes`l1Left, nodes`l1Right, nodes`l2Prev, nodes`l2Next, kvPersistentStore, kvPersistentStore.disk
      ensures Valid() && Detached(ptr) && kvPersistentStore.disk.HasRoom(k)
      ensures Abs() == Remove(old(Abs()), t)
      ensures Led(old(kvPersistentStore.disk.Now()), kvPersistentStore.disk.Now())
      ensures t in old(th).cache.nodes
      ensures kvPersistentStore.disk.log == old(kvPersistentStore.disk.log) + [FlushOp(t, old(th).cache.nodes[t])]
    {
      hide Shape, Laid, ImageOK, Partition, Led, Flush, RoomFor, Disk.Now;
      ResidentNode(t);
      Unthread(ptr, t);
      FlushNode(ptr, k);
    }

    /** Draws a stripe and looks at its tail: the node to evict, or null when the cache is empty. */
    method PickVictim() returns (ptr: CacheNode?)
      requires Valid()
      modifies this`th, this`lruEvictionIdx
      ensures Valid()
      ensures th == old(th).(cache := old(th).cache.(draws := VictimDraw(old(th).cache) + 1))
      ensures ptr == null <==> Victim(old(th).cache) == None
      ensures ptr != null ==> Victim(old(th).cache).value in th.who && th.who[Victim(old(th).cache).value] == ptr
    {
      hide Named, ChainTable, LruTable, ImageOK, Partition, Hashed, Mirrors, Threaded, OnlyDirtyOrDeleted;
      var eqIdx := DrawVictimStripe();
      HeadIsNull(eqIdx);
      ptr := if lruEvictionTable[eqIdx].head == null then null else lruEvictionTable[eqIdx].tail;
      th := th.(cache := th.cache.(draws := VictimDraw(th.cache) + 1));
    }

    /** Evicts the least recently used node of the next non-empty stripe; null when the cache is empty. */
    method CacheEviction(ghost k: nat) returns (ptr: CacheNode?)
      requires Valid() && kvPersistentStore.disk.HasRoom(|th.cache.nodes| + k)
      modifies this`th, this`lruEvictionIdx, hashTable, lruEvictionTable
      modifies nodes`l1Left, nodes`l1Right, nodes`l2Prev, nodes`l2Next, kvPersistentStore, kvPersistentStore.disk
      ensures Valid() && WF(old(th).cache) && Abs() == Evict(old(Abs()))
      ensures ptr == null <==> Victim(old(th).cache) == None
      ensures ptr != null ==> Detached(ptr)
      ensures kvPersistentStore.disk.HasRoom(|th.cache.nodes| + k)
      ensures Led(old(kvPersistentStore.disk.Now()), kvPersistentStore.disk.Now())
      ensures ptr == null ==> kvPersistentStore.disk.Now() == old(kvPersistentStore.disk.Now())
      ensures ptr != null ==>
                var w := Victim(old(th).cache).value; w in old(th).cache.nodes && ptr == old(th).who[w]
      ensures kvPersistentStore.disk.log == old(kvPersistentStore.disk.log) + EvictionOps(old(th).cache)
    {
      hide Valid, Threaded, OnlyDirtyOrDeleted, Led, Evict, Victim, VictimDraw, Remove;
      NothingLogged();
      SameKeys();
      ghost var g := Abs();
      EvictIs(g);
      ptr := PickVictim();
      if ptr == null { return; }
      ghost var t := Victim(g.cache).value;
      ResidentNode(t);
      if ptr.dirtyBit == NotInCache {
        assert false;
      }
      EvictResident(ptr, t, |g.cache.nodes| - 1 + k);
    }

    // ---------- inserting ----------

    lemma SameKeys()
      requires Valid()
      ensures th.who.Keys == th.cache.nodes.Keys && WF(th.cache)
    {
    }

    /** A free node from the pool, which has one and so allocates nothing. */
    method TakeFreeNode() returns (node: CacheNode)
      requires Valid() && th.cache.free > 0
      modifies this`th, cacheNodeMemoryPool
      ensures Valid() && Detached(node)
      ensures th == old(th).(cache := old(th).cache.(free := old(th).cache.free - 1))
    {
      hide Named, ChainTable, LruTable, ImageOK, Partition, Hashed, Mirrors, Threaded;
      node := cacheNodeMemoryPool.AcquireInstance();
      th := th.(cache := th.cache.(free := th.cache.free - 1));
    }

    /** `is_full()` decides between reusing a victim and taking a free node. */
    method ObtainNode(ghost k: nat) returns (node: CacheNode)
      requires Valid() && Usable(th.cache) && kvPersistentStore.disk.HasRoom(|th.cache.nodes| + k)
      modifies this`th, this`lruEvictionIdx, hashTable, lruEvictionTable, cacheNodeMemoryPool
      modifies nodes`l1Left, nodes`l1Right, nodes`l2Prev, nodes`l2Next, kvPersistentStore, kvPersistentStore.disk
      ensures Valid() && Detached(node) && kvPersistentStore.disk.HasRoom(|th.cache.nodes| + k)
      ensures WF(old(th).cache) && Abs() == Obtain(old(Abs()))
      ensures Led(old(kvPersistentStore.disk.Now()), kvPersistentStore.disk.Now())
      ensures old(cacheNodeMemoryPool.n) > 0 ==>
                kvPersistentStore.disk.Now() == old(kvPersistentStore.disk.Now()) && th.who == old(th).who
      ensures kvPersistentStore.disk.log == old(kvPersistentStore.disk.log) + InsertOps(old(th).cache)
      ensures cacheNodeMemoryPool.n == if old(cacheNodeMemoryPool.n) > 0 then old(cacheNodeMemoryPool.n) - 1 else 0
    {
      hide Shape, Laid, ImageOK, Partition, Evict, Victim, WF, Led, EvictionOps;
      NothingLogged();
      SameKeys();
      if cacheNodeMemoryPool.n == 0 {
        NoVictimIffEmpty(th.cache);
        var victim := CacheEviction(k);
        node := victim;
      } else {
        node := TakeFreeNode();
      }
    }

    /** Fills in a detached node and threads it at the head of its chain and of the next insert stripe. */
    method AddNode(node: CacheNode, t: Triple, v: Block)
      requires Valid() && Detached(node) && t !in th.who
      modifies this`th, this`lruTableInsertIdx, hashTable, lruEvictionTable, nodes
      ensures Valid() && th.cache == Add(old(th).cache, t, v)
      ensures th.who == old(th).who[t := node]
      ensures kvPersistentStore.disk.Now() == old(kvPersistentStore.disk.Now())
      ensures hashTable[t.hash1 % 16384].head == node
      ensures node.lruIdx == old(lruTableInsertIdx) < |lruEvictionTable| && lruEvictionTable[node.lruIdx].head == node
    {
      hide Shape, Laid, ImageOK, Partition;
      var lruInsertIdx := GetNextLruQueueIdx(th.cache.inserts);
      AddShape(th, t, v, node, lruInsertIdx);
      ThreadLaid(hashTable, lruEvictionTable, node, th, t, v, lruInsertIdx, nodes);
      th := Added(th, t, v, node, lruInsertIdx);
    }

    /** Walking stripe i from its head meets the residents of that stripe in their order: its ends, and the j-th node. */
    lemma StripeIsList(i: nat, j: nat)
      requires Valid() && i < |lruEvictionTable|
      ensures i < |th.cache.stripes| == |th.stripeNodes|
      ensures var q, s := lruEvictionTable[i], th.stripeNodes[i];
              && |s| == |th.cache.stripes[i]|
              && (s == [] ==> q.head == null && q.tail == null)
              && (s != [] ==> q.head == s[0] && q.tail == s[|s| - 1])
              && (j < |s| ==>
                    && th.cache.stripes[i][j] in th.who && s[j] == th.who[th.cache.stripes[i][j]]
                    && s[j].l2Prev == (if j > 0 then s[j - 1] else null)
                    && s[j].l2Next == (if j + 1 < |s| then s[j + 1] else null))
    {
      hide Named, ChainTable, Hashed, ImageOK, Partition, WF;
      StripeLinks(lruEvictionTable, th.cache.stripes, th.stripeNodes, th.who, nodes, i, j);
    }

    /** Walking chain h from its head meets exactly the residents whose hash1 leaves h modulo 16384: ends, and j-th node. */
    lemma ChainIsList(h: nat, j: nat)
      requires Valid() && h < 16384
      ensures |hashTable| == |th.chains| == |th.chainNodes| == 16384
      ensures var q, s := hashTable[h], th.chainNodes[h];
              && |s| == |th.chains[h]|
              && (s == [] ==> q.head == null && q.tail == null)
              && (s != [] ==> q.head == s[0] && q.tail == s[|s| - 1])
              && (j < |s| ==>
                    && th.chains[h][j] in th.who && s[j] == th.who[th.chains[h][j]]
                    && s[j].l1Left == (if j > 0 then s[j - 1] else null)
                    && s[j].l1Right == (if j + 1 < |s| then s[j + 1] else null))
      ensures forall t :: t in th.chains[h] <==> t in th.who.Keys && t.hash1 % 16384 == h
    {
      hide Named, LruTable, ImageOK, Partition, WF;
      ChainLinks(hashTable, th.chains, th.chainNodes, th.who, nodes, h, j);
      ChainHolds(th.who.Keys, th.chains, h);
    }

    /** A new entry for a key the cache does not hold, marked DIRTY. */
    method CachePutNewEntry(t: Triple, v: Block, ghost k: nat) returns (node: CacheNode)
      requires Valid() && Usable(th.cache) && t !in th.who
      requires kvPersistentStore.disk.HasRoom(|th.cache.nodes| + k + 1)
      modifies this, hashTable, lruEvictionTable, nodes, cacheNodeMemoryPool, kvPersistentStore, kvPersistentStore.disk
      ensures Valid() && kvPersistentStore.disk.HasRoom(|th.cache.nodes| + k)
      ensures Usable(old(th).cache) && Abs() == Insert(old(Abs()), t, v)
      ensures Led(old(kvPersistentStore.disk.Now()), kvPersistentStore.disk.Now())
      ensures old(cacheNodeMemoryPool.n) > 0 ==>
                kvPersistentStore.disk.Now() == old(kvPersistentStore.disk.Now()) && th.who == old(th).who[t := node]
      ensures kvPersistentStore.disk.log == old(kvPersistentStore.disk.log) + InsertOps(old(th).cache)
      ensures cacheNodeMemoryPool.n == if old(cacheNodeMemoryPool.n) > 0 then old(cacheNodeMemoryPool.n) - 1 else 0
      ensures t in th.who && th.who[t] == node
    {
      hide Valid, Obtain, WF, Led, InsertOps, Add, Insert;
      ghost var g := Abs();
      SameKeys();
      InsertIs(g, t, v);
      node := ObtainNode(k + 1);
      SameKeys();
      AddNode(node, t, v);
    }

    // ---------- hits ----------

    /** Stores value and bit in a resident node. */
    method Rewrite(node: CacheNode, ghost t: Triple, v: Block, bit: DirtyBit)
      requires Valid() && t in th.who && th.who[t] == node && t in th.cache.nodes && (bit == Dirty || bit == ToDelete)
      modifies this`th, node`value, node`dirtyBit
      ensures Valid()
      ensures th == old(th).(cache := Updated(old(th).cache, t, v, bit))
    {
      hide Shape, Laid, ImageOK, Partition;
      ResidentNode(t);
      UpdatedShape(th, t, v, bit);
      RewriteLaid(hashTable, lruEvictionTable, node, th, t, v, bit, nodes);
      th := th.(cache := Updated(th.cache, t, v, bit));
    }

    /** A hit moves the node to the head of its stripe. */
    method Touch(node: CacheNode, ghost t: Triple)
      requires Valid() && t in th.who && th.who[t] == node
      modifies this`th, lruEvictionTable, nodes`l2Prev, nodes`l2Next
      ensures Valid() && Usable(th.cache) && th.cache.nodes == old(th).cache.nodes && th.who == old(th).who
      ensures t in old(th).cache.nodes && old(th).cache.nodes[t].lru < |old(th).cache.stripes|
      ensures th.cache == E.Promote(old(th).cache, t)
    {
      hide Shape, Laid, ImageOK, Partition, WF;
      SameKeys();
      TouchUsable(th.cache, t);
      Promote(node, t);
    }

    method StoreRead(t: Triple) returns (v: Option<Block>)
      requires Valid()
      ensures v == Lookup(Abs().store, t)
    {
      hide Threads, Counters, Pooled, ImageOK;
      v := kvPersistentStore.ReadFromDb(t);
    }

    method StoreDelete(t: Triple, ghost k: nat) returns (r: bool)
      requires Valid() && kvPersistentStore.disk.HasRoom(k)
      modifies kvPersistentStore.disk
      ensures Valid() && kvPersistentStore.disk.HasRoom(k)
      ensures Abs() == old(Abs()).(store := old(Abs()).store - {t}) && (r <==> t in old(Abs()).store)
      ensures Led(old(kvPersistentStore.disk.Now()), kvPersistentStore.disk.Now())
      ensures kvPersistentStore.disk.log == old(kvPersistentStore.disk.log) + [Erased(t)]
    {
      hide Threads, Counters, Pooled, ImageOK, Led;
      r := kvPersistentStore.DeleteFromDb(t);
    }

    /** `cache_GET_ptr` once the hashes are known: the node, or null, and the value for the caller's buffer. */
    method GetHashed(t: Triple, ghost k: nat) returns (r: CacheNode?, value: Option<Block>)
      requires Valid() && Usable(th.cache) && kvPersistentStore.disk.HasRoom(|th.cache.nodes| + k + 1)
      modifies this, hashTable, lruEvictionTable, nodes, cacheNodeMemoryPool, kvPersistentStore, kvPersistentStore.disk
      ensures Valid() && kvPersistentStore.disk.HasRoom(|th.cache.nodes| + k)
      ensures Usable(old(th).cache) && Abs() == Get(old(Abs()), t).0
      ensures value == Get(old(Abs()), t).1 && (r == null <==> value == None)
      ensures Led(old(kvPersistentStore.disk.Now()), kvPersistentStore.disk.Now())
      ensures r != null ==> t in th.who && r == th.who[t]
      ensures kvPersistentStore.disk.log == old(kvPersistentStore.disk.log) +
                if t !in old(th).cache.nodes && t in old(kvPersistentStore.disk.contents) then InsertOps(old(th).cache) else []
    {
      hide Valid, WF, Insert, Led;
      NothingLogged();
      SameKeys();
      var node := FindNode(t);
      if node == null {
        value := StoreRead(t);
        if value == None { return null, None; }
        r := CachePutNewEntry(t, value.value, k);
      } else {
        ResidentNode(t);
        if node.dirtyBit != ToDelete {
          r, value := node, Some(node.value);
        } else {
          r, value := null, None;
        }
        Touch(node, t);
      }
    }

    /** `cache_PUT` once the hashes are known. */
    method PutHashed(t: Triple, v: Block, ghost k: nat)
      requires Valid() && Usable(th.cache) && kvPersistentStore.disk.HasRoom(|th.cache.nodes| + k + 1)
      modifies this, hashTable, lruEvictionTable, nodes, cacheNodeMemoryPool, kvPersistentStore, kvPersistentStore.disk
      ensures Valid() && kvPersistentStore.disk.HasRoom(|th.cache.nodes| + k)
      ensures Usable(old(th).cache) && Abs() == Put(old(Abs()), t, v)
      ensures Led(old(kvPersistentStore.disk.Now()), kvPersistentStore.disk.Now())
      ensures kvPersistentStore.disk.log == old(kvPersistentStore.disk.log) +
                if t !in old(th).cache.nodes then InsertOps(old(th).cache) else []
    {
      hide Valid, WF, Insert, Led;
      NothingLogged();
      SameKeys();
      var node := FindNode(t);
      if node == null {
        var added := CachePutNewEntry(t, v, k);
        return;
      }
      ResidentNode(t);
      var bit := node.dirtyBit;
      if bit == NotInCache {
        assert false;
      } else if v == node.value {
        if bit == ToDelete { bit := Dirty; }
      } else {
        bit := Dirty;
      }
      Rewrite(node, t, v, bit);
      Touch(node, t);
    }

    /** `cache_DELETE` once the hashes are known. */
    method DeleteHashed(t: Triple, ghost k: nat) returns (r: bool)
      requires Valid() && Usable(th.cache) && kvPersistentStore.disk.HasRoom(|th.cache.nodes| + k)
      modifies this, hashTable, lruEvictionTable, nodes, kvPersistentStore.disk
      ensures Valid() && kvPersistentStore.disk.HasRoom(|th.cache.nodes| + k)
      ensures Usable(old(th).cache) && Abs() == Delete(old(Abs()), t).0 && r == Delete(old(Abs()), t).1
      ensures Led(old(kvPersistentStore.disk.Now()), kvPersistentStore.disk.Now())
      ensures kvPersistentStore.disk.log == old(kvPersistentStore.disk.log) +
                if t !in old(th).cache.nodes then [Erased(t)] else []
    {
      hide Valid, WF, Led;
      NothingLogged();
      SameKeys();
      var node := FindNode(t);
      if node == null {
        r := StoreDelete(t, |th.cache.nodes| + k);
        return;
      }
      ResidentNode(t);
      if node.dirtyBit == ToDelete {
        return false;
      }
      if node.dirtyBit == NotInCache {
        assert false;
      }
      Rewrite(node, t, node.value, ToDelete);
      Touch(node, t);
      r := true;
    }

    /** `cache_GET_ptr` */
    method CacheGetPtr(ptr: Message.KVMessage, ghost k: nat) returns (r: CacheNode?)
      requires Valid() && Usable(th.cache) && kvPersistentStore.disk.HasRoom(|th.cache.nodes| + k + 1)
      modifies this, hashTable, lruEvictionTable, nodes, cacheNodeMemoryPool, kvPersistentStore, kvPersistentStore.disk
      modifies ptr`hash1, ptr`hash2, ptr`value
      ensures Valid() && kvPersistentStore.disk.HasRoom(|th.cache.nodes| + k)
      ensures Usable(old(th).cache) && Abs() == Get(old(Abs()), Message.TripleOf(ptr.key)).0
      ensures r == null <==> Get(old(Abs()), Message.TripleOf(ptr.key)).1 == None
      ensures r != null ==> Get(old(Abs()), Message.TripleOf(ptr.key)).1 == Some(ptr.value)
      ensures Led(old(kvPersistentStore.disk.Now()), kvPersistentStore.disk.Now())
      ensures r != null ==> Message.TripleOf(ptr.key) in th.who && r == th.who[Message.TripleOf(ptr.key)]
      ensures r == null ==> ptr.value == old(ptr.value)
      ensures var t := Message.TripleOf(ptr.key);
              kvPersistentStore.disk.log == old(kvPersistentStore.disk.log) +
                if t !in old(th).cache.nodes && t in old(kvPersistentStore.disk.contents) then InsertOps(old(th).cache) else []
    {
      hide Valid, WF, Usable, Get, Led;
      ptr.CalculateKeyHash();
      var value;
      r, value := GetHashed(ptr.Id(), k);
      if value.Some? {
        ptr.value := value.value;
      }
    }

    /** `cache_PUT` */
    method CachePut(ptr: Message.KVMessage, ghost k: nat)
      requires Valid() && Usable(th.cache) && kvPersistentStore.disk.HasRoom(|th.cache.nodes| + k + 1)
      modifies this, hashTable, lruEvictionTable, nodes, cacheNodeMemoryPool, kvPersistentStore, kvPersistentStore.disk
      modifies ptr`hash1, ptr`hash2
      ensures Valid() && kvPersistentStore.disk.HasRoom(|th.cache.nodes| + k)
      ensures Usable(old(th).cache) && Abs() == Put(old(Abs()), Message.TripleOf(ptr.key), ptr.value)
      ensures Led(old(kvPersistentStore.disk.Now()), kvPersistentStore.disk.Now())
      ensures kvPersistentStore.disk.log == old(kvPersistentStore.disk.log) +
                if Message.TripleOf(ptr.key) !in old(th).cache.nodes then InsertOps(old(th).cache) else []
    {
      hide Valid, WF, Usable, Put, Led;
      ptr.CalculateKeyHash();
      PutHashed(ptr.Id(), ptr.value, k);
    }

    /** `cache_DELETE` */
    method CacheDelete(ptr: Message.KVMessage, ghost k: nat) returns (r: bool)
      requires Valid() && Usable(th.cache) && kvPersistentStore.disk.HasRoom(|th.cache.nodes| + k)
      modifies this, hashTable, lruEvictionTable, nodes, kvPersistentStore.disk
      modifies ptr`hash1, ptr`hash2
      ensures Valid() && kvPersistentStore.disk.HasRoom(|th.cache.nodes| + k)
      ensures Usable(old(th).cache) && Abs() == Delete(old(Abs()), Message.TripleOf(ptr.key)).0
      ensures r <==> Delete(old(Abs()), Message.TripleOf(ptr.key)).1
      ensures Led(old(kvPersistentStore.disk.Now()), kvPersistentStore.disk.Now())
      ensures var t := Message.TripleOf(ptr.key);
              kvPersistentStore.disk.log == old(kvPersistentStore.disk.log) + if t !in old(th).cache.nodes then [Erased(t)] else []
    {
      hide Valid, WF, Usable, Delete, Led;
      ptr.CalculateKeyHash();
      r := DeleteHashed(ptr.Id(), k);
    }

    /** `cache_clean`: evict until there is no victim. The evicted nodes do not go back to the pool. */
    method CacheClean(ghost k: nat)
      requires Valid() && kvPersistentStore.disk.HasRoom(|th.cache.nodes| + k)
      modifies this, hashTable, lruEvictionTable, nodes, kvPersistentStore, kvPersistentStore.disk
      ensures Valid() && th.cache.nodes == map[] && kvPersistentStore.disk.HasRoom(k)
      ensures WF(old(th).cache) && Abs() == Drain(old(Abs()))
      ensures Led(old(kvPersistentStore.disk.Now()), kvPersistentStore.disk.Now())
    {
      hide Valid, WF, Evict, Victim, Led;
      ghost var g := Abs();
      ghost var m := kvPersistentStore.disk.Now();
      SameKeys();
      var victim := EvictForClean(g, k);
      while victim != null
        invariant Valid() && WF(g.cache) && WF(th.cache)
        invariant Drain(g) == if victim == null then Abs() else Drain(Abs())
        invariant victim == null ==> th.cache.nodes == map[]
        invariant kvPersistentStore.disk.HasRoom(|th.cache.nodes| + k)
        invariant Led(m, kvPersistentStore.disk.Now())
        decreases |th.cache.nodes|, if victim == null then 0 else 1
      {
        ghost var before := kvPersistentStore.disk.Now();
        victim := EvictForClean(Abs(), k);
        LedOn(m, before, kvPersistentStore.disk.Now());
      }
    }

    /** One turn of the drain loop. */
    method EvictForClean(ghost g: State, ghost k: nat) returns (victim: CacheNode?)
      requires Valid() && kvPersistentStore.disk.HasRoom(|th.cache.nodes| + k) && g == Abs()
      modifies this, hashTable, lruEvictionTable, nodes, kvPersistentStore, kvPersistentStore.disk
      ensures Valid() && WF(g.cache) && WF(th.cache) && kvPersistentStore.disk.HasRoom(|th.cache.nodes| + k)
      ensures victim == null ==> Drain(g) == Abs() && th.cache.nodes == map[]
      ensures victim != null ==> Drain(g) == Drain(Abs()) && |th.cache.nodes| < |g.cache.nodes|
      ensures Led(old(kvPersistentStore.disk.Now()), kvPersistentStore.disk.Now())
    {
      hide Valid, WF, Led;
      SameKeys();
      EvictShrinks(g);
      NoVictimIffEmpty(g.cache);
      EvictWF(g);
      victim := CacheEviction(k);
    }
  }

  lemma InsertIs(g: State, t: Triple, v: Block)
    requires Usable(g.cache) && t !in g.cache.nodes
    ensures t !in Obtain(g).cache.nodes && Obtain(g).cache.stripes != []
    ensures Insert(g, t, v) == State(Add(Obtain(g).cache, t, v), Obtain(g).store)
    ensures |Add(Obtain(g).cache, t, v).nodes| == |Obtain(g).cache.nodes| + 1
  {
    ObtainedLacks(g, t);
  }

  /** The store operation that flushes a resident. */
  ghost function FlushOp(t: Triple, n: Node): StoreOp {
    if n.bit == ToDelete then Erased(t) else Wrote(t, n.value)
  }

  /** The store operations of an eviction. */
  ghost function EvictionOps(c: Cache): (ops: seq<StoreOp>)
    requires c.stripes != []
    ensures |ops| <= 1
  {
    var v := Victim(c);
    if v.Some? && v.value in c.nodes then [FlushOp(v.value, c.nodes[v.value])] else []
  }

  /** The store operations of an insert: none while the pool has a node. */
  ghost function InsertOps(c: Cache): (ops: seq<StoreOp>)
    requires c.stripes != []
    ensures |ops| <= 1
    ensures c.free > 0 ==> ops == []
  {
    if c.free > 0 then [] else EvictionOps(c)
  }

  /** One draw from a counter that is reduced modulo n after each increment. */
  method NextIdx(counter: nat, n: nat, ghost total: nat) returns (id: nat, next: nat)
    requires n > 0 && counter == total % n
    ensures id == total % n && next == (total + 1) % n
  {
    SmallMod(n, counter);
    ReducedIncrement(n, total);
    var index := counter;
    next := counter + 1;
    id := index % n;
    next := next % n;
  }

  method FindInChain(q: CacheNodeQueuePtr, t: Triple, ghost s: seq<CacheNode>) returns (node: CacheNode?)
    requires ChainList(q, s)
    ensures node != null ==> node in s && node.Id() == t
    ensures node == null ==> forall n :: n in s ==> n.Id() != t
  {
    node := q.head;
    ghost var j := 0;
    while node != null
      invariant 0 <= j <= |s| && node == At(s, j)
      invariant forall i :: 0 <= i < j ==> s[i].Id() != t
      decreases |s| - j
    {
      if node.hash1 == t.hash1 && node.hash2 == t.hash2 && node.key == t.key {
        return;
      }
      assert ChainLinked(s, j);
      node := node.l1Right;
      j := j + 1;
    }
  }

  lemma ChainPosition(th: Threading, t: Triple) returns (k: nat)
    requires Shape(th) && t in th.who
    ensures var h := ChainOf(t.hash1);
            h < |th.chainNodes| && k < |th.chainNodes[h]| && th.chainNodes[h][k] == th.who[t]
            && |th.chains[h]| == |th.chainNodes[h]| && th.chains[h][k] == t
  {
    var h := ChainOf(t.hash1);
    assert t in th.who.Keys;
    assert MirrorsList(th.chains[h], th.chainNodes[h], th.who);
    k :| 0 <= k < |th.chains[h]| && th.chains[h][k] == t;
  }

  /** Every node on a chain is the node of some resident. */
  lemma ChainMembers(th: Threading, h: nat)
    requires Shape(th) && h < CACHE_TABLE_LEN
    ensures h < |th.chainNodes|
    ensures forall n :: n in th.chainNodes[h] ==> exists t :: t in th.who && th.who[t] == n
  {
    assert MirrorsList(th.chains[h], th.chainNodes[h], th.who);
    forall n | n in th.chainNodes[h] ensures exists t :: t in th.who && th.who[t] == n {
      var j :| 0 <= j < |th.chainNodes[h]| && th.chainNodes[h][j] == n;
      assert th.who[th.chains[h][j]] == n;
    }
  }

  ghost function NoResidents(cacheSize: nat): Threading {
    Threading(EmptyCache(cacheSize), map[], seq(CACHE_TABLE_LEN, _ => []),
              seq(CACHE_TABLE_LEN, _ => []), seq(StripeCount(cacheSize), _ => []))
  }

  lemma NothingLaid(cacheSize: nat, hashTable: seq<CacheNodeQueuePtr>, lruTable: seq<CacheNodeQueuePtr>, nodes: set<CacheNode>)
    requires |hashTable| == CACHE_TABLE_LEN && |lruTable| == StripeCount(cacheSize)
    requires NoDup(hashTable) && NoDup(lruTable)
    requires forall q :: q in hashTable || q in lruTable ==> q.head == null && q.tail == null
    ensures Shape(NoResidents(cacheSize))
    ensures Laid(NoResidents(cacheSize), hashTable, lruTable, nodes)
  {
  }

  /** The pointer work of a promotion: only the stripe's order changes. */
  method PromoteLaid(hashTable: seq<CacheNodeQueuePtr>, lruTable: seq<CacheNodeQueuePtr>, node: CacheNode,
                     ghost th: Threading, ghost k: nat, ghost nodes: set<CacheNode>)
    requires Laid(th, hashTable, lruTable, nodes) && Apart(hashTable, lruTable)
    requires node.lruIdx < |lruTable| == |th.stripeNodes| && k < |th.stripeNodes[node.lruIdx]| && th.stripeNodes[node.lruIdx][k] == node
    modifies lruTable, nodes`l2Prev, nodes`l2Next
    ensures var s := th.stripeNodes[node.lruIdx];
            Laid(th.(stripeNodes := th.stripeNodes[node.lruIdx := [node] + RemoveAt(s, k)]), hashTable, lruTable, nodes)
  {
    assert forall n :: n in th.stripeNodes[node.lruIdx] ==> n in nodes;
    PromoteInTable(lruTable, node.lruIdx, node, th.stripeNodes, k, nodes);
  }

  lemma ShapeSizes(th: Threading, t: Triple)
    requires Shape(th) && t in th.who
    ensures |th.chains| == |th.chainNodes| == CACHE_TABLE_LEN && |th.stripeNodes| == |th.cache.stripes|
    ensures t in th.cache.nodes && th.cache.nodes[t].lru < |th.cache.stripes|
  {
  }

  lemma StripePosition(c: Cache, lists: seq<seq<CacheNode>>, who: Residents, t: Triple) returns (k: nat)
    requires WF(c) && Mirrors(c.stripes, lists, who) && t in c.nodes && t in who
    ensures var i := c.nodes[t].lru;
            i < |lists| && k < |lists[i]| && lists[i][k] == who[t] && |c.stripes[i]| == |lists[i]| && c.stripes[i][k] == t
  {
    var i := c.nodes[t].lru;
    assert MirrorsList(c.stripes[i], lists[i], who);
    k :| 0 <= k < |c.stripes[i]| && c.stripes[i][k] == t;
  }

  lemma MirrorsRemove(idss: seq<seq<Triple>>, lists: seq<seq<CacheNode>>, who: Residents, i: nat, k: nat)
    requires Mirrors(idss, lists, who) && i < |idss| && k < |idss[i]|
    ensures k < |lists[i]| && Mirrors(idss[i := RemoveAt(idss[i], k)], lists[i := RemoveAt(lists[i], k)], who)
  {
    assert MirrorsList(idss[i], lists[i], who);
    forall j {:trigger MirrorsList(idss[j], lists[j], who)} | 0 <= j < |idss|
      ensures MirrorsList(idss[i := RemoveAt(idss[i], k)][j], lists[i := RemoveAt(lists[i], k)][j], who)
    {
      assert MirrorsList(idss[j], lists[j], who);
    }
  }

  lemma MirrorsCons(idss: seq<seq<Triple>>, lists: seq<seq<CacheNode>>, who: Residents, i: nat, t: Triple)
    requires Mirrors(idss, lists, who) && i < |idss| && t in who
    ensures Mirrors(idss[i := [t] + idss[i]], lists[i := [who[t]] + lists[i]], who)
  {
    forall j {:trigger MirrorsList(idss[j], lists[j], who)} | 0 <= j < |idss|
      ensures MirrorsList(idss[i := [t] + idss[i]][j], lists[i := [who[t]] + lists[i]][j], who)
    {
      assert MirrorsList(idss[j], lists[j], who);
    }
  }

  lemma PromoteMirrors(c: Cache, lists: seq<seq<CacheNode>>, who: Residents, t: Triple, k: nat)
    requires WF(c) && Mirrors(c.stripes, lists, who) && t in c.nodes && t in who
    requires var i := c.nodes[t].lru; k < |lists[i]| && |c.stripes[i]| == |lists[i]| && c.stripes[i][k] == t
    ensures WF(E.Promote(c, t))
    ensures var i := c.nodes[t].lru; Mirrors(E.Promote(c, t).stripes, lists[i := [who[t]] + RemoveAt(lists[i], k)], who)
  {
    var i := c.nodes[t].lru;
    PromoteWF(c, t);
    assert NoDup(c.stripes[i]);
    WithoutAt(c.stripes[i], k);
    MirrorsRemove(c.stripes, lists, who, i, k);
    var idss', lists' := c.stripes[i := RemoveAt(c.stripes[i], k)], lists[i := RemoveAt(lists[i], k)];
    MirrorsCons(idss', lists', who, i, t);
    assert idss'[i := [t] + idss'[i]] == E.Promote(c, t).stripes;
    assert lists'[i := [who[t]] + lists'[i]] == lists[i := [who[t]] + RemoveAt(lists[i], k)];
  }

  /** The draws from a to b all name empty stripes. */
  ghost predicate AllEmpty(stripes: seq<seq<Triple>>, a: nat, b: nat)
    requires stripes != []
  {
    forall d :: a <= d < b ==> stripes[d % |stripes|] == []
  }

  lemma NoDraws(stripes: seq<seq<Triple>>, a: nat)
    requires stripes != []
    ensures AllEmpty(stripes, a, a)
  {
  }

  lemma AllEmptyNext(stripes: seq<seq<Triple>>, a: nat, b: nat)
    requires stripes != [] && AllEmpty(stripes, a, b) && stripes[b % |stripes|] == []
    ensures AllEmpty(stripes, a, b + 1)
  {
  }

  lemma {:induction false} ScanIs(stripes: seq<seq<Triple>>, e: nat, left: nat, r: nat)
    requires stripes != [] && e <= r <= e + left
    requires AllEmpty(stripes, e, r)
    requires stripes[r % |stripes|] != [] || r == e + left
    ensures ScanStripes(stripes, e, left) == r
    decreases left
  {
    if e < r { ScanIs(stripes, e + 1, left - 1, r); }
  }

  lemma EvictIs(g: State)
    requires WF(g.cache)
    ensures Victim(g.cache) == None ==> Evict(g) == g.(cache := g.cache.(draws := VictimDraw(g.cache) + 1))
    ensures Victim(g.cache).Some? ==>
              var t := Victim(g.cache).value;
              && t in g.cache.nodes && g.cache.nodes[t].lru < |g.cache.stripes|
              && Evict(g) == Remove(g.(cache := g.cache.(draws := VictimDraw(g.cache) + 1)), t)
              && |Evict(g).cache.nodes| == |g.cache.nodes| - 1
  {
    EvictShrinks(g);
    if Victim(g.cache).Some? { VictimIsResident(g.cache); }
  }

  lemma StripeLinks(qs: seq<CacheNodeQueuePtr>, idss: seq<seq<Triple>>, lists: seq<seq<CacheNode>>, who: Residents,
                    nodes: set<CacheNode>, i: nat, j: nat)
    requires LruTable(qs, lists, nodes) && Mirrors(idss, lists, who) && i < |qs|
    ensures i < |idss| == |lists| && |idss[i]| == |lists[i]|
    ensures var q, s := qs[i], lists[i];
            && (s == [] ==> q.head == null && q.tail == null)
            && (s != [] ==> q.head == s[0] && q.tail == s[|s| - 1])
            && (j < |s| ==>
                  && idss[i][j] in who && s[j] == who[idss[i][j]]
                  && s[j].l2Prev == (if j > 0 then s[j - 1] else null)
                  && s[j].l2Next == (if j + 1 < |s| then s[j + 1] else null))
  {
    assert LruList(qs[i], lists[i]) && MirrorsList(idss[i], lists[i], who);
    assert j < |lists[i]| ==> LruLinked(lists[i], j);
  }

  lemma ChainLinks(qs: seq<CacheNodeQueuePtr>, idss: seq<seq<Triple>>, lists: seq<seq<CacheNode>>, who: Residents,
                   nodes: set<CacheNode>, i: nat, j: nat)
    requires ChainTable(qs, lists, nodes) && Mirrors(idss, lists, who) && i < |qs|
    ensures i < |idss| == |lists| && |idss[i]| == |lists[i]|
    ensures var q, s := qs[i], lists[i];
            && (s == [] ==> q.head == null && q.tail == null)
            && (s != [] ==> q.head == s[0] && q.tail == s[|s| - 1])
            && (j < |s| ==>
                  && idss[i][j] in who && s[j] == who[idss[i][j]]
                  && s[j].l1Left == (if j > 0 then s[j - 1] else null)
                  && s[j].l1Right == (if j + 1 < |s| then s[j + 1] else null))
  {
    assert ChainList(qs[i], lists[i]) && MirrorsList(idss[i], lists[i], who);
    assert j < |lists[i]| ==> ChainLinked(lists[i], j);
  }

  lemma ChainHolds(keys: set<Triple>, chains: seq<seq<Triple>>, h: nat)
    requires Hashed(keys, chains) && h < 16384
    ensures |chains| == 16384
    ensures forall t :: t in chains[h] <==> t in keys && t.hash1 % 16384 == h
  {
    forall t ensures t in chains[h] <==> t in keys && t.hash1 % 16384 == h {
      assert ChainOf(t.hash1) == t.hash1 % 16384;
    }
  }

  // ---------- unthreading ----------

  ghost function Unthreaded(th: Threading, t: Triple, kh: nat, k: nat): Threading
    requires Shape(th) && t in th.who
    requires |th.chainNodes| == CACHE_TABLE_LEN && kh < |th.chainNodes[ChainOf(t.hash1)]| == |th.chains[ChainOf(t.hash1)]|
    requires var i := th.cache.nodes[t].lru; i < |th.stripeNodes| && k < |th.stripeNodes[i]|
  {
    var h, i := ChainOf(t.hash1), th.cache.nodes[t].lru;
    Threading(Remove(State(th.cache, map[]), t).cache,
              th.who - {t},
              th.chains[h := RemoveAt(th.chains[h], kh)],
              th.chainNodes[h := RemoveAt(th.chainNodes[h], kh)],
              th.stripeNodes[i := RemoveAt(th.stripeNodes[i], k)])
  }

  /** The pointer work of an eviction on the chain, and on the stripe. */
  method UnchainLaid(hashTable: seq<CacheNodeQueuePtr>, lruTable: seq<CacheNodeQueuePtr>, node: CacheNode,
                     ghost th: Threading, ghost kh: nat, ghost nodes: set<CacheNode>)
    requires Laid(th, hashTable, lruTable, nodes) && Apart(hashTable, lruTable)
    requires ChainOf(node.hash1) < |hashTable| == |th.chainNodes|
    requires kh < |th.chainNodes[ChainOf(node.hash1)]| && th.chainNodes[ChainOf(node.hash1)][kh] == node
    modifies hashTable, nodes`l1Left, nodes`l1Right
    ensures var h := ChainOf(node.hash1);
            Laid(th.(chainNodes := th.chainNodes[h := RemoveAt(th.chainNodes[h], kh)]), hashTable, lruTable, nodes)
  {
    assert forall n :: n in th.chainNodes[ChainOf(node.hash1)] ==> n in nodes;
    RemoveInChainTable(hashTable, ChainOf(node.hash1), node, th.chainNodes, kh, nodes);
  }

  method UnstripeLaid(hashTable: seq<CacheNodeQueuePtr>, lruTable: seq<CacheNodeQueuePtr>, node: CacheNode,
                      ghost th: Threading, ghost k: nat, ghost nodes: set<CacheNode>)
    requires Laid(th, hashTable, lruTable, nodes) && Apart(hashTable, lruTable)
    requires node.lruIdx < |lruTable| == |th.stripeNodes|
    requires k < |th.stripeNodes[node.lruIdx]| && th.stripeNodes[node.lruIdx][k] == node
    modifies lruTable, nodes`l2Prev, nodes`l2Next
    ensures var i := node.lruIdx;
            Laid(th.(stripeNodes := th.stripeNodes[i := RemoveAt(th.stripeNodes[i], k)]), hashTable, lruTable, nodes)
  {
    assert forall n :: n in th.stripeNodes[node.lruIdx] ==> n in nodes;
    RemoveInLruTable(lruTable, node.lruIdx, node, th.stripeNodes, k, nodes);
  }

  /** Both, in the source's order; th' describes what is left. */
  method UnthreadLaid(hashTable: seq<CacheNodeQueuePtr>, lruTable: seq<CacheNodeQueuePtr>, node: CacheNode,
                      ghost th: Threading, ghost kh: nat, ghost k: nat, ghost nodes: set<CacheNode>, ghost th': Threading)
    requires Laid(th, hashTable, lruTable, nodes) && Apart(hashTable, lruTable)
    requires ChainOf(node.hash1) < |hashTable| == |th.chainNodes| && node.lruIdx < |lruTable| == |th.stripeNodes|
    requires kh < |th.chainNodes[ChainOf(node.hash1)]| && th.chainNodes[ChainOf(node.hash1)][kh] == node
    requires k < |th.stripeNodes[node.lruIdx]| && th.stripeNodes[node.lruIdx][k] == node
    requires th'.who == th.who - {node.Id()} && th'.cache.nodes == th.cache.nodes - {node.Id()}
    requires th'.chainNodes == th.chainNodes[ChainOf(node.hash1) := RemoveAt(th.chainNodes[ChainOf(node.hash1)], kh)]
    requires th'.stripeNodes == th.stripeNodes[node.lruIdx := RemoveAt(th.stripeNodes[node.lruIdx], k)]
    modifies hashTable, lruTable, nodes`l1Left, nodes`l1Right, nodes`l2Prev, nodes`l2Next
    ensures Laid(th', hashTable, lruTable, nodes)
  {
    UnchainLaid(hashTable, lruTable, node, th, kh, nodes);
    UnstripeLaid(hashTable, lruTable, node, th.(chainNodes := th'.chainNodes), k, nodes);
  }

  ghost predicate Nowhere(t: Triple, idss: seq<seq<Triple>>) {
    forall i :: 0 <= i < |idss| ==> t !in idss[i]
  }

  lemma MirrorsForget(idss: seq<seq<Triple>>, lists: seq<seq<CacheNode>>, who: Residents, t: Triple)
    requires Mirrors(idss, lists, who) && Nowhere(t, idss)
    ensures Mirrors(idss, lists, who - {t})
  {
    forall i {:trigger MirrorsList(idss[i], lists[i], who - {t})} | 0 <= i < |idss|
      ensures MirrorsList(idss[i], lists[i], who - {t})
    {
      assert MirrorsList(idss[i], lists[i], who);
      forall j | 0 <= j < |idss[i]| ensures idss[i][j] != t {
        assert idss[i][j] in idss[i];
      }
    }
  }

  lemma HashedRemove(keys: set<Triple>, chains: seq<seq<Triple>>, t: Triple, k: nat)
    requires Hashed(keys, chains) && t in keys
    requires var h := ChainOf(t.hash1); k < |chains[h]| && chains[h][k] == t
    ensures Hashed(keys - {t}, chains[ChainOf(t.hash1) := RemoveAt(chains[ChainOf(t.hash1)], k)])
    ensures Nowhere(t, chains[ChainOf(t.hash1) := RemoveAt(chains[ChainOf(t.hash1)], k)])
  {
    var h := ChainOf(t.hash1);
    assert NoDup(chains[h]);
    WithoutAt(chains[h], k);
    WithoutMembers(chains[h], t);
    assert forall g :: 0 <= g < CACHE_TABLE_LEN && g != h ==> t !in chains[g];
  }

  lemma UnthreadShape(th: Threading, t: Triple, kh: nat, k: nat)
    requires Shape(th) && t in th.who
    requires var h := ChainOf(t.hash1);
             h < |th.chainNodes| && kh < |th.chainNodes[h]| && |th.chains[h]| == |th.chainNodes[h]| && th.chains[h][kh] == t
    requires var i := th.cache.nodes[t].lru;
             i < |th.stripeNodes| && k < |th.stripeNodes[i]| && |th.cache.stripes[i]| == |th.stripeNodes[i]| && th.cache.stripes[i][k] == t
    ensures Shape(Unthreaded(th, t, kh, k))
    ensures Unthreaded(th, t, kh, k).cache.nodes == th.cache.nodes - {t}
  {
    var h, i := ChainOf(t.hash1), th.cache.nodes[t].lru;
    RemoveWF(State(th.cache, map[]), t);
    HashedRemove(th.who.Keys, th.chains, t, kh);
    MirrorsRemove(th.chains, th.chainNodes, th.who, h, kh);
    MirrorsForget(th.chains[h := RemoveAt(th.chains[h], kh)], th.chainNodes[h := RemoveAt(th.chainNodes[h], kh)], th.who, t);
    assert NoDup(th.cache.stripes[i]);
    WithoutAt(th.cache.stripes[i], k);
    WithoutMembers(th.cache.stripes[i], t);
    MirrorsRemove(th.cache.stripes, th.stripeNodes, th.who, i, k);
    var c' := Remove(State(th.cache, map[]), t).cache;
    assert c'.stripes == th.cache.stripes[i := RemoveAt(th.cache.stripes[i], k)];
    MirrorsForget(c'.stripes, th.stripeNodes[i := RemoveAt(th.stripeNodes[i], k)], th.who, t);
    assert (th.who - {t}).Keys == th.who.Keys - {t};
  }

  // ---------- threading a new node ----------

  ghost function Added(th: Threading, t: Triple, v: Block, node: CacheNode, i: nat): Threading
    requires th.cache.stripes != [] && i < |th.stripeNodes|
    requires ChainOf(t.hash1) < |th.chains| && ChainOf(t.hash1) < |th.chainNodes|
  {
    var h := ChainOf(t.hash1);
    Threading(Add(th.cache, t, v),
              th.who[t := node],
              th.chains[h := [t] + th.chains[h]],
              th.chainNodes[h := [node] + th.chainNodes[h]],
              th.stripeNodes[i := [node] + th.stripeNodes[i]])
  }

  /** `set_all` and the two insertions at the head. */
  method ThreadLaid(hashTable: seq<CacheNodeQueuePtr>, lruTable: seq<CacheNodeQueuePtr>, node: CacheNode,
                    ghost th: Threading, t: Triple, v: Block, i: nat, ghost nodes: set<CacheNode>)
    requires Laid(th, hashTable, lruTable, nodes) && Apart(hashTable, lruTable) && node in nodes
    requires th.cache.stripes != [] && i == th.cache.inserts % |th.cache.stripes| && i < |lruTable| == |th.stripeNodes|
    requires ChainOf(t.hash1) < |hashTable| == |th.chainNodes| && ChainOf(t.hash1) < |th.chains|
    requires forall j :: 0 <= j < |th.chainNodes| ==> node !in th.chainNodes[j]
    requires forall j :: 0 <= j < |th.stripeNodes| ==> node !in th.stripeNodes[j]
    requires forall u :: u in th.who ==> th.who[u] != node
    modifies hashTable, lruTable, nodes
    ensures Laid(Added(th, t, v, node, i), hashTable, lruTable, nodes)
    ensures node.lruIdx == i && hashTable[ChainOf(t.hash1)].head == node && lruTable[i].head == node
  {
    node.SetAll(t, v, i, Dirty);
    var h := ChainOf(t.hash1);
    ghost var th1 := th.(who := th.who[t := node], cache := Add(th.cache, t, v));
    InsertChainLaid(hashTable, lruTable, node, th1, nodes);
    InsertStripeLaid(hashTable, lruTable, node, th1.(chainNodes := th.chainNodes[h := [node] + th.chainNodes[h]]), nodes);
  }

  method InsertChainLaid(hashTable: seq<CacheNodeQueuePtr>, lruTable: seq<CacheNodeQueuePtr>, node: CacheNode,
                         ghost th: Threading, ghost nodes: set<CacheNode>)
    requires Laid(th, hashTable, lruTable, nodes) && Apart(hashTable, lruTable) && node in nodes
    requires ChainOf(node.hash1) < |hashTable| == |th.chainNodes|
    requires forall j :: 0 <= j < |th.chainNodes| ==> node !in th.chainNodes[j]
    modifies hashTable, nodes`l1Left, nodes`l1Right
    ensures var h := ChainOf(node.hash1);
            && Laid(th.(chainNodes := th.chainNodes[h := [node] + th.chainNodes[h]]), hashTable, lruTable, nodes)
            && hashTable[h].head == node
  {
    assert forall n :: n in th.chainNodes[ChainOf(node.hash1)] ==> n in nodes;
    InsertInChainTable(hashTable, ChainOf(node.hash1), node, th.chainNodes, nodes);
  }

  method InsertStripeLaid(hashTable: seq<CacheNodeQueuePtr>, lruTable: seq<CacheNodeQueuePtr>, node: CacheNode,
                          ghost th: Threading, ghost nodes: set<CacheNode>)
    requires Laid(th, hashTable, lruTable, nodes) && Apart(hashTable, lruTable) && node in nodes
    requires node.lruIdx < |lruTable| == |th.stripeNodes|
    requires forall j :: 0 <= j < |th.stripeNodes| ==> node !in th.stripeNodes[j]
    modifies lruTable, nodes`l2Prev, nodes`l2Next
    ensures var i := node.lruIdx;
            && Laid(th.(stripeNodes := th.stripeNodes[i := [node] + th.stripeNodes[i]]), hashTable, lruTable, nodes)
            && lruTable[i].head == node
  {
    assert forall n :: n in th.stripeNodes[node.lruIdx] ==> n in nodes;
    InsertInLruTable(lruTable, node.lruIdx, node, th.stripeNodes, nodes);
  }

  lemma MirrorsExtend(idss: seq<seq<Triple>>, lists: seq<seq<CacheNode>>, who: Residents, t: Triple, node: CacheNode)
    requires Mirrors(idss, lists, who) && t !in who
    ensures Mirrors(idss, lists, who[t := node])
  {
    forall i {:trigger MirrorsList(idss[i], lists[i], who[t := node])} | 0 <= i < |idss|
      ensures MirrorsList(idss[i], lists[i], who[t := node])
    {
      assert MirrorsList(idss[i], lists[i], who);
    }
  }

  lemma HashedAdd(keys: set<Triple>, chains: seq<seq<Triple>>, t: Triple)
    requires Hashed(keys, chains) && t !in keys
    ensures Hashed(keys + {t}, chains[ChainOf(t.hash1) := [t] + chains[ChainOf(t.hash1)]])
  {
    var h := ChainOf(t.hash1);
    assert t !in chains[h] && NoDup(chains[h]);
    assert NoDup([t] + chains[h]);
  }

  lemma NotListed(idss: seq<seq<Triple>>, lists: seq<seq<CacheNode>>, who: Residents, node: CacheNode)
    requires Mirrors(idss, lists, who) && forall u :: u in who ==> who[u] != node
    ensures forall j :: 0 <= j < |lists| ==> node !in lists[j]
  {
    forall j | 0 <= j < |lists| ensures node !in lists[j] {
      assert MirrorsList(idss[j], lists[j], who);
    }
  }

  lemma AddShape(th: Threading, t: Triple, v: Block, node: CacheNode, i: nat)
    requires Shape(th) && t !in th.who && i == th.cache.inserts % |th.cache.stripes|
    requires forall u :: u in th.who ==> th.who[u] != node
    ensures |th.chains| == |th.chainNodes| == CACHE_TABLE_LEN && i < |th.stripeNodes| == |th.cache.stripes|
    ensures Shape(Added(th, t, v, node, i))
    ensures forall j :: 0 <= j < |th.chainNodes| ==> node !in th.chainNodes[j]
    ensures forall j :: 0 <= j < |th.stripeNodes| ==> node !in th.stripeNodes[j]
  {
    var h := ChainOf(t.hash1);
    NotListed(th.chains, th.chainNodes, th.who, node);
    NotListed(th.cache.stripes, th.stripeNodes, th.who, node);
    AddWF(th.cache, t, v);
    HashedAdd(th.who.Keys, th.chains, t);
    assert th.who[t := node].Keys == th.who.Keys + {t};
    MirrorsExtend(th.chains, th.chainNodes, th.who, t, node);
    MirrorsExtend(th.cache.stripes, th.stripeNodes, th.who, t, node);
    MirrorsCons(th.chains, th.chainNodes, th.who[t := node], h, t);
    MirrorsCons(th.cache.stripes, th.stripeNodes, th.who[t := node], i, t);
  }

  // ---------- updating a node ----------

  function Updated(c: Cache, t: Triple, v: Block, bit: DirtyBit): Cache
    requires t in c.nodes
  {
    c.(nodes := c.nodes[t := Node(v, bit, c.nodes[t].lru)])
  }

  method RewriteLaid(hashTable: seq<CacheNodeQueuePtr>, lruTable: seq<CacheNodeQueuePtr>, node: CacheNode,
                     ghost th: Threading, ghost t: Triple, v: Block, bit: DirtyBit, ghost nodes: set<CacheNode>)
    requires Laid(th, hashTable, lruTable, nodes) && t in th.who && th.who[t] == node && t in th.cache.nodes
    modifies node`value, node`dirtyBit
    ensures Laid(th.(cache := Updated(th.cache, t, v, bit)), hashTable, lruTable, nodes)
  {
    hide ChainTable, LruTable;
    node.dirtyBit := bit;
    node.value := v;
    forall u | u in th.who && u != t ensures th.who[u] != node {
      assert old(th.who[u].Id()) == u && old(th.who[t].Id()) == t;
    }
  }

  lemma UpdatedShape(th: Threading, t: Triple, v: Block, bit: DirtyBit)
    requires Shape(th) && t in th.cache.nodes && (bit == Dirty || bit == ToDelete)
    ensures Shape(th.(cache := Updated(th.cache, t, v, bit)))
    ensures Updated(th.cache, t, v, bit).stripes == th.cache.stripes && th.who.Keys == th.cache.nodes.Keys
  {
    assert Updated(th.cache, t, v, bit).nodes.Keys == th.cache.nodes.Keys;
  }

  lemma TouchUsable(c: Cache, t: Triple)
    requires WF(c) && t in c.nodes
    ensures c.nodes[t].lru < |c.stripes| && Usable(E.Promote(c, t))
  {
    PromoteWF(c, t);
  }
}
