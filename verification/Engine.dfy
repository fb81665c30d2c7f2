/**
 What one request does to the cache and the store, as functions on values. A resident node is an
 entry of `nodes`; the LRU stripes are sequences of the residents' triples, most recent first.
 The heap-level cache is proved against these functions; the theorems are about runs of them.
 */
module Engine {
  import opened Types
  import opened Lists
  import opened Modular

  /** Number of hash chains, and the bound of the eviction scan. */
  const CACHE_TABLE_LEN: int := 16384

  datatype DirtyBit = AllGood | Dirty | NotInCache | ToDelete

  datatype Node = Node(value: Block, bit: DirtyBit, lru: nat)

  /**
   free: nodes left in the pool. inserts, draws: how often an insert index and an eviction index
   were drawn since the start; the source keeps both reduced modulo the number of stripes.
   */
  datatype Cache = Cache(nodes: map<Triple, Node>, stripes: seq<seq<Triple>>, free: nat, inserts: nat, draws: nat)

  datatype State = State(cache: Cache, store: map<Triple, Block>)

  function StripeCount(cacheSize: nat): nat {
    if cacheSize >= 10240 then 128 else if 10240 > cacheSize && cacheSize >= 1024 then 32 else 1
  }

  function EmptyCache(cacheSize: nat): Cache {
    Cache(map[], seq(StripeCount(cacheSize), _ => []), cacheSize, 0, 0)
  }

  // ---------- invariants ----------

  /** Stripes and nodes agree: each resident is on exactly the stripe it names, once. */
  ghost predicate Threaded(nodes: map<Triple, Node>, stripes: seq<seq<Triple>>) {
    && (forall t :: t in nodes ==> nodes[t].lru < |stripes| && t in stripes[nodes[t].lru])
    && (forall i, t {:trigger t in stripes[i]} :: 0 <= i < |stripes| && t in stripes[i] ==> t in nodes && nodes[t].lru == i)
    && (forall i {:trigger NoDup(stripes[i])} :: 0 <= i < |stripes| ==> NoDup(stripes[i]))
  }

  /** No resident is clean and none is invalidated. */
  ghost predicate OnlyDirtyOrDeleted(nodes: map<Triple, Node>) {
    forall t :: t in nodes ==> nodes[t].bit == Dirty || nodes[t].bit == ToDelete
  }

  ghost predicate WF(c: Cache) {
    && 1 <= |c.stripes| <= CACHE_TABLE_LEN
    && Threaded(c.nodes, c.stripes)
    && OnlyDirtyOrDeleted(c.nodes)
  }

  /** There is a node to hand out: a free one or a victim. */
  ghost predicate Usable(c: Cache) {
    WF(c) && (c.free > 0 || c.nodes != map[])
  }

  // ---------- operations ----------

  function Promote(c: Cache, t: Triple): Cache
    requires t in c.nodes && c.nodes[t].lru < |c.stripes|
  {
    var i := c.nodes[t].lru;
    c.(stripes := c.stripes[i := ToFront(c.stripes[i], t)])
  }

  /** What eviction does to the store for a node: delete for a tombstone, write for a dirty node. */
  function Flush(store: map<Triple, Block>, t: Triple, n: Node): map<Triple, Block> {
    match n.bit
    case ToDelete => store - {t}
    case Dirty => store[t := n.value]
    case _ => store
  }

  /** Takes the resident t off its stripe and flushes it. */
  function Remove(g: State, t: Triple): State
    requires t in g.cache.nodes && g.cache.nodes[t].lru < |g.cache.stripes|
  {
    var i := g.cache.nodes[t].lru;
    State(g.cache.(nodes := g.cache.nodes - {t}, stripes := g.cache.stripes[i := Without(g.cache.stripes[i], t)]),
           Flush(g.store, t, g.cache.nodes[t]))
  }

  /** The draw at which the scan for a non-empty stripe stops, starting at draw e with `left` redraws allowed. */
  function ScanStripes(stripes: seq<seq<Triple>>, e: nat, left: nat): (r: nat)
    requires stripes != []
    ensures e <= r <= e + left
    ensures forall d :: e <= d < r ==> stripes[d % |stripes|] == []
    ensures stripes[r % |stripes|] == [] ==> r == e + left
    decreases left
  {
    if stripes[e % |stripes|] != [] || left == 0 then e else ScanStripes(stripes, e + 1, left - 1)
  }

  /** The stripe the next eviction takes its victim from. */
  function VictimDraw(c: Cache): nat
    requires c.stripes != []
  {
    ScanStripes(c.stripes, c.draws, CACHE_TABLE_LEN)
  }

  function Victim(c: Cache): Option<Triple>
    requires c.stripes != []
  {
    var s := c.stripes[VictimDraw(c) % |c.stripes|];
    if s == [] then None else Some(s[|s| - 1])
  }

  function Evict(g: State): State
    requires WF(g.cache)
  {
    var c := g.cache.(draws := VictimDraw(g.cache) + 1);
    match Victim(g.cache)
    case None => g.(cache := c)
    case Some(t) =>
      assert t in c.stripes[VictimDraw(g.cache) % |c.stripes|];
      Remove(g.(cache := c), t)
  }

  /** The new node goes to the head of the stripe the insert counter names. */
  function Add(c: Cache, t: Triple, v: Block): Cache
    requires c.stripes != []
  {
    var i := c.inserts % |c.stripes|;
    c.(nodes := c.nodes[t := Node(v, Dirty, i)], stripes := c.stripes[i := [t] + c.stripes[i]], inserts := c.inserts + 1)
  }

  /** A node is made available: the next victim's when the pool is empty, else a free one. */
  function Obtain(g: State): (r: State)
    requires WF(g.cache)
    ensures WF(r.cache)
  {
    EvictWF(g);
    if g.cache.free == 0 then Evict(g) else g.(cache := g.cache.(free := g.cache.free - 1))
  }

  function Insert(g: State, t: Triple, v: Block): State
    requires Usable(g.cache)
  {
    var o := Obtain(g);
    o.(cache := Add(o.cache, t, v))
  }

  function Get(g: State, t: Triple): (State, Option<Block>)
    requires Usable(g.cache)
  {
    if t in g.cache.nodes then
      (g.(cache := Promote(g.cache, t)),
       if g.cache.nodes[t].bit == ToDelete then None else Some(g.cache.nodes[t].value))
    else if t in g.store then
      (Insert(g, t, g.store[t]), Some(g.store[t]))
    else
      (g, None)
  }

  /** The bit of a resident node after a PUT of v. */
  function BitAfterPut(n: Node, v: Block): DirtyBit {
    if v == n.value then (if n.bit == ToDelete then Dirty else n.bit) else Dirty
  }

  function Put(g: State, t: Triple, v: Block): State
    requires Usable(g.cache)
  {
    if t in g.cache.nodes then
      var n := g.cache.nodes[t];
      g.(cache := Promote(g.cache.(nodes := g.cache.nodes[t := Node(v, BitAfterPut(n, v), n.lru)]), t))
    else
      Insert(g, t, v)
  }

  function Delete(g: State, t: Triple): (State, bool)
    requires Usable(g.cache)
  {
    if t in g.cache.nodes then
      var n := g.cache.nodes[t];
      if n.bit == ToDelete then (g, false)
      else (g.(cache := Promote(g.cache.(nodes := g.cache.nodes[t := n.(bit := ToDelete)]), t)), true)
    else
      (g.(store := g.store - {t}), t in g.store)
  }

  /** `cache_clean`: evict until there is nothing left. */
  function Drain(g: State): State
    requires WF(g.cache)
    decreases |g.cache.nodes|
  {
    EvictWF(g);
    EvictShrinks(g);
    if Victim(g.cache) == None then Evict(g) else Drain(Evict(g))
  }

  // ---------- the invariants are kept ----------

  lemma PromoteWF(c: Cache, t: Triple)
    requires WF(c) && t in c.nodes
    ensures WF(Promote(c, t)) && Promote(c, t).nodes == c.nodes
  {
    ToFrontMembers(c.stripes[c.nodes[t].lru], t);
  }

  lemma RemoveWF(g: State, t: Triple)
    requires WF(g.cache) && t in g.cache.nodes
    ensures WF(Remove(g, t).cache)
  {
    WithoutMembers(g.cache.stripes[g.cache.nodes[t].lru], t);
  }

  lemma VictimIsResident(c: Cache)
    requires WF(c) && Victim(c).Some?
    ensures Victim(c).value in c.nodes && c.nodes[Victim(c).value].lru == VictimDraw(c) % |c.stripes|
  {
    assert Victim(c).value in c.stripes[VictimDraw(c) % |c.stripes|];
  }

  lemma EvictWF(g: State)
    requires WF(g.cache)
    ensures WF(Evict(g).cache)
    ensures Victim(g.cache).Some? ==> Victim(g.cache).value in g.cache.nodes && Victim(g.cache).value !in Evict(g).cache.nodes
  {
    if Victim(g.cache).Some? {
      VictimIsResident(g.cache);
      RemoveWF(g.(cache := g.cache.(draws := VictimDraw(g.cache) + 1)), Victim(g.cache).value);
    }
  }

  lemma WithoutLast(s: seq<Triple>)
    requires NoDup(s) && s != []
    ensures Without(s, s[|s| - 1]) == s[..|s| - 1]
  {
    WithoutAt(s, |s| - 1);
    assert RemoveAt(s, |s| - 1) == s[..|s| - 1];
  }

  /** An eviction that finds a victim, written out. */
  lemma EvictShape(g: State)
    requires WF(g.cache) && Victim(g.cache).Some?
    ensures var c, t, i := g.cache, Victim(g.cache).value, VictimDraw(g.cache) % |g.cache.stripes|;
            && c.stripes[i] != [] && t == c.stripes[i][|c.stripes[i]| - 1] && t in c.nodes
            && Evict(g).cache == Cache(c.nodes - {t}, c.stripes[i := c.stripes[i][..|c.stripes[i]| - 1]],
                                       c.free, c.inserts, VictimDraw(c) + 1)
            && Evict(g).store == Flush(g.store, t, c.nodes[t])
  {
    VictimIsResident(g.cache);
    WithoutLast(g.cache.stripes[VictimDraw(g.cache) % |g.cache.stripes|]);
  }

  lemma EvictShrinks(g: State)
    requires WF(g.cache)
    ensures Victim(g.cache).Some? ==> |Evict(g).cache.nodes| == |g.cache.nodes| - 1
  {
    EvictWF(g);
    if Victim(g.cache).Some? {
      var t := Victim(g.cache).value;
      assert Evict(g).cache.nodes.Keys == g.cache.nodes.Keys - {t};
    }
  }

  lemma ThreadedAdd(nodes: map<Triple, Node>, stripes: seq<seq<Triple>>, t: Triple, n: Node)
    requires Threaded(nodes, stripes) && t !in nodes && n.lru < |stripes|
    ensures Threaded(nodes[t := n], stripes[n.lru := [t] + stripes[n.lru]])
  {
    var i := n.lru;
    assert t !in stripes[i] && NoDup(stripes[i]);
    assert NoDup([t] + stripes[i]);
  }

  lemma AddWF(c: Cache, t: Triple, v: Block)
    requires WF(c) && t !in c.nodes
    ensures WF(Add(c, t, v))
  {
    ThreadedAdd(c.nodes, c.stripes, t, Node(v, Dirty, c.inserts % |c.stripes|));
  }

  lemma InsertWF(g: State, t: Triple, v: Block)
    requires Usable(g.cache) && t !in g.cache.nodes
    ensures Usable(Insert(g, t, v).cache)
  {
    EvictWF(g);
    if g.cache.free == 0 {
      AddWF(Evict(g).cache, t, v);
      assert t in Insert(g, t, v).cache.nodes;
    } else {
      AddWF(g.cache.(free := g.cache.free - 1), t, v);
      assert t in Insert(g, t, v).cache.nodes;
    }
  }

  /** Making room never brings a triple in. */
  lemma ObtainedLacks(g: State, t: Triple)
    requires WF(g.cache) && t !in g.cache.nodes
    ensures t !in Obtain(g).cache.nodes
  {
    EvictWF(g);
    if Victim(g.cache).Some? { EvictShape(g); }
  }

  /** Changing value or bit of a resident and promoting it. */
  lemma UpdateWF(c: Cache, t: Triple, v: Block, bit: DirtyBit)
    requires WF(c) && t in c.nodes && (bit == Dirty || bit == ToDelete)
    ensures Usable(Promote(c.(nodes := c.nodes[t := Node(v, bit, c.nodes[t].lru)]), t))
  {
    var c' := c.(nodes := c.nodes[t := Node(v, bit, c.nodes[t].lru)]);
    assert t in c'.nodes;
    PromoteWF(c', t);
  }

  // ---------- the combined view ----------

  /** What cache and store together say about t: the cache first, a tombstone meaning absent. */
  function Look(g: State, t: Triple): Option<Block> {
    if t in g.cache.nodes then
      if g.cache.nodes[t].bit == ToDelete then None else Some(g.cache.nodes[t].value)
    else Lookup(g.store, t)
  }

  /** Whichever resident is removed and flushed, no triple's view changes. */
  lemma RemoveInvisible(g: State, t: Triple, u: Triple)
    requires WF(g.cache) && t in g.cache.nodes
    ensures Look(Remove(g, t), u) == Look(g, u)
  {
  }

  lemma EvictInvisible(g: State, u: Triple)
    requires WF(g.cache)
    ensures Look(Evict(g), u) == Look(g, u)
  {
    EvictWF(g);
    if Victim(g.cache).Some? {
      RemoveInvisible(g.(cache := g.cache.(draws := VictimDraw(g.cache) + 1)), Victim(g.cache).value, u);
    }
  }

  lemma InsertLooks(g: State, t: Triple, v: Block, u: Triple)
    requires Usable(g.cache) && t !in g.cache.nodes
    ensures Look(Insert(g, t, v), u) == if u == t then Some(v) else Look(g, u)
  {
    EvictWF(g);
    EvictInvisible(g, u);
  }

  lemma GetLooks(g: State, t: Triple, u: Triple)
    requires Usable(g.cache)
    ensures Get(g, t).1 == Look(g, t)
    ensures Look(Get(g, t).0, u) == Look(g, u)
  {
    if t !in g.cache.nodes && t in g.store { InsertLooks(g, t, g.store[t], u); }
  }

  lemma PutLooks(g: State, t: Triple, v: Block, u: Triple)
    requires Usable(g.cache)
    ensures Look(Put(g, t, v), u) == if u == t then Some(v) else Look(g, u)
  {
    if t !in g.cache.nodes { InsertLooks(g, t, v, u); }
  }

  lemma DeleteLooks(g: State, t: Triple, u: Triple)
    requires Usable(g.cache)
    ensures Delete(g, t).1 <==> Look(g, t).Some?
    ensures Look(Delete(g, t).0, u) == if u == t then None else Look(g, u)
  {
  }

  // ---------- draining ----------

  /** Eviction reports an empty cache exactly when every stripe is empty: its scan is long enough. */
  lemma NoVictimIffEmpty(c: Cache)
    requires WF(c)
    ensures Victim(c) == None <==> forall i :: 0 <= i < |c.stripes| ==> c.stripes[i] == []
    ensures Victim(c) == None <==> c.nodes == map[]
    ensures c.nodes == map[] ==> VictimDraw(c) == c.draws + 16384
  {
    var n := |c.stripes|;
    if Victim(c) == None {
      forall i | 0 <= i < n ensures c.stripes[i] == [] {
        var d := NextWithResidue(n, c.draws, i);
        assert d <= VictimDraw(c);
      }
    } else {
      VictimIsResident(c);
    }
  }

  /** Draining empties the cache and leaves in the store alone what cache and store held together. */
  lemma {:induction false} DrainMovesEverything(g: State, u: Triple)
    requires WF(g.cache)
    ensures Drain(g).cache.nodes == map[]
    ensures Lookup(Drain(g).store, u) == Look(g, u)
    decreases |g.cache.nodes|
  {
    EvictWF(g);
    EvictShrinks(g);
    EvictInvisible(g, u);
    NoVictimIffEmpty(g.cache);
    if Victim(g.cache).Some? { DrainMovesEverything(Evict(g), u); }
  }

  lemma {:induction false} DrainKeepsFree(g: State)
    requires WF(g.cache)
    ensures WF(Drain(g).cache) && Drain(g).cache.free == g.cache.free
    decreases |g.cache.nodes|
  {
    EvictWF(g);
    EvictShrinks(g);
    if Victim(g.cache).Some? { DrainKeepsFree(Evict(g)); }
  }

  /** Drained nodes do not return to the pool: the cache can insert again only if the pool was not empty before. */
  lemma DrainedUsable(g: State)
    requires WF(g.cache)
    ensures Usable(Drain(g).cache) <==> g.cache.free > 0
  {
    DrainKeepsFree(g);
    DrainMovesEverything(g, Triple(0, 0, seq(KV_STR_LEN, _ => 0)));
  }
}
