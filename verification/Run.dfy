/** Runs of the server: requests, clean shutdowns and restarts; all of them answer like one dictionary. */
module Run {
  import opened Types
  import opened Lists
  import opened Message
  import opened Engine
  import D = Dictionary

  /** The server's dispatch of one request, and the bytes it writes back. */
  ghost function Step(g: State, r: D.Request): (State, seq<Byte>)
    requires Usable(g.cache)
  {
    var t := TripleOf(r.key);
    if r.code == D.GET then
      var (g', v) := Get(g, t);
      (g', if v.Some? then [D.SUCCESS] + v.value else [D.ERROR] + D.ErrorMessage())
    else if r.code == D.PUT then
      (Put(g, t, r.value), [D.SUCCESS])
    else if r.code == D.DEL then
      var (g', found) := Delete(g, t);
      (g', if found then [D.SUCCESS] else [D.ERROR] + D.ErrorMessage())
    else
      (g, [D.ERROR])
  }

  /** What serving one request does to the cache: nothing, an update and promotion of the resident t, or an insert of t. */
  datatype Effect = Untouched | Touched(value: Block, bit: DirtyBit) | Inserted(value: Block)

  ghost function EffectOf(g: State, r: D.Request): Effect {
    var t := TripleOf(r.key);
    if t in g.cache.nodes then
      var n := g.cache.nodes[t];
      if r.code == D.GET then Touched(n.value, n.bit)
      else if r.code == D.PUT then Touched(r.value, BitAfterPut(n, r.value))
      else if r.code == D.DEL && n.bit != ToDelete then Touched(n.value, ToDelete)
      else Untouched
    else if r.code == D.GET && t in g.store then Inserted(g.store[t])
    else if r.code == D.PUT then Inserted(r.value)
    else Untouched
  }

  ghost predicate Fits(g: State, t: Triple, e: Effect) {
    match e
    case Untouched => true
    case Touched(_, bit) => t in g.cache.nodes && (bit == Dirty || bit == ToDelete)
    case Inserted(_) => t !in g.cache.nodes
  }

  ghost function CacheAfter(g: State, t: Triple, e: Effect): Cache
    requires Usable(g.cache) && Fits(g, t, e)
  {
    match e
    case Untouched => g.cache
    case Touched(v, bit) => Promote(g.cache.(nodes := g.cache.nodes[t := Node(v, bit, g.cache.nodes[t].lru)]), t)
    case Inserted(v) => Insert(g, t, v).cache
  }

  lemma StepEffect(g: State, r: D.Request)
    requires Usable(g.cache)
    ensures Fits(g, TripleOf(r.key), EffectOf(g, r))
    ensures Step(g, r).0.cache == CacheAfter(g, TripleOf(r.key), EffectOf(g, r))
  {
    var t := TripleOf(r.key);
    if t in g.cache.nodes {
      var n := g.cache.nodes[t];
      assert g.cache.nodes[t := Node(n.value, n.bit, n.lru)] == g.cache.nodes;
    }
  }

  lemma StepUsable(g: State, r: D.Request)
    requires Usable(g.cache)
    ensures Usable(Step(g, r).0.cache)
  {
    StepEffect(g, r);
    match EffectOf(g, r)
    case Untouched =>
    case Touched(v, bit) => UpdateWF(g.cache, TripleOf(r.key), v, bit);
    case Inserted(v) => InsertWF(g, TripleOf(r.key), v);
  }

  // ---------- one request, case by case: 1 is GET, 2 is PUT, 3 is DELETE ----------

  /** The key is resident: only its node changes, and only a use moves it, to the front of its stripe. */
  lemma HitChangesOneNode(g: State, r: D.Request)
    requires Usable(g.cache) && TripleOf(r.key) in g.cache.nodes
    ensures var t, c, c' := TripleOf(r.key), g.cache, Step(g, r).0.cache;
            var n := c.nodes[t];
            && Step(g, r).0.store == g.store
            && c'.free == c.free && c'.inserts == c.inserts && c'.draws == c.draws
            && c'.nodes == c.nodes[t := if r.code == 2 then Node(r.value, Dirty, n.lru)
                                        else if r.code == 3 then Node(n.value, ToDelete, n.lru)
                                        else n]
            && n.lru < |c.stripes|
            && c'.stripes == if r.code == 1 || r.code == 2 || (r.code == 3 && n.bit == Dirty)
                             then c.stripes[n.lru := [t] + Without(c.stripes[n.lru], t)] else c.stripes
  {
    StepEffect(g, r);
    var t := TripleOf(r.key);
    assert g.cache.nodes[t := g.cache.nodes[t]] == g.cache.nodes;
    assert g.cache.stripes[g.cache.nodes[t].lru := g.cache.stripes[g.cache.nodes[t].lru]] == g.cache.stripes;
  }

  /** The key is not resident and nothing is to be cached: the cache stays, and only a DELETE reaches the store. */
  lemma MissLeavesCache(g: State, r: D.Request)
    requires Usable(g.cache) && TripleOf(r.key) !in g.cache.nodes
    requires r.code != 2 && (r.code == 1 ==> TripleOf(r.key) !in g.store)
    ensures Step(g, r).0.cache == g.cache
    ensures Step(g, r).0.store == if r.code == 3 then g.store - {TripleOf(r.key)} else g.store
  {
  }

  /** A key is cached while the pool has a node: it takes that node, nobody is evicted, and the store is not written. */
  lemma InsertTakesFreeNode(g: State, r: D.Request)
    requires Usable(g.cache) && TripleOf(r.key) !in g.cache.nodes && g.cache.free > 0
    requires r.code == 2 || (r.code == 1 && TripleOf(r.key) in g.store)
    ensures var t, c := TripleOf(r.key), g.cache;
            var i := c.inserts % |c.stripes|;
            && Step(g, r).0.store == g.store
            && Step(g, r).0.cache ==
                 Cache(c.nodes[t := Node(if r.code == 2 then r.value else g.store[t], Dirty, i)],
                       c.stripes[i := [t] + c.stripes[i]], c.free - 1, c.inserts + 1, c.draws)
  {
  }

  /** A key is cached while the pool is empty: it takes the node of the victim, which is flushed by its bit. */
  lemma InsertEvictsWhenFull(g: State, r: D.Request)
    requires Usable(g.cache) && TripleOf(r.key) !in g.cache.nodes && g.cache.free == 0
    requires r.code == 2 || (r.code == 1 && TripleOf(r.key) in g.store)
    ensures Victim(g.cache).Some? && Victim(g.cache).value in g.cache.nodes
    ensures var t, w, c, c' := TripleOf(r.key), Victim(g.cache).value, g.cache, Step(g, r).0.cache;
            && c'.nodes == (c.nodes - {w})[t := Node(if r.code == 2 then r.value else g.store[t], Dirty, c.inserts % |c.stripes|)]
            && c'.free == 0 && c'.inserts == c.inserts + 1 && c'.draws == VictimDraw(c) + 1
            && Step(g, r).0.store == if c.nodes[w].bit == ToDelete then g.store - {w} else g.store[w := c.nodes[w].value]
  {
    NoVictimIffEmpty(g.cache);
    EvictShape(g);
  }

  /** While the pool has a node, no request drops a resident, and only a DELETE changes the store. */
  lemma FreeNodesFirst(g: State, r: D.Request)
    requires Usable(g.cache) && g.cache.free > 0
    ensures forall t :: t in g.cache.nodes ==> t in Step(g, r).0.cache.nodes
    ensures r.code != 3 ==> Step(g, r).0.store == g.store
  {
    var t := TripleOf(r.key);
    if t in g.cache.nodes {
      HitChangesOneNode(g, r);
    } else if r.code == 2 || (r.code == 1 && t in g.store) {
      InsertTakesFreeNode(g, r);
    } else {
      MissLeavesCache(g, r);
    }
  }

  ghost function Serve(g: State, rs: seq<D.Request>): (State, seq<seq<Byte>>)
    requires Usable(g.cache)
    decreases |rs|
  {
    if rs == [] then (g, [])
    else
      StepUsable(g, rs[0]);
      var (g', reply) := Step(g, rs[0]);
      var (g'', replies) := Serve(g', rs[1..]);
      (g'', [reply] + replies)
  }

  lemma ServeNothing(g: State)
    requires Usable(g.cache)
    ensures Serve(g, []) == (g, [])
  {
  }

  lemma ServeFrom(g: State, rs: seq<D.Request>, i: nat)
    requires Usable(g.cache) && i < |rs|
    ensures Usable(Step(g, rs[i]).0.cache)
    ensures Serve(g, rs[i..]).0 == Serve(Step(g, rs[i]).0, rs[i + 1..]).0
    ensures Serve(g, rs[i..]).1 == [Step(g, rs[i]).1] + Serve(Step(g, rs[i]).0, rs[i + 1..]).1
  {
    StepUsable(g, rs[i]);
    assert rs[i..][0] == rs[i] && rs[i..][1..] == rs[i + 1..];
  }

  /** One life of the server process: a cache size and the requests served before the clean shutdown. */
  datatype Session = Session(cacheSize: nat, requests: seq<D.Request>)

  /** A cache of size 0 has no node to hand out. */
  lemma EmptyUsable(cacheSize: nat)
    ensures Usable(EmptyCache(cacheSize)) <==> cacheSize >= 1
  {
  }

  /** What a session leaves in the store, and its replies. */
  ghost function RunSession(store: map<Triple, Block>, s: Session): (map<Triple, Block>, seq<seq<Byte>>)
    requires s.cacheSize >= 1
  {
    EmptyUsable(s.cacheSize);
    var (g, replies) := Serve(State(EmptyCache(s.cacheSize), store), s.requests);
    ServeUsable(State(EmptyCache(s.cacheSize), store), s.requests);
    (Drain(g).store, replies)
  }

  ghost function RunSessions(store: map<Triple, Block>, ss: seq<Session>): (map<Triple, Block>, seq<seq<Byte>>)
    requires forall s :: s in ss ==> s.cacheSize >= 1
    decreases |ss|
  {
    if ss == [] then (store, [])
    else
      var (store', replies) := RunSession(store, ss[0]);
      var (store'', more) := RunSessions(store', ss[1..]);
      (store'', replies + more)
  }

  function AllRequests(ss: seq<Session>): seq<D.Request> {
    if ss == [] then [] else ss[0].requests + AllRequests(ss[1..])
  }

  lemma {:induction false} ServeUsable(g: State, rs: seq<D.Request>)
    requires Usable(g.cache)
    ensures Usable(Serve(g, rs).0.cache)
    decreases |rs|
  {
    if rs != [] {
      StepUsable(g, rs[0]);
      ServeUsable(Step(g, rs[0]).0, rs[1..]);
    }
  }

  // ---------- refinement of the dictionary ----------

  /** Cache and store together map every key as d does. */
  ghost predicate Refines(g: State, d: D.Dict) {
    forall k: Block :: Look(g, TripleOf(k)) == Lookup(d, k)
  }

  ghost predicate StoreRefines(store: map<Triple, Block>, d: D.Dict) {
    forall k: Block :: Lookup(store, TripleOf(k)) == Lookup(d, k)
  }

  /** The reply to r when its key is seen as `view`. */
  function ReplyFrom(view: Option<Block>, r: D.Request): seq<Byte> {
    if r.code == D.PUT then [D.SUCCESS]
    else if !D.Known(r) then [D.ERROR]
    else if view == None then [D.ERROR] + D.ErrorMessage()
    else if r.code == D.GET then [D.SUCCESS] + view.value
    else [D.SUCCESS]
  }

  /** The reply depends only on the view of the key; the view of every triple changes as a dictionary entry would. */
  lemma StepLooks(g: State, r: D.Request, u: Triple)
    requires Usable(g.cache)
    ensures var t := TripleOf(r.key);
            && Step(g, r).1 == ReplyFrom(Look(g, t), r)
            && Look(Step(g, r).0, u) ==
                 if u == t && r.code == D.PUT then Some(r.value)
                 else if u == t && r.code == D.DEL then None
                 else Look(g, u)
  {
    var t := TripleOf(r.key);
    GetLooks(g, t, u);
    PutLooks(g, t, r.value, u);
    DeleteLooks(g, t, u);
  }

  /** The reply in bytes: 200 or 240, then the value or the error text for the codes that have one. */
  lemma StepBytes(g: State, r: D.Request)
    requires Usable(g.cache)
    ensures var view, reply := Look(g, TripleOf(r.key)), Step(g, r).1;
            && (r.code == 1 ==> reply == if view.Some? then [200] + view.value else [240] + D.ErrorMessage())
            && (r.code == 2 ==> reply == [200])
            && (r.code == 3 ==> reply == if view.Some? then [200] else [240] + D.ErrorMessage())
            && (r.code == 0 || r.code > 3 ==> reply == [240])
  {
    hide D.ErrorMessage;
    StepLooks(g, r, TripleOf(r.key));
  }

  lemma StepRefines(g: State, r: D.Request, d: D.Dict)
    requires Usable(g.cache) && Refines(g, d)
    ensures Step(g, r).1 == D.Reply(d, r)
    ensures Refines(Step(g, r).0, D.Update(d, r))
  {
    var t := TripleOf(r.key);
    assert Look(g, t) == Lookup(d, r.key);
    StepLooks(g, r, t);
    forall k: Block ensures Look(Step(g, r).0, TripleOf(k)) == Lookup(D.Update(d, r), k) {
      assert Look(g, TripleOf(k)) == Lookup(d, k);
      assert TripleOf(k) == t <==> k == r.key;
      StepLooks(g, r, TripleOf(k));
    }
  }

  lemma {:induction false} ServeRefines(g: State, rs: seq<D.Request>, d: D.Dict)
    requires Usable(g.cache) && Refines(g, d)
    ensures Serve(g, rs).1 == D.Replies(d, rs)
    ensures Refines(Serve(g, rs).0, D.After(d, rs))
    decreases |rs|
  {
    if rs != [] {
      StepUsable(g, rs[0]);
      StepRefines(g, rs[0], d);
      ServeRefines(Step(g, rs[0]).0, rs[1..], D.Update(d, rs[0]));
    }
  }

  lemma SessionRefines(store: map<Triple, Block>, s: Session, d: D.Dict)
    requires s.cacheSize >= 1 && StoreRefines(store, d)
    ensures RunSession(store, s).1 == D.Replies(d, s.requests)
    ensures StoreRefines(RunSession(store, s).0, D.After(d, s.requests))
  {
    var g := State(EmptyCache(s.cacheSize), store);
    EmptyUsable(s.cacheSize);
    assert Refines(g, d) by {
      forall k: Block ensures Look(g, TripleOf(k)) == Lookup(d, k) {
        assert Lookup(store, TripleOf(k)) == Lookup(d, k);
      }
    }
    ServeUsable(g, s.requests);
    ServeRefines(g, s.requests, d);
    var g' := Serve(g, s.requests).0;
    forall k: Block ensures Lookup(RunSession(store, s).0, TripleOf(k)) == Lookup(D.After(d, s.requests), k) {
      DrainMovesEverything(g', TripleOf(k));
      assert Look(g', TripleOf(k)) == Lookup(D.After(d, s.requests), k);
    }
  }

  // ---------- exactly the dictionary, and nothing else ----------

  ghost function TriplesOf(d: D.Dict): (ts: set<Triple>)
    ensures forall t :: t in ts <==> t.key in d && t == TripleOf(t.key)
  {
    set k | k in d :: TripleOf(k)
  }

  /** The store that holds d: every key under its own triple, and no other triple. */
  ghost function Stored(d: D.Dict): (store: map<Triple, Block>)
    ensures StoreRefines(store, d)
    ensures forall t :: t in store ==> t == TripleOf(t.key)
  {
    map t | t in TriplesOf(d) :: d[t.key]
  }

  lemma StoredOnly(store: map<Triple, Block>, d: D.Dict)
    requires StoreRefines(store, d) && forall t :: t in store ==> t == TripleOf(t.key)
    ensures store == Stored(d)
  {
    forall t ensures Lookup(store, t) == Lookup(Stored(d), t) {
      if t == TripleOf(t.key) {
        assert Lookup(store, TripleOf(t.key)) == Lookup(d, t.key);
        assert Lookup(Stored(d), TripleOf(t.key)) == Lookup(d, t.key);
      }
    }
    assert forall t :: t in store <==> Lookup(store, t).Some?;
    assert forall t :: t in Stored(d) <==> Lookup(Stored(d), t).Some?;
  }

  /** A triple that is not the hashed form of its key is never touched. */
  lemma {:induction false} ServeAliens(g: State, rs: seq<D.Request>, u: Triple)
    requires Usable(g.cache) && u != TripleOf(u.key)
    ensures Look(Serve(g, rs).0, u) == Look(g, u)
    decreases |rs|
  {
    if rs != [] {
      StepUsable(g, rs[0]);
      StepLooks(g, rs[0], u);
      ServeAliens(Step(g, rs[0]).0, rs[1..], u);
    }
  }

  /** A session over a store that is exactly a dictionary leaves exactly the updated dictionary. */
  lemma SessionStores(s: Session, d: D.Dict)
    requires s.cacheSize >= 1
    ensures RunSession(Stored(d), s).0 == Stored(D.After(d, s.requests))
  {
    var g := State(EmptyCache(s.cacheSize), Stored(d));
    EmptyUsable(s.cacheSize);
    ServeUsable(g, s.requests);
    SessionRefines(Stored(d), s, d);
    var store' := RunSession(Stored(d), s).0;
    forall t | t in store' ensures t == TripleOf(t.key) {
      DrainMovesEverything(Serve(g, s.requests).0, t);
      if t != TripleOf(t.key) { ServeAliens(g, s.requests, t); }
    }
    StoredOnly(store', D.After(d, s.requests));
  }

  /** A full cache of size 1, reached by one PUT, can insert again; drained, it cannot. */
  lemma DrainedFullCache(store: map<Triple, Block>, r: D.Request)
    requires r.code == D.PUT
    ensures Usable(EmptyCache(1))
    ensures var g := Step(State(EmptyCache(1), store), r).0;
            Usable(g.cache) && !Usable(Drain(g).cache)
  {
    var g0 := State(EmptyCache(1), store);
    EmptyUsable(1);
    StepUsable(g0, r);
    var g := Step(g0, r).0;
    assert g.cache.free == 0;
    DrainedUsable(g);
  }

  /** Any number of sessions, of any cache sizes, reply as one dictionary does to the same requests. */
  lemma {:induction false} SessionsRefine(store: map<Triple, Block>, ss: seq<Session>, d: D.Dict)
    requires (forall s :: s in ss ==> s.cacheSize >= 1) && StoreRefines(store, d)
    ensures RunSessions(store, ss).1 == D.Replies(d, AllRequests(ss))
    ensures StoreRefines(RunSessions(store, ss).0, D.After(d, AllRequests(ss)))
    decreases |ss|
  {
    if ss != [] {
      SessionRefines(store, ss[0], d);
      var rs := ss[0].requests;
      SessionsRefine(RunSession(store, ss[0]).0, ss[1..], D.After(d, rs));
      D.RepliesConcat(d, rs, AllRequests(ss[1..]));
    }
  }

  /** In every state reached from a fresh cache, the residents' bits and the store say what the dictionary says. */
  lemma Coupling(cacheSize: nat, store: map<Triple, Block>, rs: seq<D.Request>, d: D.Dict, k: Block)
    requires cacheSize >= 1 && StoreRefines(store, d)
    ensures Usable(EmptyCache(cacheSize))
    ensures var g := Serve(State(EmptyCache(cacheSize), store), rs).0;
            var now := D.After(d, rs);
            var t := TripleOf(k);
            && (t in g.cache.nodes ==>
                  && (g.cache.nodes[t].bit == Dirty <==> Lookup(now, k) == Some(g.cache.nodes[t].value))
                  && (g.cache.nodes[t].bit == ToDelete <==> k !in now))
            && (t !in g.cache.nodes ==> Lookup(g.store, t) == Lookup(now, k))
  {
    var g0 := State(EmptyCache(cacheSize), store);
    EmptyUsable(cacheSize);
    assert Refines(g0, d) by {
      forall k: Block ensures Look(g0, TripleOf(k)) == Lookup(d, k) {
        assert Lookup(store, TripleOf(k)) == Lookup(d, k);
      }
    }
    ServeUsable(g0, rs);
    ServeRefines(g0, rs, d);
    assert Look(Serve(g0, rs).0, TripleOf(k)) == Lookup(D.After(d, rs), k);
  }
}
