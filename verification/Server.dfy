/** The worker loop over the cache, and whole lives of the server process over one disk. */
module Server {
  import opened Types
  import opened Engine
  import opened KVStore
  import opened KVCache
  import Message
  import R = Run
  import D = Dictionary

  /** One turn of the worker loop: read a request into the reused message, dispatch it, write the reply. */
  method ServeOne(cache: KVCache, message: Message.KVMessage, r: D.Request, ghost k: nat) returns (reply: seq<Byte>)
    requires cache.Valid() && Usable(cache.th.cache)
    requires cache.kvPersistentStore.disk.HasRoom(|cache.th.cache.nodes| + k + 1)
    modifies message, cache, cache.hashTable, cache.lruEvictionTable, cache.nodes
    modifies cache.cacheNodeMemoryPool, cache.kvPersistentStore, cache.kvPersistentStore.disk
    ensures cache.Valid() && Usable(cache.th.cache)
    ensures cache.kvPersistentStore.disk.HasRoom(|cache.th.cache.nodes| + k)
    ensures Usable(old(cache.Abs()).cache) && (cache.Abs(), reply) == R.Step(old(cache.Abs()), r)
    ensures Led(old(cache.kvPersistentStore.disk.Now()), cache.kvPersistentStore.disk.Now())
    ensures var view := Look(old(cache.Abs()), Message.TripleOf(r.key));
            && (r.code == 1 ==> reply == if view.Some? then [200] + view.value else [240] + D.ErrorMessage())
            && (r.code == 2 ==> reply == [200])
            && (r.code == 3 ==> reply == if view.Some? then [200] else [240] + D.ErrorMessage())
            && (r.code == 0 || r.code > 3 ==> reply == [240])
    ensures var t, c := Message.TripleOf(r.key), old(cache.th).cache;
            cache.kvPersistentStore.disk.log == old(cache.kvPersistentStore.disk.log) +
              if t in c.nodes then []
              else if r.code == 2 || (r.code == 1 && t in old(cache.kvPersistentStore.disk.contents)) then InsertOps(c)
              else if r.code == 3 then [Erased(t)] else []
  {
    hide KVCache.Valid, Usable, WF, Get, Put, Delete, Led, InsertOps, Look, D.ErrorMessage, Message.TripleOf;
    ghost var g := cache.Abs();
    R.StepUsable(g, r);
    R.StepBytes(g, r);
    message.statusCode := r.code;
    if !(1 <= message.statusCode <= 3) {
      cache.NothingLogged();
      return [D.ERROR];
    }
    message.key := r.key;
    message.CalculateKeyHash();
    if message.statusCode == D.GET {
      var res := cache.CacheGetPtr(message, k);
      reply := if res != null then [D.SUCCESS] + message.value else [D.ERROR] + D.ErrorMessage();
    } else if message.statusCode == D.PUT {
      message.value := r.value;
      cache.CachePut(message, k);
      reply := [D.SUCCESS];
    } else {
      var res := cache.CacheDelete(message, k);
      reply := [if res then D.SUCCESS else D.ERROR];
      if !res {
        reply := reply + D.ErrorMessage();
      }
    }
  }

  method ServeAll(cache: KVCache, rs: seq<D.Request>, ghost k: nat) returns (replies: seq<seq<Byte>>)
    requires cache.Valid() && Usable(cache.th.cache)
    requires cache.kvPersistentStore.disk.HasRoom(|cache.th.cache.nodes| + |rs| + k)
    modifies cache, cache.hashTable, cache.lruEvictionTable, cache.nodes
    modifies cache.cacheNodeMemoryPool, cache.kvPersistentStore, cache.kvPersistentStore.disk
    ensures cache.Valid()
    ensures cache.kvPersistentStore.disk.HasRoom(|cache.th.cache.nodes| + k)
    ensures Usable(old(cache.Abs()).cache) && (cache.Abs(), replies) == R.Serve(old(cache.Abs()), rs)
    ensures Led(old(cache.kvPersistentStore.disk.Now()), cache.kvPersistentStore.disk.Now())
    ensures |cache.kvPersistentStore.disk.log| <= |old(cache.kvPersistentStore.disk.log)| + |rs|
  {
    hide KVCache.Valid, Usable, R.Step, R.Serve, Led, InsertOps, Look, Message.TripleOf, RoomFor;
    var message := new Message.KVMessage();
    ghost var g, m := cache.Abs(), cache.kvPersistentStore.disk.Now();
    cache.NothingLogged();
    replies := [];
    assert rs[0..] == rs;
    for i := 0 to |rs|
      invariant cache.Valid() && Usable(cache.th.cache)
      invariant cache.kvPersistentStore.disk.HasRoom(|cache.th.cache.nodes| + |rs| - i + k)
      invariant R.Serve(cache.Abs(), rs[i..]).0 == R.Serve(g, rs).0
      invariant replies + R.Serve(cache.Abs(), rs[i..]).1 == R.Serve(g, rs).1
      invariant Led(m, cache.kvPersistentStore.disk.Now())
      invariant |cache.kvPersistentStore.disk.log| <= |m.log| + i
    {
      ghost var before, mid := cache.Abs(), cache.kvPersistentStore.disk.Now();
      R.ServeFrom(before, rs, i);
      var reply := ServeOne(cache, message, rs[i], |rs| - i - 1 + k);
      LedOn(m, mid, cache.kvPersistentStore.disk.Now());
      ghost var rest := R.Serve(cache.Abs(), rs[i + 1..]).1;
      assert replies + ([reply] + rest) == (replies + [reply]) + rest;
      replies := replies + [reply];
    }
    assert rs[|rs|..] == [] && replies + [] == replies;
    R.ServeNothing(cache.Abs());
  }

  /** Start-up, the requests, and the clean shutdown. */
  method RunSession(disk: Disk, s: R.Session, ghost k: nat) returns (replies: seq<seq<Byte>>)
    requires disk.Valid() && s.cacheSize >= 1 && disk.HasRoom(|s.requests| + k)
    modifies disk
    ensures disk.Valid() && disk.HasRoom(k)
    ensures (disk.contents, replies) == R.RunSession(old(disk.contents), s)
    ensures Usable(EmptyCache(s.cacheSize))
    ensures var (g, answers) := R.Serve(State(EmptyCache(s.cacheSize), old(disk.contents)), s.requests);
            WF(g.cache) && disk.contents == Drain(g).store && replies == answers
    ensures Led(old(disk.Now()), disk.Now())
  {
    hide Led;
    ghost var m := disk.Now();
    var store := new KVStore(disk);
    var cache := new KVCache(s.cacheSize, store);
    R.EmptyUsable(s.cacheSize);
    R.ServeUsable(cache.Abs(), s.requests);
    replies := ServeAll(cache, s.requests, k);
    ghost var served := disk.Now();
    cache.CacheClean(k);
    LedOn(m, served, disk.Now());
  }

  /**
   Any number of server lives over one disk, of any cache sizes: the replies are those of one
   dictionary to all requests in a row, and the disk is left holding that dictionary, and nothing else
   if it held nothing else before. The store operations of the whole run account for every slot of every file.
   */
  method RunSessions(disk: Disk, ss: seq<R.Session>, ghost d: D.Dict) returns (replies: seq<seq<Byte>>)
    requires disk.Valid() && R.StoreRefines(disk.contents, d)
    requires (forall s :: s in ss ==> s.cacheSize >= 1) && disk.HasRoom(|R.AllRequests(ss)|)
    modifies disk
    ensures disk.Valid()
    ensures replies == D.Replies(d, R.AllRequests(ss))
    ensures R.StoreRefines(disk.contents, D.After(d, R.AllRequests(ss)))
    ensures old(disk.contents) == R.Stored(d) ==> disk.contents == R.Stored(D.After(d, R.AllRequests(ss)))
    ensures Led(old(disk.Now()), disk.Now())
    decreases |ss|
  {
    hide ImageOK, R.RunSession, R.Stored, R.StoreRefines, Led;
    replies := [];
    ghost var m := disk.Now();
    LedNowhere(m);
    if ss != [] {
      var s := ss[0];
      ghost var before := disk.contents;
      R.SessionRefines(before, s, d);
      R.SessionStores(s, d);
      replies := RunSession(disk, s, |R.AllRequests(ss[1..])|);
      ghost var mid := disk.Now();
      var more := RunSessions(disk, ss[1..], D.After(d, s.requests));
      LedOn(m, mid, disk.Now());
      D.RepliesConcat(d, s.requests, R.AllRequests(ss[1..]));
      replies := replies + more;
    }
  }
}
