/** The stripes are ordered by last use, so every victim is the least recently used node of its stripe. */
module Recency {
  import opened Types
  import opened Lists
  import opened Engine
  import opened Run
  import opened Message
  import D = Dictionary

  /** Whether serving r uses the cache entry of its key: every PUT, a GET that finds a node or loads one,
      and a DELETE of a resident that is not a tombstone yet. */
  ghost predicate Uses(g: State, r: D.Request) {
    var t := TripleOf(r.key);
    if r.code == D.GET then t in g.cache.nodes || t in g.store
    else if r.code == D.PUT then true
    else r.code == D.DEL && t in g.cache.nodes && g.cache.nodes[t].bit != ToDelete
  }

  /** Time of the last use of each triple. */
  type Stamps = map<Triple, nat>

  ghost function Stamp(g: State, stamps: Stamps, now: nat, r: D.Request): Stamps {
    if Uses(g, r) then stamps[TripleOf(r.key) := now] else stamps
  }

  ghost predicate Stamped(c: Cache, stamps: Stamps, now: nat) {
    && (forall t :: t in c.nodes ==> t in stamps && stamps[t] < now)
    && (forall i :: 0 <= i < |c.stripes| ==> NewestFirst(c.stripes[i], stamps))
  }

  ghost predicate NewestFirst(s: seq<Triple>, stamps: Stamps) {
    && (forall j :: 0 <= j < |s| ==> s[j] in stamps)
    && (forall j, k :: 0 <= j < k < |s| ==> stamps[s[j]] > stamps[s[k]])
  }

  /** Order is kept by taking one element out ... */
  lemma NewestFirstWithout(s: seq<Triple>, stamps: Stamps, t: Triple)
    requires NewestFirst(s, stamps) && NoDup(s)
    ensures NewestFirst(Without(s, t), stamps)
  {
    if t in s {
      var k :| 0 <= k < |s| && s[k] == t;
      WithoutAt(s, k);
    } else {
      WithoutAbsent(s, t);
    }
  }

  /** ... and by putting t in front with a new stamp. */
  lemma NewestFirstCons(s: seq<Triple>, stamps: Stamps, t: Triple, now: nat)
    requires NewestFirst(s, stamps) && t !in s && forall j :: 0 <= j < |s| ==> stamps[s[j]] < now
    ensures NewestFirst([t] + s, stamps[t := now])
  {
  }

  lemma NewestFirstOther(s: seq<Triple>, stamps: Stamps, t: Triple, now: nat)
    requires NewestFirst(s, stamps) && t !in s
    ensures NewestFirst(s, stamps[t := now])
  {
  }

  /** A stripe of a threaded cache has only residents, all stamped before now. */
  lemma StripeStamps(c: Cache, stamps: Stamps, now: nat, i: nat)
    requires WF(c) && Stamped(c, stamps, now) && i < |c.stripes|
    ensures forall j :: 0 <= j < |c.stripes[i]| ==>
              var t := c.stripes[i][j];
              t in c.nodes && t in stamps && stamps[t] < now && c.nodes[t].lru == i
  {
    forall j | 0 <= j < |c.stripes[i]|
      ensures c.stripes[i][j] in c.nodes && stamps[c.stripes[i][j]] < now && c.nodes[c.stripes[i][j]].lru == i
    {
      assert c.stripes[i][j] in c.stripes[i];
    }
  }

  lemma PromoteStamped(c: Cache, nodes: map<Triple, Node>, stamps: Stamps, now: nat, t: Triple)
    requires WF(c) && Stamped(c, stamps, now) && t in c.nodes
    requires nodes.Keys == c.nodes.Keys && nodes[t].lru == c.nodes[t].lru
    ensures Stamped(Promote(c.(nodes := nodes), t), stamps[t := now], now + 1)
  {
    var i := c.nodes[t].lru;
    forall k | 0 <= k < |c.stripes| ensures NewestFirst(Promote(c.(nodes := nodes), t).stripes[k], stamps[t := now]) {
      StripeStamps(c, stamps, now, k);
      if k == i {
        var s := c.stripes[i];
        NewestFirstWithout(s, stamps, t);
        WithoutMembers(s, t);
        forall j | 0 <= j < |Without(s, t)| ensures stamps[Without(s, t)[j]] < now {
          assert Without(s, t)[j] in s;
        }
        NewestFirstCons(Without(s, t), stamps, t, now);
      } else {
        NewestFirstOther(c.stripes[k], stamps, t, now);
      }
    }
  }

  lemma EvictStamped(g: State, stamps: Stamps, now: nat)
    requires WF(g.cache) && Stamped(g.cache, stamps, now)
    ensures Stamped(Evict(g).cache, stamps, now)
  {
    if Victim(g.cache).Some? {
      VictimIsResident(g.cache);
      NewestFirstWithout(g.cache.stripes[VictimDraw(g.cache) % |g.cache.stripes|], stamps, Victim(g.cache).value);
    }
  }

  lemma AddStamped(c: Cache, stamps: Stamps, now: nat, t: Triple, v: Block)
    requires WF(c) && Stamped(c, stamps, now) && t !in c.nodes
    ensures Stamped(Add(c, t, v), stamps[t := now], now + 1)
  {
    var i := c.inserts % |c.stripes|;
    forall k | 0 <= k < |c.stripes| ensures NewestFirst(Add(c, t, v).stripes[k], stamps[t := now]) {
      StripeStamps(c, stamps, now, k);
      if k == i {
        NewestFirstCons(c.stripes[i], stamps, t, now);
      } else {
        NewestFirstOther(c.stripes[k], stamps, t, now);
      }
    }
  }

  lemma InsertStamped(g: State, stamps: Stamps, now: nat, t: Triple, v: Block)
    requires Usable(g.cache) && Stamped(g.cache, stamps, now) && t !in g.cache.nodes
    ensures Stamped(Insert(g, t, v).cache, stamps[t := now], now + 1)
  {
    EvictWF(g);
    EvictStamped(g, stamps, now);
    if g.cache.free == 0 {
      AddStamped(Evict(g).cache, stamps, now, t, v);
    } else {
      AddStamped(g.cache.(free := g.cache.free - 1), stamps, now, t, v);
    }
  }

  lemma StepStamped(g: State, stamps: Stamps, now: nat, r: D.Request)
    requires Usable(g.cache) && Stamped(g.cache, stamps, now)
    ensures Stamped(Step(g, r).0.cache, Stamp(g, stamps, now, r), now + 1)
  {
    StepEffect(g, r);
    match EffectOf(g, r)
    case Untouched =>
    case Touched(v, bit) =>
      var t := TripleOf(r.key);
      PromoteStamped(g.cache, g.cache.nodes[t := Node(v, bit, g.cache.nodes[t].lru)], stamps, now, t);
    case Inserted(v) => InsertStamped(g, stamps, now, TripleOf(r.key), v);
  }

  /** The stamps after serving rs, the first request at time `now`. */
  ghost function StampAll(g: State, stamps: Stamps, now: nat, rs: seq<D.Request>): Stamps
    requires Usable(g.cache)
    decreases |rs|
  {
    if rs == [] then stamps
    else
      StepUsable(g, rs[0]);
      StampAll(Step(g, rs[0]).0, Stamp(g, stamps, now, rs[0]), now + 1, rs[1..])
  }

  lemma {:induction false} ServeStamped(g: State, stamps: Stamps, now: nat, rs: seq<D.Request>)
    requires Usable(g.cache) && Stamped(g.cache, stamps, now)
    ensures Stamped(Serve(g, rs).0.cache, StampAll(g, stamps, now, rs), now + |rs|)
    decreases |rs|
  {
    if rs != [] {
      StepUsable(g, rs[0]);
      StepStamped(g, stamps, now, rs[0]);
      ServeStamped(Step(g, rs[0]).0, Stamp(g, stamps, now, rs[0]), now + 1, rs[1..]);
    }
  }

  /**
   After any run from a fresh cache, the next victim was used before every other node of its
   stripe, and with one stripe before every other resident.
   */
  lemma VictimIsLeastRecent(cacheSize: nat, store: map<Triple, Block>, rs: seq<D.Request>, u: Triple)
    requires cacheSize >= 1
    ensures Usable(EmptyCache(cacheSize))
    ensures var g0 := State(EmptyCache(cacheSize), store);
            var c, stamps := Serve(g0, rs).0.cache, StampAll(g0, map[], 0, rs);
            c.stripes != [] && (Victim(c).Some? && u in c.nodes && u != Victim(c).value ==>
              && Victim(c).value in c.nodes && Victim(c).value in stamps && u in stamps
              && (c.nodes[u].lru == c.nodes[Victim(c).value].lru || |c.stripes| == 1 ==>
                    stamps[Victim(c).value] < stamps[u]))
  {
    EmptyUsable(cacheSize);
    var g0 := State(EmptyCache(cacheSize), store);
    ServeUsable(g0, rs);
    ServeStamped(g0, map[], 0, rs);
    var c := Serve(g0, rs).0.cache;
    if Victim(c).Some? && u in c.nodes {
      VictimIsResident(c);
      assert u in c.stripes[c.nodes[u].lru];
    }
  }
}
