/** The stack property of the one-stripe cache: a larger cache holds everything a smaller one does. */
module Inclusion {
  import opened Types
  import opened Lists
  import opened Engine
  import opened Run
  import opened Message
  import D = Dictionary

  /** The recency list of a cache with a single stripe. */
  ghost function Recent(g: State): seq<Triple>
    requires |g.cache.stripes| == 1
  {
    g.cache.stripes[0]
  }

  ghost predicate OneStripe(g: State, cacheSize: nat) {
    && Usable(g.cache)
    && |g.cache.stripes| == 1
    && g.cache.free + |g.cache.stripes[0]| == cacheSize
  }

  /**
   The small cache's recency list is the large one's with elements left out, both engines look
   alike from outside, and the small cache is full whenever it holds less than the large one.
   */
  ghost predicate Includes(small: State, large: State, c: nat, c': nat) {
    && c <= c' && OneStripe(small, c) && OneStripe(large, c')
    && (forall t :: Look(small, t) == Look(large, t))
    && Sublist(Recent(small), Recent(large))
    && (small.cache.free == 0 || |Recent(small)| >= |Recent(large)|)
  }

  lemma InList(g: State, cacheSize: nat, t: Triple)
    requires OneStripe(g, cacheSize)
    ensures t in g.cache.nodes <==> t in Recent(g)
    ensures NoDup(Recent(g))
  {
    if t in g.cache.nodes { assert t in g.cache.stripes[g.cache.nodes[t].lru]; }
  }

  /** The recency list after an insert: in front of the old list, without its last element if the cache was full. */
  lemma InsertOneStripe(g: State, cacheSize: nat, t: Triple, v: Block)
    requires OneStripe(g, cacheSize) && t !in g.cache.nodes
    ensures OneStripe(Insert(g, t, v), cacheSize)
    ensures var s, s' := Recent(g), Recent(Insert(g, t, v));
            if g.cache.free == 0 then s != [] && s' == [t] + s[..|s| - 1] else s' == [t] + s
    ensures Insert(g, t, v).cache.free == if g.cache.free == 0 then 0 else g.cache.free - 1
  {
    InsertWF(g, t, v);
    if g.cache.free == 0 {
      NoVictimIffEmpty(g.cache);
      EvictWF(g);
      EvictShape(g);
    }
  }

  lemma PromoteOneStripe(g: State, cacheSize: nat, t: Triple, v: Block, bit: DirtyBit)
    requires OneStripe(g, cacheSize) && t in g.cache.nodes && (bit == Dirty || bit == ToDelete)
    ensures var c' := Promote(g.cache.(nodes := g.cache.nodes[t := Node(v, bit, g.cache.nodes[t].lru)]), t);
            && OneStripe(g.(cache := c'), cacheSize)
            && c'.stripes[0] == ToFront(Recent(g), t) && |c'.stripes[0]| == |Recent(g)|
  {
    UpdateWF(g.cache, t, v, bit);
    InList(g, cacheSize, t);
    ToFrontMembers(Recent(g), t);
  }

  /** The recency list is left alone, or t moves to its front, or t is put in front of it. */
  ghost predicate Follows(g: State, g': State, t: Triple, e: Effect)
    requires |g.cache.stripes| == 1 && |g'.cache.stripes| == 1
  {
    var s, s' := Recent(g), Recent(g');
    match e
    case Untouched => s' == s && g'.cache.free == g.cache.free
    case Touched(_, _) => s' == ToFront(s, t) && |s'| == |s| && g'.cache.free == g.cache.free
    case Inserted(_) =>
      if g.cache.free == 0 then s != [] && s' == [t] + s[..|s| - 1] && g'.cache.free == 0
      else s' == [t] + s && g'.cache.free == g.cache.free - 1
  }

  lemma StepFollows(g: State, cacheSize: nat, r: D.Request)
    requires OneStripe(g, cacheSize)
    ensures OneStripe(Step(g, r).0, cacheSize)
    ensures Follows(g, Step(g, r).0, TripleOf(r.key), EffectOf(g, r))
  {
    StepEffect(g, r);
    StepUsable(g, r);
    match EffectOf(g, r)
    case Untouched =>
    case Touched(v, bit) => PromoteOneStripe(g, cacheSize, TripleOf(r.key), v, bit);
    case Inserted(v) => InsertOneStripe(g, cacheSize, TripleOf(r.key), v);
  }

  /** Lists only: a move to the front in the large cache against any effect the small one can have beside it. */
  lemma FrontKeepsSublist(s: seq<Triple>, l: seq<Triple>, t: Triple)
    requires Sublist(s, l) && NoDup(s) && NoDup(l)
    ensures t in s ==> Sublist(ToFront(s, t), ToFront(l, t))
    ensures t !in s ==> Sublist(s, ToFront(l, t)) && Sublist([t] + s, ToFront(l, t))
    ensures t !in s && s != [] ==> Sublist([t] + s[..|s| - 1], ToFront(l, t))
  {
    SublistWithoutBoth(s, l, t);
    if t !in s {
      SublistWithoutRight(s, l, t);
      if s != [] {
        assert ToFront(l, t)[0] == t && ToFront(l, t)[1..] == Without(l, t);
        SublistCons(s, ToFront(l, t));
        CutShorter(s, Without(l, t));
        assert ([t] + s[..|s| - 1])[1..] == s[..|s| - 1];
      }
      assert ([t] + s)[1..] == s;
    }
  }

  lemma CutShorter(s: seq<Triple>, l: seq<Triple>)
    requires s != [] && Sublist(s, l)
    ensures Sublist(s[..|s| - 1], l)
  {
    SublistCut(s, l);
    SublistAppend(s[..|s| - 1], l[..|l| - 1], l[|l| - 1]);
    assert l[..|l| - 1] + [l[|l| - 1]] == l;
  }

  /** Both caches insert t; a full large cache meets a full small one. */
  lemma InsertKeepsSublist(s: seq<Triple>, l: seq<Triple>, t: Triple)
    requires Sublist(s, l)
    ensures Sublist([t] + s, [t] + l)
    ensures s != [] ==> Sublist([t] + s[..|s| - 1], [t] + l)
    ensures s != [] && l != [] ==> Sublist([t] + s[..|s| - 1], [t] + l[..|l| - 1])
  {
    assert ([t] + s)[1..] == s && ([t] + l)[1..] == l;
    if s != [] {
      CutShorter(s, l);
      SublistCut(s, l);
      assert ([t] + s[..|s| - 1])[1..] == s[..|s| - 1];
      assert ([t] + l[..|l| - 1])[1..] == l[..|l| - 1];
    }
  }

  /** The lists stay a sublist pair, and the small cache full or the longer list, whatever happens to t in both. */
  ghost predicate StillIncludes(small: State, large: State)
    requires |small.cache.stripes| == 1 && |large.cache.stripes| == 1
  {
    && Sublist(Recent(small), Recent(large))
    && (small.cache.free == 0 || |Recent(small)| >= |Recent(large)|)
  }

  lemma ResidentInBoth(small: State, large: State, c: nat, c': nat, t: Triple, small': State, large': State, e: Effect, e': Effect)
    requires Includes(small, large, c, c') && OneStripe(small', c) && OneStripe(large', c')
    requires Follows(small, small', t, e) && Follows(large, large', t, e')
    requires t in Recent(small) && e.Touched? == e'.Touched? && !e.Inserted? && !e'.Inserted?
    ensures StillIncludes(small', large')
  {
    InList(small, c, t);
    InList(large, c', t);
    FrontKeepsSublist(Recent(small), Recent(large), t);
  }

  lemma ResidentInLarge(small: State, large: State, c: nat, c': nat, t: Triple, small': State, large': State, e: Effect, e': Effect)
    requires Includes(small, large, c, c') && OneStripe(small', c) && OneStripe(large', c')
    requires Follows(small, small', t, e) && Follows(large, large', t, e')
    requires t !in Recent(small) && !e.Touched? && !e'.Inserted? && (e.Inserted? ==> e'.Touched?)
    ensures StillIncludes(small', large')
  {
    InList(small, c, t);
    InList(large, c', t);
    FrontKeepsSublist(Recent(small), Recent(large), t);
  }

  lemma ResidentInNeither(small: State, large: State, c: nat, c': nat, t: Triple, small': State, large': State, e: Effect, e': Effect)
    requires Includes(small, large, c, c') && OneStripe(small', c) && OneStripe(large', c')
    requires Follows(small, small', t, e) && Follows(large, large', t, e')
    requires e.Inserted? == e'.Inserted? && !e.Touched? && !e'.Touched?
    ensures StillIncludes(small', large')
  {
    InsertKeepsSublist(Recent(small), Recent(large), t);
    SublistLength(Recent(small), Recent(large));
  }

  /** How the effects of the same request on the two caches can differ. */
  lemma EffectsMatch(small: State, large: State, c: nat, c': nat, r: D.Request)
    requires Includes(small, large, c, c')
    ensures var t, e, e' := TripleOf(r.key), EffectOf(small, r), EffectOf(large, r);
            && (t in Recent(small) ==> e.Touched? == e'.Touched? && !e.Inserted? && !e'.Inserted?)
            && (t !in Recent(small) && t in Recent(large) ==> !e.Touched? && !e'.Inserted? && (e.Inserted? ==> e'.Touched?))
            && (t !in Recent(small) && t !in Recent(large) ==> e.Inserted? == e'.Inserted? && !e.Touched? && !e'.Touched?)
  {
    var t := TripleOf(r.key);
    InList(small, c, t);
    InList(large, c', t);
    assert Look(small, t) == Look(large, t);
    if t in Recent(small) { SublistMember(Recent(small), Recent(large), t); }
  }

  lemma EffectsKeepSublist(small: State, large: State, c: nat, c': nat, r: D.Request)
    requires Includes(small, large, c, c')
    ensures OneStripe(Step(small, r).0, c) && OneStripe(Step(large, r).0, c')
    ensures StillIncludes(Step(small, r).0, Step(large, r).0)
  {
    var t, e, e' := TripleOf(r.key), EffectOf(small, r), EffectOf(large, r);
    StepFollows(small, c, r);
    StepFollows(large, c', r);
    EffectsMatch(small, large, c, c', r);
    if t in Recent(small) {
      ResidentInBoth(small, large, c, c', t, Step(small, r).0, Step(large, r).0, e, e');
    } else if t in Recent(large) {
      ResidentInLarge(small, large, c, c', t, Step(small, r).0, Step(large, r).0, e, e');
    } else {
      ResidentInNeither(small, large, c, c', t, Step(small, r).0, Step(large, r).0, e, e');
    }
  }

  /** Engines that look alike answer alike and go on looking alike. */
  lemma SameLookSameStep(g: State, g': State, r: D.Request, u: Triple)
    requires Usable(g.cache) && Usable(g'.cache)
    requires Look(g, TripleOf(r.key)) == Look(g', TripleOf(r.key)) && Look(g, u) == Look(g', u)
    ensures Step(g, r).1 == Step(g', r).1
    ensures Look(Step(g, r).0, u) == Look(Step(g', r).0, u)
  {
    StepLooks(g, r, u);
    StepLooks(g', r, u);
  }

  lemma StepIncludes(small: State, large: State, c: nat, c': nat, r: D.Request)
    requires Includes(small, large, c, c')
    ensures Includes(Step(small, r).0, Step(large, r).0, c, c')
  {
    EffectsKeepSublist(small, large, c, c', r);
    forall u ensures Look(Step(small, r).0, u) == Look(Step(large, r).0, u) {
      assert Look(small, u) == Look(large, u) && Look(small, TripleOf(r.key)) == Look(large, TripleOf(r.key));
      SameLookSameStep(small, large, r, u);
    }
  }

  lemma {:induction false} ServeIncludes(small: State, large: State, c: nat, c': nat, rs: seq<D.Request>)
    requires Includes(small, large, c, c')
    ensures Includes(Serve(small, rs).0, Serve(large, rs).0, c, c')
    decreases |rs|
  {
    if rs != [] {
      StepUsable(small, rs[0]);
      StepUsable(large, rs[0]);
      StepIncludes(small, large, c, c', rs[0]);
      ServeIncludes(Step(small, rs[0]).0, Step(large, rs[0]).0, c, c', rs[1..]);
    }
  }

  /**
   From empty caches of sizes c <= c' below 1024 over the same store, after the same requests:
   every resident of the smaller cache is resident in the larger, in the same relative order.
   */
  lemma LargerCacheIncludesSmaller(c: nat, c': nat, store: map<Triple, Block>, rs: seq<D.Request>)
    requires 1 <= c <= c' < 1024
    ensures Usable(EmptyCache(c)) && Usable(EmptyCache(c'))
    ensures var small := Serve(State(EmptyCache(c), store), rs).0;
            var large := Serve(State(EmptyCache(c'), store), rs).0;
            && |small.cache.stripes| == |large.cache.stripes| == 1
            && Sublist(Recent(small), Recent(large))
            && forall t :: t in small.cache.nodes ==> t in large.cache.nodes
  {
    EmptyUsable(c);
    EmptyUsable(c');
    var g, g' := State(EmptyCache(c), store), State(EmptyCache(c'), store);
    assert Includes(g, g', c, c');
    ServeIncludes(g, g', c, c', rs);
    var small, large := Serve(g, rs).0, Serve(g', rs).0;
    forall t | t in small.cache.nodes ensures t in large.cache.nodes {
      InList(small, c, t);
      InList(large, c', t);
      SublistMember(Recent(small), Recent(large), t);
    }
  }

  /** Of two residents of the smaller cache, the one used more recently is ahead in the larger cache too. */
  lemma SameRelativeOrder(c: nat, c': nat, store: map<Triple, Block>, rs: seq<D.Request>, i: nat, j: nat) returns (p: nat, q: nat)
    requires 1 <= c <= c' < 1024
    requires Usable(EmptyCache(c)) && Usable(EmptyCache(c'))
    requires var small := Serve(State(EmptyCache(c), store), rs).0; |small.cache.stripes| == 1 && i < j < |Recent(small)|
    ensures var small := Serve(State(EmptyCache(c), store), rs).0;
            var large := Serve(State(EmptyCache(c'), store), rs).0;
            && |large.cache.stripes| == 1 && p < q < |Recent(large)|
            && Recent(large)[p] == Recent(small)[i] && Recent(large)[q] == Recent(small)[j]
  {
    LargerCacheIncludesSmaller(c, c', store, rs);
    p, q := SublistOrder(Recent(Serve(State(EmptyCache(c), store), rs).0), Recent(Serve(State(EmptyCache(c'), store), rs).0), i, j);
  }
}
