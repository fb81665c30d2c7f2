/** Round-robin stripes: which stripe holds how many residents, and why eviction never meets an empty one. */
module Balance {
  import opened Types
  import opened Lists
  import opened Modular
  import opened Engine
  import opened Run
  import opened Message
  import D = Dictionary

  /** How many numbers of [a, b) have residue i modulo n. */
  function CountMod(a: nat, b: nat, n: nat, i: nat): nat
    requires n > 0
  {
    if b <= a then 0 else CountMod(a, b - 1, n, i) + if (b - 1) % n == i then 1 else 0
  }

  lemma {:induction false} CountSplit(a: nat, m: nat, b: nat, n: nat, i: nat)
    requires n > 0 && a <= m <= b
    ensures CountMod(a, b, n, i) == CountMod(a, m, n, i) + CountMod(m, b, n, i)
  {
    if m < b { CountSplit(a, m, b - 1, n, i); }
  }

  lemma {:induction false} CountNone(a: nat, b: nat, n: nat, i: nat)
    requires n > 0 && forall d :: a <= d < b ==> d % n != i
    ensures CountMod(a, b, n, i) == 0
  {
    if a < b { CountNone(a, b - 1, n, i); }
  }

  lemma CountOne(d: nat, n: nat, i: nat)
    requires n > 0
    ensures CountMod(d, d + 1, n, i) == if d % n == i then 1 else 0
  {
    assert CountMod(d, d, n, i) == 0;
  }

  lemma CountWindow(a: nat, n: nat, i: nat)
    requires i < n
    ensures CountMod(a, a + n, n, i) == 1
  {
    var d := NextWithResidue(n, a, i);
    forall x | a <= x < a + n && x != d ensures x % n != i {
      if x % n == i { SameResidue(n, if x < d then x else d, if x < d then d else x); }
    }
    CountSplit(a, d, a + n, n, i);
    CountSplit(d, d + 1, a + n, n, i);
    CountNone(a, d, n, i);
    CountOne(d, n, i);
    CountNone(d + 1, a + n, n, i);
  }

  /** Two residues are counted equally often, give or take one. */
  lemma {:induction false} EvenCounts(a: nat, b: nat, n: nat, i: nat, j: nat)
    requires i < n && j < n
    ensures CountMod(a, b, n, i) <= CountMod(a, b, n, j) + 1
    decreases b
  {
    if b <= a {
    } else if b - a < n {
      CountSplit(a, b, a + n, n, i);
      CountWindow(a, n, i);
    } else {
      EvenCounts(a, b - n, n, i, j);
      CountSplit(a, b - n, b, n, i);
      CountSplit(a, b - n, b, n, j);
      CountWindow(b - n, n, i);
      CountWindow(b - n, n, j);
    }
  }

  /** Stripe i has one element for each t in [a, b) with t mod S = i. */
  ghost predicate Sizes(stripes: seq<seq<Triple>>, a: nat, b: nat) {
    forall i :: 0 <= i < |stripes| ==> |stripes[i]| == CountMod(a, b, |stripes|, i)
  }

  lemma SizesAfterAdd(stripes: seq<seq<Triple>>, a: nat, b: nat, s: seq<Triple>)
    requires stripes != [] && Sizes(stripes, a, b) && a <= b && |s| == |stripes[b % |stripes|]| + 1
    ensures Sizes(stripes[b % |stripes| := s], a, b + 1)
  {
    forall i | 0 <= i < |stripes|
      ensures CountMod(a, b + 1, |stripes|, i) == CountMod(a, b, |stripes|, i) + if b % |stripes| == i then 1 else 0
    {}
  }

  lemma SizesAfterEvict(stripes: seq<seq<Triple>>, a: nat, b: nat, s: seq<Triple>)
    requires stripes != [] && Sizes(stripes, a, b) && a < b && |s| == |stripes[a % |stripes|]| - 1
    ensures Sizes(stripes[a % |stripes| := s], a + 1, b)
  {
    forall i | 0 <= i < |stripes|
      ensures CountMod(a, b, |stripes|, i) == CountMod(a + 1, b, |stripes|, i) + if a % |stripes| == i then 1 else 0
    {
      CountSplit(a, a + 1, b, |stripes|, i);
      CountOne(a, |stripes|, i);
    }
  }

  /** Before the shutdown drain: every draw of an eviction index evicted, and the round robins kept the stripes level. */
  ghost predicate Balanced(c: Cache, cacheSize: nat) {
    && c.stripes != []
    && c.draws <= c.inserts
    && |c.nodes| == c.inserts - c.draws
    && c.free + |c.nodes| == cacheSize
    && Sizes(c.stripes, c.draws, c.inserts)
  }

  lemma EmptyBalanced(cacheSize: nat)
    ensures Balanced(EmptyCache(cacheSize), cacheSize)
  {
  }

  lemma UpdateBalanced(c: Cache, cacheSize: nat, t: Triple, v: Block, bit: DirtyBit)
    requires WF(c) && Balanced(c, cacheSize) && t in c.nodes
    ensures Balanced(Promote(c.(nodes := c.nodes[t := Node(v, bit, c.nodes[t].lru)]), t), cacheSize)
  {
    ToFrontMembers(c.stripes[c.nodes[t].lru], t);
    assert c.nodes[t := Node(v, bit, c.nodes[t].lru)].Keys == c.nodes.Keys;
  }

  /** With a resident in a balanced cache, the first stripe drawn has a victim. */
  lemma FirstDrawHits(c: Cache, cacheSize: nat)
    requires Balanced(c, cacheSize) && c.nodes != map[]
    ensures VictimDraw(c) == c.draws && Victim(c).Some? && c.draws < c.inserts
    ensures var s := c.stripes[c.draws % |c.stripes|]; s != [] && Victim(c).value == s[|s| - 1]
  {
    assert |c.nodes| > 0;
    CountSplit(c.draws, c.draws + 1, c.inserts, |c.stripes|, c.draws % |c.stripes|);
    CountOne(c.draws, |c.stripes|, c.draws % |c.stripes|);
  }

  lemma EvictBalanced(g: State, cacheSize: nat)
    requires WF(g.cache) && Balanced(g.cache, cacheSize) && g.cache.nodes != map[]
    ensures WF(Evict(g).cache) && Balanced(Evict(g).cache.(free := g.cache.free + 1), cacheSize)
    ensures Evict(g).cache.draws == g.cache.draws + 1 && Evict(g).cache.inserts == g.cache.inserts
  {
    hide WF, Sizes, Evict, Victim, VictimDraw;
    var c := g.cache;
    FirstDrawHits(c, cacheSize);
    EvictWF(g);
    EvictShrinks(g);
    EvictShape(g);
    var s := c.stripes[c.draws % |c.stripes|];
    SizesAfterEvict(c.stripes, c.draws, c.inserts, s[..|s| - 1]);
  }

  lemma AddBalanced(c: Cache, cacheSize: nat, t: Triple, v: Block)
    requires Balanced(c, cacheSize) && c.free > 0 && t !in c.nodes
    ensures Balanced(Add(c.(free := c.free - 1), t, v), cacheSize)
  {
    var i := c.inserts % |c.stripes|;
    SizesAfterAdd(c.stripes, c.draws, c.inserts, [t] + c.stripes[i]);
    assert c.nodes[t := Node(v, Dirty, i)].Keys == c.nodes.Keys + {t};
  }

  lemma InsertBalanced(g: State, cacheSize: nat, t: Triple, v: Block)
    requires Balanced(g.cache, cacheSize) && Usable(g.cache) && t !in g.cache.nodes
    ensures Balanced(Insert(g, t, v).cache, cacheSize)
  {
    if g.cache.free == 0 {
      EvictBalanced(g, cacheSize);
      EvictWF(g);
      AddBalanced(Evict(g).cache.(free := 1), cacheSize, t, v);
    } else {
      AddBalanced(g.cache, cacheSize, t, v);
    }
  }

  lemma StepBalanced(g: State, cacheSize: nat, r: D.Request)
    requires Balanced(g.cache, cacheSize) && Usable(g.cache)
    ensures Balanced(Step(g, r).0.cache, cacheSize)
  {
    StepEffect(g, r);
    match EffectOf(g, r)
    case Untouched =>
    case Touched(v, bit) => UpdateBalanced(g.cache, cacheSize, TripleOf(r.key), v, bit);
    case Inserted(v) => InsertBalanced(g, cacheSize, TripleOf(r.key), v);
  }

  /** Evictions begin only when the pool is empty, and then it stays empty. */
  lemma StepEvictsLate(g: State, r: D.Request)
    requires Usable(g.cache) && (g.cache.draws > 0 ==> g.cache.free == 0)
    ensures Step(g, r).0.cache.draws > 0 ==> Step(g, r).0.cache.free == 0
  {
    var t := TripleOf(r.key);
    if t in g.cache.nodes {
      HitChangesOneNode(g, r);
    } else if r.code == 2 || (r.code == 1 && t in g.store) {
      if g.cache.free > 0 { InsertTakesFreeNode(g, r); } else { InsertEvictsWhenFull(g, r); }
    } else {
      MissLeavesCache(g, r);
    }
  }

  lemma {:induction false} ServeEvictsLate(g: State, rs: seq<D.Request>)
    requires Usable(g.cache) && (g.cache.draws > 0 ==> g.cache.free == 0)
    ensures Serve(g, rs).0.cache.draws > 0 ==> Serve(g, rs).0.cache.free == 0
    decreases |rs|
  {
    if rs != [] {
      StepUsable(g, rs[0]);
      StepEvictsLate(g, rs[0]);
      ServeEvictsLate(Step(g, rs[0]).0, rs[1..]);
    }
  }

  lemma {:induction false} ServeBalanced(g: State, cacheSize: nat, rs: seq<D.Request>)
    requires Balanced(g.cache, cacheSize) && Usable(g.cache)
    ensures Balanced(Serve(g, rs).0.cache, cacheSize)
    decreases |rs|
  {
    if rs != [] {
      StepUsable(g, rs[0]);
      StepBalanced(g, cacheSize, rs[0]);
      ServeBalanced(Step(g, rs[0]).0, cacheSize, rs[1..]);
    }
  }

  /**
   Whatever was served since start-up: residents and free nodes add up to the cache size, stripe
   sizes differ by at most one, and an eviction finds its victim at the first draw.
   */
  lemma RunIsBalanced(cacheSize: nat, store: map<Triple, Block>, rs: seq<D.Request>)
    requires cacheSize >= 1
    ensures Usable(EmptyCache(cacheSize))
    ensures var c := Serve(State(EmptyCache(cacheSize), store), rs).0.cache;
            && Balanced(c, cacheSize)
            && (forall i, j :: 0 <= i < |c.stripes| && 0 <= j < |c.stripes| ==> |c.stripes[i]| <= |c.stripes[j]| + 1)
            && (c.free == 0 ==> VictimDraw(c) == c.draws && Victim(c).Some?)
            && c.free + |c.nodes| == cacheSize && |c.nodes| == c.inserts - c.draws
            && (c.draws > 0 ==> c.free == 0)
  {
    EmptyUsable(cacheSize);
    EmptyBalanced(cacheSize);
    ServeUsable(State(EmptyCache(cacheSize), store), rs);
    ServeBalanced(State(EmptyCache(cacheSize), store), cacheSize, rs);
    ServeEvictsLate(State(EmptyCache(cacheSize), store), rs);
    var c := Serve(State(EmptyCache(cacheSize), store), rs).0.cache;
    forall i, j | 0 <= i < |c.stripes| && 0 <= j < |c.stripes| ensures |c.stripes[i]| <= |c.stripes[j]| + 1 {
      EvenCounts(c.draws, c.inserts, |c.stripes|, i, j);
    }
    if c.free == 0 {
      assert |c.nodes| == cacheSize;
      FirstDrawHits(c, cacheSize);
    }
  }
}
