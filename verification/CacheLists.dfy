/** Cache nodes, and the two doubly linked lists every resident node is threaded on. */
module CacheLists {
  import opened Types
  import opened Engine

  class CacheNode {
    var hash1: U64
    var hash2: U64
    var key: Block
    var value: Block
    var l1Left: CacheNode?
    var l1Right: CacheNode?
    var l2Prev: CacheNode?
    var l2Next: CacheNode?
    var lruIdx: nat
    var dirtyBit: DirtyBit

    constructor ()
      ensures dirtyBit == NotInCache
    {
      hash1, hash2 := 0, 0;
      key, value := seq(KV_STR_LEN, _ => 0), seq(KV_STR_LEN, _ => 0);
      l1Left, l1Right, l2Prev, l2Next := null, null, null, null;
      lruIdx := 0;
      dirtyBit := NotInCache;
    }

    /** `set_all` with null links. */
    method SetAll(t: Triple, v: Block, lruIdx: nat, dirtyBit: DirtyBit)
      modifies this
      ensures Id() == t && Content() == Node(v, dirtyBit, lruIdx)
    {
      hash1, hash2, key, value := t.hash1, t.hash2, t.key, v;
      l1Left, l1Right, l2Prev, l2Next := null, null, null, null;
      this.lruIdx, this.dirtyBit := lruIdx, dirtyBit;
    }

    function Id(): Triple
      reads this`hash1, this`hash2, this`key
    {
      Triple(hash1, hash2, key)
    }

    /** The node as the specification sees it. */
    function Content(): Node
      reads this`value, this`dirtyBit, this`lruIdx
    {
      Node(value, dirtyBit, lruIdx)
    }
  }

  class CacheNodeQueuePtr {
    var head: CacheNode?
    var tail: CacheNode?

    constructor ()
      ensures head == null && tail == null
    {
      head, tail := null, null;
    }
  }

  // ---------- the LRU list ----------

  /** The j-th element of s, or null outside. */
  function At(s: seq<CacheNode>, j: int): CacheNode? {
    if 0 <= j < |s| then s[j] else null
  }

  ghost predicate LruLinked(s: seq<CacheNode>, j: nat)
    requires j < |s|
    reads s`l2Prev, s`l2Next
  {
    s[j].l2Prev == At(s, j - 1) && s[j].l2Next == At(s, j + 1)
  }

  /** Queue q is the LRU list s. */
  ghost predicate LruList(q: CacheNodeQueuePtr, s: seq<CacheNode>)
    reads q, s`l2Prev, s`l2Next
  {
    && NoDup(s)
    && q.head == At(s, 0) && q.tail == At(s, |s| - 1)
    && forall j :: 0 <= j < |s| ==> LruLinked(s, j)
  }

  method RemoveFromDllLRU(q: CacheNodeQueuePtr, ptr: CacheNode, ghost s: seq<CacheNode>, ghost k: nat)
    requires LruList(q, s) && k < |s| && s[k] == ptr
    modifies q, s`l2Prev, s`l2Next
    ensures LruList(q, RemoveAt(s, k))
  {
    assert LruLinked(s, k);
    if ptr.l2Prev == null {
      q.head := ptr.l2Next;
    } else {
      ptr.l2Prev.l2Next := ptr.l2Next;
    }
    if ptr.l2Next == null {
      q.tail := ptr.l2Prev;
    } else {
      ptr.l2Next.l2Prev := ptr.l2Prev;
    }
    forall j | 0 <= j < |s| - 1 ensures LruLinked(RemoveAt(s, k), j) {
      assert old(LruLinked(s, if j < k then j else j + 1));
    }
  }

  method InsertToHeadLRU(q: CacheNodeQueuePtr, ptr: CacheNode, ghost s: seq<CacheNode>)
    requires LruList(q, s) && ptr !in s
    modifies q, ptr`l2Prev, ptr`l2Next, s`l2Prev
    ensures LruList(q, [ptr] + s)
  {
    ptr.l2Prev := null;
    ptr.l2Next := q.head;
    if q.head == null {
      q.tail := ptr;
    } else {
      q.head.l2Prev := ptr;
    }
    q.head := ptr;
    forall j | 0 <= j < |s| + 1 ensures LruLinked([ptr] + s, j) {
      if j > 0 { assert old(LruLinked(s, j - 1)); }
    }
  }

  method MoveToHeadLRU(q: CacheNodeQueuePtr, ptr: CacheNode, ghost s: seq<CacheNode>, ghost k: nat)
    requires LruList(q, s) && k < |s| && s[k] == ptr
    modifies q, s`l2Prev, s`l2Next
    ensures LruList(q, [ptr] + RemoveAt(s, k))
  {
    if q.head == ptr {
      assert [ptr] + RemoveAt(s, k) == s;
      return;
    }
    RemoveFromDllLRU(q, ptr, s, k);
    InsertToHeadLRU(q, ptr, RemoveAt(s, k));
  }

  // ---------- the hash chain ----------

  ghost predicate ChainLinked(s: seq<CacheNode>, j: nat)
    requires j < |s|
    reads s`l1Left, s`l1Right
  {
    s[j].l1Left == At(s, j - 1) && s[j].l1Right == At(s, j + 1)
  }

  /** Queue q is the hash chain s. */
  ghost predicate ChainList(q: CacheNodeQueuePtr, s: seq<CacheNode>)
    reads q, s`l1Left, s`l1Right
  {
    && NoDup(s)
    && q.head == At(s, 0) && q.tail == At(s, |s| - 1)
    && forall j :: 0 <= j < |s| ==> ChainLinked(s, j)
  }

  method RemoveFromDllHT(q: CacheNodeQueuePtr, ptr: CacheNode, ghost s: seq<CacheNode>, ghost k: nat)
    requires ChainList(q, s) && k < |s| && s[k] == ptr
    modifies q, s`l1Left, s`l1Right
    ensures ChainList(q, RemoveAt(s, k))
  {
    assert ChainLinked(s, k);
    if ptr.l1Left == null {
      q.head := ptr.l1Right;
    } else {
      ptr.l1Left.l1Right := ptr.l1Right;
    }
    if ptr.l1Right == null {
      q.tail := ptr.l1Left;
    } else {
      ptr.l1Right.l1Left := ptr.l1Left;
    }
    forall j | 0 <= j < |s| - 1 ensures ChainLinked(RemoveAt(s, k), j) {
      assert old(ChainLinked(s, if j < k then j else j + 1));
    }
  }

  method InsertToHeadHT(q: CacheNodeQueuePtr, ptr: CacheNode, ghost s: seq<CacheNode>)
    requires ChainList(q, s) && ptr !in s
    modifies q, ptr`l1Left, ptr`l1Right, s`l1Left
    ensures ChainList(q, [ptr] + s)
  {
    ptr.l1Left := null;
    ptr.l1Right := q.head;
    if q.head == null {
      q.tail := ptr;
    } else {
      q.head.l1Left := ptr;
    }
    q.head := ptr;
    forall j | 0 <= j < |s| + 1 ensures ChainLinked([ptr] + s, j) {
      if j > 0 { assert old(ChainLinked(s, j - 1)); }
    }
  }

  // ---------- tables of lists ----------

  function ChainOf(h: U64): (i: nat)
    ensures i < CACHE_TABLE_LEN
  {
    h % CACHE_TABLE_LEN
  }

  /** The i-th queue is the LRU list lists[i], whose nodes are the ones that name i. */
  ghost predicate LruTable(qs: seq<CacheNodeQueuePtr>, lists: seq<seq<CacheNode>>, nodes: set<CacheNode>)
    reads qs, nodes`l2Prev, nodes`l2Next, nodes`lruIdx
  {
    && |qs| == |lists| && NoDup(qs)
    && (forall i, n {:trigger n in lists[i]} :: 0 <= i < |lists| && n in lists[i] ==> n in nodes && n.lruIdx == i)
    && forall i {:trigger LruList(qs[i], lists[i])} :: 0 <= i < |qs| ==>
         (forall n :: n in lists[i] ==> n in nodes) && LruList(qs[i], lists[i])
  }

  method PromoteInTable(qs: seq<CacheNodeQueuePtr>, i: nat, ptr: CacheNode,
                        ghost lists: seq<seq<CacheNode>>, ghost k: nat, ghost nodes: set<CacheNode>)
    requires LruTable(qs, lists, nodes) && i < |qs| && k < |lists[i]| && lists[i][k] == ptr
    modifies qs[i], lists[i]`l2Prev, lists[i]`l2Next
    ensures LruTable(qs, lists[i := [ptr] + RemoveAt(lists[i], k)], nodes)
  {
    assert LruList(qs[i], lists[i]) && ptr in lists[i];
    assert forall n :: n in RemoveAt(lists[i], k) ==> n in lists[i];
    MoveToHeadLRU(qs[i], ptr, lists[i], k);
    forall j | 0 <= j < |qs| && j != i ensures LruList(qs[j], lists[j]) {
      assert old(LruList(qs[j], lists[j])) && qs[j] != qs[i];
      forall m | 0 <= m < |lists[j]| ensures LruLinked(lists[j], m) {
        assert old(LruLinked(lists[j], m)) && lists[j][m] in lists[j] && lists[j][m] !in lists[i];
      }
    }
  }

  method RemoveInLruTable(qs: seq<CacheNodeQueuePtr>, i: nat, ptr: CacheNode,
                           ghost lists: seq<seq<CacheNode>>, ghost k: nat, ghost nodes: set<CacheNode>)
    requires LruTable(qs, lists, nodes) && i < |qs| && k < |lists[i]| && lists[i][k] == ptr
    modifies qs[i], lists[i]`l2Prev, lists[i]`l2Next
    ensures LruTable(qs, lists[i := RemoveAt(lists[i], k)], nodes)
  {
    assert LruList(qs[i], lists[i]);
    assert forall n :: n in RemoveAt(lists[i], k) ==> n in lists[i];
    RemoveFromDllLRU(qs[i], ptr, lists[i], k);
    forall j | 0 <= j < |qs| && j != i ensures LruList(qs[j], lists[j]) {
      assert old(LruList(qs[j], lists[j])) && qs[j] != qs[i];
      forall m | 0 <= m < |lists[j]| ensures LruLinked(lists[j], m) {
        assert old(LruLinked(lists[j], m)) && lists[j][m] in lists[j] && lists[j][m] !in lists[i];
      }
    }
  }

  method InsertInLruTable(qs: seq<CacheNodeQueuePtr>, i: nat, ptr: CacheNode,
                           ghost lists: seq<seq<CacheNode>>, ghost nodes: set<CacheNode>)
    requires LruTable(qs, lists, nodes) && i < |qs| && ptr in nodes && ptr.lruIdx == i
    requires forall j :: 0 <= j < |lists| ==> ptr !in lists[j]
    modifies qs[i], ptr`l2Prev, ptr`l2Next, lists[i]`l2Prev
    ensures LruTable(qs, lists[i := [ptr] + lists[i]], nodes) && qs[i].head == ptr
  {
    assert LruList(qs[i], lists[i]);
    InsertToHeadLRU(qs[i], ptr, lists[i]);
    forall j | 0 <= j < |qs| && j != i ensures LruList(qs[j], lists[j]) {
      assert old(LruList(qs[j], lists[j])) && qs[j] != qs[i];
      forall m | 0 <= m < |lists[j]| ensures LruLinked(lists[j], m) {
        assert old(LruLinked(lists[j], m)) && lists[j][m] in lists[j] && lists[j][m] !in lists[i];
      }
    }
  }

  /** The i-th queue is the chain list lists[i], whose nodes are the ones that name i. */
  ghost predicate ChainTable(qs: seq<CacheNodeQueuePtr>, lists: seq<seq<CacheNode>>, nodes: set<CacheNode>)
    reads qs, nodes`l1Left, nodes`l1Right, nodes`hash1
  {
    && |qs| == |lists| && NoDup(qs)
    && (forall i, n {:trigger n in lists[i]} :: 0 <= i < |lists| && n in lists[i] ==> n in nodes && ChainOf(n.hash1) == i)
    && forall i {:trigger ChainList(qs[i], lists[i])} :: 0 <= i < |qs| ==>
         (forall n :: n in lists[i] ==> n in nodes) && ChainList(qs[i], lists[i])
  }

  method RemoveInChainTable(qs: seq<CacheNodeQueuePtr>, i: nat, ptr: CacheNode,
                           ghost lists: seq<seq<CacheNode>>, ghost k: nat, ghost nodes: set<CacheNode>)
    requires ChainTable(qs, lists, nodes) && i < |qs| && k < |lists[i]| && lists[i][k] == ptr
    modifies qs[i], lists[i]`l1Left, lists[i]`l1Right
    ensures ChainTable(qs, lists[i := RemoveAt(lists[i], k)], nodes)
  {
    assert ChainList(qs[i], lists[i]);
    assert forall n :: n in RemoveAt(lists[i], k) ==> n in lists[i];
    RemoveFromDllHT(qs[i], ptr, lists[i], k);
    forall j | 0 <= j < |qs| && j != i ensures ChainList(qs[j], lists[j]) {
      assert old(ChainList(qs[j], lists[j])) && qs[j] != qs[i];
      forall m | 0 <= m < |lists[j]| ensures ChainLinked(lists[j], m) {
        assert old(ChainLinked(lists[j], m)) && lists[j][m] in lists[j] && lists[j][m] !in lists[i];
      }
    }
  }

  method InsertInChainTable(qs: seq<CacheNodeQueuePtr>, i: nat, ptr: CacheNode,
                           ghost lists: seq<seq<CacheNode>>, ghost nodes: set<CacheNode>)
    requires ChainTable(qs, lists, nodes) && i < |qs| && ptr in nodes && ChainOf(ptr.hash1) == i
    requires forall j :: 0 <= j < |lists| ==> ptr !in lists[j]
    modifies qs[i], ptr`l1Left, ptr`l1Right, lists[i]`l1Left
    ensures ChainTable(qs, lists[i := [ptr] + lists[i]], nodes) && qs[i].head == ptr
  {
    assert ChainList(qs[i], lists[i]);
    InsertToHeadHT(qs[i], ptr, lists[i]);
    forall j | 0 <= j < |qs| && j != i ensures ChainList(qs[j], lists[j]) {
      assert old(ChainList(qs[j], lists[j])) && qs[j] != qs[i];
      forall m | 0 <= m < |lists[j]| ensures ChainLinked(lists[j], m) {
        assert old(ChainLinked(lists[j], m)) && lists[j][m] in lists[j] && lists[j][m] !in lists[i];
      }
    }
  }
}
