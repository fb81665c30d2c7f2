/** The free list of cache nodes: blocks of nodes, and a vector used as a stack of free ones. */
module MemoryPool {
  import opened Types
  import opened CacheLists

  class MemoryPool {
    var blockSize: nat
    var memoryBlockPointers: seq<seq<CacheNode>>
    /** `pool`: the vector behind the stack, its first n cells in use; capacity is the vector's. */
    var pool: seq<CacheNode?>
    var capacity: nat
    var n: nat
    var nMax: nat

    /** All nodes ever allocated, and those handed out. */
    ghost var nodes: set<CacheNode>
    ghost var handedOut: set<CacheNode>

    /** The free nodes are on the stack once each; free and handed-out nodes partition all nodes. */
    ghost predicate Valid()
      reads this
    {
      && n <= |pool| <= capacity
      && |nodes| == |memoryBlockPointers| * blockSize <= |pool|
      && (forall b :: 0 <= b < |memoryBlockPointers| ==>
            |memoryBlockPointers[b]| == blockSize && forall i :: 0 <= i < blockSize ==> memoryBlockPointers[b][i] in nodes)
      && Partition(pool[..n], nodes, handedOut)
    }

    constructor ()
      ensures Valid() && memoryBlockPointers == [] && nodes == {} && handedOut == {} && n == 0
      ensures blockSize == 1024 && nMax == 2048 && |pool| == 2048 <= capacity
    {
      blockSize, n, nMax := 1024, 0, 2048;
      memoryBlockPointers := [];
      pool := seq(2048, _ => null);
      capacity := 2048;
      nodes, handedOut := {}, {};
    }

    /** `std::vector::resize`: new cells are null; a vector that has to grow picks its own new capacity. */
    method Resize(size: nat)
      requires n <= size && n <= |pool| <= capacity
      modifies `pool, `capacity
      ensures |pool| == size <= capacity && old(capacity) <= capacity
      ensures pool[..n] == old(pool)[..n]
    {
      pool := if size <= |pool| then pool[..size] else pool + seq(size - |pool|, _ => null);
      if size > capacity {
        var c: nat :| c >= size;
        capacity := c;
      }
    }

    method Init(size: nat, blocksRequired: nat)
      requires Valid() && memoryBlockPointers == [] && n == 0
      modifies this
      ensures Valid() && fresh(nodes) && handedOut == {}
      ensures n == |nodes| == size == blockSize == nMax && |memoryBlockPointers| == 1
      ensures pool[..n] == memoryBlockPointers[0] && size * blocksRequired <= capacity && old(capacity) <= capacity
    {
      assert handedOut == {};
      blockSize := size;
      Resize(size * blocksRequired);
      assert nodes == {};
      AllocateOneBlock();
    }

    method VecPushBack(ptr: CacheNode)
      requires n < |pool|
      modifies `pool, `n
      ensures n == old(n) + 1 && pool == old(pool)[old(n) := ptr]
    {
      pool := pool[n := ptr];
      n := n + 1;
    }

    method VecPopBack() returns (ptr: CacheNode)
      requires 0 < n <= |pool| && pool[n - 1] != null
      modifies `n
      ensures n == old(n) - 1 && ptr == pool[n]
    {
      n := n - 1;
      ptr := pool[n];
    }

    /** Adds a block of blockSize new nodes; every push fits whichever way the vector was resized. */
    method AllocateOneBlock()
      requires n <= |pool| <= capacity
      requires |nodes| == |memoryBlockPointers| * blockSize
      requires forall b :: 0 <= b < |memoryBlockPointers| ==>
            |memoryBlockPointers[b]| == blockSize && forall i :: 0 <= i < blockSize ==> memoryBlockPointers[b][i] in nodes
      requires Partition(pool[..n], nodes, handedOut)
      modifies this
      ensures Valid() && handedOut == old(handedOut) && blockSize == old(blockSize)
      ensures old(nodes) <= nodes && fresh(nodes - old(nodes))
      ensures n == old(n) + blockSize && |nodes| == old(|nodes|) + blockSize
      ensures |memoryBlockPointers| == old(|memoryBlockPointers|) + 1
      ensures memoryBlockPointers[..old(|memoryBlockPointers|)] == old(memoryBlockPointers)
      ensures pool[..n] == old(pool[..n]) + memoryBlockPointers[old(|memoryBlockPointers|)]
      ensures nMax == |memoryBlockPointers| * blockSize
      ensures |pool| == if old(capacity) >= nMax then old(capacity) else 2 * nMax
      ensures old(capacity) <= capacity
    {
      var block := NewBlock(blockSize);
      PartitionSize(pool[..n], nodes, handedOut);
      memoryBlockPointers := memoryBlockPointers + [block];
      nMax := |memoryBlockPointers| * blockSize;
      assert nMax == |nodes| + blockSize;
      if capacity >= nMax {
        Resize(capacity);
      } else {
        Resize(2 * nMax);
      }
      PushBlock(block);
    }

    /** The pushes of one block: each finds a cell, because the vector has room for all nodes of all blocks. */
    method PushBlock(block: seq<CacheNode>)
      requires n + |block| <= |pool| && Partition(pool[..n], nodes, handedOut) && NoDup(block)
      requires forall i :: 0 <= i < |block| ==> block[i] !in nodes
      modifies `pool, `n, `nodes
      ensures n == old(n) + |block| && |pool| == old(|pool|) && Partition(pool[..n], nodes, handedOut)
      ensures pool[..n] == old(pool[..n]) + block
      ensures |nodes| == old(|nodes|) + |block|
      ensures forall x :: x in nodes <==> x in old(nodes) || x in block
    {
      for i := 0 to |block|
        invariant n == old(n) + i && |pool| == old(|pool|)
        invariant |nodes| == old(|nodes|) + i && forall x :: x in nodes <==> x in old(nodes) || x in block[..i]
        invariant Partition(pool[..n], nodes, handedOut)
        invariant pool[..n] == old(pool[..n]) + block[..i]
      {
        ghost var before := pool[..n];
        PartitionPush(before, nodes, handedOut, block[i]);
        VecPushBack(block[i]);
        assert pool[..n] == before + [block[i]];
        nodes := nodes + {block[i]};
        assert block[..i + 1] == block[..i] + [block[i]];
      }
      assert block[..|block|] == block;
    }

    /** `new T[blockSize]()` */
    static method NewBlock(blockSize: nat) returns (block: seq<CacheNode>)
      ensures |block| == blockSize && NoDup(block) && forall i :: 0 <= i < blockSize ==> fresh(block[i])
    {
      block := [];
      for i := 0 to blockSize
        invariant |block| == i && NoDup(block) && forall j :: 0 <= j < i ==> fresh(block[j])
      {
        var node := new CacheNode();
        block := block + [node];
      }
    }

    /** With blocks of size 0 an empty pool stays empty, and the pop behind its start fails. */
    method AcquireInstance() returns (ptr: CacheNode)
      requires Valid() && (n > 0 || blockSize >= 1)
      modifies this
      ensures Valid() && blockSize == old(blockSize)
      ensures ptr in nodes && ptr !in old(handedOut) && handedOut == old(handedOut) + {ptr}
      ensures old(n) > 0 ==> nodes == old(nodes) && n == old(n) - 1 && memoryBlockPointers == old(memoryBlockPointers)
      ensures old(n) > 0 ==> ptr == old(pool)[old(n) - 1] && pool == old(pool)
      ensures old(n) == 0 ==> fresh(nodes - old(nodes)) && old(nodes) <= nodes && n == blockSize - 1
    {
      if n == 0 {
        AllocateOneBlock();
      }
      PartitionPop(pool[..n], nodes, handedOut);
      assert pool[..n][..n - 1] == pool[..n - 1] && pool[..n][n - 1] == pool[n - 1];
      ptr := VecPopBack();
      handedOut := handedOut + {ptr};
    }

    /** Gives back a node that was handed out. */
    method ReleaseInstance(ptr: CacheNode)
      requires Valid() && ptr in handedOut
      modifies this
      ensures Valid() && nodes == old(nodes) && handedOut == old(handedOut) - {ptr} && n == old(n) + 1
      ensures blockSize == old(blockSize) && pool[..n] == old(pool[..n]) + [ptr]
    {
      PartitionSize(pool[..n], nodes, handedOut);
      PartitionPush(pool[..n], nodes, handedOut, ptr);
      ghost var before := pool[..n];
      VecPushBack(ptr);
      assert pool[..n] == before + [ptr];
      handedOut := handedOut - {ptr};
    }
  }

  /** The free nodes are pairwise different, and together with `out`, disjointly, all of `nodes`. */
  ghost predicate Partition(free: seq<CacheNode?>, nodes: set<CacheNode>, out: set<CacheNode>) {
    && out <= nodes
    && (forall i :: 0 <= i < |free| ==> free[i] != null && free[i] in nodes && free[i] !in out)
    && NoDup(free)
    && (forall x {:trigger x in free} :: x in nodes ==> x in out || x in free)
  }

  /** Free nodes and handed-out nodes add up. */
  lemma {:induction false} PartitionSize(free: seq<CacheNode?>, nodes: set<CacheNode>, out: set<CacheNode>)
    requires Partition(free, nodes, out)
    ensures |free| + |out| == |nodes|
    decreases free
  {
    if free == [] {
      assert forall x :: x in nodes ==> x in out || x in free;
      assert nodes == out;
    } else {
      PartitionPop(free, nodes, out);
      PartitionSize(free[..|free| - 1], nodes, out + {free[|free| - 1]});
    }
  }

  lemma PartitionPop(free: seq<CacheNode?>, nodes: set<CacheNode>, out: set<CacheNode>)
    requires Partition(free, nodes, out) && free != []
    ensures free[|free| - 1] != null
    ensures Partition(free[..|free| - 1], nodes, out + {free[|free| - 1]})
  {
    assert free == free[..|free| - 1] + [free[|free| - 1]];
    assert forall x :: x in nodes && x != free[|free| - 1] && x !in out ==> x in free;
  }

  lemma PartitionPush(free: seq<CacheNode?>, nodes: set<CacheNode>, out: set<CacheNode>, x: CacheNode)
    requires Partition(free, nodes, out) && x !in free
    ensures x !in nodes ==> Partition(free + [x], nodes + {x}, out)
    ensures x in out ==> Partition(free + [x], nodes, out - {x})
  {
    assert forall y :: y in free ==> y in free + [x];
    assert (free + [x])[|free|] == x;
  }
}
