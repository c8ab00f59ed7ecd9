/** The block allocators: a resource that hands out fixed-size blocks
    from a free list threaded through chunks of blocks, the allocator that
    takes one block per request, and the hybrid allocator that sends small
    requests to it and the others to a backup allocator. Blocks are
    numbered in the order their chunks were created; a link is the number
    of the next free block or `Null`. */
module Allocators {

  /** The null `next` pointer. */
  const Null: int := -1

  /** The block numbers `lo`, `lo + 1`, ..., `hi - 1`. */
  function Range(lo: nat, hi: nat): (r: seq<nat>)
    requires lo <= hi
    ensures |r| == hi - lo && forall j | 0 <= j < |r| :: r[j] == lo + j
  {
    seq(hi - lo, j => lo + j)
  }

  /** Number of blocks in all chunks. */
  function Total(chunks: seq<nat>): nat
  {
    if chunks == [] then 0 else Total(chunks[..|chunks| - 1]) + chunks[|chunks| - 1]
  }

  lemma {:induction false} MulMonotone(n: nat, a: nat, b: nat)
    requires a <= b
    ensures n * a <= n * b
  {
    if n > 0 {
      MulMonotone(n - 1, a, b);
      assert n * a == (n - 1) * a + a && n * b == (n - 1) * b + b;
    }
  }

  lemma MulCancel(d: nat, a: nat, b: nat)
    requires d * a < d * b
    ensures a < b
  {
    if a >= b {
      MulMonotone(d, b, a);
    }
  }

  /** Growing by a factor of at least one, rounded down, never shrinks a
      chunk. */
  lemma GrowthKeepsSize(n: nat, num: nat, den: nat)
    requires 1 <= den <= num
    ensures n * num / den >= n
  {
    MulMonotone(n, den, num);
    var q, r := n * num / den, n * num % den;
    assert n * num == q * den + r && r < den;
    assert den * n <= den * q + r < den * (q + 1);
    MulCancel(den, n, q + 1);
  }

  /** The free list `free` starts at `head`, is chained through `links`
      and ends in a null link; it repeats no block, and every block is
      either on it or in `used`, never both. */
  ghost predicate FreeList(links: seq<int>, head: int, free: seq<nat>, used: set<nat>)
  {
    head == (if free == [] then Null else free[0])
    && (forall j | 0 <= j < |free| :: free[j] < |links|)
    && (forall j | 0 <= j < |free| - 1 :: links[free[j]] == free[j + 1])
    && (free != [] ==> links[free[|free| - 1]] == Null)
    && (forall i, j | 0 <= i < j < |free| :: free[i] != free[j])
    && (forall b | b in used :: b < |links| && b !in free)
    && (forall b: nat | b < |links| :: b in used || b in free)
  }

  /** Popping the head of the free list hands out that block. */
  lemma Pop(links: seq<int>, head: int, free: seq<nat>, used: set<nat>)
    requires FreeList(links, head, free, used) && free != []
    ensures head == free[0] && head !in used
    ensures FreeList(links, links[head], free[1..], used + {free[0]})
  {
    var rest := free[1..];
    forall b: nat | b < |links|
      ensures b in used + {free[0]} || b in rest
    {
      if b !in used && b != free[0] {
        assert b in free;
        var j :| 0 <= j < |free| && free[j] == b;
        assert rest[j - 1] == b;
      }
    }
  }

  /** Pushing a used block makes it the head of the free list. */
  lemma Push(links: seq<int>, head: int, free: seq<nat>, used: set<nat>, b: nat)
    requires FreeList(links, head, free, used) && b in used
    ensures FreeList(links[b := head], b, [b] + free, used - {b})
  {
    var ls, fs := links[b := head], [b] + free;
    forall j | 0 <= j < |fs| - 1
      ensures ls[fs[j]] == fs[j + 1]
    {
      if j > 0 {
        assert fs[j] == free[j - 1] && fs[j] != b;
      }
    }
    if free != [] {
      assert fs[|fs| - 1] == free[|free| - 1] != b;
    }
    forall b': nat | b' < |ls|
      ensures b' in used - {b} || b' in fs
    {
      if b' == b {
        assert fs[0] == b;
      } else if b' !in used {
        assert b' in free;
        var j :| 0 <= j < |free| && free[j] == b';
        assert fs[j + 1] == b';
      }
    }
  }

  /** A new chunk of `n` blocks at `base`, linked in index order, becomes
      the whole free list when the old one was empty. */
  lemma FreshChunk(links: seq<int>, used: set<nat>, base: nat, n: nat)
    requires |links| == base + n && n >= 1 && FreeList(links[..base], Null, [], used)
    requires forall k | base <= k < base + n - 1 :: links[k] == k + 1
    requires links[base + n - 1] == Null
    ensures FreeList(links, base, Range(base, base + n), used)
  {
    var fs := Range(base, base + n);
    forall b: nat | b < |links|
      ensures b in used || b in fs
    {
      if b >= base {
        assert fs[b - base] == b;
      } else {
        assert b < |links[..base]|;
      }
    }
  }

  /** `block_allocator_resource`. The grow factor is the fraction
      `growNum / growDen`, at least one. */
  class BlockResource {
    var nextChunkSize: nat
    const growNum: nat
    const growDen: nat
    /** The size of each chunk, in creation order (`chunks_`). */
    var chunks: seq<nat>
    /** The `next` field of every block. */
    var links: seq<int>
    var head: int
    /** The free list, from `head` on. */
    ghost var free: seq<nat>
    /** The blocks handed out and not given back. */
    ghost var used: set<nat>

    ghost predicate Valid()
      reads this
    {
      1 <= growDen <= growNum && nextChunkSize >= 1
      && |links| == Total(chunks)
      && FreeList(links, head, free, used)
    }

    /** The constructor: one chunk of `chunkSize` blocks, all free. The
        source assumes `chunkSize >= 1` and asserts a grow factor of at
        least one. */
    constructor(chunkSize: nat, growNum: nat, growDen: nat)
      requires chunkSize >= 1 && 1 <= growDen <= growNum
      ensures Valid()
      ensures chunks == [chunkSize] && free == Range(0, chunkSize) && used == {}
      ensures this.growNum == growNum && this.growDen == growDen
      ensures nextChunkSize == chunkSize * growNum / growDen
    {
      nextChunkSize := chunkSize;
      this.growNum := growNum;
      this.growDen := growDen;
      chunks := [];
      links := [];
      head := Null;
      free := [];
      used := {};
      new;
      AddChunk();
    }

    /** `add_chunk`: a new chunk whose blocks are linked in index order,
        the last one to null, and which becomes the whole free list. Only
        called when the free list is empty. */
    method AddChunk()
      requires Valid() && free == []
      modifies this
      ensures Valid()
      ensures chunks == old(chunks) + [old(nextChunkSize)]
      ensures nextChunkSize == old(nextChunkSize) * growNum / growDen
      ensures free == Range(old(|links|), old(|links|) + old(nextChunkSize))
      ensures used == old(used) && links[..old(|links|)] == old(links)
    {
      var base := |links|;
      var n := nextChunkSize;
      chunks := chunks + [n];
      assert chunks[..|chunks| - 1] == old(chunks);
      var chunk := links + seq(n, _ => Null);
      var lastIndex := n - 1;
      GrowthKeepsSize(n, growNum, growDen);
      nextChunkSize := n * growNum / growDen;
      var i := 0;
      while i < lastIndex
        invariant 0 <= i <= lastIndex
        invariant |chunk| == base + n && chunk[..base] == links
        invariant forall k | base <= k < base + i :: chunk[k] == k + 1
        invariant forall k | base + i <= k < base + n :: chunk[k] == Null
      {
        chunk := chunk[base + i := base + i + 1];
        i := i + 1;
      }
      chunk := chunk[base + lastIndex := Null];
      FreshChunk(chunk, used, base, n);
      links := chunk;
      head := base;
      free := Range(base, base + n);
    }

    /** `allocate`: adds a chunk when the free list is empty, then pops
        its head. */
    method Allocate() returns (b: nat)
      requires Valid()
      modifies this
      ensures Valid()
      ensures b !in old(used) && used == old(used) + {b} && b !in free
      ensures old(free) != [] ==>
        b == old(free)[0] && free == old(free)[1..] && chunks == old(chunks)
        && links == old(links) && nextChunkSize == old(nextChunkSize)
      ensures old(free) == [] ==>
        b == old(|links|) && chunks == old(chunks) + [old(nextChunkSize)]
        && free == Range(b + 1, b + old(nextChunkSize)) && links[..b] == old(links)
        && nextChunkSize == old(nextChunkSize) * growNum / growDen
    {
      if head == Null {
        AddChunk();
      }
      Pop(links, head, free, used);
      b := head;
      head := links[head];
      free := free[1..];
      used := used + {b};
    }

    /** `deallocate`: pushes the block on the free list. */
    method Deallocate(b: nat)
      requires Valid() && b in used
      modifies this
      ensures Valid()
      ensures free == [b] + old(free) && used == old(used) - {b} && head == b
      ensures links == old(links)[b := old(head)]
      ensures chunks == old(chunks) && nextChunkSize == old(nextChunkSize)
    {
      Push(links, head, free, used, b);
      links := links[b := head];
      head := b;
      free := [b] + free;
      used := used - {b};
    }
  }

  /** The free list is last in, first out: a block given back is the next
      one handed out. */
  method DeallocateThenAllocate(r: BlockResource, p: nat) returns (q: nat)
    requires r.Valid() && p in r.used
    modifies r
    ensures q == p && r.Valid() && r.used == old(r.used) && r.free == old(r.free)
  {
    r.Deallocate(p);
    q := r.Allocate();
  }

  /** `block_allocator<T, Resource>`: one resource block per request of at
      most `maxContinuous` objects (`block_size / sizeof(T)`). */
  class BlockAllocator {
    const resource: BlockResource
    const maxContinuous: nat

    constructor(resource: BlockResource, blockSize: nat, objectSize: nat)
      requires objectSize >= 1
      ensures this.resource == resource && maxContinuous == blockSize / objectSize
    {
      this.resource := resource;
      maxContinuous := blockSize / objectSize;
    }

    method Allocate(n: nat) returns (b: nat)
      requires n <= maxContinuous && resource.Valid()
      modifies resource
      ensures resource.Valid()
      ensures b !in old(resource.used) && resource.used == old(resource.used) + {b}
      ensures old(resource.free) != [] ==>
        b == old(resource.free)[0] && resource.free == old(resource.free)[1..]
        && resource.chunks == old(resource.chunks) && resource.links == old(resource.links)
        && resource.nextChunkSize == old(resource.nextChunkSize)
      ensures old(resource.free) == [] ==>
        b == old(|resource.links|) && resource.chunks == old(resource.chunks) + [old(resource.nextChunkSize)]
        && resource.free == Range(b + 1, b + old(resource.nextChunkSize))
        && resource.links[..b] == old(resource.links)
        && resource.nextChunkSize == old(resource.nextChunkSize) * resource.growNum / resource.growDen
    {
      b := resource.Allocate();
    }

    method Deallocate(b: nat, n: nat)
      requires resource.Valid() && b in resource.used
      modifies resource
      ensures resource.Valid()
      ensures resource.free == [b] + old(resource.free) && resource.used == old(resource.used) - {b}
      ensures resource.head == b && resource.links == old(resource.links)[b := old(resource.head)]
      ensures resource.chunks == old(resource.chunks) && resource.nextChunkSize == old(resource.nextChunkSize)
    {
      resource.Deallocate(b);
    }
  }

  /** `hybrid_block_allocator_predicate`: a request goes to the block
      allocator when it fits one block, never when no object fits. */
  predicate ChooseFirst(n: nat, maxN: nat)
  {
    if maxN == 0 then false else n <= maxN
  }

  /** Where a hybrid allocation came from: a block of the block allocator
      or an allocation of the backup allocator. */
  datatype Pointer = Block(index: nat) | Backup(id: nat)

  /** `hybrid_allocator` over a block allocator. The backup allocator
      (`std::allocator`) is represented by the set of its live
      allocations. */
  class HybridAllocator {
    const first: BlockAllocator
    var nextBackup: nat
    ghost var backupLive: set<nat>
    /** Every live allocation with the count it was requested for. */
    ghost var sizes: map<Pointer, nat>

    ghost predicate Valid()
      reads this, first.resource
    {
      first.resource.Valid()
      && (forall p | p in sizes :: (p.Block? <==> ChooseFirst(sizes[p], first.maxContinuous)))
      && (forall p | p in sizes && p.Block? :: p.index in first.resource.used)
      && (forall p | p in sizes && p.Backup? :: p.id in backupLive)
      && (forall id | id in backupLive :: id < nextBackup)
    }

    constructor(first: BlockAllocator)
      requires first.resource.Valid()
      ensures Valid() && this.first == first && sizes == map[] && backupLive == {}
    {
      this.first := first;
      nextBackup := 0;
      backupLive := {};
      sizes := map[];
    }

    /** `allocate`: the predicate on `n` chooses the allocator. */
    method Allocate(n: nat) returns (p: Pointer)
      requires Valid()
      modifies this, first.resource
      ensures Valid()
      ensures p.Block? <==> ChooseFirst(n, first.maxContinuous)
      ensures p !in old(sizes) && sizes == old(sizes)[p := n]
      ensures p.Block? ==>
        p.index !in old(first.resource.used) && first.resource.used == old(first.resource.used) + {p.index}
        && backupLive == old(backupLive) && nextBackup == old(nextBackup)
      ensures p.Block? && old(first.resource.free) != [] ==>
        p.index == old(first.resource.free)[0] && first.resource.free == old(first.resource.free)[1..]
        && first.resource.chunks == old(first.resource.chunks) && first.resource.links == old(first.resource.links)
        && first.resource.nextChunkSize == old(first.resource.nextChunkSize)
      ensures p.Block? && old(first.resource.free) == [] ==>
        p.index == old(|first.resource.links|)
        && first.resource.chunks == old(first.resource.chunks) + [old(first.resource.nextChunkSize)]
        && first.resource.free == Range(p.index + 1, p.index + old(first.resource.nextChunkSize))
        && first.resource.links[..p.index] == old(first.resource.links)
        && first.resource.nextChunkSize
           == old(first.resource.nextChunkSize) * first.resource.growNum / first.resource.growDen
      ensures p.Backup? ==>
        unchanged(first.resource) && p.id == old(nextBackup) && nextBackup == old(nextBackup) + 1
        && backupLive == old(backupLive) + {p.id}
    {
      if ChooseFirst(n, first.maxContinuous) {
        var b := first.Allocate(n);
        p := Block(b);
      } else {
        p := Backup(nextBackup);
        backupLive := backupLive + {nextBackup};
        nextBackup := nextBackup + 1;
      }
      sizes := sizes[p := n];
    }

    /** `deallocate`: the same predicate on the same `n` sends the pointer
        back to the allocator it came from. */
    method Deallocate(p: Pointer, n: nat)
      requires Valid() && p in sizes && sizes[p] == n
      modifies this, first.resource
      ensures Valid()
      ensures sizes == old(sizes) - {p}
      ensures p.Block? ==>
        first.resource.free == [p.index] + old(first.resource.free)
        && first.resource.used == old(first.resource.used) - {p.index}
        && first.resource.head == p.index
        && first.resource.links == old(first.resource.links)[p.index := old(first.resource.head)]
        && first.resource.chunks == old(first.resource.chunks)
        && first.resource.nextChunkSize == old(first.resource.nextChunkSize)
        && backupLive == old(backupLive)
      ensures p.Backup? ==> unchanged(first.resource) && backupLive == old(backupLive) - {p.id}
      ensures nextBackup == old(nextBackup)
    {
      if ChooseFirst(n, first.maxContinuous) {
        first.Deallocate(p.index, n);
      } else {
        backupLive := backupLive - {p.id};
      }
      sizes := sizes - {p};
    }
  }
}
