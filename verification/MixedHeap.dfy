/** The pool chain of inuoskrnl/ga/base.c under any mix of allocating and freeing: its
    allocators hold whatever they hold, and their caches may promise too little. */
module MixedHeap {
  import opened FirstFit
  import opened Ga
  import opened HeapRuns
  import opened Heap
  import opened LiveBlocks
  import opened Memory
  import opened Pm

  /** The first pool of the chain that promises more than n blocks is the k-th. */
  ghost predicate Promises(chain: seq<AllocationPool>, n: nat, k: nat)
    reads chain, set p | p in chain :: p.allocator
  {
    k < |chain| && TooFull(chain, n, k) && chain[k].allocator.freeBlocksLeft > n
  }

  ghost predicate NonePromises(chain: seq<AllocationPool>, n: nat)
    reads chain, set p | p in chain :: p.allocator
  {
    TooFull(chain, n, |chain|)
  }

  /** A pool's objects. */
  ghost function Objects(p: AllocationPool): set<object> {
    {p, p.allocator, p.allocator.bitmap, p.allocator.contents}
  }

  ghost predicate Distinct(chain: seq<AllocationPool>) {
    forall i, j {:trigger chain[i], chain[j]} :: 0 <= i < j < |chain| ==> Objects(chain[i]) !! Objects(chain[j])
  }

  lemma DistinctMore(chain: seq<AllocationPool>, p: AllocationPool)
    requires Distinct(chain) && forall i {:trigger chain[i]} :: 0 <= i < |chain| ==> Objects(chain[i]) !! Objects(p)
    ensures Distinct(chain + [p])
  {
  }

  /** An allocator on the pages of an extent, in whatever state. */
  ghost predicate Stands(a: Allocator, base: nat, e: Extent)
    reads a, a.bitmap
  {
    a.Valid() && e.count > 0 && a.freeBlocks == Capacity(e.count) && a.data == DataOf(base, e)
  }

  /** The marks of an allocator that has a bit for every block. */
  ghost function MarksOf(a: Allocator): Marks
    reads a, a.bitmap
  {
    if a.freeBlocks <= 8 * a.bitmap.Length then a.Marks() else []
  }

  lemma MarksAre(a: Allocator)
    requires a.Valid()
    ensures MarksOf(a) == a.Marks() && |MarksOf(a)| == a.freeBlocks
  {
  }

  /** The allocator's marks hold a block. */
  ghost predicate Held(a: Allocator, b: Block)
    reads a, a.bitmap
  {
    HeldIn(MarksOf(a), b)
  }

  /** Pages of the extents are allocated and apart. */
  ghost predicate ExtentsOwned(occupied: Marks, extents: seq<Extent>) {
    PoolsApart(extents) && forall i {:trigger extents[i]} :: 0 <= i < |extents| ==> Owned(occupied, extents[i])
  }

  lemma ExtentAdded(occupied: Marks, extents: seq<Extent>, first: nat, count: nat)
    requires ExtentsOwned(occupied, extents) && |occupied| > 0 && occupied[0]
    requires count > 0 && IsRun(occupied, first, count)
    ensures ExtentsOwned(MarkRun(occupied, first, count), extents + [Extent(first, count)])
  {
    hide Owned, MarkRun, Apart;
    NewExtentOwned(occupied, first, count);
    forall i | 0 <= i < |extents|
      ensures Owned(MarkRun(occupied, first, count), extents[i]) && Apart(extents[i], Extent(first, count))
    {
      NewExtentApart(occupied, first, count, extents[i]);
    }
    OwnedCount(MarkRun(occupied, first, count), Extent(first, count));
  }

  lemma OwnedCount(occupied: Marks, e: Extent)
    requires Owned(occupied, e)
    ensures e.count > 0
  {
  }

  lemma NewStands(a: Allocator, base: nat, e: Extent)
    requires a.Valid() && e.count > 0 && a.freeBlocks == Capacity(e.count)
    requires a.data == base + PAGE_SIZE * e.first + POOL_HEADER + Ga.LayoutOf(PoolSpace(e.count)).BitmapBytes()
    ensures Stands(a, base, e)
  {
  }

  lemma StandsFor(a: Allocator, base: nat, e: Extent)
    requires Stands(a, base, e)
    ensures a.Valid() && e.count > 0 && |a.Marks()| == a.freeBlocks == Capacity(e.count) && a.data == DataOf(base, e)
  {
  }

  lemma StillStands(a: Allocator, base: nat, e: Extent)
    requires a.Valid() && e.count > 0 && a.freeBlocks == Capacity(e.count) && a.data == DataOf(base, e)
    ensures Stands(a, base, e)
  {
  }

  lemma FirstRunStarts(s: Marks, n: nat, start: nat)
    requires IsFirstRun(s, n, start)
    ensures IsRun(s, start, n) && start + n <= |s|
  {
  }

  lemma ExtentsNone(occupied: Marks)
    ensures ExtentsOwned(occupied, [])
  {
  }

  /** In a new pool the first free run starts the pool. */
  lemma NewPoolRun(s: Marks, n: nat)
    requires IsPrefix(s, 0) && n > 0
    ensures HasRun(s, n) <==> n <= |s|
    ensures forall start: nat :: IsFirstRun(s, n, start) ==> start == 0
  {
    hide IsPrefix, IsFirstRun, HasRun;
    PrefixFirstRun(s, 0, n);
    forall start: nat | IsFirstRun(s, n, start)
      ensures start == 0
    {
      FirstRunExists(s, n, start);
      FirstRunUnique(s, n, start, 0);
    }
  }

  lemma LiveBounds(a: Allocator, b: Block)
    requires Held(a, b)
    ensures b.n > 0 && b.start + b.n <= a.freeBlocks
  {
  }

  lemma OnlyLastEnds(initial: AllocationPool, chain: seq<AllocationPool>)
    requires IsChain(initial, chain)
    ensures |chain| > 0 && chain[0] == initial
    ensures forall i {:trigger chain[i].next} :: 0 <= i < |chain| - 1 ==>
              chain[i].next == chain[i + 1] && chain[i] != chain[|chain| - 1]
  {
    assert chain[|chain| - 1].next == null;
  }

  lemma ChainMore(initial: AllocationPool, chain: seq<AllocationPool>, created: AllocationPool)
    requires |chain| > 0 && chain[0] == initial && chain[|chain| - 1].next == created && created.next == null
    requires forall i {:trigger chain[i].next} :: 0 <= i < |chain| - 1 ==> chain[i].next == chain[i + 1]
    ensures IsChain(initial, chain + [created])
  {
  }

  class MixedHeap {
    const pm: PageAllocator
    var initial: AllocationPool
    ghost var chain: seq<AllocationPool>
    ghost var extents: seq<Extent>
    ghost var live: map<Block, nat>   // handed out and not given back, with the bytes asked for
    ghost var Repr: set<object>

    ghost predicate Footprint()
      reads this
    {
      && this in Repr && pm in Repr && pm.table in Repr
      && (forall i {:trigger chain[i]} :: 0 <= i < |chain| ==> Objects(chain[i]) <= Repr)
      && Distinct(chain)
    }

    ghost predicate Valid()
      reads this, Repr
    {
      && Footprint() && IsChain(initial, chain) && pm.Valid() && pm.page > 0
      && |extents| == |chain| && ExtentsOwned(pm.Occupied(), extents)
      && (forall i {:trigger chain[i]} :: 0 <= i < |chain| ==> Stands(chain[i].allocator, pm.page, extents[i]))
    }

    ghost predicate LiveSound()
      reads this, Repr
      requires Valid()
    {
      Backs(live)
    }

    /** Each of these blocks is marked in its pool and holds the bytes asked for, and no
        two overlap. */
    ghost predicate Backs(blocks: map<Block, nat>)
      reads this, Repr
      requires Valid()
    {
      && (forall b {:trigger b.pool} :: b in blocks ==> b.pool < |chain| && Held(chain[b.pool].allocator, b))
      && Sized(blocks) && AllApart(blocks)
    }

    /** Whatever was allocated and given back before: the bytes asked for with two live
        requests are apart, and lie in their pool's pages behind header and bitmap. */
    lemma LiveShareNothing(b: Block, c: Block)
      requires Valid() && LiveSound() && b in live && c in live && b != c
      ensures Placed(extents, b) && Placed(extents, c)
      ensures var p, q := AddressOf(pm.page, extents, b), AddressOf(pm.page, extents, c);
              && (p + live[b] <= q || q + live[c] <= p)
              && pm.page + 4096 * extents[b.pool].first + 28 <= p
              && p + live[b] <= pm.page + 4096 * (extents[b.pool].first + extents[b.pool].count)
    {
      hide Capacity, Disjoint, BytesOf, AddressOf, Placed, PoolsApart;
      LiveRequest(b);
      LiveRequest(c);
      hide Valid, LiveSound;
      RequestsDisjoint(pm.page, extents, b, live[b], c, live[c]);
    }

    lemma LiveRequest(b: Block)
      requires Valid() && LiveSound() && b in live
      ensures PoolsApart(extents) && Placed(extents, b) && live[b] <= 64 * b.n
      ensures forall c :: c in live && c != b ==> BlocksApart(b, c)
    {
      hide Capacity, Owned, DataOf, BlocksApart;
      StandsFor(chain[b.pool].allocator, pm.page, extents[b.pool]);
    }

    /** GaInitialize. */
    constructor (pages: PageAllocator)
      requires pages.Valid() && pages.page > 0 && HasRun(pages.Occupied(), INITIAL_PAGES)
      modifies pages.table
      ensures Valid() && fresh(Repr - {pages, pages.table}) && pm == pages && |chain| == 1
      ensures live == map[] && LiveSound()
    {
      hide HasRun, IsFirstRun, MarkRun, Longest, TailRun, IsPrefix, Ga.LayoutOf, Stands, ExtentsOwned, Capacity;
      ghost var before := pages.Occupied();
      ExtentsNone(before);
      pm := pages;
      var first := pages.AllocatePage(10);
      FirstRunStarts(before, 10, first);
      ExtentAdded(before, [], first, 10);
      var pool := new AllocationPool(pages.PageAddress(first), 10);
      NewStands(pool.allocator, pages.page, Extent(first, 10));
      initial := pool;
      chain := [pool];
      extents := [] + [Extent(first, 10)];
      live := map[];
      Repr := {this, pages, pages.table} + Objects(pool);
    }

    /** GaLocateAllocator: the first pool that promises more, or a new one. */
    method Locate(blockCount: nat) returns (target: AllocationPool, ghost k: nat)
      requires Valid() && (NonePromises(chain, blockCount) ==> HasRun(pm.Occupied(), NewPoolPages(blockCount)))
      modifies this`chain, this`extents, this`Repr, pm.table, chain
      ensures Valid() && fresh(Repr - old(Repr)) && k < |chain| && target == chain[k]
      ensures target.allocator.Valid() && old(chain) <= chain && (old(LiveSound()) ==> LiveSound())
      ensures old(NonePromises(chain, blockCount)) ==>
        && k == old(|chain|) && |chain| == k + 1 && fresh(target.allocator) && fresh(target.allocator.bitmap)
        && target.allocator.freeBlocks == Capacity(NewPoolPages(blockCount)) && IsPrefix(MarksOf(target.allocator), 0)
      ensures !old(NonePromises(chain, blockCount)) ==>
        && chain == old(chain) && old(Promises(chain, blockCount, k)) && target.allocator.freeBlocksLeft > blockCount
        && MarksOf(target.allocator) == old(MarksOf(chain[k].allocator))
    {
      hide HasRun, IsFirstRun, MarkRun, IsPrefix, Ga.LayoutOf, Stands, ExtentsOwned, Capacity, Allocator.Valid,
        Distinct;
      var found, last;
      found, last, k := FindServing(initial, blockCount, chain);
      if found != null {
        StandsFor(found.allocator, pm.page, extents[k]);
        return found, k;
      }
      target := Create(last, blockCount);
      if old(LiveSound()) {
        forall b: Block | b in live
          ensures b.pool < |chain| && Held(chain[b.pool].allocator, b)
        {
          assert old(Held(chain[b.pool].allocator, b));
        }
      }
    }

    method Create(last: AllocationPool, blockCount: nat) returns (created: AllocationPool)
      requires Valid() && last == chain[|chain| - 1] && HasRun(pm.Occupied(), NewPoolPages(blockCount))
      modifies this`chain, this`extents, this`Repr, pm.table, last
      ensures Valid() && fresh(Repr - old(Repr)) && chain == old(chain) + [created]
      ensures fresh(created.allocator) && fresh(created.allocator.bitmap)
      ensures created.allocator.Valid() && IsPrefix(MarksOf(created.allocator), 0)
      ensures created.allocator.freeBlocks == Capacity(NewPoolPages(blockCount))
    {
      hide HasRun, IsFirstRun, MarkRun, IsPrefix, Ga.LayoutOf, Capacity, Allocator.Valid, Allocator.Marks, Stands,
        ExtentsOwned, Distinct, PoolSpace;
      var pages := blockCount / 4096 + 5;
      ghost var before := pm.Occupied();
      var first := pm.AllocatePage(pages);
      FirstRunStarts(before, pages, first);
      ExtentAdded(before, extents, first, pages);
      created := new AllocationPool(pm.PageAddress(first), pages);
      NewStands(created.allocator, pm.page, Extent(first, pages));
      MarksAre(created.allocator);
      LinkBehind(last, created, Extent(first, pages));
    }

    method LinkBehind(last: AllocationPool, created: AllocationPool, ghost e: Extent)
      requires Footprint() && IsChain(initial, chain) && pm.Valid() && pm.page > 0 && |extents| == |chain|
      requires forall i {:trigger chain[i]} :: 0 <= i < |chain| ==> Stands(chain[i].allocator, pm.page, extents[i])
      requires ExtentsOwned(pm.Occupied(), extents + [e]) && Stands(created.allocator, pm.page, e)
      requires last == chain[|chain| - 1] && Objects(created) !! Repr && created.next == null
      modifies last, this`chain, this`extents, this`Repr
      ensures Valid() && chain == old(chain) + [created] && Repr == old(Repr) + Objects(created)
    {
      hide Stands, ExtentsOwned, Distinct, PageAllocator.Valid, IsChain;
      DistinctMore(chain, created);
      OnlyLastEnds(initial, chain);
      assert Objects(last) <= Repr && created != last;
      last.next := created;
      forall i | 0 <= i < |chain| - 1
        ensures chain[i].next == chain[i + 1]
      {
        assert old(chain[i].next) == chain[i + 1];
      }
      ChainMore(initial, chain, created);
      chain := chain + [created];
      extents := extents + [e];
      Repr := Repr + Objects(created);
    }

    /** GaAllocateMemory, whatever was allocated and given back before: null exactly for
        an empty request or when no pool promises enough and the new one is too small;
        otherwise the first free run of the pool chosen, now marked and live, with that
        pool's cache exact again. */
    method AllocateMemory(size: nat) returns (pointer: nat, ghost b: Block)
      requires Valid()
      requires NonePromises(chain, BlocksFor(size)) ==> HasRun(pm.Occupied(), NewPoolPages(BlocksFor(size)))
      modifies Repr
      ensures Valid() && fresh(Repr - old(Repr)) && old(chain) <= chain
      ensures pointer == 0 <==> size == 0 || (size > 20352 && old(NonePromises(chain, BlocksFor(size))))
      ensures pointer == 0 ==> live == old(live)
      ensures pointer != 0 ==>
        && size <= 64 * b.n < size + 64 && live == old(live)[b := size] && b.pool < |chain| && extents[b.pool].count > 0
        && pointer == AddressOf(pm.page, extents, b)
        && (if old(NonePromises(chain, BlocksFor(size))) then b.pool == old(|chain|) && b.start == 0
            else old(Promises(chain, BlocksFor(size), b.pool))
                 && IsFirstRun(old(MarksOf(chain[b.pool].allocator)), b.n, b.start)
                 && MarksOf(chain[b.pool].allocator) == MarkRun(old(MarksOf(chain[b.pool].allocator)), b.start, b.n))
        && chain[b.pool].allocator.freeBlocksLeft == Longest(MarksOf(chain[b.pool].allocator))
      ensures old(LiveSound()) ==> LiveSound()
    {
      hide HasRun, IsFirstRun, MarkRun, Longest, TailRun, IsPrefix, Ga.LayoutOf, Capacity, Stands, ExtentsOwned, HeldIn,
        Allocator.Valid, MarksOf, Backs, Distinct;
      var blockSize := size / BLOCK_SIZE;
      if size % BLOCK_SIZE != 0 {
        blockSize := blockSize + 1;
      }
      assert blockSize == BlocksFor(size);
      BlocksHold(size);
      NewPoolServes(blockSize);
      hide BlocksFor, NewPoolPages, Promises, NonePromises, LiveSound, Footprint, Valid, IsChain, LiveBlocks.AddressOf;
      var target;
      ghost var k;
      target, k := Locate(blockSize);
      assert target.allocator.Valid() && target == chain[k];
      pointer, b := TakeFrom(target, k, blockSize, size);
    }

    /** GaAllocatorAllocate on the pool chosen; the block is live from now on. */
    method TakeFrom(target: AllocationPool, ghost k: nat, n: nat, ghost size: nat)
        returns (pointer: nat, ghost b: Block)
      requires size <= 64 * n && (n > 0 ==> size > 0)
      requires Valid() && k < |chain| && target == chain[k] && target.allocator.Valid()
      modifies Repr
      ensures Valid() && Repr == old(Repr) && chain == old(chain) && extents == old(extents) && extents[k].count > 0
      ensures 0 < n <= old(target.allocator.freeBlocksLeft) ==> pointer != 0
      ensures old(IsPrefix(MarksOf(target.allocator), 0)) ==>
        (pointer == 0 <==> n == 0 || n > target.allocator.freeBlocks) && (pointer != 0 ==> b.start == 0)
      ensures n == 0 ==> pointer == 0
      ensures target.allocator.freeBlocksLeft == Longest(MarksOf(target.allocator))
      ensures pointer == 0 ==> live == old(live)
      ensures pointer != 0 ==>
        && b.pool == k && b.n == n && IsFirstRun(old(MarksOf(target.allocator)), n, b.start)
        && pointer == AddressOf(pm.page, extents, b) && live == old(live)[b := size]
        && MarksOf(target.allocator) == MarkRun(old(MarksOf(target.allocator)), b.start, n)
      ensures old(LiveSound()) ==> LiveSound()
    {
      hide HasRun, IsFirstRun, MarkRun, Longest, TailRun, Capacity, Stands, ExtentsOwned, HeldIn, MarksOf,
        Allocator.Valid, IsPrefix;
      ghost var was, sound := MarksOf(target.allocator), LiveSound();
      MarksAre(target.allocator);
      if n > 0 && IsPrefix(was, 0) {
        NewPoolRun(was, n);
      }
      pointer, b := Take(target, k, n);
      if pointer != 0 {
        FirstRunStarts(was, n, b.start);
        Record(k, was, b, size, sound);
      } else if sound {
        StillLive(k, was);
      }
    }

    method Take(target: AllocationPool, ghost k: nat, n: nat) returns (pointer: nat, ghost b: Block)
      requires Valid() && k < |chain| && target == chain[k] && target.allocator.Valid()
      modifies target.allocator`freeBlocksLeft, target.allocator.bitmap
      ensures Valid() && target.allocator.Valid() && extents[k].count > 0
      ensures pointer == 0 <==> n == 0 || !HasRun(old(MarksOf(target.allocator)), n)
      ensures 0 < n <= old(target.allocator.freeBlocksLeft) ==> pointer != 0
      ensures target.allocator.freeBlocksLeft == Longest(MarksOf(target.allocator))
      ensures pointer == 0 ==> MarksOf(target.allocator) == old(MarksOf(target.allocator))
      ensures pointer != 0 ==>
        && b.pool == k && b.n == n && IsFirstRun(old(MarksOf(target.allocator)), n, b.start)
        && pointer == AddressOf(pm.page, extents, b)
        && MarksOf(target.allocator) == MarkRun(old(MarksOf(target.allocator)), b.start, n)
      ensures old(LiveSound()) ==> LiveBefore(k, old(MarksOf(target.allocator)))
    {
      hide HasRun, IsFirstRun, MarkRun, Longest, TailRun, HeldIn, Stands, ExtentsOwned, Capacity, Ga.LayoutOf, DataOf;
      StandsFor(target.allocator, pm.page, extents[k]);
      ghost var was := MarksOf(target.allocator);
      pointer := target.allocator.Allocate(n);
      b := Block(k, 0, n);
      if pointer != 0 {
        ghost var start: nat :| IsFirstRun(was, n, start) && pointer == target.allocator.data + BLOCK_SIZE * start
          && MarksOf(target.allocator) == MarkRun(was, start, n);
        b := Block(k, start, n);
      }
      StillStands(target.allocator, pm.page, extents[k]);
      forall i | 0 <= i < |chain| && i != k
        ensures Stands(chain[i].allocator, pm.page, extents[i])
      {
        Separate(i, k);
        assert old(Stands(chain[i].allocator, pm.page, extents[i]));
      }
      if old(LiveSound()) {
        forall c: Block | c in live && c.pool != k
          ensures c.pool < |chain| && Held(chain[c.pool].allocator, c)
        {
          Separate(c.pool, k);
          assert old(Held(chain[c.pool].allocator, c));
        }
        assert forall c: Block :: c in live && c.pool == k ==> old(Held(chain[c.pool].allocator, c));
      }
    }

    /** The live blocks, those of pool k held in earlier marks of that pool. */
    ghost predicate LiveBefore(k: nat, was: Marks)
      reads this, Repr
      requires Valid()
    {
      && (forall b {:trigger b.pool} :: b in live ==>
            b.pool < |chain| && if b.pool == k then HeldIn(was, b) else Held(chain[b.pool].allocator, b))
      && Sized(live) && AllApart(live)
    }

    /** A block just marked in a free run is live from now on. */
    ghost method Record(k: nat, was: Marks, b: Block, size: nat, sound: bool)
      requires Valid() && k < |chain| && (sound ==> LiveBefore(k, was))
      requires b.pool == k && 0 < size <= 64 * b.n && IsRun(was, b.start, b.n)
      requires MarksOf(chain[k].allocator) == MarkRun(was, b.start, b.n)
      modifies this`live
      ensures Valid() && live == old(live)[b := size] && (sound ==> LiveSound())
    {
      hide Valid, MarkRun, IsRun, MarksOf, LiveBefore, Backs;
      ghost var live' := live[b := size];
      if sound {
        MarkBacks(k, was, b, size);
      }
      SetLive(live', sound);
    }

    lemma MarkBacks(k: nat, was: Marks, b: Block, size: nat)
      requires Valid() && k < |chain| && LiveBefore(k, was)
      requires b.pool == k && 0 < size <= 64 * b.n && IsRun(was, b.start, b.n)
      requires MarksOf(chain[k].allocator) == MarkRun(was, b.start, b.n)
      ensures Backs(live[b := size])
    {
      hide Valid, HeldIn, Sized, AllApart, MarkRun, IsRun, MarksOf;
      MarkHolds(was, b);
      SizedMore(live, b, size);
      forall c: Block | c in live && c.pool == k
        ensures Held(chain[k].allocator, c) && BlocksApart(c, b)
      {
        MarkKeeps(was, c, b);
      }
      ApartMore(live, b, size);
    }

    ghost method SetLive(blocks: map<Block, nat>, sound: bool)
      requires Valid() && (sound ==> Backs(blocks))
      modifies this`live
      ensures Valid() && live == blocks && (sound ==> LiveSound())
    {
      hide HeldIn, Stands, ExtentsOwned, MarksOf, Sized, AllApart;
      live := blocks;
    }

    lemma StillLive(k: nat, was: Marks)
      requires Valid() && k < |chain| && LiveBefore(k, was) && MarksOf(chain[k].allocator) == was
      ensures LiveSound()
    {
      hide HeldIn, MarksOf, Stands, ExtentsOwned;
    }

    /** GaAllocatorFree on any blocks of any pool of the chain: the caches stay honest. */
    method Free(ghost k: nat, pool: AllocationPool, initialBlock: nat, length: nat)
      requires Valid() && k < |chain| && pool == chain[k] && initialBlock + length <= pool.allocator.freeBlocks
      modifies pool.allocator.bitmap, pool.allocator.contents
      ensures Valid() && MarksOf(pool.allocator) == ClearRun(old(MarksOf(pool.allocator)), initialBlock, length)
      ensures pool.allocator.freeBlocksLeft == old(pool.allocator.freeBlocksLeft)
      ensures old(LiveSound()) ==> LiveBefore(k, old(MarksOf(pool.allocator)))
    {
      hide Longest, TailRun, ClearRun, Cleared, Stands, ExtentsOwned, Capacity, Ga.LayoutOf, DataOf, HeldIn, Sized,
        AllApart;
      StandsFor(pool.allocator, pm.page, extents[k]);
      pool.allocator.Free(initialBlock, length);
      StillStands(pool.allocator, pm.page, extents[k]);
      forall i | 0 <= i < |chain| && i != k
        ensures Stands(chain[i].allocator, pm.page, extents[i])
      {
        Separate(i, k);
        assert old(Stands(chain[i].allocator, pm.page, extents[i]));
      }
      if old(LiveSound()) {
        forall c: Block | c in live && c.pool != k
          ensures c.pool < |chain| && Held(chain[c.pool].allocator, c)
        {
          Separate(c.pool, k);
          assert old(Held(chain[c.pool].allocator, c));
        }
        assert forall c: Block :: c in live && c.pool == k ==> old(Held(chain[c.pool].allocator, c));
      }
    }

    /** Giving a live block back leaves all others live and apart. */
    method GiveBack(pool: AllocationPool, b: Block)
      requires Valid() && LiveSound() && b in live && pool == chain[b.pool]
      modifies pool.allocator.bitmap, pool.allocator.contents, this`live
      ensures Valid() && LiveSound() && live == old(live) - {b}
      ensures MarksOf(pool.allocator) == ClearRun(old(MarksOf(pool.allocator)), b.start, b.n)
      ensures forall i :: b.start <= i < b.start + b.n && i < |MarksOf(pool.allocator)| ==> !MarksOf(pool.allocator)[i]
    {
      hide ClearRun, Stands, ExtentsOwned, HeldIn, MarksOf;
      ghost var was := MarksOf(pool.allocator);
      LiveBounds(pool.allocator, b);
      Free(b.pool, pool, b.start, b.n);
      Forget(b, was);
    }

    /** A block just freed is not live any more. */
    ghost method Forget(b: Block, was: Marks)
      requires Valid() && b in live && b.pool < |chain| && LiveBefore(b.pool, was)
      requires MarksOf(chain[b.pool].allocator) == ClearRun(was, b.start, b.n)
      modifies this`live
      ensures Valid() && LiveSound() && live == old(live) - {b}
    {
      hide Valid, ClearRun, MarksOf, LiveBefore, Backs;
      ClearBacks(b, was);
      SetLive(live - {b}, true);
    }

    lemma ClearBacks(b: Block, was: Marks)
      requires Valid() && b in live && b.pool < |chain| && LiveBefore(b.pool, was)
      requires MarksOf(chain[b.pool].allocator) == ClearRun(was, b.start, b.n)
      ensures Backs(live - {b})
    {
      hide Valid, HeldIn, Sized, AllApart, BlocksApart, ClearRun, MarksOf;
      SizedLess(live, b);
      ApartLess(live, b);
      forall c: Block | c in live && c != b && c.pool == b.pool
        ensures Held(chain[b.pool].allocator, c)
      {
        ClearKeeps(was, c, b);
      }
    }

    lemma Separate(i: nat, k: nat)
      requires Footprint() && i < |chain| && k < |chain| && i != k
      ensures Objects(chain[i]) !! Objects(chain[k])
    {
    }
  }
}
