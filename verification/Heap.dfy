/** The chain of pools behind GaAllocateMemory (inuoskrnl/ga/base.c). */
module Heap {
  import opened FirstFit
  import opened Ga
  import opened HeapRuns
  import opened HeapRequests
  import opened Memory
  import opened Pm

  class AllocationPool {
    const size: nat
    const allocator: Allocator
    var next: AllocationPool?

    /** The end of GaCreateAllocationPool: header, then the allocator in what is left. */
    constructor (address: nat, pageCount: nat)
      requires pageCount > 0
      ensures next == null && allocator.Valid() && fresh(allocator) && fresh(allocator.bitmap)
          && fresh(allocator.contents)
      ensures allocator.freeBlocks == allocator.freeBlocksLeft == Capacity(pageCount)
      ensures IsPrefix(allocator.Marks(), 0)
      ensures allocator.data == address + POOL_HEADER + Ga.LayoutOf(PoolSpace(pageCount)).BitmapBytes()
    {
      PoolLayoutFits(pageCount);
      assert PoolSpace(pageCount) >= ALLOCATOR_HEADER;
      hide Ga.LayoutOf, Covers, Longest, TailRun, IsPrefix;
      next := null;
      size := PAGE_SIZE * pageCount;
      allocator := new Allocator(address + POOL_HEADER - ALLOCATOR_HEADER,
          PAGE_SIZE * pageCount - (POOL_HEADER - ALLOCATOR_HEADER));
    }
  }

  /** An allocator does what pool p of the state says: its first p.used blocks are
      marked, and its cache holds exactly the rest. */
  ghost predicate Matches(a: Allocator, base: nat, p: Pool)
    reads a, a.bitmap
  {
    && a.Valid() && p.pages.count > 0
    && a.freeBlocks == Capacity(p.pages.count) && a.data == DataOf(base, p.pages)
    && IsPrefix(a.Marks(), p.used) && a.freeBlocksLeft == a.freeBlocks - p.used
  }

  lemma NewPoolMatches(a: Allocator, base: nat, pages: Extent)
    requires a.Valid() && pages.count > 0
    requires a.freeBlocks == a.freeBlocksLeft == Capacity(pages.count) && IsPrefix(a.Marks(), 0)
    requires a.data
      == base + PAGE_SIZE * pages.first + POOL_HEADER + Ga.LayoutOf(PoolSpace(pages.count)).BitmapBytes()
    ensures Matches(a, base, Pool(pages, 0))
  {
  }

  lemma LeftOf(a: Allocator, base: nat, p: Pool)
    requires Matches(a, base, p)
    ensures a.freeBlocksLeft == CapacityOf(p.pages) - p.used
  {
  }

  /** The search of the state, where the first k pools have too little. */
  lemma {:induction false} FindPoolIs(pools: seq<Pool>, n: nat, i: nat, k: nat)
    requires i <= k <= |pools|
    requires forall j :: i <= j < k ==> CapacityOf(pools[j].pages) - pools[j].used <= n
    requires k < |pools| ==> CapacityOf(pools[k].pages) - pools[k].used > n
    ensures FindPool(pools, n, i) == k
    decreases k - i
  {
    if i < k {
      FindPoolIs(pools, n, i + 1, k);
    }
  }

  /** Pools linked one behind the other, the first one first. */
  ghost predicate IsChain(initial: AllocationPool, chain: seq<AllocationPool>)
    reads chain
  {
    && |chain| > 0 && chain[0] == initial
    && (forall i {:trigger chain[i].next} :: 0 <= i < |chain| ==>
          chain[i].next == if i + 1 < |chain| then chain[i + 1] else null)
  }

  /** The pools before the k-th promise no more than n blocks. */
  ghost predicate TooFull(chain: seq<AllocationPool>, n: nat, k: nat)
    requires k <= |chain|
    reads chain, set p | p in chain :: p.allocator
  {
    forall i {:trigger chain[i]} :: 0 <= i < k ==> chain[i].allocator.freeBlocksLeft <= n
  }

  /** The walk of GaLocateAllocator along any chain, whatever its allocators hold: the
      first pool whose cache promises more, or none and the last pool. */
  method FindServing(initial: AllocationPool, blockCount: nat, ghost chain: seq<AllocationPool>)
      returns (found: AllocationPool?, last: AllocationPool, ghost k: nat)
    requires IsChain(initial, chain)
    ensures k <= |chain| && TooFull(chain, blockCount, k)
    ensures found == null <==> k == |chain|
    ensures found == null ==> last == chain[|chain| - 1]
    ensures found != null ==> found == chain[k] && found.allocator.freeBlocksLeft > blockCount
  {
    k := 0;
    last := initial;
    while true
      invariant k < |chain| && last == chain[k] && TooFull(chain, blockCount, k)
      decreases |chain| - k
    {
      if last.allocator.freeBlocksLeft > blockCount {
        return last, last, k;
      }
      k := k + 1;
      if last.next == null {
        return null, last, k;
      }
      last := last.next;
    }
  }

  class Heap {
    const pm: PageAllocator
    var initial: AllocationPool
    ghost var chain: seq<AllocationPool>
    ghost var state: State
    ghost var Repr: set<object>

    ghost predicate Footprint()
      reads this
    {
      && this in Repr && pm in Repr && pm.table in Repr
      && (forall i :: 0 <= i < |chain| ==>
            chain[i] in Repr && chain[i].allocator in Repr && chain[i].allocator.bitmap in Repr)
      && (forall i, j :: 0 <= i < j < |chain| ==>
            chain[i] != chain[j] && chain[i].allocator != chain[j].allocator
                && chain[i].allocator.bitmap != chain[j].allocator.bitmap)
    }

    /** The pools are linked in order and each does what the state says. */
    ghost predicate Linked()
      reads this, Repr
    {
      && Footprint()
      && |chain| == |state.pools| > 0 && chain[0] == initial
      && (forall i :: 0 <= i < |chain| ==> Matches(chain[i].allocator, state.base, state.pools[i]))
      && (forall i {:trigger chain[i].next} :: 0 <= i < |chain| ==>
            chain[i].next == if i + 1 < |chain| then chain[i + 1] else null)
    }

    ghost predicate Valid()
      reads this, Repr
    {
      && Linked() && pm.Valid() && pm.page > 0
      && state.base == pm.page && state.occupied == pm.Occupied()
    }

    /** GaInitialize. */
    constructor (pages: PageAllocator)
      requires pages.Valid() && pages.page > 0 && HasRun(pages.Occupied(), INITIAL_PAGES)
      modifies pages.table
      ensures Valid() && fresh(Repr - {pages, pages.table}) && pm == pages && Initialized(state)
    {
      hide Matches, IsFirstRun, HasRun, MarkRun, Initialized, Empty, Longest, TailRun, IsPrefix, Ga.LayoutOf, FirstRun;
      pm := pages;
      ghost var before := State(pages.page, pages.Occupied(), [], [], []);
      var first := pages.AllocatePage(10);
      var pool := new AllocationPool(pages.PageAddress(first), 10);
      initial := pool;
      chain := [pool];
      state := Created(before, INITIAL_PAGES);
      Repr := {this, pages, pages.table, pool, pool.allocator, pool.allocator.bitmap};
      new;
      NewPoolMatches(pool.allocator, pages.page, Extent(first, 10));
      FirstRunUnique(before.occupied, INITIAL_PAGES, first, FirstRun(before.occupied, INITIAL_PAGES));
      InitializedBy(before);
    }

    /** GaLocateAllocator. A pool is created when no pool has more blocks left. */
    method Locate(blockCount: nat) returns (target: AllocationPool)
      requires Valid() && HasRoom(state, blockCount)
      modifies Repr
      ensures Valid() && fresh(Repr - old(Repr))
      ensures state == old(Located(state, blockCount))
      ensures FindPool(old(state.pools), blockCount, 0) < |chain|
          && target == chain[FindPool(old(state.pools), blockCount, 0)]
    {
      hide Matches, IsFirstRun, HasRun, MarkRun, FindPool, Created;
      var found, last;
      ghost var k;
      found, last, k := FindServing(initial, blockCount, chain);
      forall i | 0 <= i < |chain|
        ensures chain[i].allocator.freeBlocksLeft == CapacityOf(state.pools[i].pages) - state.pools[i].used
      {
        LeftOf(chain[i].allocator, state.base, state.pools[i]);
      }
      FindPoolIs(state.pools, blockCount, 0, k);
      if found != null {
        return found;
      }
      target := Append(last, blockCount);
    }

    /** GaCreateAllocationPool. */
    method Create(pages: nat) returns (created: AllocationPool, ghost first: nat)
      requires Valid() && pages > 0 && HasRun(state.occupied, pages)
      modifies pm.table
      ensures Linked() && pm.Valid() && first == FirstRun(state.occupied, pages)
      ensures pm.Occupied() == MarkRun(state.occupied, first, pages)
      ensures fresh(created) && fresh(created.allocator) && fresh(created.allocator.bitmap) && created.next == null
      ensures Matches(created.allocator, pm.page, Pool(Extent(first, pages), 0))
    {
      hide Matches, IsFirstRun, HasRun, MarkRun, Longest, TailRun, IsPrefix, Ga.LayoutOf, FirstRun;
      var index := pm.AllocatePage(pages);
      first := index;
      FirstRunUnique(state.occupied, pages, first, FirstRun(state.occupied, pages));
      created := new AllocationPool(pm.PageAddress(index), pages);
      NewPoolMatches(created.allocator, pm.page, Extent(first, pages));
    }

    method LinkBehind(last: AllocationPool, created: AllocationPool, ghost pool: Pool)
      requires Linked() && last == chain[|chain| - 1] && created.next == null
      requires created !in Repr && created.allocator !in Repr && created.allocator.bitmap !in Repr
      requires Matches(created.allocator, state.base, pool)
      modifies this, last
      ensures Linked() && Repr == old(Repr) + {created, created.allocator, created.allocator.bitmap}
      ensures state == old(state.(pools := state.pools + [pool])) && chain == old(chain) + [created]
    {
      hide Matches;
      last.next := created;
      chain := chain + [created];
      state := state.(pools := state.pools + [pool]);
      Repr := Repr + {created, created.allocator, created.allocator.bitmap};
    }

    /** The pool made when no other fits, linked behind the last. */
    method Append(last: AllocationPool, blockCount: nat) returns (created: AllocationPool)
      requires Valid() && last == chain[|chain| - 1]
      requires HasRun(state.occupied, NewPoolPages(blockCount))
      modifies Repr
      ensures Valid() && fresh(Repr - old(Repr))
      ensures state == old(Created(state, NewPoolPages(blockCount)))
      ensures |chain| == old(|chain|) + 1 && created == chain[|chain| - 1]
    {
      hide Matches, IsFirstRun, HasRun, MarkRun, FirstRun;
      var pages := blockCount / 4096 + 5;
      ghost var first;
      created, first := Create(pages);
      LinkBehind(last, created, Pool(Extent(first, pages), 0));
      state := state.(occupied := pm.Occupied());
    }

    /** GaAllocateMemory refines the bump allocator, and the caller gets all the bytes
        asked for, in a block of their own. */
    method AllocateMemory(size: nat) returns (pointer: nat)
      requires Valid() && HasRoom(state, BlocksFor(size))
      modifies Repr
      ensures Valid() && fresh(Repr - old(Repr))
      ensures (state, pointer) == old(HeapRuns.AllocateMemory(state, size))
      ensures old(Sound(state)) ==> Sound(state)
      ensures old(Sound(state)) ==>
        (pointer == 0 <==> size == 0 || (size > 20352 && NoneLeft(old(state), BlocksFor(size))))
      ensures old(Sound(state)) && pointer != 0 ==>
        && |state.blocks| == |old(state.blocks)| + 1 && state.blocks[..|old(state.blocks)|] == old(state.blocks)
        && InBlock(state, state.blocks[|old(state.blocks)|], Bytes(pointer, pointer + size))
    {
      hide Matches, IsFirstRun, HasRun, MarkRun, HasRoom, FindPool, Located, Sound, NoneLeft, InBlock;
      var blockSize := size / BLOCK_SIZE;
      if size % BLOCK_SIZE != 0 {
        blockSize := blockSize + 1;
      }
      var target := Locate(blockSize);
      ghost var k := FindPool(old(state.pools), blockSize, 0);
      pointer := Take(target, blockSize, k);
      if old(Sound(state)) {
        MemorySound(old(state), size);
        NullExactly(old(state), size);
        MemoryAnswered(old(state), size);
      }
    }

    /** GaAllocatorAllocate on pool k of the chain. */
    method Take(target: AllocationPool, n: nat, ghost k: nat) returns (pointer: nat)
      requires Valid() && k < |chain| && target == chain[k]
      modifies target.allocator`freeBlocksLeft, target.allocator.bitmap, this`state
      ensures Valid()
      ensures (state, pointer) == old(Taken(state, k, n))
    {
      hide Matches, IsFirstRun, HasRun, MarkRun, Taken, Longest, TailRun, IsPrefix, Ga.LayoutOf;
      MatchesPrefix(target.allocator, state.base, state.pools[k]);
      ghost var was := target.allocator.Marks();
      pointer := target.allocator.Allocate(n);
      MatchesAfter(target.allocator, state, k, n, was, pointer);
      state := Taken(state, k, n).0;
      forall i | 0 <= i < |chain| && i != k
        ensures Matches(chain[i].allocator, state.base, state.pools[i])
      {
        assert old(Matches(chain[i].allocator, state.base, state.pools[i]));
      }
    }

    /** MmAllocatePayload. Without enough pages it returns the address of page zero. */
    method AllocatePayload(count: nat) returns (address: nat)
      requires Valid() && count > 0
      modifies Repr
      ensures Valid() && Repr == old(Repr)
      ensures if old(HasRun(state.occupied, count)) then (state, address) == old(HeapRuns.AllocatePayload(state, count))
              else state == old(state) && address == pm.page
    {
      hide Matches, IsFirstRun, MarkRun;
      var index := pm.AllocatePage(count);
      if HasRun(state.occupied, count) {
        FirstRunUnique(state.occupied, count, index, FirstRun(state.occupied, count));
        state := state.(occupied := pm.Occupied(), payloads := state.payloads + [Extent(index, count)]);
      }
      address := pm.PageAddress(index);
    }
  }

  lemma InitializedBy(h: State)
    requires |h.occupied| > 0 && h.occupied[0] && h.base > 0 && h.pools == [] && h.payloads == [] && h.blocks == []
    requires HasRun(h.occupied, INITIAL_PAGES)
    ensures Initialized(Created(h, INITIAL_PAGES))
  {
    assert Empty(h);
  }

  lemma MatchesPrefix(a: Allocator, base: nat, p: Pool)
    requires Matches(a, base, p)
    ensures p.pages.count > 0 && a.freeBlocks == Capacity(p.pages.count) && a.data == DataOf(base, p.pages)
    ensures a.Valid() && |a.Marks()| == CapacityOf(p.pages) && IsPrefix(a.Marks(), p.used)
  {
  }

  /** First fit behind a used prefix extends the prefix. */
  lemma MatchesAfter(a: Allocator, h: State, k: nat, n: nat, was: Marks, pointer: nat)
    requires k < |h.pools| && h.pools[k].pages.count > 0
    requires a.Valid() && a.freeBlocks == Capacity(h.pools[k].pages.count) && a.data == DataOf(h.base, h.pools[k].pages)
    requires IsPrefix(was, h.pools[k].used) && |was| == CapacityOf(h.pools[k].pages)
    requires a.freeBlocksLeft == Longest(a.Marks())
    requires pointer == 0 <==> n == 0 || !HasRun(was, n)
    requires pointer == 0 ==> a.Marks() == was
    requires pointer != 0 ==>
      (exists start: nat :: IsFirstRun(was, n, start) && pointer == a.data + BLOCK_SIZE * start
          && a.Marks() == MarkRun(was, start, n))
    ensures pointer == Taken(h, k, n).1
    ensures var h' := Taken(h, k, n).0;
            && h'.base == h.base && h'.occupied == h.occupied && |h'.pools| == |h.pools|
            && Matches(a, h.base, h'.pools[k])
            && forall i :: 0 <= i < |h.pools| && i != k ==> h'.pools[i] == h.pools[i]
  {
    hide IsFirstRun, HasRun, Capacity, DataOf, Longest, TailRun;
    var p := h.pools[k];
    if n > 0 {
      PrefixFirstRun(was, p.used, n);
    }
    if pointer != 0 {
      var start: nat :| IsFirstRun(was, n, start) && pointer == a.data + BLOCK_SIZE * start
          && a.Marks() == MarkRun(was, start, n);
      FirstRunUnique(was, n, start, p.used);
      PrefixTail(a.Marks(), p.used + n);
    } else {
      PrefixTail(was, p.used);
    }
  }
}
