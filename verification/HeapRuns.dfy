/** The heap of inuoskrnl/ga/base.c as a bump allocator: pools of consecutively used
    blocks, on pages of the page allocator. Nothing is ever given back. */
module HeapRuns {
  import opened Arith
  import opened FirstFit
  import opened Ga
  import opened Memory

  /** Consecutive pages obtained from PmAllocatePage. */
  datatype Extent = Extent(first: nat, count: nat)

  datatype Pool = Pool(pages: Extent, used: nat)

  /** Blocks start, ..., start + n - 1 of a pool, by its place in the chain. */
  datatype Block = Block(pool: nat, start: nat, n: nat)

  /** base is the address of page zero. */
  datatype State = State(base: nat, occupied: Marks, pools: seq<Pool>, payloads: seq<Extent>, blocks: seq<Block>)

  function PageAddress(base: nat, page: nat): nat {
    base + page * PAGE_SIZE
  }

  /** Address of a pool's first block. */
  function DataOf(base: nat, pages: Extent): nat
    requires pages.count > 0
  {
    PageAddress(base, pages.first) + POOL_HEADER + LayoutOf(PoolSpace(pages.count)).BitmapBytes()
  }

  function CapacityOf(pages: Extent): nat {
    if pages.count == 0 then 0 else Capacity(pages.count)
  }

  /** GaCalculateRequestBlock. */
  function BlocksFor(size: nat): nat {
    size / BLOCK_SIZE + (if size % BLOCK_SIZE != 0 then 1 else 0)
  }

  /** The least number of blocks that hold the bytes asked for. */
  lemma BlocksHold(size: nat)
    ensures size <= 64 * BlocksFor(size) < size + 64
    ensures BlocksFor(size) == 0 <==> size == 0
    ensures BlocksFor(size) <= 318 <==> size <= 20352
  {
    var q, r := DivMod(size, 64);
  }

  /** The lowest start of a free run, counting up from j. */
  ghost function FirstRunFrom(s: Marks, n: nat, j: nat): (start: nat)
    requires exists k: nat :: k >= j && IsRun(s, k, n)
    ensures start >= j && IsRun(s, start, n) && forall k: nat :: j <= k < start ==> !IsRun(s, k, n)
    decreases |s| - j
  {
    if IsRun(s, j, n) then j else FirstRunFrom(s, n, j + 1)
  }

  ghost function FirstRun(s: Marks, n: nat): (start: nat)
    requires HasRun(s, n)
    ensures IsFirstRun(s, n, start)
  {
    FirstRunFrom(s, n, 0)
  }

  /** GaLocateAllocator's walk: the first pool with strictly more than n blocks left. */
  function FindPool(pools: seq<Pool>, n: nat, i: nat): (k: nat)
    requires i <= |pools|
    ensures i <= k <= |pools|
    decreases |pools| - i
  {
    if i == |pools| || CapacityOf(pools[i].pages) - pools[i].used > n then i else FindPool(pools, n, i + 1)
  }

  /** Pages of the pool created when no pool fits. */
  function NewPoolPages(n: nat): nat {
    n / 4096 + 5
  }

  ghost predicate HasRoom(h: State, n: nat) {
    FindPool(h.pools, n, 0) == |h.pools| ==> HasRun(h.occupied, NewPoolPages(n))
  }

  /** GaCreateAllocationPool: the first free pages become the last pool. */
  ghost function Created(h: State, pages: nat): State
    requires HasRun(h.occupied, pages)
  {
    var first := FirstRun(h.occupied, pages);
    h.(occupied := MarkRun(h.occupied, first, pages), pools := h.pools + [Pool(Extent(first, pages), 0)])
  }

  ghost function Located(h: State, n: nat): State
    requires HasRoom(h, n)
  {
    if FindPool(h.pools, n, 0) < |h.pools| then h else Created(h, NewPoolPages(n))
  }

  /** The next n blocks of pool k, or null when it has no n blocks left. */
  ghost function Taken(h: State, k: nat, n: nat): (State, nat)
    requires k < |h.pools|
  {
    var p := h.pools[k];
    if n == 0 || p.pages.count == 0 || p.used + n > CapacityOf(p.pages) then (h, 0)
    else (h.(pools := h.pools[k := p.(used := p.used + n)], blocks := h.blocks + [Block(k, p.used, n)]),
          DataOf(h.base, p.pages) + BLOCK_SIZE * p.used)
  }

  /** GaAllocateMemory: the first pool with enough left, or a new one, is taken from. */
  ghost function AllocateMemory(h: State, size: nat): (State, nat)
    requires HasRoom(h, BlocksFor(size))
  {
    var n := BlocksFor(size);
    var k := FindPool(h.pools, n, 0);
    var h' := Located(h, n);
    Taken(h', k, n)
  }

  /** MmAllocatePayload, when the pages are there. */
  ghost function AllocatePayload(h: State, count: nat): (State, nat)
    requires count > 0 && HasRun(h.occupied, count)
  {
    var first := FirstRun(h.occupied, count);
    (h.(occupied := MarkRun(h.occupied, first, count), payloads := h.payloads + [Extent(first, count)]),
     PageAddress(h.base, first))
  }

  // ----- what every step keeps

  /** The extent's pages are allocated, and page zero is not among them. */
  ghost predicate Owned(occupied: Marks, e: Extent) {
    && e.first > 0 && e.count > 0 && e.first + e.count <= |occupied|
    && forall i :: e.first <= i < e.first + e.count ==> occupied[i]
  }

  predicate Apart(e: Extent, f: Extent) {
    e.first + e.count <= f.first || f.first + f.count <= e.first
  }

  ghost predicate PagesApart(h: State) {
    && |h.occupied| > 0 && h.occupied[0]
    && (forall i :: 0 <= i < |h.pools| ==> Owned(h.occupied, h.pools[i].pages))
    && (forall i :: 0 <= i < |h.payloads| ==> Owned(h.occupied, h.payloads[i]))
    && (forall i, j :: 0 <= i < j < |h.pools| ==> Apart(h.pools[i].pages, h.pools[j].pages))
    && (forall i, j :: 0 <= i < j < |h.payloads| ==> Apart(h.payloads[i], h.payloads[j]))
    && (forall i, j :: 0 <= i < |h.pools| && 0 <= j < |h.payloads| ==> Apart(h.pools[i].pages, h.payloads[j]))
  }

  /** Blocks of one pool were handed out in order, all of them below its used mark. */
  ghost predicate BlocksInOrder(h: State) {
    && (forall i :: 0 <= i < |h.pools| ==> h.pools[i].used <= CapacityOf(h.pools[i].pages))
    && (forall i :: 0 <= i < |h.blocks| ==>
          h.blocks[i].pool < |h.pools| && h.blocks[i].start + h.blocks[i].n <= h.pools[h.blocks[i].pool].used)
    && (forall i, j :: 0 <= i < j < |h.blocks| && h.blocks[i].pool == h.blocks[j].pool ==>
          h.blocks[i].start + h.blocks[i].n <= h.blocks[j].start)
  }

  ghost predicate Sound(h: State) {
    PagesApart(h) && BlocksInOrder(h)
  }

  /** Pages that were free are apart from every extent already owned. */
  lemma NewExtentApart(occupied: Marks, first: nat, count: nat, e: Extent)
    requires count > 0 && IsRun(occupied, first, count) && Owned(occupied, e)
    ensures Apart(e, Extent(first, count)) && Apart(Extent(first, count), e)
    ensures Owned(MarkRun(occupied, first, count), e)
  {
    // wherever the later of the two starts, the other does not reach it
    var _, _ := occupied[first], occupied[e.first];
  }

  lemma NewExtentOwned(occupied: Marks, first: nat, count: nat)
    requires |occupied| > 0 && occupied[0] && count > 0 && IsRun(occupied, first, count)
    ensures Owned(MarkRun(occupied, first, count), Extent(first, count))
  {
  }

  lemma CreatedSound(h: State, count: nat)
    requires Sound(h) && count > 0 && HasRun(h.occupied, count)
    ensures Sound(Created(h, count))
  {
    hide Apart, Owned, IsRun;
    var first := FirstRun(h.occupied, count);
    NewExtentOwned(h.occupied, first, count);
    forall i | 0 <= i < |h.pools|
      ensures Apart(h.pools[i].pages, Extent(first, count))
          && Owned(MarkRun(h.occupied, first, count), h.pools[i].pages)
    {
      NewExtentApart(h.occupied, first, count, h.pools[i].pages);
    }
    forall i | 0 <= i < |h.payloads|
      ensures Apart(Extent(first, count), h.payloads[i]) && Owned(MarkRun(h.occupied, first, count), h.payloads[i])
    {
      NewExtentApart(h.occupied, first, count, h.payloads[i]);
    }
  }

  lemma LocatedSound(h: State, n: nat)
    requires Sound(h) && HasRoom(h, n)
    ensures Sound(Located(h, n)) && FindPool(h.pools, n, 0) < |Located(h, n).pools|
  {
    hide Sound;
    if FindPool(h.pools, n, 0) == |h.pools| {
      CreatedSound(h, NewPoolPages(n));
    }
  }

  lemma MemorySound(h: State, size: nat)
    requires Sound(h) && HasRoom(h, BlocksFor(size))
    ensures Sound(AllocateMemory(h, size).0)
  {
    hide Apart, Owned, Located;
    LocatedSound(h, BlocksFor(size));
  }

  lemma PayloadSound(h: State, count: nat)
    requires Sound(h) && count > 0 && HasRun(h.occupied, count)
    ensures Sound(AllocatePayload(h, count).0)
  {
    hide Apart, Owned, IsRun;
    var first := FirstRun(h.occupied, count);
    NewExtentOwned(h.occupied, first, count);
    forall i | 0 <= i < |h.pools|
      ensures Apart(h.pools[i].pages, Extent(first, count))
          && Owned(MarkRun(h.occupied, first, count), h.pools[i].pages)
    {
      NewExtentApart(h.occupied, first, count, h.pools[i].pages);
    }
    forall i | 0 <= i < |h.payloads|
      ensures Apart(h.payloads[i], Extent(first, count)) && Owned(MarkRun(h.occupied, first, count), h.payloads[i])
    {
      NewExtentApart(h.occupied, first, count, h.payloads[i]);
    }
  }

  // ----- whole runs

  datatype Step = Memory(size: nat) | Payload(count: nat)

  /** The page allocator can satisfy the step. */
  ghost predicate Enabled(h: State, step: Step) {
    match step
    case Memory(size) => HasRoom(h, BlocksFor(size))
    case Payload(count) => count > 0 && HasRun(h.occupied, count)
  }

  ghost function Take(h: State, step: Step): State
    requires Enabled(h, step)
  {
    match step
    case Memory(size) => AllocateMemory(h, size).0
    case Payload(count) => AllocatePayload(h, count).0
  }

  ghost predicate Possible(h: State, steps: seq<Step>)
    decreases |steps|
  {
    steps == [] || (Enabled(h, steps[0]) && Possible(Take(h, steps[0]), steps[1..]))
  }

  ghost function Run(h: State, steps: seq<Step>): State
    requires Possible(h, steps)
    decreases |steps|
  {
    if steps == [] then h else Run(Take(h, steps[0]), steps[1..])
  }

  /** What PmInitialize leaves: page zero occupied and nothing allocated. */
  ghost predicate Empty(h: State) {
    && |h.occupied| > 0 && h.occupied[0] && h.base > 0
    && h.pools == [] && h.payloads == [] && h.blocks == []
  }

  const INITIAL_PAGES: nat := 10

  /** What GaInitialize leaves: one pool of ten pages. */
  ghost predicate Initialized(h: State) {
    exists h0: State :: Empty(h0) && HasRun(h0.occupied, INITIAL_PAGES) && h == Created(h0, INITIAL_PAGES)
  }

  lemma InitializedSound(h: State)
    requires Initialized(h)
    ensures Sound(h)
  {
    hide HasRun, MarkRun;
    var h0: State :| Empty(h0) && HasRun(h0.occupied, INITIAL_PAGES) && h == Created(h0, INITIAL_PAGES);
    CreatedSound(h0, INITIAL_PAGES);
  }

  lemma {:induction false} RunSound(h: State, steps: seq<Step>)
    requires Sound(h) && Possible(h, steps)
    ensures Sound(Run(h, steps)) && Run(h, steps).base == h.base
    decreases |steps|
  {
    hide Sound, HasRoom;
    if steps != [] {
      match steps[0] {
        case Memory(size) => MemorySound(h, size);
        case Payload(count) => PayloadSound(h, count);
      }
      RunSound(Take(h, steps[0]), steps[1..]);
    }
  }

  // ----- what that means for the addresses handed out

  function BytesOfExtent(h: State, e: Extent): Bytes {
    Bytes(PageAddress(h.base, e.first), PageAddress(h.base, e.first + e.count))
  }

  function BytesOfBlock(h: State, b: Block): Bytes
    requires b.pool < |h.pools| && h.pools[b.pool].pages.count > 0
  {
    var data := DataOf(h.base, h.pools[b.pool].pages);
    Bytes(data + BLOCK_SIZE * b.start, data + BLOCK_SIZE * (b.start + b.n))
  }

  ghost predicate ValidBlock(h: State, b: Block) {
    b.pool < |h.pools| && h.pools[b.pool].pages.count > 0
  }

  /** A block lies behind its pool's header and bitmap and inside the pool's pages. */
  ghost predicate InsidePool(h: State, b: Block)
    requires ValidBlock(h, b)
  {
    var pages := h.pools[b.pool].pages;
    var bytes := BytesOfBlock(h, b);
    && bytes.from >= PageAddress(h.base, pages.first) + POOL_HEADER + LayoutOf(PoolSpace(pages.count)).BitmapBytes()
    && bytes.to <= DataOf(h.base, pages) + BLOCK_SIZE * Capacity(pages.count) <= BytesOfExtent(h, pages).to
  }

  lemma BlocksInside(h: State, i: nat)
    requires Sound(h) && i < |h.blocks|
    ensures ValidBlock(h, h.blocks[i]) && InsidePool(h, h.blocks[i])
  {
    hide Capacity, LayoutOf, Apart;
    var pages := h.pools[h.blocks[i].pool].pages;
    CapacityFits(pages.count);
  }

  lemma CapacityFits(p: nat)
    requires p > 0
    ensures POOL_HEADER + LayoutOf(PoolSpace(p)).BitmapBytes() + BLOCK_SIZE * Capacity(p) <= p * PAGE_SIZE
  {
    PoolLayoutFits(p);
  }

  lemma ExtentsDisjoint(h: State, e: Extent, f: Extent)
    requires Apart(e, f)
    ensures Disjoint(BytesOfExtent(h, e), BytesOfExtent(h, f))
  {
  }

  lemma BlocksDisjoint(h: State, i: nat, j: nat)
    requires Sound(h) && i < j < |h.blocks|
    ensures ValidBlock(h, h.blocks[i]) && ValidBlock(h, h.blocks[j])
    ensures Disjoint(BytesOfBlock(h, h.blocks[i]), BytesOfBlock(h, h.blocks[j]))
  {
    hide Capacity, LayoutOf, DataOf;
    BlocksInside(h, i);
    BlocksInside(h, j);
    BlockInExtent(h, h.blocks[i]);
    BlockInExtent(h, h.blocks[j]);
  }

  lemma BlockInExtent(h: State, b: Block)
    requires ValidBlock(h, b) && InsidePool(h, b)
    ensures BytesOfExtent(h, h.pools[b.pool].pages).from <= BytesOfBlock(h, b).from
    ensures BytesOfBlock(h, b).to <= BytesOfExtent(h, h.pools[b.pool].pages).to
  {
  }

  /** Every piece of memory handed out: heap blocks, and payloads as whole pages. */
  ghost predicate NothingShared(h: State) {
    && (forall i {:trigger h.blocks[i]} :: 0 <= i < |h.blocks| ==>
          ValidBlock(h, h.blocks[i]) && InsidePool(h, h.blocks[i]))
    && (forall i, j {:trigger h.blocks[i], h.blocks[j]} :: 0 <= i < j < |h.blocks| ==>
          Disjoint(BytesOfBlock(h, h.blocks[i]), BytesOfBlock(h, h.blocks[j])))
    && (forall i, j {:trigger h.payloads[i], h.payloads[j]} :: 0 <= i < j < |h.payloads| ==>
          Disjoint(BytesOfExtent(h, h.payloads[i]), BytesOfExtent(h, h.payloads[j])))
    && (forall i, j {:trigger h.pools[i], h.pools[j]} :: 0 <= i < j < |h.pools| ==>
          Disjoint(BytesOfExtent(h, h.pools[i].pages), BytesOfExtent(h, h.pools[j].pages)))
    && (forall i, j {:trigger h.pools[i], h.payloads[j]} :: 0 <= i < |h.pools| && 0 <= j < |h.payloads| ==>
          Disjoint(BytesOfExtent(h, h.pools[i].pages), BytesOfExtent(h, h.payloads[j])))
  }

  lemma SoundShares(h: State)
    requires Sound(h)
    ensures NothingShared(h)
  {
    hide Capacity, LayoutOf, DataOf, InsidePool, BytesOfBlock, BytesOfExtent;
    forall i | 0 <= i < |h.blocks|
      ensures ValidBlock(h, h.blocks[i]) && InsidePool(h, h.blocks[i])
    {
      BlocksInside(h, i);
    }
    forall i, j | 0 <= i < j < |h.blocks|
      ensures Disjoint(BytesOfBlock(h, h.blocks[i]), BytesOfBlock(h, h.blocks[j]))
    {
      BlocksDisjoint(h, i, j);
    }
    forall e, f | Apart(e, f)
      ensures Disjoint(BytesOfExtent(h, e), BytesOfExtent(h, f))
    {
      ExtentsDisjoint(h, e, f);
    }
  }

  /** Over every run from the initial state, all memory handed out is disjoint, heap
      blocks stay clear of headers and bitmaps, and page zero stays occupied. */
  lemma EveryRunIsDisjoint(h: State, steps: seq<Step>)
    requires Initialized(h) && Possible(h, steps)
    ensures NothingShared(Run(h, steps))
    ensures |Run(h, steps).occupied| > 0 && Run(h, steps).occupied[0]
  {
    hide NothingShared, HasRoom, Possible;
    InitializedSound(h);
    RunSound(h, steps);
    SoundShares(Run(h, steps));
  }

  // ----- when an allocation fails

  /** Every pool has at most n blocks left. */
  predicate NoneLeft(h: State, n: nat) {
    forall i :: 0 <= i < |h.pools| ==> CapacityOf(h.pools[i].pages) - h.pools[i].used <= n
  }

  lemma {:induction false} FindPoolNone(pools: seq<Pool>, n: nat, i: nat)
    requires i <= |pools|
    ensures FindPool(pools, n, i) == |pools| <==>
            forall j :: i <= j < |pools| ==> CapacityOf(pools[j].pages) - pools[j].used <= n
    decreases |pools| - i
  {
    if i < |pools| {
      FindPoolNone(pools, n, i + 1);
    }
  }

  /** Null is returned for an empty request, and for one of more than 20352 bytes that
      no existing pool has more blocks left than. */
  lemma NullExactly(h: State, size: nat)
    requires Sound(h) && h.base > 0 && HasRoom(h, BlocksFor(size))
    ensures AllocateMemory(h, size).1 == 0 <==> size == 0 || (size > 20352 && NoneLeft(h, BlocksFor(size)))
  {
    hide Capacity, LayoutOf, Apart, BlocksFor, NewPoolPages;
    LocatedSound(h, BlocksFor(size));
    FoundPoolFits(h.pools, BlocksFor(size), 0);
    FindPoolNone(h.pools, BlocksFor(size), 0);
    BlocksHold(size);
    NewPoolServes(BlocksFor(size));
  }

  lemma {:induction false} FoundPoolFits(pools: seq<Pool>, n: nat, i: nat)
    requires i <= |pools|
    ensures var k := FindPool(pools, n, i);
            k < |pools| ==> pools[k].pages.count > 0 && pools[k].used + n < CapacityOf(pools[k].pages)
    decreases |pools| - i
  {
    if i < |pools| && !(CapacityOf(pools[i].pages) - pools[i].used > n) {
      FoundPoolFits(pools, n, i + 1);
    }
  }

  /** The pool made for a request has five pages and one for every 4096 blocks: it
      serves the request only up to 318 blocks. */
  lemma NewPoolServes(n: nat)
    ensures NewPoolPages(n) >= 5 && 4096 * (NewPoolPages(n) - 5) <= n < 4096 * (NewPoolPages(n) - 4)
    ensures n <= Capacity(NewPoolPages(n)) <==> n <= 318
  {
    hide LayoutOf, Capacity;
    PoolLayoutFits(NewPoolPages(n));
    CapacityValue(NewPoolPages(n));
  }

  lemma CapacityValue(p: nat)
    requires p > 0
    ensures Capacity(p) == 64 * p - 1 - ((8 * p - 1) / 64 + 1)
  {
    PoolLayoutFits(p);
  }
}
