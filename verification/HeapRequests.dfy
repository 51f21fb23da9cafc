/** What the callers of MmAllocateMemory and MmAllocatePayload (inuoskrnl/ga/base.c) may
    use: the bytes they asked for, from the address they got. */
module HeapRequests {
  import opened FirstFit
  import opened Ga
  import opened HeapRuns
  import opened Memory

  /** The bytes a caller asked for, if there is an address. */
  function Granted(pointer: nat, size: nat): seq<Bytes> {
    if pointer == 0 then [] else [Bytes(pointer, pointer + size)]
  }

  /** The bytes the requests of a run were granted, in order. */
  ghost function MemoryGranted(h: State, steps: seq<Step>): seq<Bytes>
    requires Possible(h, steps)
    decreases |steps|
  {
    if steps == [] then []
    else
      var step := steps[0];
      (if step.Memory? then Granted(AllocateMemory(h, step.size).1, step.size) else [])
      + MemoryGranted(Take(h, step), steps[1..])
  }

  /** The pages handed out in a run as their bytes, in order. */
  ghost function PayloadGranted(h: State, steps: seq<Step>): seq<Bytes>
    requires Possible(h, steps)
    decreases |steps|
  {
    if steps == [] then []
    else
      var step := steps[0];
      (if step.Payload? then Granted(AllocatePayload(h, step.count).1, 4096 * step.count) else [])
      + PayloadGranted(Take(h, step), steps[1..])
  }

  predicate Within(a: Bytes, b: Bytes) {
    b.from <= a.from && a.to <= b.to
  }

  /** What later steps never change: blocks, payloads and the place of every pool. */
  ghost predicate Keeps(h: State, h': State) {
    && h'.base == h.base && h.blocks <= h'.blocks && h.payloads <= h'.payloads && |h'.occupied| == |h.occupied|
    && |h.pools| <= |h'.pools| && forall i :: 0 <= i < |h.pools| ==> h'.pools[i].pages == h.pools[i].pages
  }

  /** What is granted to one request lies in one new block; without an address there is
      no new block. */
  lemma MemoryWithin(h: State, size: nat)
    requires Sound(h) && HasRoom(h, BlocksFor(size))
    ensures var (h', pointer) := AllocateMemory(h, size);
            && Keeps(h, h') && |h'.blocks| == |h.blocks| + |Granted(pointer, size)| && h'.payloads == h.payloads
            && (pointer != 0 ==>
                  var b := h'.blocks[|h.blocks|];
                  ValidBlock(h', b) && pointer == BytesOfBlock(h', b).from && pointer + size <= BytesOfBlock(h', b).to)
  {
    hide Capacity, LayoutOf, Apart, FindPool, BlocksFor, HasRun, PagesApart;
    LocatedSound(h, BlocksFor(size));
    BlocksHold(size);
  }

  lemma MemoryAnswered(h: State, size: nat)
    requires Sound(h) && HasRoom(h, BlocksFor(size))
    ensures var (h', pointer) := AllocateMemory(h, size);
            pointer != 0 ==>
              && |h'.blocks| == |h.blocks| + 1 && h'.blocks[..|h.blocks|] == h.blocks
              && InBlock(h', h'.blocks[|h.blocks|], Bytes(pointer, pointer + size))
  {
    hide Sound, HasRoom, AllocateMemory, BytesOfBlock;
    MemoryWithin(h, size);
  }

  lemma PayloadIs(h: State, count: nat)
    requires count > 0 && HasRun(h.occupied, count) && h.base > 0
    ensures var (h', pointer) := AllocatePayload(h, count);
            && Keeps(h, h') && |h'.payloads| == |h.payloads| + 1 && h'.blocks == h.blocks
            && Granted(pointer, 4096 * count) == [BytesOfExtent(h', h'.payloads[|h.payloads|])]
  {
    hide HasRun;
  }

  /** A block keeps its bytes in every later state. */
  lemma BytesKept(h: State, h': State, k: nat)
    requires Sound(h) && Keeps(h, h') && k < |h.blocks|
    ensures ValidBlock(h, h.blocks[k]) && ValidBlock(h', h'.blocks[k])
    ensures BytesOfBlock(h', h'.blocks[k]) == BytesOfBlock(h, h.blocks[k])
  {
    hide Capacity, LayoutOf, Apart, DataOf;
    BlocksInside(h, k);
  }

  ghost predicate InBlock(h: State, b: Block, bytes: Bytes) {
    ValidBlock(h, b) && Within(bytes, BytesOfBlock(h, b))
  }

  /** Over a run: each request's bytes lie in a block of their own, and each payload's
      are its pages. */
  ghost predicate Backed(h: State, end: State, memory: seq<Bytes>, payloads: seq<Bytes>) {
    && Keeps(h, end)
    && |end.blocks| == |h.blocks| + |memory| && |end.payloads| == |h.payloads| + |payloads|
    && (forall i {:trigger memory[i]} :: 0 <= i < |memory| ==> InBlock(end, end.blocks[|h.blocks| + i], memory[i]))
    && (forall i {:trigger payloads[i]} :: 0 <= i < |payloads| ==>
          payloads[i] == BytesOfExtent(end, end.payloads[|h.payloads| + i]))
  }

  lemma {:induction false} RunBacked(h: State, steps: seq<Step>)
    requires Sound(h) && h.base > 0 && Possible(h, steps)
    ensures Backed(h, Run(h, steps), MemoryGranted(h, steps), PayloadGranted(h, steps))
    decreases |steps|
  {
    hide Sound, HasRoom, AllocateMemory, AllocatePayload, Backed, Granted;
    if steps == [] {
      BackedNone(h);
    } else {
      var h', rest := Take(h, steps[0]), steps[1..];
      var end := Run(h', rest);
      match steps[0] {
        case Memory(size) =>
          MemorySound(h, size);
          RunSound(h', rest);
          MemoryWithin(h, size);
          RunBacked(h', rest);
          BackedMemory(h, size, end, MemoryGranted(h', rest), PayloadGranted(h', rest));
          assert PayloadGranted(h, steps) == PayloadGranted(h', rest);
        case Payload(count) =>
          PayloadSound(h, count);
          RunSound(h', rest);
          PayloadIs(h, count);
          RunBacked(h', rest);
          BackedPayload(h, count, end, MemoryGranted(h', rest), PayloadGranted(h', rest));
          assert MemoryGranted(h, steps) == MemoryGranted(h', rest);
      }
    }
  }

  lemma BackedNone(h: State)
    ensures Backed(h, h, [], [])
  {
  }

  lemma KeepsOn(h: State, h': State, end: State)
    requires Keeps(h, h') && Keeps(h', end)
    ensures Keeps(h, end)
  {
    forall i | 0 <= i < |h.pools|
      ensures end.pools[i].pages == h.pools[i].pages
    {
      assert h'.pools[i].pages == h.pools[i].pages;
    }
  }

  /** One request before the others. */
  lemma BackedMemory(h: State, size: nat, end: State, memory: seq<Bytes>, payloads: seq<Bytes>)
    requires Sound(h) && HasRoom(h, BlocksFor(size)) && Sound(AllocateMemory(h, size).0)
    requires Backed(AllocateMemory(h, size).0, end, memory, payloads)
    ensures Backed(h, end, Granted(AllocateMemory(h, size).1, size) + memory, payloads)
  {
    hide Sound, HasRoom, AllocateMemory, BytesOfBlock, BytesOfExtent, Keeps;
    MemoryWithin(h, size);
    var h' := AllocateMemory(h, size).0;
    KeepsOn(h, h', end);
    var granted := Granted(AllocateMemory(h, size).1, size);
    if |granted| > 0 {
      BytesKept(h', end, |h.blocks|);
    }
    forall i | 0 <= i < |granted + memory|
      ensures InBlock(end, end.blocks[|h.blocks| + i], (granted + memory)[i])
    {
      if i >= |granted| {
        assert (granted + memory)[i] == memory[i - |granted|];
      }
    }
  }

  lemma BackedPayload(h: State, count: nat, end: State, memory: seq<Bytes>, payloads: seq<Bytes>)
    requires count > 0 && HasRun(h.occupied, count) && h.base > 0
    requires Backed(AllocatePayload(h, count).0, end, memory, payloads)
    ensures Backed(h, end, memory, Granted(AllocatePayload(h, count).1, 4096 * count) + payloads)
  {
    hide HasRun, AllocatePayload, BytesOfBlock, BytesOfExtent, ValidBlock, Keeps;
    PayloadIs(h, count);
    KeepsOn(h, AllocatePayload(h, count).0, end);
    PayloadKept(AllocatePayload(h, count).0, end, |h.payloads|);
    var granted := Granted(AllocatePayload(h, count).1, 4096 * count);
    forall i | 0 <= i < |granted + payloads|
      ensures (granted + payloads)[i] == BytesOfExtent(end, end.payloads[|h.payloads| + i])
    {
      if i >= 1 {
        assert (granted + payloads)[i] == payloads[i - 1];
      }
    }
  }

  lemma PayloadKept(h: State, end: State, k: nat)
    requires Keeps(h, end) && k < |h.payloads|
    ensures BytesOfExtent(end, end.payloads[k]) == BytesOfExtent(h, h.payloads[k])
  {
  }

  // ----- no two callers share a byte

  /** All bytes granted are apart, and in the memory behind page zero. */
  ghost predicate GrantedApart(base: nat, pages: nat, memory: seq<Bytes>, payloads: seq<Bytes>) {
    && (forall i, j {:trigger memory[i], memory[j]} :: 0 <= i < j < |memory| ==> Disjoint(memory[i], memory[j]))
    && (forall i, j {:trigger payloads[i], payloads[j]} :: 0 <= i < j < |payloads| ==>
          Disjoint(payloads[i], payloads[j]))
    && (forall i, j {:trigger memory[i], payloads[j]} :: 0 <= i < |memory| && 0 <= j < |payloads| ==>
          Disjoint(memory[i], payloads[j]))
    && (forall i {:trigger memory[i]} :: 0 <= i < |memory| ==>
          base + 4096 <= memory[i].from && memory[i].to <= base + 4096 * pages)
    && (forall i {:trigger payloads[i]} :: 0 <= i < |payloads| ==>
          base + 4096 <= payloads[i].from && payloads[i].to <= base + 4096 * pages)
  }

  lemma ExtentInMemory(h: State, e: Extent)
    requires Owned(h.occupied, e)
    ensures h.base + 4096 <= BytesOfExtent(h, e).from && BytesOfExtent(h, e).to <= h.base + 4096 * |h.occupied|
  {
  }

  lemma BlockInMemory(h: State, k: nat)
    requires Sound(h) && k < |h.blocks|
    ensures ValidBlock(h, h.blocks[k])
    ensures Within(BytesOfBlock(h, h.blocks[k]), BytesOfExtent(h, h.pools[h.blocks[k].pool].pages))
    ensures h.base + 4096 <= BytesOfBlock(h, h.blocks[k]).from
    ensures BytesOfBlock(h, h.blocks[k]).to <= h.base + 4096 * |h.occupied|
  {
    hide Capacity, LayoutOf, DataOf, BytesOfBlock, BytesOfExtent, InsidePool, Owned;
    BlocksInside(h, k);
    BlockInExtent(h, h.blocks[k]);
    ExtentInMemory(h, h.pools[h.blocks[k].pool].pages);
  }

  lemma BackedApart(h: State, end: State, memory: seq<Bytes>, payloads: seq<Bytes>)
    requires Sound(end) && Backed(h, end, memory, payloads)
    ensures GrantedApart(end.base, |end.occupied|, memory, payloads)
  {
    hide Capacity, LayoutOf, DataOf, BytesOfBlock, BytesOfExtent, InsidePool, Owned, BlocksInOrder, Apart;
    SoundShares(end);
    forall i | 0 <= i < |memory|
      ensures var b := end.blocks[|h.blocks| + i];
              && ValidBlock(end, b) && Within(memory[i], BytesOfBlock(end, b))
              && Within(memory[i], BytesOfExtent(end, end.pools[b.pool].pages))
      ensures end.base + 4096 <= memory[i].from && memory[i].to <= end.base + 4096 * |end.occupied|
    {
      BlockInMemory(end, |h.blocks| + i);
    }
    forall i | 0 <= i < |payloads|
      ensures end.base + 4096 <= payloads[i].from && payloads[i].to <= end.base + 4096 * |end.occupied|
    {
      ExtentInMemory(end, end.payloads[|h.payloads| + i]);
    }
  }

  /** Over every run from initialization, no two callers were granted a common byte, and
      all bytes granted lie in the memory behind page zero. */
  lemma EveryCallerApart(h: State, steps: seq<Step>)
    requires Initialized(h) && Possible(h, steps)
    ensures GrantedApart(h.base, |h.occupied|, MemoryGranted(h, steps), PayloadGranted(h, steps))
  {
    hide GrantedApart, HasRoom, Possible, HasRun;
    InitializedSound(h);
    RunSound(h, steps);
    RunBacked(h, steps);
    BackedApart(h, Run(h, steps), MemoryGranted(h, steps), PayloadGranted(h, steps));
  }

  /** The first two requests after initialization: the first pool's header and bitmap
      take 28 and 128 bytes, and 100 bytes take two blocks of 64. */
  lemma FirstRequests(h: State)
    requires Initialized(h)
    ensures |h.pools| == 1 && h.pools[0].pages.count == 10 && HasRoom(h, BlocksFor(100))
    ensures var (h', pointer) := AllocateMemory(h, 100);
            && pointer == h.base + 4096 * h.pools[0].pages.first + 28 + 128
            && HasRoom(h', BlocksFor(1)) && AllocateMemory(h', 1).1 == pointer + 128
  {
    hide HasRun, MarkRun, FirstRun;
    assert LayoutOf(PoolSpace(10)) == BlockLayout(637, 2);
  }
}
