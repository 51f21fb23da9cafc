/** VmInitialize (inuoskrnl/pvm/base.c): the kernel's own map, loaded natively. */
module KernelMap {
  import Arith
  import opened Bits
  import opened BootTables
  import opened PageTables
  import opened Permissions
  import opened Spaces
  import opened NativePaging
  import opened NativeEntries
  import opened Hal
  import opened Wrappers

  const KERNEL_ATTRIBUTES: Attributes := Attributes(true, true, false, false, true, false)
  const HALF: nat := 0x8_0000

  function KernelEntry(page: nat): Entry
    requires page < PAGES
  {
    Entry(FlipTop(page * PF_GRANULARITY), KERNEL_ATTRIBUTES)
  }

  ghost predicate InLoop(page: nat, low: nat, high: nat) {
    page < low || HALF <= page < HALF + high
  }

  ghost predicate KernelPages(mapped: Mapping, low: nat, high: nat) {
    && (forall page :: page in mapped <==> InLoop(page, low, high))
    && (forall page :: page in mapped ==> page < PAGES && mapped[page] == KernelEntry(page))
  }

  lemma KernelPagesStep(mapped: Mapping, low: nat, high: nat, low': nat, high': nat, vaddr: U32)
    requires KernelPages(mapped, low, high) && low' <= HALF && high' <= HALF && vaddr % PF_GRANULARITY == 0
    requires forall page: nat :: InLoop(page, low', high') <==>
          InLoop(page, low, high) || page == vaddr / PF_GRANULARITY
    ensures KernelPages(mapped[vaddr / PF_GRANULARITY := Entry(FlipTop(vaddr), KERNEL_ATTRIBUTES)], low', high')
    ensures mapped.Keys <= Below(PAGES) && vaddr / PF_GRANULARITY in Below(PAGES)
  {
    hide FlipTop;
    assert vaddr / PF_GRANULARITY * PF_GRANULARITY == vaddr;
  }

  /** The lower and upper pages mapped so far, each to the frame half a space away. */
  ghost predicate KernelMapped(d: Description, low: nat, high: nat, total: nat)
    reads d
  {
    && low <= HALF && high <= HALF
    && d.Valid()
    && KernelPages(d.mapped, low, high)
    && d.at.Keys == Needed(d.mapped.Keys)
    && |d.at| + |d.free| == total
  }

  method MapKernelPage(d: Description, paddr: U32, vaddr: U32, ghost low: nat, ghost high: nat, ghost low': nat,
      ghost high': nat, ghost total: nat)
    requires KernelMapped(d, low, high, total) && total >= 2055
    requires vaddr % PF_GRANULARITY == 0 && paddr == FlipTop(vaddr) && low' <= HALF && high' <= HALF
    requires forall page: nat :: InLoop(page, low', high') <==>
          InLoop(page, low, high) || page == vaddr / PF_GRANULARITY
    modifies d`free, d`pages, d`at, d`mapped, d`recent
    ensures KernelMapped(d, low', high', total)
  {
    hide Linked, Permits, Supply, Needed, Missing, PathFrom, Prefix, FlipTop, KernelPages;
    ghost var page := vaddr / PF_GRANULARITY;
    KernelPagesStep(d.mapped, low, high, low', high', vaddr);
    FullMapTables();
    SupplySuffices(d.at, d.mapped.Keys, page, Below(PAGES), |d.free|);
    NeededAfter(d.mapped.Keys, page);
    d.Map(paddr, vaddr, KERNEL_ATTRIBUTES);
    assert d.mapped.Keys == old(d.mapped.Keys) + {page};
  }

  /** The two loops of VmInitialize. */
  method MapKernel(d: Description)
    requires d.Valid() && d.mapped == map[] && d.at.Keys == {ROOT} && |d.free| >= 2054
    modifies d`free, d`pages, d`at, d`mapped, d`recent
    ensures KernelMapped(d, HALF, HALF, old(|d.free|) + 1)
  {
    hide KernelMapped;
    ghost var total := |d.free| + 1;
    KernelMappedStart(d, total);
    var loadTarget: U32 := 0x8000_0000;
    var progress: U32 := 0;
    for i := 0 to 524288
      invariant KernelMapped(d, 0, i, total)
      invariant loadTarget == (0x8000_0000 + i * PF_GRANULARITY) % WORD32 && progress == i * PF_GRANULARITY
    {
      MapKernelPage(d, progress, loadTarget, 0, i, 0, i + 1, total);
      loadTarget := (loadTarget + PF_GRANULARITY) % WORD32;
      progress := progress + PF_GRANULARITY;
    }
    loadTarget := 0x8000_0000;
    progress := 0;
    for i := 0 to 524288
      invariant KernelMapped(d, i, HALF, total)
      invariant loadTarget == (0x8000_0000 + i * PF_GRANULARITY) % WORD32 && progress == i * PF_GRANULARITY
    {
      MapKernelPage(d, loadTarget, progress, i, HALF, i + 1, HALF, total);
      loadTarget := (loadTarget + PF_GRANULARITY) % WORD32;
      progress := progress + PF_GRANULARITY;
    }
  }

  lemma KernelMappedStart(d: Description, total: nat)
    requires d.Valid() && d.mapped == map[] && d.at.Keys == {ROOT} && 1 + |d.free| == total
    ensures KernelMapped(d, 0, 0, total)
  {
    hide Linked, Permits, Supply;
    NeededNone();
    assert |d.at.Keys| == 1;
    assert d.mapped.Keys == {};
  }

  lemma {:induction false} AllPairs(at: Layout, i: nat, n: nat)
    requires forall k: nat :: k < n ==> NonEmpty(at, i, k)
    ensures |Pairs(at, i, n)| == n
  {
    if n > 0 {
      AllPairs(at, i, n - 1);
    }
  }

  lemma FullPage(page: nat)
    requires page < PAGES
    ensures page in Below(PAGES)
  {
  }

  lemma FullPair(at: Layout, i: nat, k: nat)
    requires at.Keys == Needed(Below(PAGES)) && i < 4 && k < 256
    ensures NonEmpty(at, i, k)
  {
    hide Prefix, Below;
    var table := i * COUNT + 2 * k;
    var page := table * COUNT;
    FullPage(page);
    Paths32(page);
    assert page / COUNT == table;
    assert PathSlot(4, page) in OnPaths(4, Below(PAGES));
  }

  /** A full map needs a page table for every pair. */
  lemma FullLayout(at: Layout)
    requires at.Keys == Needed(Below(PAGES))
    ensures PrefixForm(at) && PairTotal(at) == 1024
  {
    hide NonEmpty, Needed, Pairs;
    forall i: nat, k: nat | i < 4 && k < 256
      ensures NonEmpty(at, i, k)
    {
      FullPair(at, i, k);
    }
    AllPairs(at, 0, 256);
    AllPairs(at, 1, 256);
    AllPairs(at, 2, 256);
    AllPairs(at, 3, 256);
    PairTotalStep(at, 0);
    PairTotalStep(at, 1);
    PairTotalStep(at, 2);
    PairTotalStep(at, 3);
  }

  /** What the finished loops leave behind. */
  lemma KernelLayout(d: Description, total: nat)
    requires KernelMapped(d, HALF, HALF, total)
    ensures d.Valid() && d.mapped.Keys == Below(PAGES) && d.mapped != map[]
    ensures forall page: nat :: page < PAGES ==> page in d.mapped && d.mapped[page] == KernelEntry(page)
    ensures PrefixForm(d.at) && PairTotal(d.at) == 1024
    ensures d.at.Keys == Needed(d.mapped.Keys) && |d.at| == 2055 && |d.free| == total - 2055
  {
    hide Linked, Permits, Supply, Needed, PrefixForm, PairTotal, KernelEntry;
    assert d.mapped.Keys == Below(PAGES);
    FullMapTables();
    FullLayout(d.at);
    assert 0 in d.mapped;
    assert |d.at| == |d.at.Keys|;
  }

  ghost predicate FlipsEverywhere(native: NativeMap, loadOffset: U32, cr3: U32) {
    forall vaddr: U32 :: NativeWalk(native, loadOffset, cr3, vaddr) == Some(FlipTop(vaddr))
  }

  lemma FaithfulFlips(native: NativeMap, loadOffset: U32, cr3: U32, mapped: Mapping)
    requires Faithful(native, loadOffset, cr3, mapped)
    requires forall page: nat :: page < PAGES ==> page in mapped && mapped[page] == KernelEntry(page)
    ensures FlipsEverywhere(native, loadOffset, cr3)
  {
    hide NativeWalk;
    forall vaddr: U32
      ensures NativeWalk(native, loadOffset, cr3, vaddr) == Some(FlipTop(vaddr))
    {
      assert vaddr / PF_GRANULARITY in mapped;
    }
  }

  lemma KernelFaithful(native: NativeMap, loadOffset: U32, cr3: U32, at: Layout, mapped: Mapping)
    requires Flattened(native, loadOffset, cr3, at, mapped) && Closed(at, mapped)
    requires mapped.Keys == Below(PAGES) && at.Keys == Needed(mapped.Keys) && PrefixForm(at)
    requires forall page: nat :: page < PAGES ==> page in mapped && mapped[page] == KernelEntry(page)
    ensures FlipsEverywhere(native, loadOffset, cr3)
  {
    hide Flattened, Closed, Needed, PrefixForm, Faithful, FlipsEverywhere;
    FaithfulExactly(native, loadOffset, cr3, at, mapped);
    FaithfulFlips(native, loadOffset, cr3, mapped);
  }

  /** Every page's native entry: the frame asked for, but never the write-through
      attribute the kernel asks for with it. */
  ghost predicate PlainEverywhere(native: NativeMap, loadOffset: U32, cr3: U32) {
    forall vaddr: U32 ::
      NativeEntry(native, loadOffset, cr3, vaddr)
        == Some(Entry(FlipTop(vaddr / 4096 * 4096), Attributes(true, true, false, false, false, false)))
  }

  lemma KernelEntries(native: NativeMap, loadOffset: U32, cr3: U32, at: Layout, mapped: Mapping)
    requires Flattened(native, loadOffset, cr3, at, mapped) && Closed(at, mapped) && PrefixForm(at)
    requires forall page: nat :: page < PAGES ==> page in mapped && mapped[page] == KernelEntry(page)
    ensures PlainEverywhere(native, loadOffset, cr3)
    ensures forall vaddr: U32 :: NativeEntry(native, loadOffset, cr3, vaddr) != Asked(mapped, vaddr / 4096)
  {
    hide Flattened, PrefixForm, NativeEntry, AttributesOf, FrameOf, Marked, FlipTop;
    forall vaddr: U32
      ensures NativeEntry(native, loadOffset, cr3, vaddr) == Some(Entry(FlipTop(vaddr / 4096 * 4096), PLAIN))
      ensures NativeEntry(native, loadOffset, cr3, vaddr) != Asked(mapped, vaddr / 4096)
    {
      var page := vaddr / 4096;
      EntryOfPrefix(native, loadOffset, cr3, at, mapped, vaddr);
      assert page in mapped && LeafSlot(page) in at;
      FlipAligned(page);
      WordExactly(FlipTop(page * 4096), PLAIN);
    }
  }

  lemma FlipAligned(page: nat)
    requires page < PAGES
    ensures FlipTop(page * 4096) % 4096 == 0
  {
    Arith.DivUnique(FlipTop(page * 4096), 4096, if page < HALF then page + HALF else page - HALF, 0);
  }

  /** The addresses the kernel itself has for the directory and for every page table
      lead the processor to where it reads them. */
  ghost predicate SelfMapped(native: NativeMap, loadOffset: U32, cr3: U32, global: U32)
    requires global in native
  {
    && NativeWalk(native, loadOffset, cr3, global) == Some(cr3)
    && forall j {:trigger native[global][j]} :: 0 <= j < |native[global]| && native[global][j] > 2 ==>
         NativeWalk(native, loadOffset, cr3, (native[global][j] - 3 + loadOffset) % WORD32)
           == Some(native[global][j] - 3)
  }

  /** They do exactly for the offset the kernel is loaded with. */
  lemma SelfMappedExactly(native: NativeMap, loadOffset: U32, cr3: U32, global: U32)
    requires FlipsEverywhere(native, loadOffset, cr3) && global in native
    requires (cr3 + loadOffset) % WORD32 == global
    ensures SelfMapped(native, loadOffset, cr3, global) <==> loadOffset == 0x8000_0000
  {
    hide NativeWalk;
    assert NativeWalk(native, loadOffset, cr3, global) == Some(FlipTop(global));
    OffsetFlips(cr3, loadOffset);
    if loadOffset == 0x8000_0000 {
      forall j | 0 <= j < |native[global]| && native[global][j] > 2
        ensures var p := native[global][j] - 3;
                NativeWalk(native, loadOffset, cr3, (p + loadOffset) % WORD32) == Some(p)
      {
        OffsetFlips(native[global][j] - 3, loadOffset);
      }
    }
  }

  lemma OffsetFlips(a: U32, loadOffset: U32)
    ensures FlipTop((a + loadOffset) % WORD32) == a <==> loadOffset == 0x8000_0000
  {
  }

  /** VmInitialize: afterwards the processor sends every address to itself with the
      top bit inverted. 2054 tables below the root and 1024 native page tables, one
      root and one directory have been allocated. */
  method Initialize(supply: seq<U32>, loadOffset: U32) returns (d: Description, cr3: U32)
    requires Supply(supply, {}) && |supply| >= 3080 && loadOffset % 4096 == 0
    ensures fresh(d) && d.Valid() && d.modified
    ensures FlipsEverywhere(d.native, loadOffset, cr3) && PlainEverywhere(d.native, loadOffset, cr3)
    ensures forall vaddr: U32 ::
      Walk(d.pages, d.gpde, vaddr)
        == Entry(FlipTop(vaddr / 4096 * 4096), Attributes(true, true, false, false, true, false))
    ensures |supply| - |d.free| == 1 + 2054 + 1024 + 1
    ensures (cr3 + loadOffset) % WORD32 == d.global && TablesReached(d.native, loadOffset, d.global)
    ensures SelfMapped(d.native, loadOffset, cr3, d.global) <==> loadOffset == 0x8000_0000
  {
    hide Linked, Permits, Supply, KernelMapped, Needed, Flattened, PairTotal, PrefixForm, Walk, FlipsEverywhere,
      PlainEverywhere, NativeEntry, KernelEntry, SelfMapped, TablesReached;
    d := new Description(supply);
    MapKernel(d);
    KernelLayout(d, |supply|);
    KernelWalks(d);
    d.modified := true;
    ClosedOf(d.pages, d.at, d.mapped);
    cr3 := SetDescription(d, loadOffset);
    KernelFaithful(d.native, loadOffset, cr3, d.at, d.mapped);
    KernelEntries(d.native, loadOffset, cr3, d.at, d.mapped);
    DirectoryIn(d.native, loadOffset, d.global);
    SelfMappedExactly(d.native, loadOffset, cr3, d.global);
  }

  lemma DirectoryIn(native: NativeMap, loadOffset: U32, global: U32)
    requires TablesReached(native, loadOffset, global)
    ensures global in native
  {
  }

  lemma KernelWalks(d: Description)
    requires d.Valid() && forall page: nat :: page < PAGES ==> page in d.mapped && d.mapped[page] == KernelEntry(page)
    ensures forall vaddr: U32 :: Walk(d.pages, d.gpde, vaddr) == Entry(FlipTop(vaddr / 4096 * 4096), KERNEL_ATTRIBUTES)
  {
    hide Linked, Permits, Supply, Walk, FlipTop;
    forall vaddr: U32
      ensures Walk(d.pages, d.gpde, vaddr) == Entry(FlipTop(vaddr / 4096 * 4096), KERNEL_ATTRIBUTES)
    {
      RootOnPath(d.pages, d.at, d.mapped, 0);
      WalkFinds(d.pages, d.at, d.mapped, vaddr);
    }
  }

  // ----- the kernel's map against the simpler boot maps

  /** The map is its own inverse, hence one-to-one and onto. */
  lemma FlipInvolution(native: NativeMap, loadOffset: U32, cr3: U32, vaddr: U32)
    requires FlipsEverywhere(native, loadOffset, cr3)
    ensures var p := NativeWalk(native, loadOffset, cr3, vaddr);
            p.Some? && p.value < WORD32 && NativeWalk(native, loadOffset, cr3, p.value) == Some(vaddr)
  {
    hide NativeWalk;
    assert NativeWalk(native, loadOffset, cr3, vaddr) == Some(FlipTop(vaddr));
    assert NativeWalk(native, loadOffset, cr3, FlipTop(vaddr)) == Some(FlipTop(FlipTop(vaddr)));
  }

  /** Switching from the boot directory changes no translation, and from the loader's
      directory none of the upper half and all of the lower half. */
  lemma KernelMapAgrees(native: NativeMap, loadOffset: U32, cr3: U32, kernel: Words, loader: Words, vaddr: U32)
    requires FlipsEverywhere(native, loadOffset, cr3) && Remapped(kernel) && LowHalfTwice(loader)
    ensures NativeWalk(native, loadOffset, cr3, vaddr) == WalkDirectory(kernel, native, loadOffset, vaddr)
    ensures NativeWalk(native, loadOffset, cr3, vaddr) == WalkDirectory(loader, native, loadOffset, vaddr)
            <==> vaddr >= 0x8000_0000
  {
    hide NativeWalk, WalkDirectory, Remapped, LowHalfTwice;
    RemapFlips(kernel, native, loadOffset, vaddr);
    BootTablesAgree(kernel, loader, native, loadOffset, vaddr);
  }
}
