/** Whole runs: map calls on a fresh description (inuoskrnl/pvm/base.c), loaded with
    HalSetDescription (inuhal/arch/IA32/hal.c), and when the processor then finds what
    the calls asked for. The conditions speak of the calls alone. */
module LoadedRuns {
  import opened Bits
  import opened PageTables
  import opened Permissions
  import opened Spaces
  import opened NativePaging
  import opened NativeEntries
  import opened Hal
  import opened Wrappers

  // ----- conditions on the pages called for

  /** Some page lies in the 4 MiB region of a native page table. */
  ghost predicate HasPage(pages: set<nat>, pair: nat) {
    exists page :: page in pages && page / ENTRIES == pair
  }

  /** The k-th such region of a 1 GiB slot. */
  ghost predicate HasPair(pages: set<nat>, i: nat, k: nat) {
    HasPage(pages, i * 256 + k)
  }

  /** In every 1 GiB slot the regions with pages come before those without. */
  ghost predicate PrefixPages(pages: set<nat>) {
    forall i: nat, k: nat, k': nat :: i < 4 && k < k' < 256 && HasPair(pages, i, k') ==> HasPair(pages, i, k)
  }

  /** Every 2 MiB region with one page has all of its pages. */
  ghost predicate FullRegions(pages: set<nat>) {
    forall page: nat, q: nat {:trigger LeafSlot(page), LeafSlot(q)} ::
      page in pages && LeafSlot(q) == LeafSlot(page) ==> q in pages
  }

  /** Regions with pages among the first n. */
  ghost function RegionCount(pages: set<nat>, n: nat): nat {
    if n == 0 then 0 else RegionCount(pages, n - 1) + (if HasPage(pages, n - 1) then 1 else 0)
  }

  lemma LeafPresent(at: Layout, pages: set<nat>, page: nat)
    requires at.Keys == Needed(pages)
    ensures LeafSlot(page) in at <==> exists q :: q in pages && LeafSlot(q) == LeafSlot(page)
  {
    hide Prefix;
    if LeafSlot(page) in at {
      assert LeafSlot(page) in OnPaths(4, pages);
      var q :| q in pages && PathSlot(4, q) == LeafSlot(page);
      LastIndex(q);
    }
    if q :| q in pages && LeafSlot(q) == LeafSlot(page) {
      LastIndex(q);
      assert PathSlot(4, q) in OnPaths(4, pages);
    }
  }

  lemma PairPresent(at: Layout, mapped: Mapping, i: nat, k: nat)
    requires at.Keys == Needed(mapped.Keys)
    ensures NonEmpty(at, i, k) <==> HasPair(mapped.Keys, i, k)
  {
    hide Needed;
    if NonEmpty(at, i, k) {
      var page := PairHasPage(at, mapped, i, k);
    }
    if page :| page in mapped.Keys && page / ENTRIES == i * 256 + k {
      LeafPresent(at, mapped.Keys, page);
      assert LeafSlot(page) == PairSlot(i, k, page % ENTRIES / COUNT);
    }
  }

  lemma PrefixByPages(at: Layout, mapped: Mapping)
    requires at.Keys == Needed(mapped.Keys)
    ensures PrefixForm(at) <==> PrefixPages(mapped.Keys)
  {
    hide Needed, NonEmpty, HasPair;
    forall i: nat, k: nat
      ensures NonEmpty(at, i, k) <==> HasPair(mapped.Keys, i, k)
    {
      PairPresent(at, mapped, i, k);
    }
  }

  lemma RegionBounds(page: nat, q: nat)
    requires page < PAGES && LeafSlot(q) == LeafSlot(page)
    ensures q < PAGES
  {
  }

  lemma FullByPages(at: Layout, mapped: Mapping)
    requires at.Keys == Needed(mapped.Keys) && mapped.Keys <= Below(PAGES)
    ensures FullTables(at, mapped) <==> FullRegions(mapped.Keys)
  {
    hide Needed, LeafSlot;
    if FullTables(at, mapped) {
      forall page: nat, q: nat | page in mapped.Keys && LeafSlot(q) == LeafSlot(page)
        ensures q in mapped
      {
        assert page in Below(PAGES);
        RegionBounds(page, q);
        LeafPresent(at, mapped.Keys, q);
      }
    }
    if FullRegions(mapped.Keys) {
      forall page: nat | page < PAGES && LeafSlot(page) in at
        ensures page in mapped
      {
        LeafPresent(at, mapped.Keys, page);
        var q :| q in mapped.Keys && LeafSlot(q) == LeafSlot(page);
      }
    }
  }

  /** One page table per region that has pages. */
  lemma {:induction false} RegionsPacked(at: Layout, mapped: Mapping, i: nat, n: nat)
    requires at.Keys == Needed(mapped.Keys) && n <= 256
    ensures RegionCount(mapped.Keys, i * 256 + n) == PairTotalBelow(at, i) + |Pairs(at, i, n)|
    decreases i, n
  {
    hide Needed, NonEmpty, HasPage;
    if n > 0 {
      RegionsPacked(at, mapped, i, n - 1);
      PairPresent(at, mapped, i, n - 1);
    } else if i > 0 {
      RegionsPacked(at, mapped, i - 1, 256);
    }
  }

  lemma RegionsTotal(at: Layout, mapped: Mapping)
    requires at.Keys == Needed(mapped.Keys)
    ensures RegionCount(mapped.Keys, 1024) == PairTotal(at)
  {
    hide Needed, Pairs, RegionCount;
    RegionsPacked(at, mapped, 3, 256);
    PairTotalStep(at, 3);
  }

  // ----- the runs

  /** The entry a run of calls asks for. */
  ghost function AskedBy(calls: seq<Call>, page: nat): Option<Entry> {
    if page in PagesOf(calls) && LastCall(calls, page).attributes.present then Some(LastCall(calls, page)) else None
  }

  ghost predicate FramesAligned(calls: seq<Call>) {
    forall page :: page in PagesOf(calls) ==> LastCall(calls, page).address % PF_GRANULARITY == 0
  }

  ghost predicate CallsPlain(calls: seq<Call>) {
    forall page :: page in PagesOf(calls) ==>
      LastCall(calls, page).attributes == Attributes(true, true, false, false, false, false)
  }

  /** The processor sends every page called for to the frame of its last call. */
  ghost predicate Served(native: NativeMap, loadOffset: U32, cr3: U32, calls: seq<Call>) {
    forall vaddr: U32 :: vaddr / PF_GRANULARITY in PagesOf(calls) ==>
      NativeWalk(native, loadOffset, cr3, vaddr)
        == Some(LastCall(calls, vaddr / PF_GRANULARITY).address + vaddr % PF_GRANULARITY)
  }

  /** The processor finds what was asked for at every address, and nothing else. */
  ghost predicate Obeyed(native: NativeMap, loadOffset: U32, cr3: U32, calls: seq<Call>) {
    forall vaddr: U32 :: NativeEntry(native, loadOffset, cr3, vaddr) == AskedBy(calls, vaddr / PF_GRANULARITY)
  }

  lemma RunExactly(native: NativeMap, loadOffset: U32, cr3: U32, at: Layout, mapped: Mapping, calls: seq<Call>)
    requires Flattened(native, loadOffset, cr3, at, mapped) && Closed(at, mapped)
    requires at.Keys == Needed(mapped.Keys) && mapped.Keys == PagesOf(calls) <= Below(PAGES) && Recorded(mapped, calls)
    ensures Served(native, loadOffset, cr3, calls) <==> PrefixPages(PagesOf(calls)) && FramesAligned(calls)
    ensures Obeyed(native, loadOffset, cr3, calls) <==>
            PrefixPages(PagesOf(calls)) && FullRegions(PagesOf(calls)) && FramesAligned(calls) && CallsPlain(calls)
  {
    hide Flattened, Closed, Needed, PagesOf, Recorded, PrefixForm, FullTables, PrefixPages, FullRegions, Below,
      Faithful, Served, Equivalent, Obeyed, Aligned, FramesAligned, AllPlain, CallsPlain;
    FaithfulExactly(native, loadOffset, cr3, at, mapped);
    EquivalentExactly(native, loadOffset, cr3, at, mapped);
    PrefixByPages(at, mapped);
    FullByPages(at, mapped);
    RecordedConditions(mapped, calls);
    RecordedServed(native, loadOffset, cr3, mapped, calls);
    RecordedObeyed(native, loadOffset, cr3, mapped, calls);
  }

  lemma RecordedEntry(mapped: Mapping, calls: seq<Call>, page: nat)
    requires mapped.Keys == PagesOf(calls) && Recorded(mapped, calls)
    ensures page in mapped <==> page in PagesOf(calls)
    ensures page in mapped ==> mapped[page] == LastCall(calls, page)
  {
    hide PagesOf, LastCall;
    assert LeafOf(mapped, page) == LastCall(calls, page);
  }

  lemma RecordedConditions(mapped: Mapping, calls: seq<Call>)
    requires mapped.Keys == PagesOf(calls) && Recorded(mapped, calls)
    ensures Aligned(mapped) <==> FramesAligned(calls)
    ensures AllPlain(mapped) <==> CallsPlain(calls)
  {
    hide PagesOf, LastCall, Recorded;
    forall page: nat {
      RecordedEntry(mapped, calls, page);
    }
  }

  lemma RecordedServed(native: NativeMap, loadOffset: U32, cr3: U32, mapped: Mapping, calls: seq<Call>)
    requires mapped.Keys == PagesOf(calls) && Recorded(mapped, calls)
    ensures Faithful(native, loadOffset, cr3, mapped) <==> Served(native, loadOffset, cr3, calls)
  {
    hide PagesOf, LastCall, Recorded, NativeWalk;
    forall page: nat {
      RecordedEntry(mapped, calls, page);
    }
  }

  lemma RecordedObeyed(native: NativeMap, loadOffset: U32, cr3: U32, mapped: Mapping, calls: seq<Call>)
    requires mapped.Keys == PagesOf(calls) && Recorded(mapped, calls)
    ensures Equivalent(native, loadOffset, cr3, mapped) <==> Obeyed(native, loadOffset, cr3, calls)
  {
    hide PagesOf, LastCall, Recorded, NativeEntry;
    forall page: nat
      ensures Asked(mapped, page) == AskedBy(calls, page)
    {
      RecordedEntry(mapped, calls, page);
    }
  }

  /** What a description was called for, loaded. */
  method Load(d: Description, calls: seq<Call>, loadOffset: U32) returns (cr3: U32)
    requires d.Valid() && d.mapped.Keys == PagesOf(calls) != {} && Recorded(d.mapped, calls)
    requires d.at.Keys == Needed(PagesOf(calls)) && PagesOf(calls) <= Below(PAGES)
    requires |d.free| >= RegionCount(PagesOf(calls), 1024) + 1 && loadOffset % 4096 == 0
    modifies d`free, d`native, d`global, d`modified
    ensures Served(d.native, loadOffset, cr3, calls) <==> PrefixPages(PagesOf(calls)) && FramesAligned(calls)
    ensures Obeyed(d.native, loadOffset, cr3, calls) <==>
            PrefixPages(PagesOf(calls)) && FullRegions(PagesOf(calls)) && FramesAligned(calls) && CallsPlain(calls)
    ensures old(|d.free|) - |d.free| == RegionCount(PagesOf(calls), 1024) + 1
  {
    hide Linked, Permits, Supply, PagesOf, Needed, Flattened, Served, Obeyed, PrefixPages, FullRegions, FramesAligned,
      CallsPlain, RegionCount, PairTotal, Recorded, Below;
    RegionsTotal(d.at, d.mapped);
    d.modified := true;
    ClosedOf(d.pages, d.at, d.mapped);
    cr3 := SetDescription(d, loadOffset);
    RunExactly(d.native, loadOffset, cr3, d.at, d.mapped, calls);
  }

  /** Any run of map calls on a fresh description, then loaded: which frames the
      processor reaches, and which entries it finds. */
  method LoadRun(calls: seq<Call>, supply: seq<U32>, loadOffset: U32) returns (d: Description, cr3: U32)
    requires calls != [] && Supply(supply, {}) && loadOffset % 4096 == 0
    requires |supply| >= |Needed(PagesOf(calls))| + RegionCount(PagesOf(calls), 1024) + 1
    ensures Served(d.native, loadOffset, cr3, calls) <==> PrefixPages(PagesOf(calls)) && FramesAligned(calls)
    ensures Obeyed(d.native, loadOffset, cr3, calls) <==>
            PrefixPages(PagesOf(calls)) && FullRegions(PagesOf(calls)) && FramesAligned(calls) && CallsPlain(calls)
    ensures |supply| - |d.free| == |Needed(PagesOf(calls))| + RegionCount(PagesOf(calls), 1024) + 1
  {
    hide Linked, Permits, Supply, PagesOf, Needed, Served, Obeyed, PrefixPages, FullRegions, FramesAligned,
      CallsPlain, RegionCount, Recorded, LastCall, Walk, WayOpen, Below;
    d := Replay(calls, supply);
    CalledPages(calls);
    cr3 := Load(d, calls, loadOffset);
  }

  lemma CalledPages(calls: seq<Call>)
    requires calls != []
    ensures PagesOf(calls) != {} && PagesOf(calls) <= Below(PAGES)
  {
    assert calls[0].Page() in PagesOf(calls);
    forall page | page in PagesOf(calls)
      ensures page in Below(PAGES)
    {
      PagesAre32(calls, page);
    }
  }
}
