/** 32-bit IA32 paging as the processor walks it (section 4.3 of the Intel 64 and
    IA-32 Architectures Software Developer's Manual, Volume 3A), the tables that
    inuhal/arch/IA32/hal.c builds for it, and when the two walks agree. */
module NativePaging {
  import opened Arith
  import opened Bits
  import opened PageTables
  import opened Wrappers

  type NativeMap = map<U32, Words>

  const ENTRIES: nat := 1024
  const LARGE: nat := 4194304

  // ----- addresses and entries

  function VirtualToPhysical(a: U32, loadOffset: U32): U32 {
    (a - loadOffset) % WORD32
  }

  function PhysicalToVirtual(a: U32, loadOffset: U32): U32 {
    (a + loadOffset) % WORD32
  }

  /** One takes the offset away and the other adds it, around the end of the space. */
  lemma ConversionsInverse(a: U32, loadOffset: U32)
    ensures (VirtualToPhysical(a, loadOffset) + loadOffset) % WORD32 == a
    ensures PhysicalToVirtual(a, loadOffset) == (a + loadOffset) % WORD32
    ensures PhysicalToVirtual(VirtualToPhysical(a, loadOffset), loadOffset) == a
    ensures VirtualToPhysical(PhysicalToVirtual(a, loadOffset), loadOffset) == a
  {
    var p, v := VirtualToPhysical(a, loadOffset), PhysicalToVirtual(a, loadOffset);
    Around(a - loadOffset);
    Around(a + loadOffset);
    Around(p + loadOffset);
    Around(v - loadOffset);
  }

  lemma Around(x: int)
    requires 0 <= x + WORD32 < 3 * WORD32
    ensures x % WORD32 == if x < 0 then x + WORD32 else if x < WORD32 then x else x - WORD32
  {
    DivUnique(x, WORD32, if x < 0 then -1 else if x < WORD32 then 0 else 1,
              if x < 0 then x + WORD32 else if x < WORD32 then x else x - WORD32);
  }

  predicate IsPresent(w: U32) {
    w % 2 == 1
  }

  predicate IsLarge(w: U32) {
    w / 128 % 2 == 1
  }

  function FrameOf(w: U32): U32 {
    w / 4096 * 4096
  }

  lemma OrThree(x: U32)
    ensures Or(x, 3) == x / 4 * 4 + 3
  {
    hide Or;
    OrQuad(x / 4, x % 4);
  }

  lemma OrQuad(q: nat, d: nat)
    requires d < 4
    ensures Or(4 * q + d, 3) == 4 * q + 3
  {
    OrZero(q);
    assert Or(2 * q + d / 2, 1) == 2 * Or(q, 0) + 1;
    assert (4 * q + d) / 2 == 2 * q + d / 2;
  }

  /** An address with the present and writable bits or-ed in. */
  function Marked(a: U32): (w: U32)
    ensures w == Or(a, 3)
  {
    OrThree(a);
    Or(a, 3)
  }

  lemma MarkedFields(a: U32)
    ensures IsPresent(Marked(a)) && FrameOf(Marked(a)) == FrameOf(a)
    ensures FrameOf(a) == a <==> a % 4096 == 0
    ensures a % 4096 == 0 ==> !IsLarge(Marked(a)) && Marked(a) == a + 3
  {
    hide Or, FrameOf;
    OrThree(a);
    MarkedFrame(a);
    FrameAligned(a);
    DivUnique(Marked(a), 2, a / 4 * 2 + 1, 1);
    if a % 4096 == 0 {
      MarkedSmall(a, a / 4096);
      DivUnique(a, 4, 1024 * (a / 4096), 0);
    }
  }

  lemma FrameAligned(a: U32)
    ensures FrameOf(a) == a <==> a % 4096 == 0
  {
    var q, r := DivMod(a, 4096);
  }

  lemma MarkedFrame(a: U32)
    ensures FrameOf(Marked(a)) == FrameOf(a)
  {
    hide Or;
    OrThree(a);
    var m, r := DivMod(a, 4096);
    var h, l := DivMod(r, 4);
    DivUnique(a, 4, 1024 * m + h, l);
    DivUnique(Marked(a), 4096, m, h * 4 + 3);
  }

  lemma MarkedSmall(a: int, m: int)
    requires a == 4096 * m
    ensures (a / 4 * 4 + 3) / 128 % 2 == 0
  {
    DivUnique(a, 4, 1024 * m, 0);
    DivUnique(a + 3, 128, 32 * m, 3);
    DivUnique(32 * m, 2, 16 * m, 0);
  }

  /** The directory entry for a page table leads back to it. */
  lemma TablePointer(a: U32, loadOffset: U32)
    requires a % 4096 == 0 && loadOffset % 4096 == 0
    ensures var w := Marked(VirtualToPhysical(a, loadOffset));
            && IsPresent(w) && !IsLarge(w) && w % 4096 == 3
            && FrameOf(w) == w - 3 && (w - 3 + loadOffset) % WORD32 == a
  {
    hide Or, FrameOf, IsLarge, IsPresent, Marked, VirtualToPhysical, PhysicalToVirtual;
    var p := VirtualToPhysical(a, loadOffset);
    ConversionsInverse(a, loadOffset);
    AlignedPhysical(a, loadOffset);
    MarkedFields(p);
    var m, _ := DivMod(p, 4096);
    DivUnique(p + 3, 4096, m, 3);
  }

  lemma AlignedPhysical(a: U32, loadOffset: U32)
    requires a % 4096 == 0 && loadOffset % 4096 == 0
    ensures VirtualToPhysical(a, loadOffset) % 4096 == 0
  {
    var m, _ := DivMod(a, 4096);
    var n, _ := DivMod(loadOffset, 4096);
    var p := VirtualToPhysical(a, loadOffset);
    DivUnique(p, 4096, if p == a - loadOffset then m - n else m - n + 0x10_0000, 0);
  }

  // ----- the processor's walk

  function TableEntry(table: Words, index: nat): U32 {
    if index < |table| then table[index] else 0
  }

  /** The table at a physical address, which the kernel reaches an offset higher. */
  function ReadTable(native: NativeMap, loadOffset: U32, physical: U32): Words {
    var a := (physical + loadOffset) % WORD32;
    if a in native then native[a] else []
  }

  /** The physical address the processor reaches from a directory, if it reaches one. */
  function WalkDirectory(directory: Words, native: NativeMap, loadOffset: U32, vaddr: U32): Option<nat> {
    var pde := TableEntry(directory, vaddr / LARGE);
    if !IsPresent(pde) then None
    else if IsLarge(pde) then Some(pde / LARGE * LARGE + vaddr % LARGE)
    else
      var pte := TableEntry(ReadTable(native, loadOffset, FrameOf(pde)), vaddr / 4096 % ENTRIES);
      if !IsPresent(pte) then None else Some(FrameOf(pte) + vaddr % 4096)
  }

  function NativeWalk(native: NativeMap, loadOffset: U32, cr3: U32, vaddr: U32): Option<nat> {
    WalkDirectory(ReadTable(native, loadOffset, cr3), native, loadOffset, vaddr)
  }

  // ----- what HalSetDescription writes

  /** The two last-level tables that one native page table covers. */
  function PairSlot(i: nat, k: nat, half: nat): Slot {
    Slot(4, i * COUNT + 2 * k + half)
  }

  predicate NonEmpty(at: Layout, i: nat, k: nat) {
    PairSlot(i, k, 0) in at || PairSlot(i, k, 1) in at
  }

  function PteWord(at: Layout, mapped: Mapping, i: nat, k: nat, q: nat): U32 {
    var s := PairSlot(i, k, q / COUNT);
    if s in at then Marked(LeafOf(mapped, s.prefix * COUNT + q % COUNT).address) else 0
  }

  function PteWords(at: Layout, mapped: Mapping, i: nat, k: nat): (words: Words)
    ensures |words| == ENTRIES && forall q :: 0 <= q < ENTRIES ==> words[q] == PteWord(at, mapped, i, k, q)
  {
    seq(ENTRIES, q requires 0 <= q < ENTRIES => PteWord(at, mapped, i, k, q))
  }

  /** The non-empty pairs among the first n of slot i, in order. */
  function Pairs(at: Layout, i: nat, n: nat): seq<nat> {
    if n == 0 then []
    else Pairs(at, i, n - 1) + (if NonEmpty(at, i, n - 1) then [n - 1] else [])
  }

  lemma {:induction false} PairsBounded(at: Layout, i: nat, n: nat)
    ensures |Pairs(at, i, n)| <= n
    ensures forall c :: 0 <= c < |Pairs(at, i, n)| ==> Pairs(at, i, n)[c] < n && NonEmpty(at, i, Pairs(at, i, n)[c])
  {
    if n > 0 {
      PairsBounded(at, i, n - 1);
    }
  }

  lemma {:induction false} PairsGrow(at: Layout, i: nat, m: nat, n: nat)
    requires m <= n
    ensures |Pairs(at, i, m)| <= |Pairs(at, i, n)|
  {
    if m < n {
      PairsGrow(at, i, m, n - 1);
    }
  }

  /** A directory entry for the page table of pair k: its physical address, and present
      and writable. */
  ghost predicate CoversPair(w: U32, native: NativeMap, loadOffset: U32, at: Layout, mapped: Mapping, i: nat, k: nat) {
    var t := (FrameOf(w) + loadOffset) % WORD32;
    && IsPresent(w) && !IsLarge(w) && w % 4096 == 3
    && t in native && native[t] == PteWords(at, mapped, i, k)
  }

  /** A quarter of the directory: the page tables of the non-empty pairs, packed to
      the front in order, whatever addresses those pairs stand for. */
  ghost predicate Quarter(words: Words, native: NativeMap, loadOffset: U32, at: Layout, mapped: Mapping, i: nat,
      n: nat) {
    && |words| == 256
    && |Pairs(at, i, n)| <= 256
    && (forall c {:trigger words[c]} :: 0 <= c < 256 ==>
          if c < |Pairs(at, i, n)| then CoversPair(words[c], native, loadOffset, at, mapped, i, Pairs(at, i, n)[c])
          else words[c] == 0)
  }

  ghost predicate Flattened(native: NativeMap, loadOffset: U32, cr3: U32, at: Layout, mapped: Mapping) {
    var directory := ReadTable(native, loadOffset, cr3);
    && |directory| == ENTRIES
    && (forall i {:trigger directory[i * 256..i * 256 + 256]} :: 0 <= i < 4 ==>
          Quarter(directory[i * 256..i * 256 + 256], native, loadOffset, at, mapped, i, 256))
  }

  // ----- the walk through flattened tables

  lemma AddressParts(vaddr: U32)
    ensures vaddr / LARGE == vaddr / LPDE_GRANULARITY * 256 + vaddr / LARGE % 256
    ensures vaddr / LPDE_GRANULARITY < 4
    ensures var i, k, q := vaddr / LPDE_GRANULARITY, vaddr / LARGE % 256, vaddr / 4096 % ENTRIES;
            && PairSlot(i, k, q / COUNT) == LeafSlot(vaddr / 4096)
            && PairSlot(i, k, q / COUNT).prefix * COUNT + q % COUNT == vaddr / 4096
            && q / COUNT <= 1
  {
    var page := vaddr / 4096;
    assert vaddr / LARGE == page / 1024 && vaddr / LPDE_GRANULARITY == page / 0x4_0000;
  }

  /** The directory entry an address selects. */
  lemma DirectoryEntry(native: NativeMap, loadOffset: U32, cr3: U32, at: Layout, mapped: Mapping, vaddr: U32)
    requires Flattened(native, loadOffset, cr3, at, mapped)
    ensures var i, k := vaddr / LPDE_GRANULARITY, vaddr / LARGE % 256;
            var pde := TableEntry(ReadTable(native, loadOffset, cr3), vaddr / LARGE);
            if k < |Pairs(at, i, 256)| then CoversPair(pde, native, loadOffset, at, mapped, i, Pairs(at, i, 256)[k])
            else pde == 0
  {
    hide CoversPair, Pairs, ReadTable, Quarter, TableEntry;
    var i, k := vaddr / LPDE_GRANULARITY, vaddr / LARGE % 256;
    AddressParts(vaddr);
    var directory := ReadTable(native, loadOffset, cr3);
    assert Quarter(directory[i * 256..i * 256 + 256], native, loadOffset, at, mapped, i, 256);
    QuarterEntry(directory, native, loadOffset, at, mapped, i, k, vaddr / LARGE);
  }

  lemma QuarterEntry(directory: Words, native: NativeMap, loadOffset: U32, at: Layout, mapped: Mapping, i: nat,
      k: nat, index: nat)
    requires |directory| == ENTRIES && i < 4 && k < 256 && index == i * 256 + k
    requires Quarter(directory[i * 256..i * 256 + 256], native, loadOffset, at, mapped, i, 256)
    ensures var pde := TableEntry(directory, index);
            if k < |Pairs(at, i, 256)| then CoversPair(pde, native, loadOffset, at, mapped, i, Pairs(at, i, 256)[k])
            else pde == 0
  {
    hide CoversPair, Pairs;
    var words := directory[i * 256..i * 256 + 256];
    assert words[k] == directory[index];
  }

  /** What the processor finds where the selected directory entry covers pair k'. */
  lemma WalkPair(native: NativeMap, loadOffset: U32, cr3: U32, at: Layout, mapped: Mapping, vaddr: U32, i: nat, k: nat)
    requires CoversPair(TableEntry(ReadTable(native, loadOffset, cr3), vaddr / LARGE), native, loadOffset, at,
        mapped, i, k)
    ensures var pte := PteWord(at, mapped, i, k, vaddr / 4096 % ENTRIES);
            NativeWalk(native, loadOffset, cr3, vaddr) ==
              if IsPresent(pte) then Some(FrameOf(pte) + vaddr % 4096) else None
  {
    hide PteWord, FrameOf, IsLarge;
  }

  // ----- when the two walks agree

  /** The non-empty pairs of every 1 GiB slot come before its empty ones. */
  ghost predicate PrefixForm(at: Layout) {
    forall i: nat, k: nat, k': nat :: i < 4 && k < k' < 256 && NonEmpty(at, i, k') ==> NonEmpty(at, i, k)
  }

  ghost predicate Aligned(mapped: Mapping) {
    forall page :: page in mapped ==> mapped[page].address % PF_GRANULARITY == 0
  }

  /** Every mapped address is translated to the frame its map call named. */
  ghost predicate Faithful(native: NativeMap, loadOffset: U32, cr3: U32, mapped: Mapping) {
    forall vaddr: U32 :: vaddr / PF_GRANULARITY in mapped ==>
      NativeWalk(native, loadOffset, cr3, vaddr)
        == Some(mapped[vaddr / PF_GRANULARITY].address + vaddr % PF_GRANULARITY)
  }

  lemma {:induction false} PairsOfPrefix(at: Layout, i: nat, n: nat)
    requires PrefixForm(at) && i < 4 && n <= 256
    ensures forall c :: 0 <= c < |Pairs(at, i, n)| ==> Pairs(at, i, n)[c] == c
    ensures forall k: nat :: k < n ==> (NonEmpty(at, i, k) <==> k < |Pairs(at, i, n)|)
  {
    hide NonEmpty;
    if n > 0 {
      PairsOfPrefix(at, i, n - 1);
      PairsBounded(at, i, n - 1);
      if NonEmpty(at, i, n - 1) && |Pairs(at, i, n - 1)| < n - 1 {
        assert NonEmpty(at, i, |Pairs(at, i, n - 1)|);
      }
    }
  }

  /** The processor's walk, for layouts in prefix form: exactly the addresses that
      have a last-level table are translated, a page of such a table that was never
      mapped to frame zero. */
  lemma WalkOfPrefix(native: NativeMap, loadOffset: U32, cr3: U32, at: Layout, mapped: Mapping, vaddr: U32)
    requires Flattened(native, loadOffset, cr3, at, mapped) && PrefixForm(at)
    ensures NativeWalk(native, loadOffset, cr3, vaddr) ==
      if LeafSlot(vaddr / PF_GRANULARITY) in at
      then Some(FrameOf(LeafOf(mapped, vaddr / PF_GRANULARITY).address) + vaddr % PF_GRANULARITY)
      else None
  {
    hide Flattened, Pairs, CoversPair, PrefixForm, FrameOf, IsPresent, IsLarge, NativeWalk, ReadTable;
    var i, k := vaddr / LPDE_GRANULARITY, vaddr / LARGE % 256;
    AddressParts(vaddr);
    PairsOfPrefix(at, i, 256);
    DirectoryEntry(native, loadOffset, cr3, at, mapped, vaddr);
    if k < |Pairs(at, i, 256)| {
      WalkPair(native, loadOffset, cr3, at, mapped, vaddr, i, k);
      PteFields(at, mapped, vaddr);
    } else {
      assert !NonEmpty(at, i, k);
      WalkNothing(native, loadOffset, cr3, vaddr);
      HalfOf(at, i, k, vaddr / 4096 % ENTRIES);
    }
  }

  lemma HalfOf(at: Layout, i: nat, k: nat, q: nat)
    requires q < ENTRIES
    ensures PairSlot(i, k, q / COUNT) in at ==> NonEmpty(at, i, k)
  {
  }

  lemma WalkNothing(native: NativeMap, loadOffset: U32, cr3: U32, vaddr: U32)
    requires TableEntry(ReadTable(native, loadOffset, cr3), vaddr / LARGE) == 0
    ensures NativeWalk(native, loadOffset, cr3, vaddr) == None
  {
  }

  lemma PteFields(at: Layout, mapped: Mapping, vaddr: U32)
    ensures var pte := PteWord(at, mapped, vaddr / LPDE_GRANULARITY, vaddr / LARGE % 256, vaddr / 4096 % ENTRIES);
            var page := vaddr / 4096;
            if LeafSlot(page) in at then IsPresent(pte) && FrameOf(pte) == FrameOf(LeafOf(mapped, page).address)
            else !IsPresent(pte)
  {
    hide FrameOf, Marked;
    AddressParts(vaddr);
    MarkedFields(LeafOf(mapped, vaddr / 4096).address);
  }

  // ----- exactly when the flattening is faithful

  lemma {:induction false} LastPair(at: Layout, i: nat, k: nat, n: nat) returns (m: nat)
    requires k < n && NonEmpty(at, i, k)
    ensures k <= m < n && NonEmpty(at, i, m)
    ensures Pairs(at, i, n) == Pairs(at, i, m + 1)
  {
    if NonEmpty(at, i, n - 1) {
      m := n - 1;
    } else {
      m := LastPair(at, i, k, n - 1);
    }
  }

  lemma {:induction false} PairsGap(at: Layout, i: nat, k: nat, n: nat)
    requires k < n && !NonEmpty(at, i, k)
    ensures |Pairs(at, i, n)| < n
  {
    PairsBounded(at, i, n - 1);
    if k < n - 1 {
      PairsGap(at, i, k, n - 1);
    }
  }

  /** A table exists only because some page of it was mapped. */
  lemma PairHasPage(at: Layout, mapped: Mapping, i: nat, m: nat) returns (page: nat)
    requires at.Keys == Needed(mapped.Keys) && NonEmpty(at, i, m)
    ensures page in mapped && page / 1024 == i * 256 + m
  {
    hide Prefix;
    var half: nat := if PairSlot(i, m, 0) in at then 0 else 1;
    var s := PairSlot(i, m, half);
    assert s in OnPaths(4, mapped.Keys);
    page :| page in mapped.Keys && PathSlot(4, page) == s;
    LastIndex(page);
  }

  /** With a gap, the last pair's entry is packed below the place of its addresses,
      and nothing is left there. */
  lemma GapBreaks(native: NativeMap, loadOffset: U32, cr3: U32, at: Layout, mapped: Mapping, i: nat, k: nat, k': nat)
    requires Flattened(native, loadOffset, cr3, at, mapped)
    requires at.Keys == Needed(mapped.Keys) && mapped.Keys <= Below(PAGES)
    requires i < 4 && k < k' < 256 && NonEmpty(at, i, k') && !NonEmpty(at, i, k)
    ensures !Faithful(native, loadOffset, cr3, mapped)
  {
    hide Flattened, Pairs, NonEmpty, NativeWalk, ReadTable, Needed, CoversPair, TableEntry, Marked, FrameOf;
    var m := LastPair(at, i, k', 256);
    PairsGap(at, i, k, m + 1);
    var page := PairHasPage(at, mapped, i, m);
    var vaddr: U32 := page * 4096;
    assert vaddr / PF_GRANULARITY == page;
    assert vaddr / LARGE == page / 1024;
    AddressParts(vaddr);
    DirectoryEntry(native, loadOffset, cr3, at, mapped, vaddr);
    WalkNothing(native, loadOffset, cr3, vaddr);
  }

  lemma UnalignedBreaks(native: NativeMap, loadOffset: U32, cr3: U32, at: Layout, mapped: Mapping, page: nat)
    requires Flattened(native, loadOffset, cr3, at, mapped) && PrefixForm(at)
    requires page in mapped && page < PAGES && mapped[page].address % PF_GRANULARITY != 0
    ensures !Faithful(native, loadOffset, cr3, mapped)
  {
    hide Flattened, PrefixForm, NativeWalk, FrameOf;
    var vaddr: U32 := page * 4096;
    assert vaddr / PF_GRANULARITY == page && vaddr % PF_GRANULARITY == 0;
    WalkOfPrefix(native, loadOffset, cr3, at, mapped, vaddr);
    MarkedFields(mapped[page].address);
  }

  /** The native tables agree with the map calls on every mapped address exactly
      when no pair is empty before a non-empty one and all frames are aligned. */
  lemma FaithfulExactly(native: NativeMap, loadOffset: U32, cr3: U32, at: Layout, mapped: Mapping)
    requires Flattened(native, loadOffset, cr3, at, mapped) && Closed(at, mapped)
    requires at.Keys == Needed(mapped.Keys) && mapped.Keys <= Below(PAGES)
    ensures Faithful(native, loadOffset, cr3, mapped) <==> PrefixForm(at) && Aligned(mapped)
  {
    hide Flattened, NativeWalk, FrameOf, Needed, NonEmpty;
    if PrefixForm(at) && Aligned(mapped) {
      forall vaddr: U32 | vaddr / PF_GRANULARITY in mapped
        ensures NativeWalk(native, loadOffset, cr3, vaddr) ==
                Some(mapped[vaddr / PF_GRANULARITY].address + vaddr % PF_GRANULARITY)
      {
        assert LeafSlot(vaddr / PF_GRANULARITY) in at;
        WalkOfPrefix(native, loadOffset, cr3, at, mapped, vaddr);
        MarkedFields(mapped[vaddr / PF_GRANULARITY].address);
      }
    } else if PrefixForm(at) {
      var page :| page in mapped && mapped[page].address % PF_GRANULARITY != 0;
      UnalignedBreaks(native, loadOffset, cr3, at, mapped, page);
    } else {
      var i: nat, k: nat, k': nat :| i < 4 && k < k' < 256 && NonEmpty(at, i, k') && !NonEmpty(at, i, k);
      GapBreaks(native, loadOffset, cr3, at, mapped, i, k, k');
    }
  }

  /** One page mapped in the second pair of a slot, and nothing else, leaves a gap: the
      page's own address is not translated to its frame. */
  lemma GapExample(native: NativeMap, loadOffset: U32, cr3: U32, at: Layout, mapped: Mapping)
    requires mapped.Keys == {0x400} && at.Keys == Needed(mapped.Keys)
    requires Flattened(native, loadOffset, cr3, at, mapped)
    ensures !PrefixForm(at) && !Faithful(native, loadOffset, cr3, mapped)
  {
    hide Flattened, Needed, NonEmpty, Faithful, Below;
    GapLayout(at, mapped);
    assert 0x400 in Below(PAGES);
    GapBreaks(native, loadOffset, cr3, at, mapped, 0, 0, 1);
  }

  lemma GapLayout(at: Layout, mapped: Mapping)
    requires mapped.Keys == {0x400} && at.Keys == Needed(mapped.Keys)
    ensures NonEmpty(at, 0, 1) && !NonEmpty(at, 0, 0)
  {
    Paths32(0x400);
    assert PathSlot(4, 0x400) in OnPaths(4, mapped.Keys);
  }
}
