/** Page-table entries with their attributes: what HaliConvertVmaToPte would write, what
    HalSetDescription (inuhal/arch/IA32/hal.c) writes instead, and exactly when the
    processor finds for every address what the map calls asked for. */
module NativeEntries {
  import opened Arith
  import opened Bits
  import opened PageTables
  import opened NativePaging
  import opened Wrappers

  // ----- attributes of an entry

  /** struct PTE, lowest bit field first. */
  function Pte(present: bool, rw: bool, us: bool, writeThroughCache: bool, cacheDisable: bool,
               accessed: bool, dirty: bool, pat: bool, global: bool): nat {
    Bit(present, 0) + Bit(rw, 1) + Bit(us, 2) + Bit(writeThroughCache, 3) + Bit(cacheDisable, 4)
    + Bit(accessed, 5) + Bit(dirty, 6) + Bit(pat, 7) + Bit(global, 8)
  }

  /** HaliConvertVmaToPte. */
  function ConvertVmaToPte(attr: Attributes): nat {
    Pte(attr.present, attr.rw, attr.us, attr.wt, attr.cd, false, false, false, attr.global)
  }

  /** The attributes the processor reads from an entry. */
  function AttributesOf(w: U32): Attributes {
    Attributes(w % 2 == 1, w / 2 % 2 == 1, w / 4 % 2 == 1, w / 256 % 2 == 1, w / 8 % 2 == 1, w / 16 % 2 == 1)
  }

  /** Present and writable, and nothing else: the constant 3. */
  const PLAIN: Attributes := Attributes(true, true, false, false, false, false)

  lemma Pow2Fields()
    ensures Pow2(0) == 1 && Pow2(1) == 2 && Pow2(2) == 4 && Pow2(3) == 8 && Pow2(4) == 16 && Pow2(8) == 256
  {
    assert Pow2(7) == 128;
  }

  lemma ConvertValue(attr: Attributes)
    ensures ConvertVmaToPte(attr) ==
      (if attr.present then 1 else 0) + (if attr.rw then 2 else 0) + (if attr.us then 4 else 0)
      + (if attr.wt then 8 else 0) + (if attr.cd then 16 else 0) + (if attr.global then 256 else 0)
  {
    hide Pow2;
    Pow2Fields();
  }

  lemma ConvertPlain()
    ensures ConvertVmaToPte(PLAIN) == 3
  {
    ConvertValue(PLAIN);
  }

  /** A bit of the low part of a word stays where it is under a page-aligned frame. */
  lemma LowBit(w: nat, m: nat, c: nat, d: nat, e: nat)
    requires w == 4096 * m + c && c < 4096 && d > 0 && 4096 == 2 * d * e
    ensures w / d % 2 == c / d % 2
  {
    var q, r := DivMod(c, d);
    assert 4096 * m == 2 * d * e * m == (2 * e * m) * d;
    DivUnique(w, d, 2 * (e * m) + q, r);
    var h, t := DivMod(q, 2);
    DivUnique(2 * (e * m) + q, 2, e * m + h, t);
  }

  lemma LowAttributes(w: U32, m: nat, c: nat)
    requires w == 4096 * m + c && c < 4096
    ensures AttributesOf(w) == AttributesOf(c) && FrameOf(w) == 4096 * m
  {
    LowBit(w, m, c, 1, 2048);
    LowBit(w, m, c, 2, 1024);
    LowBit(w, m, c, 4, 512);
    LowBit(w, m, c, 8, 256);
    LowBit(w, m, c, 16, 128);
    LowBit(w, m, c, 256, 8);
    DivUnique(w, 4096, m, c);
  }

  lemma SmallAttributes(attr: Attributes)
    ensures ConvertVmaToPte(attr) < 512 && AttributesOf(ConvertVmaToPte(attr)) == attr
  {
    hide ConvertVmaToPte;
    ConvertValue(attr);
  }

  lemma OrLow(a: U32, c: nat)
    requires a % 4096 == 0 && c < 4096
    ensures Or(a, c) == a + c < WORD32
  {
    hide Or, Pow2, MulPow2;
    var m, _ := DivMod(a, 4096);
    Pow2Values();
    Pow2Twelve();
    MulPow2Is(m, 12);
    OrDisjoint(c, m, 12);
  }

  lemma Pow2Twelve()
    ensures Pow2(12) == 4096
  {
    assert Pow2(8) == 256;
  }

  /** The conversion is read back: frame and attributes are those put in. */
  lemma ConvertReadsBack(a: U32, attr: Attributes)
    requires a % 4096 == 0
    ensures var w := Or(a, ConvertVmaToPte(attr)); w < WORD32 && FrameOf(w) == a && AttributesOf(w) == attr
  {
    hide Or, ConvertVmaToPte, FrameOf, AttributesOf;
    SmallAttributes(attr);
    var m, _ := DivMod(a, 4096);
    OrLow(a, ConvertVmaToPte(attr));
    LowAttributes(a + ConvertVmaToPte(attr), m, ConvertVmaToPte(attr));
  }

  /** What is written instead is the converted entry for exactly one value of the
      attributes. */
  lemma WordExactly(a: U32, attr: Attributes)
    requires a % 4096 == 0
    ensures Marked(a) == Or(a, ConvertVmaToPte(attr)) <==> attr == Attributes(true, true, false, false, false, false)
    ensures FrameOf(Marked(a)) == a && AttributesOf(Marked(a)) == PLAIN
  {
    hide Or, ConvertVmaToPte, FrameOf, AttributesOf;
    ConvertPlain();
    ConvertReadsBack(a, attr);
    ConvertReadsBack(a, PLAIN);
  }

  // ----- the entry the processor uses

  /** What an address may be used for: writing and user access need both entries. */
  function Combined(pde: Attributes, pte: Attributes): Attributes {
    pte.(rw := pde.rw && pte.rw, us := pde.us && pte.us)
  }

  /** The frame and the attributes the processor finds for an address, if it finds any. */
  function NativeEntry(native: NativeMap, loadOffset: U32, cr3: U32, vaddr: U32): Option<Entry> {
    var pde := TableEntry(ReadTable(native, loadOffset, cr3), vaddr / LARGE);
    if !IsPresent(pde) || IsLarge(pde) then None
    else
      var w := TableEntry(ReadTable(native, loadOffset, FrameOf(pde)), vaddr / 4096 % ENTRIES);
      if !IsPresent(w) then None else Some(Entry(FrameOf(w), Combined(AttributesOf(pde), AttributesOf(w))))
  }

  /** A directory entry of present and writable only takes away user access. */
  lemma DirectoryAttributes(w: U32)
    requires w % 4096 == 3
    ensures AttributesOf(w) == PLAIN
  {
    hide AttributesOf, FrameOf;
    var m, c := DivMod(w, 4096);
    LowAttributes(w, m, 3);
    WordExactly(0, PLAIN);
    MarkedFields(0);
  }

  lemma EntryPair(native: NativeMap, loadOffset: U32, cr3: U32, at: Layout, mapped: Mapping, vaddr: U32, i: nat, k: nat)
    requires CoversPair(TableEntry(ReadTable(native, loadOffset, cr3), vaddr / LARGE), native, loadOffset, at,
        mapped, i, k)
    ensures var w := PteWord(at, mapped, i, k, vaddr / 4096 % ENTRIES);
            NativeEntry(native, loadOffset, cr3, vaddr) ==
              if IsPresent(w) then Some(Entry(FrameOf(w), AttributesOf(w).(us := false))) else None
  {
    hide PteWord, FrameOf, IsLarge, AttributesOf;
    DirectoryAttributes(TableEntry(ReadTable(native, loadOffset, cr3), vaddr / LARGE));
  }

  lemma EntryNothing(native: NativeMap, loadOffset: U32, cr3: U32, vaddr: U32)
    requires TableEntry(ReadTable(native, loadOffset, cr3), vaddr / LARGE) == 0
    ensures NativeEntry(native, loadOffset, cr3, vaddr) == None
  {
  }

  /** In flattened tables the translation is the entry's frame and the offset. */
  lemma WalkByEntry(native: NativeMap, loadOffset: U32, cr3: U32, at: Layout, mapped: Mapping, vaddr: U32)
    requires Flattened(native, loadOffset, cr3, at, mapped)
    ensures var e := NativeEntry(native, loadOffset, cr3, vaddr);
            NativeWalk(native, loadOffset, cr3, vaddr) ==
              if e.Some? then Some(e.value.address + vaddr % PF_GRANULARITY) else None
  {
    hide Flattened, Pairs, CoversPair, FrameOf, IsPresent, IsLarge, AttributesOf, NativeWalk, NativeEntry, ReadTable,
        PteWord;
    var i, k := vaddr / LPDE_GRANULARITY, vaddr / LARGE % 256;
    DirectoryEntry(native, loadOffset, cr3, at, mapped, vaddr);
    if k < |Pairs(at, i, 256)| {
      WalkPair(native, loadOffset, cr3, at, mapped, vaddr, i, Pairs(at, i, 256)[k]);
      EntryPair(native, loadOffset, cr3, at, mapped, vaddr, i, Pairs(at, i, 256)[k]);
    } else {
      WalkNothing(native, loadOffset, cr3, vaddr);
      EntryNothing(native, loadOffset, cr3, vaddr);
    }
  }

  lemma PteOfLeaf(at: Layout, mapped: Mapping, vaddr: U32)
    ensures var pte := PteWord(at, mapped, vaddr / LPDE_GRANULARITY, vaddr / LARGE % 256, vaddr / 4096 % ENTRIES);
            var page := vaddr / 4096;
            pte == if LeafSlot(page) in at then Marked(LeafOf(mapped, page).address) else 0
  {
    hide Marked;
    AddressParts(vaddr);
  }

  /** For layouts in prefix form: every page of a present leaf table has an entry, with
      the frame of its last call or frame zero, and whatever or-ing 3 makes of the rest,
      never for the user. */
  lemma EntryOfPrefix(native: NativeMap, loadOffset: U32, cr3: U32, at: Layout, mapped: Mapping, vaddr: U32)
    requires Flattened(native, loadOffset, cr3, at, mapped) && PrefixForm(at)
    ensures var page := vaddr / PF_GRANULARITY;
            var w := Marked(LeafOf(mapped, page).address);
            NativeEntry(native, loadOffset, cr3, vaddr) ==
              if LeafSlot(page) in at then Some(Entry(FrameOf(w), AttributesOf(w).(us := false))) else None
  {
    hide Flattened, Pairs, CoversPair, PrefixForm, FrameOf, IsPresent, IsLarge, AttributesOf, NativeEntry, ReadTable,
        Marked, PteWord;
    var i, k := vaddr / LPDE_GRANULARITY, vaddr / LARGE % 256;
    AddressParts(vaddr);
    PairsOfPrefix(at, i, 256);
    DirectoryEntry(native, loadOffset, cr3, at, mapped, vaddr);
    if k < |Pairs(at, i, 256)| {
      EntryPair(native, loadOffset, cr3, at, mapped, vaddr, i, k);
      PteFields(at, mapped, vaddr);
      PteOfLeaf(at, mapped, vaddr);
    } else {
      assert !NonEmpty(at, i, k);
      EntryNothing(native, loadOffset, cr3, vaddr);
      HalfOf(at, i, k, vaddr / 4096 % ENTRIES);
    }
  }

  // ----- a gap translates what was never mapped

  /** The first empty pair of a slot: all pairs before it are packed in place. */
  lemma FirstEmpty(at: Layout, i: nat, k: nat) returns (c: nat)
    requires !NonEmpty(at, i, k)
    ensures c <= k && !NonEmpty(at, i, c) && |Pairs(at, i, c)| == c
  {
    hide NonEmpty;
    c := 0;
    while NonEmpty(at, i, c)
      invariant c <= k && |Pairs(at, i, c)| == c
      decreases k - c
    {
      c := c + 1;
    }
  }

  /** The directory entry in the place of the first empty pair belongs to a later one. */
  lemma GapFilled(at: Layout, i: nat, k: nat, k': nat) returns (c: nat, p: nat)
    requires k < k' < 256 && NonEmpty(at, i, k') && !NonEmpty(at, i, k)
    ensures c < 256 && !NonEmpty(at, i, c)
    ensures c < |Pairs(at, i, 256)| && Pairs(at, i, 256)[c] == p && NonEmpty(at, i, p)
  {
    hide NonEmpty;
    c := FirstEmpty(at, i, k);
    PairsGrow(at, i, c, k');
    assert |Pairs(at, i, k' + 1)| == |Pairs(at, i, k')| + 1;
    PairsGrow(at, i, k' + 1, 256);
    PairsBounded(at, i, 256);
    p := Pairs(at, i, 256)[c];
  }

  /** An address of the h-th leaf table of pair c in slot i. */
  lemma AddressIn(i: nat, c: nat, h: nat) returns (vaddr: U32)
    requires i < 4 && c < 256 && h < 2
    ensures vaddr / LPDE_GRANULARITY == i && vaddr / LARGE % 256 == c && vaddr / 4096 % ENTRIES == h * COUNT
    ensures LeafSlot(vaddr / 4096) == PairSlot(i, c, h)
  {
    var pair, low := i * 256 + c, h * COUNT;
    var page := pair * ENTRIES + low;
    vaddr := page * 4096;
    DivUnique(vaddr, 4096, page, 0);
    DivUnique(page, ENTRIES, pair, low);
    DivUnique(vaddr, LARGE, pair, low * 4096);
    DivUnique(pair, 256, i, c);
    DivUnique(vaddr, LPDE_GRANULARITY, i, c * LARGE + low * 4096);
    DivUnique(page, COUNT, 2 * pair + h, 0);
  }

  lemma GapTranslates(native: NativeMap, loadOffset: U32, cr3: U32, at: Layout, mapped: Mapping, i: nat, k: nat,
      k': nat)
      returns (vaddr: U32)
    requires Flattened(native, loadOffset, cr3, at, mapped) && Closed(at, mapped)
    requires i < 4 && k < k' < 256 && NonEmpty(at, i, k') && !NonEmpty(at, i, k)
    ensures vaddr / PF_GRANULARITY !in mapped && NativeEntry(native, loadOffset, cr3, vaddr).Some?
  {
    hide Flattened, Pairs, CoversPair, FrameOf, IsLarge, AttributesOf, NativeEntry, ReadTable, Marked;
    var c, p := GapFilled(at, i, k, k');
    var h: nat := if PairSlot(i, p, 0) in at then 0 else 1;
    vaddr := AddressIn(i, c, h);
    DirectoryEntry(native, loadOffset, cr3, at, mapped, vaddr);
    EntryPair(native, loadOffset, cr3, at, mapped, vaddr, i, p);
    PresentHalf(at, mapped, i, p, h);
    assert LeafSlot(vaddr / 4096) !in at;
  }

  lemma PresentHalf(at: Layout, mapped: Mapping, i: nat, k: nat, h: nat)
    requires h < 2 && PairSlot(i, k, h) in at
    ensures IsPresent(PteWord(at, mapped, i, k, h * COUNT))
  {
    hide Marked, IsPresent, FrameOf;
    DivUnique(h * COUNT, COUNT, h, 0);
    MarkedFields(LeafOf(mapped, PairSlot(i, k, h).prefix * COUNT).address);
  }

  // ----- exactly when nothing else is translated

  /** No address that was never mapped is translated. */
  ghost predicate Silent(native: NativeMap, loadOffset: U32, cr3: U32, mapped: Mapping) {
    forall vaddr: U32 :: vaddr / PF_GRANULARITY !in mapped ==> NativeWalk(native, loadOffset, cr3, vaddr) == None
  }

  /** Every present leaf table is completely mapped. */
  ghost predicate FullTables(at: Layout, mapped: Mapping) {
    forall page: nat :: page < PAGES && LeafSlot(page) in at ==> page in mapped
  }

  lemma SilentExactly(native: NativeMap, loadOffset: U32, cr3: U32, at: Layout, mapped: Mapping)
    requires Flattened(native, loadOffset, cr3, at, mapped) && Closed(at, mapped)
    ensures Silent(native, loadOffset, cr3, mapped) <==> PrefixForm(at) && FullTables(at, mapped)
  {
    hide Flattened, Closed, NativeWalk, NativeEntry, FrameOf, NonEmpty;
    if !PrefixForm(at) {
      var i: nat, k: nat, k': nat :| i < 4 && k < k' < 256 && NonEmpty(at, i, k') && !NonEmpty(at, i, k);
      var vaddr := GapTranslates(native, loadOffset, cr3, at, mapped, i, k, k');
      WalkByEntry(native, loadOffset, cr3, at, mapped, vaddr);
    } else if !FullTables(at, mapped) {
      var page: nat :| page < PAGES && LeafSlot(page) in at && page !in mapped;
      var vaddr := PageStart(page);
      WalkOfPrefix(native, loadOffset, cr3, at, mapped, vaddr);
    } else {
      forall vaddr: U32 | vaddr / PF_GRANULARITY !in mapped
        ensures NativeWalk(native, loadOffset, cr3, vaddr) == None
      {
        WalkOfPrefix(native, loadOffset, cr3, at, mapped, vaddr);
      }
    }
  }

  lemma PageStart(page: nat) returns (vaddr: U32)
    requires page < PAGES
    ensures vaddr / PF_GRANULARITY == page && vaddr % PF_GRANULARITY == 0
  {
    vaddr := page * PF_GRANULARITY;
    DivUnique(vaddr, PF_GRANULARITY, page, 0);
  }

  /** One mapped page is enough: its neighbour, never mapped, goes to frame zero. */
  lemma OnePageExample(native: NativeMap, loadOffset: U32, cr3: U32, at: Layout, mapped: Mapping)
    requires mapped.Keys == {0} && at.Keys == Needed(mapped.Keys)
    requires Flattened(native, loadOffset, cr3, at, mapped)
    ensures PrefixForm(at) && NativeWalk(native, loadOffset, cr3, 0x1000) == Some(0)
    ensures !Silent(native, loadOffset, cr3, mapped)
  {
    hide Flattened, NativeWalk, Needed, PrefixForm;
    OnePageLayout(at, mapped);
    WalkOfPrefix(native, loadOffset, cr3, at, mapped, 0x1000);
  }

  lemma OnePageLayout(at: Layout, mapped: Mapping)
    requires mapped.Keys == {0} && at.Keys == Needed(mapped.Keys)
    ensures PrefixForm(at) && LeafSlot(1) in at
  {
    hide Prefix;
    Paths32(0);
    assert PathSlot(4, 0) in OnPaths(4, mapped.Keys);
    forall s | s in at && s.level == 4
      ensures s == Slot(4, 0)
    {
      assert s in OnPaths(4, mapped.Keys);
    }
  }

  // ----- exactly when the processor finds what was asked for

  /** What the map calls ask for: the frame and the attributes of the last call. */
  function Asked(mapped: Mapping, page: nat): Option<Entry> {
    if page in mapped && mapped[page].attributes.present then Some(mapped[page]) else None
  }

  ghost predicate Equivalent(native: NativeMap, loadOffset: U32, cr3: U32, mapped: Mapping) {
    forall vaddr: U32 :: NativeEntry(native, loadOffset, cr3, vaddr) == Asked(mapped, vaddr / PF_GRANULARITY)
  }

  ghost predicate AllPlain(mapped: Mapping) {
    forall page :: page in mapped ==> mapped[page].attributes == PLAIN
  }

  /** One page of a layout in prefix form. */
  lemma EntryExactly(native: NativeMap, loadOffset: U32, cr3: U32, at: Layout, mapped: Mapping, vaddr: U32)
    requires Flattened(native, loadOffset, cr3, at, mapped) && PrefixForm(at) && Closed(at, mapped)
    ensures var page := vaddr / PF_GRANULARITY;
            NativeEntry(native, loadOffset, cr3, vaddr) == Asked(mapped, page) <==>
              if page in mapped then mapped[page].address % PF_GRANULARITY == 0 && mapped[page].attributes == PLAIN
              else LeafSlot(page) !in at
  {
    hide Flattened, PrefixForm, NativeEntry, AttributesOf, FrameOf, Marked;
    var page := vaddr / PF_GRANULARITY;
    EntryOfPrefix(native, loadOffset, cr3, at, mapped, vaddr);
    if page in mapped {
      var a := mapped[page].address;
      assert LeafSlot(page) in at;
      MarkedFields(a);
      if a % PF_GRANULARITY == 0 {
        WordExactly(a, mapped[page].attributes);
      }
    }
  }

  /** For every address the processor finds exactly the frame and the attributes of
      the last call, and nothing where there was none, if and only if the leaf-table
      pairs form a prefix of each slot, leaf tables are complete, frames are aligned,
      and every page was mapped present and writable without any other attribute. */
  lemma EquivalentExactly(native: NativeMap, loadOffset: U32, cr3: U32, at: Layout, mapped: Mapping)
    requires Flattened(native, loadOffset, cr3, at, mapped) && Closed(at, mapped) && mapped.Keys <= Below(PAGES)
    ensures Equivalent(native, loadOffset, cr3, mapped) <==>
            PrefixForm(at) && FullTables(at, mapped) && Aligned(mapped) && AllPlain(mapped)
  {
    hide Flattened, Closed, NativeEntry, NonEmpty, PrefixForm;
    if !PrefixForm(at) {
      GapInequivalent(native, loadOffset, cr3, at, mapped);
    } else {
      forall vaddr: U32 {
        EntryExactly(native, loadOffset, cr3, at, mapped, vaddr);
      }
      if Equivalent(native, loadOffset, cr3, mapped) {
        forall page: nat | page < PAGES
          ensures page in mapped ==> mapped[page].address % PF_GRANULARITY == 0 && mapped[page].attributes == PLAIN
          ensures LeafSlot(page) in at ==> page in mapped
        {
          var vaddr := PageStart(page);
          EntryExactly(native, loadOffset, cr3, at, mapped, vaddr);
        }
        assert forall page :: page in mapped ==> page in Below(PAGES);
      }
    }
  }

  lemma GapInequivalent(native: NativeMap, loadOffset: U32, cr3: U32, at: Layout, mapped: Mapping)
    requires Flattened(native, loadOffset, cr3, at, mapped) && Closed(at, mapped) && !PrefixForm(at)
    ensures !Equivalent(native, loadOffset, cr3, mapped)
  {
    hide Flattened, Closed, NativeEntry, NonEmpty;
    var i: nat, k: nat, k': nat :| i < 4 && k < k' < 256 && NonEmpty(at, i, k') && !NonEmpty(at, i, k);
    var vaddr := GapTranslates(native, loadOffset, cr3, at, mapped, i, k, k');
  }
}
