/** Building and loading native tables: inuhal/arch/IA32/hal.c. */
module Hal {
  import opened Bits
  import opened PageTables
  import opened Permissions
  import opened Spaces
  import opened NativePaging

  /** The words q1 up to q2 of a native page table are as the pair demands. */
  ghost predicate Filled(words: seq<U32>, at: Layout, mapped: Mapping, i: nat, k: nat, q1: nat, q2: nat) {
    q2 <= |words| && forall q :: q1 <= q < q2 ==> words[q] == PteWord(at, mapped, i, k, q)
  }

  /** Half of a native page table: the frames of one last-level table, marked
      present and writable whatever their attributes. */
  method FillHalf(d: Description, table: U32, ptes: array<U32>, half: nat, ghost i: nat, ghost k: nat)
    requires d.Valid() && ptes.Length == ENTRIES && half <= 1
    requires PairSlot(i, k, half) in d.at && table == d.at[PairSlot(i, k, half)]
    modifies ptes
    ensures Filled(ptes[..], d.at, d.mapped, i, k, half * COUNT, half * COUNT + COUNT)
    ensures forall q :: 0 <= q < ENTRIES && q / COUNT != half ==> ptes[q] == old(ptes[q])
  {
    hide Linked, Permits, Supply, Marked, PteWord;
    var base := half * COUNT;
    LeafTable(d.pages, d.at, d.mapped, i, k, half);
    for q := base to base + COUNT
      invariant Filled(ptes[..], d.at, d.mapped, i, k, base, q)
      invariant forall j :: 0 <= j < ENTRIES && j / COUNT != half ==> ptes[j] == old(ptes[j])
    {
      var addressData := d.pages[table][q - base].address;
      ptes[q] := Marked(addressData);
    }
  }

  lemma LeafTable(pages: Pages, at: Layout, mapped: Mapping, i: nat, k: nat, half: nat)
    requires Linked(pages, at, mapped) && half <= 1 && PairSlot(i, k, half) in at
    ensures var t := at[PairSlot(i, k, half)];
            && t in pages && |pages[t]| == COUNT
            && forall q :: half * COUNT <= q < half * COUNT + COUNT ==>
                 PteWord(at, mapped, i, k, q) == Marked(pages[t][q - half * COUNT].address)
  {
    hide Closed, Marked;
    var s := PairSlot(i, k, half);
    assert TableHolds(pages[at[s]], at, mapped, s);
    forall q | half * COUNT <= q < half * COUNT + COUNT
      ensures PteWord(at, mapped, i, k, q) == Marked(pages[at[s]][q - half * COUNT].address)
    {
      assert q / COUNT == half && q % COUNT == q - half * COUNT;
    }
  }

  lemma MissingHalf(words: seq<U32>, at: Layout, mapped: Mapping, i: nat, k: nat, half: nat)
    requires half <= 1 && PairSlot(i, k, half) !in at && |words| == ENTRIES
    requires forall q :: half * COUNT <= q < half * COUNT + COUNT ==> words[q] == 0
    ensures Filled(words, at, mapped, i, k, half * COUNT, half * COUNT + COUNT)
  {
    hide Marked;
    forall q | half * COUNT <= q < half * COUNT + COUNT
      ensures PteWord(at, mapped, i, k, q) == 0
    {
      assert q / COUNT == half;
    }
  }

  /** The native page table of one pair, either of whose tables may be missing. */
  method FillPtes(d: Description, first: U32, second: U32, ghost i: nat, ghost k: nat) returns (ptes: array<U32>)
    requires d.Valid()
    requires first == AddressOf(d.at, PairSlot(i, k, 0)) && second == AddressOf(d.at, PairSlot(i, k, 1))
    ensures fresh(ptes) && ptes[..] == PteWords(d.at, d.mapped, i, k)
  {
    hide Supply, PteWord, Closed, Injective, TableHolds;
    ptes := new U32[1024](_ => 0);
    if first != 0 {
      FillHalf(d, first, ptes, 0, i, k);
    } else {
      MissingHalf(ptes[..], d.at, d.mapped, i, k, 0);
    }
    label halfway:
    if second != 0 {
      FillHalf(d, second, ptes, 1, i, k);
    } else {
      MissingHalf(ptes[..], d.at, d.mapped, i, k, 1);
    }
    assert forall q :: 0 <= q < COUNT ==> q / COUNT == 0 && ptes[q] == old@halfway(ptes[q]);
  }

  ghost predicate Grown(native: NativeMap, native': NativeMap) {
    forall a :: a in native ==> a in native' && native'[a] == native[a]
  }

  lemma QuarterKept(words: Words, native: NativeMap, native': NativeMap, loadOffset: U32, at: Layout,
      mapped: Mapping, i: nat, n: nat)
    requires Quarter(words, native, loadOffset, at, mapped, i, n) && Grown(native, native')
    ensures Quarter(words, native', loadOffset, at, mapped, i, n)
  {
    hide PteWords, IsPresent, IsLarge, FrameOf, Pairs;
  }

  lemma PairsStep(at: Layout, i: nat, n: nat)
    ensures Pairs(at, i, n + 1) == Pairs(at, i, n) + (if NonEmpty(at, i, n) then [n] else [])
  {
  }

  /** Packing one more page table behind the others. */
  lemma QuarterStep(words: Words, native: NativeMap, loadOffset: U32, at: Layout, mapped: Mapping, i: nat, n: nat,
      w: U32)
    requires n < 256 && NonEmpty(at, i, n)
    requires Quarter(words, native, loadOffset, at, mapped, i, n)
    requires CoversPair(w, native, loadOffset, at, mapped, i, n)
    ensures |Pairs(at, i, n)| < 256
    ensures Quarter(words[|Pairs(at, i, n)| := w], native, loadOffset, at, mapped, i, n + 1)
  {
    hide CoversPair, NonEmpty, Pairs;
    PairsBounded(at, i, n);
    PairsStep(at, i, n);
  }

  lemma QuarterSkip(words: Words, native: NativeMap, loadOffset: U32, at: Layout, mapped: Mapping, i: nat, n: nat)
    requires !NonEmpty(at, i, n) && Quarter(words, native, loadOffset, at, mapped, i, n)
    ensures Quarter(words, native, loadOffset, at, mapped, i, n + 1)
  {
    hide CoversPair, NonEmpty, Pairs;
    PairsStep(at, i, n);
  }

  lemma QuarterStart(words: Words, native: NativeMap, loadOffset: U32, at: Layout, mapped: Mapping, i: nat)
    requires |words| == 256 && forall c :: 0 <= c < 256 ==> words[c] == 0
    ensures Quarter(words, native, loadOffset, at, mapped, i, 0)
  {
  }

  /** The entries z and z + 1 of a third-level table are a pair. */
  lemma PairEntries(pages: Pages, at: Layout, mapped: Mapping, i: nat, n: nat)
    requires Linked(pages, at, mapped) && Slot(3, i) in at && n < 256
    ensures var t := at[Slot(3, i)];
            && t in pages && |pages[t]| == COUNT
            && pages[t][2 * n].address == AddressOf(at, PairSlot(i, n, 0))
            && pages[t][2 * n + 1].address == AddressOf(at, PairSlot(i, n, 1))
            && (NonEmpty(at, i, n) <==> pages[t][2 * n].address != 0 || pages[t][2 * n + 1].address != 0)
  {
    hide Closed;
    var s := Slot(3, i);
    assert TableHolds(pages[at[s]], at, mapped, s);
    assert Child(s, 2 * n) == PairSlot(i, n, 0);
    assert Child(s, 2 * n + 1) == PairSlot(i, n, 1);
  }

  lemma PairPacked(native: NativeMap, a: U32, loadOffset: U32, at: Layout, mapped: Mapping, i: nat, k: nat)
    requires a % 4096 == 0 && loadOffset % 4096 == 0
    requires a in native && native[a] == PteWords(at, mapped, i, k)
    ensures CoversPair(Marked(VirtualToPhysical(a, loadOffset)), native, loadOffset, at, mapped, i, k)
  {
    hide PteWords, FrameOf, IsLarge, IsPresent, Marked;
    TablePointer(a, loadOffset);
  }

  /** One turn of the loop over pairs: skip an empty pair, or allocate its page
      table and pack the directory entry at the counter. */
  method PackPair(d: Description, loadOffset: U32, lpte: U32, pdes: array<U32>, counter: nat, z: nat, ghost i: nat,
      ghost n: nat)
      returns (counter': nat)
    requires d.Valid() && Slot(3, i) in d.at && lpte == d.at[Slot(3, i)] && loadOffset % 4096 == 0
    requires n < 256 && z == 2 * n && counter == |Pairs(d.at, i, n)| && pdes.Length == 256
    requires Quarter(pdes[..], d.native, loadOffset, d.at, d.mapped, i, n)
    requires |d.free| >= |Pairs(d.at, i, n + 1)| - |Pairs(d.at, i, n)|
    modifies d`free, d`native, pdes
    ensures d.Valid() && Grown(old(d.native), d.native)
    ensures counter' == |Pairs(d.at, i, n + 1)|
    ensures Quarter(pdes[..], d.native, loadOffset, d.at, d.mapped, i, n + 1)
    ensures counter' - counter == old(|d.free|) - |d.free|
  {
    hide Linked, Permits, Supply, PteWords, Quarter, CoversPair, Pairs, NonEmpty, VirtualToPhysical, Marked;
    PairEntries(d.pages, d.at, d.mapped, i, n);
    PairsStep(d.at, i, n);
    var first := d.pages[lpte][z].address;
    var second := d.pages[lpte][z + 1].address;
    if first == 0 && second == 0 {
      QuarterSkip(pdes[..], d.native, loadOffset, d.at, d.mapped, i, n);
      return counter;
    }
    var ptes := FillPtes(d, first, second, i, n);
    var pteTarget := d.CreateNative(ptes[..]);
    var w := Marked(VirtualToPhysical(pteTarget, loadOffset));
    PairPacked(d.native, pteTarget, loadOffset, d.at, d.mapped, i, n);
    QuarterKept(pdes[..], old(d.native), d.native, loadOffset, d.at, d.mapped, i, n);
    QuarterStep(pdes[..], d.native, loadOffset, d.at, d.mapped, i, n, w);
    ghost var words := pdes[..][counter := w];
    pdes[counter] := w;
    assert pdes[..] == words;
    counter' := counter + 1;
  }

  /** The loop over the pairs of one 1 GiB slot. */
  method FillPdes(d: Description, loadOffset: U32, lpte: U32, ghost i: nat) returns (pdes: array<U32>)
    requires d.Valid() && Slot(3, i) in d.at && lpte == d.at[Slot(3, i)] && loadOffset % 4096 == 0
    requires |d.free| >= |Pairs(d.at, i, 256)|
    modifies d`free, d`native
    ensures fresh(pdes) && pdes.Length == 256 && d.Valid() && Grown(old(d.native), d.native)
    ensures Quarter(pdes[..], d.native, loadOffset, d.at, d.mapped, i, 256)
    ensures old(|d.free|) - |d.free| == |Pairs(d.at, i, 256)|
  {
    hide Linked, Permits, Supply, Quarter, Pairs;
    pdes := new U32[256](_ => 0);
    var counter, z := 0, 0;
    ghost var n := 0;
    QuarterStart(pdes[..], d.native, loadOffset, d.at, d.mapped, i);
    PairsNone(d.at, i);
    while z < 512
      invariant 0 <= n <= 256 && z == 2 * n
      invariant d.Valid() && Grown(old(d.native), d.native)
      invariant counter == |Pairs(d.at, i, n)| == old(|d.free|) - |d.free|
      invariant Quarter(pdes[..], d.native, loadOffset, d.at, d.mapped, i, n)
    {
      PairsGrow(d.at, i, n + 1, 256);
      counter := PackPair(d, loadOffset, lpte, pdes, counter, z, i, n);
      z := z + 2;
      n := n + 1;
    }
  }

  lemma PairsNone(at: Layout, i: nat)
    ensures Pairs(at, i, 0) == []
  {
  }

  /** memcpy of a quarter into the directory. */
  method CopyQuarter(globals: array<U32>, pdes: array<U32>, i: nat)
    requires globals.Length == ENTRIES && pdes.Length == 256 && i < 4 && globals != pdes
    modifies globals
    ensures globals[i * 256..i * 256 + 256] == pdes[..]
    ensures forall j :: 0 <= j < ENTRIES && j / 256 != i ==> globals[j] == old(globals[j])
  {
    for c := 0 to 256
      invariant globals[i * 256..i * 256 + c] == pdes[..c]
      invariant forall j :: 0 <= j < ENTRIES && j / 256 != i ==> globals[j] == old(globals[j])
    {
      globals[i * 256 + c] := pdes[c];
    }
  }

  /** Page tables HalSetDescription allocates: one per non-empty pair. */
  function PairTotal(at: Layout): nat {
    PairTotalBelow(at, 4)
  }

  function PairTotalBelow(at: Layout, n: nat): nat {
    if n == 0 then 0 else PairTotalBelow(at, n - 1) + |Pairs(at, n - 1, 256)|
  }

  lemma {:induction false} PairTotalGrow(at: Layout, m: nat, n: nat)
    requires m <= n
    ensures PairTotalBelow(at, m) <= PairTotalBelow(at, n)
  {
    if m < n {
      PairTotalGrow(at, m, n - 1);
    }
  }

  lemma PairTotalStep(at: Layout, n: nat)
    ensures PairTotalBelow(at, 0) == 0
    ensures PairTotalBelow(at, n + 1) == PairTotalBelow(at, n) + |Pairs(at, n, 256)|
  {
  }

  lemma {:induction false} NoPairs(at: Layout, mapped: Mapping, i: nat, n: nat)
    requires Closed(at, mapped) && Slot(3, i) !in at && n <= 256
    ensures Pairs(at, i, n) == []
  {
    if n > 0 {
      NoPairs(at, mapped, i, n - 1);
      assert Parent(PairSlot(i, n - 1, 0)) == Slot(3, i);
      assert Parent(PairSlot(i, n - 1, 1)) == Slot(3, i);
    }
  }

  /** The quarters below n of a directory under construction. */
  ghost predicate Quarters(words: Words, native: NativeMap, loadOffset: U32, at: Layout, mapped: Mapping, n: nat) {
    && |words| == ENTRIES && n <= 4
    && forall i {:trigger words[i * 256..i * 256 + 256]} :: 0 <= i < n ==>
         Quarter(words[i * 256..i * 256 + 256], native, loadOffset, at, mapped, i, 256)
  }

  lemma QuartersStep(words: Words, native: NativeMap, words': Words, native': NativeMap, loadOffset: U32, at: Layout,
      mapped: Mapping, n: nat)
    requires Quarters(words, native, loadOffset, at, mapped, n) && n < 4
    requires |words'| == ENTRIES && forall j :: 0 <= j < ENTRIES && j / 256 != n ==> words'[j] == words[j]
    requires Grown(native, native')
    requires Quarter(words'[n * 256..n * 256 + 256], native', loadOffset, at, mapped, n, 256)
    ensures Quarters(words', native', loadOffset, at, mapped, n + 1)
  {
    hide Quarter;
    forall i | 0 <= i < n
      ensures Quarter(words'[i * 256..i * 256 + 256], native', loadOffset, at, mapped, i, 256)
    {
      assert forall j :: i * 256 <= j < i * 256 + 256 ==> words'[j] == words[j];
      assert words'[i * 256..i * 256 + 256] == words[i * 256..i * 256 + 256];
      QuarterKept(words[i * 256..i * 256 + 256], native, native', loadOffset, at, mapped, i, 256);
    }
  }

  /** One turn of the outer loop: a 1 GiB slot, present or not. */
  method PackSlot(d: Description, loadOffset: U32, lpde: U32, globals: array<U32>, i: nat)
    requires d.Valid() && i < 4 && globals.Length == ENTRIES && loadOffset % 4096 == 0
    requires Slot(2, 0) in d.at && lpde == d.at[Slot(2, 0)]
    requires |d.free| >= |Pairs(d.at, i, 256)|
    requires Quarters(globals[..], d.native, loadOffset, d.at, d.mapped, i)
    modifies d`free, d`native, globals
    ensures d.Valid() && Grown(old(d.native), d.native)
    ensures Quarters(globals[..], d.native, loadOffset, d.at, d.mapped, i + 1)
    ensures old(|d.free|) - |d.free| == |Pairs(d.at, i, 256)|
  {
    hide Linked, Permits, Supply, Quarter, Pairs, Quarters;
    SlotEntry(d.pages, d.at, d.mapped, i);
    var pdes: array<U32>;
    if d.pages[lpde][i].address != 0 {
      pdes := FillPdes(d, loadOffset, d.pages[lpde][i].address, i);
    } else {
      pdes := new U32[256](_ => 0);
      NoPairsHere(d.pages, d.at, d.mapped, i);
      NoQuarter(pdes[..], d.native, loadOffset, d.at, d.mapped, i);
    }
    ghost var words := globals[..];
    CopyQuarter(globals, pdes, i);
    assert globals[..][i * 256..i * 256 + 256] == pdes[..];
    QuartersStep(words, old(d.native), globals[..], d.native, loadOffset, d.at, d.mapped, i);
  }

  lemma SlotEntry(pages: Pages, at: Layout, mapped: Mapping, i: nat)
    requires Linked(pages, at, mapped) && Slot(2, 0) in at && i < 4
    ensures at[Slot(2, 0)] in pages && |pages[at[Slot(2, 0)]]| == COUNT
    ensures pages[at[Slot(2, 0)]][i].address == AddressOf(at, Slot(3, i))
    ensures Slot(3, i) in at ==> at[Slot(3, i)] != 0
  {
    hide Closed;
    assert TableHolds(pages[at[Slot(2, 0)]], at, mapped, Slot(2, 0));
    assert Child(Slot(2, 0), i) == Slot(3, i);
  }

  lemma NoPairsHere(pages: Pages, at: Layout, mapped: Mapping, i: nat)
    requires Linked(pages, at, mapped) && Slot(3, i) !in at
    ensures Pairs(at, i, 256) == []
  {
    hide Closed, Pairs;
    NoPairs(at, mapped, i, 256);
  }

  lemma NoQuarter(words: Words, native: NativeMap, loadOffset: U32, at: Layout, mapped: Mapping, i: nat)
    requires |words| == 256 && Pairs(at, i, 256) == []
    requires forall c :: 0 <= c < 256 ==> words[c] == 0
    ensures Quarter(words, native, loadOffset, at, mapped, i, 256)
  {
  }

  /** Every entry of the directory is the physical address of a page table, which the
      kernel has an offset higher, with the constant 3 for present and writable. */
  ghost predicate TablesReached(native: NativeMap, loadOffset: U32, global: U32) {
    && global in native && |native[global]| == ENTRIES
    && forall j {:trigger native[global][j]} :: 0 <= j < ENTRIES && native[global][j] != 0 ==>
         && native[global][j] % 4096 == 3
         && (native[global][j] - 3 + loadOffset) % WORD32 in native
         && |native[(native[global][j] - 3 + loadOffset) % WORD32]| == ENTRIES
  }

  lemma DirectoryReached(native: NativeMap, loadOffset: U32, cr3: U32, global: U32, at: Layout, mapped: Mapping)
    requires Flattened(native, loadOffset, cr3, at, mapped) && (cr3 + loadOffset) % WORD32 == global
    ensures TablesReached(native, loadOffset, global)
  {
    hide Quarter, FrameOf, Pairs, IsPresent, IsLarge, PteWords;
    var directory := ReadTable(native, loadOffset, cr3);
    forall j | 0 <= j < ENTRIES && directory[j] != 0
      ensures directory[j] % 4096 == 3
      ensures var t := (directory[j] - 3 + loadOffset) % WORD32; t in native && |native[t]| == ENTRIES
    {
      var i, k := j / 256, j % 256;
      QuarterEntry(directory, native, loadOffset, at, mapped, i, k, j);
      MarkedThree(directory[j]);
    }
  }

  lemma MarkedThree(w: U32)
    requires w % 4096 == 3
    ensures FrameOf(w) == w - 3
  {
  }

  /** HalSetDescription: rebuild the native tables if the description changed, and
      load the directory. Something must be mapped, or the code follows a null link. */
  method SetDescription(d: Description, loadOffset: U32) returns (cr3: U32)
    requires d.Valid() && loadOffset % 4096 == 0
    requires d.modified ==> d.mapped != map[] && d.mapped.Keys <= Below(PAGES)
    requires d.modified ==> |d.free| >= PairTotal(d.at) + 1
    modifies d`free, d`native, d`global
    ensures d.Valid() && (cr3 + loadOffset) % WORD32 == d.global
    ensures !d.modified ==> d.global == old(d.global) && d.native == old(d.native) && d.free == old(d.free)
    ensures d.modified ==>
      Flattened(d.native, loadOffset, cr3, d.at, d.mapped) && TablesReached(d.native, loadOffset, d.global)
    ensures d.modified ==> old(|d.free|) - |d.free| == PairTotal(d.at) + 1
  {
    hide Linked, Permits, Supply, Quarters, PairTotal, Flattened, TablesReached, VirtualToPhysical;
    if d.modified {
      var globals := FillGlobals(d, loadOffset);
      LoadGlobals(d, loadOffset, globals);
    }
    ConversionsInverse(d.global, loadOffset);
    cr3 := VirtualToPhysical(d.global, loadOffset);
  }

  /** The outer loop: the directory's words, slot by slot. */
  method FillGlobals(d: Description, loadOffset: U32) returns (globals: array<U32>)
    requires d.Valid() && loadOffset % 4096 == 0
    requires d.mapped != map[] && d.mapped.Keys <= Below(PAGES)
    requires |d.free| >= PairTotal(d.at)
    modifies d`free, d`native
    ensures fresh(globals) && globals.Length == ENTRIES && d.Valid()
    ensures Quarters(globals[..], d.native, loadOffset, d.at, d.mapped, 4)
    ensures old(|d.free|) - |d.free| == PairTotal(d.at)
  {
    hide Linked, Permits, Supply, Quarter, Quarters, Pairs, PairTotalBelow;
    globals := new U32[1024](_ => 0);
    UpperTables(d.pages, d.at, d.mapped);
    var globalMpde := d.pages[d.gpde][0].address;
    var globalLpde := d.pages[globalMpde][0].address;
    QuartersNone(globals[..], d.native, loadOffset, d.at, d.mapped);
    for i := 0 to 4
      invariant d.Valid()
      invariant Quarters(globals[..], d.native, loadOffset, d.at, d.mapped, i)
      invariant old(|d.free|) - |d.free| == PairTotalBelow(d.at, i)
    {
      PairTotalStep(d.at, i);
      PairTotalGrow(d.at, i + 1, 4);
      PackSlot(d, loadOffset, globalLpde, globals, i);
    }
  }

  /** The end of HalSetDescription: the words become the description's directory. */
  method LoadGlobals(d: Description, loadOffset: U32, globals: array<U32>)
    requires d.Valid() && |d.free| > 0 && globals.Length == ENTRIES
    requires Quarters(globals[..], d.native, loadOffset, d.at, d.mapped, 4)
    modifies d`free, d`native, d`global
    ensures d.Valid() && old(|d.free|) - |d.free| == 1
    ensures Flattened(d.native, loadOffset, VirtualToPhysical(d.global, loadOffset), d.at, d.mapped)
    ensures TablesReached(d.native, loadOffset, d.global)
  {
    hide Linked, Permits, Supply, Quarters, Flattened, TablesReached, VirtualToPhysical;
    ghost var before := d.native;
    d.global := d.CreateNative(globals[..]);
    DirectoryLoaded(globals[..], before, d.native, d.global, loadOffset, d.at, d.mapped);
    ConversionsInverse(d.global, loadOffset);
    DirectoryReached(d.native, loadOffset, VirtualToPhysical(d.global, loadOffset), d.global, d.at, d.mapped);
  }

  lemma QuartersNone(words: Words, native: NativeMap, loadOffset: U32, at: Layout, mapped: Mapping)
    requires |words| == ENTRIES
    ensures Quarters(words, native, loadOffset, at, mapped, 0) && PairTotalBelow(at, 0) == 0
  {
  }

  lemma DirectoryLoaded(words: Words, native: NativeMap, native': NativeMap, a: U32, loadOffset: U32, at: Layout,
      mapped: Mapping)
    requires Quarters(words, native, loadOffset, at, mapped, 4)
    requires a !in native && native' == native[a := words]
    ensures Flattened(native', loadOffset, VirtualToPhysical(a, loadOffset), at, mapped)
  {
    hide Quarter;
    ConversionsInverse(a, loadOffset);
    forall i | 0 <= i < 4
      ensures Quarter(words[i * 256..i * 256 + 256], native', loadOffset, at, mapped, i, 256)
    {
      QuarterKept(words[i * 256..i * 256 + 256], native, native', loadOffset, at, mapped, i, 256);
    }
  }

  /** The two links the code follows before the loop. */
  lemma UpperTables(pages: Pages, at: Layout, mapped: Mapping)
    requires Linked(pages, at, mapped) && mapped != map[] && mapped.Keys <= Below(PAGES)
    ensures Slot(1, 0) in at && Slot(2, 0) in at && ROOT in at
    ensures at[ROOT] in pages && |pages[at[ROOT]]| == COUNT && pages[at[ROOT]][0].address == at[Slot(1, 0)]
    ensures at[Slot(1, 0)] in pages && |pages[at[Slot(1, 0)]]| == COUNT
        && pages[at[Slot(1, 0)]][0].address == at[Slot(2, 0)]
  {
    hide Closed, Prefix;
    var page :| page in mapped;
    Paths32(page);
    if PathSlot(1, page) !in at {
      MissingPath(at, mapped, 1, page);
    }
    if PathSlot(2, page) !in at {
      MissingPath(at, mapped, 2, page);
    }
    RootOnPath(pages, at, mapped, page);
    EntryOnPath(pages, at, mapped, 0, page);
    EntryOnPath(pages, at, mapped, 1, page);
  }
}
