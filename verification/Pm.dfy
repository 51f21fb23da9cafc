/** The physical page allocator of inuoskrnl/pm/base.c. */
module Pm {
  import opened Bits
  import opened FirstFit
  import opened Memory

  const BAD_PAGE: nat := 0

  // ----- where the table and the pages go

  /** PM_ALIGN_UP: strictly above a, even when a is aligned already. */
  function AlignUp(a: nat): nat {
    a + (PAGE_SIZE - a % PAGE_SIZE)
  }

  datatype Layout = Layout(table: nat, mapPages: nat, pages: nat, count: nat) {
    function End(): nat {
      pages + count * PAGE_SIZE
    }
  }

  /** Room for the offset and for the attribute table of all the pages. */
  predicate LargeEnough(size: nat) {
    size >= KERNEL_OFFSET
        && (size - KERNEL_OFFSET) / PAGE_SIZE > AlignUp((size - KERNEL_OFFSET) / PAGE_SIZE) / PAGE_SIZE
  }

  /** The computation of PmInitialize for memory of the given size at start. */
  method ComputeLayout(start: nat, size: nat) returns (layout: Layout)
    requires LargeEnough(size) && start + size <= WORD32
    ensures layout == LayoutOf(start, size)
  {
    var memoryStart := AlignUp(start + KERNEL_OFFSET);
    var memorySize := size - KERNEL_OFFSET;
    var pageCount := memorySize / PAGE_SIZE;
    var mapSizeInPages := AlignUp(pageCount * 1);
    mapSizeInPages := mapSizeInPages / PAGE_SIZE;
    var table := memoryStart;
    memoryStart := memoryStart + mapSizeInPages * PAGE_SIZE;
    memorySize := memorySize - mapSizeInPages * PAGE_SIZE;
    layout := Layout(table, mapSizeInPages, memoryStart, memorySize / PAGE_SIZE);
  }

  function LayoutOf(start: nat, size: nat): Layout
    requires LargeEnough(size)
  {
    var total := (size - KERNEL_OFFSET) / PAGE_SIZE;
    var mapPages := AlignUp(total) / PAGE_SIZE;
    Layout(AlignUp(start + KERNEL_OFFSET), mapPages, AlignUp(start + KERNEL_OFFSET) + mapPages * PAGE_SIZE,
        total - mapPages)
  }

  /** The table starts at the first page boundary strictly above the offset and takes the
      least number of pages strictly above a byte for every page there is, its own
      included; the rest are the pages behind it. */
  lemma LayoutLeast(start: nat, size: nat)
    requires LargeEnough(size)
    ensures var l := LayoutOf(start, size);
            var total := l.mapPages + l.count;
            && l.table % 4096 == 0 && start + 4000000 < l.table <= start + 4000000 + 4096
            && total * 4096 <= size - 4000000 < (total + 1) * 4096
            && (l.mapPages - 1) * 4096 <= total < l.mapPages * 4096 && l.pages == l.table + l.mapPages * 4096
  {
  }

  /** The table lies in memory before the pages, has a byte for each of them and some
      to spare, and the pages are aligned. They end inside the memory exactly when
      the size leaves as much past a page boundary as aligning the start wastes. */
  lemma LayoutFits(start: nat, size: nat)
    requires LargeEnough(size)
    ensures var l := LayoutOf(start, size);
            && start + KERNEL_OFFSET <= l.table && l.table % PAGE_SIZE == 0 && l.pages % PAGE_SIZE == 0
            && 0 < l.count < l.mapPages * PAGE_SIZE && l.table + l.mapPages * PAGE_SIZE == l.pages
            && (l.End() <= start + size <==>
                PAGE_SIZE - (start + KERNEL_OFFSET) % PAGE_SIZE <= (size - KERNEL_OFFSET) % PAGE_SIZE)
  {
  }

  /** For page-aligned memory the pages end exactly where the memory does. */
  lemma LayoutExact(start: nat, size: nat)
    requires LargeEnough(size) && start % PAGE_SIZE == 0 && size % PAGE_SIZE == 0
    ensures LayoutOf(start, size).End() == start + size
  {
    var a, b := start / PAGE_SIZE, size / PAGE_SIZE;
    assert start == a * PAGE_SIZE && size == b * PAGE_SIZE;
    assert (start + KERNEL_OFFSET) % PAGE_SIZE == 2304;
    assert (size - KERNEL_OFFSET) / PAGE_SIZE == b - 977;
  }

  /** The memory the firmware reports is aligned, so its 130063 pages end where it does;
      one byte less of it, and the last page would lie past the end. */
  lemma FirmwareFits()
    ensures FIRMWARE_START == 0x8060_0000 && FIRMWARE_SIZE == 0x2000_0000 && LargeEnough(FIRMWARE_SIZE)
    ensures LayoutOf(FIRMWARE_START, FIRMWARE_SIZE) == Layout(0x809D_1000, 32, 0x809F_1000, 130063)
    ensures LayoutOf(FIRMWARE_START, FIRMWARE_SIZE).End() == 0xA060_0000
    ensures var less := FIRMWARE_SIZE - 1;
            LargeEnough(less) && LayoutOf(FIRMWARE_START, less).End() > FIRMWARE_START + less
  {
    LayoutExact(FIRMWARE_START, FIRMWARE_SIZE);
    LayoutFits(FIRMWARE_START, FIRMWARE_SIZE - 1);
  }

  // ----- the allocator

  datatype PageAttributes = PageAttributes(occupied: bool, forbidden: bool)

  const FREE: PageAttributes := PageAttributes(false, false)
  const TAKEN: PageAttributes := PageAttributes(true, false)
  const RESERVED: PageAttributes := PageAttributes(true, true)

  class PageAllocator {
    const table: array<PageAttributes>
    const page: nat

    ghost function Occupied(): (s: Marks)
      reads this, table
      ensures |s| == table.Length && forall i :: 0 <= i < |s| ==> s[i] == table[i].occupied
    {
      seq(table.Length, i requires 0 <= i < table.Length reads this, table => table[i].occupied)
    }

    /** Page zero is never free, so index zero can mean failure. */
    ghost predicate Valid()
      reads this, table
    {
      table.Length > 0 && table[0].occupied
    }

    /** PmInitialize. */
    constructor (start: nat, size: nat)
      requires LargeEnough(size) && start + size <= WORD32
      ensures Valid() && fresh(table)
      ensures page == LayoutOf(start, size).pages && table.Length == LayoutOf(start, size).count
      ensures Occupied() == seq(table.Length, i => i == 0)
      ensures forall i :: 0 <= i < table.Length ==> table[i] == if i == 0 then RESERVED else FREE
    {
      LayoutFits(start, size);
      var layout := ComputeLayout(start, size);
      page := layout.pages;
      var attributes := new PageAttributes[layout.count](_ => FREE);
      attributes[0] := RESERVED;
      table := attributes;
    }

    method ChangePageAttributes(index: nat, attributes: PageAttributes)
      requires index < table.Length
      modifies table
      ensures Occupied() == old(Occupied())[index := attributes.occupied]
      ensures table[..] == old(table[..])[index := attributes]
    {
      table[index] := attributes;
    }

    /** The lowest free run is marked and its start returned; zero, with nothing
        changed, exactly when there is no such run. */
    method AllocatePage(count: nat) returns (entry: nat)
      requires Valid()
      modifies table
      ensures Valid()
      ensures count == 0 ==> entry == 1 && Occupied() == old(Occupied())
      ensures count > 0 ==> (entry == BAD_PAGE <==> !HasRun(old(Occupied()), count))
      ensures count > 0 && entry == BAD_PAGE ==> Occupied() == old(Occupied())
      ensures count > 0 && entry != BAD_PAGE ==>
        IsFirstRun(old(Occupied()), count, entry) && Occupied() == MarkRun(old(Occupied()), entry, count)
      ensures entry != BAD_PAGE ==>
        forall i :: 0 <= i < table.Length ==> table[i] == if entry <= i < entry + count then TAKEN else old(table[i])
    {
      ghost var was := Occupied();
      entry := 0;
      var length := 0;
      for i := 0 to table.Length
        invariant Occupied() == was && table[..] == old(table[..]) && (i == 0 ==> entry == length == 0)
        invariant count == 0 ==> i == 0
        invariant count > 0 ==> Scanned(was, count, i, entry, length) && length < count
      {
        if count > 0 {
          if was[i] {
            ScanOccupied(was, count, i, entry, length);
          } else {
            ScanFree(was, count, i, entry, length);
          }
        }
        if !table[i].occupied {
          length := length + 1;
        } else {
          entry := i + 1;
          length := 0;
        }
        if length == count {
          MarkPages(entry, length);
          return;
        }
      }
      ScanEnd(was, count, entry, length);
      entry := BAD_PAGE;
    }

    method MarkPages(entry: nat, length: nat)
      requires Valid() && (length > 0 ==> entry + length <= table.Length)
      modifies table
      ensures Valid() && Occupied() == MarkRun(old(Occupied()), entry, length)
      ensures forall i :: 0 <= i < table.Length ==>
            table[i] == if entry <= i < entry + length then TAKEN else old(table[i])
    {
      for z := 0 to length
        invariant Valid() && Occupied() == MarkRun(old(Occupied()), entry, z)
        invariant forall i :: 0 <= i < table.Length ==>
              table[i] == if entry <= i < entry + z then TAKEN else old(table[i])
      {
        ghost var before := table[..];
        ChangePageAttributes(z + entry, TAKEN);
        assert forall i :: 0 <= i < table.Length ==>
              table[i] == table[..][i] && before[i] == if entry <= i < entry + z then TAKEN else old(table[i]);
      }
      assert MarkRun(Occupied(), entry, 0) == Occupied();
    }

    /** As written, freeing marks the page occupied: it is never available again. */
    method FreePage(index: nat)
      requires Valid() && index < table.Length
      modifies table
      ensures Valid() && Occupied() == old(Occupied())[index := true]
      ensures table[..] == old(table[..])[index := TAKEN]
    {
      ChangePageAttributes(index, TAKEN);
    }

    function PageAddress(index: nat): nat {
      page + PAGE_SIZE * index
    }

    function PageIndex(address: nat): int {
      (address - page) / PAGE_SIZE
    }

    /** Any address inside a page leads back to the page's index, and the pages lie one
        behind the other from the first to the end. */
    lemma IndexOfAddress(index: nat, offset: nat)
      requires offset < PAGE_SIZE
      ensures PageIndex(PageAddress(index) + offset) == index
      ensures PageAddress(0) == page && PageAddress(index + 1) == PageAddress(index) + 4096
      ensures index < table.Length ==> PageAddress(index) + offset < page + 4096 * table.Length
    {
    }
  }
}
