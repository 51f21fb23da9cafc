/** Where MmInitialize (inuoskrnl/mm/base.c) puts the page map and the pages, and when
    the map is long enough. */
module PageMaps {
  import opened Arith
  import opened Lines
  import opened Memory

  const MANAGER_SIZE: nat := 42

  /** The map of one byte per page, the pages reserved for it, and the pages behind. */
  datatype MapLayout = MapLayout(map_: nat, mapPages: nat, pages: nat, count: nat) {
    function End(): nat {
      pages + count * PAGE_SIZE
    }
  }

  /** The gap up to the first aligned page: a whole page for an aligned start. */
  function Gap(start: nat): nat {
    PAGE_SIZE - (start + KERNEL_OFFSET) % PAGE_SIZE
  }

  predicate LargeEnough(start: nat, size: nat) {
    size >= KERNEL_OFFSET + MANAGER_SIZE + Gap(start)
  }

  /** Memory left for pages. */
  function Rest(start: nat, size: nat): nat
    requires LargeEnough(start, size)
  {
    size - KERNEL_OFFSET - MANAGER_SIZE - Gap(start)
  }

  function LayoutFor(start: nat, size: nat): MapLayout
    requires LargeEnough(start, size)
  {
    var count := Rest(start, size) / PAGE_SIZE;
    var bytes := count / 8;
    var mapPages := bytes / PAGE_SIZE + (if bytes % PAGE_SIZE != 0 then 1 else 0);
    var aligned := start + KERNEL_OFFSET + Gap(start);
    MapLayout(aligned, mapPages, aligned + PAGE_SIZE * mapPages, count)
  }

  /** The computation of MmInitialize. */
  method ComputeLayout(start: nat, size: nat) returns (layout: MapLayout)
    requires LargeEnough(start, size)
    ensures layout == LayoutFor(start, size)
  {
    var memoryStart := start + KERNEL_OFFSET;
    var memorySize: int := size - KERNEL_OFFSET;
    var aligningOffset := memoryStart + (PAGE_SIZE - memoryStart % PAGE_SIZE);
    memorySize := memorySize - MANAGER_SIZE;
    memorySize := memorySize - (aligningOffset - memoryStart);
    var pageCount := memorySize / PAGE_SIZE;
    var firstAlignedPage := aligningOffset;
    var bitmapSize := pageCount / (8 * 1);
    var bitmapPageSize := bitmapSize / PAGE_SIZE;
    if bitmapSize % PAGE_SIZE != 0 {
      bitmapPageSize := bitmapPageSize + 1;
    }
    var map_ := firstAlignedPage;
    firstAlignedPage := firstAlignedPage + PAGE_SIZE * bitmapPageSize;
    layout := MapLayout(map_, bitmapPageSize, firstAlignedPage, pageCount);
  }

  /** The map starts at the first page boundary strictly above the offset and takes the
      least number of pages for a byte for every eight pages; all memory behind the
      manager and the gap is counted as pages. */
  lemma LayoutLeast(start: nat, size: nat)
    requires LargeEnough(start, size)
    ensures var l := LayoutFor(start, size);
            && l.map_ % 4096 == 0 && start + 4000000 < l.map_ <= start + 4000000 + 4096
            && l.count * 4096 <= size - 42 - (l.map_ - start) < (l.count + 1) * 4096
            && l.count / 8 <= l.mapPages * 4096 < l.count / 8 + 4096 && l.pages == l.map_ + l.mapPages * 4096
  {
    var q, r := DivMod(LayoutFor(start, size).count / 8, PAGE_SIZE);
  }

  /** The map's cells all lie before the pages. */
  predicate MapApart(l: MapLayout) {
    l.map_ + l.count <= l.pages
  }

  /** A byte is reserved for eight pages where the map needs one for each: it is long
      enough only up to the first page of cells. */
  lemma MapApartExactly(start: nat, size: nat)
    requires LargeEnough(start, size)
    ensures MapApart(LayoutFor(start, size)) <==>
            LayoutFor(start, size).count == 0 || 8 <= LayoutFor(start, size).count <= 4096
  {
    var count := Rest(start, size) / PAGE_SIZE;
    var b, r := DivMod(count, 8);
    var m, t := DivMod(b, PAGE_SIZE);
  }

  /** The manager's own fields lie before the map exactly when the gap holds them, and
      the pages end inside the memory exactly when what is left past the last page
      makes up for the map, which was never subtracted. */
  lemma PlacesExactly(start: nat, size: nat)
    requires LargeEnough(start, size)
    ensures var l := LayoutFor(start, size);
            && (start + KERNEL_OFFSET + MANAGER_SIZE <= l.map_ <==> MANAGER_SIZE <= Gap(start))
            && (l.End() <= start + size <==> l.mapPages * PAGE_SIZE <= MANAGER_SIZE + Rest(start, size) % PAGE_SIZE)
  {
    var q, r := DivMod(Rest(start, size), PAGE_SIZE);
  }

  /** A cell past the reserved pages is a byte of a page. */
  lemma CellInPage(l: MapLayout, c: nat)
    requires l.pages == l.map_ + PAGE_SIZE * l.mapPages && PAGE_SIZE * l.mapPages <= c < l.count
    ensures var k := (c - PAGE_SIZE * l.mapPages) / PAGE_SIZE;
            k < l.count && l.pages + k * PAGE_SIZE <= l.map_ + c < l.pages + (k + 1) * PAGE_SIZE
  {
    var k, r := DivMod(c - PAGE_SIZE * l.mapPages, PAGE_SIZE);
  }

  /** The allocator flag of a page's byte in the map. */
  predicate AllocatorFlag(byte: nat) {
    byte / 4 % 2 == 1
  }

  /** Byte n of a little-endian 32-bit word. */
  function ByteOf(word: nat, n: nat): nat
    requires n < 4
  {
    word / (if n == 0 then 1 else if n == 1 then 0x100 else if n == 2 then 0x1_0000 else 0x100_0000) % 256
  }

  const BITMAP_FIELD: nat := 34

  /** With the memory the firmware reports, the map is too short and the pages end past
      the memory. The very first allocator, made in page 1, then marks a page without
      one as an allocator: byte 2 of its bitmap pointer is the cell of page 20516. */
  lemma FirmwareOverlaps()
    ensures LargeEnough(FIRMWARE_START, FIRMWARE_SIZE)
    ensures var l := LayoutFor(FIRMWARE_START, FIRMWARE_SIZE);
            && l.count == 130094 && l.mapPages == 4 && !MapApart(l)
            && l.End() > FIRMWARE_START + FIRMWARE_SIZE
    ensures var l := LayoutFor(FIRMWARE_START, FIRMWARE_SIZE);
            var allocator := l.pages + 1 * PAGE_SIZE;
            var bitmap := allocator + Lines.LayoutOf(CreatePages(512) * PAGE_SIZE).header * LINE_SIZE;
            && l.map_ + 20516 == allocator + BITMAP_FIELD + 2 && AllocatorFlag(ByteOf(bitmap, 2))
  {
    assert (FIRMWARE_START + KERNEL_OFFSET) % PAGE_SIZE == 2304;
    assert Rest(FIRMWARE_START, FIRMWARE_SIZE) / PAGE_SIZE == 130094;
    assert LayoutFor(FIRMWARE_START, FIRMWARE_SIZE) == MapLayout(0x809D_1000, 4, 0x809D_5000, 130094);
    assert 0x809D_6040 / 0x1_0000 == 0x809D;
  }
}
