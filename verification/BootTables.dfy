/** The 4 MiB page directories used before the kernel has tables of its own:
    HalRemapBootloader (inuhal/arch/IA32/hal.c) and BtldrMapMmu (inuldr/arch/IA32/entry.c). */
module BootTables {
  import Arith
  import opened Bits
  import opened NativePaging
  import opened Wrappers

  /** An address with its top bit inverted. */
  function FlipTop(a: U32): U32 {
    if a < 0x8000_0000 then a + 0x8000_0000 else a - 0x8000_0000
  }

  /** struct PDE4, lowest bit field first. */
  function Pde4(present: bool, rw: bool, us: bool, writeThroughCache: bool, cacheDisable: bool,
                accessed: bool, dirty: bool, pageSize: bool, global: bool): nat {
    Bit(present, 0) + Bit(rw, 1) + Bit(us, 2) + Bit(writeThroughCache, 3) + Bit(cacheDisable, 4)
    + Bit(accessed, 5) + Bit(dirty, 6) + Bit(pageSize, 7) + Bit(global, 8)
  }

  function BootAttributes(): (w: U32)
    ensures w == 0x83
  {
    assert Pow2(7) == 128;
    Pde4(true, true, false, false, false, false, false, true, false)
  }

  /** The entry for 4 MiB frame m. */
  lemma LargeEntry(m: nat)
    requires m < ENTRIES
    ensures var w := Or(m * LARGE, 0x83);
            w == m * LARGE + 0x83 < WORD32 && IsPresent(w) && IsLarge(w) && w / LARGE * LARGE == m * LARGE
  {
    hide Pow2, Or, MulPow2, IsPresent, IsLarge;
    LargeOr(m);
    LargeFlags(m * LARGE + 0x83, m);
    Arith.DivUnique(m * LARGE + 0x83, LARGE, m, 0x83);
  }

  lemma LargeOr(m: nat)
    ensures Or(m * LARGE, 0x83) == m * LARGE + 0x83
  {
    hide Pow2, Or, MulPow2;
    Pow2Values();
    MulPow2Is(m, 22);
    OrDisjoint(0x83, m, 22);
  }

  lemma LargeFlags(w: nat, m: nat)
    requires m < ENTRIES && w == m * LARGE + 0x83
    ensures IsPresent(w) && IsLarge(w)
  {
    Arith.DivUnique(w, 128, m * 32768 + 1, 3);
    Arith.DivUnique(w, 2, m * 0x20_0000 + 0x41, 1);
    Arith.DivUnique(w / 128, 2, m * 16384, 1);
  }

  lemma LargeWalk(directory: Words, native: NativeMap, loadOffset: U32, vaddr: U32, m: nat)
    requires m < ENTRIES && |directory| == ENTRIES && directory[vaddr / LARGE] == Or(m * LARGE, 0x83)
    ensures WalkDirectory(directory, native, loadOffset, vaddr) == Some(m * LARGE + vaddr % LARGE)
  {
    hide Or, IsPresent, IsLarge;
    LargeEntry(m);
  }

  /** The frame half the address space away. */
  function Opposite(i: nat): nat
    requires i < ENTRIES
  {
    if i < 512 then i + 512 else i - 512
  }

  /** The frame of the lower half an entry of the loader's directory stands for. */
  function Lower(i: nat): (m: nat)
    ensures m < 512
  {
    i % 512
  }

  /** The directory of a map that shifts 4 MiB frames by half the address space. */
  ghost predicate Remapped(directory: Words) {
    |directory| == ENTRIES && forall i :: 0 <= i < ENTRIES ==> directory[i] == Or(Opposite(i) * LARGE, 0x83)
  }

  ghost predicate LowHalfTwice(directory: Words) {
    |directory| == ENTRIES && forall i :: 0 <= i < ENTRIES ==> directory[i] == Or(Lower(i) * LARGE, 0x83)
  }

  method RemapBootloader(tableData: array<U32>)
    requires tableData.Length == ENTRIES
    modifies tableData
    ensures Remapped(tableData[..])
  {
    hide Or;
    var address: U32 := 0x8000_0000;
    var attributes := BootAttributes();
    for i := 0 to 512
      invariant address == (0x8000_0000 + i * LARGE) % WORD32
      invariant forall j :: 0 <= j < i ==> tableData[j] == Or(Opposite(j) * LARGE, 0x83)
    {
      LargeOr(Opposite(i));
      tableData[i] := Or(address, attributes);
      address := (address + LARGE) % WORD32;
    }
    address := 0;
    for i := 512 to 1024
      invariant address == (i - 512) * LARGE
      invariant forall j :: 0 <= j < i ==> tableData[j] == Or(Opposite(j) * LARGE, 0x83)
    {
      LargeOr(Opposite(i));
      tableData[i] := Or(address, attributes);
      address := (address + LARGE) % WORD32;
    }
  }

  /** The address before entry i: half the space is reached, not left. */
  ghost function Reached(i: nat): U32 {
    if i == 0 then 0 else ((i - 1) % 512 + 1) * LARGE
  }

  lemma ReachedStart()
    ensures Reached(0) == 0
  {
  }

  lemma ReachedStep(i: nat)
    requires i < ENTRIES
    ensures (if Reached(i) == 0x8000_0000 then 0 else Reached(i)) == Lower(i) * LARGE
    ensures Reached(i + 1) == (Lower(i) * LARGE + LARGE) % WORD32
  {
    if i % 512 == 0 {
      assert i == 0 || (i - 1) % 512 == 511;
    } else {
      assert (i - 1) % 512 + 1 == i % 512;
    }
  }

  method MapMmu(pt: array<U32>)
    requires pt.Length == ENTRIES
    modifies pt
    ensures LowHalfTwice(pt[..])
  {
    hide Or, Reached, Lower;
    ReachedStart();
    var address: U32 := 0;
    var attributes := BootAttributes();
    for i := 0 to 1024
      invariant address == Reached(i)
      invariant forall j :: 0 <= j < i ==> pt[j] == Or(Lower(j) * LARGE, 0x83)
    {
      ReachedStep(i);
      if address == 0x8000_0000 {
        address := 0;
      }
      LargeOr(Lower(i));
      pt[i] := Or(address, attributes);
      address := (address + LARGE) % WORD32;
    }
  }

  /** The kernel's boot directory inverts the top bit of every address. */
  lemma RemapFlips(directory: Words, native: NativeMap, loadOffset: U32, vaddr: U32)
    requires Remapped(directory)
    ensures WalkDirectory(directory, native, loadOffset, vaddr) == Some(FlipTop(vaddr))
  {
    hide Or, WalkDirectory;
    var m, r := Arith.DivMod(vaddr, LARGE);
    LargeWalk(directory, native, loadOffset, vaddr, Opposite(m));
  }

  /** The loader's directory drops the top bit of every address. */
  lemma MapMmuDrops(directory: Words, native: NativeMap, loadOffset: U32, vaddr: U32)
    requires LowHalfTwice(directory)
    ensures WalkDirectory(directory, native, loadOffset, vaddr) == Some(vaddr % 0x8000_0000)
  {
    hide Or, WalkDirectory;
    var m, r := Arith.DivMod(vaddr, LARGE);
    var h, l := Arith.DivMod(m, 512);
    Arith.DivUnique(vaddr, 0x8000_0000, h, l * LARGE + r);
    LargeWalk(directory, native, loadOffset, vaddr, l);
  }

  /** The two agree on exactly the upper half. */
  lemma BootTablesAgree(kernel: Words, loader: Words, native: NativeMap, loadOffset: U32, vaddr: U32)
    requires Remapped(kernel) && LowHalfTwice(loader)
    ensures WalkDirectory(kernel, native, loadOffset, vaddr) == WalkDirectory(loader, native, loadOffset, vaddr)
            <==> vaddr >= 0x8000_0000
  {
    hide WalkDirectory, Remapped, LowHalfTwice;
    RemapFlips(kernel, native, loadOffset, vaddr);
    MapMmuDrops(loader, native, loadOffset, vaddr);
  }
}
