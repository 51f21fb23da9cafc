# INTERNATIONALE: verified models

INTERNATIONALE is a 32-bit kernel for IA32. This project models five parts of it in
Dafny and proves what they do, for all inputs and over whole runs.

1. **Virtual memory.** The map calls build an abstract five-level table lazily
   (`PageTables`, `Permissions`, `Spaces`); `HalSetDescription` flattens it into a page
   directory and page tables (`NativePaging`, `NativeEntries`, `Hal`), read the way 32-bit paging is
   described in section 4.3 of the Intel 64 and IA-32 Architectures Software Developer's
   Manual, Volume 3A. The 4 MiB directories used while booting are `BootTables`; the
   kernel's own map and its comparison with them is `KernelMap`; `LoadedRuns` puts whole
   runs of map calls and the loading together.
2. **64-bit arithmetic from 32-bit words**, the integer library routines of section 4.1
   of GCC Internals: `Division`, `ZeroCounts`, `PopCounts`, `WordShifts`.
3. **Two-level allocation.** The page allocator (`Pm`), the bitmap heap above it (`Ga`
   for one pool's allocator, `Heap` for the chain of pools, `HeapRuns` for what holds
   over whole runs, `HeapRequests` for what its callers get, `MixedHeap` and `LiveBlocks`
   for the chain under frees), and the older line allocator (`Lines`, `LineHeap`, and
   `PageMaps` for where its page map lies).
   `Supplies` shows that the pages handed out are what the paging code needs. `FirstFit`,
   `BitBytes` and `Memory` are what they share.
4. **Text and archives**: `Numbers`, `Strings`, `Printing` and `Formats` (what formats
   print, by directive), `Tar` (ustar entries as in POSIX.1, pax, "ustar Interchange
   Format") and `TarFiles` (files written to a disk and read back).
5. **Signal control levels**: `Signals`.

`Arith`, `Bits` and `Wrappers` hold arithmetic on integers, machine words as integers
with the bitwise operators written out, and an option type.

Code that updates state is a class or a method over arrays with loops as in the source;
its contracts equate the new state with a function of the old, and the properties are
lemmas about those functions. Some loops and branches of a long source function are
methods of their own, so that each has a contract.

`dafny verify dfyconfig.toml` checks everything.

## What the proofs say about the code

- `HalSetDescription` packs the page tables of a 1 GiB slot to the front of its quarter
  of the directory. It translates the mapped addresses correctly if and only if the
  non-empty pairs of leaf tables form a prefix of each slot and all frames are aligned
  (`NativePaging.FaithfulExactly`). A single page at 4 MiB is enough to break it
  (`NativePaging.GapExample`).
- It ignores the attributes of a mapping: the entry is the one asked for exactly when the
  attributes are present and writable and nothing else (`NativeEntries.WordExactly`). The
  kernel's own map asks for write-through and gets it nowhere (`KernelMap.KernelEntries`).
- It translates addresses that were never mapped unless every present leaf table is
  complete and there is no gap (`NativeEntries.SilentExactly`); one mapped page already
  sends its neighbour to frame zero (`NativeEntries.OnePageExample`). When the processor
  finds exactly what was asked for, at every address, is `NativeEntries.EquivalentExactly`.
- `HalSetDescription` reaches its own tables through the map it loads only because the
  kernel's load offset is the distance that map moves addresses by
  (`KernelMap.SelfMappedExactly`).
- `VmTableInitialize` clears the first entry again and again; tables are empty only
  because fresh pages are zeroed.
- `PmFreePage` marks the page occupied. `PmInitialize` may place its last page past the
  end of memory if start or size are not page aligned (`Pm.LayoutFits` has the exact
  condition). The firmware's start and size are aligned, so there the pages end exactly
  where the memory does (`Pm.FirmwareFits`).
- As long as only live blocks are given back, the heap's live blocks share no byte
  (`MixedHeap.MixedHeap.LiveShareNothing`), although a cache may then promise less than
  its pool has.
- A heap pool made for a request of more than 318 blocks, or 20352 bytes, is too small for
  it, and the allocation returns null (`HeapRuns.NewPoolServes`, `HeapRuns.NullExactly`).
  `MmAllocatePayload` without room returns the address of the reserved page zero.
- A line allocator made for 1024 lines has 1018 (`Lines.CreatedTooSmall`); serving that
  request would write past the arrays of the recount (`Lines.RecountFitsExactly`).
- `MmInitialize` reserves one byte of page map for eight pages where the map has one for
  each, so the map reaches into the pages unless there are 8 to 4096 of them
  (`PageMaps.MapApartExactly`). With the memory the firmware reports it does, and making
  the very first allocator marks another page as one (`PageMaps.FirmwareOverlaps`). The
  pages also end past the memory then, as the map's pages are not subtracted
  (`PageMaps.PlacesExactly`).
- `strstr` with an empty needle returns the last character, or nothing for an empty text.
- `atoi` sums the minus sign like a digit, so of the negative numbers it reads back only
  -2115098112 (`Numbers.AtoiReadsBack`).
- `%x` prints negative numbers sign-extended to 64 bits. `getTarSize` reads sizes modulo
  4 GiB.
- After a delivery that went above the interrupted level, signals exactly at that level
  stay masked (`Signals.RunExactly`).
- The comments in `rt/math.c` leave the counts of zero undefined; as written they are 31
  and 63, and the division only uses them on non-zero values.

## Model

| member | source | states |
|---|---|---|
| PageTables.AddTable | inuoskrnl/pvm/base.c:12-17 | Hanging a fresh zeroed table below an empty entry keeps the whole radix tree linked: one root, every page holds what its slot demands, no two slots share a page, and every other table hangs below a table of the level above. |
| PageTables.ChangeLeaf | inuoskrnl/pvm/base.c:70-73 | Writing a last-level entry changes what exactly one page number maps to and keeps the tree linked. |
| PageTables.DescendFinds | inuoskrnl/pvm/base.c:11-73 | From any level of a linked tree, following the links of a page ends at the entry of the last map call for it, or at the zero entry where a link is missing. |
| PageTables.WalkFinds | inuoskrnl/pvm/base.c:106-119 | The five-level walk of any 32-bit address equals the mapping the calls built. |
| PageTables.MissingPath | inuoskrnl/pvm/base.c:11-68 | Where a table on the way is missing, neither the page nor its last-level table exists. |
| PageTables.OneOwner | inuoskrnl/pvm/base.c:11-68 | No table is pointed to from two entries: equal non-zero links sit in the same table at the same index. |
| PageTables.HasOwner | inuoskrnl/pvm/base.c:11-68 | Every table but the root is pointed to by some entry of a linked tree; with OneOwner, by exactly one. |
| PageTables.EveryTableReached | inuoskrnl/pvm/base.c:11-68 | No table is unreachable: from the root the links of some page lead to it. |
| PageTables.TableCount | inuoskrnl/pvm/base.c:11-68 | The tables a set of pages needs number one plus the distinct prefixes at each of the four levels below the root. |
| PageTables.FullMapTables | inuoskrnl/pvm/base.c:88-99 | Mapping the whole 32-bit space needs the root and 2054 tables. |
| Permissions.PermitsAdd | inuoskrnl/pvm/base.c:12-17 | A new table disturbs no permission on the way to any other, its own entry already carries the right one, and its entries are clear. |
| Permissions.PermitsSet | inuoskrnl/pvm/base.c:20-22 | Making an entry present and writable and nothing else (or, above the last level, giving it the call's attributes) leaves every other entry of the tree as it was: clear, or as permissive as its level demands. |
| Permissions.OpenExactly | inuoskrnl/pvm/base.c:20-22 | On the upper levels, setting present and rw always ends with exactly these two attributes: no entry there ever has another. |
| Permissions.WayIsOpen | inuoskrnl/pvm/base.c:11-55 | On the way to every mapped page the three upper entries are exactly present and writable, never for the user, and the entry above the last level carries the attributes of the latest call in its 2 MiB region. |
| Spaces.Description.constructor | inuoskrnl/pvm/base.c:129-140 | With the root page HalInitializeDescription allocates, a new description is valid, maps nothing and has taken one page. |
| Spaces.Description.TableInitialize | inuoskrnl/pvm/base.c:121-126 | The loop never advances its pointer, so it clears only the first address of the table. |
| Spaces.ClearedExactly | inuoskrnl/pvm/base.c:121-126 | It leaves a table without links exactly when only the first entry could have one, as in a fresh zeroed page. |
| Spaces.ClearedExample | inuoskrnl/pvm/base.c:121-126 | A table with a link in its second entry keeps it. |
| Spaces.Description.Ensure | inuoskrnl/pvm/base.c:12-17 | The shared lazy allocation: afterwards exactly the missing table exists, everything already there stays where it was, and pages are conserved (tables plus free pages). |
| Spaces.Description.Allow | inuoskrnl/pvm/base.c:19-22 | Sets present and rw on the entry of the page, which then has exactly these and is ready for a table, and keeps the description valid. |
| Spaces.Description.MapGpde | inuoskrnl/pvm/base.c:11-25 | Maps exactly the one page, allocates exactly the missing tables of its path below this level, moves none, and conserves pages. |
| Spaces.Description.MapMpde | inuoskrnl/pvm/base.c:27-41 | The same one level down. |
| Spaces.Description.MapLpde | inuoskrnl/pvm/base.c:43-55 | The same; the call's attributes replace those of the 2 MiB region. |
| Spaces.Description.MapLpte | inuoskrnl/pvm/base.c:57-68 | The same for the last table; region attributes are untouched. |
| Spaces.Description.MapPf | inuoskrnl/pvm/base.c:70-73 | The last-level entry gets the frame and the attributes and no other page changes. |
| Spaces.Description.Map | inuoskrnl/pvm/base.c:106-119 | VmMapDescription as a whole: one page mapped, the path's tables added, old tables kept in place, pages conserved, region attributes replaced, upper entries exactly present and writable. |
| Spaces.Description.EveryPageReached | inuoskrnl/pvm/base.c:106-119 | So from the root of every description, whatever calls were made, every table page is reached. |
| Spaces.Replay | inuoskrnl/pvm/base.c:11-119 | After any sequence of map calls every address finds the frame and attributes of the last call for its page and nothing for pages never mapped; the way there is open; exactly the tables those pages need were allocated. |
| Spaces.WalksRecorded | inuoskrnl/pvm/base.c:106-119 | A linked tree that records a run answers every 32-bit walk with the last call for the page. |
| Spaces.SupplySuffices | inuoskrnl/pvm/base.c:12-17 | Pages enough for the tables of a set of pages are enough for any further call within that set. |
| LoadedRuns.RegionsPacked | inuhal/arch/IA32/hal.c:168-202 | One native page table is built for every 4 MiB region with a page. |
| LoadedRuns.RunExactly | inuhal/arch/IA32/hal.c:155-216 | The two exact conditions, for the tables of a recorded run, in terms of the calls alone. |
| LoadedRuns.LoadRun | inuoskrnl/pvm/base.c:106-119 | Any run of map calls, then HalSetDescription: every page called for reaches the frame of its last call if and only if regions with pages come first in each slot and the last frames are aligned; the processor finds exactly what was asked for at all addresses if and only if also 2 MiB regions are complete and the last attributes are exactly present and writable. |
| NativePaging.ConversionsInverse | inuhal/arch/IA32/hal.c:87-93 | One conversion takes the load offset away and the other adds it, modulo 2^32, so they undo each other for every address and offset. |
| NativePaging.MarkedFields | inuhal/arch/IA32/hal.c:184-184 | Or-ing 3 into an address sets present, keeps the frame, and is a small-page entry for aligned addresses; the frame is the address exactly when it is aligned. |
| NativePaging.TablePointer | inuhal/arch/IA32/hal.c:198-201 | A directory entry built for a page table leads the processor back to that very page. |
| NativePaging.WalkOfPrefix | inuhal/arch/IA32/hal.c:162-212 | When the non-empty pairs of leaf tables form a prefix of each 1 GiB slot, the IA32 walk of the built tables translates every address as the five-level walk does (an absent page of a present leaf table going to frame zero). |
| NativePaging.GapBreaks | inuhal/arch/IA32/hal.c:174-176 | One empty pair before a non-empty one makes some mapped address go to the wrong frame: the packed counter shifts the later tables. |
| NativePaging.UnalignedBreaks | inuhal/arch/IA32/hal.c:181-184 | One unaligned frame is enough for a wrong translation. |
| NativePaging.FaithfulExactly | inuhal/arch/IA32/hal.c:155-216 | The frames alone: the native tables translate every mapped address to its frame if and only if the non-empty pairs form a prefix of each slot and all frames are page aligned. Attributes and never-mapped pages are EquivalentExactly and SilentExactly. |
| NativePaging.GapExample | inuhal/arch/IA32/hal.c:167-201 | A single mapped page at 4 MiB already leaves a gap: its tables are not in prefix form, and the native walk does not find its frame. |
| NativeEntries.ConvertReadsBack | inuhal/arch/IA32/hal.c:137-153 | The entry HaliConvertVmaToPte would give reads back, in the processor's bit positions, as the frame and the attributes it was made from. |
| NativeEntries.WordExactly | inuhal/arch/IA32/hal.c:184-184 | The word written in its place, frame or 3, is that entry if and only if the attributes are exactly present and writable. |
| NativeEntries.DirectoryAttributes | inuhal/arch/IA32/hal.c:201-201 | A directory entry with the constant 3 is present and writable, and not for the user. |
| NativeEntries.EntryOfPrefix | inuhal/arch/IA32/hal.c:162-212 | For layouts in prefix form, what the processor finds for every address: the frame of the last call and its address with or-ed 3, without user access because the directory entry has none; frame zero for a page never mapped in a present leaf table; nothing without one. |
| NativeEntries.GapTranslates | inuhal/arch/IA32/hal.c:174-201 | A gap gives some address that was never mapped an entry. |
| NativeEntries.SilentExactly | inuhal/arch/IA32/hal.c:178-196 | No address that was never mapped is translated if and only if the pairs form a prefix of each slot and every present leaf table is completely mapped. |
| NativeEntries.OnePageExample | inuhal/arch/IA32/hal.c:178-184 | One mapped page is enough to break this: its neighbour goes to frame zero. |
| NativeEntries.EquivalentExactly | inuhal/arch/IA32/hal.c:155-216 | For every 32-bit address the processor finds the frame and attributes of the last call and nothing where there was none, if and only if pairs form a prefix of each slot, leaf tables are complete, frames aligned, and every page mapped with exactly present and writable. |
| Hal.FillPtes | inuhal/arch/IA32/hal.c:169-196 | The 1024 words of a native page table are the frames of the two leaf tables marked present and writable, zero for a missing half. |
| Hal.PackPair | inuhal/arch/IA32/hal.c:168-202 | One turn of the middle loop: an empty pair takes nothing; another takes one page and the next directory entry, and leaves all earlier ones valid. |
| Hal.FillPdes | inuhal/arch/IA32/hal.c:164-202 | A slot's 256 directory words are its non-empty pairs packed to the front in order, one page table each. |
| Hal.NoPairs | inuhal/arch/IA32/hal.c:205-207 | A 1 GiB slot without a table has no pairs, so zeroing its quarter of the directory loses nothing. |
| Hal.PackSlot | inuhal/arch/IA32/hal.c:162-208 | One turn of the outer loop fills its quarter of the directory and keeps the others, present slot or not. |
| Hal.DirectoryReached | inuhal/arch/IA32/hal.c:198-201 | Every entry of a flattened directory is the physical address of a page table the kernel has an offset higher, with the constant 3. |
| Hal.SetDescription | inuhal/arch/IA32/hal.c:155-216 | If the description changed, the loaded directory is its flattened form, every entry of it is a page table's address less the load offset with the constant 3, and one page per non-empty pair plus one was allocated; if not, nothing changes; cr3 plus the load offset is the directory's address. |
| BootTables.LargeEntry | inuhal/arch/IA32/hal.c:55-72 | The or of a 4 MiB frame and the attribute word is a present large-page entry for that frame. |
| BootTables.RemapBootloader | inuhal/arch/IA32/hal.c:53-81 | The two loops fill the directory with the frames half the address space away. |
| BootTables.MapMmu | inuldr/arch/IA32/entry.c:133-160 | The loop with its wrap at 2 GiB fills the directory with the lower half's frames twice. |
| BootTables.RemapFlips | inuhal/arch/IA32/hal.c:67-78 | The processor then sends every address to itself with bit 31 inverted. |
| BootTables.MapMmuDrops | inuldr/arch/IA32/entry.c:147-157 | The loader's directory sends every address to itself with bit 31 cleared. |
| BootTables.BootTablesAgree | inuhal/arch/IA32/hal.c:53-81 | The two boot directories translate an address alike exactly in the upper half. |
| KernelMap.MapKernel | inuoskrnl/pvm/base.c:86-99 | The two loops map all pages of both halves, each to the frame half the space away, out of exactly the tables they need. |
| KernelMap.FullLayout | inuhal/arch/IA32/hal.c:168-202 | A full map is in prefix form and needs 1024 native page tables. |
| KernelMap.Initialize | inuoskrnl/pvm/base.c:75-104 | After VmInitialize both the five-level walk and the native walk invert bit 31 of every address; the five-level entries are present, writable and write-through, the native ones only present and writable; 1 + 2054 + 1024 + 1 pages were allocated. |
| KernelMap.SelfMappedExactly | inuldr/arch/IA32/entry.c:160-170 | The addresses the kernel has for the directory and the page tables lead the processor to where it reads them, exactly for the load offset 0x80000000 the loader passes. |
| KernelMap.KernelFaithful | inuoskrnl/pvm/base.c:86-102 | The flattened kernel map translates all 2^32 addresses to the inverted ones. |
| KernelMap.KernelEntries | inuoskrnl/pvm/base.c:78-85 | The kernel asks for write-through on every page and gets it on none: every one of its entries differs from the one asked for. |
| KernelMap.FlipInvolution | inuoskrnl/pvm/base.c:86-99 | The kernel's translation is total and its own inverse, hence a bijection. |
| KernelMap.KernelMapAgrees | inuhal/arch/IA32/hal.c:53-81 | Switching from the kernel's boot directory to the kernel map changes no translation; against the loader's directory the two agree exactly on the upper half. |
| Division.IterationCount | inuoskrnl/rt/math.c:176-178 | For 2 <= b <= a the number of iterations, hence every shift amount, lies in 1..63, the initial remainder is below b, and a divisor with its top bit set takes one iteration. |
| Division.LoopStep | inuoskrnl/rt/math.c:182-185 | On the values carried: the shifted remainder fits 64 bits and is below 2b, and conditional subtraction keeps a = q*b + rem on the bits seen. |
| Division.WrapIsCompare | inuoskrnl/rt/math.c:184-184 | The sign-bit trick equals the comparison rem >= b for every divisor, those from 2^63 on included. |
| Division.ConditionalSubtract | inuoskrnl/rt/math.c:184-185 | Masking the divisor with it subtracts exactly when the divisor fits. |
| Division.RegisterStep | inuoskrnl/rt/math.c:180-186 | One pass on the machine registers, with the quotient bit shifted in one pass late, does the step on the values it stands for. |
| Division.LongDivide | inuoskrnl/rt/math.c:175-189 | The loop yields quotient and remainder for all 2 <= b <= a. |
| Division.DivModDi4 | inuoskrnl/rt/math.c:149-189 | For all 64-bit a: an error exactly for b = 0, otherwise a = q*b + r and r < b. |
| Division.UDivDi3 | inuoskrnl/rt/math.c:258-261 | Equals mathematical division. |
| Division.UModDi3 | inuoskrnl/rt/math.c:264-269 | Equals the mathematical remainder. |
| Division.AbsMeans | inuoskrnl/rt/math.c:52-60 | The invert-and-increment form yields the absolute value, 2^63 for the least number. |
| Division.NegIfMeans | inuoskrnl/rt/math.c:52-52 | It negates modulo 2^64 exactly when the second word is negative. |
| Division.TruncationExists | inuoskrnl/rt/math.c:192-230 | Truncated division as section 6.5.5 of C99 defines it exists for every non-zero divisor. |
| Division.TruncationUnique | inuoskrnl/rt/math.c:192-230 | and is unique. |
| Division.DivDi3 | inuoskrnl/rt/math.c:192-196 | Equals the truncated quotient for all signed operands, wrapped only for the least number over -1. |
| Division.ModDi3 | inuoskrnl/rt/math.c:225-230 | Equals the truncated remainder for all signed operands. |
| Division.SignedDivisionIdentity | inuoskrnl/rt/math.c:192-230 | Quotient and remainder together satisfy a = q*b + r with |r| < |b| and r zero or of a's sign if and only if not (least number, -1). |
| ZeroCounts.NormalizingShift | inuoskrnl/rt/math.c:112-121 | The shift that brings a word's top bit up is its number of leading zeros counted bit by bit. |
| ZeroCounts.LeadingStep | inuoskrnl/rt/math.c:115-119 | One masked step of the binary search keeps the word a shift of the input and halves the interval of its top bit. |
| ZeroCounts.ClzSi2 | inuoskrnl/rt/math.c:102-110 | Equals the recursive count of leading zeros for every non-zero input; 31 for zero. |
| ZeroCounts.ClzDi2 | inuoskrnl/rt/math.c:112-121 | The same in 64 bits; 63 for zero. |
| ZeroCounts.CtzSi2 | inuoskrnl/rt/math.c:125-133 | Equals the recursive count of trailing zeros for every non-zero input. |
| ZeroCounts.CtzDi2 | inuoskrnl/rt/math.c:135-144 | The same in 64 bits. |
| ZeroCounts.FfsDi2 | inuoskrnl/rt/math.c:200-203 | One more than the trailing zeros, zero for zero. |
| PopCounts.PairStage | inuoskrnl/rt/math.c:236-236 | The first line leaves, in every pair of bits, the number of bits set there (any width). |
| PopCounts.NibbleStage | inuoskrnl/rt/math.c:237-237 | The second line leaves those counts per nibble. |
| PopCounts.ByteStage | inuoskrnl/rt/math.c:238-238 | The third line leaves them per byte, although unmasked nibbles are added first. |
| PopCounts.FoldEight | inuoskrnl/rt/math.c:251-254 | The folds leave the sum of the eight bytes in the low seven bits whatever stands above. |
| PopCounts.FoldQuarter | inuoskrnl/rt/math.c:239-241 | and of four bytes in the low six bits. |
| PopCounts.PopCountSi2 | inuoskrnl/rt/math.c:233-242 | Equals the number of set bits counted one at a time, no addition wrapping. |
| PopCounts.PopCountDi2 | inuoskrnl/rt/math.c:245-255 | The same in 64 bits. |
| WordShifts.AshlDi3 | inuoskrnl/rt/math.c:63-79 | Multiplication by a power of two modulo 2^64, from two 32-bit halves, for every count taken modulo 64. |
| WordShifts.LshrDi3 | inuoskrnl/rt/math.c:206-222 | Division by a power of two. |
| WordShifts.AshrDi3 | inuoskrnl/rt/math.c:82-98 | Division of the signed value by a power of two, rounding down. |
| FirstFit.LongestMeans | inuoskrnl/ga/base.c:121-140 | The scan's longest run is a free run, and no free run is longer. |
| FirstFit.HasRunExactly | inuoskrnl/ga/base.c:87-112 | A free run of length n exists exactly when n is at most the longest. |
| FirstFit.LongestMonotone | inuoskrnl/ga/base.c:114-119 | Freeing never shortens the longest free run. |
| FirstFit.PrefixFirstRun | inuoskrnl/ga/base.c:92-108 | Behind a used prefix, first fit is bump allocation: the first free run starts at the end of the prefix, and marking it extends the prefix. |
| FirstFit.PrefixTail | inuoskrnl/ga/base.c:121-140 | Then the longest free run is exactly the rest. |
| Pm.ComputeLayout | inuoskrnl/pm/base.c:21-40 | The computation yields the layout the next two lemmas are about. |
| Pm.LayoutLeast | inuoskrnl/pm/base.c:21-40 | The table starts at the first page boundary strictly above the offset and takes the least number of pages strictly above one byte for each page there is; the rest are the pages. |
| Pm.LayoutFits | inuoskrnl/pm/base.c:21-40 | Table and pages do not overlap, the table has a byte per page; the pages end inside memory exactly when the size leaves as much past a page boundary as aligning the start wastes. |
| Pm.LayoutExact | inuoskrnl/pm/base.c:21-40 | For page-aligned memory the pages end exactly where the memory does. |
| Pm.FirmwareFits | inuoskrnl/pm/base.c:21-40 | With the memory the firmware reports there are 130063 pages from 0x809f1000 on, which end exactly where the memory does; with one byte less they would end past it. |
| Pm.PageAllocator.constructor | inuoskrnl/pm/base.c:39-49 | All pages free but page zero, which is occupied and forbidden. |
| Pm.PageAllocator.ChangePageAttributes | inuoskrnl/pm/base.c:99-103 | Exactly one page's attributes are replaced. |
| Pm.PageAllocator.AllocatePage | inuoskrnl/pm/base.c:52-80 | For a positive count: the lowest start of a free run, exactly that run marked; zero, with nothing changed, exactly when there is none. Page zero stays occupied, so zero is never ambiguous. |
| Pm.PageAllocator.FreePage | inuoskrnl/pm/base.c:90-97 | As written it leaves the page occupied. |
| Pm.PageAllocator.IndexOfAddress | inuoskrnl/pm/base.c:105-114 | Any address inside a page leads back to its index; the pages lie one behind the other from the first to the end. |
| BitBytes.SetBitMeans | inuoskrnl/rt/base.c:357-359 | setbit sets its bit of a 32-bit word and no other. |
| BitBytes.ClearBitMeans | inuoskrnl/rt/base.c:352-355 | clrbit clears its bit of a 32-bit word and no other. |
| BitBytes.MarkCell | inuoskrnl/ga/base.c:142-148 | Setting bit i % 8 of byte i / 8 marks exactly cell i of the bitmap. |
| BitBytes.ClearCell | inuoskrnl/ga/base.c:150-155 | and clearing it frees exactly cell i. |
| Ga.CoversExactly | inuoskrnl/ga/base.c:41-57 | For any space, when the bitmap has a bit for every block: rounding bits down to bytes may lose bits only if the bytes fill whole blocks. |
| Ga.PoolLayoutFits | inuoskrnl/ga/base.c:26-58 | Every pool of p >= 1 pages has blocks and a bit for each, and header, bitmap and blocks fit one behind the other. |
| Ga.Allocator.constructor | inuoskrnl/ga/base.c:37-58 | The created allocator has all blocks free, an exact cache, and its data behind the bitmap. |
| Ga.Allocator.MarkBlock | inuoskrnl/ga/base.c:142-148 | Marks exactly one block. |
| Ga.Allocator.FreeBlock | inuoskrnl/ga/base.c:150-157 | Frees exactly one block and clears exactly its 64 bytes. |
| Ga.Allocator.CheckBlock | inuoskrnl/ga/base.c:159-164 | Reads one block's mark. |
| Ga.Allocator.Recalculate | inuoskrnl/ga/base.c:121-140 | Caches exactly the longest free run. |
| Ga.Allocator.Allocate | inuoskrnl/ga/base.c:87-112 | First fit: null exactly for an empty request or without a run; otherwise the first run is marked and its address returned; the cache is exact afterwards, and a request within the cache never fails. |
| Ga.Allocator.Free | inuoskrnl/ga/base.c:114-119 | Frees exactly the range and clears exactly its bytes; the untouched cache is still no longer than the longest free run. |
| HeapRuns.BlocksHold | inuoskrnl/ga/base.c:79-85 | The blocks for a request are the least number of 64 bytes each that hold the bytes asked for. |
| HeapRuns.MemorySound | inuoskrnl/ga/base.c:166-177 | One allocation keeps all extents apart and all blocks in order inside their pools. |
| HeapRuns.PayloadSound | inuoskrnl/ga/base.c:200-202 | So does handing out whole pages. |
| HeapRuns.RunSound | inuoskrnl/ga/base.c:166-202 | and so does every run of both. |
| HeapRuns.EveryRunIsDisjoint | inuoskrnl/ga/base.c:26-112 | In every run from initialization all blocks and payload pages are pairwise disjoint byte ranges, blocks lie in one pool's data area behind header and bitmap, pools and payloads share no page, and page zero stays occupied. |
| HeapRuns.NullExactly | inuoskrnl/ga/base.c:60-112 | An allocation returns null exactly for a size of zero or when no pool has more blocks left and the size is over 20352. |
| HeapRuns.FoundPoolFits | inuoskrnl/ga/base.c:60-65 | A pool found by its cache always has room. |
| HeapRuns.NewPoolServes | inuoskrnl/ga/base.c:69-69 | A new pool has five pages and one for every 4096 blocks, although a page holds 64: it serves a request exactly up to 318 blocks. |
| HeapRequests.MemoryWithin | inuoskrnl/ga/base.c:166-177 | The bytes asked for, from the address returned, lie in one new block; without an address there is none. |
| HeapRequests.RunBacked | inuoskrnl/ga/base.c:166-202 | In every run each request keeps a block of its own around the bytes it was granted, and each payload its pages. |
| HeapRequests.EveryCallerApart | inuoskrnl/ga/base.c:26-202 | Over every run from initialization the ranges of bytes the callers asked for, from the addresses they got, are pairwise disjoint, requests and payloads alike, and lie in memory behind page zero. |
| HeapRequests.FirstRequests | inuoskrnl/ga/base.c:26-112 | The first request after initialization gets the address 156 bytes into the first pool; 100 bytes take two blocks. |
| Heap.AllocationPool.constructor | inuoskrnl/ga/base.c:30-34 | A new pool: header, then an allocator with the pool's full capacity at the right address. |
| Heap.Heap.constructor | inuoskrnl/ga/base.c:20-35 | Initialization establishes the chain and the initial state of the runs. |
| Heap.FindServing | inuoskrnl/ga/base.c:60-68 | Along any chain of pools, whatever their allocators hold, the walk finds the first whose cache promises more than asked for, or none and the last pool. |
| Heap.Heap.Locate | inuoskrnl/ga/base.c:60-77 | The first pool with more blocks cached than asked for, or a new pool behind the last. |
| Heap.Heap.Take | inuoskrnl/ga/base.c:87-112 | First fit in the chosen pool is the bump step of that pool: data + 64 * used, with cache = capacity - used. |
| Heap.Heap.AllocateMemory | inuoskrnl/ga/base.c:166-177 | The heap refines the bump allocator the run properties are proved about: new state and pointer are equal. The bytes asked for lie in a block of their own behind the pointer, which is null exactly for no bytes or for more than 20352 that no pool has more blocks left than. |
| Heap.Heap.AllocatePayload | inuoskrnl/ga/base.c:200-202 | Whole pages from the page allocator; without room it returns the address of page zero. |
| Supplies.PayloadsSupply | inuoskrnl/pm/base.c:52-80 | The addresses of the payload pages handed out so far are distinct, aligned and not null: the supply the paging code takes its tables from. |
| Supplies.RunSupplies | inuoskrnl/ga/base.c:166-202 | They are so after every run of heap and payload allocations. |
| LiveBlocks.MarkKeeps | inuoskrnl/ga/base.c:87-112 | Marking a free run overlaps no held block and leaves all of them held. |
| LiveBlocks.ClearKeeps | inuoskrnl/ga/base.c:114-119 | Freeing a block leaves every block apart from it held. |
| LiveBlocks.LiveDisjoint | inuoskrnl/ga/base.c:26-112 | Blocks apart in pools whose pages are apart share no byte. |
| LiveBlocks.RequestsDisjoint | inuoskrnl/ga/base.c:79-112 | So are the bytes asked for in them, each inside its pool's pages behind the header. |
| MixedHeap.MixedHeap.constructor | inuoskrnl/ga/base.c:20-35 | The chain of one pool that freeing and allocating may then be mixed on, with nothing live. |
| MixedHeap.MixedHeap.Locate | inuoskrnl/ga/base.c:60-77 | The first pool that promises more, its marks untouched, or a new one behind the last with its full capacity free; live blocks stay live and apart. |
| MixedHeap.MixedHeap.AllocateMemory | inuoskrnl/ga/base.c:166-177 | After any mix of allocating and freeing: null exactly for no bytes, or when no pool promises enough and the size is over 20352. Otherwise the address of the first free run, of the least number of blocks that hold the bytes, in the first pool that promises more (the first blocks of a new one if none does); exactly that run becomes marked, that pool caches its longest free run again, the block is live, and live blocks stay marked and apart. |
| MixedHeap.MixedHeap.Free | inuoskrnl/ga/base.c:114-119 | Freeing any blocks of one pool clears exactly their marks and keeps the caches of the whole chain honest. |
| MixedHeap.MixedHeap.GiveBack | inuoskrnl/ga/base.c:114-119 | Freeing a live block leaves it free and all other live blocks marked and apart. |
| MixedHeap.MixedHeap.LiveShareNothing | inuoskrnl/ga/base.c:79-119 | So whatever was allocated and given back in whatever order, the bytes asked for with two live requests are disjoint, and lie in their pools behind the header. |
| Lines.LayoutFills | inuoskrnl/ob/base.c:372-403 | On p >= 1 pages header, bitmap and lines fill the pages exactly and the bitmap has a bit for every line. |
| Lines.LineAllocator.constructor | inuoskrnl/ob/base.c:372-403 | The created allocator has all lines free and its lines behind header and bitmap. |
| Lines.CreatedServes | inuoskrnl/mm/base.c:16-38 | A new allocator serves the request it was made for exactly when rounding to pages left room for header and bitmap. |
| Lines.CreatedTooSmall | inuoskrnl/mm/base.c:16-38 | For 1024 lines it does not: 1018 are left. |
| Lines.CreatePagesLeast | inuoskrnl/mm/base.c:16-26 | A new allocator gets the least number of pages for the lines asked for, or for a thousand. |
| Lines.PrefixFreeRuns | inuoskrnl/mm/base.c:204-226 | While the used lines form a prefix there is at most one free run. |
| Lines.LineAllocator.FillSegments | inuoskrnl/mm/base.c:204-226 | The first loop writes one cell per free run, as many as there are runs, and their maximum is the longest run. |
| Lines.LineAllocator.Recount | inuoskrnl/mm/base.c:195-243 | Stays inside its arrays when there were at least as many allocations as there are free runs, and then caches the longest run. |
| Lines.LineAllocator.Allocate | inuoskrnl/mm/base.c:130-171 | Bump allocation: success exactly when the lines are cached as free, at lines + 32 * used; used plus cached free is always the line count; an empty request takes one line. |
| Lines.ServeAll | inuoskrnl/mm/base.c:130-171 | Over any run of requests that fits, the addresses are consecutive and free plus handed out is the line count. |
| Lines.RecountFitsExactly | inuoskrnl/mm/base.c:196-213 | Behind a used prefix the recount stays inside its arrays exactly when there was an allocation or no line is free, so only a failing first request overruns them. |
| Lines.FindFreePage | inuoskrnl/mm/base.c:57-78 | The lowest free run at or after the start, or none exactly when there is none. |
| LineHeap.SpansDisjoint | inuoskrnl/mm/base.c:80-105 | The page flags alone keep the allocators' pages apart. |
| LineHeap.SpanAdded | inuoskrnl/mm/base.c:30-33 | A new allocator in free pages disturbs no other. |
| LineHeap.PagesTaken | inuoskrnl/mm/base.c:89-96 | nor do payload pages. |
| LineHeap.BlockInside | inuoskrnl/mm/base.c:185-187 | Every block handed out lies in its allocator's pages behind header and bitmap. |
| LineHeap.BlocksDisjoint | inuoskrnl/mm/base.c:289-307 | No two blocks of a run share a byte, whatever allocators they came from. |
| LineHeap.LinesHold | inuoskrnl/mm/base.c:289-293 | The lines for a request are the least number of 32 bytes each that hold the bytes asked for. |
| LineHeap.RequestsOfHanded | inuoskrnl/mm/base.c:289-307 | The bytes any two requests of a run asked for are disjoint. |
| LineHeap.EverythingApart | inuoskrnl/mm/base.c:289-324 | Blocks and payloads share no byte with each other nor among themselves nor with a map that ends before the pages. |
| LineHeap.Chosen | inuoskrnl/mm/base.c:44-55 | An allocator chosen for a request fails it only if the request is empty and the allocator full. |
| PageMaps.ComputeLayout | inuoskrnl/mm/base.c:245-266 | The computation yields the layout the next lemmas are about. |
| PageMaps.LayoutLeast | inuoskrnl/mm/base.c:245-266 | The map starts at the first page boundary strictly above the offset and has the least number of pages for one byte for every eight pages; what is left of memory behind the manager, the map not subtracted, is counted as pages. |
| PageMaps.MapApartExactly | inuoskrnl/mm/base.c:257-266 | The map ends before the pages exactly for no page or 8 to 4096 pages: a byte is reserved for eight pages where each needs one. |
| PageMaps.PlacesExactly | inuoskrnl/mm/base.c:246-266 | When the manager's own fields lie before the map, and when the pages end inside the memory although the map was never subtracted from it. |
| PageMaps.CellInPage | inuoskrnl/mm/base.c:82-109 | Every cell past the reserved pages is a byte of one of the pages. |
| PageMaps.FirmwareOverlaps | inuoskrnl/mm/base.c:245-271 | With the memory the firmware reports there are 130094 pages and a map of four; the pages end past the memory; and the first allocator's bitmap pointer marks page 20516 as an allocator. |
| LineHeap.Manager.constructor | inuoskrnl/mm/base.c:245-269 | Where the map ends before the pages: every page free but the reserved first, map and pages at MmInitialize's addresses. |
| LineHeap.Manager.NothingIsShared | inuoskrnl/mm/base.c:289-324 | Whatever was asked for in whatever order, nothing handed out shares a byte with anything else or with the map, nor do the bytes asked for. |
| LineHeap.Manager.Create | inuoskrnl/mm/base.c:14-42 | A new allocator in the first free run of pages, none exactly when there is no such run. |
| LineHeap.Manager.Locate | inuoskrnl/mm/base.c:44-55 | The first allocator with enough free lines, otherwise a new one. |
| LineHeap.Manager.AllocateMemory | inuoskrnl/mm/base.c:289-307 | A new block behind all earlier ones at its address, of as few lines as hold the bytes asked for (one for none); the kernel halts exactly on the refused requests. |
| LineHeap.Manager.AllocatePayload | inuoskrnl/mm/base.c:309-324 | Exactly the first free run of pages becomes payload and enters the history; none exactly when there is no such run. |
| Numbers.DigitsDecode | inuoskrnl/rt/base.c:193-240 | Digits decode back to the number in every base from 2 to 36. |
| Numbers.NoLeadingZero | inuoskrnl/rt/base.c:193-240 | Only zero itself starts with the digit zero. |
| Numbers.DigitsAlphabet | inuoskrnl/rt/base.c:193-240 | Digits are 0 to 9 and letters below the base, small ones from itoa and capitals from ultoa. |
| Numbers.TableDigit | inuoskrnl/rt/base.c:207-208 | The 71-character table holds the digit of |d| at 35 + d for remainders of either sign. |
| Numbers.ReverseInPlace | inuoskrnl/rt/base.c:211-216 | The second loop reverses exactly the digits in place. |
| Numbers.Itoa | inuoskrnl/rt/base.c:193-218 | The buffer holds the number's text in any base, the least number included; the empty text for other bases. |
| Numbers.Ultoa | inuoskrnl/rt/base.c:220-240 | The buffer holds the uppercase digits. |
| Numbers.ItoaLength | inuoskrnl/rt/base.c:193-218 | A 32-bit number needs at most 33 characters. |
| Numbers.HexLength64 | inuoskrnl/rt/base.c:220-240 | A 64-bit number has at most 16 hexadecimal digits. |
| Numbers.ItoaReadsBack | inuoskrnl/rt/base.c:193-218 | Decimal text reads back as the number. |
| Numbers.ItoaMagnitude | inuoskrnl/rt/base.c:193-218 | In every other base the text is that of the magnitude, without a sign. |
| Numbers.ItoaInjective | inuoskrnl/rt/base.c:193-218 | Different numbers print differently. |
| Numbers.Atoi | inuoskrnl/rt/base.c:253-262 | For any text the sum of its characters in 32 bits, those from 128 on counted as negative; for digits their decimal value, wrapped where it does not fit. |
| Numbers.WrapsExactly | inuoskrnl/rt/base.c:253-262 | The 32-bit sum is the one signed word congruent to the exact sum modulo 2^32, and equal to it exactly where that fits. |
| Numbers.AtoiReadsBack | inuoskrnl/rt/base.c:193-262 | atoi reads what itoa wrote, in decimal, exactly for the numbers from zero on and for -2115098112: the minus sign is summed like a digit. |
| Strings.StrLen | inuoskrnl/rt/base.c:92-100 | The number of characters before the terminator. |
| Strings.StrStr | inuoskrnl/rt/base.c:157-183 | The first occurrence, none exactly when there is none; for an empty needle the last character instead. |
| Printing.Render | inufw/platform/pc/base.c:256-302 | The text built in the buffers is the argument's text in the expansion; the Expand lemmas of Formats say what that is. |
| Printing.NextPiece | inufw/platform/pc/base.c:235-314 | Every turn of the loop emits the next part of the expansion and advances. |
| Printing.DebugPrint | inufw/platform/pc/base.c:227-319 | Terminates; after the prefix [DEBUG] emits exactly the recursive expansion of format and arguments and returns its length, or -1 exactly when that is 2^31 or more, with a prefix of it printed. |
| Printing.ExpandLiteral | inufw/platform/pc/base.c:237-251 | Text without a percent sign expands to itself. |
| Formats.ExpandInt | inufw/platform/pc/base.c:277-289 | %i behind literal text prints the decimal text of its argument: a sign exactly for negative numbers and digits that decode to it without needless zeros. |
| Formats.ExpandHex | inufw/platform/pc/base.c:290-302 | %x prints at most sixteen capital hexadecimal digits that decode to the argument, or for a negative one to it plus 2^64. |
| Formats.ExpandChar | inufw/platform/pc/base.c:256-265 | %c prints the character with the low eight bits of its argument. |
| Formats.ExpandString | inufw/platform/pc/base.c:266-276 | %s prints its text as it is, percent signs included. |
| Formats.ExpandPercents | inufw/platform/pc/base.c:237-251 | Two percent signs print one. |
| Formats.ExpandUnknown | inufw/platform/pc/base.c:303-312 | An unknown directive, or a percent sign at the end, prints the rest of the format as it is. |
| Formats.TimerExample | inufw/platform/pc/module/pit/base.c:9-9 | The timer's message names 60 hertz. |
| Tar.GetTarSize | inufw/platform/pc/module/tar/base.c:12-22 | The loop computes the octal number modulo 2^32, from any bytes, those from 128 on counted as negative. |
| Tar.EncodeDecodes | inufw/platform/pc/module/tar/base.c:12-22 | Octal digits decode to the number they were made from. |
| Tar.SizeReadsBack | inufw/platform/pc/module/tar/base.c:12-22 | Of all sizes the field can hold exactly those below 4 GiB are read back. |
| Tar.HeaderReadsBack | inufw/platform/pc/module/tar/base.c:27-34 | A header built from a name and any size the field can hold is read back as the name and the size modulo 2^32. |
| Tar.BodyHolds | inufw/platform/pc/module/tar/base.c:35-38 | The sectors of a body are the least number that hold it. |
| Tar.Search | inufw/platform/pc/module/tar/base.c:26-39 | The walk terminates at the first entry whose name contains the name, wherever it starts. |
| Tar.LocateFileSector | inufw/platform/pc/module/tar/base.c:24-40 | The body's first sector of the first match behind sector zero's entry. |
| Tar.ReadFileLength | inufw/platform/pc/module/tar/base.c:42-63 | The length of the first match rounded up to the least multiple of 512. |
| Tar.FirstMatch | inufw/platform/pc/module/tar/base.c:24-63 | The entry both walks are after: the first whose name contains the name. |
| Tar.SearchesAgree | inufw/platform/pc/module/tar/base.c:24-63 | Two walks, one skipping the first entry, find the same entry exactly when that first entry does not match. |
| Tar.AtaRead | inufw/platform/pc/module/ata/base.c:150-158 | Consecutive sectors one behind the other, nothing else written. |
| Tar.ReadFile | inufw/platform/pc/module/tar/base.c:65-70 | Exactly the padded sectors of the first matching entry's body. |
| TarFiles.PaddedIs | inufw/platform/pc/module/tar/base.c:35-38 | Contents cut into sectors of 512, the last filled with zeros, are as many sectors as the code counts, and one behind the other they are the contents and zeros. |
| TarFiles.WrittenArchive | inufw/platform/pc/module/tar/base.c:24-63 | Files written to a disk as a header and padded contents each are an archive as the searches walk it, whatever else is on the disk. |
| TarFiles.ContentsAt | inufw/platform/pc/module/tar/base.c:26-40 | Behind the header of each such file lie its padded contents. |
| TarFiles.ReadBack | inufw/platform/pc/module/tar/base.c:24-70 | A round trip: for files written to a disk, the length returned is that of the first matching one rounded up to a multiple of 512, and the buffer then begins with exactly its contents, then zeros, and nothing behind them is written. |
| Signals.DeliveryRaises | inufw/platform/pc/base.c:135-142 | A deliverable signal never runs below the interrupted level, and the table is ordered for the level it runs at. |
| Signals.DeliveryRestores | inufw/platform/pc/base.c:127-153 | One delivery leaves the table ordered for the interrupted level. |
| Signals.RunOrdered | inufw/platform/pc/base.c:127-153 | and so does every run of deliveries. |
| Signals.RunExactly | inufw/platform/pc/base.c:127-153 | After a run every signal is as it was, except that signals exactly at the interrupted level stay masked once a delivery went above it. |
| Signals.LoweredOrdered | inufw/platform/pc/base.c:95-105 | Lowering to a level orders the table exactly when nothing below it was unmasked. |
| Signals.Firmware.RaiseControlLevel | inufw/platform/pc/base.c:83-93 | The level is set and exactly the registered signals below it become masked. |
| Signals.Firmware.LowerControlLevel | inufw/platform/pc/base.c:95-105 | The level is set and exactly the registered signals above it become unmasked. |
| Signals.Firmware.BeginSignal | inufw/platform/pc/base.c:135-142 | Saves the level, raises to the signal's, marks it executing. |
| Signals.Firmware.EndSignal | inufw/platform/pc/base.c:144-153 | Lowers to the saved level and clears executing. |
| Signals.Firmware.ExecuteSignal | inufw/platform/pc/base.c:127-133 | A delivery restores the level and leaves the table the run properties speak of. |
| Signals.Firmware.Deliver | inufw/platform/pc/base.c:127-153 | A whole run of deliveries on the firmware's state is the run on values. |
| Signals.Firmware.ExecuteNested | inufw/platform/pc/base.c:135-153 | A nested delivery overwrites the saved level: the outer signal ends at its own level. |

## Left out

- Spaces.Description.Map: needs pages left for the missing tables, as the code does not check; the branch that allocates a missing root is not modelled, because HalInitializeDescription has already set the root of every description; the vectors that record payloads are the layout map.
- Spaces.Description.CreatePayload: fresh pages are zeroed and come from a given supply of distinct aligned pages, which Supplies.RunSupplies derives from the page allocator; that the supply lasts is a precondition.
- Spaces.Description.Ensure: needs a page left where the table is missing, as the code does not check.
- Hal.SetDescription: requires that something is mapped if the description changed, because the code follows two links of the root without looking; the debug message about unaligned frames is not modelled.
- PageTables.WalkFinds: the 48-bit address field of an entry holds 32-bit values only, as every pointer and frame stored there has 32 bits; reserved attribute bits are dropped.
- Division.DivModDi4: division by zero is an error value in place of the processor exception; the signed routines wrap where C leaves overflow undefined.
- Ga.Allocator.constructor: requires that the bitmap covers the blocks, which Ga.PoolLayoutFits proves for every pool; Ga.CoversExactly says when it holds for other spaces.
- Heap.Heap.Locate: requires room for a new pool where one would be made, because GaLocateAllocator does not look at a failed page allocation.
- MixedHeap.MixedHeap.Locate: the same.
- MixedHeap.MixedHeap.AllocateMemory: the same.
- Heap.Heap.AllocateMemory: requires room for a new pool where one would be made, as in Heap.Heap.Locate.
- Pm.PageAllocator.constructor: memory before and behind its table and pages is not modelled; a table length that is no multiple of four is taken as fully cleared.
- Lines.LineAllocator.Allocate: a first request that cannot be served is excluded, because the recount then leaves its arrays; the emergency stop is the null address.
- LineHeap.Manager.AllocateMemory: a request for which a new allocator would be too small is excluded for the same reason; Lines.CreatedServes says which these are.
- LineHeap.Manager.constructor: excludes memories where the page map reaches into the pages, the firmware's own among them. The map and the allocators are objects of their own in this model, and where their bytes overlap nothing is promised; PageMaps.MapApartExactly says exactly when they do not.
- NativeEntries.NativeEntry: writing and user access need both entries on the way, as on the processor; the caching attributes are those of the page-table entry alone.
- Numbers.Ultoa: requires that the digits fit the routine's local buffer, which holds for base 16 by Numbers.HexLength64.
- Printing.DebugPrint: arguments of the right kind for each specifier are required, as in C; output never fails.
- Tar.LocateFileSector: that some entry matches is required, because without one the walk does not end; sectors are read from a sequence in place of the disk.
- TarFiles.ReadBack: the first file is empty and does not match, for the reason given for Tar.ReadFile, and the buffer has room for whole sectors.
- Tar.ReadFile: requires an empty-bodied first entry that does not match, because the two searches start at different sectors.
- Signals.Firmware.ExecuteSignal: the handler is assumed to leave levels and masks alone; the interrupt controller, the cycle counter and the end-of-interrupt command are left out.
- Nested signal delivery beyond its effect on the restored level, since there is one slot for the saved level.
- Monitors: execution is sequential, on the one processor there is.
- GaFreeMemory and MmFreeMemory, which do nothing, and MmFreePayload.
- Port input and output, screen drawing, descriptor tables, timers, assembly.
- The vectors, queues, registry, strings, processes, modules and the JSON parser built on the object layer, and the superseded vm/base.c.
- memset with other values, swpbts, rvsmemcpy, fmod, rand, wide-character string functions, and HaliConvertVmaToPde.
