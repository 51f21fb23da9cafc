/** The first-fit bitmap allocator of inuoskrnl/ga/base.c. */
module Ga {
  import opened BitBytes
  import opened FirstFit
  import opened Memory

  const BLOCK_SIZE: nat := 64
  const ALLOCATOR_HEADER: nat := 20
  const POOL_HEADER: nat := 28

  // ----- layout

  datatype BlockLayout = BlockLayout(blockCount: nat, bitmapBlocks: nat) {
    function BitmapBytes(): nat {
      bitmapBlocks * BLOCK_SIZE
    }
  }

  /** GaCreateAllocator's split of the space behind the allocator's header. */
  function LayoutOf(spaceLeft: nat): BlockLayout
    requires spaceLeft >= ALLOCATOR_HEADER
  {
    var blocks := (spaceLeft - ALLOCATOR_HEADER) / BLOCK_SIZE;
    var bytes := blocks / 8;
    var bitmapBlocks := bytes / BLOCK_SIZE + (if bytes % BLOCK_SIZE != 0 then 1 else 0);
    BlockLayout(blocks - bitmapBlocks, bitmapBlocks)
  }

  /** The bitmap has a bit for every block. */
  predicate Covers(spaceLeft: nat)
    requires spaceLeft >= ALLOCATOR_HEADER
  {
    LayoutOf(spaceLeft).blockCount <= 8 * LayoutOf(spaceLeft).BitmapBytes()
  }

  /** Rounding the bit count down to bytes loses bits only when the bytes fill whole
      blocks; the blocks given up to the bitmap then have to make up for them. */
  lemma CoversExactly(spaceLeft: nat)
    requires spaceLeft >= ALLOCATOR_HEADER
    ensures var blocks := (spaceLeft - ALLOCATOR_HEADER) / BLOCK_SIZE;
            Covers(spaceLeft) <==> blocks / 8 % 64 != 0 || blocks % 512 <= blocks / 512
  {
    var blocks := (spaceLeft - ALLOCATOR_HEADER) / BLOCK_SIZE;
    assert blocks / 8 / 64 == blocks / 512;
    assert blocks / 8 % 64 == 0 ==> blocks % 512 < 8;
  }

  /** Space GaCreateAllocationPool leaves to the allocator of a p-page pool. */
  function PoolSpace(p: nat): nat
    requires p > 0
  {
    p * PAGE_SIZE - (POOL_HEADER - ALLOCATOR_HEADER)
  }

  /** Blocks of a p-page pool. */
  function Capacity(p: nat): nat
    requires p > 0
  {
    LayoutOf(PoolSpace(p)).blockCount
  }

  /** Every pool has blocks, a bit for each of them, and room for header, bitmap and
      blocks one after the other. */
  lemma PoolLayoutFits(p: nat)
    requires p > 0
    ensures var l := LayoutOf(PoolSpace(p));
            && Covers(PoolSpace(p)) && l.blockCount > 0
            && l.blockCount == 64 * p - 1 - ((8 * p - 1) / 64 + 1)
            && POOL_HEADER + l.BitmapBytes() + l.blockCount * BLOCK_SIZE <= p * PAGE_SIZE
  {
    var blocks := (PoolSpace(p) - ALLOCATOR_HEADER) / BLOCK_SIZE;
    assert blocks == 64 * p - 1;
    assert blocks / 8 == 8 * p - 1;
    assert (8 * p - 1) % 64 != 0;
    CoversExactly(PoolSpace(p));
  }

  // ----- the allocator

  type Contents = seq<Byte>

  /** The bytes from one offset up to another set to zero. */
  function Cleared(bytes: Contents, from: nat, to: nat): (r: Contents)
    ensures |r| == |bytes|
  {
    seq(|bytes|, i requires 0 <= i < |bytes| => if from <= i < to then 0 else bytes[i])
  }

  lemma ClearedMeans(bytes: Contents, cleared: Contents, from: nat, to: nat)
    requires cleared == Cleared(bytes, from, to)
    ensures forall i :: 0 <= i < |bytes| ==> cleared[i] == if from <= i < to then 0 else bytes[i]
  {
  }

  lemma FreeNone(s: Marks, bytes: Contents, initial: nat)
    ensures ClearRun(s, initial, 0) == s && Cleared(bytes, initial * BLOCK_SIZE, (initial + 0) * BLOCK_SIZE) == bytes
  {
  }

  lemma LongestCleared(s: Marks, initial: nat, length: nat)
    ensures Longest(s) <= Longest(ClearRun(s, initial, length))
  {
    hide Longest, TailRun;
    LongestMonotone(s, ClearRun(s, initial, length));
  }

  lemma FreeOne(s: Marks, bytes: Contents, initial: nat, i: nat)
    requires initial + i < |s|
    ensures ClearRun(s, initial, i)[initial + i := false] == ClearRun(s, initial, i + 1)
    ensures var from, mid, to := initial * BLOCK_SIZE, (initial + i) * BLOCK_SIZE, (initial + i + 1) * BLOCK_SIZE;
            Cleared(Cleared(bytes, from, mid), mid, to) == Cleared(bytes, from, to)
  {
  }

  /** memset with zero. */
  method ClearBytes(bytes: array<Byte>, from: nat, count: nat)
    requires from + count <= bytes.Length
    modifies bytes
    ensures bytes[..] == Cleared(old(bytes[..]), from, from + count)
  {
    for i := 0 to count
      invariant bytes[..] == Cleared(old(bytes[..]), from, from + i)
    {
      bytes[from + i] := 0;
    }
  }

  class Allocator {
    const freeBlocks: nat
    var freeBlocksLeft: nat
    const bitmap: array<Byte>
    const data: nat
    const contents: array<Byte>   // the blocks' bytes, from data on

    /** Which blocks are marked. */
    ghost function Marks(): (s: Marks)
      requires freeBlocks <= 8 * bitmap.Length
      reads bitmap
      ensures |s| == freeBlocks
    {
      Cells(bitmap[..], freeBlocks)
    }

    /** The cached length never promises more than the longest free run. */
    ghost predicate Valid()
      reads this, bitmap
    {
      && freeBlocks <= 8 * bitmap.Length && data > 0 && freeBlocksLeft <= Longest(Marks())
      && bitmap != contents && contents.Length == freeBlocks * BLOCK_SIZE
    }

    /** GaCreateAllocator on a zeroed page. */
    constructor (pointer: nat, spaceLeft: nat)
      requires spaceLeft >= ALLOCATOR_HEADER && Covers(spaceLeft)
      ensures Valid() && fresh(bitmap) && fresh(contents)
      ensures freeBlocks == freeBlocksLeft == LayoutOf(spaceLeft).blockCount && IsPrefix(Marks(), 0)
      ensures data == pointer + ALLOCATOR_HEADER + LayoutOf(spaceLeft).BitmapBytes()
    {
      hide Cells, Longest, TailRun;
      var left := spaceLeft - ALLOCATOR_HEADER;
      var bitmapSize := left / BLOCK_SIZE;
      var blockCount := bitmapSize;
      bitmapSize := bitmapSize / 8;
      var bitmapSizeInBlock := bitmapSize / BLOCK_SIZE;
      if bitmapSize % BLOCK_SIZE != 0 {
        bitmapSizeInBlock := bitmapSizeInBlock + 1;
      }
      blockCount := blockCount - bitmapSizeInBlock;
      ghost var layout := LayoutOf(spaceLeft);
      assert layout == BlockLayout(blockCount, bitmapSizeInBlock);
      hide LayoutOf;
      freeBlocks := blockCount;
      freeBlocksLeft := blockCount;
      bitmap := new Byte[BLOCK_SIZE * bitmapSizeInBlock](_ => 0);
      data := pointer + ALLOCATOR_HEADER + BLOCK_SIZE * bitmapSizeInBlock;
      contents := new Byte[blockCount * BLOCK_SIZE](_ => 0);
      new;
      ZeroCells(bitmap[..], freeBlocks);
      PrefixTail(Marks(), 0);
    }

    method CheckBlock(blockIndex: nat) returns (marked: bool)
      requires freeBlocks <= 8 * bitmap.Length && blockIndex < freeBlocks
      ensures marked == Marks()[blockIndex]
    {
      var byte := blockIndex / 8;
      var bits := blockIndex % 8;
      marked := ReadBit(bitmap[byte], bits);
    }

    method MarkBlock(blockIndex: nat)
      requires freeBlocks <= 8 * bitmap.Length && blockIndex < freeBlocks
      modifies bitmap
      ensures Marks() == old(Marks())[blockIndex := true]
    {
      hide SetBit;
      var byte := blockIndex / 8;
      var bits := blockIndex % 8;
      MarkCell(bitmap[..], freeBlocks, blockIndex);
      ghost var after := bitmap[..][byte := SetBit(bitmap[byte], bits)];
      bitmap[byte] := SetBit(bitmap[byte], bits);
      assert bitmap[..] == after;
    }

    /** The mark goes and the block's bytes are cleared. */
    method FreeBlock(blockIndex: nat)
      requires freeBlocks <= 8 * bitmap.Length && blockIndex < freeBlocks
      requires bitmap != contents && contents.Length == freeBlocks * BLOCK_SIZE
      modifies bitmap, contents
      ensures Marks() == old(Marks())[blockIndex := false]
      ensures contents[..] == Cleared(old(contents[..]), blockIndex * BLOCK_SIZE, (blockIndex + 1) * BLOCK_SIZE)
    {
      hide ClearBit;
      var byte := blockIndex / 8;
      var bits := blockIndex % 8;
      ClearCell(bitmap[..], freeBlocks, blockIndex);
      ghost var after := bitmap[..][byte := ClearBit(bitmap[byte], bits)];
      bitmap[byte] := ClearBit(bitmap[byte], bits);
      assert bitmap[..] == after;
      assert contents[..] == old(contents[..]);
      ghost var marks := Marks();
      ClearBytes(contents, blockIndex * BLOCK_SIZE, BLOCK_SIZE);
      assert bitmap[..] == after && Marks() == marks;
    }

    /** GaAllocatorRecalculate: cache the longest free run. */
    method Recalculate()
      requires freeBlocks <= 8 * bitmap.Length && data > 0
      requires bitmap != contents && contents.Length == freeBlocks * BLOCK_SIZE
      modifies this`freeBlocksLeft
      ensures Valid() && freeBlocksLeft == Longest(Marks())
    {
      hide Longest, TailRun;
      ghost var s := Marks();
      LongestNone(s);
      var max, length := 0, 0;
      for i := 0 to freeBlocks
        invariant length == TailRun(s[..i])
        invariant Longest(s[..i]) == if length > max then length else max
      {
        LongestStep(s, i);
        var marked := CheckBlock(i);
        if marked {
          if length > max {
            max := length;
          }
          length := 0;
        } else {
          length := length + 1;
        }
      }
      assert s[..freeBlocks] == s;
      if length > max {
        max := length;
      }
      freeBlocksLeft := max;
    }

    /** GaAllocatorAllocate: the first free run of that length, or null when there
        is none or nothing is asked for. Afterwards the cache is exact. */
    method Allocate(blockCount: nat) returns (pointer: nat)
      requires Valid()
      modifies this`freeBlocksLeft, bitmap
      ensures Valid() && freeBlocksLeft == Longest(Marks())
      ensures pointer == 0 <==> blockCount == 0 || !HasRun(old(Marks()), blockCount)
      ensures pointer == 0 ==> Marks() == old(Marks())
      ensures pointer != 0 ==>
        (exists start: nat :: IsFirstRun(old(Marks()), blockCount, start)
           && pointer == data + BLOCK_SIZE * start && Marks() == MarkRun(old(Marks()), start, blockCount))
      ensures 0 < blockCount <= old(freeBlocksLeft) ==> pointer != 0
    {
      hide Longest, TailRun;
      ghost var was := Marks();
      HasRunExactly(was, blockCount);
      var initial, length := 0, 0;
      pointer := 0;
      var i := 0;
      while i < freeBlocks
        invariant i <= freeBlocks && Marks() == was && Valid()
        invariant blockCount > 0 ==> Scanned(was, blockCount, i, initial, length) && length < blockCount
      {
        if blockCount > 0 {
          if was[i] {
            ScanOccupied(was, blockCount, i, initial, length);
          } else {
            ScanFree(was, blockCount, i, initial, length);
          }
        }
        var marked := CheckBlock(i);
        if marked {
          initial := i + 1;
          length := 0;
        } else {
          length := length + 1;
          if length == blockCount {
            MarkBlocks(initial, length);
            pointer := data + BLOCK_SIZE * initial;
            break;
          }
        }
        i := i + 1;
      }
      if i == freeBlocks && blockCount > 0 {
        ScanEnd(was, blockCount, initial, length);
      }
      Recalculate();
    }

    method MarkBlocks(initial: nat, length: nat)
      requires freeBlocks <= 8 * bitmap.Length && initial + length <= freeBlocks
      modifies bitmap
      ensures Marks() == MarkRun(old(Marks()), initial, length)
    {
      for z := 0 to length
        invariant Marks() == MarkRun(old(Marks()), initial, z)
      {
        MarkBlock(initial + z);
      }
    }

    /** GaAllocatorFree leaves the cache alone; it then promises at most what is free. */
    method Free(initialBlock: nat, length: nat)
      requires Valid() && initialBlock + length <= freeBlocks
      modifies bitmap, contents
      ensures Valid() && Marks() == ClearRun(old(Marks()), initialBlock, length)
      ensures forall i :: 0 <= i < freeBlocks ==>
                Marks()[i] == (old(Marks())[i] && !(initialBlock <= i < initialBlock + length))
      ensures forall i :: 0 <= i < contents.Length ==>
                contents[i] == if 64 * initialBlock <= i < 64 * (initialBlock + length) then 0 else old(contents[i])
    {
      hide Longest, TailRun, ClearRun, Cleared;
      ghost var was, bytes := Marks(), contents[..];
      FreeBlocks(initialBlock, length);
      ClearedMeans(bytes, contents[..], 64 * initialBlock, 64 * (initialBlock + length));
      LongestCleared(was, initialBlock, length);
    }

    /** The loop of GaAllocatorFree. */
    method FreeBlocks(initialBlock: nat, length: nat)
      requires freeBlocks <= 8 * bitmap.Length && initialBlock + length <= freeBlocks
      requires bitmap != contents && contents.Length == freeBlocks * BLOCK_SIZE
      modifies bitmap, contents
      ensures Marks() == ClearRun(old(Marks()), initialBlock, length)
      ensures contents[..] == Cleared(old(contents[..]), initialBlock * BLOCK_SIZE,
          (initialBlock + length) * BLOCK_SIZE)
    {
      hide ClearRun, Cleared;
      ghost var was, bytes := Marks(), contents[..];
      FreeNone(was, bytes, initialBlock);
      for i := 0 to length
        invariant Marks() == ClearRun(was, initialBlock, i)
        invariant contents[..] == Cleared(bytes, initialBlock * BLOCK_SIZE, (initialBlock + i) * BLOCK_SIZE)
      {
        FreeOne(was, bytes, initialBlock, i);
        FreeBlock(initialBlock + i);
      }
    }
  }
}
